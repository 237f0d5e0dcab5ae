/** fetchAPIHealth of the landing page: it polls the health endpoint and writes the
    #api-status and #uptime texts. The response is an input. */
module ApiHealth {
  import Decimal

  /** What the poll produced: a parsed response with its `success` flag and uptime in
      whole seconds, or an exception from fetch or from parsing. */
  datatype HealthOutcome = Responded(success: bool, uptime: nat) | Threw

  const OnlineText: string := "🟢 Online"
  const OfflineText: string := "🔴 Offline"
  const StaticModeText: string := "⚪ Static Mode"
  const UnknownUptimeText: string := "N/A"

  /** Whole hours and the minutes left over: the unique pair with minutes below 60 whose
      total lies within the last minute before the uptime. */
  function SplitUptime(u: nat): (hm: (nat, nat))
    ensures hm.1 < 60
    ensures hm.0 * 3600 + hm.1 * 60 <= u < hm.0 * 3600 + hm.1 * 60 + 60
  {
    var rest := u % 3600;
    assert u == (u / 3600) * 3600 + rest;
    assert rest == (rest / 60) * 60 + rest % 60;
    (u / 3600, rest / 60)
  }

  /** Any pair meeting the contract of SplitUptime is the one it returns. */
  lemma SplitUptimeUnique(u: nat, h: nat, m: nat)
    requires m < 60 && h * 3600 + m * 60 <= u < h * 3600 + m * 60 + 60
    ensures SplitUptime(u) == (h, m)
  {
    var (h', m') := SplitUptime(u);
    assert h * 3600 <= u < (h + 1) * 3600;
    assert h' * 3600 <= u < (h' + 1) * 3600;
    assert h == h';
    assert m * 60 <= u - h * 3600 < m * 60 + 60;
    assert m' * 60 <= u - h * 3600 < m' * 60 + 60;
  }

  /** `${hours}h ${minutes}m`: the hours, "h ", the minutes and "m", each number readable
      back from its digits. */
  function UptimeText(u: nat): (r: string)
    ensures var n := |Decimal.NatToString(SplitUptime(u).0)|;
            |r| > n + 2 && r[n..n + 2] == "h " && r[|r| - 1] == 'm' &&
            r[..n] == Decimal.NatToString(u / 3600) && r[n + 2..|r| - 1] == Decimal.NatToString((u % 3600) / 60) &&
            Decimal.AllDigits(r[..n]) && Decimal.ParseNat(r[..n]) == u / 3600 &&
            Decimal.AllDigits(r[n + 2..|r| - 1]) && Decimal.ParseNat(r[n + 2..|r| - 1]) == (u % 3600) / 60
  {
    var hm := SplitUptime(u);
    var a, b := Decimal.NatToString(hm.0), Decimal.NatToString(hm.1);
    var r := a + "h " + b + "m";
    assert r[..|a|] == a && r[|a| + 2..|r| - 1] == b;
    Decimal.ParseRender(hm.0);
    Decimal.ParseRender(hm.1);
    r
  }

  /** The split depends only on the whole minutes of the uptime. */
  lemma SplitByMinutes(u: nat)
    ensures SplitUptime(u) == ((u / 60) / 60, (u / 60) % 60)
  {
    var hm := SplitUptime(u);
    var m := u / 60;
    assert u == m * 60 + u % 60;
    assert m == (m / 60) * 60 + m % 60;
    assert u == (m / 60) * 3600 + (m % 60) * 60 + u % 60;
  }

  /** Two uptime texts built from numerals agree only when their numerals agree. */
  lemma {:induction false} UptimeTextSplit(a1: string, b1: string, a2: string, b2: string)
    requires Decimal.AllDigits(a1) && Decimal.AllDigits(a2)
    requires a1 + "h " + b1 + "m" == a2 + "h " + b2 + "m"
    ensures a1 == a2 && b1 == b2
  {
    var c1, c2 := b1 + "m", b2 + "m";
    assert a1 + "h " + c1 == a1 + "h " + b1 + "m";
    assert a2 + "h " + c2 == a2 + "h " + b2 + "m";
    Decimal.SplitAtSeparator(a1, c1, a2, c2, "h ");
    assert b1 == c1[..|c1| - 1];
    assert b2 == c2[..|c2| - 1];
  }

  /** Two uptimes get the same text exactly when they have the same whole minutes. */
  lemma UptimeTextInjective(u1: nat, u2: nat)
    ensures UptimeText(u1) == UptimeText(u2) <==> u1 / 60 == u2 / 60
  {
    SplitByMinutes(u1);
    SplitByMinutes(u2);
    var (h1, m1) := SplitUptime(u1);
    var (h2, m2) := SplitUptime(u2);
    if UptimeText(u1) == UptimeText(u2) {
      UptimeTextSplit(Decimal.NatToString(h1), Decimal.NatToString(m1),
                      Decimal.NatToString(h2), Decimal.NatToString(m2));
      Decimal.RenderInjective(h1, h2);
      Decimal.RenderInjective(m1, m2);
      assert u1 / 60 == h1 * 60 + m1;
      assert u2 / 60 == h2 * 60 + m2;
    }
  }


  /** The #api-status and #uptime elements. */
  class HealthPanel {
    var status: string
    var uptime: string

    constructor (initialStatus: string, initialUptime: string)
      ensures status == initialStatus && uptime == initialUptime
    {
      status := initialStatus;
      uptime := initialUptime;
    }

    /** One poll: online with the uptime text, offline with the uptime text left alone,
        or static mode with no known uptime. */
    method FetchApiHealth(outcome: HealthOutcome)
      modifies this
      ensures outcome.Responded? && outcome.success ==> status == OnlineText && uptime == UptimeText(outcome.uptime)
      ensures outcome.Responded? && !outcome.success ==> status == OfflineText && uptime == old(uptime)
      ensures outcome.Threw? ==> status == StaticModeText && uptime == UnknownUptimeText
    {
      match outcome
      case Responded(success, u) =>
        if success {
          status := OnlineText;
          uptime := UptimeText(u);
        } else {
          status := OfflineText;
        }
      case Threw =>
        status := StaticModeText;
        uptime := UnknownUptimeText;
    }
  }
}
