/** The page furniture of the landing script: the navbar and scroll-to-top thresholds,
    the mobile menu with its button, and the footer year. */
module PageChrome {
  import opened Wrappers
  import Decimal

  /** The navbar gets its shadow past this many pixels of scrolling. */
  const ScrolledThreshold: int := 50
  /** The scroll-to-top button shows past this many pixels. */
  const ScrollTopThreshold: int := 300
  /** Screens at most this wide use the mobile menu. */
  const MobileWidth: int := 768

  /** The classes the script toggles on #navbar, #scrollTopBtn, #navMenu and
      #mobileMenuBtn, and its lastScroll variable. */
  class Header {
    var navbarScrolled: bool
    var scrollTopShown: bool
    var menuActive: bool
    var buttonActive: bool
    var lastScroll: int

    /** The menu and its button agree on whether the menu is open. */
    predicate Paired()
      reads this
    {
      menuActive == buttonActive
    }

    constructor ()
      ensures !navbarScrolled && !scrollTopShown && !menuActive && !buttonActive && lastScroll == 0
      ensures Paired()
    {
      navbarScrolled, scrollTopShown, menuActive, buttonActive, lastScroll := false, false, false, false, 0;
    }

    /** Both scroll listeners for one scroll to `offset`. */
    method OnScroll(offset: int)
      modifies this
      ensures navbarScrolled == (offset > ScrolledThreshold)
      ensures scrollTopShown == (offset > ScrollTopThreshold)
      ensures lastScroll == offset
      ensures menuActive == old(menuActive) && buttonActive == old(buttonActive)
      ensures scrollTopShown ==> navbarScrolled
    {
      if offset > ScrolledThreshold {
        navbarScrolled := true;
      } else {
        navbarScrolled := false;
      }
      lastScroll := offset;
      if offset > ScrollTopThreshold {
        scrollTopShown := true;
      } else {
        scrollTopShown := false;
      }
    }

    /** A click on the menu button toggles the menu and the button together. */
    method ToggleMenu()
      modifies this`menuActive, this`buttonActive
      ensures menuActive == !old(menuActive) && buttonActive == !old(buttonActive)
      ensures Paired() <==> old(Paired())
    {
      menuActive := !menuActive;
      buttonActive := !buttonActive;
    }

    /** The document click handler: a click outside the navbar closes both. */
    method DocumentClick(insideNavbar: bool)
      modifies this`menuActive, this`buttonActive
      ensures insideNavbar ==> menuActive == old(menuActive) && buttonActive == old(buttonActive)
      ensures !insideNavbar ==> !menuActive && !buttonActive
      ensures old(Paired()) ==> Paired()
    {
      if !insideNavbar {
        menuActive := false;
        buttonActive := false;
      }
    }

    /** The anchor click handler as written: on a narrow screen it closes the menu but
        leaves the button's class alone. */
    method AnchorClickAsWritten(targetExists: bool, viewportWidth: int)
      modifies this`menuActive
      ensures targetExists && viewportWidth <= MobileWidth ==> !menuActive
      ensures !(targetExists && viewportWidth <= MobileWidth) ==> menuActive == old(menuActive)
      ensures buttonActive == old(buttonActive)
    {
      if targetExists && viewportWidth <= MobileWidth {
        menuActive := false;
      }
    }

    /** The anchor click handler closing the menu and its button together, so the pair
        stays in step. */
    method AnchorClick(targetExists: bool, viewportWidth: int)
      modifies this`menuActive, this`buttonActive
      ensures targetExists && viewportWidth <= MobileWidth ==> !menuActive && !buttonActive
      ensures !(targetExists && viewportWidth <= MobileWidth) ==>
                menuActive == old(menuActive) && buttonActive == old(buttonActive)
      ensures old(Paired()) ==> Paired()
    {
      if targetExists && viewportWidth <= MobileWidth {
        menuActive := false;
        buttonActive := false;
      }
    }
  }

  /** Opening the menu on a phone and following a link inside the navbar, with the
      handler as written, leaves the button marked open while the menu is closed; the
      next button click then opens the menu and marks the button closed. */
  method AnchorClickAsWrittenUnpairs() returns (h: Header)
    ensures !h.Paired()
  {
    h := new Header();
    h.ToggleMenu();
    h.AnchorClickAsWritten(true, 375);
    h.DocumentClick(true);
    assert h.buttonActive && !h.menuActive;
    h.ToggleMenu();
    assert h.menuActive && !h.buttonActive;
  }

  /** The same clicks with the corrected handler keep the menu and button in step. */
  method AnchorClickKeepsPair() returns (h: Header)
    ensures h.Paired() && !h.menuActive
  {
    h := new Header();
    h.ToggleMenu();
    h.AnchorClick(true, 375);
    h.DocumentClick(true);
  }

  /** An occurrence of pat in s at position k. */
  predicate OccursAt(s: string, pat: string, k: int) {
    0 <= k && k + |pat| <= |s| && s[k..k + |pat|] == pat
  }

  /** The position of the first occurrence of pat in s, if any. */
  function IndexOf(s: string, pat: string): (r: Option<nat>)
    ensures r.Some? ==> OccursAt(s, pat, r.value) && forall k :: 0 <= k < r.value ==> !OccursAt(s, pat, k)
    ensures r.None? ==> forall k :: 0 <= k <= |s| ==> !OccursAt(s, pat, k)
    decreases |s|
  {
    if |s| < |pat| then None
    else if s[..|pat|] == pat then Some(0)
    else
      var rest := IndexOf(s[1..], pat);
      assert forall k :: 1 <= k <= |s| ==> (OccursAt(s, pat, k) <==> OccursAt(s[1..], pat, k - 1)) by {
        forall k | 1 <= k <= |s| ensures OccursAt(s, pat, k) <==> OccursAt(s[1..], pat, k - 1) {
          if k + |pat| <= |s| {
            assert s[1..][k - 1..k - 1 + |pat|] == s[k..k + |pat|];
          }
        }
      }
      match rest
      case None => None
      case Some(k) => Some(k + 1)
  }

  /** `s.replace(pat, rep)` with a string pattern and a replacement containing no `$`
      (JavaScript would expand `$&`, `$$` and the like; rep is inserted literally here):
      only the first occurrence is replaced, and s is returned unchanged when pat does
      not occur. */
  function ReplaceFirst(s: string, pat: string, rep: string): (r: string)
    ensures (forall k :: 0 <= k <= |s| ==> !OccursAt(s, pat, k)) ==> r == s
    ensures forall k :: OccursAt(s, pat, k) && (forall j :: 0 <= j < k ==> !OccursAt(s, pat, j)) ==>
              r == s[..k] + rep + s[k + |pat|..]
  {
    match IndexOf(s, pat)
    case None => s
    case Some(k) => s[..k] + rep + s[k + |pat|..]
  }

  /** The parts of a spliced string can be read back at their positions. */
  lemma SpliceParts(a: string, y: string, b: string)
    ensures (a + y + b)[..|a|] == a && (a + y + b)[|a|..|a| + |y|] == y
  {
  }

  /** After replacing the first occurrence at k, the replacement stands at k and the text
      before k is kept. */
  lemma ReplaceFirstParts(s: string, pat: string, rep: string, k: nat)
    requires OccursAt(s, pat, k) && forall j :: 0 <= j < k ==> !OccursAt(s, pat, j)
    ensures OccursAt(ReplaceFirst(s, pat, rep), rep, k) && ReplaceFirst(s, pat, rep)[..k] == s[..k]
  {
    SpliceParts(s[..k], rep, s[k + |pat|..]);
  }

  /** The year written in the footer markup. */
  const MarkupYear: string := "2024"

  /** The footer paragraph with its first "2024" replaced by the current year: the
      year's numeral stands where that first "2024" stood, and a paragraph without
      "2024" is left as it is. */
  function FooterHtml(html: string, year: nat): (r: string)
    ensures (forall k :: 0 <= k <= |html| ==> !OccursAt(html, MarkupYear, k)) ==> r == html
    ensures forall k :: OccursAt(html, MarkupYear, k) && (forall j :: 0 <= j < k ==> !OccursAt(html, MarkupYear, j)) ==>
              OccursAt(r, Decimal.NatToString(year), k) && r[..k] == html[..k] &&
              Decimal.ParseNat(r[k..k + |Decimal.NatToString(year)|]) == year
  {
    var y := Decimal.NatToString(year);
    Decimal.ParseRender(year);
    forall k | OccursAt(html, MarkupYear, k) && (forall j :: 0 <= j < k ==> !OccursAt(html, MarkupYear, j))
      ensures OccursAt(ReplaceFirst(html, MarkupYear, y), y, k) && ReplaceFirst(html, MarkupYear, y)[..k] == html[..k]
    {
      ReplaceFirstParts(html, MarkupYear, y, k);
    }
    ReplaceFirst(html, MarkupYear, y)
  }

  /** A later "2024" survives: everything after the first occurrence is kept. */
  lemma FooterKeepsLaterText(html: string, year: nat, k: nat)
    requires OccursAt(html, MarkupYear, k) && forall j :: 0 <= j < k ==> !OccursAt(html, MarkupYear, j)
    ensures FooterHtml(html, year)[..k] == html[..k]
    ensures FooterHtml(html, year)[k + |Decimal.NatToString(year)|..] == html[k + |MarkupYear|..]
  {
  }
}
