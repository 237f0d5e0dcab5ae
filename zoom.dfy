/** The click-to-zoom handler that applyGalleryAnimations attaches to every gallery
    item; the `zoomed` class of the items is a sequence of flags in document order. */
module GalleryZoom {

  predicate AtMostOneZoomed(z: seq<bool>) {
    forall i, j :: 0 <= i < |z| && 0 <= j < |z| && z[i] && z[j] ==> i == j
  }

  predicate NoneZoomed(z: seq<bool>) {
    forall j :: 0 <= j < |z| ==> !z[j]
  }

  /** The flags after a click on item i: every other item is unzoomed and item i flips. */
  function Click(z: seq<bool>, i: nat): (r: seq<bool>)
    requires i < |z|
    ensures |r| == |z|
    ensures forall j :: 0 <= j < |z| && j != i ==> !r[j]
    ensures r[i] == !z[i]
  {
    seq(|z|, j requires 0 <= j < |z| => j == i && !z[i])
  }

  /** After any click at most one item is zoomed, whatever the flags were before. */
  lemma ClickLeavesAtMostOne(z: seq<bool>, i: nat)
    requires i < |z|
    ensures AtMostOneZoomed(Click(z, i))
  {
  }

  /** A click zooms item i exactly when it was not zoomed. */
  lemma ClickZoomsIffUnzoomed(z: seq<bool>, i: nat)
    requires i < |z|
    ensures Click(z, i)[i] <==> !z[i]
    ensures !z[i] ==> forall j :: 0 <= j < |z| ==> (Click(z, i)[j] <==> j == i)
  {
  }

  /** Clicking the same item twice unzooms every other item and gives item i back its
      own flag, so it leaves nothing zoomed exactly when item i was not zoomed. */
  lemma ClickTwice(z: seq<bool>, i: nat)
    requires i < |z|
    ensures Click(Click(z, i), i)[i] == z[i]
    ensures NoneZoomed(Click(Click(z, i), i)) <==> !z[i]
  {
  }

  /** The flags after a run of clicks. */
  function Clicks(z: seq<bool>, items: seq<nat>): (r: seq<bool>)
    requires forall k :: 0 <= k < |items| ==> items[k] < |z|
    ensures |r| == |z|
    decreases |items|
  {
    if items == [] then z else Click(Clicks(z, items[..|items| - 1]), items[|items| - 1])
  }

  /** Any run of clicks starting with at most one zoomed item keeps it that way. */
  lemma {:induction false} ClicksKeepAtMostOne(z: seq<bool>, items: seq<nat>)
    requires forall k :: 0 <= k < |items| ==> items[k] < |z|
    requires AtMostOneZoomed(z)
    ensures AtMostOneZoomed(Clicks(z, items))
  {
    if items != [] {
      ClickLeavesAtMostOne(Clicks(z, items[..|items| - 1]), items[|items| - 1]);
    }
  }

  /** The handler itself, over the gallery items' flags in place. */
  method ZoomClick(zoomed: array<bool>, i: nat)
    requires i < zoomed.Length
    modifies zoomed
    ensures zoomed[..] == Click(old(zoomed[..]), i)
  {
    var isZoomed := zoomed[i];
    for k := 0 to zoomed.Length
      invariant forall j :: 0 <= j < k && j != i ==> !zoomed[j]
      invariant forall j :: k <= j < zoomed.Length ==> zoomed[j] == old(zoomed[j])
      invariant zoomed[i] == old(zoomed[i])
    {
      if k != i {
        zoomed[k] := false;
      }
    }
    if isZoomed {
      zoomed[i] := false;
    } else {
      zoomed[i] := true;
    }
  }
}
