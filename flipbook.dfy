/** The flipbook pager of loadFlipbook: a cover page, one page per image and a back
    cover, a cursor currentPage over them, and the class list of every page element.
    Each setTimeout callback of nextPage and prevPage runs at once, so a transition is
    one atomic step. */
module Flipbook {
  import opened Wrappers
  import opened GallerySanitize
  import Decimal

  /** The class names that the pager reads or writes on a page element. */
  datatype PageClass = Page | CoverPage | BackCoverPage | Active | Flipped | FlippingOut | FlippingIn

  /** What a page element shows. */
  datatype PageContent = Cover | ImagePage(fields: SafeFields) | BackCover

  /** Error paragraph that replaces the flipbook when loading fails. */
  const LoadErrorHtml: string :=
    "<p class=\"gallery-error-message\">Không thể tải thư viện hình ảnh. Vui lòng thử lại sau.</p>"

  /** The pages built from the image list: cover, one page per image in order, back cover. */
  function Contents(images: seq<GalleryImage>): (cs: seq<PageContent>)
    ensures |cs| == |images| + 2
    ensures cs[0] == Cover && cs[|cs| - 1] == BackCover
    ensures forall k :: 0 <= k < |images| ==> cs[k + 1] == ImagePage(Sanitize(images[k]))
  {
    [Cover] + seq(|images|, k requires 0 <= k < |images| => ImagePage(Sanitize(images[k]))) + [BackCover]
  }

  /** The className each page element is created with: every page is a `page`, only the
      cover starts active, the two covers carry their own marker, and no page starts
      flipped or mid-flip. */
  function CreatedClasses(c: PageContent): (r: set<PageClass>)
    ensures Page in r
    ensures Active in r <==> c.Cover?
    ensures CoverPage in r <==> c.Cover?
    ensures BackCoverPage in r <==> c.BackCover?
    ensures Flipped !in r && FlippingOut !in r && FlippingIn !in r
  {
    match c
    case Cover => {Page, CoverPage, Active}
    case ImagePage(_) => {Page}
    case BackCover => {Page, BackCoverPage}
  }

  /** The classes that tell the kind of a page; the pager never changes them. */
  function KindClasses(c: PageContent): set<PageClass> {
    CreatedClasses(c) - {Active}
  }

  const Kinds: set<PageClass> := {Page, CoverPage, BackCoverPage}

  /** The class list of page `index` after showPage(p), given its class list before:
      active exactly when it is page p, never mid-flip, flipped when it comes before p,
      not flipped when it comes after, and with its kind classes kept. */
  function ShowClasses(c: set<PageClass>, index: int, p: int): (r: set<PageClass>)
    ensures Active in r <==> index == p
    ensures FlippingOut !in r && FlippingIn !in r
    ensures index < p ==> Flipped in r
    ensures index > p ==> Flipped !in r
    ensures index == p ==> (Flipped in r <==> Flipped in c)
    ensures r * Kinds == c * Kinds
  {
    var cleared := c - {Active, FlippingOut, FlippingIn};
    if index == p then cleared + {Active}
    else if index < p then cleared + {Flipped}
    else cleared - {Flipped}
  }

  /** The class lists of all pages after showPage(p): exactly page p is active, nothing
      is mid-flip, earlier pages are flipped, later ones are not, page p keeps its own
      flipped flag, and the kind classes stay as they were. */
  function ShowAll(cs: seq<set<PageClass>>, p: int): (r: seq<set<PageClass>>)
    ensures |r| == |cs|
    ensures forall i :: 0 <= i < |r| ==> (Active in r[i] <==> i == p)
    ensures forall i :: 0 <= i < |r| ==> FlippingOut !in r[i] && FlippingIn !in r[i]
    ensures forall i :: 0 <= i < |r| && i < p ==> Flipped in r[i]
    ensures forall i :: 0 <= i < |r| && i > p ==> Flipped !in r[i]
    ensures 0 <= p < |r| ==> (Flipped in r[p] <==> Flipped in cs[p])
    ensures forall i :: 0 <= i < |r| ==> r[i] * Kinds == cs[i] * Kinds
  {
    seq(|cs|, i requires 0 <= i < |cs| => ShowClasses(cs[i], i, p))
  }

  /** The class list every page has while page p is the current one and no transition
      is running. */
  function ShownClasses(c: PageContent, index: int, p: int): set<PageClass> {
    KindClasses(c) + (if index == p then {Active} else {}) + (if index < p then {Flipped} else {})
  }

  predicate Shown(cs: seq<set<PageClass>>, contents: seq<PageContent>, p: int) {
    |cs| == |contents| && forall i :: 0 <= i < |cs| ==> cs[i] == ShownClasses(contents[i], i, p)
  }

  /** The text of the page counter for page number `page` (counted from 1): it starts
      with "Trang " and is longer than any counter prefix. */
  function PageDisplayText(page: nat, total: nat): (r: string)
    ensures |r| >= 11 && r[..6] == "Trang "
  {
    "Trang " + Decimal.NatToString(page) + " / " + Decimal.NatToString(total)
  }

  /** After "Trang " come the page number, " / " and the total, each readable back from
      its digits. */
  lemma PageDisplayTextReadsBack(page: nat, total: nat)
    ensures var r, n := PageDisplayText(page, total), |Decimal.NatToString(page)|;
            |r| > 6 + n + 3 && r[6 + n..6 + n + 3] == " / " &&
            r[6..6 + n] == Decimal.NatToString(page) && r[6 + n + 3..] == Decimal.NatToString(total) &&
            Decimal.AllDigits(r[6..6 + n]) && Decimal.ParseNat(r[6..6 + n]) == page &&
            Decimal.AllDigits(r[6 + n + 3..]) && Decimal.ParseNat(r[6 + n + 3..]) == total
  {
    var a, b := Decimal.NatToString(page), Decimal.NatToString(total);
    Decimal.FourParts("Trang ", a, " / ", b);
    Decimal.ParseRender(page);
    Decimal.ParseRender(total);
  }

  /** Two counter texts built from numerals agree only when their numerals agree. */
  lemma {:induction false} CounterTextSplit(a1: string, b1: string, a2: string, b2: string)
    requires Decimal.AllDigits(a1) && Decimal.AllDigits(a2)
    requires "Trang " + a1 + " / " + b1 == "Trang " + a2 + " / " + b2
    ensures a1 == a2 && b1 == b2
  {
    var s1, s2 := "Trang " + a1 + " / " + b1, "Trang " + a2 + " / " + b2;
    assert a1 + " / " + b1 == s1[6..];
    assert a2 + " / " + b2 == s2[6..];
    Decimal.SplitAtSeparator(a1, b1, a2, b2, " / ");
  }

  /** The counter text tells page and total apart: different pairs, different texts. */
  lemma PageDisplayTextInjective(p1: nat, t1: nat, p2: nat, t2: nat)
    ensures PageDisplayText(p1, t1) == PageDisplayText(p2, t2) <==> p1 == p2 && t1 == t2
  {
    if PageDisplayText(p1, t1) == PageDisplayText(p2, t2) {
      CounterTextSplit(Decimal.NatToString(p1), Decimal.NatToString(t1),
                       Decimal.NatToString(p2), Decimal.NatToString(t2));
      Decimal.RenderInjective(p1, p2);
      Decimal.RenderInjective(t1, t2);
    }
  }

  /** While page p is shown, exactly page p is active, no page is mid-flip, and a page
      is flipped exactly when it comes before p. */
  lemma ShownMeans(cs: seq<set<PageClass>>, contents: seq<PageContent>, p: int)
    requires Shown(cs, contents, p)
    ensures forall i :: 0 <= i < |cs| ==> (Active in cs[i] <==> i == p)
    ensures forall i :: 0 <= i < |cs| ==> FlippingOut !in cs[i] && FlippingIn !in cs[i]
    ensures forall i :: 0 <= i < |cs| ==> (Flipped in cs[i] <==> i < p)
    ensures forall i :: 0 <= i < |cs| ==> cs[i] * Kinds == KindClasses(contents[i])
  {
    forall i | 0 <= i < |cs| ensures cs[i] * Kinds == KindClasses(contents[i]) {
      assert cs[i] == ShownClasses(contents[i], i, p);
    }
  }

  /** showPage(0) on freshly created pages shows the cover. */
  lemma {:induction false} InitialShown(created: seq<set<PageClass>>, contents: seq<PageContent>)
    requires |created| == |contents| >= 1 && contents[0] == Cover
    requires forall i :: 0 <= i < |created| ==> created[i] == CreatedClasses(contents[i])
    ensures Shown(ShowAll(created, 0), contents, 0)
  {
    var r := ShowAll(created, 0);
    forall i | 0 <= i < |contents| ensures r[i] == ShownClasses(contents[i], i, 0) {
      assert r[i] == ShowClasses(created[i], i, 0);
    }
  }

  /** One completed nextPage: mark page p flipping-out, then showPage(p + 1). */
  lemma {:induction false} NextShown(cs: seq<set<PageClass>>, contents: seq<PageContent>, p: nat)
    requires Shown(cs, contents, p) && p + 1 < |cs|
    ensures Shown(ShowAll(cs[p := cs[p] + {FlippingOut}], p + 1), contents, p + 1)
  {
    var marked := cs[p := cs[p] + {FlippingOut}];
    var r := ShowAll(marked, p + 1);
    forall i | 0 <= i < |cs| ensures r[i] == ShownClasses(contents[i], i, p + 1) {
      assert r[i] == ShowClasses(marked[i], i, p + 1);
      assert cs[i] == ShownClasses(contents[i], i, p);
    }
  }

  /** One completed prevPage: mark page p flipping-in, showPage(p - 1), then drop the
      flipped class of page p - 1. */
  lemma {:induction false} PrevShown(cs: seq<set<PageClass>>, contents: seq<PageContent>, p: nat)
    requires Shown(cs, contents, p) && 0 < p < |cs|
    ensures var r := ShowAll(cs[p := cs[p] + {FlippingIn}], p - 1);
            Shown(r[p - 1 := r[p - 1] - {Flipped}], contents, p - 1)
  {
    var marked := cs[p := cs[p] + {FlippingIn}];
    var r := ShowAll(marked, p - 1);
    var r' := r[p - 1 := r[p - 1] - {Flipped}];
    forall i | 0 <= i < |cs| ensures r'[i] == ShownClasses(contents[i], i, p - 1) {
      assert r[i] == ShowClasses(marked[i], i, p - 1);
      assert cs[i] == ShownClasses(contents[i], i, p);
    }
  }

  /** The page elements as appended to the flipbook, each with its created className. */
  method CreatePages(cs: seq<PageContent>) returns (pages: array<set<PageClass>>)
    ensures fresh(pages)
    ensures pages.Length == |cs| && forall i :: 0 <= i < |cs| ==> pages[i] == CreatedClasses(cs[i])
  {
    pages := new set<PageClass>[|cs|](i requires 0 <= i < |cs| => CreatedClasses(cs[i]));
  }

  /** The #flipbook element after a successful load, and the #pageDisplay counter. */
  class Book {
    const contents: seq<PageContent>
    const pages: array<set<PageClass>>
    const hasDisplay: bool
    var currentPage: nat
    var display: string

    ghost predicate Valid()
      reads this, pages
    {
      pages.Length == |contents| >= 2 &&
      contents[0] == Cover && contents[|contents| - 1] == BackCover &&
      currentPage < pages.Length &&
      Shown(pages[..], contents, currentPage) &&
      (hasDisplay ==> display == PageDisplayText(currentPage + 1, pages.Length))
    }

    /** The try branch of loadFlipbook: build the pages and show the cover. */
    constructor (images: seq<GalleryImage>, displayPresent: bool, initialDisplay: string)
      ensures Valid() && fresh(pages)
      ensures contents == Contents(images) && pages.Length == |images| + 2
      ensures hasDisplay == displayPresent && currentPage == 0
      ensures !displayPresent ==> display == initialDisplay
    {
      var cs := Contents(images);
      var created := CreatePages(cs);
      contents := cs;
      pages := created;
      hasDisplay := displayPresent;
      display := initialDisplay;
      currentPage := 0;
      new;
      ShowCover();
    }

    /** The showPage(0) that ends the try branch, run on the pages as created. */
    method ShowCover()
      requires pages.Length == |contents| >= 2 && currentPage == 0
      requires contents[0] == Cover && contents[|contents| - 1] == BackCover
      requires forall i :: 0 <= i < pages.Length ==> pages[i] == CreatedClasses(contents[i])
      modifies pages, this`display
      ensures Valid() && currentPage == 0
      ensures !hasDisplay ==> display == old(display)
    {
      ghost var before := pages[..];
      InitialShown(before, contents);
      ShowPage(0);
      assert pages[..] == ShowAll(before, 0);
    }

    /** showPage(p): reset the classes of every page, then update the counter. */
    method ShowPage(p: nat)
      requires pages.Length == |contents| && p < pages.Length
      modifies pages, this`display
      ensures pages[..] == ShowAll(old(pages[..]), p)
      ensures display == if hasDisplay then PageDisplayText(p + 1, pages.Length) else old(display)
    {
      for i := 0 to pages.Length
        invariant forall k :: 0 <= k < i ==> pages[k] == ShowClasses(old(pages[k]), k, p)
        invariant forall k :: i <= k < pages.Length ==> pages[k] == old(pages[k])
        invariant display == old(display)
      {
        pages[i] := ShowClasses(pages[i], i, p);
      }
      UpdatePageDisplay(p + 1, pages.Length);
    }

    /** updatePageDisplay: write the counter when the element exists. */
    method UpdatePageDisplay(page: nat, total: nat)
      modifies this`display
      ensures display == if hasDisplay then PageDisplayText(page, total) else old(display)
    {
      if hasDisplay {
        display := PageDisplayText(page, total);
      }
    }

    /** nextPage: on the last page nothing happens; otherwise the cursor moves one on. */
    method NextPage()
      requires Valid()
      modifies pages, this`currentPage, this`display
      ensures Valid()
      ensures currentPage == if old(currentPage) < pages.Length - 1 then old(currentPage) + 1 else old(currentPage)
      ensures old(currentPage) == pages.Length - 1 ==> pages[..] == old(pages[..]) && display == old(display)
      ensures !hasDisplay ==> display == old(display)
    {
      if currentPage < pages.Length - 1 {
        ghost var before := pages[..];
        pages[currentPage] := pages[currentPage] + {FlippingOut};
        FinishNext(before);
      }
    }

    /** The setTimeout callback of nextPage, run once page p carries flipping-out: move
        the cursor to p + 1 and show that page. */
    method FinishNext(ghost before: seq<set<PageClass>>)
      requires pages.Length == |contents| >= 2
      requires contents[0] == Cover && contents[|contents| - 1] == BackCover
      requires currentPage + 1 < pages.Length && Shown(before, contents, currentPage)
      requires pages[..] == before[currentPage := before[currentPage] + {FlippingOut}]
      modifies pages, this`currentPage, this`display
      ensures Valid() && currentPage == old(currentPage) + 1
      ensures !hasDisplay ==> display == old(display)
    {
      ghost var marked := pages[..];
      NextShown(before, contents, currentPage);
      currentPage := currentPage + 1;
      ShowPage(currentPage);
      assert pages[..] == ShowAll(marked, currentPage);
    }

    /** prevPage: on the cover nothing happens; otherwise the cursor moves one back and
        the page that becomes current loses its flipped class. */
    method PrevPage()
      requires Valid()
      modifies pages, this`currentPage, this`display
      ensures Valid()
      ensures currentPage == if old(currentPage) > 0 then old(currentPage) - 1 else old(currentPage)
      ensures old(currentPage) == 0 ==> pages[..] == old(pages[..]) && display == old(display)
      ensures !hasDisplay ==> display == old(display)
      ensures Flipped !in pages[currentPage]
    {
      if currentPage > 0 {
        ghost var before := pages[..];
        pages[currentPage] := pages[currentPage] + {FlippingIn};
        FinishPrev(before);
      }
      ShownMeans(pages[..], contents, currentPage);
    }

    /** The setTimeout callback of prevPage, run once page p carries flipping-in: move
        the cursor to p - 1, show that page and take its flipped class away. */
    method FinishPrev(ghost before: seq<set<PageClass>>)
      requires pages.Length == |contents| >= 2
      requires contents[0] == Cover && contents[|contents| - 1] == BackCover
      requires 0 < currentPage < pages.Length && Shown(before, contents, currentPage)
      requires pages[..] == before[currentPage := before[currentPage] + {FlippingIn}]
      modifies pages, this`currentPage, this`display
      ensures Valid() && currentPage == old(currentPage) - 1
      ensures !hasDisplay ==> display == old(display)
    {
      ghost var marked := pages[..];
      PrevShown(before, contents, currentPage);
      currentPage := currentPage - 1;
      ShowPage(currentPage);
      assert pages[..] == ShowAll(marked, currentPage);
      ghost var shown := pages[..];
      pages[currentPage] := pages[currentPage] - {Flipped};
      assert pages[..] == shown[currentPage := shown[currentPage] - {Flipped}];
    }

    /** The keydown handler: ArrowLeft goes back, ArrowRight goes on, any other key does
        nothing. */
    method KeyDown(key: string)
      requires Valid()
      modifies pages, this`currentPage, this`display
      ensures Valid()
      ensures key == "ArrowLeft" ==>
                currentPage == if old(currentPage) > 0 then old(currentPage) - 1 else old(currentPage)
      ensures key == "ArrowRight" ==>
                currentPage == if old(currentPage) < pages.Length - 1 then old(currentPage) + 1 else old(currentPage)
      ensures key != "ArrowLeft" && key != "ArrowRight" ==>
                currentPage == old(currentPage) && pages[..] == old(pages[..]) && display == old(display)
      ensures !hasDisplay ==> display == old(display)
    {
      if key == "ArrowLeft" {
        PrevPage();
      }
      if key == "ArrowRight" {
        NextPage();
      }
    }
  }

  /** loadFlipbook with the fetched image list as input: None stands for a failed fetch
      or an unreadable response, which replaces the flipbook by the error paragraph. */
  method LoadFlipbook(fetched: Option<seq<GalleryImage>>, displayPresent: bool, initialDisplay: string)
    returns (book: Book?, errorHtml: string)
    ensures fetched.None? ==> book == null && errorHtml == LoadErrorHtml
    ensures fetched.Some? ==>
              book != null && fresh(book) && fresh(book.pages) && book.Valid() && errorHtml == "" &&
              book.contents == Contents(fetched.value) && book.currentPage == 0 &&
              book.hasDisplay == displayPresent &&
              (displayPresent ==> book.display == PageDisplayText(1, |fetched.value| + 2)) &&
              (!displayPresent ==> book.display == initialDisplay)
  {
    match fetched
    case None =>
      book, errorHtml := null, LoadErrorHtml;
    case Some(images) =>
      book := new Book(images, displayPresent, initialDisplay);
      errorHtml := "";
  }
}
