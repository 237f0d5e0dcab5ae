# Browser scripts of the orchard landing site, modelled in Dafny

This project models the logic in the two browser scripts of the site.

`public/assets/js/script.js` drives the gallery and flipbook page:
- the flipbook pager: a cover page, one page per image and a back cover; a `currentPage` cursor; the `active` / `flipped` / `flipping-out` / `flipping-in` classes of each page; the "Trang p / n" counter; arrow-key navigation;
- the field clean-up (`slice` limits and `||` fallbacks) that the gallery grid and the flipbook apply to each image entry, and the gallery item built from it;
- the click-to-zoom handler, which keeps at most one gallery item zoomed;
- the active navigation link, chosen from the section the page is scrolled into;
- the page furniture: the scroll thresholds for the navbar shadow and the scroll-to-top button, the mobile menu toggle, and the footer year.

`public/js/main.js` holds `fetchAPIHealth`, which turns the health response into the status text and the "Hh Mm" uptime text.

DOM elements are abstracted:
- a page's class list is a `set<PageClass>`;
- the pages are an `array` of class sets;
- the zoom flags and the link flags are `array<bool>`;
- the texts the scripts write are string fields of small classes.

Network results (`fetch` of `images.json` and `/health`) are inputs. So are the clock year, the viewport width and the scroll offset. Each `setTimeout` callback of the pager runs at once, so `nextPage` and `prevPage` are single atomic steps.

Files:
- `wrappers.dfy`: `Option`.
- `decimal.dfy`: how a template literal renders a whole number, its inverse, and cutting a numeral off a following separator.
- `sanitize.dfy`: module `GallerySanitize`.
- `flipbook.dfy`: module `Flipbook` with class `Book`.
- `zoom.dfy`: module `GalleryZoom`.
- `navhighlight.dfy`: module `NavHighlight`.
- `chrome.dfy`: module `PageChrome` with class `Header`.
- `health.dfy`: module `ApiHealth` with class `HealthPanel`.

The flipbook and the gallery grid clean image fields with the same expressions (script.js:267-270 and :368-371). The model defines that clean-up once, as `GallerySanitize.Sanitize`, and uses it for both.

## Model

| member | source | states |
|---|---|---|
| Decimal.NatToString | public/js/main.js:60 | a rendered whole number is a non-empty string of digits with no leading zero unless it is 0 |
| Decimal.ParseRender | public/js/main.js:60 | reading a rendered number back gives the number |
| Decimal.RenderInjective | public/js/main.js:60 | two numbers render the same exactly when they are equal |
| GallerySanitize.Slice | public/assets/js/script.js:267-270 | `slice(0, n)` gives a prefix of its input of length min(length, n) |
| GallerySanitize.Sanitize | public/assets/js/script.js:368-371 | each cleaned field is a prefix of its source, cut at title 100, alt 100, src 500, description 200; alt comes from the first non-empty of alt and title, else "Gallery image"; the cleaned title is empty exactly when the entry has no title |
| GallerySanitize.CreateGalleryItem | public/assets/js/script.js:366-404 | the item's title attribute is the cleaned description; its children are [img, caption] when the entry has a title and [img] otherwise; the img has the cleaned src and alt and lazy loading; the caption text is the cleaned title and is never empty |
| Flipbook.Contents | public/assets/js/script.js:251-293 | the flipbook has images + 2 pages: cover first, back cover last, and page k + 1 shows image k cleaned |
| Flipbook.CreatedClasses | public/assets/js/script.js:253-286 | every page is created with `page`; only the cover is created `active`; the cover and the back cover carry their own marker class; no page starts flipped or mid-flip |
| Flipbook.CreatePages | public/assets/js/script.js:252-295 | one fresh page element per page of the book, each with the class list it is created with |
| Flipbook.ShowClasses | public/assets/js/script.js:301-308 | for one page: active exactly when it is page p; never flipping out or in; flipped when before p, not flipped when after p, its own flipped flag kept when it is p; kind classes kept |
| Flipbook.ShowAll | public/assets/js/script.js:299-309 | after showPage(p), exactly page p is active; no page is flipping out or in; pages before p are flipped; pages after p are not; page p keeps its own flipped flag; the kind classes are untouched |
| Flipbook.ShownMeans | public/assets/js/script.js:299-309 | in the steady state for page p, exactly page p is active, nothing is mid-flip, a page is flipped exactly when it comes before p, and each page keeps the kind classes it was created with |
| Flipbook.InitialShown | public/assets/js/script.js:252-253 | applying showPage(0) to freshly created pages gives the steady state for the cover |
| Flipbook.NextShown | public/assets/js/script.js:314-322 | a completed nextPage moves the steady state from page p to page p + 1 |
| Flipbook.PrevShown | public/assets/js/script.js:325-336 | a completed prevPage, with its extra removal of `flipped`, moves the steady state from page p to page p - 1 |
| Flipbook.PageDisplayText | public/assets/js/script.js:361 | the counter text starts with "Trang " and is longer than that prefix |
| Flipbook.PageDisplayTextReadsBack | public/assets/js/script.js:361 | after "Trang " the text is exactly the numeral of the page number, then " / ", then the numeral of the total, and both numerals read back as those numbers |
| Flipbook.PageDisplayTextInjective | public/assets/js/script.js:357-363 | the counter text "Trang p / n" determines p and n |
| Flipbook.Book.constructor | public/assets/js/script.js:248-296 | after loading, the book holds images + 2 pages, shows page 0 and keeps the steady-state invariant |
| Flipbook.Book.ShowCover | public/assets/js/script.js:349 | showPage(0) on the pages as created establishes the steady-state invariant on page 0 |
| Flipbook.Book.ShowPage | public/assets/js/script.js:299-311 | the page classes become ShowAll of the old ones, and the counter shows p + 1 of the total when the element exists |
| Flipbook.Book.UpdatePageDisplay | public/assets/js/script.js:358-363 | the counter text is written only when the display element exists |
| Flipbook.Book.NextPage | public/assets/js/script.js:314-322 | the cursor moves on by one unless it is on the last page, where nothing changes; the invariant is kept; without a counter element the counter text is untouched |
| Flipbook.Book.FinishNext | public/assets/js/script.js:317-320 | the timer callback of nextPage, run on a page marked flipping-out, moves the cursor on by one and restores the invariant |
| Flipbook.Book.PrevPage | public/assets/js/script.js:325-336 | the cursor moves back by one unless it is on page 0, where nothing changes; the page that becomes current is not flipped; without a counter element the counter text is untouched |
| Flipbook.Book.FinishPrev | public/assets/js/script.js:329-334 | the timer callback of prevPage, run on a page marked flipping-in, moves the cursor back by one, drops the flipped class of the new current page and restores the invariant |
| Flipbook.Book.KeyDown | public/assets/js/script.js:343-346 | ArrowLeft acts as prevPage, ArrowRight as nextPage; any other key changes nothing; without a counter element the counter text is untouched |
| Flipbook.LoadFlipbook | public/assets/js/script.js:241-354 | a failed fetch or parse shows the error paragraph and builds no book; otherwise the book is built from the image list, starts on page 0, has a counter exactly when the element exists, and the counter reads "Trang 1 / n" for n = images + 2 pages, or keeps its old text when there is no element |
| GalleryZoom.Click | public/assets/js/script.js:416-432 | a click unzooms every other item and negates the zoom of the clicked one |
| GalleryZoom.ClickLeavesAtMostOne | public/assets/js/script.js:416-432 | after any click at most one item is zoomed |
| GalleryZoom.ClickZoomsIffUnzoomed | public/assets/js/script.js:427-431 | a click zooms the item exactly when it was not zoomed, and then it is the only zoomed item |
| GalleryZoom.ClickTwice | public/assets/js/script.js:416-432 | two clicks on one item restore its flag and unzoom the rest, so nothing is zoomed exactly when it was not zoomed before |
| GalleryZoom.Clicks | public/assets/js/script.js:416-432 | a run of clicks keeps the number of items |
| GalleryZoom.ClicksKeepAtMostOne | public/assets/js/script.js:416-432 | any run of clicks from a state with at most one zoomed item keeps at most one zoomed |
| GalleryZoom.ZoomClick | public/assets/js/script.js:416-432 | the in-place handler leaves the flags equal to Click of the old flags |
| NavHighlight.LastCoveringId | public/assets/js/script.js:109-119 | the id of the last section, in document order, with top - 100 <= scroll < top - 100 + height, or "" if there is none |
| NavHighlight.Covers | public/assets/js/script.js:113-116 | a section covers the scroll position exactly when the position lies less than its height below its top minus 100, which needs a positive height |
| NavHighlight.CurrentSection | public/assets/js/script.js:109-119 | the loop over the sections computes LastCoveringId |
| NavHighlight.Anchor | public/assets/js/script.js:123 | the anchor is "#" followed by exactly the section id |
| NavHighlight.MarkLinks | public/assets/js/script.js:121-126 | a link is active if and only if its href equals "#" + current |
| NavHighlight.HighlightActiveNavLink | public/assets/js/script.js:105-127 | a link is active if and only if its href is "#" followed by the id of the last covering section |
| NavHighlight.NoSectionMarksBareAnchor | public/assets/js/script.js:121-126 | when no section covers the scroll position, only links with href exactly "#" are active |
| NavHighlight.LastCoveringSectionPicked | public/assets/js/script.js:112-119 | a covering section after which no other section covers is the one whose id is picked |
| ApiHealth.SplitUptime | public/js/main.js:58-59 | minutes lie in 0..59 and hours*3600 + minutes*60 <= uptime < hours*3600 + minutes*60 + 60 |
| ApiHealth.SplitUptimeUnique | public/js/main.js:58-59 | the pair that SplitUptime returns is the only one that meets that bound |
| ApiHealth.SplitByMinutes | public/js/main.js:58-59 | hours and minutes depend only on the whole minutes of the uptime |
| ApiHealth.UptimeTextSplit | public/js/main.js:60 | two "Hh Mm" texts built from numerals are equal only when the hour numerals and the minute numerals are |
| ApiHealth.UptimeText | public/js/main.js:58-60 | the text is exactly the numeral of uptime / 3600, "h ", the numeral of (uptime % 3600) / 60 and "m", and both numerals read back as those numbers |
| ApiHealth.UptimeTextInjective | public/js/main.js:58-60 | two uptimes get the same "Hh Mm" text exactly when they have the same whole minutes |
| ApiHealth.HealthPanel.FetchApiHealth | public/js/main.js:48-69 | success: status "🟢 Online" and uptime text "Hh Mm"; failure: status "🔴 Offline" with the uptime text untouched; exception: status "⚪ Static Mode" and uptime text "N/A" |
| PageChrome.Header.constructor | public/assets/js/script.js:39-40 | `lastScroll` starts at 0, and the markup starts with no shadow on the navbar, the scroll-top button hidden and the menu and its button closed, so the two start in step |
| PageChrome.Header.OnScroll | public/assets/js/script.js:42-64 | the navbar shadow is on exactly when the offset is over 50; the scroll-top button shows exactly when the offset is over 300; the menu is untouched |
| PageChrome.Header.ToggleMenu | public/assets/js/script.js:25-28 | the menu and its button toggle together, so whether they agree is unchanged |
| PageChrome.Header.DocumentClick | public/assets/js/script.js:31-36 | a click outside the navbar closes menu and button; a click inside changes nothing |
| PageChrome.Header.AnchorClickAsWritten | public/assets/js/script.js:13-16 | as written: on a screen at most 768 wide with an existing target, the menu closes and the button class is left as it was |
| PageChrome.AnchorClickAsWrittenUnpairs | public/assets/js/script.js:13-28 | opening the menu, following a link inside the navbar and clicking the button again leaves the menu open while the button is marked closed |
| PageChrome.Header.AnchorClick | public/assets/js/script.js:13-16 | corrected: the anchor click closes the menu and its button together and keeps them in step |
| PageChrome.AnchorClickKeepsPair | public/assets/js/script.js:13-36 | the same clicks with the corrected handler leave menu and button closed and in step |
| PageChrome.IndexOf | public/assets/js/script.js:155 | the first position where the pattern occurs, or none when it occurs nowhere |
| PageChrome.ReplaceFirst | public/assets/js/script.js:155 | `replace` with a string pattern and a replacement without `$` inserts the replacement literally at the first occurrence only, and returns the input unchanged when there is none |
| PageChrome.ReplaceFirstParts | public/assets/js/script.js:155 | after the replacement of the first occurrence at k, the replacement stands at k and everything before k is kept |
| PageChrome.FooterHtml | public/assets/js/script.js:155 | the current year's digits stand where the first "2024" stood, the text before it is kept and the digits read back as the year; a paragraph without "2024" is unchanged |
| PageChrome.FooterKeepsLaterText | public/assets/js/script.js:152-156 | the footer text before the first "2024" and after it, including any later "2024", is kept |

## Left out

- Page elements the scripts use without a null check are assumed present: `#mobileMenuBtn`, `#navMenu`, `#scrollTopBtn`, `#navbar` and `.navbar` (script.js), `#prevBtn` and `#nextBtn` (loadFlipbook), and `#api-status` and `#uptime` (main.js). Without them the source throws. A missing `#mobileMenuBtn` (script.js:25) or `#scrollTopBtn` (:66) stops the script at load, so the DOMContentLoaded hook (:89) that loads the gallery and flipbook and the nav-highlight listeners (:129-130) are never attached. A missing `#prevBtn` or `#nextBtn` (:339-340) throws inside the try, so a fully built book is replaced by the error paragraph (:353). A missing `#uptime` makes main.js:60 throw after "🟢 Online" is written; the catch then writes "⚪ Static Mode" (:66) and throws again at :67, so an online server is shown as static mode. Only the missing `#flipbook` case, which the source checks, is a handled path, and it is listed below.
- Timer overlap in the pager: the bound check of nextPage/prevPage (script.js:315, :326) runs 300 ms before the cursor moves (:318, :330). Two clicks within that window can push `currentPage` past the last page or below 0. The model runs each callback at once, so transitions never overlap. The brief `flipping-out`/`flipping-in` state between a click and its callback is therefore not observable.
- Flipbook.Book.constructor: assumes the `#flipbook` element starts with no `.page` children, so `pages` holds exactly the pages the script appends. A missing `#flipbook` element, which only logs an error, is not modelled.
- Flipbook.LoadFlipbook: network, HTTP status and JSON parsing are folded into one `Option` input. It does not model a failure part-way through building the pages, for example when `data.images` is missing. In that case the error paragraph replaces the partial book just the same.
- HTML safety: the flipbook puts the cleaned values into `innerHTML` without escaping. No injection property is stated, and the page markup itself is not modelled beyond what each page shows.
- `String(...)` coercion of non-string JSON values and the UTF-16 code-unit semantics of `slice`: fields are `Option<string>` and `slice` works on characters.
- The image `error` handler that swaps in a placeholder (script.js:384-390): it is event-driven DOM work with no state the rest reads.
- `loadGallery`'s grid rendering (script.js:186-230): it clears the grid and appends `CreateGalleryItem` of each entry, or shows an error paragraph. Only the per-item function is modelled.
- Animations and floating point: IntersectionObserver fades, the body fade-in, the parallax `scrolled * 0.5`, card tilt `/ 20`, smooth scrolling.
- Scroll offsets and section geometry are integers. `pageYOffset` can be fractional in browsers.
- An anchor with href exactly `#` makes `querySelector('#')` throw. The model's `targetExists = false` input stands for that case. It has the same effect on the menu.
- ApiHealth.SplitUptime: works on whole seconds. `process.uptime()` is fractional, but for non-negative values floor division gives the same hours and minutes from its floor. A response with `success` true and no numeric `uptime` (rendered "NaNh NaNm") is not modelled.
- PageChrome.ReplaceFirst: inserts the replacement literally. JavaScript expands `$&`, `$$` and similar patterns in a replacement string; the footer's replacement is a year's digits, which contain no `$`.
- Decimal.NatToString: JavaScript switches to exponent notation at 10^21 and beyond; the model always writes plain digits.
- The 30-second `setInterval` polling of `fetchAPIHealth`: each poll is one call of `FetchApiHealth`.
- Express wiring, the static build script, the auth tests and the Jest configuration are not part of this model.

## Findings

| source | as written | input that shows it | evidently intended | confidence | as-written member | corrected member |
|---|---|---|---|---|---|---|
| public/assets/js/script.js:14-16 | a nav-link click on a screen at most 768 px wide removes `active` from `#navMenu` only | open the menu with the button, then click a link inside the navbar: the menu closes, the button stays `active`, and the next button click opens the menu while marking the button inactive | close the menu and the button together, as the toggle (:25-28) and the outside-click handler (:31-36) do | medium; not executed | PageChrome.AnchorClickAsWrittenUnpairs | PageChrome.Header.AnchorClick |
