/** The field clean-up that the gallery grid (createGalleryItem) and the flipbook pages
    (loadFlipbook) both apply to each entry of images.json, and the gallery item built
    from the cleaned fields. */
module GallerySanitize {
  import opened Wrappers

  /** One entry of images.json; each field may be missing. */
  datatype GalleryImage = GalleryImage(
    title: Option<string>,
    alt: Option<string>,
    src: Option<string>,
    description: Option<string>)

  const TitleLimit: nat := 100
  const AltLimit: nat := 100
  const SrcLimit: nat := 500
  const DescriptionLimit: nat := 200
  const DefaultAlt: string := "Gallery image"

  /** JavaScript truthiness of a string field: present and not the empty string. */
  predicate Present(v: Option<string>) {
    v.Some? && v.value != ""
  }

  /** `v || fallback` on a string field. */
  function OrElse(v: Option<string>, fallback: string): string {
    if Present(v) then v.value else fallback
  }

  function Min(a: nat, b: nat): nat {
    if a <= b then a else b
  }

  /** `s.slice(0, n)`: the longest prefix of s that has at most n characters. */
  function Slice(s: string, n: nat): (r: string)
    ensures r <= s
    ensures |r| == Min(|s|, n)
  {
    if |s| <= n then s else s[..n]
  }

  /** The four cleaned fields. */
  datatype SafeFields = SafeFields(title: string, alt: string, src: string, description: string)

  /** The cleaned fields of an image entry: each is the truncated prefix of its source,
      and alt falls back to the title and then to a fixed text. */
  function Sanitize(image: GalleryImage): (f: SafeFields)
    ensures f.title <= OrElse(image.title, "") && |f.title| == Min(|OrElse(image.title, "")|, TitleLimit)
    ensures f.src <= OrElse(image.src, "") && |f.src| == Min(|OrElse(image.src, "")|, SrcLimit)
    ensures f.description <= OrElse(image.description, "")
    ensures |f.description| == Min(|OrElse(image.description, "")|, DescriptionLimit)
    ensures Present(image.alt) ==> f.alt <= image.alt.value && |f.alt| == Min(|image.alt.value|, AltLimit)
    ensures !Present(image.alt) && Present(image.title) ==>
              f.alt <= image.title.value && |f.alt| == Min(|image.title.value|, AltLimit)
    ensures !Present(image.alt) && !Present(image.title) ==> f.alt == DefaultAlt
    ensures |f.title| <= TitleLimit && |f.alt| <= AltLimit
    ensures |f.src| <= SrcLimit && |f.description| <= DescriptionLimit
    ensures f.title != "" <==> Present(image.title)
    ensures f.alt != ""
  {
    SafeFields(
      Slice(OrElse(image.title, ""), TitleLimit),
      Slice(OrElse(image.alt, OrElse(image.title, DefaultAlt)), AltLimit),
      Slice(OrElse(image.src, ""), SrcLimit),
      Slice(OrElse(image.description, ""), DescriptionLimit))
  }

  /** The children of a gallery item element. */
  datatype Node =
    | Img(src: string, alt: string, lazyLoading: bool)
    | Caption(text: string)

  /** A `div.gallery-item`: its title attribute and its children in order. */
  datatype GalleryItem = GalleryItem(titleAttribute: string, children: seq<Node>)

  /** createGalleryItem: an image, followed by a caption with the cleaned title exactly
      when the entry has a title. */
  function CreateGalleryItem(image: GalleryImage): (item: GalleryItem)
    ensures item.titleAttribute == Sanitize(image).description
    ensures Present(image.title) ==>
              item.children == [Img(Sanitize(image).src, Sanitize(image).alt, true), Caption(Sanitize(image).title)]
    ensures !Present(image.title) ==> item.children == [Img(Sanitize(image).src, Sanitize(image).alt, true)]
    ensures forall k :: 0 <= k < |item.children| && item.children[k].Caption? ==> item.children[k].text != ""
  {
    var safe := Sanitize(image);
    var img := Img(safe.src, safe.alt, true);
    if safe.title != "" then
      GalleryItem(safe.description, [img, Caption(safe.title)])
    else
      GalleryItem(safe.description, [img])
  }
}
