/** The `Image` component: which rendition of an image the thumbnail shows, whether
    its link is marked selected, and what a click on it forwards. */
module ImageView {
  import opened Base
  import Selection

  /** The rendition `Image` asks for when no `thumb` prop is given. */
  const DefaultThumb := "c"
  /** The large rendition that the default thumb is cut from. */
  const LargeRendition := "l"
  /** The empty thumb name: the original image. */
  const OriginalThumb := ""

  /** The props of `Image`; `None` is a prop that is not passed. `onSelectImage` says
      whether a click handler was passed. */
  datatype ImageProps = ImageProps(
    image: Image,
    thumb: Option<string>,
    onSelectImage: bool,
    selectedImagesIds: Option<seq<ImageId>>)

  /** What the component renders: a link to the image page, its `selected` class, and
      the image key and thumb handed to the URL helper. */
  datatype Link = Link(to: ImageId, selected: bool, imageKey: string, thumb: string)

  /** `defaultProps`: the thumb `'c'` when none is passed. */
  function ThumbProp(props: ImageProps): (t: string)
    ensures props.thumb.None? ==> t == DefaultThumb
    ensures props.thumb.Some? ==> t == props.thumb.value
  {
    match props.thumb
    case None => DefaultThumb
    case Some(t) => t
  }

  /** `defaultProps`: no selected ids when none are passed. */
  function SelectedProp(props: ImageProps): (ids: seq<ImageId>)
    ensures props.selectedImagesIds.None? ==> ids == []
    ensures props.selectedImagesIds.Some? ==> ids == props.selectedImagesIds.value
  {
    match props.selectedImagesIds
    case None => []
    case Some(ids) => ids
  }

  /** The thumb actually shown: the default thumb falls back to the original when the
      image has no large rendition; every other thumb is kept. */
  function EffectiveThumb(thumb: string, thumbsnails: seq<string>): (r: string)
    ensures r == thumb || r == OriginalThumb
    ensures r != thumb <==> thumb == DefaultThumb && LargeRendition !in thumbsnails
  {
    if thumb == DefaultThumb && LargeRendition !in thumbsnails then OriginalThumb else thumb
  }

  function Render(props: ImageProps): Link
  {
    Link(props.image.id,
         props.image.id in SelectedProp(props),
         props.image.key,
         EffectiveThumb(ThumbProp(props), props.image.thumbsnails))
  }

  /** A click: the id passed to `onSelectImage`, or nothing without a handler. */
  function OnClick(props: ImageProps): (r: Option<ImageId>)
    ensures r.Some? <==> props.onSelectImage
    ensures r.Some? ==> r.value == props.image.id
  {
    if props.onSelectImage then Some(props.image.id) else None
  }

  /** The rendered link points at the image and names its key; the thumb follows the
      fallback rule; the link is selected exactly when the image's id is selected. */
  lemma RenderFacts(props: ImageProps)
    ensures var link := Render(props);
      && link.to == props.image.id
      && link.imageKey == props.image.key
      && (link.selected <==> props.selectedImagesIds.Some? && props.image.id in props.selectedImagesIds.value)
      && (props.thumb == Some(DefaultThumb) || props.thumb.None? ==>
            link.thumb == (if LargeRendition in props.image.thumbsnails then DefaultThumb else OriginalThumb))
      && (props.thumb.Some? && props.thumb.value != DefaultThumb ==> link.thumb == props.thumb.value)
  {
  }

  /** With no thumb and no selection passed, the link shows the large cut or the
      original, and is never selected. */
  lemma RenderDefaults(image: Image, onSelectImage: bool)
    ensures var link := Render(ImageProps(image, None, onSelectImage, None));
      && !link.selected
      && (LargeRendition in image.thumbsnails ==> link.thumb == DefaultThumb)
      && (LargeRendition !in image.thumbsnails ==> link.thumb == OriginalThumb)
  {
  }

  /** The thumb `'b'` that the image list passes is shown whatever renditions exist. */
  lemma ListThumbPassesThrough(image: Image, onSelectImage: bool, ids: Option<seq<ImageId>>)
    ensures Render(ImageProps(image, Some("b"), onSelectImage, ids)).thumb == "b"
  {
  }

  /** A click that the perspective turns into a toggle of the selection flips the
      `selected` class of the clicked image's link. */
  lemma ClickFlipsSelected(props: ImageProps, ids: seq<ImageId>)
    requires props.onSelectImage && Distinct(ids)
    requires props.selectedImagesIds == Some(ids)
    ensures var after := props.(selectedImagesIds := Some(Selection.Toggle(ids, OnClick(props).value)));
      Render(after).selected == !Render(props).selected
  {
    Selection.ToggleMembership(ids, props.image.id);
  }
}
