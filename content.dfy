/**
 * Shapes of the documents the site stores: Portable Text blocks and spans,
 * and image references.
 */
module Content {
  import opened JsText

  /** A Portable Text span; `text` may be missing in content coming from the store. */
  datatype Span = Span(typ: string, text: Option<string>)

  /** A Portable Text element: `_type`, an optional `style` and optional `children`. */
  datatype Block = Block(typ: string, style: Option<string>, children: Option<seq<Span>>)

  /** A block holding one span of text, as the editor and the API build them. */
  function TextBlock(style: string, text: string): Block {
    Block("block", Some(style), Some([Span("span", Some(text))]))
  }

  datatype AssetRef = AssetRef(typ: string, ref: string)

  /** `{ _type: 'image', asset: { _type: 'reference', _ref } }`. */
  datatype ImageRef = ImageRef(typ: string, asset: AssetRef)

  function ImageRefTo(assetId: string): ImageRef {
    ImageRef("image", AssetRef("reference", assetId))
  }
}
