/** Content streams as the core sees them: a sequence of operations, plus
    the collaborators that turn bytes into operations and back and that
    decode and encode text in a font's encoding. */
module Content {
  import opened PdfTypes

  /** One content-stream operation: an operator and its operands. */
  datatype Operation = Operation(operator: string, operands: seq<Object>)

  /** A font's text encoding, as `Document::decode_text` and
      `Document::encode_text` apply it. Both are outside this model, so an
      encoding is the pair of them. */
  datatype Encoding = Encoding(decode: seq<byte> -> Result<string>, encode: string -> seq<byte>)

  /** The content-stream grammar (`parser::content`, which yields nothing on a
      syntax error) and `Content::encode`. */
  datatype ContentCodec = ContentCodec(
    parse: seq<byte> -> Option<seq<Operation>>,
    serialize: seq<Operation> -> Result<seq<byte>>)

  /** `Content::decode`: a grammar failure becomes `InvalidContentStream`. */
  function DecodeContent(codec: ContentCodec, data: seq<byte>): (r: Result<seq<Operation>>)
    ensures r.Ok? <==> codec.parse(data).Some?
    ensures r.Ok? ==> r.value == codec.parse(data).value
    ensures r.Err? ==> r.error == InvalidContentStream
  {
    match codec.parse(data)
    case Some(ops) => Ok(ops)
    case None => Err(InvalidContentStream)
  }

  /** The error raised when a `Tf` operation has no operand. */
  const MISSING_FONT_OPERAND: string := "missing font operand"

  /** The operators the core reacts to (sections 9.3, 9.4.1 and 9.4.3 of
      ISO 32000-1). */
  predicate IsFontOperator(op: Operation) { op.operator == "Tf" }
  predicate IsShowText(op: Operation) { op.operator == "Tj" || op.operator == "TJ" }
  predicate IsEndText(op: Operation) { op.operator == "ET" }
}
