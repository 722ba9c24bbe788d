/** Text extraction from page content (`collect_text` and
    `extract_text_chunks_from_page` in src/parser_aux.rs): one pass over a
    page's operations that switches encodings on `Tf`, appends decoded text
    on `Tj`/`TJ`, ends lines on `ET`, and emits a chunk per stretch of text
    shown in one encoding. */
module TextExtraction {
  import opened PdfTypes
  import opened Content

  // ---------------------------------------------------------------------
  // collect_text

  /** What `collect_text` leaves behind: the text it appended to the caller's
      buffer and, when it stopped early, the error it returned. */
  datatype Collected = Collected(text: string, failure: Option<Error>)

  /** `c` appended to a buffer that already holds `t`. */
  function Prepend(t: string, c: Collected): Collected {
    Collected(t + c.text, c.failure)
  }

  /** What one operand contributes: a string its decoded text, an array its
      own collected text and then one space, an integer below -100 (a wide
      kerning gap) one space, anything else nothing. */
  function CollectOperand(decode: seq<byte> -> Result<string>, o: Object): Collected {
    match o
    case String(bytes, _) =>
      (match decode(bytes)
       case Ok(t) => Collected(t, None)
       case Err(e) => Collected([], Some(e)))
    case Array(items) =>
      var inner := Collect(decode, items);
      if inner.failure.Some? then inner else Collected(inner.text + " ", None)
    case Integer(v) => Collected(if v < -100 then " " else [], None)
    case _ => Collected([], None)
  }

  /** The operands' contributions in order, up to and including the first
      one that fails; the text gathered before a failure is kept. */
  function Collect(decode: seq<byte> -> Result<string>, operands: seq<Object>): Collected {
    if operands == [] then Collected([], None)
    else
      var head := CollectOperand(decode, operands[0]);
      if head.failure.Some? then head else Prepend(head.text, Collect(decode, operands[1..]))
  }

  /** Collecting a concatenation collects the first part and, only if that
      did not fail, continues with the second. */
  lemma {:induction false} CollectConcat(decode: seq<byte> -> Result<string>, a: seq<Object>, b: seq<Object>)
    ensures Collect(decode, a + b) ==
      if Collect(decode, a).failure.Some? then Collect(decode, a)
      else Prepend(Collect(decode, a).text, Collect(decode, b))
    decreases |a|
  {
    if a == [] {
      assert a + b == b;
    } else {
      assert (a + b)[0] == a[0];
      assert (a + b)[1..] == a[1..] + b;
      CollectConcat(decode, a[1..], b);
    }
  }

  /** Without a string among them, operands never fail and contribute only
      spaces, one for each wide kerning gap. */
  lemma {:induction false} CollectWithoutStrings(decode: seq<byte> -> Result<string>, operands: seq<Object>)
    requires forall k :: 0 <= k < |operands| ==> !operands[k].String? && !operands[k].Array?
    ensures Collect(decode, operands).failure == None
    ensures forall i :: 0 <= i < |Collect(decode, operands).text| ==> Collect(decode, operands).text[i] == ' '
    ensures Collect(decode, operands).text == [] <==>
      forall k :: 0 <= k < |operands| ==> !(operands[k].Integer? && operands[k].value < -100)
    decreases |operands|
  {
    if operands != [] {
      var rest := operands[1..];
      CollectWithoutStrings(decode, rest);
      forall k | 0 <= k < |rest| ensures rest[k] == operands[k + 1] { }
    }
  }

  /** One iteration of `collect_text`: the operand at `i` either fails or
      its text joins the buffer before the rest is collected. */
  lemma CollectStep(decode: seq<byte> -> Result<string>, operands: seq<Object>, i: nat, out: string)
    requires i < |operands|
    ensures var head := CollectOperand(decode, operands[i]);
      Prepend(out, Collect(decode, operands[i..]))
      == if head.failure.Some? then Prepend(out, head)
         else Prepend(out + head.text, Collect(decode, operands[i + 1..]))
  {
    assert operands[i..][0] == operands[i];
    assert operands[i..][1..] == operands[i + 1..];
    var head := CollectOperand(decode, operands[i]);
    var rest := Collect(decode, operands[i + 1..]);
    assert out + (head.text + rest.text) == (out + head.text) + rest.text;
  }

  /** `collect_text`: appends the operands' text to `text`, stopping at the
      first decoding error. */
  method CollectText(text: string, decode: seq<byte> -> Result<string>, operands: seq<Object>)
    returns (out: string, failure: Option<Error>)
    ensures Collected(out, failure) == Prepend(text, Collect(decode, operands))
    decreases operands
  {
    out := text;
    var i := 0;
    while i < |operands|
      invariant 0 <= i <= |operands|
      invariant Prepend(out, Collect(decode, operands[i..])) == Prepend(text, Collect(decode, operands))
    {
      CollectStep(decode, operands, i, out);
      match operands[i] {
        case String(bytes, _) =>
          var decoded := decode(bytes);
          if decoded.Err? {
            return out, Some(decoded.error);
          }
          out := out + decoded.value;
        case Array(items) =>
          var inner;
          ghost var before := out;
          out, inner := CollectText(out, decode, items);
          if inner.Some? {
            return out, inner;
          }
          assert out + " " == before + (Collect(decode, items).text + " ");
          out := out + " ";
        case Integer(v) =>
          if v < -100 {
            out := out + " ";
          }
        case _ =>
      }
      i := i + 1;
    }
    return out, None;
  }

  // ---------------------------------------------------------------------
  // One page

  /** A font resource of the page and what `get_font_encoding` gave for it,
      in the order `get_page_fonts` lists them (ascending by name). */
  datatype Font = Font(name: seq<byte>, encoding: Result<Encoding>)

  /** The encoding failures, in font order, as extraction reports them:
      one `Err` per font whose encoding cannot be read, and nothing else. */
  function FontErrors(fonts: seq<Font>): (r: seq<Result<string>>)
    ensures |r| <= |fonts|
    ensures forall k :: 0 <= k < |r| ==> r[k].Err?
    ensures forall k :: 0 <= k < |fonts| && fonts[k].encoding.Err? ==> Err(fonts[k].encoding.error) in r
    ensures (forall k :: 0 <= k < |fonts| ==> fonts[k].encoding.Ok?) <==> r == []
  {
    if fonts == [] then []
    else
      (if fonts[0].encoding.Err? then [Err(fonts[0].encoding.error)] else [])
      + FontErrors(fonts[1..])
  }

  /** The errors of a list of fonts are those of its first part followed by
      those of the rest; with FontErrorsOfOne this fixes every font's place. */
  lemma {:induction false} FontErrorsConcat(a: seq<Font>, b: seq<Font>)
    ensures FontErrors(a + b) == FontErrors(a) + FontErrors(b)
    decreases |a|
  {
    if a == [] {
      assert a + b == b;
    } else {
      assert (a + b)[0] == a[0];
      assert (a + b)[1..] == a[1..] + b;
      FontErrorsConcat(a[1..], b);
    }
  }

  /** A single font contributes its own error when its encoding fails, and
      nothing otherwise. */
  lemma FontErrorsOfOne(f: Font)
    ensures FontErrors([f]) == if f.encoding.Err? then [Err(f.encoding.error)] else []
  {
    assert [f][1..] == [];
  }

  /** The fonts whose encoding could be read, by name; for a repeated name,
      the last such font wins, as a `BTreeMap` collect keeps the last insert. */
  function Encodings(fonts: seq<Font>): (r: map<seq<byte>, Encoding>)
    ensures forall name :: name in r ==>
              exists k :: 0 <= k < |fonts| && fonts[k].name == name && fonts[k].encoding == Ok(r[name])
    decreases |fonts|
  {
    if fonts == [] then map[]
    else
      var init := Encodings(fonts[..|fonts| - 1]);
      var last := fonts[|fonts| - 1];
      if last.encoding.Ok? then init[last.name := last.encoding.value] else init
  }

  /** Every font whose encoding can be read is in the map with that
      encoding, unless a later font of the same name overrides it. */
  lemma {:induction false} EncodingsLastWins(fonts: seq<Font>, k: nat)
    requires k < |fonts| && fonts[k].encoding.Ok?
    requires forall j :: k < j < |fonts| ==> fonts[j].name != fonts[k].name || fonts[j].encoding.Err?
    ensures fonts[k].name in Encodings(fonts)
    ensures Encodings(fonts)[fonts[k].name] == fonts[k].encoding.value
    decreases |fonts|
  {
    var init := fonts[..|fonts| - 1];
    if k < |fonts| - 1 {
      assert init[k] == fonts[k];
      assert forall j :: k < j < |init| ==> init[j] == fonts[j];
      EncodingsLastWins(init, k);
    }
  }

  /** The state of the pass: the current encoding, the text accumulated in
      it, and the chunks and errors emitted so far. */
  datatype ScanState = ScanState(encoding: Option<Encoding>, text: string, chunks: seq<Result<string>>)

  predicate EndsWithNewline(t: string) {
    |t| > 0 && t[|t| - 1] == '\n'
  }

  /** Emit the accumulated text, if any, as a chunk. */
  function Flush(st: ScanState): ScanState {
    if st.text == [] then st else ScanState(st.encoding, [], st.chunks + [Ok(st.text)])
  }

  /** The effect of one operation on the pass; only a `Tf` without operands
      fails it. */
  function Step(encodings: map<seq<byte>, Encoding>, st: ScanState, op: Operation): Result<ScanState> {
    if IsFontOperator(op) then
      if op.operands == [] then Err(Syntax(MISSING_FONT_OPERAND))
      else
        match AsName(op.operands[0])
        case Ok(font) =>
          Ok(Flush(ScanState(if font in encodings then Some(encodings[font]) else None, st.text, st.chunks)))
        case Err(e) =>
          Ok(Flush(ScanState(None, st.text, st.chunks + [Err(e)])))
    else if IsShowText(op) then
      match st.encoding
      case Some(e) =>
        var c := Collect(e.decode, op.operands);
        Ok(ScanState(st.encoding, st.text + c.text,
                     if c.failure.Some? then st.chunks + [Err(c.failure.value)] else st.chunks))
      case None => Ok(st)
    else if IsEndText(op) then
      Ok(if EndsWithNewline(st.text) then st else ScanState(st.encoding, st.text + "\n", st.chunks))
    else Ok(st)
  }

  /** The whole pass from state `st`, ending with a final flush. */
  function Scan(encodings: map<seq<byte>, Encoding>, st: ScanState, ops: seq<Operation>): Result<seq<Result<string>>>
    decreases |ops|
  {
    if ops == [] then Ok(Flush(st).chunks)
    else
      var next :- Step(encodings, st, ops[0]);
      Scan(encodings, next, ops[1..])
  }

  /** `extract_text_chunks_from_page` once the page is known: a failure to
      list the fonts, to read the content or to parse it fails the page;
      otherwise the font errors come first and the pass follows. */
  function PageChunks(fonts: Result<seq<Font>>, content: Result<seq<byte>>, codec: ContentCodec)
    : Result<seq<Result<string>>>
  {
    var fs :- fonts;
    var data :- content;
    var ops :- DecodeContent(codec, data);
    Scan(Encodings(fs), ScanState(None, [], FontErrors(fs)), ops)
  }

  /** The loop of `extract_text_chunks_from_page`. */
  method ScanOperations(encodings: map<seq<byte>, Encoding>, fontErrors: seq<Result<string>>, ops: seq<Operation>)
    returns (r: Result<seq<Result<string>>>)
    ensures r == Scan(encodings, ScanState(None, [], fontErrors), ops)
  {
    var encoding: Option<Encoding> := None;
    var text: string := [];
    var chunks := fontErrors;
    for i := 0 to |ops|
      invariant Scan(encodings, ScanState(encoding, text, chunks), ops[i..])
                == Scan(encodings, ScanState(None, [], fontErrors), ops)
    {
      var op := ops[i];
      assert ops[i..][0] == op && ops[i..][1..] == ops[i + 1..];
      if op.operator == "Tf" {
        if op.operands == [] {
          return Err(Syntax(MISSING_FONT_OPERAND));
        }
        match AsName(op.operands[0]) {
          case Ok(font) =>
            encoding := if font in encodings then Some(encodings[font]) else None;
          case Err(e) =>
            chunks := chunks + [Err(e)];
            encoding := None;
        }
        if text != [] {
          chunks := chunks + [Ok(text)];
          text := [];
        }
      } else if op.operator == "Tj" || op.operator == "TJ" {
        match encoding {
          case Some(e) =>
            var failure;
            text, failure := CollectText(text, e.decode, op.operands);
            if failure.Some? {
              chunks := chunks + [Err(failure.value)];
            }
          case None =>
        }
      } else if op.operator == "ET" {
        if !EndsWithNewline(text) {
          text := text + "\n";
        }
      }
    }
    if text != [] {
      chunks := chunks + [Ok(text)];
    }
    return Ok(chunks);
  }

  // ---------------------------------------------------------------------
  // Properties of the pass

  /** The pass only ever appends to the chunks it started with. */
  lemma {:induction false} ScanExtends(encodings: map<seq<byte>, Encoding>, st: ScanState, ops: seq<Operation>)
    requires Scan(encodings, st, ops).Ok?
    ensures st.chunks <= Scan(encodings, st, ops).value
    decreases |ops|
  {
    if ops != [] {
      var next := Step(encodings, st, ops[0]).value;
      ScanExtends(encodings, next, ops[1..]);
    }
  }

  /** Font-encoding failures are reported before any text chunk. */
  lemma FontErrorsFirst(fonts: seq<Font>, content: Result<seq<byte>>, codec: ContentCodec)
    requires PageChunks(Ok(fonts), content, codec).Ok?
    ensures FontErrors(fonts) <= PageChunks(Ok(fonts), content, codec).value
  {
    var ops := DecodeContent(codec, content.value).value;
    ScanExtends(Encodings(fonts), ScanState(None, [], FontErrors(fonts)), ops);
  }

  predicate OkChunksNonEmpty(chunks: seq<Result<string>>) {
    forall k :: 0 <= k < |chunks| && chunks[k].Ok? ==> chunks[k].value != []
  }

  /** No empty chunk is ever emitted. */
  lemma {:induction false} ScanChunksNonEmpty(encodings: map<seq<byte>, Encoding>, st: ScanState, ops: seq<Operation>)
    requires OkChunksNonEmpty(st.chunks)
    requires Scan(encodings, st, ops).Ok?
    ensures OkChunksNonEmpty(Scan(encodings, st, ops).value)
    decreases |ops|
  {
    if ops != [] {
      var next := Step(encodings, st, ops[0]).value;
      ScanChunksNonEmpty(encodings, next, ops[1..]);
    }
  }

  /** Every chunk a page yields is either an error or non-empty text. */
  lemma PageChunksNonEmpty(fonts: seq<Font>, content: Result<seq<byte>>, codec: ContentCodec)
    requires PageChunks(Ok(fonts), content, codec).Ok?
    ensures OkChunksNonEmpty(PageChunks(Ok(fonts), content, codec).value)
  {
    var ops := DecodeContent(codec, content.value).value;
    ScanChunksNonEmpty(Encodings(fonts), ScanState(None, [], FontErrors(fonts)), ops);
  }

  predicate MissingFontOperand(op: Operation) {
    IsFontOperator(op) && op.operands == []
  }

  /** The pass fails exactly when some `Tf` has no operand, and then with
      that syntax error. */
  lemma {:induction false} ScanFails(encodings: map<seq<byte>, Encoding>, st: ScanState, ops: seq<Operation>)
    ensures Scan(encodings, st, ops).Err? <==> exists i :: 0 <= i < |ops| && MissingFontOperand(ops[i])
    ensures Scan(encodings, st, ops).Err? ==> Scan(encodings, st, ops).error == Syntax(MISSING_FONT_OPERAND)
    decreases |ops|
  {
    if ops != [] {
      if MissingFontOperand(ops[0]) {
      } else {
        var next := Step(encodings, st, ops[0]).value;
        ScanFails(encodings, next, ops[1..]);
        if exists i :: 0 <= i < |ops| && MissingFontOperand(ops[i]) {
          var i :| 0 <= i < |ops| && MissingFontOperand(ops[i]);
          assert ops[1..][i - 1] == ops[i];
        }
        if exists i :: 0 <= i < |ops[1..]| && MissingFontOperand(ops[1..][i]) {
          var i :| 0 <= i < |ops[1..]| && MissingFontOperand(ops[1..][i]);
          assert ops[i + 1] == ops[1..][i];
        }
      }
    }
  }

  /** A `Tf` closes the current chunk: an operand that is not a name is
      reported first, then the text so far is emitted (when there is any),
      the next chunk starts empty, and the named font's encoding (or none)
      becomes current. */
  lemma FontSwitchFlushes(encodings: map<seq<byte>, Encoding>, st: ScanState, op: Operation)
    requires IsFontOperator(op) && op.operands != []
    ensures Step(encodings, st, op).Ok?
    ensures Step(encodings, st, op).value.text == []
    ensures var font := AsName(op.operands[0]);
            Step(encodings, st, op).value.chunks
              == st.chunks + (if font.Err? then [Err(font.error)] else [])
                           + (if st.text == [] then [] else [Ok(st.text)])
    ensures var font := AsName(op.operands[0]);
            Step(encodings, st, op).value.encoding
              == if font.Ok? && font.value in encodings then Some(encodings[font.value]) else None
  {
  }

  /** `Tj`/`TJ` with no current encoding changes nothing. */
  lemma ShowTextWithoutEncoding(encodings: map<seq<byte>, Encoding>, st: ScanState, op: Operation)
    requires IsShowText(op) && st.encoding.None?
    ensures Step(encodings, st, op) == Ok(st)
  {
  }

  /** `Tj`/`TJ` under an encoding appends the collected text and never stops
      the pass; a decoding failure is reported as one `Err` item. */
  lemma ShowTextAppends(encodings: map<seq<byte>, Encoding>, st: ScanState, op: Operation)
    requires IsShowText(op) && st.encoding.Some?
    ensures Step(encodings, st, op).Ok?
    ensures var c := Collect(st.encoding.value.decode, op.operands);
            && Step(encodings, st, op).value.text == st.text + c.text
            && Step(encodings, st, op).value.chunks
               == st.chunks + (if c.failure.Some? then [Err(c.failure.value)] else [])
  {
  }

  /** After `ET` the text ends a line, and a second `ET` changes nothing. */
  lemma EndTextIdempotent(encodings: map<seq<byte>, Encoding>, st: ScanState, op: Operation)
    requires IsEndText(op)
    ensures Step(encodings, st, op).Ok? && EndsWithNewline(Step(encodings, st, op).value.text)
    ensures Step(encodings, Step(encodings, st, op).value, op).Ok?
    ensures Step(encodings, Step(encodings, st, op).value, op).value.text == Step(encodings, st, op).value.text
  {
  }

  /** One text block in a known font: `Tf /F`, `Tj (s)`, `ET`, where `s`
      decodes to text that is not empty and does not end a line, yields
      exactly that text with a newline, as one chunk. */
  lemma {:induction false} OneTextBlock(encodings: map<seq<byte>, Encoding>, font: seq<byte>, size: Object,
                                        s: seq<byte>, format: StringFormat, t: string)
    requires font in encodings && encodings[font].decode(s) == Ok(t)
    requires t != [] && !EndsWithNewline(t)
    ensures Scan(encodings, ScanState(None, [], []),
                 [Operation("Tf", [Name(font), size]), Operation("Tj", [String(s, format)]), Operation("ET", [])])
            == Ok([Ok(t + "\n")])
  {
    var tf := Operation("Tf", [Name(font), size]);
    var tj := Operation("Tj", [String(s, format)]);
    var et := Operation("ET", []);
    var ops := [tf, tj, et];
    var e := encodings[font];
    var st0 := ScanState(None, [], []);
    var st1 := ScanState(Some(e), [], []);
    assert Step(encodings, st0, tf) == Ok(st1);
    assert Collect(e.decode, tj.operands) == Collected(t, None) by {
      assert tj.operands[1..] == [];
      assert CollectOperand(e.decode, tj.operands[0]) == Collected(t, None);
      assert t + [] == t;
    }
    var st2 := ScanState(Some(e), t, []);
    assert !IsFontOperator(tj) && IsShowText(tj) by {
      assert tj.operator[1] != "Tf"[1];
    }
    assert [] + t == t;
    assert Step(encodings, st1, tj) == Ok(st2);
    var st3 := ScanState(Some(e), t + "\n", []);
    assert !IsFontOperator(et) && !IsShowText(et) && IsEndText(et) by {
      assert et.operator[0] != "Tf"[0] && et.operator[0] != "Tj"[0];
    }
    assert Step(encodings, st2, et) == Ok(st3);
    assert ops[1..] == [tj, et] && ops[1..][1..] == [et] && ops[1..][1..][1..] == [];
    assert Flush(st3).chunks == [Ok(t + "\n")];
    assert Scan(encodings, st2, [et]) == Scan(encodings, st3, []);
    assert Scan(encodings, st1, [tj, et]) == Scan(encodings, st2, [et]);
    assert Scan(encodings, st0, ops) == Scan(encodings, st1, [tj, et]);
  }

  /** The same block as a whole page whose one font reads. */
  lemma OneTextBlockPage(f: Font, data: seq<byte>, codec: ContentCodec, size: Object,
                         s: seq<byte>, format: StringFormat, t: string)
    requires f.encoding.Ok? && f.encoding.value.decode(s) == Ok(t)
    requires t != [] && !EndsWithNewline(t)
    requires codec.parse(data)
             == Some([Operation("Tf", [Name(f.name), size]), Operation("Tj", [String(s, format)]), Operation("ET", [])])
    ensures PageChunks(Ok([f]), Ok(data), codec) == Ok([Ok(t + "\n")])
  {
    assert [f][..0] == [];
    assert Encodings([f]) == map[f.name := f.encoding.value];
    FontErrorsOfOne(f);
    OneTextBlock(Encodings([f]), f.name, size, s, format, t);
  }

  // ---------------------------------------------------------------------
  // Several pages

  /** `extract_text_chunks`: each page's chunks, or the page's single error,
      in the order the pages were asked for. */
  function FlattenPages(pages: seq<Result<seq<Result<string>>>>): seq<Result<string>> {
    if pages == [] then []
    else
      (match pages[0] case Ok(chunks) => chunks case Err(e) => [Err(e)])
      + FlattenPages(pages[1..])
  }

  lemma {:induction false} FlattenPagesConcat(a: seq<Result<seq<Result<string>>>>, b: seq<Result<seq<Result<string>>>>)
    ensures FlattenPages(a + b) == FlattenPages(a) + FlattenPages(b)
    decreases |a|
  {
    if a == [] {
      assert a + b == b;
    } else {
      assert (a + b)[0] == a[0];
      assert (a + b)[1..] == a[1..] + b;
      FlattenPagesConcat(a[1..], b);
    }
  }

  /** `extract_text` over the chunks: the first error, or all the texts
      joined in order. */
  function JoinChunks(chunks: seq<Result<string>>): Result<string> {
    if chunks == [] then Ok([])
    else
      var head :- chunks[0];
      var rest :- JoinChunks(chunks[1..]);
      Ok(head + rest)
  }

  /** The texts of the chunks joined in order, ignoring errors. */
  function Texts(chunks: seq<Result<string>>): string {
    if chunks == [] then []
    else (if chunks[0].Ok? then chunks[0].value else []) + Texts(chunks[1..])
  }

  /** Joining succeeds exactly when no chunk is an error, with all the texts
      in order; otherwise it reports the first error. */
  lemma {:induction false} JoinChunksResult(chunks: seq<Result<string>>)
    ensures JoinChunks(chunks).Ok? <==> forall k :: 0 <= k < |chunks| ==> chunks[k].Ok?
    ensures JoinChunks(chunks).Ok? ==> JoinChunks(chunks).value == Texts(chunks)
    ensures JoinChunks(chunks).Err? ==> exists k :: 0 <= k < |chunks| && chunks[k] == Err(JoinChunks(chunks).error)
                                            && forall j :: 0 <= j < k ==> chunks[j].Ok?
    decreases |chunks|
  {
    if chunks != [] && chunks[0].Ok? {
      JoinChunksResult(chunks[1..]);
      if JoinChunks(chunks[1..]).Err? {
        var k :| 0 <= k < |chunks[1..]| && chunks[1..][k] == Err(JoinChunks(chunks[1..]).error)
                 && forall j :: 0 <= j < k ==> chunks[1..][j].Ok?;
        assert chunks[k + 1] == Err(JoinChunks(chunks).error);
        assert forall j :: 0 <= j < k + 1 ==> chunks[j].Ok? by {
          forall j | 0 <= j < k + 1 ensures chunks[j].Ok? {
            if j > 0 {
              assert chunks[j] == chunks[1..][j - 1];
            }
          }
        }
      } else {
        assert forall k :: 0 <= k < |chunks| ==> chunks[k].Ok? by {
          forall k | 0 <= k < |chunks| ensures chunks[k].Ok? {
            if k > 0 {
              assert chunks[k] == chunks[1..][k - 1];
            }
          }
        }
      }
    }
  }

  function AppendTo(text: string, r: Result<string>): Result<string> {
    if r.Ok? then Ok(text + r.value) else r
  }

  /** The loop of `extract_text`: append each chunk's text, returning at the
      first error. */
  method JoinText(chunks: seq<Result<string>>) returns (r: Result<string>)
    ensures r == JoinChunks(chunks)
  {
    var text: string := [];
    assert chunks[0..] == chunks;
    if JoinChunks(chunks).Ok? {
      assert [] + JoinChunks(chunks).value == JoinChunks(chunks).value;
    }
    for i := 0 to |chunks|
      invariant JoinChunks(chunks) == AppendTo(text, JoinChunks(chunks[i..]))
    {
      var rest := chunks[i..];
      assert rest[0] == chunks[i] && rest[1..] == chunks[i + 1..];
      match chunks[i] {
        case Err(e) =>
          return Err(e);
        case Ok(fragment) =>
          var later := JoinChunks(chunks[i + 1..]);
          if later.Ok? {
            assert JoinChunks(rest) == Ok(fragment + later.value);
            assert text + (fragment + later.value) == (text + fragment) + later.value;
          }
          text := text + fragment;
      }
    }
    assert chunks[|chunks|..] == [];
    assert text + [] == text;
    return Ok(text);
  }
}
