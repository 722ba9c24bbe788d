/** What the cross-reference stream decoder guarantees: entries exist only
    for object numbers that `Index` declares, zero widths give the defaults of
    section 7.5.8 of ISO 32000-1, a missing `Index` means `[0 Size]`, and rows
    written in the stream's layout are read back as the entries they encode. */
module XrefProperties {
  import opened PdfTypes
  import opened XrefStream

  // ---------------------------------------------------------------------
  // Entries only where a section declares a row.

  /** Row `j` of section `i` of `Index` describes object `n`. */
  function SectionRowNumber(index: seq<i64>, i: nat, j: nat): u32
    requires i < |index| / 2
  {
    RowNumber(index[2 * i], j)
  }

  ghost predicate Declared(index: seq<i64>, n: u32) {
    exists i: nat, j: nat :: i < |index| / 2 && j < RowCount(index[2 * i + 1]) && SectionRowNumber(index, i, j) == n
  }

  lemma RowAddsOnlyItsNumber(content: seq<byte>, w: Widths, number: u32, pr: Progress)
    requires DecodeRow(content, w, number, pr).Ok?
    ensures forall n :: n in DecodeRow(content, w, number, pr).value.entries ==> n in pr.entries || n == number
  {
  }

  lemma {:induction false} RowsAddOnlyTheirNumbers(content: seq<byte>, w: Widths, start: i64, j: nat, count: nat, pr: Progress)
    requires Rows(content, w, start, j, count, pr).Ok?
    ensures forall n :: n in Rows(content, w, start, j, count, pr).value.entries ==>
              n in pr.entries || exists k: nat :: j <= k < count && RowNumber(start, k) == n
    decreases count - j
  {
    if j < count {
      var next := DecodeRow(content, w, RowNumber(start, j), pr).value;
      RowAddsOnlyItsNumber(content, w, RowNumber(start, j), pr);
      RowsAddOnlyTheirNumbers(content, w, start, j + 1, count, next);
    }
  }

  lemma {:induction false} SectionsAddOnlyDeclared(content: seq<byte>, w: Widths, index: seq<i64>, i: nat, pr: Progress)
    requires Sections(content, w, index, i, pr).Ok?
    ensures forall n :: n in Sections(content, w, index, i, pr).value.entries ==> n in pr.entries || Declared(index, n)
    decreases |index| / 2 - i
  {
    if i < |index| / 2 {
      var count := RowCount(index[2 * i + 1]);
      var next := Rows(content, w, index[2 * i], 0, count, pr).value;
      RowsAddOnlyTheirNumbers(content, w, index[2 * i], 0, count, pr);
      SectionsAddOnlyDeclared(content, w, index, i + 1, next);
      forall n | n in next.entries && n !in pr.entries
        ensures Declared(index, n)
      {
        var k: nat :| k < count && RowNumber(index[2 * i], k) == n;
        assert SectionRowNumber(index, i, k) == n;
      }
    }
  }

  /** Every entry of a decoded cross-reference stream is for an object
      number that some `(start, count)` pair of `Index` (or the default
      `[0 Size]`) declares. */
  lemma EntriesAreDeclared(dict: Dict, content: seq<byte>)
    requires DecodeXref(dict, content).Ok?
    ensures forall n :: n in DecodeXref(dict, content).value.0.entries ==>
              Declared(SectionIndex(dict, dict[SIZE].value), n)
  {
    var size := dict[SIZE].value;
    var widths := IntegerArray(dict[W]).value;
    var w := Widths(widths[0], widths[1], widths[2]);
    SectionsAddOnlyDeclared(content, w, SectionIndex(dict, size), 0, Progress(map[], 0));
  }

  // ---------------------------------------------------------------------
  // Zero widths.

  /** What zero widths imply for every entry: no type field means every row
      is type 1; no third field means generation 0 and index 0. */
  predicate Shaped(w: Widths, e: XrefEntry) {
    && (w.kind == 0 ==> e.Normal?)
    && (w.third == 0 ==> (e.Normal? ==> e.generation == 0) && (e.Compressed? ==> e.index == 0))
  }

  predicate AllShaped(w: Widths, entries: map<u32, XrefEntry>) {
    forall n :: n in entries ==> Shaped(w, entries[n])
  }

  lemma RowKeepsShape(content: seq<byte>, w: Widths, number: u32, pr: Progress)
    requires AllShaped(w, pr.entries) && DecodeRow(content, w, number, pr).Ok?
    ensures AllShaped(w, DecodeRow(content, w, number, pr).value.entries)
  {
    if w.third == 0 {
      var kind := if w.kind > 0 then Field(content, pr.pos, w.kind).value else Read(1, pr.pos);
      if kind.value == 2 {
        var container := Field(content, kind.next, w.second).value;
        assert content[container.next..container.next + 0] == [];
      }
    }
  }

  lemma {:induction false} RowsKeepShape(content: seq<byte>, w: Widths, start: i64, j: nat, count: nat, pr: Progress)
    requires AllShaped(w, pr.entries) && Rows(content, w, start, j, count, pr).Ok?
    ensures AllShaped(w, Rows(content, w, start, j, count, pr).value.entries)
    decreases count - j
  {
    if j < count {
      RowKeepsShape(content, w, RowNumber(start, j), pr);
      RowsKeepShape(content, w, start, j + 1, count, DecodeRow(content, w, RowNumber(start, j), pr).value);
    }
  }

  lemma {:induction false} SectionsKeepShape(content: seq<byte>, w: Widths, index: seq<i64>, i: nat, pr: Progress)
    requires AllShaped(w, pr.entries) && Sections(content, w, index, i, pr).Ok?
    ensures AllShaped(w, Sections(content, w, index, i, pr).value.entries)
    decreases |index| / 2 - i
  {
    if i < |index| / 2 {
      var count := RowCount(index[2 * i + 1]);
      RowsKeepShape(content, w, index[2 * i], 0, count, pr);
      SectionsKeepShape(content, w, index, i + 1, Rows(content, w, index[2 * i], 0, count, pr).value);
    }
  }

  /** With `W[0] = 0` every decoded entry is a normal one, and with
      `W[2] = 0` every generation and container index is 0; so `W = [0 4 0]`
      yields only `Normal(offset, 0)` entries. */
  lemma ZeroWidthDefaults(dict: Dict, content: seq<byte>)
    requires DecodeXref(dict, content).Ok?
    ensures var widths := IntegerArray(dict[W]).value;
            AllShaped(Widths(widths[0], widths[1], widths[2]), DecodeXref(dict, content).value.0.entries)
  {
    var widths := IntegerArray(dict[W]).value;
    var w := Widths(widths[0], widths[1], widths[2]);
    SectionsKeepShape(content, w, SectionIndex(dict, dict[SIZE].value), 0, Progress(map[], 0));
  }

  // ---------------------------------------------------------------------
  // Single rows.

  /** A type 0 row reads its three fields and records nothing; a row of a
      type other than 0, 1 or 2 records nothing and consumes only its type
      field, leaving the next row misaligned. */
  lemma RowsThatRecordNothing(content: seq<byte>, w: Widths, number: u32, pr: Progress)
    requires w.kind > 0 && Field(content, pr.pos, w.kind).Ok?
    ensures var kind := Field(content, pr.pos, w.kind).value.value;
            && (kind == 0 && pr.pos + w.kind + w.second + w.third <= |content|
                ==> DecodeRow(content, w, number, pr) == Ok(Progress(pr.entries, pr.pos + w.kind + w.second + w.third)))
            && (kind > 2 ==> DecodeRow(content, w, number, pr) == Ok(Progress(pr.entries, pr.pos + w.kind)))
  {
  }

  /** A missing or malformed `Index` decodes exactly as an explicit
      `[0 Size]` would. */
  lemma MissingIndexIsWholeRange(dict: Dict, content: seq<byte>)
    requires SIZE in dict && dict[SIZE].Integer?
    requires INDEX !in dict || IntegerArray(dict[INDEX]).Err?
    ensures DecodeXref(dict, content)
         == DecodeXref(dict[INDEX := Array([Integer(0), Integer(dict[SIZE].value)])], content)
  {
    var size := dict[SIZE].value;
    var d' := dict[INDEX := Array([Integer(0), Integer(size)])];
    assert SIZE != INDEX && W != INDEX;
    assert IntegerArray(d'[INDEX]).value == [0, size];
    assert dict - {LENGTH, W, INDEX} == d' - {LENGTH, W, INDEX};
  }

  // ---------------------------------------------------------------------
  // Round trip with a writer of the same layout.

  /** An entry fits the widths when its fields can be written in them; the
      type field must exist so that free and compressed rows can be told
      apart. */
  predicate Fits(e: XrefEntry, w: Widths) {
    && w.kind >= 1
    && match e
       case Free => true
       case Normal(offset, generation) => offset < Pow256(w.second) && generation < Pow256(w.third)
       case Compressed(container, index) => container < Pow256(w.second) && index < Pow256(w.third)
  }

  function TypeOf(e: XrefEntry): nat {
    match e
    case Free => 0
    case Normal(_, _) => 1
    case Compressed(_, _) => 2
  }

  function SecondOf(e: XrefEntry): nat {
    match e
    case Free => 0
    case Normal(offset, _) => offset
    case Compressed(container, _) => container
  }

  function ThirdOf(e: XrefEntry): nat {
    match e
    case Free => 0
    case Normal(_, generation) => generation
    case Compressed(_, index) => index
  }

  /** One row as a writer lays it out: type, second and third field, each
      big-endian in its width. */
  function EncodeEntry(e: XrefEntry, w: Widths): (r: seq<byte>)
    ensures |r| == w.kind + w.second + w.third
  {
    BigEndianBytes(TypeOf(e), w.kind) + BigEndianBytes(SecondOf(e), w.second) + BigEndianBytes(ThirdOf(e), w.third)
  }

  function EncodeEntries(es: seq<XrefEntry>, w: Widths): seq<byte>
    decreases |es|
  {
    if es == [] then [] else EncodeEntry(es[0], w) + EncodeEntries(es[1..], w)
  }

  /** The entries of rows `j`, `j + 1`, ... inserted one after the other. */
  function Inserted(m: map<u32, XrefEntry>, es: seq<XrefEntry>, start: int, j: nat): map<u32, XrefEntry>
    decreases |es|
  {
    if es == [] then m
    else Inserted(if es[0].Free? then m else m[RowNumber(start, j) := es[0]], es[1..], start, j + 1)
  }

  function RowWidth(w: Widths): nat {
    w.kind + w.second + w.third
  }

  /** A value written big-endian in its width is read back by `Field`. */
  lemma {:induction false} FieldOfWritten(content: seq<byte>, pos: nat, v: nat, width: nat)
    requires v < Pow256(width) && v < U32_MODULUS
    requires pos + width <= |content| && content[pos..pos + width] == BigEndianBytes(v, width)
    ensures Field(content, pos, width) == Ok(Read(v, pos + width))
  {
    BigEndianRoundTrip(v, width);
    BigEndianOfSlice(content, pos, width);
  }

  /** The three fields at `pos` read back as the fields of `e`. */
  predicate RowAt(content: seq<byte>, pos: nat, e: XrefEntry, w: Widths) {
    && Fits(e, w)
    && Field(content, pos, w.kind) == Ok(Read(TypeOf(e), pos + w.kind))
    && Field(content, pos + w.kind, w.second) == Ok(Read(SecondOf(e), pos + w.kind + w.second))
    && Field(content, pos + w.kind + w.second, w.third) == Ok(Read(ThirdOf(e), pos + RowWidth(w)))
  }

  /** Rows for `es`, one after the other from `pos`. */
  predicate RowsAt(content: seq<byte>, pos: nat, es: seq<XrefEntry>, w: Widths)
    decreases |es|
  {
    es == [] || (RowAt(content, pos, es[0], w) && RowsAt(content, pos + RowWidth(w), es[1..], w))
  }

  lemma SliceOfParts(content: seq<byte>, pos: nat, a: seq<byte>, b: seq<byte>, c: seq<byte>)
    requires pos + |a| + |b| + |c| <= |content| && content[pos..pos + |a| + |b| + |c|] == a + b + c
    ensures content[pos..pos + |a|] == a
    ensures content[pos + |a|..pos + |a| + |b|] == b
    ensures content[pos + |a| + |b|..pos + |a| + |b| + |c|] == c
  {
    var whole := content[pos..pos + |a| + |b| + |c|];
    assert forall i :: 0 <= i < |a| ==> content[pos + i] == whole[i] == a[i];
    assert forall i :: 0 <= i < |b| ==> content[pos + |a| + i] == whole[|a| + i] == b[i];
    assert forall i :: 0 <= i < |c| ==> content[pos + |a| + |b| + i] == whole[|a| + |b| + i] == c[i];
  }

  lemma SliceOfConcat(content: seq<byte>, x: seq<byte>, y: seq<byte>, z: seq<byte>)
    requires content == x + y + z
    ensures content[|x|..|x| + |y|] == y
  {
  }

  lemma SplitEncoded(content: seq<byte>, pre: seq<byte>, es: seq<XrefEntry>, post: seq<byte>, w: Widths)
    requires es != [] && content == pre + EncodeEntries(es, w) + post
    ensures content == pre + EncodeEntry(es[0], w) + (EncodeEntries(es[1..], w) + post)
    ensures content == (pre + EncodeEntry(es[0], w)) + EncodeEntries(es[1..], w) + post
  {
    var first, rest := EncodeEntry(es[0], w), EncodeEntries(es[1..], w);
    assert EncodeEntries(es, w) == first + rest;
  }

  /** The three fields of a written row, read back at their positions. */
  lemma {:induction false} FieldsOfRow(content: seq<byte>, pos: nat, e: XrefEntry, w: Widths)
    requires Fits(e, w)
    requires pos + RowWidth(w) <= |content| && content[pos..pos + RowWidth(w)] == EncodeEntry(e, w)
    ensures RowAt(content, pos, e, w)
  {
    var a, b, c := BigEndianBytes(TypeOf(e), w.kind), BigEndianBytes(SecondOf(e), w.second), BigEndianBytes(ThirdOf(e), w.third);
    SliceOfParts(content, pos, a, b, c);
    Pow256Monotone(1, w.kind);
    FieldOfWritten(content, pos, TypeOf(e), w.kind);
    FieldOfWritten(content, pos + w.kind, SecondOf(e), w.second);
    FieldOfWritten(content, pos + w.kind + w.second, ThirdOf(e), w.third);
  }

  lemma FirstRowAt(content: seq<byte>, pre: seq<byte>, es: seq<XrefEntry>, post: seq<byte>, w: Widths)
    requires es != [] && Fits(es[0], w)
    requires content == pre + EncodeEntries(es, w) + post
    ensures RowAt(content, |pre|, es[0], w)
    ensures content == (pre + EncodeEntry(es[0], w)) + EncodeEntries(es[1..], w) + post
  {
    var first, rest := EncodeEntry(es[0], w), EncodeEntries(es[1..], w);
    SplitEncoded(content, pre, es, post, w);
    SliceOfConcat(content, pre, first, rest + post);
    FieldsOfRow(content, |pre|, es[0], w);
  }

  lemma {:induction false} WrittenRowsAt(content: seq<byte>, pre: seq<byte>, es: seq<XrefEntry>, post: seq<byte>, w: Widths)
    requires forall k :: 0 <= k < |es| ==> Fits(es[k], w)
    requires content == pre + EncodeEntries(es, w) + post
    ensures RowsAt(content, |pre|, es, w)
    decreases |es|
  {
    if es != [] {
      FirstRowAt(content, pre, es, post, w);
      WrittenRowsAt(content, pre + EncodeEntry(es[0], w), es[1..], post, w);
    }
  }

  /** A row whose fields read back as `e`'s decodes to `e`. */
  lemma RowOfWritten(content: seq<byte>, pos: nat, e: XrefEntry, w: Widths, number: u32, m: map<u32, XrefEntry>)
    requires RowAt(content, pos, e, w)
    ensures DecodeRow(content, w, number, Progress(m, pos))
         == Ok(Progress(if e.Free? then m else m[number := e], pos + RowWidth(w)))
  {
    if e.Normal? && w.third == 0 {
      assert e.generation < Pow256(0) == 1;
    }
  }

  lemma RowsStep(content: seq<byte>, w: Widths, start: i64, j: nat, count: nat, pr: Progress, next: Progress)
    requires j < count && DecodeRow(content, w, RowNumber(start, j), pr) == Ok(next)
    ensures Rows(content, w, start, j, count, pr) == Rows(content, w, start, j + 1, count, next)
  {
  }

  /** Where rows for `es` written from `pos` end. */
  function RowsEnd(pos: nat, es: seq<XrefEntry>, w: Widths): nat
    decreases |es|
  {
    if es == [] then pos else RowsEnd(pos + RowWidth(w), es[1..], w)
  }

  lemma {:induction false} RowsOfWritten(content: seq<byte>, pos: nat, es: seq<XrefEntry>, w: Widths,
                                         start: i64, j: nat, m: map<u32, XrefEntry>)
    requires RowsAt(content, pos, es, w)
    ensures Rows(content, w, start, j, j + |es|, Progress(m, pos))
         == Ok(Progress(Inserted(m, es, start, j), RowsEnd(pos, es, w)))
    decreases |es|
  {
    if es != [] {
      var m' := if es[0].Free? then m else m[RowNumber(start, j) := es[0]];
      var next := Progress(m', pos + RowWidth(w));
      assert RowsAt(content, next.pos, es[1..], w);
      assert j + 1 + |es[1..]| == j + |es|;
      assert Rows(content, w, start, j, j + |es|, Progress(m, pos))
          == Rows(content, w, start, j + 1, j + |es|, next) by {
        RowOfWritten(content, pos, es[0], w, RowNumber(start, j), m);
        RowsStep(content, w, start, j, j + |es|, Progress(m, pos), next);
      }
      RowsOfWritten(content, next.pos, es[1..], w, start, j + 1, m');
      assert Inserted(m, es, start, j) == Inserted(m', es[1..], start, j + 1);
      assert RowsEnd(pos, es, w) == RowsEnd(next.pos, es[1..], w);
    }
  }

  /** What `Inserted` holds when the rows' object numbers do not wrap
      around: entry `k` at number `start + j + k` for every non-free row, and
      the old entries elsewhere. */
  lemma {:induction false} InsertedEntries(m: map<u32, XrefEntry>, es: seq<XrefEntry>, start: int, j: nat)
    requires 0 <= start + j && start + j + |es| <= U32_MODULUS
    ensures forall n :: n in Inserted(m, es, start, j) ==> n in m || start + j <= n < start + j + |es|
    ensures forall k :: 0 <= k < |es| && !es[k].Free? ==>
              start + j + k in Inserted(m, es, start, j) && Inserted(m, es, start, j)[start + j + k] == es[k]
    ensures forall k :: 0 <= k < |es| && es[k].Free? ==>
              (start + j + k in Inserted(m, es, start, j) <==> start + j + k in m)
    ensures forall n :: n in m && !(start + j <= n < start + j + |es|) ==>
              n in Inserted(m, es, start, j) && Inserted(m, es, start, j)[n] == m[n]
    decreases |es|
  {
    if es != [] {
      var number := RowNumber(start, j);
      assert number == start + j;
      var m' := if es[0].Free? then m else m[number := es[0]];
      var rest := es[1..];
      InsertedEntries(m', rest, start, j + 1);
      var result := Inserted(m, es, start, j);
      assert result == Inserted(m', rest, start, j + 1);
      forall k | 0 <= k < |es| && !es[k].Free?
        ensures start + j + k in result && result[start + j + k] == es[k]
      {
        if k > 0 {
          assert rest[k - 1] == es[k];
          assert start + (j + 1) + (k - 1) == start + j + k;
        }
      }
      forall k | 0 <= k < |es| && es[k].Free?
        ensures start + j + k in result <==> start + j + k in m
      {
        if k > 0 {
          assert rest[k - 1] == es[k];
          assert start + (j + 1) + (k - 1) == start + j + k;
        }
      }
    }
  }

  lemma InsertedFromEmpty(es: seq<XrefEntry>, start: u32)
    requires start + |es| <= U32_MODULUS
    ensures var entries := Inserted(map[], es, start, 0);
            && (forall k :: 0 <= k < |es| ==> (start + k in entries <==> !es[k].Free?))
            && (forall k :: 0 <= k < |es| && !es[k].Free? ==> entries[start + k] == es[k])
            && (forall n :: n in entries ==> start <= n < start + |es|)
  {
    InsertedEntries(map[], es, start, 0);
  }

  /** One subsection a writer lays out: the rows of the objects numbered
      from `start`. */
  datatype Subsection = Subsection(start: u32, rows: seq<XrefEntry>)

  predicate CountFits(secs: seq<Subsection>) {
    forall i :: 0 <= i < |secs| ==> |secs[i].rows| < 0x8000_0000_0000_0000
  }

  /** The `Index` array for the subsections: a `(start, count)` pair each. */
  function IndexOf(secs: seq<Subsection>): (r: seq<i64>)
    requires CountFits(secs)
    ensures |r| == |secs| + |secs|
    decreases |secs|
  {
    if secs == [] then [] else [secs[0].start as i64, |secs[0].rows| as i64] + IndexOf(secs[1..])
  }

  /** The stream content: the subsections' rows, one subsection after the
      other. */
  function EncodeSections(secs: seq<Subsection>, w: Widths): seq<byte>
    decreases |secs|
  {
    if secs == [] then [] else EncodeEntries(secs[0].rows, w) + EncodeSections(secs[1..], w)
  }

  /** The entries of the subsections inserted one subsection after the other. */
  function InsertedAll(m: map<u32, XrefEntry>, secs: seq<Subsection>): map<u32, XrefEntry>
    decreases |secs|
  {
    if secs == [] then m else InsertedAll(Inserted(m, secs[0].rows, secs[0].start, 0), secs[1..])
  }

  function Integers(xs: seq<i64>): seq<Object> {
    seq(|xs|, k requires 0 <= k < |xs| => Integer(xs[k]))
  }

  lemma IntegersRead(xs: seq<i64>)
    ensures IntegerArray(Array(Integers(xs))) == Ok(xs)
  {
    assert IntegerArray(Array(Integers(xs))).value == xs;
  }

  predicate WidthsFit(w: Widths) {
    w.kind < 0x8000_0000_0000_0000 && w.second < 0x8000_0000_0000_0000 && w.third < 0x8000_0000_0000_0000
  }

  /** The stream dictionary a writer produces for these subsections. */
  function LayoutDict(size: i64, secs: seq<Subsection>, w: Widths): Dict
    requires WidthsFit(w) && CountFits(secs)
  {
    map[SIZE := Integer(size),
        INDEX := Array(Integers(IndexOf(secs))),
        W := Array([Integer(w.kind), Integer(w.second), Integer(w.third)])]
  }

  /** A writer's dictionary passes validation with its own `Size`, `W` and
      `Index`. */
  lemma LayoutFields(size: i64, secs: seq<Subsection>, w: Widths)
    requires WidthsFit(w) && CountFits(secs)
    ensures var dict := LayoutDict(size, secs, w);
            && GetI64(dict, SIZE) == Ok(size)
            && W in dict && IntegerArray(dict[W]) == Ok([w.kind, w.second, w.third])
            && SectionIndex(dict, size) == IndexOf(secs)
  {
    var dict := LayoutDict(size, secs, w);
    assert SIZE != INDEX && SIZE != W && INDEX != W;
    IntegersRead(IndexOf(secs));
    assert IntegerArray(dict[W]).value == [w.kind, w.second, w.third];
  }

  lemma {:induction false} EncodedLength(es: seq<XrefEntry>, w: Widths, pos: nat)
    ensures RowsEnd(pos, es, w) == pos + |EncodeEntries(es, w)|
    decreases |es|
  {
    if es != [] {
      EncodedLength(es[1..], w, pos + RowWidth(w));
    }
  }

  /** Every row of every subsection can be written in the widths. */
  predicate AllFit(secs: seq<Subsection>, w: Widths) {
    forall i, k :: 0 <= i < |secs| && 0 <= k < |secs[i].rows| ==> Fits(secs[i].rows[k], w)
  }

  lemma Regroup(pre: seq<byte>, rows: seq<byte>, rest: seq<byte>, post: seq<byte>)
    ensures pre + (rows + rest) + post == (pre + rows) + rest + post
    ensures pre + (rows + rest) + post == pre + rows + (rest + post)
  {
  }

  lemma CountFitsTail(secs: seq<Subsection>)
    requires secs != [] && CountFits(secs)
    ensures CountFits(secs[1..])
  {
    assert forall i :: 0 <= i < |secs| - 1 ==> secs[1..][i] == secs[i + 1];
  }

  lemma AllFitTail(secs: seq<Subsection>, w: Widths)
    requires secs != [] && AllFit(secs, w)
    ensures AllFit(secs[1..], w)
    ensures forall k :: 0 <= k < |secs[0].rows| ==> Fits(secs[0].rows[k], w)
  {
    assert forall i :: 0 <= i < |secs| - 1 ==> secs[1..][i] == secs[i + 1];
  }

  /** Where the rows of the subsections, written one after the other from
      `pos`, end. */
  function SectionsEnd(pos: nat, secs: seq<Subsection>, w: Widths): nat
    decreases |secs|
  {
    if secs == [] then pos else SectionsEnd(RowsEnd(pos, secs[0].rows, w), secs[1..], w)
  }

  /** The subsections' rows, one subsection after the other from `pos`. */
  predicate SectionsAt(content: seq<byte>, pos: nat, secs: seq<Subsection>, w: Widths)
    decreases |secs|
  {
    secs == [] || (RowsAt(content, pos, secs[0].rows, w) && SectionsAt(content, RowsEnd(pos, secs[0].rows, w), secs[1..], w))
  }

  lemma {:induction false} WrittenSectionsAt(content: seq<byte>, pre: seq<byte>, secs: seq<Subsection>, post: seq<byte>, w: Widths)
    requires AllFit(secs, w)
    requires content == pre + EncodeSections(secs, w) + post
    ensures SectionsAt(content, |pre|, secs, w)
    decreases |secs|
  {
    if secs != [] {
      var s := secs[0];
      var rows := EncodeEntries(s.rows, w);
      var rest := EncodeSections(secs[1..], w);
      AllFitTail(secs, w);
      Regroup(pre, rows, rest, post);
      WrittenRowsAt(content, pre, s.rows, rest + post, w);
      EncodedLength(s.rows, w, |pre|);
      WrittenSectionsAt(content, pre + rows, secs[1..], post, w);
    }
  }

  lemma EncodedSectionsAt(secs: seq<Subsection>, w: Widths)
    requires AllFit(secs, w)
    ensures SectionsAt(EncodeSections(secs, w), 0, secs, w)
  {
    var content := EncodeSections(secs, w);
    var none: seq<byte> := [];
    assert content == none + content + none;
    WrittenSectionsAt(content, none, secs, none, w);
  }

  lemma PairAt(prefix: seq<i64>, a: i64, b: i64, tail: seq<i64>)
    ensures prefix + ([a, b] + tail) == (prefix + [a, b]) + tail
    ensures (prefix + ([a, b] + tail))[|prefix|] == a
    ensures (prefix + ([a, b] + tail))[|prefix| + 1] == b
  {
  }

  /** The subsection pairs from pair `i` on, read over rows laid out from
      `pos`, insert every subsection's entries and end after the last row. */
  lemma {:induction false} SectionsOfWritten(content: seq<byte>, pos: nat, secs: seq<Subsection>, w: Widths,
                                             prefix: seq<i64>, i: nat, m: map<u32, XrefEntry>)
    requires CountFits(secs) && SectionsAt(content, pos, secs, w)
    requires |prefix| == 2 * i
    ensures Sections(content, w, prefix + IndexOf(secs), i, Progress(m, pos))
         == Ok(Progress(InsertedAll(m, secs), SectionsEnd(pos, secs, w)))
    decreases |secs|
  {
    var index := prefix + IndexOf(secs);
    if secs != [] {
      var s := secs[0];
      var pair: seq<i64> := [s.start as i64, |s.rows| as i64];
      var next := Progress(Inserted(m, s.rows, s.start, 0), RowsEnd(pos, s.rows, w));
      var after := Progress(InsertedAll(m, secs), SectionsEnd(pos, secs, w));
      CountFitsTail(secs);
      assert IndexOf(secs) == pair + IndexOf(secs[1..]);
      PairAt(prefix, s.start as i64, |s.rows| as i64, IndexOf(secs[1..]));
      assert Rows(content, w, index[2 * i], 0, RowCount(index[2 * i + 1]), Progress(m, pos)) == Ok(next) by {
        RowsOfWritten(content, pos, s.rows, w, s.start as i64, 0, m);
      }
      SectionsOfWritten(content, next.pos, secs[1..], w, prefix + pair, i + 1, next.entries);
      SectionsStep(content, w, index, i, Progress(m, pos), next, after);
    } else {
      assert index == prefix;
    }
  }

  /** One subsection pair, then the rest. */
  lemma SectionsStep(content: seq<byte>, w: Widths, index: seq<i64>, i: nat, pr: Progress, next: Progress, after: Progress)
    requires i < |index| / 2
    requires Rows(content, w, index[2 * i], 0, RowCount(index[2 * i + 1]), pr) == Ok(next)
    requires Sections(content, w, index, i + 1, next) == Ok(after)
    ensures Sections(content, w, index, i, pr) == Ok(after)
  {
  }

  /** The writer's subsections decode to their entries, inserted in order. */
  lemma DecodeSections(size: i64, secs: seq<Subsection>, w: Widths)
    requires WidthsFit(w) && CountFits(secs)
    requires AllFit(secs, w)
    ensures DecodeXref(LayoutDict(size, secs, w), EncodeSections(secs, w)).Ok?
    ensures DecodeXref(LayoutDict(size, secs, w), EncodeSections(secs, w)).value.0.entries == InsertedAll(map[], secs)
  {
    EncodedSectionsRead(secs, w);
    LayoutFields(size, secs, w);
  }

  /** The written content, read with the written `Index`, from no entries. */
  lemma EncodedSectionsRead(secs: seq<Subsection>, w: Widths)
    requires CountFits(secs) && AllFit(secs, w)
    ensures Sections(EncodeSections(secs, w), w, IndexOf(secs), 0, Progress(map[], 0))
         == Ok(Progress(InsertedAll(map[], secs), SectionsEnd(0, secs, w)))
  {
    var none: seq<i64> := [];
    assert none + IndexOf(secs) == IndexOf(secs);
    EncodedSectionsAt(secs, w);
    SectionsOfWritten(EncodeSections(secs, w), 0, secs, w, none, 0, map[]);
  }

  /** Object number `n` lies in subsection `s`. */
  predicate InSubsection(s: Subsection, n: int) {
    s.start <= n < s.start + |s.rows|
  }

  /** Subsections that stay within `u32` object numbers and do not overlap. */
  predicate Disjoint(secs: seq<Subsection>) {
    && (forall i :: 0 <= i < |secs| ==> secs[i].start + |secs[i].rows| <= U32_MODULUS)
    && (forall i, j :: 0 <= i < j < |secs| ==>
          secs[i].start + |secs[i].rows| <= secs[j].start || secs[j].start + |secs[j].rows| <= secs[i].start)
  }

  lemma DisjointTail(secs: seq<Subsection>)
    requires secs != [] && Disjoint(secs)
    ensures Disjoint(secs[1..])
    ensures forall n :: InSubsection(secs[0], n) ==> forall j :: 0 <= j < |secs| - 1 ==> !InSubsection(secs[1..][j], n)
  {
    assert forall j :: 0 <= j < |secs| - 1 ==> secs[1..][j] == secs[j + 1];
  }

  /** A number outside every subsection keeps its entry. */
  lemma {:induction false} InsertedAllOutside(m: map<u32, XrefEntry>, secs: seq<Subsection>, n: u32)
    requires Disjoint(secs)
    requires n in m && forall i :: 0 <= i < |secs| ==> !InSubsection(secs[i], n)
    ensures n in InsertedAll(m, secs) && InsertedAll(m, secs)[n] == m[n]
    decreases |secs|
  {
    if secs != [] {
      var s := secs[0];
      var m' := Inserted(m, s.rows, s.start, 0);
      DisjointTail(secs);
      InsertedEntries(m, s.rows, s.start, 0);
      assert !InSubsection(s, n);
      assert forall j :: 0 <= j < |secs| - 1 ==> secs[1..][j] == secs[j + 1];
      InsertedAllOutside(m', secs[1..], n);
    }
  }

  /** Nothing is added outside the subsections. */
  lemma {:induction false} InsertedAllWithin(m: map<u32, XrefEntry>, secs: seq<Subsection>, n: u32)
    requires Disjoint(secs)
    requires n in InsertedAll(m, secs)
    ensures n in m || exists i :: 0 <= i < |secs| && InSubsection(secs[i], n)
    decreases |secs|
  {
    if secs != [] {
      var s := secs[0];
      var m' := Inserted(m, s.rows, s.start, 0);
      DisjointTail(secs);
      InsertedEntries(m, s.rows, s.start, 0);
      InsertedAllWithin(m', secs[1..], n);
      if n !in m' {
        var j :| 0 <= j < |secs| - 1 && InSubsection(secs[1..][j], n);
        assert secs[j + 1] == secs[1..][j];
      } else if n !in m {
        assert InSubsection(secs[0], n);
      }
    }
  }

  /** Row `k` of subsection `i`: a non-free row's entry is at its number, and
      a free row leaves the number as it was in `m`. */
  lemma {:induction false} InsertedAllAt(m: map<u32, XrefEntry>, secs: seq<Subsection>, i: nat, k: nat)
    requires Disjoint(secs) && i < |secs| && k < |secs[i].rows|
    ensures var r := InsertedAll(m, secs);
            && (!secs[i].rows[k].Free? ==> secs[i].start + k in r && r[secs[i].start + k] == secs[i].rows[k])
            && (secs[i].rows[k].Free? ==> (secs[i].start + k in r <==> secs[i].start + k in m))
    decreases |secs|
  {
    var s := secs[0];
    var tail := secs[1..];
    var m' := Inserted(m, s.rows, s.start, 0);
    var n: u32 := secs[i].start + k;
    assert InsertedAll(m, secs) == InsertedAll(m', tail);
    DisjointTail(secs);
    InsertedEntries(m, s.rows, s.start, 0);
    if i == 0 {
      assert InSubsection(s, n);
      if n in m' {
        InsertedAllOutside(m', tail, n);
      } else if n in InsertedAll(m', tail) {
        InsertedAllWithin(m', tail, n);
      }
    } else {
      assert tail[i - 1] == secs[i];
      assert !InSubsection(s, n);
      InsertedAllAt(m', tail, i - 1, k);
    }
  }

  /** What the subsections insert into `m` when they do not overlap: each
      non-free row's entry at its number, free rows leave `m`'s entry (or its
      absence), numbers outside every subsection keep `m`'s entry, and
      nothing is added outside the subsections. */
  lemma InsertedAllEntries(m: map<u32, XrefEntry>, secs: seq<Subsection>)
    requires Disjoint(secs)
    ensures var r := InsertedAll(m, secs);
            && (forall i, k :: 0 <= i < |secs| && 0 <= k < |secs[i].rows| && !secs[i].rows[k].Free? ==>
                  secs[i].start + k in r && r[secs[i].start + k] == secs[i].rows[k])
            && (forall i, k :: 0 <= i < |secs| && 0 <= k < |secs[i].rows| && secs[i].rows[k].Free? ==>
                  (secs[i].start + k in r <==> secs[i].start + k in m))
            && (forall n :: n in r ==> n in m || exists i :: 0 <= i < |secs| && InSubsection(secs[i], n))
            && (forall n :: n in m && (forall i :: 0 <= i < |secs| ==> !InSubsection(secs[i], n)) ==>
                  n in r && r[n] == m[n])
  {
    forall i, k | 0 <= i < |secs| && 0 <= k < |secs[i].rows| {
      InsertedAllAt(m, secs, i, k);
    }
    forall n | n in InsertedAll(m, secs) {
      InsertedAllWithin(m, secs, n);
    }
    forall n | n in m && (forall i :: 0 <= i < |secs| ==> !InSubsection(secs[i], n)) {
      InsertedAllOutside(m, secs, n);
    }
  }

  /** Decoding what a writer produced for any number of non-overlapping
      subsections gives back exactly the entries written: the entry of every
      non-free row at its object number, and nothing else. */
  lemma XrefRoundTrip(size: i64, secs: seq<Subsection>, w: Widths)
    requires WidthsFit(w) && CountFits(secs) && Disjoint(secs)
    requires AllFit(secs, w)
    ensures var r := DecodeXref(LayoutDict(size, secs, w), EncodeSections(secs, w));
            && r.Ok?
            && (forall i, k :: 0 <= i < |secs| && 0 <= k < |secs[i].rows| ==>
                  (secs[i].start + k in r.value.0.entries <==> !secs[i].rows[k].Free?))
            && (forall i, k :: 0 <= i < |secs| && 0 <= k < |secs[i].rows| && !secs[i].rows[k].Free? ==>
                  r.value.0.entries[secs[i].start + k] == secs[i].rows[k])
            && (forall n :: n in r.value.0.entries ==> exists i :: 0 <= i < |secs| && InSubsection(secs[i], n))
  {
    DecodeSections(size, secs, w);
    InsertedAllEntries(map[], secs);
  }
}
