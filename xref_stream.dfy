/** Decoding of a cross-reference stream (section 7.5.8 of ISO 32000-1,
    "Cross-Reference Streams"): the `Size`, `Index` and `W` entries of the
    stream dictionary describe a grid of fixed-width big-endian rows, one row
    per object number, each giving a free, normal or compressed entry. */
module XrefStream {
  import opened PdfTypes

  datatype XrefEntry =
    | Free
    | Normal(offset: u32, generation: u16)
    | Compressed(container: u32, index: u16)

  datatype XrefType = CrossReferenceTable | CrossReferenceStream

  /** The cross-reference index: one entry per object number. */
  datatype Xref = Xref(entries: map<u32, XrefEntry>, size: u32, kind: XrefType)

  const LENGTH: seq<byte> := Ascii("Length")
  const SIZE: seq<byte> := Ascii("Size")
  const INDEX: seq<byte> := Ascii("Index")
  const W: seq<byte> := Ascii("W")
  const FILTER: seq<byte> := Ascii("Filter")

  // ---------------------------------------------------------------------
  // Big-endian fields.

  /** The unsigned value of a big-endian byte string. */
  function BigEndian(bs: seq<byte>): nat
    decreases |bs|
  {
    if bs == [] then 0 else BigEndian(bs[..|bs| - 1]) * 256 + bs[|bs| - 1]
  }

  /** The value of the `width` bytes of `content` from `pos`, read in place. */
  function BigEndianAt(content: seq<byte>, pos: nat, width: nat): nat
    requires pos + width <= |content|
    decreases width
  {
    if width == 0 then 0 else BigEndianAt(content, pos, width - 1) * 256 + content[pos + width - 1]
  }

  lemma {:induction false} BigEndianOfSlice(content: seq<byte>, pos: nat, width: nat)
    requires pos + width <= |content|
    ensures BigEndian(content[pos..pos + width]) == BigEndianAt(content, pos, width)
    decreases width
  {
    if width > 0 {
      BigEndianOfSlice(content, pos, width - 1);
      assert content[pos..pos + width][..width - 1] == content[pos..pos + width - 1];
    }
  }

  function Pow256(n: nat): (r: nat)
    ensures r >= 1
  {
    if n == 0 then 1 else 256 * Pow256(n - 1)
  }

  /** A `u32` shifted left by 8 bits (dropping what falls off the top) has
      room for one more byte in its low 8 bits, and the result is the value
      of the longer string, truncated to 32 bits. */
  lemma ShiftInByte(x: nat, b: byte)
    ensures ((x % U32_MODULUS) * 256) % U32_MODULUS + b < U32_MODULUS
    ensures (x * 256 + b) % U32_MODULUS == ((x % U32_MODULUS) * 256) % U32_MODULUS + b
  {
    var r := x % U32_MODULUS;
    var q := x / U32_MODULUS;
    var t := r % 0x100_0000;
    var h := r / 0x100_0000;
    assert r * 256 == h * U32_MODULUS + t * 256;
    ModOfSum(r * 256, h, t * 256);
    ModOfSum(x * 256 + b, q * 256 + h, t * 256 + b);
  }

  lemma ModOfSum(a: int, q: int, r: int)
    requires 0 <= r < U32_MODULUS && a == q * U32_MODULUS + r
    ensures a % U32_MODULUS == r
  {
  }

  /** `read_big_endian_integer`'s accumulator loop over the bytes it read:
      `value = (value << 8) + byte` on a `u32`. */
  method BigEndianValue(buffer: seq<byte>) returns (value: u32)
    ensures value == BigEndian(buffer) % U32_MODULUS
    ensures |buffer| <= 4 ==> value == BigEndian(buffer)
  {
    value := 0;
    for i := 0 to |buffer|
      invariant value == BigEndian(buffer[..i]) % U32_MODULUS
    {
      ShiftInByte(BigEndian(buffer[..i]), buffer[i]);
      assert buffer[..i + 1][..i] == buffer[..i];
      value := (value * 256) % U32_MODULUS + buffer[i];
    }
    assert buffer[..|buffer|] == buffer;
    if |buffer| <= 4 {
      BigEndianBound(buffer);
      Pow256Monotone(|buffer|, 4);
    }
  }

  lemma {:induction false} BigEndianBound(bs: seq<byte>)
    ensures BigEndian(bs) < Pow256(|bs|)
    decreases |bs|
  {
    if bs != [] {
      var init := bs[..|bs| - 1];
      BigEndianBound(init);
      assert BigEndian(init) <= Pow256(|init|) - 1;
      assert BigEndian(bs) <= (Pow256(|init|) - 1) * 256 + 255;
    }
  }

  lemma {:induction false} Pow256Monotone(m: nat, n: nat)
    requires m <= n
    ensures Pow256(m) <= Pow256(n)
    decreases n
  {
    if m < n {
      Pow256Monotone(m, n - 1);
    }
  }

  /** The `width` low-order bytes of `v`, most significant first: the
      layout a writer of a cross-reference stream uses. */
  function BigEndianBytes(v: nat, width: nat): (r: seq<byte>)
    ensures |r| == width
    decreases width
  {
    if width == 0 then [] else BigEndianBytes(v / 256, width - 1) + [v % 256]
  }

  /** Reading back a value that fits its field gives the value. */
  lemma {:induction false} BigEndianRoundTrip(v: nat, width: nat)
    requires v < Pow256(width)
    ensures BigEndian(BigEndianBytes(v, width)) == v
    decreases width
  {
    if width > 0 {
      var bs := BigEndianBytes(v, width);
      assert v / 256 < Pow256(width - 1);
      BigEndianRoundTrip(v / 256, width - 1);
      assert bs[..|bs| - 1] == BigEndianBytes(v / 256, width - 1);
    }
  }

  /** A field as the decoder reads it: exactly `width` bytes from `pos`,
      their value modulo 2^32; too few bytes left is an end-of-file error. */
  datatype Read = Read(value: u32, next: nat)

  function Field(content: seq<byte>, pos: nat, width: nat): (r: Result<Read>)
    ensures r.Ok? <==> pos + width <= |content|
    ensures r.Err? ==> r.error == UnexpectedEof
    ensures r.Ok? ==> r.value.next == pos + width
  {
    if pos + width <= |content| then Ok(Read(BigEndianAt(content, pos, width) % U32_MODULUS, pos + width))
    else Err(UnexpectedEof)
  }

  /** The `Cursor` the decoder reads rows through. */
  class Cursor {
    const data: seq<byte>
    var pos: nat

    constructor (data: seq<byte>)
      ensures this.data == data && pos == 0
    {
      this.data := data;
      pos := 0;
    }

    /** `Read::read_exact`: exactly `n` bytes, or an end-of-file error that
        leaves the cursor at the end of its data. */
    method ReadExact(n: nat) returns (r: Result<seq<byte>>)
      requires pos <= |data|
      modifies this
      ensures pos <= |data|
      ensures old(pos) + n <= |data| ==> r == Ok(data[old(pos)..old(pos) + n]) && pos == old(pos) + n
      ensures old(pos) + n > |data| ==> r == Err(UnexpectedEof) && pos == |data|
    {
      if pos + n <= |data| {
        r := Ok(data[pos..pos + n]);
        pos := pos + n;
      } else {
        r := Err(UnexpectedEof);
        pos := |data|;
      }
    }
  }

  /** `read_big_endian_integer`: fill a buffer of `width` bytes from the
      cursor and read it as a big-endian `u32`. */
  method ReadBigEndianInteger(reader: Cursor, width: nat) returns (r: Result<u32>)
    requires reader.pos <= |reader.data|
    modifies reader
    ensures reader.pos <= |reader.data|
    ensures var f := Field(reader.data, old(reader.pos), width);
            && (f.Ok? ==> r == Ok(f.value.value) && reader.pos == f.value.next)
            && (f.Err? ==> r == Err(f.error))
  {
    var buffer := reader.ReadExact(width);
    if buffer.Err? {
      return Err(buffer.error);
    }
    var value := BigEndianValue(buffer.value);
    BigEndianOfSlice(reader.data, old(reader.pos), width);
    r := Ok(value);
  }

  // ---------------------------------------------------------------------
  // The integer arrays of the stream dictionary.

  /** What `parse_integer_array` yields: the values of an array of integers;
      anything else is a type error. */
  function IntegerArray(o: Object): (r: Result<seq<i64>>)
    ensures r.Ok? <==> o.Array? && forall k :: 0 <= k < |o.items| ==> o.items[k].Integer?
    ensures r.Ok? ==> |r.value| == |o.items| && forall k :: 0 <= k < |r.value| ==> r.value[k] == o.items[k].value
    ensures !o.Array? ==> r == Err(ObjectType("Array"))
    ensures o.Array? && r.Err? ==> r == Err(ObjectType("Integer"))
  {
    if !o.Array? then Err(ObjectType("Array"))
    else if forall k :: 0 <= k < |o.items| ==> o.items[k].Integer? then
      Ok(seq(|o.items|, k requires 0 <= k < |o.items| && o.items[k].Integer? => o.items[k].value))
    else Err(ObjectType("Integer"))
  }

  /** `parse_integer_array`: `as_array`, then `as_i64` on each element in
      turn, stopping at the first that is not an integer. */
  method ParseIntegerArray(o: Object) returns (r: Result<seq<i64>>)
    ensures r == IntegerArray(o)
  {
    if !o.Array? {
      return Err(ObjectType("Array"));
    }
    var out: seq<i64> := [];
    for k := 0 to |o.items|
      invariant |out| == k
      invariant forall m :: 0 <= m < k ==> o.items[m].Integer? && out[m] == o.items[m].value
    {
      var n := AsI64(o.items[k]);
      if n.Err? {
        return Err(n.error);
      }
      out := out + [n.value];
    }
    assert out == IntegerArray(o).value;
    r := Ok(out);
  }

  // ---------------------------------------------------------------------
  // The row grid, as a specification.

  /** The three field widths of `W`. */
  datatype Widths = Widths(kind: nat, second: nat, third: nat)

  /** Where the decoder stands: the entries so far and the cursor position. */
  datatype Progress = Progress(entries: map<u32, XrefEntry>, pos: nat)

  /** One row for object `number`. A zero-width type field means type 1, a
      zero-width third field of a type 1 row means generation 0. Type 0 reads
      its two fields and records nothing; a type other than 0, 1 or 2 records
      nothing and leaves the row's other two fields unread. */
  function DecodeRow(content: seq<byte>, w: Widths, number: u32, pr: Progress): Result<Progress>
  {
    var kind :- if w.kind > 0 then Field(content, pr.pos, w.kind) else Ok(Read(1, pr.pos));
    if kind.value == 0 then
      var second :- Field(content, kind.next, w.second);
      var third :- Field(content, second.next, w.third);
      Ok(Progress(pr.entries, third.next))
    else if kind.value == 1 then
      var offset :- Field(content, kind.next, w.second);
      var generation :- if w.third > 0 then Field(content, offset.next, w.third) else Ok(Read(0, offset.next));
      Ok(Progress(pr.entries[number := Normal(offset.value, AsU16(generation.value))], generation.next))
    else if kind.value == 2 then
      var container :- Field(content, kind.next, w.second);
      var index :- Field(content, container.next, w.third);
      Ok(Progress(pr.entries[number := Compressed(container.value, AsU16(index.value))], index.next))
    else
      Ok(Progress(pr.entries, kind.next))
  }

  /** `for j in 0..count` over an `i64` count: a negative count runs no rows. */
  function RowCount(count: i64): nat {
    if count < 0 then 0 else count
  }

  /** The object number of row `j` of a section starting at `start`:
      `(start + j) as u32`. */
  function RowNumber(start: int, j: nat): u32 {
    AsU32(start + j)
  }

  /** Rows `j`, `j + 1`, ... `count - 1` of a section. */
  function Rows(content: seq<byte>, w: Widths, start: i64, j: nat, count: nat, pr: Progress): Result<Progress>
    decreases count - j
  {
    if j >= count then Ok(pr)
    else
      var next :- DecodeRow(content, w, RowNumber(start, j), pr);
      Rows(content, w, start, j + 1, count, next)
  }

  /** Sections `i`, `i + 1`, ... of `Index`, read as `(start, count)` pairs;
      an odd trailing element is not a section. */
  function Sections(content: seq<byte>, w: Widths, index: seq<i64>, i: nat, pr: Progress): Result<Progress>
    decreases |index| / 2 - i
  {
    if i >= |index| / 2 then Ok(pr)
    else
      var next :- Rows(content, w, index[2 * i], 0, RowCount(index[2 * i + 1]), pr);
      Sections(content, w, index, i + 1, next)
  }

  /** What remains of the decode once a section's rows up to some point are
      done: the rest of that section, then the later sections. */
  function ThenSections(rows: Result<Progress>, content: seq<byte>, w: Widths, index: seq<i64>, i: nat): Result<Progress>
  {
    match rows
    case Ok(pr) => Sections(content, w, index, i, pr)
    case Err(e) => Err(e)
  }

  /** `W` as the decoder accepts it: at least three widths, the first three
      non-negative. */
  predicate ValidWidths(widths: seq<i64>) {
    |widths| >= 3 && widths[0] >= 0 && widths[1] >= 0 && widths[2] >= 0
  }

  /** `Index`, or `[0, Size]` when it is missing or not an integer array. */
  function SectionIndex(dict: Dict, size: i64): seq<i64> {
    if INDEX in dict && IntegerArray(dict[INDEX]).Ok? then IntegerArray(dict[INDEX]).value else [0, size]
  }

  /** The decode of an already decompressed cross-reference stream. */
  function DecodeXref(dict: Dict, content: seq<byte>): (r: Result<(Xref, Dict)>)
    ensures GetI64(dict, SIZE).Err? ==> r == Err(InvalidXref)
    ensures GetI64(dict, SIZE).Ok? && (W !in dict || IntegerArray(dict[W]).Err?) ==> r == Err(InvalidXref)
    ensures GetI64(dict, SIZE).Ok? && W in dict && IntegerArray(dict[W]).Ok? && !ValidWidths(IntegerArray(dict[W]).value)
            ==> r == Err(InvalidXref)
    ensures r.Ok? ==> r.value.1 == dict - {LENGTH, W, INDEX}
    ensures r.Ok? ==> r.value.0.size == AsU32(dict[SIZE].value) && r.value.0.kind == CrossReferenceStream
  {
    if GetI64(dict, SIZE).Err? then Err(InvalidXref)
    else
      var size := GetI64(dict, SIZE).value;
      var index := SectionIndex(dict, size);
      if W !in dict || IntegerArray(dict[W]).Err? then Err(InvalidXref)
      else
        var widths := IntegerArray(dict[W]).value;
        if !ValidWidths(widths) then Err(InvalidXref)
        else
          var w := Widths(widths[0], widths[1], widths[2]);
          var done :- Sections(content, w, index, 0, Progress(map[], 0));
          Ok((Xref(done.entries, AsU32(size), CrossReferenceStream), dict - {LENGTH, W, INDEX}))
  }

  /** `Stream::is_compressed`: the dictionary names a filter. */
  predicate IsCompressed(stream: StreamObject) {
    FILTER in stream.dict
  }

  /** One row of the inner loop of `decode_xref_stream`, read through the
      cursor into the entries. */
  method ReadRow(reader: Cursor, w: Widths, number: u32, entries: map<u32, XrefEntry>)
    returns (r: Result<map<u32, XrefEntry>>)
    requires reader.pos <= |reader.data|
    modifies reader
    ensures reader.pos <= |reader.data|
    ensures var d := DecodeRow(reader.data, w, number, Progress(entries, old(reader.pos)));
            && (d.Ok? ==> r == Ok(d.value.entries) && reader.pos == d.value.pos)
            && (d.Err? ==> r == Err(d.error))
  {
    var kind: u32 := 1;
    if w.kind > 0 {
      var field := ReadBigEndianInteger(reader, w.kind);
      if field.Err? {
        return Err(field.error);
      }
      kind := field.value;
    }
    if kind == 0 {
      var second := ReadBigEndianInteger(reader, w.second);
      if second.Err? {
        return Err(second.error);
      }
      var third := ReadBigEndianInteger(reader, w.third);
      if third.Err? {
        return Err(third.error);
      }
      r := Ok(entries);
    } else if kind == 1 {
      var offset := ReadBigEndianInteger(reader, w.second);
      if offset.Err? {
        return Err(offset.error);
      }
      var generation: u32 := 0;
      if w.third > 0 {
        var third := ReadBigEndianInteger(reader, w.third);
        if third.Err? {
          return Err(third.error);
        }
        generation := third.value;
      }
      r := Ok(entries[number := Normal(offset.value, AsU16(generation))]);
    } else if kind == 2 {
      var container := ReadBigEndianInteger(reader, w.second);
      if container.Err? {
        return Err(container.error);
      }
      var third := ReadBigEndianInteger(reader, w.third);
      if third.Err? {
        return Err(third.error);
      }
      r := Ok(entries[number := Compressed(container.value, AsU16(third.value))]);
    } else {
      r := Ok(entries);
    }
  }

  /** The two nested loops of `decode_xref_stream`: for each `(start, count)`
      pair of `Index`, `count` rows read through the cursor. */
  method WalkSections(reader: Cursor, w: Widths, index: seq<i64>) returns (r: Result<map<u32, XrefEntry>>)
    requires reader.pos == 0
    modifies reader
    ensures var s := Sections(reader.data, w, index, 0, Progress(map[], 0));
            && (s.Ok? ==> r == Ok(s.value.entries))
            && (s.Err? ==> r == Err(s.error))
  {
    var entries: map<u32, XrefEntry> := map[];
    ghost var content := reader.data;
    ghost var whole := Sections(content, w, index, 0, Progress(map[], 0));
    for i := 0 to |index| / 2
      invariant reader.data == content && reader.pos <= |content|
      invariant whole == Sections(content, w, index, i, Progress(entries, reader.pos))
    {
      var start := index[2 * i];
      var count := index[2 * i + 1];
      var j: int := 0;
      while j < count
        invariant 0 <= j && (count >= 0 ==> j <= count)
        invariant reader.data == content && reader.pos <= |content|
        invariant whole == ThenSections(Rows(content, w, start, j, RowCount(count), Progress(entries, reader.pos)), content, w, index, i + 1)
        decreases count as int - j
      {
        var row := ReadRow(reader, w, RowNumber(start, j), entries);
        if row.Err? {
          return Err(row.error);
        }
        entries := row.value;
        j := j + 1;
      }
    }
    assert whole == Ok(Progress(entries, reader.pos));
    r := Ok(entries);
  }

  /** `decode_xref_stream`: decompress first when the stream is compressed
      (a failure there is the decode's failure), then decode. */
  function DecodeXrefStreamSpec(stream: StreamObject, decompress: StreamObject -> Result<StreamObject>): Result<(Xref, Dict)>
  {
    if IsCompressed(stream) then
      var plain :- decompress(stream);
      DecodeXref(plain.dict, plain.content)
    else DecodeXref(stream.dict, stream.content)
  }

  // ---------------------------------------------------------------------
  // The decoder.

  /** `decode_xref_stream`: validates `Size`, `Index` and `W`, walks the
      sections row by row through a cursor, inserting an entry per normal or
      compressed row, then strips the layout keys from the dictionary. */
  method DecodeXrefStream(stream: StreamObject, decompress: StreamObject -> Result<StreamObject>)
    returns (r: Result<(Xref, Dict)>)
    ensures r == DecodeXrefStreamSpec(stream, decompress)
  {
    var s := stream;
    if IsCompressed(stream) {
      var plain := decompress(stream);
      if plain.Err? {
        return Err(plain.error);
      }
      s := plain.value;
    }
    var dict := s.dict;
    var reader := new Cursor(s.content);
    var sizeValue := GetI64(dict, SIZE);
    if sizeValue.Err? {
      return Err(InvalidXref);
    }
    var size := sizeValue.value;
    var entries: map<u32, XrefEntry> := map[];

    var index: seq<i64> := [0, size];
    if INDEX in dict {
      var parsed := ParseIntegerArray(dict[INDEX]);
      if parsed.Ok? {
        index := parsed.value;
      }
    }
    if W !in dict {
      return Err(InvalidXref);
    }
    var widths := ParseIntegerArray(dict[W]);
    if widths.Err? || !ValidWidths(widths.value) {
      return Err(InvalidXref);
    }
    var w := Widths(widths.value[0], widths.value[1], widths.value[2]);
    var walked := WalkSections(reader, w, index);
    if walked.Err? {
      return Err(walked.error);
    }
    entries := walked.value;
    assert index == SectionIndex(dict, size);
    r := Ok((Xref(entries, AsU32(size), CrossReferenceStream), dict - {LENGTH, W, INDEX}));
  }
}
