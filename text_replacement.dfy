/** Text substitution inside text-showing operations (`replace_text` and
    `replace_partial_text` in src/parser_aux.rs and their helpers): the
    character slicing helpers, re-encoding through a font's encoding, and the
    exact and partial rewrites of a `Tj`/`TJ` operation's operands. */
module TextReplacement {
  import opened PdfTypes
  import opened Content
  import opened Strings
  import TextExtraction

  // ---------------------------------------------------------------------
  // Character slicing

  /** `substr`: the characters from index `start`, `len` of them but at least
      one (a `len` of 0 still yields one character), cut short at the end of
      the text; nothing when `start` is past the end. */
  function Substr(s: string, start: nat, len: nat): (r: string)
    ensures start >= |s| ==> r == []
    ensures start < |s| ==> |r| == (if len == 0 then 1 else if len < |s| - start then len else |s| - start)
    ensures start < |s| ==> r == s[start..start + |r|]
  {
    if start >= |s| then []
    else
      var count := if len == 0 then 1 else len;
      s[start..if start + count < |s| then start + count else |s|]
  }

  /** `substring`: everything from index `start`, or nothing past the end. */
  function Substring(s: string, start: nat): (r: string)
    ensures start < |s| ==> r == s[start..] && |r| == |s| - start
    ensures start >= |s| ==> r == []
  {
    if start < |s| then s[start..] else []
  }

  /** Taking one character at each index in turn rebuilds the text. */
  lemma SubstrCharacters(s: string, i: nat)
    requires i < |s|
    ensures Substr(s, i, 1) == [s[i]] == Substr(s, i, 0)
    ensures Substring(s, i) == Substr(s, i, 1) + Substring(s, i + 1)
  {
  }

  // ---------------------------------------------------------------------
  // encode and encode_with_fallback

  /** `encode` of at most one character: the font's bytes for it, or the
      bytes of the default string when the font has none. */
  function EncodeUnit(e: Encoding, t: string, default: string): seq<byte>
    requires |t| <= 1
  {
    var bytes := e.encode(t);
    if bytes != [] then bytes else e.encode(default)
  }

  /** The characters of `txt` encoded one at a time and concatenated. */
  function EncodeEach(e: Encoding, txt: string, default: string): seq<byte>
    decreases |txt|
  {
    if txt == [] then []
    else EncodeEach(e, txt[..|txt| - 1], default) + EncodeUnit(e, [txt[|txt| - 1]], default)
  }

  /** What `encode` yields: a text of several characters character by
      character, a shorter one as a whole. */
  function Encoded(e: Encoding, txt: string, default: string): seq<byte> {
    if |txt| > 1 then EncodeEach(e, txt, default) else EncodeUnit(e, txt, default)
  }

  /** `encode`, with its loop over character positions. */
  method Encode(e: Encoding, txt: string, default: string) returns (r: seq<byte>)
    ensures r == Encoded(e, txt, default)
    decreases |txt|
  {
    if |txt| > 1 {
      var cur := 0;
      r := [];
      assert txt[..0] == [];
      while cur < |txt|
        invariant 0 <= cur <= |txt|
        invariant r == EncodeEach(e, txt[..cur], default)
      {
        var c := Substr(txt, cur, 1);
        var bytes := Encode(e, c, default);
        assert c == [txt[cur]];
        var prefix := txt[..cur + 1];
        assert prefix[..|prefix| - 1] == txt[..cur] && prefix[|prefix| - 1] == txt[cur];
        r := r + bytes;
        cur := cur + 1;
      }
      assert txt[..|txt|] == txt;
    } else {
      var bytes := e.encode(txt);
      if bytes != [] {
        r := bytes;
      } else {
        r := e.encode(default);
      }
    }
  }

  /** Encoding character by character splits at any character boundary. */
  lemma {:induction false} EncodeEachConcat(e: Encoding, a: string, b: string, default: string)
    ensures EncodeEach(e, a + b, default) == EncodeEach(e, a, default) + EncodeEach(e, b, default)
    decreases |b|
  {
    if b == [] {
      assert a + b == a;
    } else {
      var init := b[..|b| - 1];
      assert (a + b)[..|a + b| - 1] == a + init;
      assert (a + b)[|a + b| - 1] == b[|b| - 1];
      EncodeEachConcat(e, a, init, default);
    }
  }

  /** `encode` of a longer text is the concatenation of the encodings of its
      pieces, each character falling back to the default on its own. */
  lemma EncodedConcat(e: Encoding, a: string, b: string, default: string)
    requires |a| >= 1 && |b| >= 1
    ensures Encoded(e, a + b, default) == Encoded(e, a, default) + Encoded(e, b, default)
  {
    EncodeEachConcat(e, a, b, default);
    if |a| == 1 {
      assert a[..0] == [] && a == [a[0]];
    }
    if |b| == 1 {
      assert b[..0] == [] && b == [b[0]];
    }
  }

  /** When the default string encodes to some bytes, `encode` never yields
      nothing, whatever the text. */
  lemma {:induction false} EncodedNonEmpty(e: Encoding, txt: string, default: string)
    requires e.encode(default) != []
    ensures Encoded(e, txt, default) != []
  {
    if |txt| > 1 {
      assert EncodeEach(e, txt, default) ==
        EncodeEach(e, txt[..|txt| - 1], default) + EncodeUnit(e, [txt[|txt| - 1]], default);
    }
  }

  /** `encode_with_fallback`: the font's encoding of the whole text, or, when
      that is empty, `encode` with the default. */
  function EncodeWithFallback(e: Encoding, text: string, default: string): (r: seq<byte>)
    ensures e.encode(text) != [] ==> r == e.encode(text)
    ensures e.encode(default) != [] ==> r != []
  {
    var bytes := e.encode(text);
    if bytes != [] then bytes
    else
      EncodedNonEmptyIf(e, text, default);
      Encoded(e, text, default)
  }

  lemma EncodedNonEmptyIf(e: Encoding, text: string, default: string)
    ensures e.encode(default) != [] ==> Encoded(e, text, default) != []
  {
    if e.encode(default) != [] {
      EncodedNonEmpty(e, text, default);
    }
  }

  // ---------------------------------------------------------------------
  // Exact replacement (`try_to_replace_encoded_text`)

  /** The number of string items among `items`. */
  function CountStrings(items: seq<Object>): nat {
    if items == [] then 0
    else (if items[0].String? then 1 else 0) + CountStrings(items[1..])
  }

  /** The slot rule of the kerned-array rewrite. String item number `cur`
      (counting only string items) gets the encoding of the `cur`-th
      replacement character, `Null` once `cur` exceeds the replacement's
      length, and, when it is item number `targetLength - 1`, the encoding of
      the whole rest of the replacement, after which nothing more changes.
      Other items are kept. */
  function Slots(e: Encoding, replacement: string, default: string, targetLength: nat,
                 items: seq<Object>, cur: nat): seq<Object>
    decreases |items|
  {
    if items == [] then []
    else
      match items[0]
      case String(_, format) =>
        if cur == targetLength - 1 then
          [String(Encoded(e, Substring(replacement, cur), default), format)] + items[1..]
        else if cur > |replacement| then
          [Null] + Slots(e, replacement, default, targetLength, items[1..], cur + 1)
        else
          [String(Encoded(e, Substr(replacement, cur, 1), default), format)]
          + Slots(e, replacement, default, targetLength, items[1..], cur + 1)
      case _ =>
        [items[0]] + Slots(e, replacement, default, targetLength, items[1..], cur)
  }

  /** What the slot rule puts at one position of the array, given how many
      string items precede it. */
  function SlotValue(e: Encoding, replacement: string, default: string, targetLength: nat,
                     item: Object, before: nat): Object
  {
    if !item.String? || before > targetLength - 1 then item
    else if before == targetLength - 1 then String(Encoded(e, Substring(replacement, before), default), item.format)
    else if before > |replacement| then Null
    else String(Encoded(e, Substr(replacement, before, 1), default), item.format)
  }

  lemma CountStringsStep(items: seq<Object>, i: nat)
    requires 0 < i <= |items|
    ensures CountStrings(items[..i]) == (if items[0].String? then 1 else 0) + CountStrings(items[1..][..i - 1])
  {
    assert items[..i][1..] == items[1..][..i - 1];
  }

  lemma {:induction false} SlotsLength(e: Encoding, replacement: string, default: string, targetLength: nat,
                                       items: seq<Object>, cur: nat)
    ensures |Slots(e, replacement, default, targetLength, items, cur)| == |items|
    decreases |items|
  {
    if items != [] {
      SlotsLength(e, replacement, default, targetLength, items[1..], cur + 1);
      SlotsLength(e, replacement, default, targetLength, items[1..], cur);
    }
  }

  /** The slot rule at one position: the item there is the slot value of the
      original item, from the number of string items before it. */
  lemma {:induction false} SlotAt(e: Encoding, replacement: string, default: string, targetLength: nat,
                                  items: seq<Object>, cur: nat, i: nat)
    requires cur < targetLength && i < |items|
    ensures |Slots(e, replacement, default, targetLength, items, cur)| == |items|
    ensures Slots(e, replacement, default, targetLength, items, cur)[i]
            == SlotValue(e, replacement, default, targetLength, items[i], cur + CountStrings(items[..i]))
    decreases i
  {
    SlotsLength(e, replacement, default, targetLength, items, cur);
    var r := Slots(e, replacement, default, targetLength, items, cur);
    if i == 0 {
      assert items[..0] == [];
    } else {
      var rest := items[1..];
      var head := if items[0].String? then 1 else 0;
      CountStringsStep(items, i);
      assert rest[i - 1] == items[i];
      if items[0].String? && cur == targetLength - 1 {
        assert r[1..] == rest;
        assert r[i] == r[1..][i - 1];
      } else {
        assert r[1..] == Slots(e, replacement, default, targetLength, rest, cur + head);
        assert r[i] == r[1..][i - 1];
        SlotAt(e, replacement, default, targetLength, rest, cur + head, i - 1);
      }
    }
  }

  /** The slot rule position by position, for the whole array. */
  lemma SlotsAt(e: Encoding, replacement: string, default: string, targetLength: nat, items: seq<Object>)
    requires targetLength > 0
    ensures |Slots(e, replacement, default, targetLength, items, 0)| == |items|
    ensures forall i :: 0 <= i < |items| ==>
      Slots(e, replacement, default, targetLength, items, 0)[i]
        == SlotValue(e, replacement, default, targetLength, items[i], CountStrings(items[..i]))
  {
    SlotsLength(e, replacement, default, targetLength, items, 0);
    forall i | 0 <= i < |items|
      ensures Slots(e, replacement, default, targetLength, items, 0)[i]
              == SlotValue(e, replacement, default, targetLength, items[i], CountStrings(items[..i]))
    {
      SlotAt(e, replacement, default, targetLength, items, 0, i);
    }
  }

  lemma UpdateStep(r: seq<Object>, i: nat, v: Object, rest: seq<Object>)
    requires i < |r|
    ensures r[..i] + ([v] + rest) == r[i := v][..i + 1] + rest
    ensures r[i := v][i + 1..] == r[i + 1..]
  {
    assert r[i := v][..i + 1] == r[..i] + [v];
  }

  /** One iteration of the slot loop, at item `i` with `cur` strings before
      it: the slot's new value is written at `i` and, unless this was the
      last slot, the loop moves on. */
  lemma SlotsStep(e: Encoding, replacement: string, default: string, targetLength: nat,
                  items: seq<Object>, r: seq<Object>, i: nat, cur: nat)
    requires i < |items| == |r| && cur < targetLength
    requires r[i..] == items[i..]
    requires Slots(e, replacement, default, targetLength, items, 0)
             == r[..i] + Slots(e, replacement, default, targetLength, items[i..], cur)
    ensures var v := SlotValue(e, replacement, default, targetLength, items[i], cur);
      var r' := r[i := v];
      if items[i].String? && cur == targetLength - 1 then
        Slots(e, replacement, default, targetLength, items, 0) == r'
      else
        && r'[i + 1..] == items[i + 1..]
        && Slots(e, replacement, default, targetLength, items, 0)
           == r'[..i + 1] + Slots(e, replacement, default, targetLength, items[i + 1..],
                                  if items[i].String? then cur + 1 else cur)
  {
    assert items[i..][0] == items[i] && items[i..][1..] == items[i + 1..];
    assert r[i..][1..] == r[i + 1..];
    var v := SlotValue(e, replacement, default, targetLength, items[i], cur);
    var next := if items[i].String? then cur + 1 else cur;
    if items[i].String? && cur == targetLength - 1 {
      UpdateStep(r, i, v, items[i + 1..]);
      assert r[i := v] == r[i := v][..i + 1] + r[i := v][i + 1..];
    } else {
      UpdateStep(r, i, v, Slots(e, replacement, default, targetLength, items[i + 1..], next));
    }
  }

  /** The new value of one slot: the encoded rest of the replacement at the
      last slot, one encoded character (or `Null` past the replacement's end)
      before it. */
  method RewriteSlot(e: Encoding, replacement: string, default: string, targetLength: nat, item: Object, cur: nat)
    returns (v: Object)
    requires cur < targetLength
    ensures v == SlotValue(e, replacement, default, targetLength, item, cur)
  {
    if !item.String? {
      return item;
    } else if cur == targetLength - 1 {
      var bytes := Encode(e, Substring(replacement, cur), default);
      return String(bytes, item.format);
    } else if cur > |replacement| {
      return Null;
    } else {
      var bytes := Encode(e, Substr(replacement, cur, 1), default);
      return String(bytes, item.format);
    }
  }

  /** The slot loop of `try_to_replace_encoded_text`, rewriting the array in
      place and stopping after the slot of the target's last character. */
  method RewriteSlots(e: Encoding, replacement: string, default: string, targetLength: nat, items: seq<Object>)
    returns (r: seq<Object>)
    requires targetLength > 0
    ensures r == Slots(e, replacement, default, targetLength, items, 0)
  {
    r := items;
    var cur := 0;
    var i := 0;
    while i < |items|
      invariant 0 <= i <= |items| && |r| == |items|
      invariant cur < targetLength
      invariant r[i..] == items[i..]
      invariant Slots(e, replacement, default, targetLength, items, 0)
                == r[..i] + Slots(e, replacement, default, targetLength, items[i..], cur)
    {
      SlotsStep(e, replacement, default, targetLength, items, r, i, cur);
      var v := RewriteSlot(e, replacement, default, targetLength, items[i], cur);
      var last := items[i].String? && cur == targetLength - 1;
      r := r[i := v];
      if last {
        return;
      }
      if items[i].String? {
        cur := cur + 1;
      }
      i := i + 1;
    }
    assert items[|items|..] == [];
    assert r[..|items|] + [] == r;
  }

  /** One operand under exact replacement: a string whose decoded text is the
      target is re-encoded from the replacement; a kerned array whose
      collected text is the target has its slots rewritten; a decoding error
      aborts. */
  function ReplaceExactOperand(e: Encoding, target: string, replacement: string, default: string, o: Object)
    : Result<Object>
    requires target != []
  {
    match o
    case String(bytes, format) =>
      var decoded :- e.decode(bytes);
      Ok(if decoded == target then String(Encoded(e, replacement, default), format) else o)
    case Array(items) =>
      var collected := TextExtraction.Collect(e.decode, items);
      if collected.failure.Some? then Err(collected.failure.value)
      else if collected.text == target then Ok(Array(Slots(e, replacement, default, |target|, items, 0)))
      else Ok(o)
    case _ => Ok(o)
  }

  /** All operands of one operation, in order, stopping at the first error. */
  function ReplaceExact(e: Encoding, target: string, replacement: string, default: string, operands: seq<Object>)
    : Result<seq<Object>>
    requires target != []
    decreases |operands|
  {
    if operands == [] then Ok([])
    else
      var head :- ReplaceExactOperand(e, target, replacement, default, operands[0]);
      var rest :- ReplaceExact(e, target, replacement, default, operands[1..]);
      Ok([head] + rest)
  }

  /** `try_to_replace_encoded_text`. */
  method ReplaceExactInOperands(e: Encoding, target: string, replacement: string, default: string,
                                operands: seq<Object>)
    returns (r: Result<seq<Object>>)
    requires target != []
    ensures r == ReplaceExact(e, target, replacement, default, operands)
  {
    var done: seq<Object> := [];
    assert operands[0..] == operands;
    var whole := ReplaceExact(e, target, replacement, default, operands);
    if whole.Ok? {
      assert [] + whole.value == whole.value;
    }
    for i := 0 to |operands|
      invariant ReplaceExact(e, target, replacement, default, operands)
                == Prefixed(done, ReplaceExact(e, target, replacement, default, operands[i..]))
    {
      assert operands[i..][0] == operands[i] && operands[i..][1..] == operands[i + 1..];
      var o := operands[i];
      var next := o;
      match o {
        case String(bytes, format) =>
          var decoded := e.decode(bytes);
          if decoded.Err? {
            return Err(decoded.error);
          }
          if decoded.value == target {
            var encoded := Encode(e, replacement, default);
            next := String(encoded, format);
          }
        case Array(items) =>
          var collected, failure := TextExtraction.CollectText([], e.decode, items);
          if failure.Some? {
            return Err(failure.value);
          }
          if collected == target {
            var rewritten := RewriteSlots(e, replacement, default, |target|, items);
            next := Array(rewritten);
          }
        case _ =>
      }
      assert ReplaceExactOperand(e, target, replacement, default, o) == Ok(next);
      PrefixedStep(done, next, ReplaceExact(e, target, replacement, default, operands[i + 1..]));
      done := done + [next];
    }
    assert operands[|operands|..] == [];
    assert done + [] == done;
    return Ok(done);
  }

  function Prefixed<T>(done: seq<T>, r: Result<seq<T>>): Result<seq<T>> {
    if r.Ok? then Ok(done + r.value) else r
  }

  lemma PrefixedStep<T>(done: seq<T>, next: T, r: Result<seq<T>>)
    ensures Prefixed(done, (var rest :- r; Ok([next] + rest))) == Prefixed(done + [next], r)
  {
    if r.Ok? {
      assert done + ([next] + r.value) == done + [next] + r.value;
    }
  }

  /** Exact replacement keeps the shape of the operands: each string stays a
      string with its format, each array an array of the same length, and
      everything else is untouched. */
  lemma {:induction false} ReplaceExactShape(e: Encoding, target: string, replacement: string, default: string,
                                             operands: seq<Object>)
    requires target != []
    requires ReplaceExact(e, target, replacement, default, operands).Ok?
    ensures |ReplaceExact(e, target, replacement, default, operands).value| == |operands|
    ensures forall k :: 0 <= k < |operands| ==>
      SameShape(operands[k], ReplaceExact(e, target, replacement, default, operands).value[k])
    decreases |operands|
  {
    if operands != [] {
      var r := ReplaceExact(e, target, replacement, default, operands).value;
      ReplaceExactShape(e, target, replacement, default, operands[1..]);
      if operands[0].Array? {
        var items := operands[0].items;
        if TextExtraction.Collect(e.decode, items).text == target {
          SlotsAt(e, replacement, default, |target|, items);
        }
      }
      forall k | 0 <= k < |operands|
        ensures SameShape(operands[k], r[k])
      {
        if k > 0 {
          assert r[k] == ReplaceExact(e, target, replacement, default, operands[1..]).value[k - 1];
        }
      }
    }
  }

  /** `after` has the shape of `before`: same kind, strings keep their
      format, arrays their length, and other objects are unchanged. */
  predicate SameShape(before: Object, after: Object) {
    match before
    case String(_, format) => after.String? && after.format == format
    case Array(items) => after.Array? && |after.items| == |items|
    case _ => after == before
  }

  /** A string operand that does not decode to the target is left alone. */
  lemma ReplaceExactKeepsOtherStrings(e: Encoding, target: string, replacement: string, default: string,
                                      bytes: seq<byte>, format: StringFormat)
    requires target != []
    requires e.decode(bytes).Ok? && e.decode(bytes).value != target
    ensures ReplaceExactOperand(e, target, replacement, default, String(bytes, format)) == Ok(String(bytes, format))
  {
  }

  // ---------------------------------------------------------------------
  // Partial replacement (`replace_partial_in_operation` and
  // `replace_partial_in_array`)

  /** A rewritten value and the number of occurrences replaced in it. */
  datatype Counted<T> = Counted(value: T, count: nat)

  /** One string object under partial replacement: when its decoded text
      contains the search text, every occurrence is replaced and the result
      re-encoded with fallback; the count is the number of occurrences. */
  function ReplacePartialString(e: Encoding, search: string, replacement: string, default: string,
                                bytes: seq<byte>, format: StringFormat): Result<Counted<Object>>
    requires search != []
  {
    var decoded :- e.decode(bytes);
    if Contains(decoded, search) then
      Ok(Counted(String(EncodeWithFallback(e, ReplaceAll(decoded, search, replacement), default), format),
                 CountMatches(decoded, search)))
    else Ok(Counted(String(bytes, format), 0))
  }

  /** The items of a kerned array: only its direct strings are rewritten. */
  function ReplacePartialItems(e: Encoding, search: string, replacement: string, default: string,
                               items: seq<Object>): Result<Counted<seq<Object>>>
    requires search != []
    decreases |items|
  {
    if items == [] then Ok(Counted([], 0))
    else
      ConsCounted(ReplacePartialItem(e, search, replacement, default, items[0]),
                  ReplacePartialItems(e, search, replacement, default, items[1..]))
  }

  /** One item of a kerned array: strings are rewritten, the rest kept. */
  function ReplacePartialItem(e: Encoding, search: string, replacement: string, default: string, item: Object)
    : Result<Counted<Object>>
    requires search != []
  {
    if item.String? then ReplacePartialString(e, search, replacement, default, item.bytes, item.format)
    else Ok(Counted(item, 0))
  }

  /** A rewritten item in front of the rewritten rest, the first failure
      winning. */
  function ConsCounted(head: Result<Counted<Object>>, rest: Result<Counted<seq<Object>>>)
    : Result<Counted<seq<Object>>>
  {
    if head.Err? then Err(head.error)
    else if rest.Err? then Err(rest.error)
    else Ok(Counted([head.value.value] + rest.value.value, head.value.count + rest.value.count))
  }

  /** One operand: a string directly, an array through its direct items, and
      nothing else. */
  function ReplacePartialOperand(e: Encoding, search: string, replacement: string, default: string, o: Object)
    : Result<Counted<Object>>
    requires search != []
  {
    match o
    case String(bytes, format) => ReplacePartialString(e, search, replacement, default, bytes, format)
    case Array(items) =>
      var r :- ReplacePartialItems(e, search, replacement, default, items);
      Ok(Counted(Array(r.value), r.count))
    case _ => Ok(Counted(o, 0))
  }

  /** All operands of one operation, summing the counts. */
  function ReplacePartial(e: Encoding, search: string, replacement: string, default: string,
                          operands: seq<Object>): Result<Counted<seq<Object>>>
    requires search != []
    decreases |operands|
  {
    if operands == [] then Ok(Counted([], 0))
    else
      ConsCounted(ReplacePartialOperand(e, search, replacement, default, operands[0]),
                  ReplacePartial(e, search, replacement, default, operands[1..]))
  }

  function PrefixedCounted(done: seq<Object>, count: nat, r: Result<Counted<seq<Object>>>)
    : Result<Counted<seq<Object>>>
  {
    if r.Ok? then Ok(Counted(done + r.value.value, count + r.value.count)) else r
  }

  lemma PrefixedCountedStep(done: seq<Object>, count: nat, next: Counted<Object>, r: Result<Counted<seq<Object>>>)
    ensures PrefixedCounted(done, count, ConsCounted(Ok(next), r))
            == PrefixedCounted(done + [next.value], count + next.count, r)
  {
    if r.Ok? {
      assert done + ([next.value] + r.value.value) == done + [next.value] + r.value.value;
    }
  }

  lemma ReplacePartialItemsStep(e: Encoding, search: string, replacement: string, default: string,
                                items: seq<Object>, i: nat)
    requires search != [] && i < |items|
    ensures ReplacePartialItems(e, search, replacement, default, items[i..])
         == ConsCounted(ReplacePartialItem(e, search, replacement, default, items[i]),
                        ReplacePartialItems(e, search, replacement, default, items[i + 1..]))
  {
    assert items[i..][0] == items[i] && items[i..][1..] == items[i + 1..];
  }

  lemma ReplacePartialStep(e: Encoding, search: string, replacement: string, default: string,
                           operands: seq<Object>, i: nat)
    requires search != [] && i < |operands|
    ensures ReplacePartial(e, search, replacement, default, operands[i..])
         == ConsCounted(ReplacePartialOperand(e, search, replacement, default, operands[i]),
                        ReplacePartial(e, search, replacement, default, operands[i + 1..]))
  {
    assert operands[i..][0] == operands[i] && operands[i..][1..] == operands[i + 1..];
  }

  /** The string case shared by both loops below. */
  method ReplacePartialInString(e: Encoding, search: string, replacement: string, default: string,
                                bytes: seq<byte>, format: StringFormat)
    returns (r: Result<Counted<Object>>)
    requires search != []
    ensures r == ReplacePartialString(e, search, replacement, default, bytes, format)
  {
    var decoded := e.decode(bytes);
    if decoded.Err? {
      return Err(decoded.error);
    }
    if Contains(decoded.value, search) {
      var newText := ReplaceAll(decoded.value, search, replacement);
      var encoded := EncodeWithFallback(e, newText, default);
      return Ok(Counted(String(encoded, format), CountMatches(decoded.value, search)));
    }
    return Ok(Counted(String(bytes, format), 0));
  }

  /** One item of `replace_partial_in_array`: only a string is rewritten. */
  method ReplacePartialInItem(e: Encoding, search: string, replacement: string, default: string, item: Object)
    returns (r: Result<Counted<Object>>)
    requires search != []
    ensures r == ReplacePartialItem(e, search, replacement, default, item)
  {
    if item.String? {
      r := ReplacePartialInString(e, search, replacement, default, item.bytes, item.format);
    } else {
      r := Ok(Counted(item, 0));
    }
  }

  /** `replace_partial_in_array`. */
  method ReplacePartialInArray(e: Encoding, search: string, replacement: string, default: string,
                               items: seq<Object>)
    returns (r: Result<Counted<seq<Object>>>)
    requires search != []
    ensures r == ReplacePartialItems(e, search, replacement, default, items)
  {
    var done: seq<Object> := [];
    var count: nat := 0;
    assert items[0..] == items;
    var whole := ReplacePartialItems(e, search, replacement, default, items);
    if whole.Ok? {
      assert [] + whole.value.value == whole.value.value;
    }
    for i := 0 to |items|
      invariant ReplacePartialItems(e, search, replacement, default, items)
                == PrefixedCounted(done, count, ReplacePartialItems(e, search, replacement, default, items[i..]))
    {
      ReplacePartialItemsStep(e, search, replacement, default, items, i);
      var next := ReplacePartialInItem(e, search, replacement, default, items[i]);
      if next.Err? {
        return Err(next.error);
      }
      PrefixedCountedStep(done, count, next.value, ReplacePartialItems(e, search, replacement, default, items[i + 1..]));
      done := done + [next.value.value];
      count := count + next.value.count;
    }
    assert items[|items|..] == [];
    assert done + [] == done;
    return Ok(Counted(done, count));
  }

  /** One operand of `replace_partial_in_operation`. */
  method ReplacePartialInOperand(e: Encoding, search: string, replacement: string, default: string, o: Object)
    returns (r: Result<Counted<Object>>)
    requires search != []
    ensures r == ReplacePartialOperand(e, search, replacement, default, o)
  {
    match o {
      case String(bytes, format) =>
        r := ReplacePartialInString(e, search, replacement, default, bytes, format);
      case Array(items) =>
        var rewritten := ReplacePartialInArray(e, search, replacement, default, items);
        if rewritten.Err? {
          return Err(rewritten.error);
        }
        r := Ok(Counted(Array(rewritten.value.value), rewritten.value.count));
      case _ =>
        r := Ok(Counted(o, 0));
    }
  }

  /** `replace_partial_in_operation`. */
  method ReplacePartialInOperands(e: Encoding, search: string, replacement: string, default: string,
                                  operands: seq<Object>)
    returns (r: Result<Counted<seq<Object>>>)
    requires search != []
    ensures r == ReplacePartial(e, search, replacement, default, operands)
  {
    var done: seq<Object> := [];
    var count: nat := 0;
    assert operands[0..] == operands;
    var whole := ReplacePartial(e, search, replacement, default, operands);
    if whole.Ok? {
      assert [] + whole.value.value == whole.value.value;
    }
    for i := 0 to |operands|
      invariant ReplacePartial(e, search, replacement, default, operands)
                == PrefixedCounted(done, count, ReplacePartial(e, search, replacement, default, operands[i..]))
    {
      ReplacePartialStep(e, search, replacement, default, operands, i);
      var next := ReplacePartialInOperand(e, search, replacement, default, operands[i]);
      if next.Err? {
        return Err(next.error);
      }
      PrefixedCountedStep(done, count, next.value, ReplacePartial(e, search, replacement, default, operands[i + 1..]));
      done := done + [next.value.value];
      count := count + next.value.count;
    }
    assert operands[|operands|..] == [];
    assert done + [] == done;
    return Ok(Counted(done, count));
  }

  /** A string is rewritten exactly when it holds an occurrence, which is
      exactly when the count is positive; uncounted strings are kept. */
  lemma PartialStringCount(e: Encoding, search: string, replacement: string, default: string,
                           bytes: seq<byte>, format: StringFormat)
    requires search != []
    requires ReplacePartialString(e, search, replacement, default, bytes, format).Ok?
    ensures var r := ReplacePartialString(e, search, replacement, default, bytes, format).value;
      r.count == CountMatches(e.decode(bytes).value, search)
      && (r.count > 0 <==> Contains(e.decode(bytes).value, search))
      && (r.count == 0 ==> r.value == String(bytes, format))
  {
    var decoded := e.decode(bytes).value;
    CountMatchesPositive(decoded, search);
  }

  /** With nothing counted, the array items come back unchanged. */
  lemma {:induction false} PartialItemsUnchanged(e: Encoding, search: string, replacement: string, default: string,
                                                 items: seq<Object>)
    requires search != []
    requires ReplacePartialItems(e, search, replacement, default, items).Ok?
    requires ReplacePartialItems(e, search, replacement, default, items).value.count == 0
    ensures ReplacePartialItems(e, search, replacement, default, items).value.value == items
    decreases |items|
  {
    if items != [] {
      if items[0].String? {
        PartialStringCount(e, search, replacement, default, items[0].bytes, items[0].format);
      }
      PartialItemsUnchanged(e, search, replacement, default, items[1..]);
    }
  }

  /** With nothing counted, the operands come back unchanged. */
  lemma {:induction false} PartialUnchanged(e: Encoding, search: string, replacement: string, default: string,
                                            operands: seq<Object>)
    requires search != []
    requires ReplacePartial(e, search, replacement, default, operands).Ok?
    requires ReplacePartial(e, search, replacement, default, operands).value.count == 0
    ensures ReplacePartial(e, search, replacement, default, operands).value.value == operands
    decreases |operands|
  {
    if operands != [] {
      match operands[0] {
        case String(bytes, format) =>
          PartialStringCount(e, search, replacement, default, bytes, format);
        case Array(items) =>
          PartialItemsUnchanged(e, search, replacement, default, items);
        case _ =>
      }
      PartialUnchanged(e, search, replacement, default, operands[1..]);
    }
  }

  /** Partial replacement keeps the shape of the operands as exact
      replacement does, and leaves nested arrays inside arrays untouched. */
  lemma {:induction false} PartialItemsShape(e: Encoding, search: string, replacement: string, default: string,
                                             items: seq<Object>)
    requires search != []
    requires ReplacePartialItems(e, search, replacement, default, items).Ok?
    ensures |ReplacePartialItems(e, search, replacement, default, items).value.value| == |items|
    ensures forall k :: 0 <= k < |items| ==>
      var after := ReplacePartialItems(e, search, replacement, default, items).value.value[k];
      if items[k].String? then after.String? && after.format == items[k].format else after == items[k]
    decreases |items|
  {
    if items != [] {
      var r := ReplacePartialItems(e, search, replacement, default, items).value.value;
      PartialItemsShape(e, search, replacement, default, items[1..]);
      forall k | 0 < k < |items|
        ensures r[k] == ReplacePartialItems(e, search, replacement, default, items[1..]).value.value[k - 1]
      {
      }
    }
  }

  /** Replacing the search text by itself changes no decoded text: every
      rewritten string decodes, before re-encoding, to what it held. */
  lemma PartialSelfReplacement(e: Encoding, search: string, default: string,
                               bytes: seq<byte>, format: StringFormat)
    requires search != []
    requires e.decode(bytes).Ok? && Contains(e.decode(bytes).value, search)
    requires e.encode(e.decode(bytes).value) != []
    ensures ReplacePartialString(e, search, search, default, bytes, format)
            == Ok(Counted(String(e.encode(e.decode(bytes).value), format), CountMatches(e.decode(bytes).value, search)))
  {
    ReplaceAllSelf(e.decode(bytes).value, search);
  }

  // ---------------------------------------------------------------------
  // One page (the loops of `replace_text` and `replace_partial_text`)

  /** The page's encodings for replacement: a font whose encoding cannot be
      read fails the call with the first such error. */
  function AllEncodings(fonts: seq<TextExtraction.Font>): Result<map<seq<byte>, Encoding>>
    decreases |fonts|
  {
    if fonts == [] then Ok(map[])
    else
      var init :- AllEncodings(fonts[..|fonts| - 1]);
      var last := fonts[|fonts| - 1];
      var e :- last.encoding;
      Ok(init[last.name := e])
  }

  /** Replacement reads the same encodings extraction does, but only when
      every font's encoding can be read; otherwise it reports the first
      failure. */
  lemma {:induction false} AllEncodingsResult(fonts: seq<TextExtraction.Font>)
    ensures AllEncodings(fonts).Ok? <==> forall k :: 0 <= k < |fonts| ==> fonts[k].encoding.Ok?
    ensures AllEncodings(fonts).Ok? ==> AllEncodings(fonts).value == TextExtraction.Encodings(fonts)
    ensures AllEncodings(fonts).Err? ==> exists k :: 0 <= k < |fonts| && fonts[k].encoding == Err(AllEncodings(fonts).error)
                                              && forall j :: 0 <= j < k ==> fonts[j].encoding.Ok?
    decreases |fonts|
  {
    if fonts != [] {
      var init := fonts[..|fonts| - 1];
      AllEncodingsResult(init);
      assert forall k :: 0 <= k < |init| ==> init[k] == fonts[k];
    }
  }

  /** The encoding a `Tf` operand selects, or the error it raises. */
  function SelectFont(encodings: map<seq<byte>, Encoding>, op: Operation): Result<Option<Encoding>> {
    if op.operands == [] then Err(Syntax(MISSING_FONT_OPERAND))
    else
      var font :- AsName(op.operands[0]);
      Ok(if font in encodings then Some(encodings[font]) else None)
  }

  /** `replace_text`'s pass: a `Tf` switches the encoding (failing on a
      missing or non-name operand), a `Tj`/`TJ` under an encoding has its
      operands replaced exactly, and everything else is kept. */
  function ReplaceExactOps(encodings: map<seq<byte>, Encoding>, current: Option<Encoding>,
                           target: string, replacement: string, default: string, ops: seq<Operation>)
    : Result<seq<Operation>>
    requires target != []
    decreases |ops|
  {
    if ops == [] then Ok([])
    else
      var op := ops[0];
      if IsFontOperator(op) then
        var next :- SelectFont(encodings, op);
        var rest :- ReplaceExactOps(encodings, next, target, replacement, default, ops[1..]);
        Ok([op] + rest)
      else if IsShowText(op) && current.Some? then
        var operands :- ReplaceExact(current.value, target, replacement, default, op.operands);
        var rest :- ReplaceExactOps(encodings, current, target, replacement, default, ops[1..]);
        Ok([Operation(op.operator, operands)] + rest)
      else
        var rest :- ReplaceExactOps(encodings, current, target, replacement, default, ops[1..]);
        Ok([op] + rest)
  }

  /** `replace_partial_text`'s pass, summing the counts of its operations. */
  function ReplacePartialOps(encodings: map<seq<byte>, Encoding>, current: Option<Encoding>,
                             search: string, replacement: string, default: string, ops: seq<Operation>)
    : Result<Counted<seq<Operation>>>
    requires search != []
    decreases |ops|
  {
    if ops == [] then Ok(Counted([], 0))
    else
      var step :- PartialStep(encodings, current, search, replacement, default, ops[0]);
      var rest :- ReplacePartialOps(encodings, step.0, search, replacement, default, ops[1..]);
      Ok(Counted([step.1.value] + rest.value, step.1.count + rest.count))
  }

  /** One operation of `replace_partial_text`'s pass: the encoding in force
      afterwards, and the operation with its count. */
  function PartialStep(encodings: map<seq<byte>, Encoding>, current: Option<Encoding>,
                       search: string, replacement: string, default: string, op: Operation)
    : Result<(Option<Encoding>, Counted<Operation>)>
    requires search != []
  {
    if IsFontOperator(op) then
      var next :- SelectFont(encodings, op);
      Ok((next, Counted(op, 0)))
    else if IsShowText(op) && current.Some? then
      var operands :- ReplacePartial(current.value, search, replacement, default, op.operands);
      Ok((current, Counted(Operation(op.operator, operands.value), operands.count)))
    else Ok((current, Counted(op, 0)))
  }

  /** The loop of `replace_text`, rewriting the operations in place. */
  method ReplaceExactInOperations(encodings: map<seq<byte>, Encoding>, target: string, replacement: string,
                                  default: string, ops: seq<Operation>)
    returns (r: Result<seq<Operation>>)
    requires target != []
    ensures r == ReplaceExactOps(encodings, None, target, replacement, default, ops)
  {
    var done: seq<Operation> := [];
    var current: Option<Encoding> := None;
    assert ops[0..] == ops;
    var whole := ReplaceExactOps(encodings, None, target, replacement, default, ops);
    if whole.Ok? {
      assert [] + whole.value == whole.value;
    }
    for i := 0 to |ops|
      invariant whole == Prefixed(done, ReplaceExactOps(encodings, current, target, replacement, default, ops[i..]))
    {
      assert ops[i..][0] == ops[i] && ops[i..][1..] == ops[i + 1..];
      var op := ops[i];
      var next := op;
      if op.operator == "Tf" {
        if op.operands == [] {
          return Err(Syntax(MISSING_FONT_OPERAND));
        }
        var font := AsName(op.operands[0]);
        if font.Err? {
          return Err(font.error);
        }
        current := if font.value in encodings then Some(encodings[font.value]) else None;
      } else if op.operator == "Tj" || op.operator == "TJ" {
        if current.Some? {
          var operands := ReplaceExactInOperands(current.value, target, replacement, default, op.operands);
          if operands.Err? {
            return Err(operands.error);
          }
          next := Operation(op.operator, operands.value);
        }
      }
      PrefixedStep(done, next, ReplaceExactOps(encodings, current, target, replacement, default, ops[i + 1..]));
      done := done + [next];
    }
    assert ops[|ops|..] == [];
    assert done + [] == done;
    return Ok(done);
  }

  function PrefixedOps(done: seq<Operation>, count: nat, r: Result<Counted<seq<Operation>>>)
    : Result<Counted<seq<Operation>>>
  {
    if r.Ok? then Ok(Counted(done + r.value.value, count + r.value.count)) else r
  }

  lemma PrefixedOpsStep(done: seq<Operation>, count: nat, next: Operation, found: nat,
                        r: Result<Counted<seq<Operation>>>)
    ensures PrefixedOps(done, count, (var rest :- r; Ok(Counted([next] + rest.value, found + rest.count))))
            == PrefixedOps(done + [next], count + found, r)
  {
    if r.Ok? {
      assert done + ([next] + r.value.value) == done + [next] + r.value.value;
    }
  }

  /** The body of `replace_partial_text`'s loop, for one operation. */
  method ReplacePartialInOperation(encodings: map<seq<byte>, Encoding>, current: Option<Encoding>,
                                   search: string, replacement: string, default: string, op: Operation)
    returns (r: Result<(Option<Encoding>, Counted<Operation>)>)
    requires search != []
    ensures r == PartialStep(encodings, current, search, replacement, default, op)
  {
    if op.operator == "Tf" {
      if op.operands == [] {
        return Err(Syntax(MISSING_FONT_OPERAND));
      }
      var font := AsName(op.operands[0]);
      if font.Err? {
        return Err(font.error);
      }
      var next := if font.value in encodings then Some(encodings[font.value]) else None;
      return Ok((next, Counted(op, 0)));
    } else if (op.operator == "Tj" || op.operator == "TJ") && current.Some? {
      var operands := ReplacePartialInOperands(current.value, search, replacement, default, op.operands);
      if operands.Err? {
        return Err(operands.error);
      }
      return Ok((current, Counted(Operation(op.operator, operands.value.value), operands.value.count)));
    }
    return Ok((current, Counted(op, 0)));
  }

  lemma ReplacePartialOpsStep(encodings: map<seq<byte>, Encoding>, current: Option<Encoding>,
                              search: string, replacement: string, default: string,
                              ops: seq<Operation>, i: nat)
    requires search != [] && i < |ops|
    requires PartialStep(encodings, current, search, replacement, default, ops[i]).Ok?
    ensures var step := PartialStep(encodings, current, search, replacement, default, ops[i]).value;
      ReplacePartialOps(encodings, current, search, replacement, default, ops[i..])
      == (var rest :- ReplacePartialOps(encodings, step.0, search, replacement, default, ops[i + 1..]);
          Ok(Counted([step.1.value] + rest.value, step.1.count + rest.count)))
  {
    assert ops[i..][0] == ops[i] && ops[i..][1..] == ops[i + 1..];
  }

  /** The loop of `replace_partial_text`, with its running count. */
  method ReplacePartialInOperations(encodings: map<seq<byte>, Encoding>, search: string, replacement: string,
                                    default: string, ops: seq<Operation>)
    returns (r: Result<Counted<seq<Operation>>>)
    requires search != []
    ensures r == ReplacePartialOps(encodings, None, search, replacement, default, ops)
  {
    var done: seq<Operation> := [];
    var count: nat := 0;
    var current: Option<Encoding> := None;
    assert ops[0..] == ops;
    var whole := ReplacePartialOps(encodings, None, search, replacement, default, ops);
    if whole.Ok? {
      assert [] + whole.value.value == whole.value.value;
    }
    for i := 0 to |ops|
      invariant whole == PrefixedOps(done, count, ReplacePartialOps(encodings, current, search, replacement, default, ops[i..]))
    {
      var step := ReplacePartialInOperation(encodings, current, search, replacement, default, ops[i]);
      if step.Err? {
        assert ops[i..][0] == ops[i];
        return Err(step.error);
      }
      ReplacePartialOpsStep(encodings, current, search, replacement, default, ops, i);
      PrefixedOpsStep(done, count, step.value.1.value, step.value.1.count,
                      ReplacePartialOps(encodings, step.value.0, search, replacement, default, ops[i + 1..]));
      current := step.value.0;
      done := done + [step.value.1.value];
      count := count + step.value.1.count;
    }
    assert ops[|ops|..] == [];
    assert done + [] == done;
    return Ok(Counted(done, count));
  }

  /** Replacement rewrites operands only: every operation keeps its
      operator, and every operation other than `Tj`/`TJ` is kept whole. */
  lemma {:induction false} ReplaceExactOpsShape(encodings: map<seq<byte>, Encoding>, current: Option<Encoding>,
                                                target: string, replacement: string, default: string,
                                                ops: seq<Operation>)
    requires target != []
    requires ReplaceExactOps(encodings, current, target, replacement, default, ops).Ok?
    ensures |ReplaceExactOps(encodings, current, target, replacement, default, ops).value| == |ops|
    ensures forall k :: 0 <= k < |ops| ==>
      var after := ReplaceExactOps(encodings, current, target, replacement, default, ops).value[k];
      after.operator == ops[k].operator && (!IsShowText(ops[k]) ==> after == ops[k])
    decreases |ops|
  {
    if ops != [] {
      var r := ReplaceExactOps(encodings, current, target, replacement, default, ops).value;
      var next := if IsFontOperator(ops[0]) then SelectFont(encodings, ops[0]).value else current;
      ReplaceExactOpsShape(encodings, next, target, replacement, default, ops[1..]);
      forall k | 0 < k < |ops|
        ensures r[k] == ReplaceExactOps(encodings, next, target, replacement, default, ops[1..]).value[k - 1]
      {
      }
    }
  }

  /** The same for partial replacement. */
  lemma {:induction false} ReplacePartialOpsShape(encodings: map<seq<byte>, Encoding>, current: Option<Encoding>,
                                                  search: string, replacement: string, default: string,
                                                  ops: seq<Operation>)
    requires search != []
    requires ReplacePartialOps(encodings, current, search, replacement, default, ops).Ok?
    ensures |ReplacePartialOps(encodings, current, search, replacement, default, ops).value.value| == |ops|
    ensures forall k :: 0 <= k < |ops| ==>
      var after := ReplacePartialOps(encodings, current, search, replacement, default, ops).value.value[k];
      after.operator == ops[k].operator && (!IsShowText(ops[k]) ==> after == ops[k])
    decreases |ops|
  {
    if ops != [] {
      var r := ReplacePartialOps(encodings, current, search, replacement, default, ops).value.value;
      var next := PartialStep(encodings, current, search, replacement, default, ops[0]).value.0;
      ReplacePartialOpsShape(encodings, next, search, replacement, default, ops[1..]);
      forall k | 0 < k < |ops|
        ensures r[k] == ReplacePartialOps(encodings, next, search, replacement, default, ops[1..]).value.value[k - 1]
      {
      }
    }
  }

  /** A page pass that counts nothing leaves every operation as it was, which
      is why the page is then not stored again. */
  lemma {:induction false} ReplacePartialOpsUnchanged(encodings: map<seq<byte>, Encoding>, current: Option<Encoding>,
                                                      search: string, replacement: string, default: string,
                                                      ops: seq<Operation>)
    requires search != []
    requires ReplacePartialOps(encodings, current, search, replacement, default, ops).Ok?
    requires ReplacePartialOps(encodings, current, search, replacement, default, ops).value.count == 0
    ensures ReplacePartialOps(encodings, current, search, replacement, default, ops).value.value == ops
    decreases |ops|
  {
    if ops != [] {
      var op := ops[0];
      var next := PartialStep(encodings, current, search, replacement, default, op).value.0;
      ReplacePartialOpsUnchanged(encodings, next, search, replacement, default, ops[1..]);
      if IsShowText(op) && current.Some? && !IsFontOperator(op) {
        PartialUnchanged(current.value, search, replacement, default, op.operands);
      }
    }
  }

  /** Conversely, a page pass that changes anything counts at least one
      occurrence. */
  lemma ReplacePartialOpsPositive(encodings: map<seq<byte>, Encoding>, current: Option<Encoding>,
                                  search: string, replacement: string, default: string, ops: seq<Operation>)
    requires search != []
    requires ReplacePartialOps(encodings, current, search, replacement, default, ops).Ok?
    requires ReplacePartialOps(encodings, current, search, replacement, default, ops).value.value != ops
    ensures ReplacePartialOps(encodings, current, search, replacement, default, ops).value.count > 0
  {
    if ReplacePartialOps(encodings, current, search, replacement, default, ops).value.count == 0 {
      ReplacePartialOpsUnchanged(encodings, current, search, replacement, default, ops);
    }
  }
}
