/** The index of an object stream (section 7.5.7 of ISO 32000-1): the
    stream's first `First` bytes hold whitespace-separated pairs
    "object-number offset"; each object is a direct object starting `offset`
    bytes after `First`. Decompression, UTF-8 validation and the direct
    object parser are collaborators passed in as function values. */
module ObjectStreams {
  import opened PdfTypes
  import opened Strings

  const FIRST: seq<byte> := Ascii("First")
  const N: seq<byte> := Ascii("N")

  /** The objects of a stream, keyed by id; every generation is 0. */
  datatype ObjectStream = ObjectStream(objects: map<ObjectId, Object>)

  /** The stream after `stream.decompress()`, whose failure is ignored and
      leaves the stream as it was. */
  function AfterDecompress(stream: StreamObject, decompress: StreamObject -> Result<StreamObject>): StreamObject {
    match decompress(stream)
    case Ok(plain) => plain
    case Err(_) => stream
  }

  /** `split_whitespace` followed by `u32::from_str(..).ok()` per token. */
  function IndexNumbers(text: string): (r: seq<Option<u32>>)
    ensures |r| == |SplitWhitespace(text)|
    ensures forall k :: 0 <= k < |r| ==> r[k] == ParseU32(SplitWhitespace(text)[k])
  {
    var tokens := SplitWhitespace(text);
    seq(|tokens|, k requires 0 <= k < |tokens| => ParseU32(tokens[k]))
  }

  /** One `(id, offset)` pair of the index: dropped when either token is not
      a number, when the offset lands at or past the end of the content, or
      when no object parses there. */
  function PairEntry(content: seq<byte>, first: nat, id: Option<u32>, offset: Option<u32>,
                     directObject: seq<byte> -> Option<Object>): (r: Option<(ObjectId, Object)>)
    ensures r.Some? <==> id.Some? && offset.Some? && first + offset.value < |content|
                         && directObject(content[first + offset.value..]).Some?
    ensures r.Some? ==> r.value.0 == ObjectId(id.value, 0)
                        && directObject(content[first + offset.value..]) == Some(r.value.1)
  {
    if id.None? || offset.None? then None
    else
      var at := first + offset.value;
      if at >= |content| then None
      else
        match directObject(content[at..])
        case None => None
        case Some(o) => Some((ObjectId(id.value, 0), o))
  }

  /** `chunks(2).filter_map(..)` over the numbers: pairs are taken
      positionally, an odd trailing number is ignored. */
  function Entries(content: seq<byte>, first: nat, numbers: seq<Option<u32>>,
                   directObject: seq<byte> -> Option<Object>): seq<(ObjectId, Object)>
    decreases |numbers|
  {
    if |numbers| < 2 then []
    else
      var rest := Entries(content, first, numbers[2..], directObject);
      match PairEntry(content, first, numbers[0], numbers[1], directObject)
      case None => rest
      case Some(entry) => [entry] + rest
  }

  /** `collect` into an ordered map: entries are inserted in order, so a
      later entry for the same id replaces an earlier one. */
  function Collect(entries: seq<(ObjectId, Object)>): map<ObjectId, Object>
    decreases |entries|
  {
    if entries == [] then map[]
    else
      var last := entries[|entries| - 1];
      Collect(entries[..|entries| - 1])[last.0 := last.1]
  }

  /** What the header yields before pairing: the offset `First` and the
      parsed index numbers. */
  datatype Index = Index(first: nat, numbers: seq<Option<u32>>)

  /** Reading `First` and the index block of a non-empty stream. */
  function ReadIndex(s: StreamObject, fromUtf8: seq<byte> -> Option<string>): (r: Result<Index>)
    ensures r.Ok? ==> r.value.first <= |s.content|
    ensures r.Ok? ==> GetI64(s.dict, FIRST).Ok? && GetI64(s.dict, FIRST).value == r.value.first
                      && fromUtf8(s.content[..r.value.first]).Some?
                      && r.value.numbers == IndexNumbers(fromUtf8(s.content[..r.value.first]).value)
  {
    var first :- GetI64(s.dict, FIRST);
    if first < 0 then Err(NumericCast)
    else if first > |s.content| then Err(InvalidOffset(first))
    else
      match fromUtf8(s.content[..first])
      case None => Err(InvalidObjectStream)
      case Some(text) => Ok(Index(first, IndexNumbers(text)))
  }

  /** `ObjectStream::new`. */
  function New(stream: StreamObject, decompress: StreamObject -> Result<StreamObject>,
               fromUtf8: seq<byte> -> Option<string>, directObject: seq<byte> -> Option<Object>): Result<ObjectStream>
  {
    var s := AfterDecompress(stream, decompress);
    if s.content == [] then Ok(ObjectStream(map[]))
    else
      var index :- ReadIndex(s, fromUtf8);
      var _ :- GetI64(s.dict, N);
      Ok(ObjectStream(Collect(Entries(s.content, index.first, index.numbers, directObject))))
  }

  // ---------------------------------------------------------------------
  // Properties.

  /** Pair `k` of the numbers. */
  function PairAt(content: seq<byte>, first: nat, numbers: seq<Option<u32>>, k: nat,
                  directObject: seq<byte> -> Option<Object>): Option<(ObjectId, Object)>
    requires 2 * k + 1 < |numbers|
  {
    PairEntry(content, first, numbers[2 * k], numbers[2 * k + 1], directObject)
  }

  /** The decode fails only on the header: an empty stream succeeds with no
      objects, and otherwise exactly a bad `First`, an index block that is
      not UTF-8 or a bad `N` fails it; no pair can. */
  lemma FailsOnlyOnHeader(stream: StreamObject, decompress: StreamObject -> Result<StreamObject>,
                          fromUtf8: seq<byte> -> Option<string>, directObject: seq<byte> -> Option<Object>)
    ensures var s := AfterDecompress(stream, decompress);
            var r := New(stream, decompress, fromUtf8, directObject);
            && (s.content == [] ==> r == Ok(ObjectStream(map[])))
            && (s.content != [] ==> (r.Err? <==> ReadIndex(s, fromUtf8).Err? || GetI64(s.dict, N).Err?))
            && (s.content != [] && ReadIndex(s, fromUtf8).Err? ==> r == Err(ReadIndex(s, fromUtf8).error))
  {
  }

  /** The header errors, in the order they are checked. */
  lemma HeaderErrors(s: StreamObject, fromUtf8: seq<byte> -> Option<string>)
    ensures FIRST !in s.dict ==> ReadIndex(s, fromUtf8) == Err(DictKey(FIRST))
    ensures FIRST in s.dict && !s.dict[FIRST].Integer? ==> ReadIndex(s, fromUtf8).Err?
    ensures GetI64(s.dict, FIRST).Ok? && GetI64(s.dict, FIRST).value < 0 ==> ReadIndex(s, fromUtf8) == Err(NumericCast)
    ensures GetI64(s.dict, FIRST).Ok? && GetI64(s.dict, FIRST).value > |s.content|
            ==> ReadIndex(s, fromUtf8) == Err(InvalidOffset(GetI64(s.dict, FIRST).value))
    ensures GetI64(s.dict, FIRST).Ok? && 0 <= GetI64(s.dict, FIRST).value <= |s.content|
            ==> (ReadIndex(s, fromUtf8) == Err(InvalidObjectStream)
                 <==> fromUtf8(s.content[..GetI64(s.dict, FIRST).value]).None?)
  {
  }

  /** An odd trailing number does not take part in any pair. */
  lemma {:induction false} OddTrailingIgnored(content: seq<byte>, first: nat, numbers: seq<Option<u32>>,
                                              extra: Option<u32>, directObject: seq<byte> -> Option<Object>)
    requires |numbers| % 2 == 0
    ensures Entries(content, first, numbers + [extra], directObject) == Entries(content, first, numbers, directObject)
    decreases |numbers|
  {
    if |numbers| >= 2 {
      assert (numbers + [extra])[2..] == numbers[2..] + [extra];
      OddTrailingIgnored(content, first, numbers[2..], extra, directObject);
    }
  }

  /** Pairing is positional: the pairs of an even-length prefix never shift
      the pairing of what follows, so a dropped pair drops only itself. */
  lemma {:induction false} EntriesConcat(content: seq<byte>, first: nat, p: seq<Option<u32>>, q: seq<Option<u32>>,
                                         directObject: seq<byte> -> Option<Object>)
    requires |p| % 2 == 0
    ensures Entries(content, first, p + q, directObject)
         == Entries(content, first, p, directObject) + Entries(content, first, q, directObject)
    decreases |p|
  {
    if |p| >= 2 {
      assert (p + q)[2..] == p[2..] + q;
      EntriesConcat(content, first, p[2..], q, directObject);
    } else {
      assert p + q == q;
    }
  }

  /** Every entry comes from a pair whose tokens are numbers and whose
      object lies inside the content, and every such pair with a parsed
      object yields one. */
  lemma {:induction false} EntriesArePairs(content: seq<byte>, first: nat, numbers: seq<Option<u32>>,
                                           directObject: seq<byte> -> Option<Object>)
    ensures forall e :: e in Entries(content, first, numbers, directObject) <==>
              exists k: nat :: 2 * k + 1 < |numbers| && PairAt(content, first, numbers, k, directObject) == Some(e)
    decreases |numbers|
  {
    if |numbers| >= 2 {
      var rest := numbers[2..];
      EntriesArePairs(content, first, rest, directObject);
      forall k: nat | 2 * k + 1 < |rest|
        ensures PairAt(content, first, rest, k, directObject) == PairAt(content, first, numbers, k + 1, directObject)
      {
      }
      forall e | e in Entries(content, first, numbers, directObject)
        ensures exists k: nat :: 2 * k + 1 < |numbers| && PairAt(content, first, numbers, k, directObject) == Some(e)
      {
        if PairAt(content, first, numbers, 0, directObject) != Some(e) {
          var k: nat :| 2 * k + 1 < |rest| && PairAt(content, first, rest, k, directObject) == Some(e);
          assert PairAt(content, first, numbers, k + 1, directObject) == Some(e);
        }
      }
      forall e, k: nat | 2 * k + 1 < |numbers| && PairAt(content, first, numbers, k, directObject) == Some(e)
        ensures e in Entries(content, first, numbers, directObject)
      {
        if k > 0 {
          assert PairAt(content, first, rest, k - 1, directObject) == Some(e);
        }
      }
    }
  }

  /** The keys of the collected map are the ids of the entries. */
  lemma {:induction false} CollectKeys(entries: seq<(ObjectId, Object)>)
    ensures forall id :: id in Collect(entries) <==> exists i :: 0 <= i < |entries| && entries[i].0 == id
    decreases |entries|
  {
    if entries != [] {
      var init := entries[..|entries| - 1];
      var last := entries[|entries| - 1];
      CollectKeys(init);
      assert Collect(entries) == Collect(init)[last.0 := last.1];
      forall id | id in Collect(entries)
        ensures exists i :: 0 <= i < |entries| && entries[i].0 == id
      {
        if id != last.0 {
          assert id in Collect(init);
          var i :| 0 <= i < |init| && init[i].0 == id;
          assert entries[i].0 == id;
        }
      }
      forall i | 0 <= i < |entries|
        ensures entries[i].0 in Collect(entries)
      {
        if i < |init| {
          assert init[i].0 == entries[i].0;
        }
      }
    }
  }

  /** Each key maps to the object of the last entry with that id. */
  lemma {:induction false} CollectLastWins(entries: seq<(ObjectId, Object)>, i: nat)
    requires i < |entries|
    requires forall j :: i < j < |entries| ==> entries[j].0 != entries[i].0
    ensures entries[i].0 in Collect(entries) && Collect(entries)[entries[i].0] == entries[i].1
    decreases |entries|
  {
    if i < |entries| - 1 {
      var init := entries[..|entries| - 1];
      assert init[i] == entries[i];
      CollectLastWins(init, i);
    }
  }

  /** What a successful decode of a non-empty stream holds: exactly the ids
      of the pairs that survive filtering, each with generation 0, and, when
      no id repeats, the object parsed at each such pair's offset. */
  lemma DecodedObjects(stream: StreamObject, decompress: StreamObject -> Result<StreamObject>,
                       fromUtf8: seq<byte> -> Option<string>, directObject: seq<byte> -> Option<Object>)
    requires New(stream, decompress, fromUtf8, directObject).Ok?
    requires AfterDecompress(stream, decompress).content != []
    ensures var s := AfterDecompress(stream, decompress);
            var index := ReadIndex(s, fromUtf8).value;
            var objects := New(stream, decompress, fromUtf8, directObject).value.objects;
            && (forall id :: id in objects ==>
                  id.generation == 0
                  && exists k: nat :: 2 * k + 1 < |index.numbers|
                       && PairAt(s.content, index.first, index.numbers, k, directObject).Some?
                       && PairAt(s.content, index.first, index.numbers, k, directObject).value.0 == id)
            && (forall k: nat :: 2 * k + 1 < |index.numbers| && PairAt(s.content, index.first, index.numbers, k, directObject).Some?
                  ==> PairAt(s.content, index.first, index.numbers, k, directObject).value.0 in objects)
  {
    var s := AfterDecompress(stream, decompress);
    var index := ReadIndex(s, fromUtf8).value;
    var entries := Entries(s.content, index.first, index.numbers, directObject);
    var objects := New(stream, decompress, fromUtf8, directObject).value.objects;
    assert objects == Collect(entries);
    EntriesArePairs(s.content, index.first, index.numbers, directObject);
    CollectKeys(entries);
    forall id | id in objects
      ensures id.generation == 0
      ensures exists k: nat :: 2 * k + 1 < |index.numbers|
                && PairAt(s.content, index.first, index.numbers, k, directObject).Some?
                && PairAt(s.content, index.first, index.numbers, k, directObject).value.0 == id
    {
      var i :| 0 <= i < |entries| && entries[i].0 == id;
      assert entries[i] in entries;
    }
    forall k: nat | 2 * k + 1 < |index.numbers| && PairAt(s.content, index.first, index.numbers, k, directObject).Some?
      ensures PairAt(s.content, index.first, index.numbers, k, directObject).value.0 in objects
    {
      var e := PairAt(s.content, index.first, index.numbers, k, directObject).value;
      assert e in entries;
      var i :| 0 <= i < |entries| && entries[i] == e;
    }
  }
  /** The entries split around a surviving pair `k`. */
  lemma EntriesAround(content: seq<byte>, first: nat, numbers: seq<Option<u32>>, k: nat,
                      directObject: seq<byte> -> Option<Object>)
    requires 2 * k + 1 < |numbers| && PairAt(content, first, numbers, k, directObject).Some?
    ensures Entries(content, first, numbers, directObject)
         == Entries(content, first, numbers[..2 * k], directObject)
            + [PairAt(content, first, numbers, k, directObject).value]
            + Entries(content, first, numbers[2 * k + 2..], directObject)
  {
    var p, q, r := numbers[..2 * k], numbers[2 * k..2 * k + 2], numbers[2 * k + 2..];
    assert numbers == p + (q + r);
    EntriesConcat(content, first, p, q + r, directObject);
    EntriesConcat(content, first, q, r, directObject);
    assert q[2..] == [];
  }

  /** The entries after pair `k` are pairs `k + 1`, `k + 2`, ... */
  lemma EntriesAfter(content: seq<byte>, first: nat, numbers: seq<Option<u32>>, k: nat,
                     directObject: seq<byte> -> Option<Object>)
    requires 2 * k + 1 < |numbers|
    ensures forall x :: x in Entries(content, first, numbers[2 * k + 2..], directObject) ==>
              exists k': nat :: k < k' && 2 * k' + 1 < |numbers| && PairAt(content, first, numbers, k', directObject) == Some(x)
  {
    var r := numbers[2 * k + 2..];
    EntriesArePairs(content, first, r, directObject);
    forall x | x in Entries(content, first, r, directObject)
      ensures exists k': nat :: k < k' && 2 * k' + 1 < |numbers| && PairAt(content, first, numbers, k', directObject) == Some(x)
    {
      var k'': nat :| 2 * k'' + 1 < |r| && PairAt(content, first, r, k'', directObject) == Some(x);
      assert PairAt(content, first, numbers, k + 1 + k'', directObject) == Some(x);
    }
  }

  /** A pair whose id no later surviving pair repeats decodes to the object
      parsed at its own offset. */
  lemma LastPairWins(content: seq<byte>, first: nat, numbers: seq<Option<u32>>, k: nat,
                     directObject: seq<byte> -> Option<Object>)
    requires 2 * k + 1 < |numbers| && PairAt(content, first, numbers, k, directObject).Some?
    requires forall k': nat :: k < k' && 2 * k' + 1 < |numbers| && PairAt(content, first, numbers, k', directObject).Some?
               ==> PairAt(content, first, numbers, k', directObject).value.0 != PairAt(content, first, numbers, k, directObject).value.0
    ensures var e := PairAt(content, first, numbers, k, directObject).value;
            var objects := Collect(Entries(content, first, numbers, directObject));
            e.0 in objects && objects[e.0] == e.1
  {
    var e := PairAt(content, first, numbers, k, directObject).value;
    var a := Entries(content, first, numbers[..2 * k], directObject);
    var b := Entries(content, first, numbers[2 * k + 2..], directObject);
    var entries := Entries(content, first, numbers, directObject);
    EntriesAround(content, first, numbers, k, directObject);
    assert forall x :: x in b ==> x.0 != e.0 by {
      EntriesAfter(content, first, numbers, k, directObject);
      forall x | x in b
        ensures x.0 != e.0
      {
        var k': nat :| k < k' && 2 * k' + 1 < |numbers| && PairAt(content, first, numbers, k', directObject) == Some(x);
      }
    }
    assert forall j :: |a| < j < |entries| ==> entries[j].0 != e.0 by {
      forall j | |a| < j < |entries|
        ensures entries[j].0 != e.0
      {
        assert entries[j] == b[j - |a| - 1];
        assert entries[j] in b;
      }
    }
    assert entries[|a|] == e;
    CollectLastWins(entries, |a|);
  }
}
