/** The structural edits `insert_image` and `insert_form_object` make to a
    page's operations: painting an XObject (section 8.8 of ISO 32000-1) inside
    or after a saved graphics state (`q`/`Q`, section 8.4.4), under the name
    `X<n>` where n is the new object's number. */
module PageEdits {
  import opened PdfTypes
  import opened Strings
  import opened Content

  /** The resource name `X<n>`: the letter X then the decimal digits of n. */
  function XObjectName(number: u32): (r: seq<byte>)
    ensures |r| >= 2 && r[0] == 'X' as int
    ensures forall i :: 1 <= i < |r| ==> '0' as int <= r[i] <= '9' as int
  {
    var digits := DecimalString(number);
    assert forall i :: 0 <= i < |digits| ==> IsDigit(digits[i]);
    Ascii("X" + digits)
  }

  /** Different objects get different names: the digits after the X give
      back the object number. */
  lemma XObjectNameInjective(a: u32, b: u32)
    requires XObjectName(a) == XObjectName(b)
    ensures a == b
  {
    var da := DecimalString(a);
    var db := DecimalString(b);
    assert |da| == |db|;
    forall i | 0 <= i < |da| ensures da[i] == db[i] {
      assert ("X" + da)[i + 1] == da[i];
      assert ("X" + db)[i + 1] == db[i];
      assert XObjectName(a)[i + 1] == XObjectName(b)[i + 1];
    }
    assert da == db;
    ParseU32OfDecimal(a);
    ParseU32OfDecimal(b);
  }

  const SAVE: Operation := Operation("q", [])
  const RESTORE: Operation := Operation("Q", [])

  /** `Do` painting the XObject with the given resource name. */
  function Paint(name: seq<byte>): Operation {
    Operation("Do", [Name(name)])
  }

  /** `cm` scaling the unit square to the image's size at its position. The
      numbers are kept as reals; `0` operands are integers, as in the source. */
  function Placement(width: real, height: real, x: real, y: real): Operation {
    Operation("cm", [Real(width), Integer(0), Integer(0), Real(height), Real(x), Real(y)])
  }

  /** `insert_image`'s edit: the image is painted after all existing
      operations, in a graphics state of its own. */
  function WithImage(ops: seq<Operation>, name: seq<byte>, width: real, height: real, x: real, y: real)
    : (r: seq<Operation>)
    ensures |r| == |ops| + 4 && r[..|ops|] == ops
    ensures r[|ops|] == SAVE && r[|ops| + 2] == Paint(name) && r[|ops| + 3] == RESTORE
  {
    ops + [SAVE, Placement(width, height, x, y), Paint(name), RESTORE]
  }

  /** `insert_form_object`'s edit: the existing operations are wrapped in a
      saved graphics state and the form is painted after it is restored. */
  function WithFormObject(ops: seq<Operation>, name: seq<byte>): (r: seq<Operation>)
    ensures |r| == |ops| + 3 && r[1..|ops| + 1] == ops
    ensures r[0] == SAVE && r[|ops| + 1] == RESTORE && r[|ops| + 2] == Paint(name)
  {
    [SAVE] + ops + [RESTORE, Paint(name)]
  }

  // ---------------------------------------------------------------------
  // Graphics-state nesting

  /** The change in nesting depth an operation makes. */
  function Delta(op: Operation): int {
    if op.operator == "q" then 1 else if op.operator == "Q" then -1 else 0
  }

  /** The nesting depth after a sequence of operations. */
  function Depth(ops: seq<Operation>): int
    decreases |ops|
  {
    if ops == [] then 0 else Depth(ops[..|ops| - 1]) + Delta(ops[|ops| - 1])
  }

  /** Every `Q` restores a state some earlier `q` saved, and every `q` is
      restored by the end. */
  predicate Balanced(ops: seq<Operation>) {
    Depth(ops) == 0 && forall i :: 0 <= i <= |ops| ==> Depth(ops[..i]) >= 0
  }

  lemma {:induction false} DepthConcat(a: seq<Operation>, b: seq<Operation>)
    ensures Depth(a + b) == Depth(a) + Depth(b)
    decreases |b|
  {
    if b == [] {
      assert a + b == a;
    } else {
      var init := b[..|b| - 1];
      assert (a + b)[..|a + b| - 1] == a + init;
      DepthConcat(a, init);
    }
  }

  lemma DepthSnoc(p: seq<Operation>, op: Operation)
    ensures Depth(p + [op]) == Depth(p) + Delta(op)
  {
    assert (p + [op])[..|p|] == p;
  }

  /** The depths along the four operations `insert_image` appends. */
  lemma ImageTailDepths(place: Operation, name: seq<byte>)
    requires place.operator == "cm"
    ensures Depth([SAVE, place, Paint(name), RESTORE]) == 0
    ensures Depth([SAVE, place, Paint(name), RESTORE][..3]) == 1
    ensures forall j :: 0 <= j <= 4 ==> Depth([SAVE, place, Paint(name), RESTORE][..j]) >= 0
  {
    var tail := [SAVE, place, Paint(name), RESTORE];
    DepthSnoc([], SAVE);
    DepthSnoc([SAVE], place);
    DepthSnoc([SAVE, place], Paint(name));
    DepthSnoc([SAVE, place, Paint(name)], RESTORE);
    assert tail[..0] == [];
    assert tail[..1] == [] + [SAVE];
    assert tail[..2] == [SAVE] + [place];
    assert tail[..3] == [SAVE, place] + [Paint(name)];
    assert tail[..4] == tail == [SAVE, place, Paint(name)] + [RESTORE];
  }

  /** A prefix reaching into the second part of a concatenation. */
  lemma ConcatPrefixDepth(a: seq<Operation>, b: seq<Operation>, j: nat)
    requires |a| <= j <= |a| + |b|
    ensures Depth((a + b)[..j]) == Depth(a) + Depth(b[..j - |a|])
  {
    assert (a + b)[..j] == a + b[..j - |a|];
    DepthConcat(a, b[..j - |a|]);
  }

  /** Adding the image keeps a balanced page balanced, and the image is
      painted one level deeper than the page's own operations end. */
  lemma ImageBalanced(ops: seq<Operation>, name: seq<byte>, width: real, height: real, x: real, y: real)
    requires Balanced(ops)
    ensures Balanced(WithImage(ops, name, width, height, x, y))
    ensures Depth(WithImage(ops, name, width, height, x, y)[..|ops| + 3]) == 1
  {
    var tail := [SAVE, Placement(width, height, x, y), Paint(name), RESTORE];
    var r := WithImage(ops, name, width, height, x, y);
    assert r == ops + tail;
    ImageTailDepths(Placement(width, height, x, y), name);
    forall i | 0 <= i <= |r| ensures Depth(r[..i]) >= 0 {
      if i <= |ops| {
        assert r[..i] == ops[..i];
      } else {
        ConcatPrefixDepth(ops, tail, i);
      }
    }
    ConcatPrefixDepth(ops, tail, |ops| + 4);
    ConcatPrefixDepth(ops, tail, |ops| + 3);
    assert tail[..4] == tail;
  }

  /** Inside the wrapper, each original operation runs one level deeper. */
  lemma FormPrefixDepth(ops: seq<Operation>, name: seq<byte>, i: nat)
    requires i <= |ops|
    ensures Depth(WithFormObject(ops, name)[..i + 1]) == Depth(ops[..i]) + 1
  {
    DepthSnoc([], SAVE);
    assert [] + [SAVE] == [SAVE];
    assert WithFormObject(ops, name)[..i + 1] == [SAVE] + ops[..i];
    DepthConcat([SAVE], ops[..i]);
  }

  /** The depths along the two operations `insert_form_object` appends. */
  lemma FormTailDepths(name: seq<byte>)
    ensures Depth([RESTORE, Paint(name)][..1]) == -1
    ensures Depth([RESTORE, Paint(name)][..2]) == -1
  {
    DepthSnoc([], RESTORE);
    DepthSnoc([RESTORE], Paint(name));
    assert [RESTORE, Paint(name)][..1] == [] + [RESTORE];
    assert [RESTORE, Paint(name)][..2] == [RESTORE] + [Paint(name)];
  }

  /** Wrapping in a form keeps a balanced page balanced, every original
      operation runs one level deeper than before, and the form is painted
      at the outer level, after the state is restored. */
  lemma FormObjectBalanced(ops: seq<Operation>, name: seq<byte>)
    requires Balanced(ops)
    ensures Balanced(WithFormObject(ops, name))
    ensures forall i :: 0 <= i <= |ops| ==> Depth(WithFormObject(ops, name)[..i + 1]) == Depth(ops[..i]) + 1
    ensures Depth(WithFormObject(ops, name)[..|ops| + 2]) == 0
  {
    var r := WithFormObject(ops, name);
    var wrapped := [SAVE] + ops;
    var tail := [RESTORE, Paint(name)];
    assert r == wrapped + tail;
    FormPrefixDepth(ops, name, |ops|);
    assert ops[..|ops|] == ops && r[..|ops| + 1] == wrapped;
    FormTailDepths(name);
    forall i | 0 <= i <= |ops| ensures Depth(r[..i + 1]) == Depth(ops[..i]) + 1 {
      FormPrefixDepth(ops, name, i);
    }
    forall i | 0 <= i <= |r| ensures Depth(r[..i]) >= 0 {
      if i == 0 {
        assert r[..0] == [];
      } else if i <= |ops| + 1 {
        FormPrefixDepth(ops, name, i - 1);
      } else {
        ConcatPrefixDepth(wrapped, tail, i);
      }
    }
    ConcatPrefixDepth(wrapped, tail, |ops| + 2);
    ConcatPrefixDepth(wrapped, tail, |ops| + 3);
  }
}
