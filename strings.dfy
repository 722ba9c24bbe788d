/** The pieces of Rust's `str` API the core relies on, over `seq<char>`:
    `split`, `split_whitespace`, `contains`, `replace`, `matches().count()`,
    and the decimal `u32::from_str` together with its inverse. */
module Strings {
  import opened PdfTypes

  /** `char::is_whitespace`: the Unicode White_Space property. */
  predicate IsWhitespace(c: char) {
    || '\U{9}' <= c <= '\U{D}'
    || c == ' '
    || c == '\U{85}'
    || c == '\U{A0}'
    || c == '\U{1680}'
    || '\U{2000}' <= c <= '\U{200A}'
    || c == '\U{2028}'
    || c == '\U{2029}'
    || c == '\U{202F}'
    || c == '\U{205F}'
    || c == '\U{3000}'
  }

  predicate NoneWhere(s: string, isSep: char -> bool) {
    forall i :: 0 <= i < |s| ==> !isSep(s[i])
  }

  /** `str::split` on a character predicate: the pieces between separators,
      empty pieces included, so there is always at least one. */
  function SplitWhere(s: string, isSep: char -> bool): (r: seq<string>)
    ensures |r| >= 1
    ensures forall k :: 0 <= k < |r| ==> NoneWhere(r[k], isSep)
    decreases |s|
  {
    if s == [] then [[]]
    else
      var rest := SplitWhere(s[1..], isSep);
      if isSep(s[0]) then [[]] + rest else [[s[0]] + rest[0]] + rest[1..]
  }

  /** The inverse of `SplitWhere`: the pieces glued back with `sep` between them. */
  function JoinWith(pieces: seq<string>, sep: char): (r: string)
    requires |pieces| >= 1
    decreases |pieces|
  {
    if |pieces| == 1 then pieces[0] else pieces[0] + [sep] + JoinWith(pieces[1..], sep)
  }

  /** `str::split(sep)` on one character. */
  function Split(s: string, sep: char): (r: seq<string>)
    ensures |r| >= 1
    ensures forall k, i :: 0 <= k < |r| && 0 <= i < |r[k]| ==> r[k][i] != sep
  {
    var r := SplitWhere(s, c => c == sep);
    assert forall k :: 0 <= k < |r| ==> NoneWhere(r[k], c => c == sep);
    r
  }

  function NonEmpty(pieces: seq<string>): (r: seq<string>)
    ensures forall k :: 0 <= k < |r| ==> r[k] != [] && r[k] in pieces
    ensures |r| <= |pieces|
  {
    if pieces == [] then []
    else (if pieces[0] == [] then [] else [pieces[0]]) + NonEmpty(pieces[1..])
  }

  /** `str::split_whitespace`: the non-empty runs of non-whitespace. */
  function SplitWhitespace(s: string): (r: seq<string>)
    ensures forall k :: 0 <= k < |r| ==> r[k] != [] && NoneWhere(r[k], IsWhitespace)
  {
    NonEmpty(SplitWhere(s, IsWhitespace))
  }

  /** Splitting what `JoinWith` glued gives the pieces back, as long as no
      piece holds a separator. */
  lemma {:induction false} SplitJoin(pieces: seq<string>, sep: char, isSep: char -> bool)
    requires |pieces| >= 1 && isSep(sep)
    requires forall k :: 0 <= k < |pieces| ==> NoneWhere(pieces[k], isSep)
    ensures SplitWhere(JoinWith(pieces, sep), isSep) == pieces
    decreases |pieces|
  {
    if |pieces| == 1 {
      SplitPiece(pieces[0], [], isSep);
      assert pieces[0] + [] == pieces[0];
    } else {
      var tail := JoinWith(pieces[1..], sep);
      SplitJoin(pieces[1..], sep, isSep);
      var rest := [sep] + tail;
      assert rest[0] == sep && rest[1..] == tail;
      assert SplitWhere(rest, isSep) == [[]] + pieces[1..];
      SplitPiece(pieces[0], rest, isSep);
      assert pieces[0] + [sep] + tail == pieces[0] + rest;
      assert pieces[0] + [] == pieces[0];
      assert [pieces[0]] + pieces[1..] == pieces;
    }
  }

  /** A separator-free prefix extends the first piece of what follows it. */
  lemma {:induction false} SplitPiece(p: string, rest: string, isSep: char -> bool)
    requires NoneWhere(p, isSep)
    ensures SplitWhere(p + rest, isSep)
         == [p + SplitWhere(rest, isSep)[0]] + SplitWhere(rest, isSep)[1..]
    decreases |p|
  {
    if p != [] {
      assert (p + rest)[1..] == p[1..] + rest;
      SplitPiece(p[1..], rest, isSep);
      assert [p[0]] + (p[1..] + SplitWhere(rest, isSep)[0]) == p + SplitWhere(rest, isSep)[0];
    } else {
      assert p + rest == rest;
      var r := SplitWhere(rest, isSep);
      assert p + r[0] == r[0];
      assert [r[0]] + r[1..] == r;
    }
  }

  /** Splitting at one separator splits the pieces list in two. */
  lemma {:induction false} SplitConcat(a: string, sep: char, b: string)
    ensures Split(a + [sep] + b, sep) == Split(a, sep) + Split(b, sep)
    decreases |a|
  {
    var isSep := c => c == sep;
    if a == [] {
      assert a + [sep] + b == [sep] + b;
      assert ([sep] + b)[1..] == b;
    } else {
      assert (a + [sep] + b)[1..] == a[1..] + [sep] + b;
      SplitConcat(a[1..], sep, b);
      if a[0] != sep {
        var ra := SplitWhere(a[1..], isSep);
        assert |ra| >= 1;
      }
    }
  }

  /** A string without the separator is a single piece. */
  lemma {:induction false} SplitWithoutSeparator(s: string, sep: char)
    requires forall i :: 0 <= i < |s| ==> s[i] != sep
    ensures Split(s, sep) == [s]
    decreases |s|
  {
    if s != [] {
      SplitWithoutSeparator(s[1..], sep);
      assert [s[0]] + s[1..] == s;
    }
  }

  /** Every character of `s` not a separator is in some piece, and the pieces
      hold nothing else: gluing them back gives `s`. */
  lemma {:induction false} JoinSplit(s: string, sep: char)
    ensures JoinWith(Split(s, sep), sep) == s
    decreases |s|
  {
    var isSep := c => c == sep;
    if s != [] {
      JoinSplit(s[1..], sep);
      var rest := SplitWhere(s[1..], isSep);
      if s[0] == sep {
        assert Split(s, sep) == [[]] + rest;
        assert s == [sep] + s[1..];
      } else {
        var r := [[s[0]] + rest[0]] + rest[1..];
        assert Split(s, sep) == r;
        if |rest| == 1 {
        } else {
          assert r[1..] == rest[1..];
        }
      }
    }
  }

  /** `split_whitespace` undoes joining non-empty, whitespace-free tokens with
      single spaces. */
  lemma SplitWhitespaceJoin(tokens: seq<string>)
    requires |tokens| >= 1
    requires forall k :: 0 <= k < |tokens| ==> tokens[k] != [] && NoneWhere(tokens[k], IsWhitespace)
    ensures SplitWhitespace(JoinWith(tokens, ' ')) == tokens
  {
    SplitJoin(tokens, ' ', IsWhitespace);
    NonEmptyOfNonEmpty(tokens);
  }

  lemma {:induction false} NonEmptyOfNonEmpty(pieces: seq<string>)
    requires forall k :: 0 <= k < |pieces| ==> pieces[k] != []
    ensures NonEmpty(pieces) == pieces
  {
    if pieces != [] {
      NonEmptyOfNonEmpty(pieces[1..]);
    }
  }

  // ---------------------------------------------------------------------
  // Searching and replacing, as `str::contains`, `str::replace` and
  // `str::matches(..).count()` do it: leftmost, non-overlapping matches.

  predicate MatchAt(s: string, p: string, i: int) {
    0 <= i && i + |p| <= |s| && s[i..i + |p|] == p
  }

  predicate Contains(s: string, p: string) {
    exists i :: 0 <= i <= |s| - |p| && MatchAt(s, p, i)
  }

  function ReplaceAll(s: string, p: string, r: string): string
    requires p != []
    decreases |s|
  {
    if |s| < |p| then s
    else if s[..|p|] == p then r + ReplaceAll(s[|p|..], p, r)
    else [s[0]] + ReplaceAll(s[1..], p, r)
  }

  function CountMatches(s: string, p: string): nat
    requires p != []
    decreases |s|
  {
    if |s| < |p| then 0
    else if s[..|p|] == p then 1 + CountMatches(s[|p|..], p)
    else CountMatches(s[1..], p)
  }

  /** There is something to replace exactly when some occurrence is counted. */
  lemma {:induction false} CountMatchesPositive(s: string, p: string)
    requires p != []
    ensures CountMatches(s, p) > 0 <==> Contains(s, p)
    decreases |s|
  {
    if |s| < |p| {
    } else if s[..|p|] == p {
      assert MatchAt(s, p, 0);
    } else {
      CountMatchesPositive(s[1..], p);
      if Contains(s, p) {
        var i :| 0 <= i <= |s| - |p| && MatchAt(s, p, i);
        assert s[1..][i - 1..i - 1 + |p|] == s[i..i + |p|];
        assert 0 <= i - 1 <= |s[1..]| - |p| && MatchAt(s[1..], p, i - 1);
      }
      if Contains(s[1..], p) {
        var i :| 0 <= i <= |s[1..]| - |p| && MatchAt(s[1..], p, i);
        assert s[1..][i..i + |p|] == s[i + 1..i + 1 + |p|];
        assert 0 <= i + 1 <= |s| - |p| && MatchAt(s, p, i + 1);
      }
    }
  }

  /** Each replaced occurrence changes the length by the difference of the
      two lengths, and nothing else changes it. */
  lemma {:induction false} ReplaceAllLength(s: string, p: string, r: string)
    requires p != []
    ensures |ReplaceAll(s, p, r)| == |s| + CountMatches(s, p) * (|r| - |p|)
    decreases |s|
  {
    if |s| < |p| {
    } else if s[..|p|] == p {
      var rest := s[|p|..];
      ReplaceAllLength(rest, p, r);
      MulStep(CountMatches(rest, p), |r| - |p|);
    } else {
      ReplaceAllLength(s[1..], p, r);
    }
  }

  lemma MulStep(c: int, d: int)
    ensures (1 + c) * d == d + c * d
  {
  }

  /** With no occurrence counted, the text is left as it was. */
  lemma {:induction false} ReplaceAllNoMatch(s: string, p: string, r: string)
    requires p != [] && CountMatches(s, p) == 0
    ensures ReplaceAll(s, p, r) == s
    decreases |s|
  {
    if |s| < |p| {
    } else {
      assert s[..|p|] != p;
      ReplaceAllNoMatch(s[1..], p, r);
    }
  }

  /** Replacing a pattern by itself changes nothing. */
  lemma {:induction false} ReplaceAllSelf(s: string, p: string)
    requires p != []
    ensures ReplaceAll(s, p, p) == s
    decreases |s|
  {
    if |s| < |p| {
    } else if s[..|p|] == p {
      ReplaceAllSelf(s[|p|..], p);
      assert s == s[..|p|] + s[|p|..];
    } else {
      ReplaceAllSelf(s[1..], p);
    }
  }

  /** A stretch without the pattern's first character holds no occurrence:
      it is neither counted nor changed. */
  lemma {:induction false} SkipWithoutFirst(x: string, y: string, p: string, r: string)
    requires p != [] && p[0] !in x
    ensures CountMatches(x + y, p) == CountMatches(y, p)
    ensures ReplaceAll(x + y, p, r) == x + ReplaceAll(y, p, r)
    decreases |x|
  {
    if x == [] {
      assert x + y == y;
    } else {
      assert (x + y)[1..] == x[1..] + y;
      SkipWithoutFirst(x[1..], y, p, r);
      if |x + y| >= |p| {
        assert (x + y)[..|p|][0] == x[0];
      }
      assert [x[0]] + (x[1..] + ReplaceAll(y, p, r)) == x + ReplaceAll(y, p, r);
    }
  }

  /** An occurrence at the front is counted once and replaced. */
  lemma MatchFirst(y: string, p: string, r: string)
    requires p != []
    ensures CountMatches(p + y, p) == 1 + CountMatches(y, p)
    ensures ReplaceAll(p + y, p, r) == r + ReplaceAll(y, p, r)
  {
    assert (p + y)[..|p|] == p && (p + y)[|p|..] == y;
  }

  /** Two occurrences separated and followed by text without the pattern's
      first character, as in "Hello World! Hello Universe!" searched for
      "Hello": both are counted and both replaced. */
  lemma TwoOccurrences(p: string, w: string, a: string, r: string)
    requires p != []
    requires p[0] !in w && p[0] !in a
    ensures CountMatches(p + (w + (p + a)), p) == 2
    ensures ReplaceAll(p + (w + (p + a)), p, r) == r + (w + (r + a))
  {
    var tail := p + a;
    var middle := w + tail;
    assert CountMatches(tail, p) == 1 && ReplaceAll(tail, p, r) == r + a by {
      SkipWithoutFirst(a, [], p, r);
      assert a + [] == a;
      MatchFirst(a, p, r);
    }
    assert CountMatches(middle, p) == 1 && ReplaceAll(middle, p, r) == w + (r + a) by {
      SkipWithoutFirst(w, tail, p, r);
    }
    assert CountMatches(p + middle, p) == 2 && ReplaceAll(p + middle, p, r) == r + (w + (r + a)) by {
      MatchFirst(middle, p, r);
    }
  }

  // ---------------------------------------------------------------------
  // Decimal numbers: `u32::from_str` and the digits of a number.

  predicate IsDigit(c: char) { '0' <= c <= '9' }

  function DigitValue(c: char): nat
    requires IsDigit(c)
  {
    c as int - '0' as int
  }

  function Digit(d: nat): (c: char)
    requires d < 10
    ensures IsDigit(c) && DigitValue(c) == d
  {
    ('0' as int + d) as char
  }

  predicate AllDigits(s: string) {
    forall i :: 0 <= i < |s| ==> IsDigit(s[i])
  }

  /** The value of a string of decimal digits, most significant first. */
  function DecimalValue(s: string): nat
    requires AllDigits(s)
    decreases |s|
  {
    if s == [] then 0 else DecimalValue(s[..|s| - 1]) * 10 + DigitValue(s[|s| - 1])
  }

  /** `u32::from_str`: an optional `+` (not alone), then at least one ASCII
      digit, and a value that fits 32 bits. Anything else is `None`. */
  function ParseU32(t: string): (r: Option<u32>)
    ensures r.Some? ==> t != [] && IsDigit(t[|t| - 1])
    ensures r.Some? ==> forall i :: 0 <= i < |t| ==> IsDigit(t[i]) || (i == 0 && t[i] == '+')
  {
    var digits := if |t| > 1 && t[0] == '+' then t[1..] else t;
    if digits == [] || !AllDigits(digits) then None
    else if DecimalValue(digits) <= U32_MAX then Some(DecimalValue(digits))
    else None
  }

  /** The decimal digits of `n`, as `format!("{}", n)` writes them. */
  function DecimalString(n: nat): (s: string)
    ensures s != [] && AllDigits(s)
    decreases n
  {
    if n < 10 then [Digit(n)] else DecimalString(n / 10) + [Digit(n % 10)]
  }

  lemma {:induction false} DecimalValueOfString(n: nat)
    ensures DecimalValue(DecimalString(n)) == n
    decreases n
  {
    if n >= 10 {
      DecimalValueOfString(n / 10);
      var s := DecimalString(n);
      assert s[..|s| - 1] == DecimalString(n / 10);
    }
  }

  /** `u32::from_str` reads back what `format!` wrote. */
  lemma ParseU32OfDecimal(n: u32)
    ensures ParseU32(DecimalString(n)) == Some(n)
  {
    DecimalValueOfString(n);
    var s := DecimalString(n);
    assert IsDigit(s[0]);
  }

  /** Leading zeros do not count: digits that are all zero read as 0. */
  lemma {:induction false} ZerosValue(z: string)
    requires forall i :: 0 <= i < |z| ==> z[i] == '0'
    ensures AllDigits(z) && DecimalValue(z) == 0
    decreases |z|
  {
    if z != [] {
      ZerosValue(z[..|z| - 1]);
    }
  }

  /** A string of digits with value 0 is all zeros. */
  lemma {:induction false} ValueZeroIsZeros(s: string)
    requires AllDigits(s) && DecimalValue(s) == 0
    ensures forall i :: 0 <= i < |s| ==> s[i] == '0'
    decreases |s|
  {
    if s != [] {
      ValueZeroIsZeros(s[..|s| - 1]);
      assert forall i :: 0 <= i < |s| - 1 ==> s[..|s| - 1][i] == s[i];
    }
  }

  /** The digits of a number, written without leading zeros, end any
      non-empty digit string of that value; everything before them is
      zeros. */
  lemma {:induction false} DigitsEndWithDecimal(s: string)
    requires s != [] && AllDigits(s)
    ensures |DecimalString(DecimalValue(s))| <= |s|
    ensures s[|s| - |DecimalString(DecimalValue(s))|..] == DecimalString(DecimalValue(s))
    ensures forall i :: 0 <= i < |s| - |DecimalString(DecimalValue(s))| ==> s[i] == '0'
    decreases |s|
  {
    var init := s[..|s| - 1];
    var last := s[|s| - 1];
    var v := DecimalValue(init);
    assert DecimalValue(s) == v * 10 + DigitValue(last);
    assert s == init + [last];
    if v == 0 {
      ValueZeroIsZeros(init);
      assert DecimalString(DecimalValue(s)) == [last];
    } else {
      var w := DecimalString(v);
      assert DecimalString(DecimalValue(s)) == w + [last] by {
        DecimalStringStep(v, DigitValue(last));
      }
      assert |w| <= |init| && init[|init| - |w|..] == w
             && forall i :: 0 <= i < |init| - |w| ==> init[i] == '0' by {
        DigitsEndWithDecimal(init);
      }
      SuffixSnoc(init, w, last);
    }
  }

  lemma SuffixSnoc(init: string, w: string, last: char)
    requires |w| <= |init| && init[|init| - |w|..] == w
    requires forall i :: 0 <= i < |init| - |w| ==> init[i] == '0'
    ensures (init + [last])[|init| - |w|..] == w + [last]
    ensures forall i :: 0 <= i < |init| - |w| ==> (init + [last])[i] == '0'
  {
  }

  /** Appending a digit to a positive number appends its digit. */
  lemma DecimalStringStep(v: nat, d: nat)
    requires v > 0 && d < 10
    ensures DecimalString(v * 10 + d) == DecimalString(v) + [Digit(d)]
  {
    assert (v * 10 + d) / 10 == v && (v * 10 + d) % 10 == d;
  }

  /** What `u32::from_str` accepted is the number's own digits, after an
      optional `+` and any leading zeros. */
  lemma ParseU32Accepted(t: string)
    requires ParseU32(t).Some?
    ensures var d := DecimalString(ParseU32(t).value);
            && |d| <= |t| && t[|t| - |d|..] == d
            && forall i :: 0 <= i < |t| - |d| ==> t[i] == '0' || (i == 0 && t[i] == '+')
  {
    var digits := if |t| > 1 && t[0] == '+' then t[1..] else t;
    DigitsEndWithDecimal(digits);
    if digits != t {
      assert forall i :: 1 <= i < |t| ==> t[i] == digits[i - 1];
    }
  }

  /** `u32::from_str` rejects a sign other than a leading `+`, any other
      non-digit, a lone `+` and the empty string. */
  lemma ParseU32RejectsNonDigit(t: string, i: nat)
    requires i < |t| && !IsDigit(t[i]) && !(i == 0 && t[i] == '+' && |t| > 1)
    ensures ParseU32(t) == None
  {
  }

  /** `u32::from_str` rejects a value above `u32::MAX`, signed or not. */
  lemma ParseU32RejectsOverflow(s: string)
    requires s != [] && AllDigits(s) && DecimalValue(s) > U32_MAX
    ensures ParseU32(s) == None
    ensures ParseU32(['+'] + s) == None
  {
    assert (['+'] + s)[1..] == s;
  }
}
