/** From offsets in a UTF-16 text to offsets in its UTF-8 encoding, with an index of line
    starts.  Follows section 3 of RFC 3629 and section 2 of RFC 2781. */
module Utf8Offsets {
  type CodeUnit = n: nat | n < 0x1_0000
  type CodePoint = n: nat | n <= 0x10_FFFF

  predicate IsHigh(n: nat) { 0xD800 <= n <= 0xDBFF }

  predicate IsLow(n: nat) { 0xDC00 <= n <= 0xDFFF }

  // ---------------------------------------------------------------- the two encodings

  function Utf16Of(p: CodePoint): seq<CodeUnit> {
    if p < 0x1_0000 then [p] else [0xD800 + (p - 0x1_0000) / 0x400, 0xDC00 + (p - 0x1_0000) % 0x400]
  }

  function Utf16(ps: seq<CodePoint>): seq<CodeUnit> {
    if |ps| == 0 then [] else Utf16Of(ps[0]) + Utf16(ps[1..])
  }

  /** A surrogate standing alone is encoded like any other code point of its size. */
  function Utf8Of(p: CodePoint): seq<nat> {
    if p <= 0x7F then [p]
    else if p <= 0x7FF then [0xC0 + p / 0x40, 0x80 + p % 0x40]
    else if p <= 0xFFFF then [0xE0 + p / 0x1000, 0x80 + p / 0x40 % 0x40, 0x80 + p % 0x40]
    else [0xF0 + p / 0x4_0000, 0x80 + p / 0x1000 % 0x40, 0x80 + p / 0x40 % 0x40, 0x80 + p % 0x40]
  }

  function Utf8(ps: seq<CodePoint>): seq<nat> {
    if |ps| == 0 then [] else Utf8Of(ps[0]) + Utf8(ps[1..])
  }

  /** No two surrogates stand together that a reader of UTF-16 would take for a pair. */
  ghost predicate NoFalsePairs(ps: seq<CodePoint>) {
    forall i | 0 <= i < |ps| - 1 :: !(IsHigh(ps[i]) && IsLow(ps[i + 1]))
  }

  /** Properly encoded: no lone surrogates at all. */
  ghost predicate WellFormed(ps: seq<CodePoint>) { forall p | p in ps :: !IsHigh(p) && !IsLow(p) }

  predicate PairAt(text: seq<CodeUnit>, i: nat) {
    i + 1 < |text| && IsHigh(text[i]) && IsLow(text[i + 1])
  }

  function PairValue(high: nat, low: nat): (p: CodePoint)
    requires IsHigh(high) && IsLow(low)
    ensures Utf16Of(p) == [high, low]
  {
    0x1_0000 + (high - 0xD800) * 0x400 + (low - 0xDC00)
  }

  /** The code points of any text; surrogates without a partner stand for themselves. */
  function Decode(text: seq<CodeUnit>): seq<CodePoint> {
    if |text| == 0 then []
    else if PairAt(text, 0) then
      [PairValue(text[0], text[1])] + Decode(text[2..])
    else [text[0]] + Decode(text[1..])
  }

  /** Every text, malformed ones included, is the UTF-16 encoding of its code points. */
  lemma {:induction false} EveryTextDecodes(text: seq<CodeUnit>)
    ensures Utf16(Decode(text)) == text && NoFalsePairs(Decode(text))
  {
    if PairAt(text, 0) {
      EveryTextDecodes(text[2..]);
      var p := PairValue(text[0], text[1]);
      assert Decode(text)[1..] == Decode(text[2..]);
      assert text == [text[0], text[1]] + text[2..];
    } else if |text| > 0 {
      EveryTextDecodes(text[1..]);
      assert Decode(text)[1..] == Decode(text[1..]);
      assert text == [text[0]] + text[1..];
      assert |text| > 1 ==> IsLow(Decode(text[1..])[0]) ==> IsLow(text[1]);
    }
  }

  // ------------------------------------------------------------------- the simple scan

  function Width16(text: seq<CodeUnit>, i: nat): nat
    requires i < |text|
  {
    if PairAt(text, i) then 2 else 1
  }

  function Width8(text: seq<CodeUnit>, i: nat): nat
    requires i < |text|
  {
    if text[i] <= 0x7F then 1 else if text[i] <= 0x7FF then 2 else if PairAt(text, i) then 4 else 3
  }

  /** The bytes passed going from `i` until `position` is reached or passed. */
  function Scan(text: seq<CodeUnit>, i: nat, position: nat): nat
    requires position <= |text|
    decreases position - i
  {
    if i >= position then 0 else Width8(text, i) + Scan(text, i + Width16(text, i), position)
  }

  /** Going from `i` one stops at `b`. */
  predicate Reaches(text: seq<CodeUnit>, i: nat, b: nat)
    requires b <= |text|
    decreases b - i
  {
    i == b || (i < b && Reaches(text, i + Width16(text, i), b))
  }

  lemma {:induction false} ScanSplits(text: seq<CodeUnit>, i: nat, b: nat, position: nat)
    requires i <= b <= position <= |text| && Reaches(text, i, b)
    ensures Scan(text, i, position) == Scan(text, i, b) + Scan(text, b, position)
    decreases b - i
  {
    if i < b {
      ReachesForward(text, i + Width16(text, i), b);
      ScanSplits(text, i + Width16(text, i), b, position);
    }
  }

  lemma {:induction false} ReachesForward(text: seq<CodeUnit>, i: nat, b: nat)
    requires b <= |text| && Reaches(text, i, b)
    ensures i <= b
  {
  }

  lemma {:induction false} ReachesOn(text: seq<CodeUnit>, i: nat, b: nat)
    requires b < |text| && Reaches(text, i, b)
    ensures b + Width16(text, b) <= |text| && Reaches(text, i, b + Width16(text, b))
    ensures Scan(text, i, b + Width16(text, b)) == Scan(text, i, b) + Width8(text, b)
    decreases b - i
  {
    ReachesForward(text, i, b);
    if i < b {
      ReachesForward(text, i + Width16(text, i), b);
      ReachesOn(text, i + Width16(text, i), b);
    } else {
      var n := b + Width16(text, b);
      assert Scan(text, n, n) == 0;
    }
  }

  // -------------------------------------------------------------------- the line index

  /** Where lines start after `i`: behind every line break, CR LF being one. */
  function LineStarts(isBreak: CodeUnit -> bool, text: seq<CodeUnit>, i: nat): seq<nat>
    requires i <= |text|
    decreases |text| - i
  {
    if i == |text| then []
    else if IsHigh(text[i]) && i + 1 < |text| then LineStarts(isBreak, text, i + Width16(text, i))
    else if isBreak(text[i]) then
      var next := if text[i] == 0x0D && i + 1 < |text| && text[i + 1] == 0x0A then i + 2 else i + 1;
      [next] + LineStarts(isBreak, text, next)
    else LineStarts(isBreak, text, i + 1)
  }

  /** A line starts behind every break but a CR that an LF follows, whatever else is a break. */
  lemma {:induction false} LineStartsAre(isBreak: CodeUnit -> bool, text: seq<CodeUnit>, i: nat, q: nat)
    requires i <= |text| && isBreak(0x0A) && isBreak(0x0D)
    requires forall n: CodeUnit | IsHigh(n) || IsLow(n) :: !isBreak(n)
    ensures q in LineStarts(isBreak, text, i)
        <==> i < q <= |text| && isBreak(text[q - 1]) && !(text[q - 1] == 0x0D && q < |text| && text[q] == 0x0A)
    decreases |text| - i
  {
    if i < |text| {
      if IsHigh(text[i]) && i + 1 < |text| {
        LineStartsAre(isBreak, text, i + Width16(text, i), q);
      } else if isBreak(text[i]) {
        var next := if text[i] == 0x0D && i + 1 < |text| && text[i + 1] == 0x0A then i + 2 else i + 1;
        LineStartsAre(isBreak, text, next, q);
      } else {
        LineStartsAre(isBreak, text, i + 1, q);
      }
    }
  }

  datatype LineIndex = LineIndex(line16: seq<nat>, line8: seq<nat>)

  /** Entries in order, each at a place the scan from 0 stops at, with its byte offset. */
  ghost predicate Indexes(text: seq<CodeUnit>, x: LineIndex) {
    && |x.line16| == |x.line8| > 0 && x.line16[0] == 0
    && (forall i, j | 0 <= i < j < |x.line16| :: x.line16[i] < x.line16[j])
    && (forall i | 0 <= i < |x.line16| :: EntryOk(text, x.line16[i], x.line8[i]))
  }

  ghost predicate EntryOk(text: seq<CodeUnit>, at16: nat, at8: nat) {
    at16 <= |text| && Reaches(text, 0, at16) && at8 == Scan(text, 0, at16)
  }

  lemma {:induction false} EntryOn(text: seq<CodeUnit>, at16: nat, at8: nat)
    requires EntryOk(text, at16, at8) && at16 < |text|
    ensures EntryOk(text, at16 + Width16(text, at16), at8 + Width8(text, at16))
  {
    ReachesOn(text, 0, at16);
  }

  lemma {:induction false} IndexGrows(text: seq<CodeUnit>, x: LineIndex, at16: nat, at8: nat)
    requires Indexes(text, x) && EntryOk(text, at16, at8) && x.line16[|x.line16| - 1] < at16
    ensures Indexes(text, LineIndex(x.line16 + [at16], x.line8 + [at8]))
  {
    hide EntryOk;
  }

  method BuildLineIndex(isBreak: CodeUnit -> bool, text: seq<CodeUnit>) returns (x: LineIndex)
    ensures Indexes(text, x) && x.line16 == [0] + LineStarts(isBreak, text, 0)
  {
    var line16: seq<nat>, line8: seq<nat> := [0], [0];
    var utf16: nat, utf8: nat := 0, 0;
    while utf16 < |text|
      invariant EntryOk(text, utf16, utf8) && Indexes(text, LineIndex(line16, line8))
      invariant |line16| > 0 && line16[|line16| - 1] <= utf16 <= |text|
      invariant line16 + LineStarts(isBreak, text, utf16) == [0] + LineStarts(isBreak, text, 0)
      decreases |text| - utf16
    {
      EntryOn(text, utf16, utf8);
      hide Indexes, EntryOk;
      var codeUnit := text[utf16];
      utf16 := utf16 + 1;
      if codeUnit <= 0x7F { utf8 := utf8 + 1; }
      else if codeUnit <= 0x7FF { utf8 := utf8 + 2; }
      else { utf8 := utf8 + 3; }
      if IsHigh(codeUnit) && utf16 < |text| {
        if IsLow(text[utf16]) {
          utf8 := utf8 + 1;
          utf16 := utf16 + 1;
        }
      } else if isBreak(codeUnit) {
        if codeUnit == 0x0D && utf16 < |text| && text[utf16] == 0x0A {
          EntryOn(text, utf16, utf8);
          utf16 := utf16 + 1;
          utf8 := utf8 + 1;
        }
        IndexGrows(text, LineIndex(line16, line8), utf16, utf8);
        assert line16 + ([utf16] + LineStarts(isBreak, text, utf16))
            == (line16 + [utf16]) + LineStarts(isBreak, text, utf16);
        line16 := line16 + [utf16];
        line8 := line8 + [utf8];
      }
    }
    x := LineIndex(line16, line8);
  }

  // ------------------------------------------------------------------------- the lookup

  /** The index of `value`, or the complement of the place where it would be inserted. */
  method BinarySearch(a: seq<nat>, value: nat) returns (r: int)
    requires forall i, j | 0 <= i < j < |a| :: a[i] < a[j]
    ensures r >= 0 ==> r < |a| && a[r] == value
    ensures r < 0 ==>
      -r - 1 <= |a| && (forall i | 0 <= i < -r - 1 :: a[i] < value) && (forall i | -r - 1 <= i < |a| :: value < a[i])
  {
    var low, high := 0, |a| - 1;
    while low <= high
      invariant 0 <= low <= high + 1 <= |a|
      invariant forall i | 0 <= i < low :: a[i] < value
      invariant forall i | high < i < |a| :: value < a[i]
      decreases high - low
    {
      var middle := low + (high - low) / 2;
      if a[middle] == value { return middle; }
      else if a[middle] > value { high := middle - 1; }
      else { low := middle + 1; }
    }
    return -low - 1;
  }

  /** The indexed lookup agrees with the scan from the start of the text; positions outside
      the text are returned as they are. */
  method Utf8Position(isBreak: CodeUnit -> bool, text: seq<CodeUnit>, position: int) returns (r: int)
    ensures !(0 <= position < |text|) ==> r == position
    ensures 0 <= position < |text| ==> r == Scan(text, 0, position)
  {
    if position < 0 || position >= |text| { return position; }
    var x := BuildLineIndex(isBreak, text);
    var index := BinarySearch(x.line16, position);
    if index < 0 { index := (-index - 1) - 1; }
    var utf16, utf8 := x.line16[index], x.line8[index];
    assert EntryOk(text, utf16, utf8);
    ScanSplits(text, 0, utf16, position);
    while utf16 < position
      invariant utf8 + Scan(text, utf16, position) == Scan(text, 0, position)
      decreases position - utf16
    {
      var codeUnit := text[utf16];
      utf16 := utf16 + 1;
      if codeUnit <= 0x7F { utf8 := utf8 + 1; }
      else if codeUnit <= 0x7FF { utf8 := utf8 + 2; }
      else if IsHigh(codeUnit) && utf16 < |text| {
        if IsLow(text[utf16]) {
          utf16 := utf16 + 1;
          utf8 := utf8 + 4;
        } else {
          utf8 := utf8 + 3;
        }
      } else {
        utf8 := utf8 + 3;
      }
    }
    return utf8;
  }

  // -------------------------------------------------- what the scan counts, for any text

  lemma {:induction false} Utf16Append(a: seq<CodePoint>, b: seq<CodePoint>)
    ensures Utf16(a + b) == Utf16(a) + Utf16(b)
    decreases |a|
  {
    hide Utf16Of;
    if |a| == 0 {
      assert a + b == b;
    } else {
      Utf16Append(a[1..], b);
      assert (a + b)[1..] == a[1..] + b;
    }
  }

  lemma {:induction false} Utf8Append(a: seq<CodePoint>, b: seq<CodePoint>)
    ensures Utf8(a + b) == Utf8(a) + Utf8(b)
    decreases |a|
  {
    hide Utf8Of;
    if |a| == 0 {
      assert a + b == b;
    } else {
      Utf8Append(a[1..], b);
      assert (a + b)[1..] == a[1..] + b;
    }
  }

  /** In the encoding of `before + [p] + after`, the unit behind `before` starts `p`. */
  lemma {:induction false} StartsCodePoint(before: seq<CodePoint>, p: CodePoint, after: seq<CodePoint>)
    requires NoFalsePairs(before + [p] + after)
    ensures
      var text, i := Utf16(before + [p] + after), |Utf16(before)|;
      i + |Utf16Of(p)| <= |text| && Width16(text, i) == |Utf16Of(p)| && Width8(text, i) == |Utf8Of(p)|
  {
    var ps, text, i := before + [p] + after, Utf16(before + [p] + after), |Utf16(before)|;
    Utf16Append(before, [p] + after);
    assert ps == before + ([p] + after) && ([p] + after)[1..] == after;
    assert text == Utf16(before) + (Utf16Of(p) + Utf16(after));
    if p < 0x1_0000 {
      if |after| > 0 {
        assert ps[|before|] == p && ps[|before| + 1] == after[0];
        assert text[i + 1] == Utf16Of(after[0])[0];
      }
    }
  }

  /** The scan stops at the start of every code point, and has counted the UTF-8 bytes of
      the code points before it. */
  lemma {:induction false} ScanCountsBytes(ps: seq<CodePoint>, k: nat)
    requires NoFalsePairs(ps) && k <= |ps|
    ensures EntryOk(Utf16(ps), |Utf16(ps[..k])|, |Utf8(ps[..k])|)
    decreases k
  {
    if k > 0 {
      ScanCountsBytes(ps, k - 1);
      var before, p, after := ps[..k - 1], ps[k - 1], ps[k..];
      assert ps == before + [p] + after;
      StartsCodePoint(before, p, after);
      EntryOn(Utf16(ps), |Utf16(before)|, |Utf8(before)|);
      Utf16Append(before, [p]);
      Utf8Append(before, [p]);
      assert ps[..k] == before + [p];
      assert Utf16([p]) == Utf16Of(p) && Utf8([p]) == Utf8Of(p);
    }
  }

  /** At the start of a code point the offset is the length of the UTF-8 encoding of the
      text before it: for properly encoded text this is what was asked for. */
  method PositionOfCodePoint(isBreak: CodeUnit -> bool, ps: seq<CodePoint>, k: nat) returns (r: int)
    requires NoFalsePairs(ps) && k < |ps|
    ensures r == |Utf8(ps[..k])|
  {
    ScanCountsBytes(ps, k);
    assert |Utf16(ps[..k])| < |Utf16(ps)| by {
      assert ps == ps[..k] + ps[k..];
      Utf16Append(ps[..k], ps[k..]);
    }
    r := Utf8Position(isBreak, Utf16(ps), |Utf16(ps[..k])|);
  }

  /** Properly encoded text has no false pairs. */
  lemma {:induction false} WellFormedHasNoFalsePairs(ps: seq<CodePoint>)
    requires WellFormed(ps)
    ensures NoFalsePairs(ps)
  {
    forall i | 0 <= i < |ps| - 1 ensures !(IsHigh(ps[i]) && IsLow(ps[i + 1])) { assert ps[i] in ps; }
  }

  /** A position inside a surrogate pair counts the whole pair. */
  lemma {:induction false} InsidePair(text: seq<CodeUnit>, i: nat)
    requires i < |text| && Reaches(text, 0, i) && PairAt(text, i)
    ensures Scan(text, 0, i + 1) == Scan(text, 0, i) + 4 == Scan(text, 0, i + 2)
  {
    ScanSplits(text, 0, i, i + 1);
    ScanSplits(text, 0, i, i + 2);
    assert Scan(text, i + 2, i + 1) == 0 && Scan(text, i + 2, i + 2) == 0;
  }
}
