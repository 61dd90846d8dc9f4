/**
 Trimming and the overflow-exact integer parser of the text kernel (desktop/src/core/text.cpp).

 `ParseInt` computes with `uint64` and `int64`, so its verification includes that no step of the source's
 arithmetic leaves those types.
 */
module Numbers {
  import opened Wrappers
  import opened Utf8

  newtype uint64 = x: int | 0 <= x < 0x1_0000_0000_0000_0000

  newtype int64 = x: int | -0x8000_0000_0000_0000 <= x < 0x8000_0000_0000_0000

  const MINUS: Byte := '-' as int
  const PLUS: Byte := '+' as int
  const ZERO: Byte := '0' as int
  const NINE: Byte := '9' as int

  // ----- Trimming -----

  predicate IsSpace(cp: int) {
    || cp in {0x20, 0x09, 0x0A, 0x0D, 0x0B, 0x0C, 0xA0, 0x2028, 0x2029, 0x3000}
    || 0x2000 <= cp <= 0x200A
  }

  /** The property White_Space of the Unicode Character Database. */
  predicate IsWhiteSpace(cp: int) {
    9 <= cp <= 13 || cp == 0x20 || cp == 0x85 || cp == 0xA0 || cp == 0x1680 || 0x2000 <= cp <= 0x200A ||
    0x2028 <= cp <= 0x2029 || cp == 0x202F || cp == 0x205F || cp == 0x3000
  }

  /** What counts as space is Unicode's white space but for four characters. */
  lemma SpaceMeaning(cp: int)
    ensures IsSpace(cp) <==> IsWhiteSpace(cp) && cp != 0x85 && cp != 0x1680 && cp != 0x202F && cp != 0x205F
  {
  }

  /** The index of the last byte that is not a continuation byte, or 0. */
  function LastStart(s: Bytes): (start: nat)
    requires s != []
    ensures start < |s|
  {
    var last := |s| - 1;
    if last == 0 || !IsTail(s[last]) then last else LastStart(s[..last])
  }

  function TrimLeft(s: Bytes): Bytes {
    if s == [] || !IsSpace(HeadPoint(s)) then s else TrimLeft(s[StepLength(s)..])
  }

  function TrimRight(s: Bytes): Bytes {
    if s == [] || !IsSpace(HeadPoint(s[LastStart(s)..])) then s else TrimRight(s[..LastStart(s)])
  }

  function Trim(s: Bytes): Bytes {
    TrimRight(TrimLeft(s))
  }

  /** trim: both loops, on bytes. */
  method TrimBytes(s: Bytes) returns (t: Bytes)
    ensures t == Trim(s)
  {
    hide HeadPoint, StepLength, LeadLength;
    var pos := 0;
    assert s[0..] == s;
    while pos < |s|
      invariant pos <= |s|
      invariant TrimLeft(s[pos..]) == TrimLeft(s)
    {
      var cp, next := DecodeUtf8(s, pos);
      if !IsSpace(cp) { break; }
      assert s[pos..][next - pos..] == s[next..];
      pos := next;
    }
    t := s[pos..];
    assert t == TrimLeft(s);
    while t != []
      invariant TrimRight(t) == Trim(s)
      decreases |t|
    {
      var start := StartOfLast(t);
      var cp, next := DecodeUtf8(t, start);
      if !IsSpace(cp) { break; }
      t := t[..start];
    }
  }

  /** The walk back over continuation bytes. */
  method StartOfLast(s: Bytes) returns (start: nat)
    requires s != []
    ensures start == LastStart(s)
  {
    start := |s| - 1;
    assert s[..start + 1] == s;
    while start > 0 && 0x80 <= s[start] < 0xC0
      invariant start < |s|
      invariant LastStart(s) == LastStart(s[..start + 1])
    {
      assert s[..start + 1][..start] == s[..start];
      start := start - 1;
    }
  }

  predicate AllSpaces(cps: seq<int>) {
    forall i | 0 <= i < |cps| :: IsSpace(cps[i])
  }

  /** In well-formed text the byte walk back finds the last code point. */
  lemma {:induction false} LastPoint(s: Bytes)
    requires s != [] && WalkIsClean(s)
    ensures WalkIsClean(s[..LastStart(s)])
    ensures CodePoints(s) == CodePoints(s[..LastStart(s)]) + [HeadPoint(s[LastStart(s)..])]
  {
    hide LastStart, WalkIsClean, CodePoints, LeadLength, HeadPoint, IsSequence, ScalarOf;
    CleanSplit(s);
    var m, t := s[..LeadLength(s)], s[LeadLength(s)..];
    assert s == m + t;
    SequenceFirst(m, t);
    if t == [] {
      SequenceStart(m);
      assert m == s && s[..0] == [] && s[0..] == s;
    } else {
      CleanSplit(t);
      LastPoint(t);
      LeadIsNoTail(t);
      LastStartOfConcat(m, t);
      var front, last := t[..LastStart(t)], t[LastStart(t)..];
      assert s[..LastStart(s)] == m + front && s[LastStart(s)..] == last;
      SequenceFirst(m, front);
    }
  }

  lemma CleanSplit(s: Bytes)
    requires s != [] && WalkIsClean(s)
    ensures LeadLength(s) > 0 && WalkIsClean(s[LeadLength(s)..]) && HeadPoint(s) == ScalarOf(s[..LeadLength(s)])
    ensures WalkIsClean([]) && CodePoints([]) == []
  {
  }

  /** A well-formed sequence in front adds one code point. */
  lemma SequenceFirst(m: Bytes, t: Bytes)
    requires IsSequence(m)
    ensures CodePoints(m + t) == [ScalarOf(m)] + CodePoints(t)
    ensures WalkIsClean(m + t) <==> WalkIsClean(t)
  {
    LeadLengthOfSequence(m, t);
    hide IsSequence, ScalarOf, LeadLength;
  }

  lemma LeadIsNoTail(t: Bytes)
    requires t != [] && LeadLength(t) > 0
    ensures !IsTail(t[0])
  {
    assert t[..LeadLength(t)][0] == t[0];
  }

  lemma {:induction false} SequenceStart(m: Bytes)
    requires IsSequence(m)
    ensures LastStart(m) == 0
  {
    TailsStart(m, |m|);
    assert m[..|m|] == m;
  }

  lemma {:induction false} TailsStart(m: Bytes, n: nat)
    requires IsSequence(m) && 1 <= n <= |m|
    ensures LastStart(m[..n]) == 0
    decreases n
  {
    SequenceShape(m);
    hide IsSequence;
    assert m[..|m|] == m;
    if n > 1 {
      TailsStart(m, n - 1);
      assert m[..n][..n - 1] == m[..n - 1];
    }
  }

  lemma {:induction false} LastStartOfConcat(m: Bytes, t: Bytes)
    requires t != [] && !IsTail(t[0])
    ensures LastStart(m + t) == |m| + LastStart(t)
    decreases |t|
  {
    var last := |t| - 1;
    if last > 0 && IsTail(t[last]) {
      LastStartOfConcat(m, t[..last]);
      assert (m + t)[..|m| + last] == m + t[..last];
    }
  }

  /** Trimming well-formed text drops exactly its leading and trailing space code points. */
  lemma TrimMeaning(s: Bytes) returns (left: seq<int>, right: seq<int>)
    requires IsUtf8(s)
    ensures var cps := CodePoints(Trim(s));
            && CodePoints(s) == left + cps + right
            && AllSpaces(left) && AllSpaces(right)
            && (cps != [] ==> !IsSpace(cps[0]) && !IsSpace(cps[|cps| - 1]))
    ensures IsUtf8(Trim(s))
  {
    CleanWalkIsUtf8(s);
    left := TrimLeftMeaning(s);
    right := TrimRightMeaning(TrimLeft(s));
    CleanWalkIsUtf8(Trim(s));
  }

  lemma {:induction false} TrimLeftMeaning(s: Bytes) returns (left: seq<int>)
    requires WalkIsClean(s)
    ensures var t := TrimLeft(s);
            && WalkIsClean(t) && CodePoints(s) == left + CodePoints(t) && AllSpaces(left)
            && (t != [] ==> !IsSpace(HeadPoint(t)))
  {
    hide HeadPoint, IsSequence, IsSpace;
    if s == [] || !IsSpace(HeadPoint(s)) {
      left := [];
    } else {
      var rest := TrimLeftMeaning(s[StepLength(s)..]);
      left := [HeadPoint(s)] + rest;
    }
  }

  lemma {:induction false} TrimRightMeaning(s: Bytes) returns (right: seq<int>)
    requires WalkIsClean(s) && (s != [] ==> !IsSpace(HeadPoint(s)))
    ensures var cps := CodePoints(TrimRight(s));
            && WalkIsClean(TrimRight(s)) && CodePoints(s) == cps + right && AllSpaces(right)
            && (cps != [] ==> !IsSpace(cps[0]) && !IsSpace(cps[|cps| - 1]))
  {
    hide IsSpace, LastStart, CodePoints, WalkIsClean, HeadPoint, TrimRight;
    EmptyWalk();
    if s == [] {
      right := [];
    } else {
      LastPoint(s);
      FirstPoint(s);
      TrimRightStep(s);
      var front := s[..LastStart(s)];
      var last := HeadPoint(s[LastStart(s)..]);
      if !IsSpace(last) {
        right := [];
      } else {
        if front != [] { FirstPoint(front); }
        var more := TrimRightMeaning(front);
        right := more + [last];
      }
    }
  }

  lemma EmptyWalk()
    ensures TrimRight([]) == [] && CodePoints([]) == [] && WalkIsClean([])
  {
  }

  lemma TrimRightStep(s: Bytes)
    requires s != []
    ensures TrimRight(s) == if IsSpace(HeadPoint(s[LastStart(s)..])) then TrimRight(s[..LastStart(s)]) else s
  {
  }

  lemma FirstPoint(s: Bytes)
    requires s != []
    ensures CodePoints(s) != [] && CodePoints(s)[0] == HeadPoint(s)
  {
  }

  // ----- Integer texts -----

  predicate IsDigit(b: Byte) {
    ZERO <= b <= NINE
  }

  predicate AllDigits(s: Bytes) {
    forall i | 0 <= i < |s| :: IsDigit(s[i])
  }

  /** The number a digit string writes in base ten. */
  function Magnitude(s: Bytes): nat
    requires AllDigits(s)
  {
    if s == [] then 0 else Magnitude(s[..|s| - 1]) * 10 + (s[|s| - 1] - ZERO)
  }

  /** The text after an optional sign. */
  function Body(t: Bytes): Bytes {
    if t != [] && (t[0] == PLUS || t[0] == MINUS) then t[1..] else t
  }

  /** An optional sign and at least one digit. */
  predicate IsIntText(t: Bytes) {
    Body(t) != [] && AllDigits(Body(t))
  }

  function IntValue(t: Bytes): (value: int)
    requires IsIntText(t)
  {
    var magnitude: int := Magnitude(Body(t));
    if t[0] == MINUS then -magnitude else magnitude
  }

  predicate FitsInt64(x: int) {
    -0x8000_0000_0000_0000 <= x < 0x8000_0000_0000_0000
  }

  /** Two's complement on 64 bits: one more negative value than positive ones. */
  lemma Int64Range(x: int)
    ensures FitsInt64(x) <==> -9223372036854775808 <= x <= 9223372036854775807
  {
  }

  lemma {:induction false} MagnitudeGrows(s: Bytes, i: nat)
    requires AllDigits(s) && i <= |s|
    ensures Magnitude(s[..i]) <= Magnitude(s)
    decreases |s|
  {
    if i < |s| {
      MagnitudeGrows(s[..|s| - 1], i);
      assert s[..|s| - 1][..i] == s[..i];
    } else {
      assert s[..i] == s;
    }
  }

  /** Reading one more character of a digit string. */
  lemma DigitStep(s: Bytes, i: nat)
    requires i < |s| && AllDigits(s[..i])
    ensures AllDigits(s[..i + 1]) <==> IsDigit(s[i])
    ensures IsDigit(s[i]) ==> Magnitude(s[..i + 1]) == Magnitude(s[..i]) * 10 + (s[i] - ZERO)
    ensures AllDigits(s) ==> IsDigit(s[i]) && Magnitude(s[..i + 1]) <= Magnitude(s)
  {
    var longer := s[..i + 1];
    assert longer[..i] == s[..i] && longer[i] == s[i];
    assert forall k | 0 <= k <= i :: longer[k] == s[k];
    assert forall k | 0 <= k < i :: s[..i][k] == s[k];
    if AllDigits(s) { MagnitudeGrows(s, i + 1); }
  }

  /** parse_int: the value of the trimmed text, or None when it is not an integer text or does not fit. */
  method ParseInt(s: Bytes) returns (out: Option<int64>)
    ensures var t := Trim(s);
            if IsIntText(t) && FitsInt64(IntValue(t)) then out.Some? && out.value as int == IntValue(t)
            else out == None
  {
    hide Trim, Magnitude;
    var t := TrimBytes(s);
    if t == [] { return None; }
    var i := 0;
    var negative := false;
    if t[0] == PLUS || t[0] == MINUS {
      negative := t[0] == MINUS;
      i := 1;
    }
    if i >= |t| { return None; }
    ghost var first, body := i, Body(t);
    hide AllDigits;
    var maxPositive: uint64 := 0x7FFF_FFFF_FFFF_FFFF;
    var limit := if negative then maxPositive + 1 else maxPositive;
    var acc: uint64 := 0;
    NoDigits(body);
    while i < |t|
      invariant first <= i <= |t| && acc <= limit
      invariant AllDigits(body[..i - first]) && acc as int == Magnitude(body[..i - first])
    {
      DigitStep(body, i - first);
      if t[i] < ZERO || t[i] > NINE { return None; }
      var digit := (t[i] - ZERO) as uint64;
      if acc > (limit - digit) / 10 { return None; }
      acc := acc * 10 + digit;
      i := i + 1;
    }
    assert body[..|body|] == body;
    if !negative { return Some(acc as int64); }
    return Some(if acc == maxPositive + 1 then -0x8000_0000_0000_0000 else -(acc as int64));
  }

  lemma NoDigits(s: Bytes)
    ensures AllDigits(s[..0]) && Magnitude(s[..0]) == 0
  {
  }

  // ----- Printing -----

  function DecimalDigits(n: nat): (s: Bytes)
    ensures s != [] && AllDigits(s) && Magnitude(s) == n
  {
    var last: Byte := ZERO + n % 10;
    if n < 10 then
      assert [last][..0] == [];
      [last]
    else
      var front := DecimalDigits(n / 10);
      assert (front + [last])[..|front|] == front;
      front + [last]
  }

  /** The decimal text std::to_string writes. */
  function Decimal(n: int): Bytes {
    if n < 0 then [MINUS] + DecimalDigits(-n) else DecimalDigits(n)
  }

  /** A text of visible ASCII has nothing to trim. */
  lemma PlainToTrim(s: Bytes)
    requires forall i | 0 <= i < |s| :: 0x20 < s[i] < 0x80
    ensures Trim(s) == s
  {
    if s != [] {
      LeadLengthAnnounced(s);
      LeadLengthAnnounced(s[|s| - 1..]);
    }
  }

  /** Parsing a printed integer gives it back, whatever the integer: int64 is exactly what fits. */
  lemma ParsesDecimal(n: int)
    ensures var t := Decimal(n); Trim(t) == t && IsIntText(t) && IntValue(t) == n
  {
    PlainToTrim(Decimal(n));
    var s := DecimalDigits(if n < 0 then -n else n);
    assert IsDigit(s[0]);
    assert ([MINUS] + s)[1..] == s;
  }

  /** The value of digits by their places: the first is worth the most. */
  function Digits(s: string): int {
    if s == "" then 0 else (s[0] as int - 48) * Tens(|s| - 1) + Digits(s[1..])
  }

  function Tens(n: nat): int {
    if n == 0 then 1 else 10 * Tens(n - 1)
  }

  function Ascii(s: string): Bytes {
    seq(|s|, i requires 0 <= i < |s| => if s[i] as int < 128 then s[i] as int else 0)
  }

  lemma {:induction false} MagnitudePrepends(b: Byte, s: Bytes)
    requires IsDigit(b) && AllDigits(s)
    ensures AllDigits([b] + s) && Magnitude([b] + s) == (b - ZERO) * Tens(|s|) + Magnitude(s)
    decreases |s|
  {
    var all := [b] + s;
    if s == [] {
      assert all[..0] == [];
    } else {
      var front, last := s[..|s| - 1], s[|s| - 1];
      MagnitudePrepends(b, front);
      assert all[..|s|] == [b] + front;
      var x, y := b - ZERO, Tens(|front|);
      assert (x * y) * 10 == x * (10 * y);
    }
  }

  lemma {:induction false} DigitsAre(s: string)
    requires forall i | 0 <= i < |s| :: '0' <= s[i] <= '9'
    ensures AllDigits(Ascii(s)) && Magnitude(Ascii(s)) == Digits(s)
    decreases |s|
  {
    if s != "" {
      var rest := s[1..];
      assert forall i | 0 <= i < |rest| :: rest[i] == s[i + 1];
      DigitsAre(rest);
      assert Ascii(s) == [s[0] as int] + Ascii(rest);
      MagnitudePrepends(s[0] as int, Ascii(rest));
    }
  }

  /** Digits are an integer text with the value of their places, and so they are behind a plus; behind a minus the
      value is negated. */
  lemma SignedDigits(s: string)
    requires s != "" && forall i | 0 <= i < |s| :: '0' <= s[i] <= '9'
    ensures |Ascii(s)| == |s| && IsIntText(Ascii(s)) && IntValue(Ascii(s)) == Digits(s)
    ensures IsIntText(Ascii("+" + s)) && IntValue(Ascii("+" + s)) == Digits(s)
    ensures IsIntText(Ascii("-" + s)) && IntValue(Ascii("-" + s)) == -Digits(s)
  {
    hide *;
    DigitsAre(s);
    Prefixed(s);
    Signs(Ascii(s));
  }

  lemma Prefixed(s: string)
    ensures |Ascii(s)| == |s| && Ascii("+" + s) == [43] + Ascii(s) && Ascii("-" + s) == [45] + Ascii(s)
  {
  }

  lemma Signs(t: Bytes)
    requires t != [] && AllDigits(t)
    ensures IsIntText(t) && IntValue(t) == Magnitude(t)
    ensures IsIntText([43] + t) && IntValue([43] + t) == Magnitude(t)
    ensures IsIntText([45] + t) && IntValue([45] + t) == 0 - Magnitude(t)
  {
    assert IsDigit(t[0]);
    assert ([43] + t)[1..] == t && ([45] + t)[1..] == t;
    hide Magnitude, AllDigits;
  }
}
