/**
 The UTF-8 codec of the text kernel (desktop/src/core/text.cpp), proved against the grammar of RFC 3629.

 `IsSequence` is the ABNF of section 4 of RFC 3629 and `ScalarOf` the bit distribution of its section 3;
 neither looks at the decoder.  `CodePoints` is what a decode walk over a byte string yields, malformed
 bytes included.
 */
module Utf8 {
  import opened Ordering

  type Byte = b: int | 0 <= b < 256

  type Bytes = seq<Byte>

  const REPLACEMENT := 0xFFFD

  // ----- RFC 3629 -----

  /** The Unicode scalar values: every code point except the surrogates. */
  predicate IsScalar(cp: int) {
    0 <= cp <= 0xD7FF || 0xE000 <= cp <= 0x10FFFF
  }

  predicate IsTail(b: Byte) {
    0x80 <= b <= 0xBF
  }

  /** One well-formed sequence: UTF8-1, UTF8-2, UTF8-3 or UTF8-4 of section 4 of RFC 3629. */
  predicate IsSequence(m: Bytes) {
    || (|m| == 1 && m[0] <= 0x7F)
    || (|m| == 2 && 0xC2 <= m[0] <= 0xDF && IsTail(m[1]))
    || (|m| == 3 && IsTail(m[2]) &&
        (|| (m[0] == 0xE0 && 0xA0 <= m[1] <= 0xBF)
         || (0xE1 <= m[0] <= 0xEC && IsTail(m[1]))
         || (m[0] == 0xED && 0x80 <= m[1] <= 0x9F)
         || (0xEE <= m[0] <= 0xEF && IsTail(m[1]))))
    || (|m| == 4 && IsTail(m[2]) && IsTail(m[3]) &&
        (|| (m[0] == 0xF0 && 0x90 <= m[1] <= 0xBF)
         || (0xF1 <= m[0] <= 0xF3 && IsTail(m[1]))
         || (m[0] == 0xF4 && 0x80 <= m[1] <= 0x8F)))
  }

  /** The six bits a continuation byte carries. */
  function Payload(b: Byte): (bits: int)
    ensures IsTail(b) ==> 0 <= bits < 0x40
  {
    b - 0x80
  }

  /** The code point whose bits a well-formed sequence carries. */
  function ScalarOf(m: Bytes): (cp: int)
    requires IsSequence(m)
    ensures IsScalar(cp)
  {
    var lead: int := m[0];
    if |m| == 1 then lead
    else if |m| == 2 then (lead - 0xC0) * 0x40 + Payload(m[1])
    else if |m| == 3 then ((lead - 0xE0) * 0x40 + Payload(m[1])) * 0x40 + Payload(m[2])
    else (((lead - 0xF0) * 0x40 + Payload(m[1])) * 0x40 + Payload(m[2])) * 0x40 + Payload(m[3])
  }

  ghost predicate AllSequences(parts: seq<Bytes>) {
    forall i | 0 <= i < |parts| :: IsSequence(parts[i])
  }

  ghost function Flatten(parts: seq<Bytes>): Bytes {
    if parts == [] then [] else parts[0] + Flatten(parts[1..])
  }

  /** Well-formed UTF-8: a concatenation of well-formed sequences. */
  ghost predicate IsUtf8(s: Bytes) {
    exists parts: seq<Bytes> :: AllSequences(parts) && Flatten(parts) == s
  }

  /** The continuation byte for the low six bits of `x`. */
  function Low6(x: nat): (b: Byte)
    ensures IsTail(b) && Payload(b) == x - x / 0x40 * 0x40
  {
    0x80 + x % 0x40
  }

  /** The sequence a scalar value is written as. */
  function Encode(cp: int): (m: Bytes)
    requires IsScalar(cp)
    ensures IsSequence(m)
  {
    if cp < 0x80 then [cp]
    else if cp < 0x800 then [0xC0 + cp / 0x40, Low6(cp)]
    else if cp < 0x10000 then [0xE0 + cp / 0x40 / 0x40, Low6(cp / 0x40), Low6(cp)]
    else [0xF0 + cp / 0x40 / 0x40 / 0x40, Low6(cp / 0x40 / 0x40), Low6(cp / 0x40), Low6(cp)]
  }

  lemma ScalarOfEncode(cp: int)
    requires IsScalar(cp)
    ensures ScalarOf(Encode(cp)) == cp
  {
  }

  lemma SplitLow6(q: int, r: int)
    requires 0 <= q && 0 <= r < 0x40
    ensures (q * 0x40 + r) / 0x40 == q && (q * 0x40 + r) % 0x40 == r
  {
  }

  /** The value of a sequence is in the range its length is for, and only its first byte leads. */
  lemma SequenceShape(m: Bytes)
    requires IsSequence(m)
    ensures 1 <= |m| <= 4 && forall k | 1 <= k < |m| :: IsTail(m[k])
    ensures |m| == 1 <==> ScalarOf(m) < 0x80
    ensures |m| <= 2 <==> ScalarOf(m) < 0x800
    ensures |m| <= 3 <==> ScalarOf(m) < 0x10000
    ensures |m| == 2 ==> 0xC0 <= m[0] < 0xE0
    ensures |m| == 3 ==> 0xE0 <= m[0] < 0xF0
    ensures |m| == 4 ==> 0xF0 <= m[0] < 0xF8
  {
  }

  lemma EncodeScalarOf(m: Bytes)
    requires IsSequence(m)
    ensures Encode(ScalarOf(m)) == m
  {
    SequenceShape(m);
    if |m| == 2 {
      SplitLow6(m[0] - 0xC0, Payload(m[1]));
    } else if |m| == 3 {
      EncodeTriple(m);
    } else if |m| == 4 {
      EncodeQuadruple(m);
    }
  }

  lemma EncodeTriple(m: Bytes)
    requires IsSequence(m) && |m| == 3
    ensures Encode(ScalarOf(m)) == m
  {
    SequenceShape(m);
    hide IsSequence;
    var top: int := m[0] - 0xE0;
    var mid := top * 0x40 + Payload(m[1]);
    SplitLow6(top, Payload(m[1]));
    SplitLow6(mid, Payload(m[2]));
  }

  lemma EncodeQuadruple(m: Bytes)
    requires IsSequence(m) && |m| == 4
    ensures Encode(ScalarOf(m)) == m
  {
    SequenceShape(m);
    hide IsSequence;
    var top: int := m[0] - 0xF0;
    var high := top * 0x40 + Payload(m[1]);
    var mid := high * 0x40 + Payload(m[2]);
    SplitLow6(top, Payload(m[1]));
    SplitLow6(high, Payload(m[2]));
    SplitLow6(mid, Payload(m[3]));
  }

  // ----- One decode step -----

  /** The length of the well-formed sequence that `s` starts with, 0 when there is none. */
  function LeadLength(s: Bytes): (n: nat)
    ensures n <= |s| && n <= 4
    ensures n > 0 ==> IsSequence(s[..n])
    ensures n == 0 ==> forall k | 0 <= k <= |s| :: !IsSequence(s[..k])
  {
    if |s| >= 1 && IsSequence(s[..1]) then 1
    else if |s| >= 2 && IsSequence(s[..2]) then 2
    else if |s| >= 3 && IsSequence(s[..3]) then 3
    else if |s| >= 4 && IsSequence(s[..4]) then 4
    else 0
  }

  /** How far one decode advances: the whole sequence, or one byte past a malformed one. */
  function StepLength(s: Bytes): (n: nat)
    requires s != []
    ensures 1 <= n <= |s|
  {
    if LeadLength(s) == 0 then 1 else LeadLength(s)
  }

  /** The code point one decode yields. */
  function HeadPoint(s: Bytes): (cp: int)
    requires s != []
    ensures IsScalar(cp)
  {
    if LeadLength(s) == 0 then REPLACEMENT else ScalarOf(s[..LeadLength(s)])
  }

  /** The prefix-code property: only one prefix of a byte string can be a well-formed sequence. */
  lemma LeadLengthUnique(s: Bytes, k: nat)
    requires k <= |s| && IsSequence(s[..k])
    ensures LeadLength(s) == k
  {
    var n := LeadLength(s);
    assert s[..n][0] == s[..k][0] == s[0];
  }

  lemma LeadLengthOfSequence(m: Bytes, t: Bytes)
    requires IsSequence(m)
    ensures LeadLength(m + t) == |m|
    ensures HeadPoint(m + t) == ScalarOf(m)
    ensures (m + t)[StepLength(m + t)..] == t
  {
    assert (m + t)[..|m|] == m;
    LeadLengthUnique(m + t, |m|);
  }

  /** A cut at or after the end of the first step does not change that step, malformed or not. */
  lemma StepOfPrefix(s: Bytes, b: nat)
    requires s != [] && StepLength(s) <= b <= |s|
    ensures StepLength(s[..b]) == StepLength(s)
    ensures HeadPoint(s[..b]) == HeadPoint(s)
  {
    var t := s[..b];
    var n := LeadLength(t);
    assert forall k | 0 <= k <= b :: t[..k] == s[..k];
    if n > 0 {
      LeadLengthUnique(s, n);
    } else {
      assert !IsSequence(t[..StepLength(s)]);
    }
  }

  /** The source's continuation-byte loop, one position at a time. */
  function Fold6(init: int, s: Bytes, k: nat): int
    requires k < |s|
  {
    if k == 0 then init else Fold6(init, s, k - 1) * 0x40 + (s[k] as int) % 0x40
  }

  /** The number of continuation bytes a lead byte announces, -1 for a byte that cannot lead. */
  function Announced(c0: Byte): int {
    if c0 < 0x80 then 0 else if c0 < 0xC2 then -1 else if c0 < 0xE0 then 1
    else if c0 < 0xF0 then 2 else if c0 < 0xF5 then 3 else -1
  }

  /** Only the announced length can be the length of a well-formed sequence. */
  lemma LeadLengthAnnounced(s: Bytes)
    requires s != []
    ensures LeadLength(s) == 0 || LeadLength(s) == Announced(s[0]) + 1
    ensures Announced(s[0]) == 0 ==> LeadLength(s) == 1 && HeadPoint(s) == s[0]
  {
    var n := LeadLength(s);
    if n > 0 {
      assert s[..n][0] == s[0];
    }
    if Announced(s[0]) == 0 {
      LeadLengthUnique(s, 1);
    }
  }

  lemma StepOutcome(s: Bytes)
    requires s != []
    ensures LeadLength(s) == 0 ==> HeadPoint(s) == REPLACEMENT && StepLength(s) == 1
    ensures LeadLength(s) > 0 ==>
            HeadPoint(s) == ScalarOf(s[..LeadLength(s)]) && StepLength(s) == LeadLength(s)
  {
  }

  /** decode_utf8: decodes the code point at `pos` and moves `pos` past it. */
  method DecodeUtf8(s: Bytes, pos: nat) returns (cp: int, next: nat)
    ensures pos >= |s| ==> cp == 0 && next == pos
    ensures pos < |s| ==> cp == HeadPoint(s[pos..]) && next == pos + StepLength(s[pos..])
  {
    if pos >= |s| { return 0, pos; }
    hide LeadLength, IsSequence, ScalarOf, HeadPoint, StepLength;
    ghost var rest := s[pos..];
    LeadLengthAnnounced(rest);
    StepOutcome(rest);
    var c0 := s[pos];
    if c0 < 0x80 { return c0, pos + 1; }
    if c0 < 0xC2 { return REPLACEMENT, pos + 1; }
    var need := 0;
    cp := 0;
    if c0 < 0xE0 {
      need, cp := 1, c0 % 0x20;
    } else if c0 < 0xF0 {
      need, cp := 2, c0 % 0x10;
    } else if c0 < 0xF5 {
      need, cp := 3, c0 % 0x08;
    } else {
      return REPLACEMENT, pos + 1;
    }
    if pos + need >= |s| { return REPLACEMENT, pos + 1; }
    ghost var m := rest[..need + 1];
    ghost var lead := cp;
    var i := 1;
    while i <= need
      invariant 1 <= i <= need + 1
      invariant forall k | 1 <= k < i :: IsTail(m[k])
      invariant cp == Fold6(lead, m, i - 1)
    {
      var ci: int := s[pos + i];
      assert ci == m[i];
      if !(0x80 <= ci < 0xC0) {
        NonTailSpoils(m, i);
        return REPLACEMENT, pos + 1;
      }
      cp := cp * 0x40 + ci % 0x40;
      i := i + 1;
    }
    FoldIsSequence(m, cp);
    if 0xD800 <= cp <= 0xDFFF || cp > 0x10FFFF { return REPLACEMENT, pos + 1; }
    if (need == 1 && cp < 0x80) || (need == 2 && cp < 0x800) || (need == 3 && cp < 0x10000) {
      return REPLACEMENT, pos + 1;
    }
    LeadLengthUnique(rest, need + 1);
    next := pos + need + 1;
  }

  lemma NonTailSpoils(m: Bytes, i: nat)
    requires 1 <= i < |m| && !IsTail(m[i])
    ensures !IsSequence(m)
  {
  }

  /** The decoder's arithmetic test (scalar range, no overlong form) is the grammar's byte ranges. */
  lemma FoldIsSequence(m: Bytes, cp: int)
    requires 2 <= |m| <= 4 && forall k | 1 <= k < |m| :: IsTail(m[k])
    requires |m| == 2 ==> 0xC2 <= m[0] < 0xE0 && cp == Fold6(m[0] % 0x20, m, 1)
    requires |m| == 3 ==> 0xE0 <= m[0] < 0xF0 && cp == Fold6(m[0] % 0x10, m, 2)
    requires |m| == 4 ==> 0xF0 <= m[0] < 0xF5 && cp == Fold6(m[0] % 0x08, m, 3)
    ensures IsSequence(m) <==>
            IsScalar(cp) && cp >= (if |m| == 2 then 0x80 else if |m| == 3 then 0x800 else 0x10000)
    ensures IsSequence(m) ==> cp == ScalarOf(m)
  {
    FoldValue(m, cp);
  }

  lemma FoldValue(m: Bytes, cp: int)
    requires 2 <= |m| <= 4 && forall k | 1 <= k < |m| :: IsTail(m[k])
    requires |m| == 2 ==> 0xC2 <= m[0] < 0xE0 && cp == Fold6(m[0] % 0x20, m, 1)
    requires |m| == 3 ==> 0xE0 <= m[0] < 0xF0 && cp == Fold6(m[0] % 0x10, m, 2)
    requires |m| == 4 ==> 0xF0 <= m[0] < 0xF5 && cp == Fold6(m[0] % 0x08, m, 3)
    ensures |m| == 2 ==> cp == (m[0] - 0xC0) * 0x40 + Payload(m[1])
    ensures |m| == 3 ==> cp == ((m[0] - 0xE0) * 0x40 + Payload(m[1])) * 0x40 + Payload(m[2])
    ensures |m| == 4 ==>
            cp == (((m[0] - 0xF0) * 0x40 + Payload(m[1])) * 0x40 + Payload(m[2])) * 0x40 + Payload(m[3])
  {
    LeadBits(m[0]);
    hide IsSequence, Fold6, Payload;
    if |m| == 2 {
      FoldStep(m[0] % 0x20, m, 1);
    } else if |m| == 3 {
      FoldStep(m[0] % 0x10, m, 1);
      FoldStep(m[0] % 0x10, m, 2);
    } else {
      FoldStep(m[0] % 0x08, m, 1);
      FoldStep(m[0] % 0x08, m, 2);
      FoldStep(m[0] % 0x08, m, 3);
    }
  }

  /** The bits a lead byte carries. */
  lemma LeadBits(b: Byte)
    ensures 0xC0 <= b < 0xE0 ==> b % 0x20 == b - 0xC0
    ensures 0xE0 <= b < 0xF0 ==> b % 0x10 == b - 0xE0
    ensures 0xF0 <= b < 0xF8 ==> b % 0x08 == b - 0xF0
  {
  }

  lemma FoldStep(init: int, m: Bytes, k: nat)
    requires 1 <= k < |m| && IsTail(m[k])
    ensures Fold6(init, m, k) == Fold6(init, m, k - 1) * 0x40 + Payload(m[k])
    ensures Fold6(init, m, 0) == init
  {
  }

  /** encode_utf8: appends `cp` to `out`; anything that is not a scalar value is written as U+FFFD. */
  method EncodeUtf8(cp: nat, out: Bytes) returns (out': Bytes)
    ensures out' == out + Encode(if IsScalar(cp) then cp else REPLACEMENT)
  {
    var c := cp;
    if c > 0x10FFFF || 0xD800 <= c <= 0xDFFF { c := REPLACEMENT; }
    out' := out;
    if c < 0x80 {
      out' := out' + [c];
    } else if c < 0x800 {
      out' := out' + [0xC0 + c / 0x40];
      out' := out' + [0x80 + c % 0x40];
    } else if c < 0x10000 {
      out' := out' + [0xE0 + c / 0x40 / 0x40];
      out' := out' + [0x80 + c / 0x40 % 0x40];
      out' := out' + [0x80 + c % 0x40];
    } else {
      out' := out' + [0xF0 + c / 0x40 / 0x40 / 0x40];
      out' := out' + [0x80 + c / 0x40 / 0x40 % 0x40];
      out' := out' + [0x80 + c / 0x40 % 0x40];
      out' := out' + [0x80 + c % 0x40];
    }
  }

  // ----- Decode walks -----

  /** The code points a decode walk over `s` yields. */
  function CodePoints(s: Bytes): (cps: seq<int>)
    ensures forall i | 0 <= i < |cps| :: IsScalar(cps[i])
    ensures |cps| <= |s|
  {
    if s == [] then [] else [HeadPoint(s)] + CodePoints(s[StepLength(s)..])
  }

  function EncodeAll(cps: seq<int>): Bytes
    requires forall i | 0 <= i < |cps| :: IsScalar(cps[i])
  {
    if cps == [] then [] else Encode(cps[0]) + EncodeAll(cps[1..])
  }

  /** True when no step of the decode walk meets a malformed byte. */
  predicate WalkIsClean(s: Bytes) {
    s == [] || (LeadLength(s) > 0 && WalkIsClean(s[LeadLength(s)..]))
  }

  lemma {:induction false} CleanWalkIsUtf8(s: Bytes)
    ensures WalkIsClean(s) <==> IsUtf8(s)
  {
    if WalkIsClean(s) {
      var parts := Parts(s);
    }
    if IsUtf8(s) {
      var parts :| AllSequences(parts) && Flatten(parts) == s;
      FlattenIsClean(parts);
    }
  }

  lemma {:induction false} Parts(s: Bytes) returns (parts: seq<Bytes>)
    requires WalkIsClean(s)
    ensures AllSequences(parts) && Flatten(parts) == s
  {
    if s == [] {
      parts := [];
    } else {
      var n := LeadLength(s);
      var rest := Parts(s[n..]);
      parts := [s[..n]] + rest;
      assert parts[1..] == rest;
      assert s == s[..n] + s[n..];
    }
  }

  lemma {:induction false} FlattenIsClean(parts: seq<Bytes>)
    requires AllSequences(parts)
    ensures WalkIsClean(Flatten(parts))
  {
    if parts != [] {
      FlattenIsClean(parts[1..]);
      LeadLengthOfSequence(parts[0], Flatten(parts[1..]));
    }
  }

  /** Encoding and then walking gives back the scalars: the encoding is a prefix code. */
  lemma {:induction false} CodePointsOfEncodeAll(cps: seq<int>)
    requires forall i | 0 <= i < |cps| :: IsScalar(cps[i])
    ensures CodePoints(EncodeAll(cps)) == cps
    ensures IsUtf8(EncodeAll(cps))
  {
    EncodeAllWalk(cps);
    CleanWalkIsUtf8(EncodeAll(cps));
  }

  lemma {:induction false} EncodeAllWalk(cps: seq<int>)
    requires forall i | 0 <= i < |cps| :: IsScalar(cps[i])
    ensures CodePoints(EncodeAll(cps)) == cps
    ensures WalkIsClean(EncodeAll(cps))
  {
    if cps != [] {
      var tail := EncodeAll(cps[1..]);
      EncodeAllWalk(cps[1..]);
      LeadLengthOfSequence(Encode(cps[0]), tail);
      ScalarOfEncode(cps[0]);
    }
  }

  /** Walking well-formed text and encoding again gives back the text, and only well-formed text. */
  lemma {:induction false} EncodeAllOfCodePoints(s: Bytes)
    ensures EncodeAll(CodePoints(s)) == s <==> IsUtf8(s)
  {
    CleanWalkIsUtf8(s);
    if WalkIsClean(s) {
      ReencodeClean(s);
    } else {
      CodePointsOfEncodeAll(CodePoints(s));
    }
  }

  lemma {:induction false} ReencodeClean(s: Bytes)
    requires WalkIsClean(s)
    ensures EncodeAll(CodePoints(s)) == s
  {
    if s != [] {
      hide ScalarOf, Encode, IsSequence;
      var m, t := s[..LeadLength(s)], s[LeadLength(s)..];
      assert s == m + t;
      ReencodeClean(t);
      EncodeScalarOf(m);
      EncodeAllCons(ScalarOf(m), CodePoints(t));
    }
  }

  lemma EncodeAllCons(cp: int, cps: seq<int>)
    requires IsScalar(cp) && forall i | 0 <= i < |cps| :: IsScalar(cps[i])
    ensures EncodeAll([cp] + cps) == Encode(cp) + EncodeAll(cps)
  {
    assert ([cp] + cps)[1..] == cps;
  }

  /** is_valid_utf8. */
  method IsValidUtf8(s: Bytes) returns (ok: bool)
    ensures ok <==> IsUtf8(s)
  {
    CleanWalkIsUtf8(s);
    var pos := 0;
    while pos < |s|
      invariant 0 <= pos <= |s|
      invariant WalkIsClean(s) <==> WalkIsClean(s[pos..])
    {
      var before := pos;
      ghost var rest := s[pos..];
      var cp;
      cp, pos := DecodeUtf8(s, pos);
      assert rest[StepLength(rest)..] == s[pos..];
      if cp == REPLACEMENT {
        // A genuine U+FFFD is three bytes; a failed decode advances one.
        if LeadLength(rest) > 0 { EncodeScalarOf(rest[..LeadLength(rest)]); }
        if pos - before != 3 {
          return false;
        }
      }
    }
    return true;
  }

  /** utf8_length. */
  method Utf8Length(s: Bytes) returns (n: nat)
    ensures n == |CodePoints(s)|
  {
    hide HeadPoint, StepLength, LeadLength;
    var pos := 0;
    n := 0;
    while pos < |s|
      invariant 0 <= pos <= |s|
      invariant n + |CodePoints(s[pos..])| == |CodePoints(s)|
    {
      ghost var rest := s[pos..];
      var cp;
      cp, pos := DecodeUtf8(s, pos);
      assert rest[StepLength(rest)..] == s[pos..];
      n := n + 1;
    }
  }

  /** The byte length of the first `n` steps of the walk. */
  function OffsetOf(s: Bytes, n: nat): (offset: nat)
    ensures offset <= |s|
    decreases n
  {
    if s == [] || n == 0 then 0 else StepLength(s) + OffsetOf(s[StepLength(s)..], n - 1)
  }

  /** utf8_offset_of. */
  method Utf8OffsetOf(s: Bytes, n: nat) returns (pos: nat)
    ensures pos == OffsetOf(s, n)
  {
    hide HeadPoint, StepLength, LeadLength;
    var i := 0;
    pos := 0;
    while pos < |s| && i < n
      invariant 0 <= pos <= |s| && i <= n
      invariant pos + OffsetOf(s[pos..], n - i) == OffsetOf(s, n)
    {
      ghost var rest := s[pos..];
      var cp;
      cp, pos := DecodeUtf8(s, pos);
      assert rest[StepLength(rest)..] == s[pos..];
      i := i + 1;
    }
  }

  /** A cut at a step boundary splits the walk in two, for every byte string. */
  lemma {:induction false} CutSplitsWalk(s: Bytes, n: nat, before: Bytes, after: Bytes)
    requires s == before + after && |before| == OffsetOf(s, n)
    ensures CodePoints(s) == CodePoints(before) + CodePoints(after)
    ensures |CodePoints(before)| == Min(n, |CodePoints(s)|)
    decreases n
  {
    hide HeadPoint, StepLength, LeadLength;
    if s == [] || n == 0 {
      assert before == [] && after == s;
    } else {
      var m := StepLength(s);
      assert before == s[..|before|];
      StepOfPrefix(s, |before|);
      assert s[m..] == before[m..] + after;
      CutSplitsWalk(s[m..], n - 1, before[m..], after);
    }
  }

  /** A boundary cut of well-formed text never splits a sequence: both halves are well-formed. */
  lemma {:induction false} CutKeepsUtf8(s: Bytes, n: nat, before: Bytes, after: Bytes)
    requires s == before + after && |before| == OffsetOf(s, n)
    requires IsUtf8(s)
    ensures IsUtf8(before) && IsUtf8(after)
  {
    CleanWalkIsUtf8(s);
    CutKeepsClean(s, n, before, after);
    CleanWalkIsUtf8(before);
    CleanWalkIsUtf8(after);
  }

  lemma {:induction false} CutKeepsClean(s: Bytes, n: nat, before: Bytes, after: Bytes)
    requires s == before + after && |before| == OffsetOf(s, n)
    requires WalkIsClean(s)
    ensures WalkIsClean(before) && WalkIsClean(after)
    decreases n
  {
    hide IsSequence;
    if s == [] || n == 0 {
      assert before == [] && after == s;
    } else {
      var m := LeadLength(s);
      assert before[..m] == s[..m];
      LeadLengthUnique(before, m);
      assert s[m..] == before[m..] + after;
      CutKeepsClean(s[m..], n - 1, before[m..], after);
    }
  }

  /** The code points `start`, `start + 1`, ... of `s`, at most `count` of them. */
  function Substr(s: Bytes, start: nat, count: nat): Bytes {
    var tail := s[OffsetOf(s, start)..];
    tail[..OffsetOf(tail, count)]
  }

  /** The same with the default count, npos: everything from the code point `start` on. */
  function SubstrToEnd(s: Bytes, start: nat): Bytes {
    s[OffsetOf(s, start)..]
  }

  /** utf8_substr with a count. */
  method Utf8Substr(s: Bytes, start: nat, count: nat) returns (part: Bytes)
    ensures part == Substr(s, start, count)
  {
    hide HeadPoint, StepLength, LeadLength, CodePoints;
    var b := Utf8OffsetOf(s, start);
    ghost var tail := s[b..];
    if b >= |s| { return []; }
    var pos, i := b, 0;
    while pos < |s| && i < count
      invariant b <= pos <= |s| && i <= count
      invariant (pos - b) + OffsetOf(s[pos..], count - i) == OffsetOf(tail, count)
    {
      ghost var rest := s[pos..];
      var cp;
      cp, pos := DecodeUtf8(s, pos);
      assert rest[StepLength(rest)..] == s[pos..];
      i := i + 1;
    }
    assert s[b..pos] == tail[..pos - b];
    return s[b..pos];
  }

  /** utf8_substr with the default count, npos. */
  method Utf8SubstrToEnd(s: Bytes, start: nat) returns (part: Bytes)
    ensures part == SubstrToEnd(s, start)
  {
    var b := Utf8OffsetOf(s, start);
    if b >= |s| { return []; }
    return s[b..];
  }

  /** The substring's code points are exactly the requested window, and no sequence is split. */
  lemma SubstrPoints(s: Bytes, start: nat, count: nat)
    ensures var cps := CodePoints(s);
            CodePoints(Substr(s, start, count)) == cps[Min(start, |cps|)..Min(start + count, |cps|)]
    ensures IsUtf8(s) ==> IsUtf8(Substr(s, start, count))
  {
    hide *;
    var b := OffsetOf(s, start);
    var tail := s[b..];
    var e := OffsetOf(tail, count);
    var part := tail[..e];
    SubstrIs(s, start, count);
    SplitAt(s, b);
    SplitAt(tail, e);
    CutSplitsWalk(s, start, s[..b], tail);
    CutSplitsWalk(tail, count, part, tail[e..]);
    Middle(CodePoints(s), CodePoints(s[..b]), CodePoints(part), CodePoints(tail[e..]), start, count);
    if IsUtf8(s) {
      CutKeepsUtf8(s, start, s[..b], tail);
      CutKeepsUtf8(tail, count, part, tail[e..]);
    }
  }

  lemma SubstrIs(s: Bytes, start: nat, count: nat)
    ensures var tail := s[OffsetOf(s, start)..]; Substr(s, start, count) == tail[..OffsetOf(tail, count)]
  {
  }

  lemma SplitAt(s: Bytes, k: nat)
    requires k <= |s|
    ensures s == s[..k] + s[k..] && |s[..k]| == k
  {
  }

  /** The middle of three parts is a window of the whole. */
  lemma Middle(all: seq<int>, left: seq<int>, mid: seq<int>, right: seq<int>, start: nat, count: nat)
    requires all == left + (mid + right)
    requires |left| == Min(start, |all|) && |mid| == Min(count, |mid + right|)
    ensures 0 <= Min(start, |all|) <= Min(start + count, |all|) <= |all|
    ensures mid == all[Min(start, |all|)..Min(start + count, |all|)]
  {
  }

  /** Splitting at any code-point index loses no byte and no code point, malformed input included. */
  lemma SubstrSplits(s: Bytes, k: nat)
    ensures Substr(s, 0, k) + SubstrToEnd(s, k) == s
    ensures CodePoints(Substr(s, 0, k)) + CodePoints(SubstrToEnd(s, k)) == CodePoints(s)
    ensures |CodePoints(Substr(s, 0, k))| + |CodePoints(SubstrToEnd(s, k))| == |CodePoints(s)|
  {
    hide CodePoints, HeadPoint, LeadLength;
    assert s[OffsetOf(s, 0)..] == s;
    CutSplitsWalk(s, k, Substr(s, 0, k), SubstrToEnd(s, k));
  }

  // ----- The bytes themselves -----

  /** Section 3 of RFC 3629: how many bytes a scalar takes, and what the first of them begins with. */
  lemma EncodedLength(cp: int)
    requires IsScalar(cp)
    ensures |Encode(cp)| == if cp <= 0x7F then 1 else if cp <= 0x7FF then 2 else if cp <= 0xFFFF then 3 else 4
    ensures var lead := Encode(cp)[0];
            match |Encode(cp)| case 1 => lead < 128 case 2 => 192 <= lead < 224 case 3 => 224 <= lead < 240
                               case _ => 240 <= lead < 248
  {
  }

  predicate DifferAt(m: Bytes, n: Bytes, k: nat) {
    k < |m| && k < |n| && m[k] < n[k] && forall i | 0 <= i < k :: m[i] == n[i]
  }

  /** Byte order is code-point order, as section 1 of RFC 3629 promises.  With the lengths this leaves one way only
      of writing the scalars as well-formed sequences. */
  lemma ByteOrder(a: int, b: int)
    requires IsScalar(a) && IsScalar(b) && a < b
    ensures exists k: nat :: DifferAt(Encode(a), Encode(b), k)
  {
    var m, n := Encode(a), Encode(b);
    EncodedLength(a);
    EncodedLength(b);
    if |m| < |n| {
      assert DifferAt(m, n, 0);
    } else {
      var k := FirstDifference(a, b);
    }
  }

  lemma FirstDifference(a: int, b: int) returns (k: nat)
    requires IsScalar(a) && IsScalar(b) && a < b && |Encode(a)| == |Encode(b)|
    ensures DifferAt(Encode(a), Encode(b), k)
  {
    EncodedLength(a);
    EncodedLength(b);
    hide Encode;
    if a <= 0x7F {
      OneByte(a, b);
      k := 0;
    } else if a <= 0x7FF {
      k := InTwoBytes(a, b);
    } else if a <= 0xFFFF {
      k := InThreeBytes(a, b);
    } else {
      k := InFourBytes(a, b);
    }
  }

  lemma OneByte(a: int, b: int)
    requires 0 <= a < b <= 0x7F
    ensures DifferAt(Encode(a), Encode(b), 0)
  {
  }

  lemma InTwoBytes(a: int, b: int) returns (k: nat)
    requires 0x80 <= a < b <= 0x7FF
    ensures DifferAt(Encode(a), Encode(b), k)
  {
    k := if a / 0x40 < b / 0x40 then 0 else 1;
  }

  lemma InThreeBytes(a: int, b: int) returns (k: nat)
    requires 0x800 <= a < b <= 0xFFFF && IsScalar(a) && IsScalar(b)
    ensures DifferAt(Encode(a), Encode(b), k)
  {
    k := if a / 0x40 / 0x40 < b / 0x40 / 0x40 then 0 else if a / 0x40 < b / 0x40 then 1 else 2;
  }

  lemma InFourBytes(a: int, b: int) returns (k: nat)
    requires 0x10000 <= a < b <= 0x10FFFF
    ensures DifferAt(Encode(a), Encode(b), k)
  {
    FourBytes(a);
    FourBytes(b);
    hide Encode, Low6;
    var x, y, z := a / 0x40, a / 0x40 / 0x40, a / 0x40 / 0x40 / 0x40;
    var u, v, w := b / 0x40, b / 0x40 / 0x40, b / 0x40 / 0x40 / 0x40;
    Digit(a, b);
    Digit(x, u);
    Digit(y, v);
    k := if z < w then 0 else if y < v then 1 else if x < u then 2 else 3;
  }

  lemma FourBytes(cp: int)
    requires 0x10000 <= cp <= 0x10FFFF
    ensures Encode(cp) == [0xF0 + cp / 0x40 / 0x40 / 0x40, Low6(cp / 0x40 / 0x40), Low6(cp / 0x40), Low6(cp)]
  {
    hide Low6;
  }

  /** The last digit in base 64 decides when the others are equal. */
  lemma Digit(a: nat, b: nat)
    requires a <= b
    ensures a / 0x40 <= b / 0x40
    ensures a / 0x40 == b / 0x40 ==> (a < b ==> Low6(a) < Low6(b)) && (a == b ==> Low6(a) == Low6(b))
  {
  }

  /** The replacement character, and the examples of section 7 of RFC 3629. */
  lemma Examples()
    ensures Encode(0xFFFD) == [0xEF, 0xBF, 0xBD] && REPLACEMENT == 0xFFFD
    ensures Encode(0x41) == [0x41] && Encode(0x2262) == [0xE2, 0x89, 0xA2] && Encode(0x391) == [0xCE, 0x91]
    ensures Encode(0xD55C) == [0xED, 0x95, 0x9C] && Encode(0x65E5) == [0xE6, 0x97, 0xA5]
    ensures Encode(0x233B4) == [0xF0, 0xA3, 0x8E, 0xB4] && Encode(0xFEFF) == [0xEF, 0xBB, 0xBF]
  {
  }

  /** A step that meets no well-formed sequence yields U+FFFD and moves one byte on. */
  lemma MalformedStep(s: Bytes)
    requires s != [] && forall k | 0 <= k <= |s| :: !IsSequence(s[..k])
    ensures HeadPoint(s) == 0xFFFD && StepLength(s) == 1
  {
  }

  // ----- Sanitising -----

  /** sanitize_utf8. */
  method SanitizeUtf8(s: Bytes) returns (out: Bytes)
    ensures out == EncodeAll(CodePoints(s))
  {
    hide HeadPoint, StepLength, LeadLength, Encode;
    out := [];
    var pos := 0;
    while pos < |s|
      invariant 0 <= pos <= |s|
      invariant out + EncodeAll(CodePoints(s[pos..])) == EncodeAll(CodePoints(s))
    {
      ghost var rest := s[pos..];
      ghost var before := out;
      var cp;
      cp, pos := DecodeUtf8(s, pos);
      assert rest[StepLength(rest)..] == s[pos..];
      assert CodePoints(rest)[1..] == CodePoints(s[pos..]);
      out := EncodeUtf8(cp, out);
      assert before + EncodeAll(CodePoints(rest)) == out + EncodeAll(CodePoints(s[pos..]));
    }
    assert s[pos..] == [];
  }

  /** What the sanitised text is: well-formed, with the same code points, unchanged when already well-formed. */
  lemma SanitizeMeaning(s: Bytes)
    ensures var out := EncodeAll(CodePoints(s));
      && IsUtf8(out)
      && CodePoints(out) == CodePoints(s)
      && EncodeAll(CodePoints(out)) == out
      && (out == s <==> IsUtf8(s))
  {
    hide CodePoints, EncodeAll, IsUtf8;
    CodePointsOfEncodeAll(CodePoints(s));
    EncodeAllOfCodePoints(s);
  }
}
