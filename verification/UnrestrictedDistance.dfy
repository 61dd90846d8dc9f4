/**
 The distance that edit_distance is documented to compute (desktop/src/core/text.hpp:144-146): Damerau-Levenshtein,
 the least number of single edits that lead from one text to the other, each free to touch what earlier ones changed.

 The code computes the restricted distance of the module EditDistance, which is never smaller.  Within a bound the
 two agree on all texts exactly when the bound is at most one.
 */
module UnrestrictedDistance {
  import opened Ordering
  import opened EditDistance

  function Restricted(a: string, b: string): nat {
    Distance(a, b, |a|, |b|)
  }

  // ----- Chains of edits -----

  /** What one edit puts in place of what: an insertion, a deletion, a replacement or an exchange of neighbours. */
  predicate IsPiece(x: string, y: string) {
    || (|x| == 0 && |y| == 1)
    || (|x| == 1 && |y| == 0)
    || (|x| == 1 && |y| == 1)
    || (|x| == 2 && |y| == 2 && x[0] == y[1] && x[1] == y[0])
  }

  predicate EditAt(a: string, b: string, before: string, x: string, y: string, after: string) {
    IsPiece(x, y) && a == before + x + after && b == before + y + after
  }

  ghost predicate OneEdit(a: string, b: string) {
    exists before, x, y, after :: EditAt(a, b, before, x, y, after)
  }

  /** n edits, one after the other, lead from a to b. */
  ghost predicate Reaches(a: string, b: string, n: nat)
    decreases n
  {
    if n == 0 then a == b else exists c :: OneEdit(a, c) && Reaches(c, b, n - 1)
  }

  lemma {:induction false} ReachesChains(a: string, b: string, c: string, m: nat, n: nat)
    requires Reaches(a, b, m) && Reaches(b, c, n)
    ensures Reaches(a, c, m + n)
    decreases m
  {
    hide OneEdit;
    if m > 0 {
      var d :| OneEdit(a, d) && Reaches(d, b, m - 1);
      ReachesChains(d, b, c, m - 1, n);
    }
  }

  lemma OneMore(a: string, b: string, c: string, n: nat)
    requires Reaches(a, b, n) && OneEdit(b, c)
    ensures Reaches(a, c, n + 1)
  {
    hide OneEdit;
    assert Reaches(c, c, 0);
    assert Reaches(b, c, 1);
    ReachesChains(a, b, c, n, 1);
  }

  lemma EditWithSuffix(a: string, b: string, s: string)
    requires OneEdit(a, b)
    ensures OneEdit(a + s, b + s)
  {
    var before, x, y, after :| EditAt(a, b, before, x, y, after);
    assert before + x + after + s == before + x + (after + s);
    assert before + y + after + s == before + y + (after + s);
    assert EditAt(a + s, b + s, before, x, y, after + s);
  }

  lemma {:induction false} ReachesWithSuffix(a: string, b: string, n: nat, s: string)
    requires Reaches(a, b, n)
    ensures Reaches(a + s, b + s, n)
    decreases n
  {
    hide OneEdit;
    if n > 0 {
      var c :| OneEdit(a, c) && Reaches(c, b, n - 1);
      EditWithSuffix(a, c, s);
      ReachesWithSuffix(c, b, n - 1, s);
    }
  }

  // ----- From an alignment to a chain -----

  lemma EditAtEnd(before: string, x: string, y: string)
    requires IsPiece(x, y)
    ensures OneEdit(before + x, before + y)
  {
    assert before + x == before + x + "" && before + y == before + y + "";
    assert EditAt(before + x, before + y, before, x, y, "");
  }

  /** The edits of an alignment, made one after the other. */
  lemma {:induction false} AlignmentIsChain(script: seq<Edit>, a: string, b: string)
    requires Aligns(script, a, b)
    ensures Reaches(a, b, Cost(script))
  {
    if script != [] {
      var rest, e := script[..|script| - 1], script[|script| - 1];
      var x := if e == Insert then 0 else if e == Swap then 2 else 1;
      var y := if e == Delete then 0 else if e == Swap then 2 else 1;
      UsesNoMore(script, a, b, x, y);
      var a', b' := a[..|a| - x], b[..|b| - y];
      LastAligned(script, a, b, x, y, a', b');
      LastPiece(script, a, b, x, y);
      SplitEnd(a, x);
      SplitEnd(b, y);
      AlignmentIsChain(rest, a', b');
      hide Reaches, Aligns;
      LastEdit(a', b', a[|a| - x..], b[|b| - y..], e, Cost(rest));
    }
  }

  /** How many characters the last edit of an alignment uses up. */
  predicate Uses(e: Edit, x: nat, y: nat) {
    && x == (if e == Insert then 0 else if e == Swap then 2 else 1)
    && y == (if e == Delete then 0 else if e == Swap then 2 else 1)
  }

  lemma UsesNoMore(script: seq<Edit>, a: string, b: string, x: nat, y: nat)
    requires Aligns(script, a, b) && script != [] && Uses(script[|script| - 1], x, y)
    ensures x <= |a| && y <= |b|
  {
  }

  lemma LastAligned(script: seq<Edit>, a: string, b: string, x: nat, y: nat, c: string, d: string)
    requires Aligns(script, a, b) && script != [] && Uses(script[|script| - 1], x, y)
    requires x <= |a| && y <= |b| && c == a[..|a| - x] && d == b[..|b| - y]
    ensures Aligns(script[..|script| - 1], c, d)
  {
    if x == 0 { assert c == a; }
    if y == 0 { assert d == b; }
  }

  lemma SplitEnd(a: string, x: nat)
    requires x <= |a|
    ensures a == a[..|a| - x] + a[|a| - x..]
  {
  }

  lemma LastPiece(script: seq<Edit>, a: string, b: string, x: nat, y: nat)
    requires Aligns(script, a, b) && script != [] && Uses(script[|script| - 1], x, y) && x <= |a| && y <= |b|
    ensures if script[|script| - 1] == Keep then a[|a| - x..] == b[|b| - y..]
            else IsPiece(a[|a| - x..], b[|b| - y..])
  {
    var s, t, n, m := a[|a| - x..], b[|b| - y..], |a|, |b|;
    assert |s| == x && |t| == y;
    if x > 0 { assert s[0] == a[n - x]; }
    if y > 0 { assert t[0] == b[m - y]; }
    if x == 2 { assert s[1] == a[n - 1] && t[1] == b[m - 1]; }
  }

  lemma LastEdit(a: string, b: string, x: string, y: string, e: Edit, n: nat)
    requires Reaches(a, b, n) && (if e == Keep then x == y else IsPiece(x, y))
    ensures Reaches(a + x, b + y, n + if e == Keep then 0 else 1)
  {
    hide Reaches, OneEdit, IsPiece;
    ReachesWithSuffix(a, b, n, x);
    if e != Keep {
      EditAtEnd(b, x, y);
      OneMore(a + x, b + x, b + y, n);
    }
  }

  // ----- From an edit to an alignment -----

  function Keeps(n: nat): seq<Edit> {
    if n == 0 then [] else Keeps(n - 1) + [Keep]
  }

  lemma {:induction false} KeepsAlign(script: seq<Edit>, a: string, b: string, s: string)
    requires Aligns(script, a, b)
    ensures Aligns(script + Keeps(|s|), a + s, b + s) && Cost(script + Keeps(|s|)) == Cost(script)
    decreases |s|
  {
    if s == [] {
      assert script + [] == script && a + s == a && b + s == b;
    } else {
      var front, last := s[..|s| - 1], s[|s| - 1];
      KeepsAlign(script, a, b, front);
      var shorter := script + Keeps(|front|);
      assert script + Keeps(|s|) == shorter + [Keep];
      assert a + s == a + front + [last] && b + s == b + front + [last];
      hide Aligns, Cost, Keeps;
      OneKeepAligns(shorter, a + front, b + front, last);
    }
  }

  lemma OneKeepAligns(script: seq<Edit>, a: string, b: string, c: char)
    requires Aligns(script, a, b)
    ensures Aligns(script + [Keep], a + [c], b + [c]) && Cost(script + [Keep]) == Cost(script)
  {
    var longer := script + [Keep];
    assert longer[..|longer| - 1] == script;
    assert (a + [c])[..|a|] == a && (b + [c])[..|b|] == b;
  }

  lemma PieceAligns(script: seq<Edit>, before: string, x: string, y: string) returns (longer: seq<Edit>)
    requires Aligns(script, before, before) && Cost(script) == 0 && IsPiece(x, y)
    ensures Aligns(longer, before + x, before + y) && Cost(longer) == 1
  {
    var e := if |x| == 0 then Insert else if |y| == 0 then Delete else if |x| == 1 then Replace else Swap;
    longer := script + [e];
    assert longer[..|longer| - 1] == script;
    assert (before + x)[..|before|] == before && (before + y)[..|before|] == before;
    assert before + "" == before;
  }

  /** A single edit anywhere costs the restricted distance at most one. */
  lemma OneEditCosts(a: string, b: string)
    requires OneEdit(a, b)
    ensures Restricted(a, b) <= 1
  {
    var before, x, y, after :| EditAt(a, b, before, x, y, after);
    KeepsAlign([], "", "", before);
    assert [] + Keeps(|before|) == Keeps(|before|) && "" + before == before && Cost([]) == 0;
    var script := PieceAligns(Keeps(|before|), before, x, y);
    hide Aligns, Cost, Distance;
    KeepsAlign(script, before + x, before + y, after);
    assert a[..|a|] == a && b[..|b|] == b;
    NoCheaperAlignment(script + Keeps(|after|), a, b, |a|, |b|);
  }

  // ----- The unrestricted distance -----

  /** The restricted distance is the length of some chain. */
  lemma RestrictedReaches(a: string, b: string)
    ensures Reaches(a, b, Restricted(a, b))
  {
    hide Reaches, Aligns, Cost, Distance;
    var script := CheapestAlignment(a, b, |a|, |b|);
    assert a[..|a|] == a && b[..|b|] == b;
    AlignmentIsChain(script, a, b);
  }

  ghost function LeastFrom(a: string, b: string, n: nat, bound: nat): (least: nat)
    requires n <= bound && Reaches(a, b, bound) && forall m: nat | m < n :: !Reaches(a, b, m)
    ensures least <= bound && Reaches(a, b, least) && forall m: nat | m < least :: !Reaches(a, b, m)
    decreases bound - n
  {
    if Reaches(a, b, n) then n else LeastFrom(a, b, n + 1, bound)
  }

  /** The least number of edits that lead from a to b; never more than the restricted distance. */
  ghost function Unrestricted(a: string, b: string): (n: nat)
    ensures Reaches(a, b, n) && forall m: nat | m < n :: !Reaches(a, b, m)
    ensures n <= Restricted(a, b)
  {
    RestrictedReaches(a, b);
    LeastFrom(a, b, 0, Restricted(a, b))
  }

  /** It is a distance: edits add up. */
  lemma TriangleInequality(a: string, b: string, c: string)
    ensures Unrestricted(a, c) <= Unrestricted(a, b) + Unrestricted(b, c)
  {
    ReachesChains(a, b, c, Unrestricted(a, b), Unrestricted(b, c));
  }

  /** Up to one edit the two distances are the same. */
  lemma SmallDistancesAgree(a: string, b: string)
    ensures Unrestricted(a, b) <= 1 || Restricted(a, b) <= 1 ==> Unrestricted(a, b) == Restricted(a, b)
  {
    var n := Unrestricted(a, b);
    ZeroMeansEqual(a, b);
    hide Distance, OneEdit;
    if n == 1 {
      var c :| OneEdit(a, c) && Reaches(c, b, 0);
      OneEditCosts(a, b);
      assert !Reaches(a, b, 0);
    }
    if a != b { assert !Reaches(a, b, 0); }
  }

  // ----- The theorem -----

  /** What a distance is reported as when a bound is given. */
  function Bounded(distance: nat, bound: nat): nat {
    if distance <= bound then distance else bound + 1
  }

  ghost predicate AgreesAt(a: string, b: string, bound: nat) {
    Bounded(Restricted(a, b), bound) == Bounded(Unrestricted(a, b), bound)
  }

  /** CA to ABC: an exchange and an insertion between the exchanged letters. */
  lemma TwoEditsNotThree()
    ensures Unrestricted("CA", "ABC") == 2 && Restricted("CA", "ABC") == 3
  {
    hide *;
    RestrictedDistance();
    Edits();
    Start("CA");
    OneMore("CA", "CA", "AC", 0);
    OneMore("CA", "AC", "ABC", 1);
    SmallDistancesAgree("CA", "ABC");
    assert Restricted("CA", "ABC") == Distance("CA", "ABC", 2, 3) by { RestrictedIs(); }
    assert Unrestricted("CA", "ABC") <= 2;
  }

  lemma RestrictedIs()
    ensures Restricted("CA", "ABC") == Distance("CA", "ABC", 2, 3)
  {
    hide Distance;
  }

  lemma Start(a: string)
    ensures Reaches(a, a, 0)
  {
  }

  lemma Edits()
    ensures OneEdit("CA", "AC") && OneEdit("AC", "ABC")
  {
    assert EditAt("CA", "AC", "", "CA", "AC", "");
    assert EditAt("AC", "ABC", "A", "", "B", "C");
  }

  /** edit_distance with a bound reports the documented distance for all texts exactly when the bound is at most
      one. */
  lemma AgreesExactly(bound: nat)
    ensures (forall a, b :: AgreesAt(a, b, bound)) <==> bound <= 1
  {
    hide Unrestricted, Restricted;
    if bound <= 1 {
      forall a, b ensures AgreesAt(a, b, bound) { SmallDistancesAgree(a, b); }
    } else {
      TwoEditsNotThree();
      assert !AgreesAt("CA", "ABC", bound);
    }
  }
}
