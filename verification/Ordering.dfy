/** Orders that several modules use: the lesser of two numbers, and strings in the order std::string has. */
module Ordering {

  function Min(a: int, b: int): int {
    if a <= b then a else b
  }

  function Max(a: int, b: int): int {
    if a >= b then a else b
  }

  // ----- Strings -----

  /** operator< of std::string: byte by byte, a prefix first. */
  predicate Less(a: string, b: string) {
    b != "" && (a == "" || a[0] < b[0] || (a[0] == b[0] && Less(a[1..], b[1..])))
  }

  ghost predicate Ascending(texts: seq<string>) {
    forall i, j | 0 <= i < j < |texts| :: Less(texts[i], texts[j])
  }

  /** The strings of a set in ascending order. */
  ghost predicate Lists(texts: seq<string>, s: set<string>) {
    Ascending(texts) && forall p :: p in texts <==> p in s
  }

  lemma {:induction false} LessIsStrict(a: string, b: string)
    ensures Less(a, b) ==> a != b && !Less(b, a)
    ensures a != b ==> Less(a, b) || Less(b, a)
  {
    if a != "" && b != "" {
      LessIsStrict(a[1..], b[1..]);
      assert a == [a[0]] + a[1..] && b == [b[0]] + b[1..];
    }
  }

  lemma {:induction false} LessChains(a: string, b: string, c: string)
    requires Less(a, b) && Less(b, c)
    ensures Less(a, c)
  {
    if a != "" && a[0] == b[0] == c[0] { LessChains(a[1..], b[1..], c[1..]); }
  }

  /** A set has one ascending listing. */
  lemma {:induction false} ListingIsUnique(a: seq<string>, b: seq<string>, s: set<string>)
    requires Lists(a, s) && Lists(b, s)
    ensures a == b
  {
    assert b == [] || b[0] in b;
    if a != [] {
      assert a[0] in b;
      assert b != [] && b[0] in a;
      FirstIsLeast(a, b[0]);
      FirstIsLeast(b, a[0]);
      LessIsStrict(a[0], b[0]);
      RestLists(a, s);
      RestLists(b, s);
      ListingIsUnique(a[1..], b[1..], s - {a[0]});
      assert a == [a[0]] + a[1..] && b == [b[0]] + b[1..];
    }
  }

  lemma FirstIsLeast(a: seq<string>, p: string)
    requires Ascending(a) && p in a
    ensures a != [] && (p == a[0] || Less(a[0], p))
  {
  }

  lemma RestLists(a: seq<string>, s: set<string>)
    requires Lists(a, s) && a != []
    ensures Lists(a[1..], s - {a[0]})
  {
    assert a == [a[0]] + a[1..];
    forall p | p in a[1..] ensures p != a[0] {
      var i :| 0 <= i < |a[1..]| && a[1..][i] == p;
      assert Less(a[0], a[i + 1]);
      LessIsStrict(a[0], p);
    }
  }

  lemma InsertedAscends(sorted: seq<string>, p: string, i: nat)
    requires Ascending(sorted) && p !in sorted && i <= |sorted|
    requires forall j | 0 <= j < i :: Less(sorted[j], p)
    requires i < |sorted| ==> !Less(sorted[i], p)
    ensures Ascending(sorted[..i] + [p] + sorted[i..])
  {
    forall j | i <= j < |sorted| ensures Less(p, sorted[j]) {
      LessIsStrict(p, sorted[i]);
      if j > i { LessChains(p, sorted[i], sorted[j]); }
    }
  }

  /** The strings of a set in the order std::sort and std::map give them. */
  method SortStrings(texts: set<string>) returns (sorted: seq<string>)
    ensures Lists(sorted, texts)
  {
    sorted := [];
    var rest := texts;
    while rest != {}
      invariant rest <= texts && Lists(sorted, texts - rest)
      decreases rest
    {
      var p :| p in rest;
      sorted := InsertString(p, sorted);
      rest := rest - {p};
    }
  }

  method InsertString(p: string, sorted: seq<string>) returns (more: seq<string>)
    requires Ascending(sorted) && p !in sorted
    ensures Ascending(more) && forall q :: q in more <==> q == p || q in sorted
  {
    var i := 0;
    while i < |sorted| && Less(sorted[i], p)
      invariant i <= |sorted| && forall j | 0 <= j < i :: Less(sorted[j], p)
    {
      i := i + 1;
    }
    more := sorted[..i] + [p] + sorted[i..];
    InsertedAscends(sorted, p, i);
  }
}
