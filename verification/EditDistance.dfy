/**
 The bounded edit distance of the text kernel (desktop/src/core/text.cpp).

 An alignment is a list of edits that turns one text into the other without editing a character twice;
 the optimal-string-alignment distance is the least cost of one.  `Distance` is the dynamic-programming
 recurrence, proved to be that least cost, and `BoundedDistance` the source's loop over three rolling rows
 with its two early exits.
 */
module EditDistance {
  import opened Ordering

  // ----- Alignments -----

  /** One edit at the end of both texts; `Swap` exchanges two adjacent characters. */
  datatype Edit = Keep | Replace | Delete | Insert | Swap

  function Cost(script: seq<Edit>): nat {
    if script == [] then 0
    else Cost(script[..|script| - 1]) + if script[|script| - 1] == Keep then 0 else 1
  }

  /** True when `script`, read from its end, turns the text `a` into the text `b`. */
  predicate Aligns(script: seq<Edit>, a: string, b: string) {
    var n, m := |a|, |b|;
    if script == [] then n == 0 && m == 0
    else
      var rest := script[..|script| - 1];
      match script[|script| - 1]
      case Keep => n > 0 && m > 0 && a[n - 1] == b[m - 1] && Aligns(rest, a[..n - 1], b[..m - 1])
      case Replace => n > 0 && m > 0 && Aligns(rest, a[..n - 1], b[..m - 1])
      case Delete => n > 0 && Aligns(rest, a[..n - 1], b)
      case Insert => m > 0 && Aligns(rest, a, b[..m - 1])
      case Swap =>
        && n > 1 && m > 1 && a[n - 1] == b[m - 2] && a[n - 2] == b[m - 1]
        && Aligns(rest, a[..n - 2], b[..m - 2])
  }

  // ----- The recurrence -----

  predicate Swapped(a: string, b: string, i: nat, j: nat)
    requires i <= |a| && j <= |b|
  {
    i > 1 && j > 1 && a[i - 1] == b[j - 2] && a[i - 2] == b[j - 1]
  }

  /** One entry of the table from its neighbours: above, left, diagonal, and two back for a swap. */
  function Entry(up: nat, left: nat, diagonal: nat, cost: nat, swapped: bool, twoBack: nat): nat {
    var v := Min(Min(up + 1, left + 1), diagonal + cost);
    if swapped then Min(v, twoBack + 1) else v
  }

  /** The distance between the first `i` characters of `a` and the first `j` of `b`. */
  function Distance(a: string, b: string, i: nat, j: nat): nat
    requires i <= |a| && j <= |b|
    decreases i + j
  {
    if i == 0 then j
    else if j == 0 then i
    else Entry(Distance(a, b, i - 1, j), Distance(a, b, i, j - 1), Distance(a, b, i - 1, j - 1),
               if a[i - 1] == b[j - 1] then 0 else 1,
               Swapped(a, b, i, j), if Swapped(a, b, i, j) then Distance(a, b, i - 2, j - 2) else 0)
  }

  lemma Recurrence(a: string, b: string, i: nat, j: nat)
    requires 0 < i <= |a| && 0 < j <= |b|
    ensures Distance(a, b, i, j) ==
            Entry(Distance(a, b, i - 1, j), Distance(a, b, i, j - 1), Distance(a, b, i - 1, j - 1),
                  if a[i - 1] == b[j - 1] then 0 else 1,
                  Swapped(a, b, i, j), if Swapped(a, b, i, j) then Distance(a, b, i - 2, j - 2) else 0)
  {
  }

  lemma Border(a: string, b: string, i: nat, j: nat)
    requires i <= |a| && j <= |b|
    ensures Distance(a, b, 0, j) == j && Distance(a, b, i, 0) == i
  {
  }

  /** An entry is at most one edit more than each of its neighbours. */
  lemma EntryBounds(a: string, b: string, i: nat, j: nat)
    requires i <= |a| && j <= |b|
    ensures i > 0 ==> Distance(a, b, i, j) <= Distance(a, b, i - 1, j) + 1
    ensures j > 0 ==> Distance(a, b, i, j) <= Distance(a, b, i, j - 1) + 1
    ensures i > 0 && j > 0 ==>
              Distance(a, b, i, j) <= Distance(a, b, i - 1, j - 1) + if a[i - 1] == b[j - 1] then 0 else 1
    ensures Swapped(a, b, i, j) ==> Distance(a, b, i, j) <= Distance(a, b, i - 2, j - 2) + 1
  {
    hide Distance;
    Border(a, b, i, j);
    if i > 0 { Border(a, b, i - 1, j); }
    if j > 0 { Border(a, b, i, j - 1); }
    if i > 0 && j > 0 { Recurrence(a, b, i, j); }
  }

  /** No alignment is cheaper than the recurrence says. */
  lemma {:induction false} NoCheaperAlignment(script: seq<Edit>, a: string, b: string, i: nat, j: nat)
    requires i <= |a| && j <= |b| && Aligns(script, a[..i], b[..j])
    ensures Distance(a, b, i, j) <= Cost(script)
    decreases script
  {
    hide Distance;
    EntryBounds(a, b, i, j);
    if script == [] {
      Border(a, b, i, j);
    } else {
      var rest := script[..|script| - 1];
      match script[|script| - 1]
      case Keep =>
        Shorter(a, i, 1); Shorter(b, j, 1);
        NoCheaperAlignment(rest, a, b, i - 1, j - 1);
      case Replace =>
        Shorter(a, i, 1); Shorter(b, j, 1);
        NoCheaperAlignment(rest, a, b, i - 1, j - 1);
      case Delete =>
        Shorter(a, i, 1);
        NoCheaperAlignment(rest, a, b, i - 1, j);
      case Insert =>
        Shorter(b, j, 1);
        NoCheaperAlignment(rest, a, b, i, j - 1);
      case Swap =>
        Shorter(a, i, 2); Shorter(b, j, 2);
        NoCheaperAlignment(rest, a, b, i - 2, j - 2);
    }
  }

  lemma Shorter(a: string, i: nat, k: nat)
    requires k <= i <= |a|
    ensures a[..i][..i - k] == a[..i - k]
  {
  }

  /** Some alignment costs exactly what the recurrence says. */
  lemma {:induction false} CheapestAlignment(a: string, b: string, i: nat, j: nat) returns (script: seq<Edit>)
    requires i <= |a| && j <= |b|
    ensures Aligns(script, a[..i], b[..j]) && Cost(script) == Distance(a, b, i, j)
    decreases i + j
  {
    if i == 0 && j == 0 {
      script := [];
    } else {
      hide Distance, Aligns, Cost, Entry;
      var x, y, e := Choose(a, b, i, j);
      script := CheapestAlignment(a, b, i - x, j - y);
      script := Extend(a, b, i, j, x, y, script, e);
    }
  }

  /** What an edit may do at the end of the two prefixes. */
  predicate Fits(a: string, b: string, i: nat, j: nat, x: nat, y: nat, e: Edit)
    requires i <= |a| && j <= |b|
  {
    && x <= i && y <= j && x + y > 0
    && match e
       case Keep => x == 1 && y == 1 && a[i - 1] == b[j - 1]
       case Replace => x == 1 && y == 1
       case Delete => x == 1 && y == 0
       case Insert => x == 0 && y == 1
       case Swap => x == 2 && y == 2 && Swapped(a, b, i, j)
  }

  /** The last edit of a cheapest alignment. */
  lemma Choose(a: string, b: string, i: nat, j: nat) returns (x: nat, y: nat, e: Edit)
    requires i <= |a| && j <= |b| && i + j > 0
    ensures Fits(a, b, i, j, x, y, e)
    ensures Distance(a, b, i, j) == Distance(a, b, i - x, j - y) + if e == Keep then 0 else 1
  {
    hide Distance;
    Border(a, b, i, j);
    if i == 0 {
      Border(a, b, i, j - 1);
      x, y, e := 0, 1, Insert;
    } else if j == 0 {
      Border(a, b, i - 1, j);
      x, y, e := 1, 0, Delete;
    } else {
      Recurrence(a, b, i, j);
      if Distance(a, b, i, j) == Distance(a, b, i, j - 1) + 1 {
        x, y, e := 0, 1, Insert;
      } else if Distance(a, b, i, j) == Distance(a, b, i - 1, j) + 1 {
        x, y, e := 1, 0, Delete;
      } else if Swapped(a, b, i, j) && Distance(a, b, i, j) == Distance(a, b, i - 2, j - 2) + 1 {
        x, y, e := 2, 2, Swap;
      } else {
        x, y, e := 1, 1, if a[i - 1] == b[j - 1] then Keep else Replace;
      }
    }
  }

  /** Adding one edit that uses up `x` characters of `a` and `y` of `b`. */
  lemma Extend(a: string, b: string, i: nat, j: nat, x: nat, y: nat, script: seq<Edit>, e: Edit)
    returns (longer: seq<Edit>)
    requires i <= |a| && j <= |b| && Fits(a, b, i, j, x, y, e) && Aligns(script, a[..i - x], b[..j - y])
    ensures Aligns(longer, a[..i], b[..j])
    ensures Cost(longer) == Cost(script) + if e == Keep then 0 else 1
  {
    longer := script + [e];
    assert longer[..|longer| - 1] == script;
    Shorter(a, i, x);
    Shorter(b, j, y);
  }

  // ----- Why the early exits are sound -----

  /** The distance is at least the difference in length: the first early exit. */
  lemma {:induction false} LengthBound(a: string, b: string, i: nat, j: nat)
    requires i <= |a| && j <= |b|
    ensures Distance(a, b, i, j) >= i - j && Distance(a, b, i, j) >= j - i
    decreases i + j
  {
    hide Distance;
    Border(a, b, i, j);
    if i > 0 && j > 0 {
      Recurrence(a, b, i, j);
      LengthBound(a, b, i - 1, j);
      LengthBound(a, b, i, j - 1);
      LengthBound(a, b, i - 1, j - 1);
      if Swapped(a, b, i, j) { LengthBound(a, b, i - 2, j - 2); }
    }
  }

  ghost predicate RowExceeds(a: string, b: string, i: nat, k: nat)
    requires i <= |a|
  {
    forall j | 0 <= j <= |b| :: Distance(a, b, i, j) > k
  }

  /** A row above the bound forces the next row above it.  The transposition reads the row before, but
      replacing the two characters one by one costs no less than passing through this row. */
  lemma NextRowExceeds(a: string, b: string, i: nat, k: nat)
    requires i < |a| && RowExceeds(a, b, i, k)
    ensures RowExceeds(a, b, i + 1, k)
  {
    var next := i + 1;
    forall j | 0 <= j <= |b| ensures Distance(a, b, next, j) > k {
      NextEntryExceeds(a, b, i, k, j);
    }
  }

  lemma {:induction false} NextEntryExceeds(a: string, b: string, i: nat, k: nat, j: nat)
    requires i < |a| && j <= |b| && RowExceeds(a, b, i, k)
    ensures Distance(a, b, i + 1, j) > k
    decreases j
  {
    hide Distance;
    assert Distance(a, b, i, 0) > k;
    Border(a, b, i, j);
    Border(a, b, i + 1, j);
    if j > 0 {
      Recurrence(a, b, i + 1, j);
      NextEntryExceeds(a, b, i, k, j - 1);
      assert Distance(a, b, i, j) > k && Distance(a, b, i, j - 1) > k;
      if Swapped(a, b, i + 1, j) {
        Recurrence(a, b, i, j - 1);
        assert Distance(a, b, i, j - 1) <= Distance(a, b, i - 1, j - 2) + 1;
      }
    }
  }

  /** The second early exit: once a whole row exceeds the bound, so does the distance. */
  lemma {:induction false} LastRowExceeds(a: string, b: string, i: nat, k: nat)
    requires i <= |a| && RowExceeds(a, b, i, k)
    ensures Distance(a, b, |a|, |b|) > k
    decreases |a| - i
  {
    if i < |a| {
      NextRowExceeds(a, b, i, k);
      LastRowExceeds(a, b, i + 1, k);
    }
  }

  // ----- The source's loop -----

  ghost predicate IsRow(row: array<nat>, a: string, b: string, i: nat)
    requires i <= |a|
    reads row
  {
    row.Length == |b| + 1 && forall j | 0 <= j <= |b| :: row[j] == Distance(a, b, i, j)
  }

  lemma LastEntry(row: array<nat>, a: string, b: string, i: nat)
    requires i <= |a| && IsRow(row, a, b, i)
    ensures row.Length == |b| + 1 && row[|b|] == Distance(a, b, i, |b|)
  {
  }

  /** edit_distance. */
  method BoundedDistance(a: string, b: string, maxDistance: nat) returns (d: nat)
    ensures var exact := Distance(a, b, |a|, |b|);
            d == if exact <= maxDistance then exact else maxDistance + 1
  {
    var n, m := |a|, |b|;
    LengthBound(a, b, n, m);
    if n > m + maxDistance || m > n + maxDistance { return maxDistance + 1; }
    if n == 0 { return m; }
    if m == 0 { return n; }
    d := FillTable(a, b, maxDistance);
  }

  /** The loop over the rows. */
  method FillTable(a: string, b: string, maxDistance: nat) returns (d: nat)
    ensures var exact := Distance(a, b, |a|, |b|);
            d == if exact <= maxDistance then exact else maxDistance + 1
  {
    var n, m := |a|, |b|;
    var prev2, prev, cur := new nat[m + 1], new nat[m + 1], new nat[m + 1];
    for j := 0 to m + 1
      invariant forall k | 0 <= k < j :: prev[k] == k
    {
      prev[j] := j;
    }
    assert IsRow(prev, a, b, 0);
    hide Distance, IsRow, SameEntries;
    for i := 1 to n + 1
      invariant IsRow(prev, a, b, i - 1)
      invariant i > 1 ==> IsRow(prev2, a, b, i - 2)
    {
      var rowMin := FillRow(a, b, i, prev2, prev, cur);
      if rowMin > maxDistance {
        LastRowExceeds(a, b, i, maxDistance);
        return maxDistance + 1;
      }
      Copy(prev, prev2);
      CopiedRow(prev, prev2, a, b, i - 1);
      Copy(cur, prev);
      CopiedRow(cur, prev, a, b, i);
    }
    assert prev[m] == Distance(a, b, n, m) by { LastEntry(prev, a, b, n); }
    return if prev[m] > maxDistance then maxDistance + 1 else prev[m];
  }

  /** The inner loop: fills row `i` from the two rows before it and returns its least entry. */
  method FillRow(a: string, b: string, i: nat, prev2: array<nat>, prev: array<nat>, cur: array<nat>)
    returns (rowMin: nat)
    requires 1 <= i <= |a| && cur != prev && cur != prev2 && cur.Length == |b| + 1
    requires IsRow(prev, a, b, i - 1)
    requires prev2.Length == |b| + 1 && (i > 1 ==> IsRow(prev2, a, b, i - 2))
    modifies cur
    ensures IsRow(cur, a, b, i)
    ensures exists j :: 0 <= j <= |b| && rowMin == Distance(a, b, i, j)
    ensures forall j | 0 <= j <= |b| :: rowMin <= Distance(a, b, i, j)
  {
    hide Distance;
    Border(a, b, i, 0);
    cur[0] := i;
    rowMin := cur[0];
    ghost var least := 0;
    for j := 1 to |b| + 1
      invariant forall k | 0 <= k < j :: cur[k] == Distance(a, b, i, k)
      invariant 0 <= least < j && rowMin == Distance(a, b, i, least)
      invariant forall k | 0 <= k < j :: rowMin <= Distance(a, b, i, k)
    {
      var v := NextEntry(a, b, i, j, prev2, prev, cur);
      cur[j] := v;
      if v < rowMin { least := j; }
      rowMin := Min(rowMin, v);
    }
  }

  /** The innermost step: one entry from its neighbours. */
  method NextEntry(a: string, b: string, i: nat, j: nat, prev2: array<nat>, prev: array<nat>, cur: array<nat>)
    returns (v: nat)
    requires 1 <= i <= |a| && 1 <= j <= |b| && IsRow(prev, a, b, i - 1)
    requires prev2.Length == |b| + 1 && (i > 1 ==> IsRow(prev2, a, b, i - 2))
    requires cur.Length == |b| + 1 && cur[j - 1] == Distance(a, b, i, j - 1)
    ensures v == Distance(a, b, i, j)
  {
    hide Distance;
    var cost := if a[i - 1] == b[j - 1] then 0 else 1;
    v := Min(Min(prev[j] + 1, cur[j - 1] + 1), prev[j - 1] + cost);
    if i > 1 && j > 1 && a[i - 1] == b[j - 2] && a[i - 2] == b[j - 1] {
      v := Min(v, prev2[j - 2] + 1);
    }
    Recurrence(a, b, i, j);
  }

  ghost predicate SameEntries(from: array<nat>, to: array<nat>)
    reads from, to
  {
    from.Length == to.Length && forall k | 0 <= k < from.Length :: to[k] == from[k]
  }

  /** A copy of a row is that row. */
  lemma CopiedRow(from: array<nat>, to: array<nat>, a: string, b: string, i: nat)
    requires i <= |a| && IsRow(from, a, b, i) && SameEntries(from, to)
    ensures IsRow(to, a, b, i)
  {
    hide Distance;
  }

  method Copy(from: array<nat>, to: array<nat>)
    requires from != to && from.Length == to.Length
    modifies to
    ensures SameEntries(from, to)
  {
    for j := 0 to from.Length
      invariant forall k | 0 <= k < j :: to[k] == from[k]
    {
      to[j] := from[j];
    }
  }

  // ----- What kind of distance it is -----

  /** Only equal texts are at distance zero. */
  lemma ZeroMeansEqual(a: string, b: string)
    ensures Distance(a, b, |a|, |b|) == 0 <==> a == b
  {
    assert a[..|a|] == a && b[..|b|] == b;
    ZeroMeansEqualPrefixes(a, b, |a|, |b|);
  }

  lemma {:induction false} ZeroMeansEqualPrefixes(a: string, b: string, i: nat, j: nat)
    requires i <= |a| && j <= |b|
    ensures Distance(a, b, i, j) == 0 <==> a[..i] == b[..j]
    decreases i + j
  {
    hide Distance;
    Border(a, b, i, j);
    if i > 0 && j > 0 {
      Recurrence(a, b, i, j);
      ZeroMeansEqualPrefixes(a, b, i - 1, j - 1);
      assert a[..i] == a[..i - 1] + [a[i - 1]] && b[..j] == b[..j - 1] + [b[j - 1]];
    }
  }

  lemma {:induction false} Symmetric(a: string, b: string, i: nat, j: nat)
    requires i <= |a| && j <= |b|
    ensures Distance(a, b, i, j) == Distance(b, a, j, i)
    decreases i + j
  {
    hide Distance;
    Border(a, b, i, j);
    Border(b, a, j, i);
    if i > 0 && j > 0 {
      Symmetric(a, b, i - 1, j);
      Symmetric(a, b, i, j - 1);
      Symmetric(a, b, i - 1, j - 1);
      if Swapped(a, b, i, j) { Symmetric(a, b, i - 2, j - 2); }
      Recurrence(a, b, i, j);
      Recurrence(b, a, j, i);
    }
  }

  /** It is the restricted distance: a swapped pair cannot be edited again, so CA to ABC costs three
      although CA to AC and AC to ABC cost one each. */
  lemma RestrictedDistance()
    ensures Distance("CA", "AC", 2, 2) == 1
    ensures Distance("AC", "ABC", 2, 3) == 1
    ensures Distance("CA", "ABC", 2, 3) == 3
  {
    hide Distance;
    Cells("CA", "AC");
    Cells("AC", "ABC");
    Recurrence("AC", "ABC", 1, 3);
    Recurrence("AC", "ABC", 2, 3);
    Cells("CA", "ABC");
    Recurrence("CA", "ABC", 1, 3);
    Recurrence("CA", "ABC", 2, 3);
  }

  lemma Cells(a: string, b: string)
    requires |a| == 2 && 2 <= |b| <= 3
    ensures Distance(a, b, 0, 0) == 0 && Distance(a, b, 0, 1) == 1 && Distance(a, b, 0, 2) == 2
    ensures Distance(a, b, 1, 0) == 1 && Distance(a, b, 2, 0) == 2 && (|b| == 3 ==> Distance(a, b, 0, 3) == 3)
    ensures Distance(a, b, 1, 1) == if a[0] == b[0] then 0 else 1
    ensures Distance(a, b, 1, 2) == if a[0] == b[0] || a[0] == b[1] then 1 else 2
    ensures Distance(a, b, 2, 1) == if a[0] == b[0] || a[1] == b[0] then 1 else 2
    ensures Distance(a, b, 2, 2) ==
            if a[..2] == b[..2] then 0
            else if a[0] == b[0] || a[1] == b[1] || (a[0] == b[1] && a[1] == b[0]) then 1
            else 2
  {
    hide Distance;
    Border(a, b, 1, 1); Border(a, b, 2, 2); Border(a, b, 0, |b|);
    Recurrence(a, b, 1, 1); Recurrence(a, b, 1, 2);
    Recurrence(a, b, 2, 1); Recurrence(a, b, 2, 2);
    assert a[..2] == [a[0], a[1]] && b[..2] == [b[0], b[1]];
  }
}
