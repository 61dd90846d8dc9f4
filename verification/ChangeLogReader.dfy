/**
 A reader of the change log among its writers: it asks for a page, other threads go on, it asks for the next page
 from the last clock it was given (desktop/src/library/database.cpp: get_change_log_since;
 desktop/src/library/change_log.cpp: record).
 */
module ChangeLogReader {
  import opened Wrappers
  import opened ChangeLog

  // ----- One page -----

  /** Where a reader goes on after a page. */
  function LastOf(page: seq<Entry>, since: int): int {
    if page == [] then since else page[|page| - 1].clock
  }

  /** After these steps the page is still the beginning of what is later than `since`, and what the reader has yet
      to see is what is later than its end. */
  ghost predicate PageStands(s: State, since: int, page: seq<Entry>, steps: seq<Step>) {
    Run(s, steps).Some? ==>
      Later(Run(s, steps).value.log, since) == page + Later(Run(s, steps).value.log, LastOf(page, since))
  }

  /** No thread holds a clock that the reader is about to leave behind. */
  ghost predicate NonePendingBetween(s: State, since: int, last: int) {
    forall t | t in s.pending :: !(since < s.pending[t].clock <= last)
  }

  ghost predicate NoneBetween(s: State, since: int, last: int, from: nat) {
    && last <= s.clock
    && NonePendingBetween(s, since, last)
    && (forall i | from <= i < |s.log| :: !(since < s.log[i].clock <= last))
  }

  lemma StepKeepsNone(s: State, step: Step, since: int, last: int, from: nat)
    requires NoneBetween(s, since, last, from) && Apply(s, step).Some?
    ensures NoneBetween(Apply(s, step).value, since, last, from)
  {
  }

  lemma {:induction false} RunKeepsNone(s: State, steps: seq<Step>, since: int, last: int, from: nat)
    requires NoneBetween(s, since, last, from) && Run(s, steps).Some?
    ensures NoneBetween(Run(s, steps).value, since, last, from)
    decreases steps
  {
    hide NoneBetween;
    if steps != [] {
      StepKeepsNone(s, steps[0], since, last, from);
      RunKeepsNone(Apply(s, steps[0]).value, steps[1..], since, last, from);
    }
  }

  lemma {:induction false} RunOfConcat(s: State, a: seq<Step>, b: seq<Step>)
    ensures Run(s, a + b) == match Run(s, a) case None => None case Some(mid) => Run(mid, b)
    decreases a
  {
    if a == [] {
      assert a + b == b;
    } else {
      assert (a + b)[1..] == a[1..] + b;
      if Apply(s, a[0]).Some? { RunOfConcat(Apply(s, a[0]).value, a[1..], b); }
    }
  }

  lemma ReachableOn(base: State, s: State, steps: seq<Step>)
    requires Reachable(base, s) && Run(s, steps).Some?
    ensures Reachable(base, Run(s, steps).value)
  {
    var before :| Run(base, before) == Some(s);
    RunOfConcat(base, before, steps);
  }

  // ----- Strictly sorted lists -----

  lemma {:induction false} SortedIsUnique(a: seq<Entry>, b: seq<Entry>)
    requires StrictlySorted(a) && StrictlySorted(b) && multiset(a) == multiset(b)
    ensures a == b
    decreases a
  {
    assert |multiset(a)| == |a| && |multiset(b)| == |b|;
    if a != [] {
      assert a[0] in multiset(b) && b[0] in multiset(a);
      FirstIsLowest(a, b[0]);
      FirstIsLowest(b, a[0]);
      RestOf(a);
      RestOf(b);
      hide StrictlySorted;
      SortedIsUnique(a[1..], b[1..]);
    }
  }

  lemma RestOf(a: seq<Entry>)
    requires a != [] && StrictlySorted(a)
    ensures a == [a[0]] + a[1..] && multiset(a[1..]) == multiset(a) - multiset{a[0]} && StrictlySorted(a[1..])
  {
    assert a == [a[0]] + a[1..];
    assert multiset(a) == multiset{a[0]} + multiset(a[1..]);
  }

  lemma FirstIsLowest(a: seq<Entry>, e: Entry)
    requires StrictlySorted(a) && e in multiset(a)
    ensures a != [] && (e == a[0] || a[0].clock < e.clock)
  {
    var i :| 0 <= i < |a| && a[i] == e;
  }

  /** How many entries of a sorted list have clocks up to `last`: the others are what is above it. */
  lemma {:induction false} SortedSplits(a: seq<Entry>, last: int) returns (k: nat)
    requires StrictlySorted(a)
    ensures k <= |a| && Above(a, last) == a[k..] && forall i | 0 <= i < k :: a[i].clock <= last
    decreases a
  {
    if a == [] || a[0].clock > last {
      k := 0;
      AllAboveStay(a, last);
    } else {
      RestIsSorted(a);
      hide StrictlySorted;
      k := SortedSplits(a[1..], last);
      k := k + 1;
      assert [] + Above(a[1..], last) == Above(a[1..], last);
      assert a[1..][k - 1..] == a[k..];
      assert forall i | 1 <= i < k :: a[i] == a[1..][i - 1];
    }
  }

  lemma AllAboveStay(a: seq<Entry>, last: int)
    requires StrictlySorted(a) && (a != [] ==> a[0].clock > last)
    ensures Above(a, last) == a
  {
    AboveNoLonger(a, last);
    hide Above;
    assert forall i | 0 < i < |a| :: a[0].clock < a[i].clock;
  }

  lemma RestIsSorted(a: seq<Entry>)
    requires StrictlySorted(a) && a != []
    ensures StrictlySorted(a[1..])
  {
  }

  lemma PrefixIsSorted(a: seq<Entry>, k: nat)
    requires StrictlySorted(a) && k <= |a|
    ensures StrictlySorted(a[..k])
  {
  }

  // ----- When a page stands -----

  /** A page of a list sorted by different clocks holds exactly the entries up to its last clock. */
  lemma PageMeaning(log: seq<Entry>, since: int, limit: int)
    requires Page(log, since, limit) != [] && StrictlySorted(Later(log, since))
    ensures var page := Page(log, since, limit);
      && StrictlySorted(page) && LastOf(page, since) > since
      && forall e: Entry :: multiset(page)[e] ==
           if since < e.clock <= LastOf(page, since) then multiset(log)[e] else 0
  {
    LaterMeaning(log, since);
    AboveFilters(Sort(log), since);
    hide Above, Sort;
    var later, page := Later(log, since), Page(log, since, limit);
    hide Later;
    assert page == later[..|page|];
    hide Page;
    BeginningMeaning(later, page, |page|, since);
  }

  lemma BeginningMeaning(later: seq<Entry>, page: seq<Entry>, n: nat, since: int)
    requires StrictlySorted(later) && 0 < n <= |later| && page == later[..n]
    requires forall i | 0 <= i < |later| :: later[i].clock > since
    ensures StrictlySorted(page) && LastOf(page, since) > since
    ensures forall e: Entry ::
              multiset(page)[e] == if since < e.clock <= LastOf(page, since) then multiset(later)[e] else 0
  {
    PrefixIsSorted(later, n);
    EndsSeparate(later, page, later[n..], since);
    hide StrictlySorted;
    assert later == page + later[n..];
    forall e: Entry ensures
        multiset(page)[e] == if since < e.clock <= LastOf(page, since) then multiset(later)[e] else 0 {
      SplitCount(page, later[n..], since, LastOf(page, since), e);
    }
  }

  lemma EndsSeparate(later: seq<Entry>, page: seq<Entry>, rest: seq<Entry>, since: int)
    requires later == page + rest && StrictlySorted(later) && page != []
    requires forall i | 0 <= i < |later| :: later[i].clock > since
    ensures forall i | 0 <= i < |page| :: since < page[i].clock <= LastOf(page, since)
    ensures forall i | 0 <= i < |rest| :: rest[i].clock > LastOf(page, since)
    ensures LastOf(page, since) > since
  {
    assert page[|page| - 1] == later[|page| - 1];
    forall i | 0 <= i < |page| ensures since < page[i].clock <= LastOf(page, since) {
      assert page[i] == later[i];
    }
    forall i | 0 <= i < |rest| ensures rest[i].clock > LastOf(page, since) {
      assert rest[i] == later[|page| + i];
    }
  }

  lemma SplitCount(low: seq<Entry>, high: seq<Entry>, since: int, last: int, e: Entry)
    requires forall i | 0 <= i < |low| :: since < low[i].clock <= last
    requires forall i | 0 <= i < |high| :: high[i].clock > last
    ensures multiset(low)[e] == if since < e.clock <= last then multiset(low + high)[e] else 0
  {
    if since < e.clock <= last { assert e !in high; } else { assert e !in low; }
  }

  lemma PageEndsAtIssued(base: State, s: State, since: int, limit: int)
    requires Inv(base, s) && MaxClock(base.log) <= since && Page(s.log, since, limit) != []
    ensures LastOf(Page(s.log, since, limit), since) <= s.clock
  {
    hide Later, Inv, MaxClock;
    var page := Page(s.log, since, limit);
    var k := |page| - 1;
    assert page[k] == Later(s.log, since)[k];
    InLater(s.log, since, k);
    ClockIsKnown(base, s, page[k]);
  }

  lemma InLater(log: seq<Entry>, since: int, k: nat)
    requires k < |Later(log, since)|
    ensures Later(log, since)[k] in log && Later(log, since)[k].clock > since
  {
    LaterMeaning(log, since);
    LaterIsAbove(log, since);
    hide Later;
    var e := Later(log, since)[k];
    assert multiset(Later(log, since))[e] > 0;
    assert multiset(log)[e] > 0;
  }

  lemma ClockIsKnown(base: State, s: State, e: Entry)
    requires Inv(base, s) && e in s.log && e.clock > MaxClock(base.log)
    ensures e.clock <= s.clock
  {
    hide Ascending, DistinctFrom, PendingInv, SyncInv;
    var i :| 0 <= i < |s.log| && s.log[i] == e;
    assert i >= |base.log|;
    assert s.log[i].clock in s.issued;
  }

  lemma LaterIsStrict(base: State, s: State, since: int)
    requires Inv(base, s) && MaxClock(base.log) <= since
    ensures StrictlySorted(Later(s.log, since))
  {
    AppendedDiffer(base, s);
    hide Inv, Later;
    DistinctIsStrict(s.log, since);
  }

  lemma PageStandsWhen(base: State, s: State, since: int, limit: int, steps: seq<Step>)
    requires Reachable(base, s) && MaxClock(base.log) <= since && Page(s.log, since, limit) != []
    requires NonePendingBetween(s, since, LastOf(Page(s.log, since, limit), since))
    ensures PageStands(s, since, Page(s.log, since, limit), steps)
  {
    hide *;
    if Run(s, steps).Some? {
      var later, page := Run(s, steps).value, Page(s.log, since, limit);
      var last := LastOf(page, since);
      ReachableInv(base, s);
      ReachableOn(base, s, steps);
      ReachableInv(base, later);
      LaterIsStrict(base, s, since);
      LaterIsStrict(base, later, since);
      PageEndsAtIssued(base, s, since, limit);
      PageMeaning(s.log, since, limit);
      var appended := AppendedBetween(s, steps, since, last);
      PageIsLow(s.log, appended, later.log, since, last, page);
    }
    StandsIs(s, since, Page(s.log, since, limit), steps);
  }

  lemma StandsIs(s: State, since: int, page: seq<Entry>, steps: seq<Step>)
    ensures PageStands(s, since, page, steps) <==>
            (Run(s, steps).Some? ==>
               Later(Run(s, steps).value.log, since) == page + Later(Run(s, steps).value.log, LastOf(page, since)))
  {
  }

  /** What a run appends has no clock between the two. */
  lemma AppendedBetween(s: State, steps: seq<Step>, since: int, last: int) returns (appended: seq<Entry>)
    requires Run(s, steps).Some? && last <= s.clock && NonePendingBetween(s, since, last)
    ensures Run(s, steps).value.log == s.log + appended
    ensures forall i | 0 <= i < |appended| :: !(since < appended[i].clock <= last)
  {
    var later := Run(s, steps).value;
    RunRises(s, s, steps);
    RunKeepsNone(s, steps, since, last, |s.log|);
    hide Run;
    appended := later.log[|s.log|..];
    assert forall i | 0 <= i < |appended| :: appended[i] == later.log[|s.log| + i];
  }

  lemma PageIsLow(before: seq<Entry>, appended: seq<Entry>, log: seq<Entry>, since: int, last: int, page: seq<Entry>)
    requires log == before + appended && since < last
    requires forall i | 0 <= i < |appended| :: !(since < appended[i].clock <= last)
    requires StrictlySorted(page) && StrictlySorted(Later(log, since))
    requires forall e: Entry :: multiset(page)[e] == if since < e.clock <= last then multiset(before)[e] else 0
    ensures Later(log, since) == page + Later(log, last)
  {
    hide Later, StrictlySorted;
    var low := LaterSplits(log, since, last);
    forall e: Entry ensures multiset(low)[e] == multiset(page)[e] {
      if since < e.clock <= last { assert e !in appended; }
    }
    SortedIsUnique(low, page);
  }

  /** What is later than `since`, up to a clock and above it. */
  lemma LaterSplits(log: seq<Entry>, since: int, last: int) returns (low: seq<Entry>)
    requires since <= last && StrictlySorted(Later(log, since))
    ensures Later(log, since) == low + Later(log, last) && StrictlySorted(low)
    ensures forall e: Entry :: multiset(low)[e] == if since < e.clock <= last then multiset(log)[e] else 0
  {
    hide *;
    low := LaterCut(log, since, last);
    LaterIsAbove(log, last);
    LaterIsAbove(log, since);
    LaterMeaning(log, since);
    LowMeaning(log, low, Later(log, last), Later(log, since), since, last);
  }

  lemma LowMeaning(log: seq<Entry>, low: seq<Entry>, high: seq<Entry>, all: seq<Entry>, since: int, last: int)
    requires all == low + high
    requires forall i | 0 <= i < |low| :: low[i].clock <= last
    requires forall i | 0 <= i < |high| :: high[i].clock > last
    requires forall i | 0 <= i < |all| :: all[i].clock > since
    requires forall e: Entry :: multiset(all)[e] == if e.clock > since then multiset(log)[e] else 0
    ensures forall e: Entry :: multiset(low)[e] == if since < e.clock <= last then multiset(log)[e] else 0
  {
    assert forall i | 0 <= i < |low| :: low[i] == all[i];
    forall e: Entry ensures multiset(low)[e] == if since < e.clock <= last then multiset(log)[e] else 0 {
      SplitCount(low, high, since, last, e);
    }
  }

  lemma LaterCut(log: seq<Entry>, since: int, last: int) returns (low: seq<Entry>)
    requires since <= last && StrictlySorted(Later(log, since))
    ensures Later(log, since) == low + Later(log, last) && StrictlySorted(low)
    ensures forall i | 0 <= i < |low| :: low[i].clock <= last
  {
    var all := Later(log, since);
    var k := SortedSplits(all, last);
    PrefixIsSorted(all, k);
    AboveAbove(Sort(log), since, last);
    hide StrictlySorted, Above, Sort;
    low := all[..k];
    assert all == low + all[k..];
  }

  lemma LaterIsAbove(log: seq<Entry>, since: int)
    ensures forall i | 0 <= i < |Later(log, since)| :: Later(log, since)[i].clock > since
  {
    AboveFilters(Sort(log), since);
    hide Above, Sort;
  }

  /** A page stands for every run that may follow exactly when no thread holds a clock that the reader leaves
      behind. */
  lemma PageStandsExactly(base: State, s: State, since: int, limit: int)
    requires Reachable(base, s) && MaxClock(base.log) <= since && Page(s.log, since, limit) != []
    ensures (forall steps :: PageStands(s, since, Page(s.log, since, limit), steps)) <==>
            NonePendingBetween(s, since, LastOf(Page(s.log, since, limit), since))
  {
    var page := Page(s.log, since, limit);
    var last := LastOf(page, since);
    if NonePendingBetween(s, since, last) {
      forall steps ensures PageStands(s, since, page, steps) {
        PageStandsWhen(base, s, since, limit, steps);
      }
    } else {
      var t :| t in s.pending && since < s.pending[t].clock <= last;
      OneStep(s, Append(t, true));
      ReachableInv(base, s);
      LaterIsStrict(base, s, since);
      PageMeaning(s.log, since, limit);
      hide Page, Later, Inv, Reachable;
      LateIsMissed(s.log, s.pending[t], since, page, last);
      assert !PageStands(s, since, page, [Append(t, true)]);
    }
  }

  lemma LateIsMissed(log: seq<Entry>, late: Entry, since: int, page: seq<Entry>, last: int)
    requires since < late.clock <= last && multiset(page)[late] == multiset(log)[late]
    ensures Later(log + [late], since) != page + Later(log + [late], last)
  {
    LaterMeaning(log + [late], since);
    LaterMeaning(log + [late], last);
    hide Later;
    assert multiset(Later(log + [late], since))[late] == multiset(log)[late] + 1;
    assert multiset(page + Later(log + [late], last))[late] == multiset(log)[late];
  }

  // ----- A whole reading -----

  /** One round: a page of at most so many entries, and what other threads do before the next one. */
  datatype Round = Round(limit: int, steps: seq<Step>)

  function AllSteps(rounds: seq<Round>): seq<Step> {
    if rounds == [] then [] else rounds[0].steps + AllSteps(rounds[1..])
  }

  /** The pages, one after the other, and the position after the last. */
  ghost function Reading(s: State, since: int, rounds: seq<Round>): (seq<Entry>, int)
    decreases rounds
  {
    if rounds == [] || Run(s, rounds[0].steps).None? then ([], since)
    else
      var page := Page(s.log, since, rounds[0].limit);
      var more := Reading(Run(s, rounds[0].steps).value, LastOf(page, since), rounds[1..]);
      (page + more.0, more.1)
  }

  /** Whenever a page is taken, no thread holds a clock that it leaves behind. */
  ghost predicate NothingLeftBehind(s: State, since: int, rounds: seq<Round>)
    decreases rounds
  {
    rounds == [] || Run(s, rounds[0].steps).None? ||
    var last := LastOf(Page(s.log, since, rounds[0].limit), since);
    NonePendingBetween(s, since, last) && NothingLeftBehind(Run(s, rounds[0].steps).value, last, rounds[1..])
  }

  /** A reader whose pages interleave with writers: what it was shown is, in order and once each, everything in the
      final log between its start and its position. */
  lemma {:induction false} InterleavedReading(base: State, s: State, since: int, rounds: seq<Round>)
    requires Reachable(base, s) && MaxClock(base.log) <= since
    requires Run(s, AllSteps(rounds)).Some? && NothingLeftBehind(s, since, rounds)
    ensures var log, read := Run(s, AllSteps(rounds)).value.log, Reading(s, since, rounds);
            Later(log, since) == read.0 + Later(log, read.1)
    decreases rounds
  {
    hide Later, Page, Reachable, MaxClock, NonePendingBetween;
    var log := Run(s, AllSteps(rounds)).value.log;
    if rounds == [] {
      assert [] + Later(log, since) == Later(log, since);
    } else {
      var steps, rest := rounds[0].steps, rounds[1..];
      RunOfConcat(s, steps, AllSteps(rest));
      var mid := Run(s, steps).value;
      var page := Page(s.log, since, rounds[0].limit);
      ReachableOn(base, s, steps);
      PageIsLater(s.log, since, rounds[0].limit);
      InterleavedReading(base, mid, LastOf(page, since), rest);
      hide AllSteps;
      if page == [] {
        assert [] + Reading(mid, since, rest).0 == Reading(mid, since, rest).0;
      } else {
        PageStandsWhen(base, s, since, rounds[0].limit, AllSteps(rounds));
        Joined(Later(log, since), page, Reading(mid, LastOf(page, since), rest).0,
               Later(log, Reading(mid, LastOf(page, since), rest).1));
      }
    }
  }

  lemma Joined(all: seq<Entry>, page: seq<Entry>, more: seq<Entry>, rest: seq<Entry>)
    requires all == page + (more + rest)
    ensures all == (page + more) + rest
  {
  }

  lemma PageIsLater(log: seq<Entry>, since: int, limit: int)
    ensures LastOf(Page(log, since, limit), since) >= since
  {
    AboveFilters(Sort(log), since);
    hide Above, Sort;
  }
}
