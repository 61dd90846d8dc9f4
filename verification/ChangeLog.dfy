/**
 The change log and its Lamport clock (desktop/src/library/change_log.cpp and the change_log queries of
 desktop/src/library/database.cpp).

 A record allocates its clock in one critical section and appends its entry in another, so the steps of
 several threads interleave and entries need not arrive in clock order.  A run is any sequence of the atomic
 steps below.
 */
module ChangeLog {
  import opened Wrappers
  import opened Ordering

  datatype Change = Change(
    deviceId: string, entityType: string, entityId: string, operation: string, payload: string)

  /** A row of the log. */
  datatype Entry = Entry(clock: int, change: Change)

  /** `pending` holds the threads between the two sections of record, `syncing` those between the two of
      sync_clock; `issued` records every clock handed out, in order. */
  datatype State = State(
    clock: int, log: seq<Entry>, pending: map<nat, Entry>, syncing: map<nat, int>, issued: seq<int>)

  datatype Step =
    | Allocate(thread: nat, change: Change)
    | Append(thread: nat, stored: bool)
    | SyncRead(thread: nat)
    | SyncRaise(thread: nat)

  /** COALESCE(MAX(lamport_clock), 0). */
  function MaxClock(log: seq<Entry>): (m: int)
    ensures forall i | 0 <= i < |log| :: log[i].clock <= m
    ensures log == [] ==> m == 0
    ensures log != [] ==> exists i :: 0 <= i < |log| && log[i].clock == m
  {
    if log == [] then 0
    else if |log| == 1 then log[0].clock
    else
      var m := MaxClock(log[..|log| - 1]);
      if log[|log| - 1].clock > m then log[|log| - 1].clock else m
  }

  /** One atomic step; None when the thread is not at that point. */
  function Apply(s: State, step: Step): Option<State> {
    match step
    case Allocate(t, change) =>
      if t in s.pending then None
      else Some(s.(clock := s.clock + 1, pending := s.pending[t := Entry(s.clock + 1, change)],
                   issued := s.issued + [s.clock + 1]))
    case Append(t, stored) =>
      if t !in s.pending then None
      else Some(s.(pending := s.pending - {t}, log := if stored then s.log + [s.pending[t]] else s.log))
    case SyncRead(t) => if t in s.syncing then None else Some(s.(syncing := s.syncing[t := MaxClock(s.log)]))
    case SyncRaise(t) =>
      if t !in s.syncing then None
      else Some(s.(clock := Max(s.clock, s.syncing[t]), syncing := s.syncing - {t}))
  }

  function Run(s: State, steps: seq<Step>): Option<State>
    decreases steps
  {
    if steps == [] then Some(s)
    else match Apply(s, steps[0]) case None => None case Some(next) => Run(next, steps[1..])
  }

  // ----- Fresh clocks -----

  /** No thread is in the middle of anything. */
  ghost predicate Quiescent(s: State) {
    s.clock >= 0 && s.pending == map[] && s.syncing == map[] && s.issued == []
  }

  /** The clock has caught up with the log. */
  ghost predicate CaughtUp(s: State) {
    forall i | 0 <= i < |s.log| :: s.log[i].clock <= s.clock
  }

  ghost predicate Ascending(clocks: seq<int>) {
    forall i, j | 0 <= i < j < |clocks| :: clocks[i] < clocks[j]
  }

  /** The entries appended since a log of length `from` carry different clocks. */
  ghost predicate DistinctFrom(log: seq<Entry>, from: nat) {
    forall i, j | from <= i < j < |log| :: log[i].clock != log[j].clock
  }

  /** The clocks handed out since `base` ascend, above its clock and not above the current one. */
  ghost predicate ClocksInv(base: State, s: State) {
    && 0 <= base.clock <= s.clock
    && Ascending(s.issued)
    && (forall k | 0 <= k < |s.issued| :: base.clock < s.issued[k] <= s.clock)
  }

  /** What was in the log stays, and what was appended carries different clocks, all handed out. */
  ghost predicate LogInv(base: State, s: State) {
    && base.log <= s.log
    && (forall i | |base.log| <= i < |s.log| :: s.log[i].clock in s.issued)
    && DistinctFrom(s.log, |base.log|)
  }

  /** A clock waiting to be appended was handed out to one thread and is not in the log yet. */
  ghost predicate PendingInv(base: State, s: State) {
    && (forall t | t in s.pending :: s.pending[t].clock in s.issued)
    && (forall t, u | t in s.pending && u in s.pending && t != u :: s.pending[t].clock != s.pending[u].clock)
    && (forall i, t | |base.log| <= i < |s.log| && t in s.pending :: s.log[i].clock != s.pending[t].clock)
  }

  /** What a sync has read covers the log it started from. */
  ghost predicate SyncInv(base: State, s: State) {
    forall t, i | t in s.syncing && 0 <= i < |base.log| :: base.log[i].clock <= s.syncing[t]
  }

  /** What every run from a quiescent `base` keeps. */
  ghost predicate Inv(base: State, s: State) {
    ClocksInv(base, s) && LogInv(base, s) && PendingInv(base, s) && SyncInv(base, s)
  }

  lemma AllocateKeepsInv(base: State, s: State, t: nat, change: Change)
    requires Inv(base, s) && t !in s.pending
    ensures Inv(base, Apply(s, Allocate(t, change)).value)
  {
    Extends(s.issued, s.clock + 1);
    AllocateKeepsPending(base, s, t, change);
    hide PendingInv;
  }

  lemma AllocateKeepsPending(base: State, s: State, t: nat, change: Change)
    requires Inv(base, s) && t !in s.pending
    ensures PendingInv(base, Apply(s, Allocate(t, change)).value)
  {
    var c := s.clock + 1;
    var next := Apply(s, Allocate(t, change)).value;
    Extends(s.issued, c);
    forall u | u in next.pending && u != t
      ensures next.pending[u] == s.pending[u] && next.pending[u].clock in s.issued && next.pending[u].clock < c
    {
    }
    hide Ascending, DistinctFrom;
  }

  lemma Extends(clocks: seq<int>, c: int)
    requires Ascending(clocks) && forall k | 0 <= k < |clocks| :: clocks[k] < c
    ensures Ascending(clocks + [c])
    ensures forall k :: k in clocks + [c] <==> k in clocks || k == c
  {
  }

  lemma AppendKeepsInv(base: State, s: State, t: nat, stored: bool)
    requires Inv(base, s) && t in s.pending
    ensures Inv(base, Apply(s, Append(t, stored)).value)
  {
    AppendKeepsLog(base, s, t, stored);
    AppendKeepsPending(base, s, t, stored);
    hide LogInv, PendingInv;
  }

  lemma AppendKeepsLog(base: State, s: State, t: nat, stored: bool)
    requires Inv(base, s) && t in s.pending
    ensures LogInv(base, Apply(s, Append(t, stored)).value)
  {
    hide Ascending;
    var next := Apply(s, Append(t, stored)).value;
    assert forall i | 0 <= i < |s.log| :: next.log[i] == s.log[i];
  }

  lemma AppendKeepsPending(base: State, s: State, t: nat, stored: bool)
    requires Inv(base, s) && t in s.pending
    ensures PendingInv(base, Apply(s, Append(t, stored)).value)
  {
    hide Ascending, DistinctFrom;
    var next := Apply(s, Append(t, stored)).value;
    assert forall u | u in next.pending :: u != t && next.pending[u] == s.pending[u];
    assert forall i | 0 <= i < |s.log| :: next.log[i] == s.log[i];
  }

  lemma StepKeepsInv(base: State, s: State, step: Step)
    requires Inv(base, s) && Apply(s, step).Some?
    ensures Inv(base, Apply(s, step).value)
  {
    match step {
      case Allocate(t, change) => AllocateKeepsInv(base, s, t, change);
      case Append(t, stored) => AppendKeepsInv(base, s, t, stored);
      case SyncRead(t) => SyncReadKeepsInv(base, s, t);
      case SyncRaise(t) =>
    }
  }

  lemma SyncReadKeepsInv(base: State, s: State, t: nat)
    requires Inv(base, s) && t !in s.syncing
    ensures Inv(base, Apply(s, SyncRead(t)).value)
  {
    hide DistinctFrom, Ascending;
    forall i | 0 <= i < |base.log| ensures base.log[i].clock <= MaxClock(s.log) {
      assert base.log[i] == s.log[i];
    }
  }

  lemma {:induction false} RunKeepsInv(base: State, s: State, steps: seq<Step>)
    requires Inv(base, s) && Run(s, steps).Some?
    ensures Inv(base, Run(s, steps).value)
    decreases steps
  {
    hide Inv;
    if steps != [] {
      StepKeepsInv(base, s, steps[0]);
      RunKeepsInv(base, Apply(s, steps[0]).value, steps[1..]);
    }
  }

  lemma BaseInv(base: State)
    requires Quiescent(base)
    ensures Inv(base, base)
  {
  }

  /** A state that some interleaving reaches from `base`, a state in which nobody was at work. */
  ghost predicate Reachable(base: State, s: State) {
    Quiescent(base) && exists steps :: Run(base, steps) == Some(s)
  }

  lemma ReachableInv(base: State, s: State)
    requires Reachable(base, s)
    ensures Inv(base, s)
  {
    var steps :| Run(base, steps) == Some(s);
    BaseInv(base);
    RunKeepsInv(base, base, steps);
  }

  /** The clock only rises, and what is handed out on the way is above where it was. */
  ghost predicate RisesFrom(s: State, later: State) {
    && s.clock <= later.clock && s.log <= later.log && s.issued <= later.issued
    && forall k | |s.issued| <= k < |later.issued| :: s.clock < later.issued[k]
  }

  lemma StepRises(from: State, s: State, step: Step)
    requires RisesFrom(from, s) && Apply(s, step).Some?
    ensures RisesFrom(from, Apply(s, step).value)
  {
  }

  lemma {:induction false} RunRises(from: State, s: State, steps: seq<Step>)
    requires RisesFrom(from, s) && Run(s, steps).Some?
    ensures RisesFrom(from, Run(s, steps).value)
    decreases steps
  {
    hide RisesFrom;
    if steps != [] {
      StepRises(from, s, steps[0]);
      RunRises(from, Apply(s, steps[0]).value, steps[1..]);
    }
  }

  /** In every interleaving the clocks handed out ascend, above the first clock and never above the current
      one, and the entries appended carry different ones of them. */
  lemma ClocksAscend(base: State, s: State)
    requires Reachable(base, s)
    ensures Ascending(s.issued)
    ensures forall k | 0 <= k < |s.issued| :: base.clock < s.issued[k] <= s.clock
    ensures base.log <= s.log && DistinctFrom(s.log, |base.log|)
    ensures forall i | |base.log| <= i < |s.log| :: s.log[i].clock in s.issued
  {
    ReachableInv(base, s);
  }

  /** From any point where the clock has caught up, whoever is at work then, no interleaving hands out a clock
      that is not above every clock in the log at that point. */
  lemma ClocksAreFresh(base: State, mid: State, steps: seq<Step>, s: State)
    requires Reachable(base, mid) && CaughtUp(mid) && Run(mid, steps) == Some(s)
    ensures mid.issued <= s.issued && mid.log <= s.log && CaughtUp(s)
    ensures forall k, i | |mid.issued| <= k < |s.issued| && 0 <= i < |mid.log| :: mid.log[i].clock < s.issued[k]
    ensures forall k | 0 <= k < |s.issued| :: s.issued[k] <= s.clock
  {
    ReachableInv(base, mid);
    RunRises(mid, mid, steps);
    RunKeepsInv(base, mid, steps);
    hide DistinctFrom, Ascending, PendingInv, SyncInv;
    forall i | 0 <= i < |s.log| ensures s.log[i].clock <= s.clock {
      if i < |mid.log| { assert s.log[i] == mid.log[i]; }
    }
  }

  /** A sync that completes brings the clock up to the log, whatever other threads do between its sections. */
  lemma SyncCatchesUp(base: State, before: State, thread: nat, s: State)
    requires Reachable(base, before) && Apply(before, SyncRaise(thread)) == Some(s)
    ensures CaughtUp(s)
  {
    ReachableInv(base, before);
    RaiseCatchesUp(base, before, thread);
  }

  /** The second section of a sync, in any state the invariant holds of. */
  lemma RaiseCatchesUp(base: State, before: State, thread: nat)
    requires Inv(base, before) && thread in before.syncing
    ensures CaughtUp(Apply(before, SyncRaise(thread)).value)
  {
    var s := Apply(before, SyncRaise(thread)).value;
    hide DistinctFrom, Ascending, PendingInv;
    forall i | 0 <= i < |s.log| ensures s.log[i].clock <= s.clock {
      if i < |base.log| { assert s.log[i] == base.log[i]; }
    }
  }

  /** Every clock this run hands out is above every clock that was in the log. */
  ghost predicate HandsOutFresh(base: State, steps: seq<Step>) {
    Run(base, steps).Some? ==>
      forall k, i | |base.issued| <= k < |Run(base, steps).value.issued| && 0 <= i < |base.log| ::
        base.log[i].clock < Run(base, steps).value.issued[k]
  }

  /** Every run hands out fresh clocks exactly when the clock had caught up before the first record. */
  lemma FreshExactlyWhenCaughtUp(base: State, change: Change)
    requires Quiescent(base)
    ensures CaughtUp(base) <==> forall steps :: HandsOutFresh(base, steps)
  {
    if CaughtUp(base) {
      forall steps ensures HandsOutFresh(base, steps) {
        if Run(base, steps).Some? {
          assert Run(base, []) == Some(base);
          ClocksAreFresh(base, base, steps, Run(base, steps).value);
        }
      }
    } else {
      var i :| 0 <= i < |base.log| && base.log[i].clock > base.clock;
      var steps := [Allocate(0, change)];
      OneStep(base, steps[0]);
      assert base.log[i].clock >= Run(base, steps).value.issued[0];
      assert !HandsOutFresh(base, steps);
    }
  }

  lemma OneStep(s: State, step: Step)
    ensures Run(s, [step]) == Apply(s, step)
  {
    assert [step][1..] == [];
    match Apply(s, step) case None => case Some(next) => assert Run(next, []) == Some(next);
  }

  // ----- Reading the log in pages -----

  function Insert(e: Entry, sorted: seq<Entry>): seq<Entry> {
    if sorted == [] || e.clock < sorted[0].clock then [e] + sorted else [sorted[0]] + Insert(e, sorted[1..])
  }

  /** ORDER BY lamport_clock ASC. */
  function Sort(log: seq<Entry>): seq<Entry> {
    if log == [] then [] else Insert(log[|log| - 1], Sort(log[..|log| - 1]))
  }

  /** WHERE lamport_clock > since. */
  function Above(log: seq<Entry>, since: int): seq<Entry> {
    if log == [] then [] else (if log[0].clock > since then [log[0]] else []) + Above(log[1..], since)
  }

  /** Everything later than `since`, in clock order. */
  function Later(log: seq<Entry>, since: int): seq<Entry> {
    Above(Sort(log), since)
  }

  /** get_change_log_since; a negative LIMIT is no limit. */
  function Page(log: seq<Entry>, since: int, limit: int): seq<Entry> {
    var later := Later(log, since);
    if 0 <= limit < |later| then later[..limit] else later
  }

  /** A reader asks for page after page, each time with the last clock it was given, until a page is empty. */
  function PageAll(log: seq<Entry>, since: int, limit: int): seq<Entry>
    requires limit != 0
    decreases |Later(log, since)|
  {
    var page := Page(log, since, limit);
    if page == [] then []
    else
      var last := page[|page| - 1].clock;
      LaterShrinks(log, since, last);
      page + PageAll(log, last, limit)
  }

  /** LIMIT: a page is the first so many of the later entries, none for 0, and all of them for a negative number. */
  lemma PageSize(log: seq<Entry>, since: int, limit: int)
    ensures Page(log, since, limit) <= Later(log, since)
    ensures |Page(log, since, limit)| ==
            if limit < 0 || |Later(log, since)| <= limit then |Later(log, since)| else limit
  {
    hide Later;
  }

  ghost predicate Sorted(log: seq<Entry>) {
    forall i, j | 0 <= i < j < |log| :: log[i].clock <= log[j].clock
  }

  ghost predicate StrictlySorted(log: seq<Entry>) {
    forall i, j | 0 <= i < j < |log| :: log[i].clock < log[j].clock
  }

  lemma {:induction false} InsertKeeps(e: Entry, sorted: seq<Entry>)
    ensures multiset(Insert(e, sorted)) == multiset(sorted) + multiset{e}
  {
    if sorted != [] {
      assert sorted == [sorted[0]] + sorted[1..];
      InsertKeeps(e, sorted[1..]);
    }
  }

  lemma {:induction false} InsertSorts(e: Entry, sorted: seq<Entry>)
    requires Sorted(sorted)
    ensures Sorted(Insert(e, sorted))
    ensures forall d | d in Insert(e, sorted) :: d == e || d in sorted
  {
    if sorted != [] && e.clock >= sorted[0].clock {
      var rest := Insert(e, sorted[1..]);
      InsertSorts(e, sorted[1..]);
      forall i | 0 <= i < |rest| ensures sorted[0].clock <= rest[i].clock {
        assert rest[i] in rest;
      }
    }
  }

  lemma {:induction false} SortSorts(log: seq<Entry>)
    ensures Sorted(Sort(log)) && multiset(Sort(log)) == multiset(log)
  {
    if log != [] {
      var before, last := log[..|log| - 1], log[|log| - 1];
      SortSorts(before);
      InsertSorts(last, Sort(before));
      InsertKeeps(last, Sort(before));
      assert log == before + [last];
    }
  }

  lemma {:induction false} AboveFilters(log: seq<Entry>, since: int)
    ensures forall e: Entry :: multiset(Above(log, since))[e] == if e.clock > since then multiset(log)[e] else 0
    ensures forall i | 0 <= i < |Above(log, since)| :: Above(log, since)[i].clock > since
  {
    if log != [] {
      AboveFilters(log[1..], since);
      assert log == [log[0]] + log[1..];
    }
  }

  lemma {:induction false} AboveKeepsOrder(log: seq<Entry>, since: int)
    requires Sorted(log)
    ensures Sorted(Above(log, since))
    ensures forall i | 0 <= i < |Above(log, since)| :: Above(log, since)[i] in log
  {
    if log != [] {
      AboveKeepsOrder(log[1..], since);
      FirstIsLeast(log, Above(log[1..], since));
    }
  }

  lemma FirstIsLeast(log: seq<Entry>, rest: seq<Entry>)
    requires log != [] && Sorted(log) && Sorted(rest)
    requires forall i | 0 <= i < |rest| :: rest[i] in log[1..]
    ensures Sorted([log[0]] + rest)
    ensures forall i | 0 <= i < |rest| :: rest[i] in log
  {
  }

  lemma {:induction false} AboveAbove(log: seq<Entry>, since: int, later: int)
    requires since <= later
    ensures Above(Above(log, since), later) == Above(log, later)
  {
    if log != [] {
      AboveAbove(log[1..], since, later);
      var rest := Above(log[1..], since);
      if log[0].clock > since {
        assert ([log[0]] + rest)[1..] == rest;
      } else {
        assert [] + rest == rest;
      }
    }
  }

  /** What a reader is to see: every entry above `since` exactly once, in clock order. */
  lemma LaterMeaning(log: seq<Entry>, since: int)
    ensures Sorted(Later(log, since))
    ensures forall e: Entry :: multiset(Later(log, since))[e] == if e.clock > since then multiset(log)[e] else 0
  {
    SortSorts(log);
    AboveKeepsOrder(Sort(log), since);
    AboveFilters(Sort(log), since);
  }

  lemma LaterShrinks(log: seq<Entry>, since: int, last: int)
    requires exists i :: 0 <= i < |Later(log, since)| && Later(log, since)[i].clock == last
    ensures |Later(log, last)| < |Later(log, since)|
  {
    var i :| 0 <= i < |Later(log, since)| && Later(log, since)[i].clock == last;
    AboveFilters(Sort(log), since);
    AboveAbove(Sort(log), since, last);
    AboveIsShorter(Later(log, since), last, i);
  }

  lemma {:induction false} AboveIsShorter(log: seq<Entry>, since: int, i: nat)
    requires i < |log| && log[i].clock <= since
    ensures |Above(log, since)| < |log|
    decreases log
  {
    if i > 0 { AboveIsShorter(log[1..], since, i - 1); } else { AboveNoLonger(log[1..], since); }
  }

  lemma {:induction false} AboveNoLonger(log: seq<Entry>, since: int)
    ensures |Above(log, since)| <= |log|
    ensures (forall i | 0 <= i < |log| :: log[i].clock > since) ==> Above(log, since) == log
  {
    if log != [] {
      AboveNoLonger(log[1..], since);
      if forall i | 0 <= i < |log| :: log[i].clock > since {
        assert forall i | 0 <= i < |log[1..]| :: log[1..][i] == log[i + 1];
        assert log == [log[0]] + log[1..];
      }
    }
  }

  lemma {:induction false} AboveDropsPrefix(low: seq<Entry>, high: seq<Entry>, since: int)
    requires forall i | 0 <= i < |low| :: low[i].clock <= since
    requires forall i | 0 <= i < |high| :: high[i].clock > since
    ensures Above(low + high, since) == high
  {
    if low == [] {
      AboveNoLonger(high, since);
      assert low + high == high;
    } else {
      AboveDropsPrefix(low[1..], high, since);
      assert (low + high)[1..] == low[1..] + high;
    }
  }

  /** In a strictly sorted list, what is above the k-th clock is what follows it. */
  lemma AboveIsSuffix(log: seq<Entry>, k: nat)
    requires StrictlySorted(log) && k < |log|
    ensures Above(log, log[k].clock) == log[k + 1..]
  {
    hide Above;
    AboveDropsPrefix(log[..k + 1], log[k + 1..], log[k].clock);
    assert log == log[..k + 1] + log[k + 1..];
  }

  /** With different clocks above `since`, pages of any size make up everything later, each entry once. */
  lemma {:induction false} PagingIsComplete(log: seq<Entry>, since: int, limit: int)
    requires limit != 0 && StrictlySorted(Later(log, since))
    ensures PageAll(log, since, limit) == Later(log, since)
    decreases |Later(log, since)|
  {
    if Page(log, since, limit) == [] {
      assert Later(log, since) == [];
    } else {
      var page, last := PageAllUnfolds(log, since, limit);
      hide *;
      PagingIsComplete(log, last, limit);
    }
  }

  /** The first page, and the clock to go on from: the pages after it have the rest to show. */
  lemma PageAllUnfolds(log: seq<Entry>, since: int, limit: int) returns (page: seq<Entry>, last: int)
    requires limit != 0 && StrictlySorted(Later(log, since)) && Page(log, since, limit) != []
    ensures |Later(log, last)| < |Later(log, since)| && StrictlySorted(Later(log, last))
    ensures Later(log, since) == page + Later(log, last)
    ensures PageAll(log, since, limit) == page + PageAll(log, last, limit)
  {
    hide Later;
    page := Page(log, since, limit);
    var k := |page| - 1;
    last := page[k].clock;
    assert page == Later(log, since)[..k + 1];
    LaterRest(log, since, k);
    LaterShrinks(log, since, last);
  }

  lemma LaterRest(log: seq<Entry>, since: int, k: nat)
    requires StrictlySorted(Later(log, since)) && k < |Later(log, since)|
    ensures Later(log, Later(log, since)[k].clock) == Later(log, since)[k + 1..]
    ensures StrictlySorted(Later(log, since)[k + 1..])
  {
    AboveFilters(Sort(log), since);
    hide Above, Sort;
    AboveAbove(Sort(log), since, Later(log, since)[k].clock);
    AboveIsSuffix(Later(log, since), k);
  }

  /** Pages of one entry never repeat a clock. */
  lemma {:induction false} SinglePagesAscend(log: seq<Entry>, since: int)
    ensures StrictlySorted(PageAll(log, since, 1))
    ensures forall i | 0 <= i < |PageAll(log, since, 1)| :: PageAll(log, since, 1)[i].clock > since
    decreases |Later(log, since)|
  {
    if Page(log, since, 1) != [] {
      var first := SinglePage(log, since);
      hide PageAll, Page, Later;
      SinglePagesAscend(log, first.clock);
    }
  }

  lemma SinglePage(log: seq<Entry>, since: int) returns (first: Entry)
    requires Page(log, since, 1) != []
    ensures first.clock > since && |Later(log, first.clock)| < |Later(log, since)|
    ensures PageAll(log, since, 1) == [first] + PageAll(log, first.clock, 1)
  {
    hide Above, Sort;
    first := Later(log, since)[0];
    AboveFilters(Sort(log), since);
    assert Page(log, since, 1) == [first];
    LaterShrinks(log, since, first.clock);
  }

  ghost predicate PagesShowAll(log: seq<Entry>, since: int, limit: int)
    requires limit != 0
  {
    PageAll(log, since, limit) == Later(log, since)
  }

  /** Paging shows every later entry, whatever the page size, exactly when no two of them share a clock. */
  lemma PagingExactly(log: seq<Entry>, since: int)
    ensures (forall limit: int | limit != 0 :: PagesShowAll(log, since, limit)) <==>
            StrictlySorted(Later(log, since))
  {
    if StrictlySorted(Later(log, since)) {
      forall limit: int | limit != 0 ensures PagesShowAll(log, since, limit) {
        PagingIsComplete(log, since, limit);
      }
    }
    SinglePagesAscend(log, since);
    assert PagesShowAll(log, since, 1) ==> StrictlySorted(Later(log, since));
  }

  /** Entries with different clocks are strictly sorted once sorted. */
  lemma DistinctIsStrict(log: seq<Entry>, since: int)
    requires forall i, j | 0 <= i < j < |log| && log[i].clock > since && log[j].clock > since ::
               log[i].clock != log[j].clock
    ensures StrictlySorted(Later(log, since))
  {
    LaterMeaning(log, since);
    var later := Later(log, since);
    AboveFilters(Sort(log), since);
    forall i, j | 0 <= i < j < |later| ensures later[i].clock < later[j].clock {
      if later[i].clock == later[j].clock {
        TwiceInLog(log, since, i, j);
      }
    }
  }

  lemma TwiceInLog(log: seq<Entry>, since: int, i: nat, j: nat)
    requires i < j < |Later(log, since)| && Later(log, since)[i].clock == Later(log, since)[j].clock
    requires Later(log, since)[i].clock > since
    ensures exists m, n :: 0 <= m < n < |log| && log[m].clock == log[n].clock == Later(log, since)[i].clock
  {
    var later := Later(log, since);
    var a, b := later[i], later[j];
    LaterMeaning(log, since);
    assert multiset(later)[a] > 0 && multiset(later)[b] > 0;
    assert multiset(log)[a] > 0 && multiset(log)[b] > 0;
    if a != b {
      assert a in log && b in log;
      var m :| 0 <= m < |log| && log[m] == a;
      var n :| 0 <= n < |log| && log[n] == b;
      if m < n { assert log[m].clock == log[n].clock; } else { assert log[n].clock == log[m].clock; }
    } else {
      Occurs(later, i, j);
      assert multiset(log)[a] >= 2;
      var m, n := FindTwo(log, a);
    }
  }

  lemma Occurs(s: seq<Entry>, i: nat, j: nat)
    requires i < j < |s| && s[i] == s[j]
    ensures multiset(s)[s[i]] >= 2
  {
    assert s == s[..i] + [s[i]] + s[i + 1..j] + [s[j]] + s[j + 1..];
  }

  lemma {:induction false} FindTwo(s: seq<Entry>, e: Entry) returns (m: nat, n: nat)
    requires multiset(s)[e] >= 2
    ensures m < n < |s| && s[m] == e && s[n] == e
    decreases s
  {
    assert s == [s[0]] + s[1..];
    if s[0] == e {
      assert e in multiset(s[1..]);
      var k :| 0 <= k < |s[1..]| && s[1..][k] == e;
      m, n := 0, k + 1;
    } else {
      m, n := FindTwo(s[1..], e);
      m, n := m + 1, n + 1;
    }
  }

  /** All pages taken from one state of any log the writers can reach: a reader that starts at or above the clocks
      the log held at first is shown every entry above its start exactly once, in clock order.  Once the clock has
      caught up, those are all the entries appended since. */
  lemma PagingReachableLog(base: State, s: State, since: int, limit: int)
    requires Reachable(base, s) && limit != 0 && MaxClock(base.log) <= since
    ensures PageAll(s.log, since, limit) == Later(s.log, since) && base.log <= s.log
    ensures since <= base.clock ==> multiset(PageAll(s.log, since, limit)) == multiset(s.log[|base.log|..])
  {
    ReachableInv(base, s);
    AppendedDiffer(base, s);
    hide Inv, Later, PageAll, Reachable;
    forall i, j | 0 <= i < j < |s.log| && s.log[i].clock > since && s.log[j].clock > since
      ensures s.log[i].clock != s.log[j].clock
    {
    }
    DistinctIsStrict(s.log, since);
    PagingIsComplete(s.log, since, limit);
    if since <= base.clock { AppendedAreLater(s.log, base.log, s.log[|base.log|..], since); }
  }

  lemma AppendedDiffer(base: State, s: State)
    requires Inv(base, s)
    ensures base.log <= s.log && s.log == base.log + s.log[|base.log|..] && DistinctFrom(s.log, |base.log|)
    ensures forall i | 0 <= i < |base.log| :: s.log[i].clock <= MaxClock(base.log)
    ensures forall i | 0 <= i < |s.log[|base.log|..]| :: s.log[|base.log|..][i].clock > base.clock
  {
    forall i | |base.log| <= i < |s.log| ensures s.log[i].clock > base.clock {
      assert s.log[i].clock in s.issued;
    }
    forall i | 0 <= i < |base.log| ensures s.log[i].clock <= MaxClock(base.log) {
      assert s.log[i] == base.log[i];
    }
  }

  lemma AppendedAreLater(log: seq<Entry>, low: seq<Entry>, high: seq<Entry>, since: int)
    requires log == low + high && MaxClock(low) <= since
    requires forall i | 0 <= i < |high| :: high[i].clock > since
    ensures multiset(Later(log, since)) == multiset(high)
  {
    LaterMeaning(log, since);
    hide Later;
    assert forall i | 0 <= i < |low| :: low[i].clock <= since;
    hide MaxClock;
    CountOfLater(low, high, since, Later(log, since));
  }

  lemma CountOfLater(low: seq<Entry>, high: seq<Entry>, since: int, later: seq<Entry>)
    requires forall i | 0 <= i < |low| :: low[i].clock <= since
    requires forall i | 0 <= i < |high| :: high[i].clock > since
    requires forall e: Entry :: multiset(later)[e] == if e.clock > since then multiset(low + high)[e] else 0
    ensures multiset(later) == multiset(high)
  {
    forall e: Entry ensures multiset(later)[e] == multiset(high)[e] {
      CountOfSplit(low, high, since, e);
    }
  }

  lemma CountOfSplit(low: seq<Entry>, high: seq<Entry>, since: int, e: Entry)
    requires forall i | 0 <= i < |low| :: low[i].clock <= since
    requires forall i | 0 <= i < |high| :: high[i].clock > since
    ensures multiset(high)[e] == if e.clock > since then multiset(low + high)[e] else 0
  {
    if e.clock > since { assert e !in low; } else { assert e !in high; }
  }

  // ----- Entries that arrive late -----

  /** Nothing this run appends has a clock at or below `since`. */
  ghost predicate AppendsAbove(s: State, steps: seq<Step>, since: int) {
    Run(s, steps).Some? ==>
      forall i | |s.log| <= i < |Run(s, steps).value.log| :: Run(s, steps).value.log[i].clock > since
  }

  /** A reader that has read up to `since` can miss an entry later exactly when some thread holds a clock at or
      below it: append order is not clock order. */
  lemma LateExactlyWhenPending(s: State, since: int)
    requires since <= s.clock
    ensures (forall t | t in s.pending :: s.pending[t].clock > since) <==>
            forall steps :: AppendsAbove(s, steps, since)
  {
    if forall t | t in s.pending :: s.pending[t].clock > since {
      forall steps ensures AppendsAbove(s, steps, since) {
        if Run(s, steps).Some? { RunKeepsAbove(s, steps, since, |s.log|); }
      }
    } else {
      var t :| t in s.pending && s.pending[t].clock <= since;
      var steps := [Append(t, true)];
      OneStep(s, steps[0]);
      assert Run(s, steps).value.log[|s.log|].clock <= since;
      assert !AppendsAbove(s, steps, since);
    }
  }

  ghost predicate AllAbove(s: State, since: int, from: nat) {
    && since <= s.clock
    && (forall t | t in s.pending :: s.pending[t].clock > since)
    && (forall i | from <= i < |s.log| :: s.log[i].clock > since)
  }

  lemma {:induction false} RunKeepsAbove(s: State, steps: seq<Step>, since: int, from: nat)
    requires AllAbove(s, since, from) && Run(s, steps).Some?
    ensures AllAbove(Run(s, steps).value, since, from)
    decreases steps
  {
    if steps != [] {
      RunKeepsAbove(Apply(s, steps[0]).value, steps[1..], since, from);
    }
  }

  // ----- One record among others -----

  /** A thread's entry waits for the thread, whatever the others do. */
  lemma {:induction false} OthersLeavePending(s: State, thread: nat, steps: seq<Step>)
    requires thread in s.pending && Run(s, steps).Some?
    requires forall i | 0 <= i < |steps| && steps[i].Append? :: steps[i].thread != thread
    ensures var later := Run(s, steps).value; thread in later.pending && later.pending[thread] == s.pending[thread]
    decreases steps
  {
    if steps != [] {
      var rest := steps[1..];
      assert forall i | 0 <= i < |rest| :: rest[i] == steps[i + 1];
      OthersLeavePending(Apply(s, steps[0]).value, thread, rest);
    }
  }

  /** A record, with anything other threads do between its two sections: the log ends with the clock it took and the
      change it was given; when the row could not be stored the log is as the others left it, and the clock is
      used up. */
  lemma RecordAmongOthers(s: State, thread: nat, change: Change, between: seq<Step>, stored: bool)
    requires thread !in s.pending
    requires forall i | 0 <= i < |between| && between[i].Append? :: between[i].thread != thread
    requires Run(Apply(s, Allocate(thread, change)).value, between).Some?
    ensures var mid := Run(Apply(s, Allocate(thread, change)).value, between).value;
      && Apply(mid, Append(thread, stored)).Some?
      && var end := Apply(mid, Append(thread, stored)).value;
         && end.log == mid.log + (if stored then [Entry(s.clock + 1, change)] else [])
         && end.clock == mid.clock > s.clock && thread !in end.pending
  {
    hide *;
    AllocateIs(s, thread, change);
    var begun := Apply(s, Allocate(thread, change)).value;
    OthersLeavePending(begun, thread, between);
    ClockRises(begun, between);
    AppendIs(Run(begun, between).value, thread, stored);
  }

  lemma AllocateIs(s: State, thread: nat, change: Change)
    requires thread !in s.pending
    ensures Apply(s, Allocate(thread, change)).Some?
    ensures var next := Apply(s, Allocate(thread, change)).value;
            next.clock == s.clock + 1 && thread in next.pending && next.pending[thread] == Entry(s.clock + 1, change)
  {
  }

  lemma AppendIs(s: State, thread: nat, stored: bool)
    requires thread in s.pending
    ensures Apply(s, Append(thread, stored)).Some?
    ensures var next := Apply(s, Append(thread, stored)).value;
      && next.log == s.log + (if stored then [s.pending[thread]] else [])
      && next.clock == s.clock && thread !in next.pending
  {
    assert s.log + [] == s.log;
  }

  lemma ClockRises(s: State, steps: seq<Step>)
    requires Run(s, steps).Some?
    ensures Run(s, steps).value.clock >= s.clock
  {
    RunRises(s, s, steps);
    hide Run;
  }

  // ----- Logs where it goes wrong -----

  /** A change log that was never synced, over a log with one entry: the first record repeats that entry's
      clock, and a reader taking one entry at a time never sees one of the two. */
  lemma UnsyncedClockRepeats(first: Change, second: Change)
    ensures var base := State(0, [Entry(1, first)], map[], map[], []);
            var run := Run(base, [Allocate(0, second), Append(0, true)]);
            && Quiescent(base) && !CaughtUp(base)
            && run.Some? && run.value.log == [Entry(1, first), Entry(1, second)]
            && PageAll(run.value.log, 0, 1) != Later(run.value.log, 0)
  {
    var base := State(0, [Entry(1, first)], map[], map[], []);
    assert base.log[0].clock == 1;
    TwoSteps(base, Allocate(0, second), Append(0, true));
    var log := [Entry(1, first), Entry(1, second)];
    LaterOfPair(log);
    SinglePagesAscend(log, 0);
  }

  lemma TwoSteps(s: State, a: Step, b: Step)
    ensures Run(s, [a, b]) == match Apply(s, a) case None => None case Some(next) => Apply(next, b)
  {
    assert [a, b][1..] == [b];
    if Apply(s, a).Some? { OneStep(Apply(s, a).value, b); }
  }

  lemma LaterOfPair(log: seq<Entry>)
    requires |log| == 2 && log[0].clock == log[1].clock == 1
    ensures Later(log, 0) == log && !StrictlySorted(log)
  {
    var a, b := log[0], log[1];
    LaterOfOne(a);
    assert log[..1] == [a] && Insert(b, []) == [b];
    assert Insert(b, [a]) == [a] + [b];
    assert Above([b], 0) == [b] by { LaterOfOne(b); }
    assert log == [a] + [b] && log[1..] == [b];
  }

  /** Two threads take clocks 1 and 2 and append in the other order: a reader that has been shown clock 2 gets
      the entry with clock 1 only afterwards, behind its back. */
  lemma LateEntry(first: Change, second: Change)
    ensures var base := State(0, [], map[], map[], []);
            var seen := Run(base, [Allocate(0, first), Allocate(1, second), Append(1, true)]);
            && Quiescent(base) && seen.Some? && seen.value.log == [Entry(2, second)]
            && Page(seen.value.log, 0, 100) == [Entry(2, second)]
            && var late := Apply(seen.value, Append(0, true));
               && late.Some? && late.value.log == [Entry(2, second), Entry(1, first)]
               && Page(late.value.log, 2, 100) == []
  {
    var base := State(0, [], map[], map[], []);
    var one := Apply(base, Allocate(0, first)).value;
    assert [Allocate(0, first), Allocate(1, second), Append(1, true)][1..] == [Allocate(1, second), Append(1, true)];
    TwoSteps(one, Allocate(1, second), Append(1, true));
    var seen := [Entry(2, second)];
    LaterOfOne(Entry(2, second));
    NothingLater(seen + [Entry(1, first)], 2);
  }

  lemma NothingLater(log: seq<Entry>, since: int)
    requires forall i | 0 <= i < |log| :: log[i].clock <= since
    ensures Later(log, since) == []
  {
    LaterMeaning(log, since);
    hide Later;
    assert forall e: Entry | e.clock > since :: e !in log;
    assert multiset(Later(log, since)) == multiset{};
    assert |Later(log, since)| == |multiset(Later(log, since))|;
  }

  lemma LaterOfOne(e: Entry)
    requires e.clock > 0
    ensures Later([e], 0) == [e] && Sort([e]) == [e] && Above([e], 0) == [e]
  {
    assert [e][..0] == [] && [e][1..] == [];
    assert Sort([e]) == Insert(e, []) == [e];
    assert Above([e], 0) == [e] + Above([], 0);
  }

  /** A clock above every one handed out, waiting or appended so far, and above the whole log if the current
      clock is. */
  ghost predicate IsNewClock(base: State, s: State, c: int) {
    && (forall k | 0 <= k < |s.issued| :: s.issued[k] < c)
    && (forall t | t in s.pending :: s.pending[t].clock < c)
    && (forall i | |base.log| <= i < |s.log| :: s.log[i].clock < c)
    && (CaughtUp(s) ==> forall i | 0 <= i < |s.log| :: s.log[i].clock < c)
  }

  lemma NextIsNew(base: State, s: State, t: nat, change: Change)
    requires Inv(base, s) && t !in s.pending
    ensures Apply(s, Allocate(t, change)) ==
            Some(State(s.clock + 1, s.log, s.pending[t := Entry(s.clock + 1, change)], s.syncing,
                       s.issued + [s.clock + 1]))
    ensures IsNewClock(base, s, s.clock + 1)
    ensures CaughtUp(s) ==> CaughtUp(Apply(s, Allocate(t, change)).value)
  {
  }

  // ----- The source's object -----

  /** The change log object over its database; each method is one critical section. */
  class ChangeLog {
    var clock: int
    var log: seq<Entry>
    ghost const base: State
    ghost var pending: map<nat, Entry>
    ghost var syncing: map<nat, int>
    ghost var issued: seq<int>

    ghost function View(): State
      reads this
    {
      State(clock, log, pending, syncing, issued)
    }

    ghost predicate Valid()
      reads this
    {
      Quiescent(base) && Inv(base, View())
    }

    /** A new object over an existing log: the clock starts at 0. */
    constructor (log: seq<Entry>)
      ensures Valid() && base == View() == State(0, log, map[], map[], [])
    {
      clock, this.log, pending, syncing, issued := 0, log, map[], map[], [];
      base := State(0, log, map[], map[], []);
      new;
      BaseInv(base);
    }

    /** The first section of record: takes the next clock, which is new. */
    method NextClock(thread: nat, change: Change) returns (c: int)
      requires Valid() && thread !in pending
      modifies this
      ensures Valid() && Some(View()) == Apply(old(View()), Allocate(thread, change))
      ensures IsNewClock(base, old(View()), c)
      ensures old(CaughtUp(View())) ==> CaughtUp(View())
    {
      hide Inv, IsNewClock, CaughtUp, Quiescent, Apply, MaxClock;
      NextIsNew(base, View(), thread, change);
      StepKeepsInv(base, View(), Allocate(thread, change));
      clock := clock + 1;
      c := clock;
      pending, issued := pending[thread := Entry(c, change)], issued + [c];
    }

    /** The second section of record: append_change_log, which may fail to store the row.  The log grows at
        its end only, by a clock that no row appended so far has. */
    method AppendEntry(thread: nat, c: int, change: Change, stored: bool)
      requires Valid() && thread in pending && pending[thread] == Entry(c, change)
      modifies this
      ensures Valid() && Some(View()) == Apply(old(View()), Append(thread, stored))
      ensures forall i | |base.log| <= i < |old(log)| :: old(log)[i].clock != c
      ensures forall t | t in pending :: pending[t].clock != c
      ensures old(CaughtUp(View())) ==> CaughtUp(View())
    {
      StepKeepsInv(base, View(), Append(thread, stored));
      if stored { log := log + [Entry(c, change)]; }
      pending := pending - {thread};
    }

    /** The first section of sync_clock: reads the log's highest clock. */
    method ReadLogClock(thread: nat) returns (c: int)
      requires Valid() && thread !in syncing
      modifies this
      ensures Valid() && Some(View()) == Apply(old(View()), SyncRead(thread)) && c == syncing[thread] == MaxClock(log)
    {
      StepKeepsInv(base, View(), SyncRead(thread));
      c := MaxOfRows();
      syncing := syncing[thread := c];
    }

    /** SELECT COALESCE(MAX(lamport_clock), 0). */
    method MaxOfRows() returns (c: int)
      ensures c == MaxClock(log)
    {
      if log == [] { return 0; }
      c := log[0].clock;
      for i := 1 to |log|
        invariant c == MaxClock(log[..i])
      {
        assert log[..i + 1][..i] == log[..i];
        if log[i].clock > c { c := log[i].clock; }
      }
      assert log[..|log|] == log;
    }

    /** The second section of sync_clock: raises the clock, never lowers it, and leaves it caught up with the
        log, appended to in between or not. */
    method RaiseClock(thread: nat, c: int)
      requires Valid() && thread in syncing && syncing[thread] == c
      modifies this
      ensures Valid() && Some(View()) == Apply(old(View()), SyncRaise(thread))
      ensures clock >= old(clock) && clock >= c && CaughtUp(View())
    {
      StepKeepsInv(base, View(), SyncRaise(thread));
      RaiseCatchesUp(base, View(), thread);
      clock := if clock >= c then clock else c;
      syncing := syncing - {thread};
    }
  }
}
