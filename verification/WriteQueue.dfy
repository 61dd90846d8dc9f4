/**
 The single-writer job queue of the database (desktop/src/library/database.cpp): callers push jobs and wait
 on a promise each, one thread executes them, shutdown stops the thread, lets it drain and closes the
 connection.

 A run is any interleaving of the atomic steps below, one per critical section of the source.  The theorem is
 that every run is serial: the jobs take effect, and their promises get values, exactly as if they had been
 executed one after the other in the order they were pushed.
 */
module WriteQueue {
  import opened Wrappers

  /** A job: its effect on the database and the status its caller is given. */
  type Job<!Db, +Status> = Db -> (Db, Status)

  /** Where the writer thread is.  `draining` tells its second loop from its first. */
  datatype Phase<+Status> =
    | Top
    | Waiting
    | Holding(id: nat, draining: bool)
    | Done(id: nat, status: Status, draining: bool)
    | DrainTop
    | Exited

  /** `jobs` records every job pushed so far, by its number; `executed` and `fulfilled` record what the
      writer did, in order; `atStop` and `atExit` how many jobs had been pushed then. */
  datatype State<!Db, +Status> = State(
    db: Db, connected: bool, stop: bool, phase: Phase<Status>, queue: seq<nat>,
    jobs: seq<Job<Db, Status>>, executed: seq<nat>, fulfilled: seq<(nat, Status)>, atStop: nat, atExit: nat)

  datatype Step<!Db, +Status> =
    | Push(job: Job<Db, Status>)
    | RequestStop
    | LoopCheck
    | Wake
    | Execute
    | Fulfil
    | DrainTake
    | Close

  function Start<Db, Status>(db: Db): State<Db, Status> {
    State(db, true, false, Top, [], [], [], [], 0, 0)
  }

  function Take<Db, Status>(s: State<Db, Status>, draining: bool): State<Db, Status>
    requires s.queue != []
  {
    s.(queue := s.queue[1..], phase := Holding(s.queue[0], draining))
  }

  /** One atomic step; None when it is not enabled. */
  function Apply<Db, Status>(s: State<Db, Status>, step: Step<Db, Status>): Option<State<Db, Status>> {
    match step
    case Push(job) => Some(s.(queue := s.queue + [|s.jobs|], jobs := s.jobs + [job]))
    case RequestStop => Some(s.(stop := true, atStop := if s.stop then s.atStop else |s.jobs|))
    case LoopCheck => if s.phase == Top then Some(s.(phase := if s.stop then DrainTop else Waiting)) else None
    case Wake =>
      if s.phase == Waiting && s.queue != [] then Some(Take(s, false))
      else if s.phase == Waiting && s.stop then Some(s.(phase := DrainTop))
      else None
    case Execute =>
      if s.phase.Holding? && s.phase.id < |s.jobs| then
        var (db, status) := s.jobs[s.phase.id](s.db);
        Some(s.(db := db, executed := s.executed + [s.phase.id], phase := Done(s.phase.id, status, s.phase.draining)))
      else None
    case Fulfil =>
      if s.phase.Done? then
        Some(s.(fulfilled := s.fulfilled + [(s.phase.id, s.phase.status)],
                phase := if s.phase.draining then DrainTop else Top))
      else None
    case DrainTake =>
      if s.phase != DrainTop then None
      else if s.queue == [] then Some(s.(phase := Exited, atExit := |s.jobs|))
      else Some(Take(s, true))
    case Close => if s.stop && s.phase == Exited then Some(s.(connected := false)) else None
  }

  function Run<Db, Status>(s: State<Db, Status>, steps: seq<Step<Db, Status>>): Option<State<Db, Status>>
    decreases steps
  {
    if steps == [] then Some(s)
    else match Apply(s, steps[0]) case None => None case Some(next) => Run(next, steps[1..])
  }

  // ----- The serial meaning -----

  /** The database after the jobs, one after the other. */
  function Serial<Db, Status>(db: Db, jobs: seq<Job<Db, Status>>): Db {
    if jobs == [] then db
    else
      var last := |jobs| - 1;
      jobs[last](Serial(db, jobs[..last])).0
  }

  /** The status of job `i` when the jobs run one after the other. */
  function SerialStatus<Db, Status>(db: Db, jobs: seq<Job<Db, Status>>, i: nat): Status
    requires i < |jobs|
  {
    jobs[i](Serial(db, jobs[..i])).1
  }

  function Numbers(from: nat, to: nat): seq<nat>
    requires from <= to
  {
    seq(to - from, i requires 0 <= i < to - from => from + i)
  }

  // ----- The invariant -----

  /** Jobs taken out of the queue and not yet executed. */
  function InFlight<Db, Status>(s: State<Db, Status>): seq<nat> {
    if s.phase.Holding? then [s.phase.id] else []
  }

  /** The promise of the job just executed, not yet fulfilled. */
  function Unfulfilled<Db, Status>(s: State<Db, Status>): seq<(nat, Status)> {
    if s.phase.Done? then [(s.phase.id, s.phase.status)] else []
  }

  predicate InDrain<Status>(phase: Phase<Status>) {
    match phase
    case Top => false
    case Waiting => false
    case Holding(_, draining) => draining
    case Done(_, _, draining) => draining
    case DrainTop => true
    case Exited => true
  }

  ghost predicate Inv<Db(!new), Status(!new)>(db0: Db, s: State<Db, Status>) {
    // executed, in flight and queued are exactly the jobs pushed, in order
    && s.executed + InFlight(s) + s.queue == Numbers(0, |s.jobs|)
    && s.db == Serial(db0, s.jobs[..|s.executed|])
    // the promises are fulfilled in order, each once, with the serial status
    && |s.fulfilled| + |Unfulfilled(s)| == |s.executed|
    && (forall i | 0 <= i < |s.executed| ::
          (s.fulfilled + Unfulfilled(s))[i] == (i, SerialStatus(db0, s.jobs, i)))
    // the second loop runs only after the stop request, and closing comes last
    && (InDrain(s.phase) ==> s.stop)
    && (s.phase == Exited ==> |s.executed| == s.atExit)
    && (!s.connected ==> s.phase == Exited)
    && (s.stop ==> s.atStop <= |s.jobs|)
    && (s.phase == Exited ==> s.atStop <= s.atExit)
  }

  lemma StartInv<Db(!new), Status(!new)>(db: Db)
    ensures Inv(db, Start<Db, Status>(db))
  {
  }

  lemma {:induction false} SerialPrefix<Db, Status>(db: Db, jobs: seq<Job<Db, Status>>, job: Job<Db, Status>, n: nat)
    requires n <= |jobs|
    ensures (jobs + [job])[..n] == jobs[..n]
    ensures forall i | 0 <= i < n :: SerialStatus(db, jobs + [job], i) == SerialStatus(db, jobs, i)
  {
    assert (jobs + [job])[..n] == jobs[..n];
    forall i | 0 <= i < n ensures SerialStatus(db, jobs + [job], i) == SerialStatus(db, jobs, i) {
      assert (jobs + [job])[..i] == jobs[..i];
    }
  }

  lemma NumbersSplit(n: nat, taken: seq<nat>, flight: seq<nat>, queue: seq<nat>)
    requires taken + flight + queue == Numbers(0, n)
    ensures taken == Numbers(0, |taken|) && |taken| + |flight| + |queue| == n
    ensures flight != [] ==> flight[0] == |taken|
    ensures queue != [] ==> queue[0] == |taken| + |flight|
  {
    var all := taken + flight + queue;
    assert forall i | 0 <= i < |taken| :: all[i] == taken[i];
    if flight != [] { assert all[|taken|] == flight[0]; }
    if queue != [] { assert all[|taken| + |flight|] == queue[0]; }
  }

  lemma PushKeepsInv<Db(!new), Status(!new)>(db0: Db, s: State<Db, Status>, job: Job<Db, Status>)
    requires Inv(db0, s)
    ensures Inv(db0, Apply(s, Push(job)).value)
  {
    hide SerialStatus, Serial;
    var next := Apply(s, Push(job)).value;
    NumbersSplit(|s.jobs|, s.executed, InFlight(s), s.queue);
    SerialPrefix(db0, s.jobs, job, |s.executed|);
    assert Numbers(0, |s.jobs| + 1) == Numbers(0, |s.jobs|) + [|s.jobs|];
    assert s.executed + InFlight(s) + (s.queue + [|s.jobs|]) == s.executed + InFlight(s) + s.queue + [|s.jobs|];
  }

  lemma TakeKeepsOrder<Db(!new), Status(!new)>(s: State<Db, Status>, draining: bool)
    requires !s.phase.Holding? && s.queue != []
    ensures var next := Take(s, draining);
            next.executed + InFlight(next) + next.queue == s.executed + InFlight(s) + s.queue
  {
    var next := Take(s, draining);
    assert s.queue == [s.queue[0]] + s.queue[1..];
    assert s.executed + InFlight(s) == s.executed;
    assert s.executed + s.queue == (s.executed + [s.queue[0]]) + s.queue[1..];
  }

  lemma ExecuteKeepsInv<Db(!new), Status(!new)>(db0: Db, s: State<Db, Status>)
    requires Inv(db0, s) && Apply(s, Execute).Some?
    ensures Inv(db0, Apply(s, Execute).value)
  {
    var next := Apply(s, Execute).value;
    var n := |s.executed|;
    NumbersSplit(|s.jobs|, s.executed, InFlight(s), s.queue);
    assert s.phase.id == n;
    assert s.jobs[..n + 1][..n] == s.jobs[..n];
    assert next.executed + InFlight(next) + next.queue == s.executed + InFlight(s) + s.queue;
    assert s.fulfilled + Unfulfilled(s) == s.fulfilled;
    forall i | 0 <= i < n + 1
      ensures (next.fulfilled + Unfulfilled(next))[i] == (i, SerialStatus(db0, s.jobs, i))
    {
      if i < n { assert (s.fulfilled + Unfulfilled(s))[i] == (i, SerialStatus(db0, s.jobs, i)); }
    }
  }

  /** Every step of every thread keeps the invariant. */
  lemma StepKeepsInv<Db(!new), Status(!new)>(db0: Db, s: State<Db, Status>, step: Step<Db, Status>)
    requires Inv(db0, s) && Apply(s, step).Some?
    ensures Inv(db0, Apply(s, step).value)
  {
    NumbersSplit(|s.jobs|, s.executed, InFlight(s), s.queue);
    match step {
      case Push(job) => PushKeepsInv(db0, s, job);
      case Execute => ExecuteKeepsInv(db0, s);
      case Wake => if s.queue != [] { TakeKeepsOrder(s, false); }
      case DrainTake => if s.queue != [] { TakeKeepsOrder(s, true); }
      case Fulfil =>
        var next := Apply(s, step).value;
        assert next.fulfilled + Unfulfilled(next) == s.fulfilled + Unfulfilled(s);
        assert next.executed + InFlight(next) + next.queue == s.executed + InFlight(s) + s.queue;
      case _ =>
        var next := Apply(s, step).value;
        assert next.executed + InFlight(next) + next.queue == s.executed + InFlight(s) + s.queue;
    }
  }

  lemma {:induction false} RunKeepsInv<Db(!new), Status(!new)>(
      db0: Db, s: State<Db, Status>, steps: seq<Step<Db, Status>>)
    requires Inv(db0, s) && Run(s, steps).Some?
    ensures Inv(db0, Run(s, steps).value)
    decreases steps
  {
    hide Inv;
    if steps != [] {
      StepKeepsInv(db0, s, steps[0]);
      RunKeepsInv(db0, Apply(s, steps[0]).value, steps[1..]);
    }
  }

  // ----- The theorems -----

  /** Every run is serial: the database is what the first n jobs make of it one after the other, n the number
      executed, and the promises fulfilled so far are those of the first jobs, in order, each once, with the
      status the serial execution gives. */
  lemma EveryRunIsSerial<Db(!new), Status(!new)>(db: Db, steps: seq<Step<Db, Status>>, s: State<Db, Status>)
    requires Run(Start(db), steps) == Some(s)
    ensures s.executed == Numbers(0, |s.executed|) && |s.executed| <= |s.jobs|
    ensures s.executed + InFlight(s) + s.queue == Numbers(0, |s.jobs|)
    ensures s.db == Serial(db, s.jobs[..|s.executed|])
    ensures |s.fulfilled| <= |s.executed| <= |s.fulfilled| + 1
    ensures forall i | 0 <= i < |s.fulfilled| :: s.fulfilled[i] == (i, SerialStatus(db, s.jobs, i))
  {
    StartInv<Db, Status>(db);
    RunKeepsInv(db, Start(db), steps);
    NumbersSplit(|s.jobs|, s.executed, InFlight(s), s.queue);
    forall i | 0 <= i < |s.fulfilled| ensures s.fulfilled[i] == (i, SerialStatus(db, s.jobs, i)) {
      assert (s.fulfilled + Unfulfilled(s))[i] == s.fulfilled[i];
    }
  }

  /** Once shutdown has closed the connection, every job pushed before the writer exited is complete, so every
      job pushed before the stop request is; and only jobs pushed after the exit are left. */
  lemma ShutdownCompletes<Db(!new), Status(!new)>(db: Db, steps: seq<Step<Db, Status>>, s: State<Db, Status>)
    requires Run(Start(db), steps) == Some(s) && !s.connected
    ensures s.stop && s.atStop <= s.atExit <= |s.jobs|
    ensures |s.fulfilled| == s.atExit && s.db == Serial(db, s.jobs[..s.atExit])
    ensures s.queue == Numbers(s.atExit, |s.jobs|)
  {
    StartInv<Db, Status>(db);
    RunKeepsInv(db, Start(db), steps);
    NumbersSplit(|s.jobs|, s.executed, InFlight(s), s.queue);
    var all := s.executed + InFlight(s) + s.queue;
    forall i | 0 <= i < |s.queue| ensures s.queue[i] == s.atExit + i {
      assert all[s.atExit + i] == s.queue[i];
    }
  }

  /** No job runs on a closed connection. */
  lemma NothingRunsAfterClose<Db(!new), Status(!new)>(db: Db, steps: seq<Step<Db, Status>>, s: State<Db, Status>)
    requires Run(Start(db), steps) == Some(s)
    ensures Apply(s, Execute).Some? ==> s.connected
  {
    StartInv<Db, Status>(db);
    RunKeepsInv(db, Start(db), steps);
  }

  // ----- The writer always gets there -----

  /** The step the writer thread takes next when it is scheduled. */
  function WriterStep<Db, Status>(s: State<Db, Status>): Step<Db, Status> {
    match s.phase
    case Top => LoopCheck
    case Waiting => Wake
    case Holding(_, _) => Execute
    case Done(_, _, _) => Fulfil
    case DrainTop => DrainTake
    case Exited => Close
  }

  /** How many steps the writer is away from its exit. */
  function StepsLeft<Db, Status>(s: State<Db, Status>): nat {
    4 * |s.queue| +
    match s.phase
    case Holding(_, draining) => if draining then 3 else 4
    case Done(_, _, draining) => if draining then 2 else 3
    case Top => 2 case Waiting => 2 case DrainTop => 1 case Exited => 0
  }

  /** Before the stop request the writer serves the oldest job in one round. */
  lemma OldestIsServed<Db(!new), Status(!new)>(db0: Db, s: State<Db, Status>) returns (end: State<Db, Status>)
    requires Inv(db0, s) && s.phase == Top && !s.stop && s.queue != []
    ensures Run(s, [LoopCheck, Wake, Execute, Fulfil]) == Some(end) && end.phase == Top && end.queue == s.queue[1..]
    ensures end.executed == s.executed + [s.queue[0]] && |end.fulfilled| == |s.fulfilled| + 1
    ensures end.fulfilled[|s.fulfilled|].0 == s.queue[0]
  {
    var a := Apply(s, LoopCheck).value;
    StepKeepsInv(db0, s, LoopCheck);
    var b := Apply(a, Wake).value;
    StepKeepsInv(db0, a, Wake);
    NumbersSplit(|s.jobs|, s.executed, InFlight(s), s.queue);
    hide Inv, Numbers;
    var c := Apply(b, Execute).value;
    end := Apply(c, Fulfil).value;
    FourSteps(s, LoopCheck, Wake, Execute, Fulfil);
  }

  lemma FourSteps<Db, Status>(s: State<Db, Status>, a: Step<Db, Status>, b: Step<Db, Status>, c: Step<Db, Status>,
                              d: Step<Db, Status>)
    ensures Run(s, [a, b, c, d]) ==
            match Apply(s, a) case None => None case Some(t) =>
            match Apply(t, b) case None => None case Some(u) =>
            match Apply(u, c) case None => None case Some(v) => Apply(v, d)
  {
    hide Apply;
    assert [a, b, c, d][1..] == [b, c, d] && [b, c, d][1..] == [c, d] && [c, d][1..] == [d] && [d][1..] == [];
    RunUnfold(s, [a, b, c, d]);
    if Apply(s, a).Some? {
      var t := Apply(s, a).value;
      RunUnfold(t, [b, c, d]);
      if Apply(t, b).Some? {
        var u := Apply(t, b).value;
        RunUnfold(u, [c, d]);
        if Apply(u, c).Some? { RunUnfold(Apply(u, c).value, [d]); }
      }
    }
  }

  lemma RunUnfold<Db, Status>(s: State<Db, Status>, steps: seq<Step<Db, Status>>)
    requires steps != []
    ensures Run(s, steps) == match Apply(s, steps[0]) case None => None case Some(next) => Run(next, steps[1..])
    ensures |steps| == 1 ==> Run(s, steps) == Apply(s, steps[0])
  {
    if |steps| == 1 { assert steps[1..] == []; }
  }

  /** A job pushed onto a new database is served. */
  lemma FirstJobIsServed<Db(!new), Status(!new)>(db: Db, job: Job<Db, Status>)
    ensures var pushed := Apply(Start(db), Push(job)).value;
      && Run(pushed, [LoopCheck, Wake, Execute, Fulfil]).Some?
      && var end := Run(pushed, [LoopCheck, Wake, Execute, Fulfil]).value;
         end.db == job(db).0 && end.fulfilled == [(0, job(db).1)] && end.connected
  {
    var pushed := Apply(Start(db), Push(job)).value;
    FourSteps(pushed, LoopCheck, Wake, Execute, Fulfil);
  }

  /** After the stop request the writer is never blocked, and each of its steps brings it closer to the exit. */
  lemma WriterAdvances<Db(!new), Status(!new)>(db0: Db, s: State<Db, Status>)
    requires Inv(db0, s) && s.stop && s.phase != Exited
    ensures Apply(s, WriterStep(s)).Some?
    ensures var next := Apply(s, WriterStep(s)).value;
            Inv(db0, next) && next.stop && next.jobs == s.jobs && StepsLeft(next) < StepsLeft(s)
  {
    NumbersSplit(|s.jobs|, s.executed, InFlight(s), s.queue);
    StepKeepsInv(db0, s, WriterStep(s));
    hide Inv, Numbers;
  }

  /** From any point after the stop request, scheduling the writer often enough completes every job pushed. */
  lemma {:induction false} WriterDrains<Db(!new), Status(!new)>(db0: Db, s: State<Db, Status>)
    returns (steps: seq<Step<Db, Status>>, end: State<Db, Status>)
    requires Inv(db0, s) && s.stop && s.phase != Exited
    ensures |steps| <= StepsLeft(s) && Run(s, steps) == Some(end)
    ensures forall step | step in steps :: !step.Push? && !step.Close?
    ensures end.phase == Exited && end.jobs == s.jobs
    ensures |end.fulfilled| == |s.jobs| && end.db == Serial(db0, s.jobs)
    decreases StepsLeft(s)
  {
    WriterAdvances(db0, s);
    var next := Apply(s, WriterStep(s)).value;
    if next.phase == Exited {
      steps, end := [WriterStep(s)], next;
      assert steps[1..] == [];
      ExitedMeansDone(db0, s, next);
    } else {
      hide Inv, Apply;
      var more;
      more, end := WriterDrains(db0, next);
      steps := [WriterStep(s)] + more;
      assert steps[1..] == more;
    }
  }

  lemma ExitedMeansDone<Db(!new), Status(!new)>(db0: Db, s: State<Db, Status>, next: State<Db, Status>)
    requires Inv(db0, s) && s.phase != Exited && Apply(s, WriterStep(s)) == Some(next) && next.phase == Exited
    requires Inv(db0, next)
    ensures |next.fulfilled| == |s.jobs| && next.db == Serial(db0, s.jobs)
  {
    NumbersSplit(|next.jobs|, next.executed, InFlight(next), next.queue);
    assert next.jobs[..|next.jobs|] == next.jobs;
  }

  // ----- The source's object -----

  /** The database object: the fields the critical sections update.  Each method is one section. */
  class Database<Db(!new), Status(!new)> {
    var db: Db
    var connected: bool
    var stop: bool
    var phase: Phase<Status>
    var queue: seq<nat>
    var jobs: seq<Job<Db, Status>>
    ghost var executed: seq<nat>
    ghost var fulfilled: seq<(nat, Status)>
    var promises: map<nat, Status>
    ghost var atStop: nat
    ghost var atExit: nat
    ghost const initial: Db

    ghost function View(): State<Db, Status>
      reads this
    {
      State(db, connected, stop, phase, queue, jobs, executed, fulfilled, atStop, atExit)
    }

    ghost predicate Valid()
      reads this
    {
      && Inv(initial, View())
      && (forall i | 0 <= i < |fulfilled| :: fulfilled[i].0 in promises && promises[fulfilled[i].0] == fulfilled[i].1)
      && (forall id | id in promises :: id < |fulfilled|)
    }

    /** start_writer, on an open connection. */
    constructor (db: Db)
      ensures Valid() && View() == Start(db) && initial == db
    {
      this.db, connected, stop, phase, queue, jobs := db, true, false, Top, [], [];
      executed, fulfilled, promises, atStop, atExit, initial := [], [], map[], 0, 0, db;
      new;
      StartInv<Db, Status>(db);
    }

    /** write, up to its wait on the future: the number of the job is its promise. */
    method Write(job: Job<Db, Status>) returns (id: nat)
      requires Valid()
      modifies this
      ensures Valid() && Some(View()) == Apply(old(View()), Push(job)) && id == old(|jobs|)
      ensures promises == old(promises)
    {
      PushKeepsInv(initial, View(), job);
      hide Inv;
      id := |jobs|;
      queue, jobs := queue + [id], jobs + [job];
    }

    /** shut_down, up to the join. */
    method RequestShutdown()
      requires Valid()
      modifies this
      ensures Valid() && Some(View()) == Apply(old(View()), RequestStop) && promises == old(promises)
    {
      StepKeepsInv(initial, View(), RequestStop);
      hide Inv;
      if !stop { atStop := |jobs|; }
      stop := true;
    }

    /** The guard of the writer's first loop. */
    method CheckLoop()
      requires Valid() && phase == Top
      modifies this
      ensures Valid() && Some(View()) == Apply(old(View()), LoopCheck) && promises == old(promises)
    {
      StepKeepsInv(initial, View(), LoopCheck);
      hide Inv;
      phase := if stop then DrainTop else Waiting;
    }

    /** The wait returns: take a job, or leave the loop. */
    method WakeUp()
      requires Valid() && phase == Waiting && (queue != [] || stop)
      modifies this
      ensures Valid() && Some(View()) == Apply(old(View()), Wake) && promises == old(promises)
    {
      StepKeepsInv(initial, View(), Wake);
      hide Inv;
      if stop && queue == [] {
        phase := DrainTop;
        return;
      }
      phase := Holding(queue[0], false);
      queue := queue[1..];
    }

    /** Runs the job held, under the connection's mutex. */
    method ExecuteJob()
      requires Valid() && phase.Holding?
      modifies this
      ensures Valid() && Some(View()) == Apply(old(View()), Execute) && promises == old(promises)
      ensures old(connected)
    {
      NumbersSplit(|jobs|, executed, [phase.id], queue);
      ExecuteKeepsInv(initial, View());
      hide Inv;
      var (next, status) := jobs[phase.id](db);
      db, executed, phase := next, executed + [phase.id], Done(phase.id, status, phase.draining);
    }

    /** promise.set_value, which must never see a promise twice. */
    method FulfilPromise()
      requires Valid() && phase.Done?
      modifies this
      ensures Valid() && Some(View()) == Apply(old(View()), Fulfil)
      ensures old(phase.id) !in old(promises) && promises == old(promises)[old(phase.id) := old(phase.status)]
    {
      assert phase.id == |fulfilled| by {
        assert (fulfilled + Unfulfilled(View()))[|fulfilled|] == (phase.id, phase.status);
      }
      StepKeepsInv(initial, View(), Fulfil);
      hide Inv;
      promises := promises[phase.id := phase.status];
      fulfilled := fulfilled + [(phase.id, phase.status)];
      phase := if phase.draining then DrainTop else Top;
    }

    /** The drain loop: take a job, or exit. */
    method DrainNext()
      requires Valid() && phase == DrainTop
      modifies this
      ensures Valid() && Some(View()) == Apply(old(View()), DrainTake) && promises == old(promises)
    {
      StepKeepsInv(initial, View(), DrainTake);
      hide Inv;
      if queue == [] {
        phase, atExit := Exited, |jobs|;
        return;
      }
      phase := Holding(queue[0], true);
      queue := queue[1..];
    }

    /** shut_down, after the join: closes the connection. */
    method CloseConnection()
      requires Valid() && stop && phase == Exited
      modifies this
      ensures Valid() && Some(View()) == Apply(old(View()), Close) && promises == old(promises)
    {
      StepKeepsInv(initial, View(), Close);
      hide Inv;
      connected := false;
    }
  }
}
