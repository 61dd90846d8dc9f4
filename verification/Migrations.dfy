/**
 Bringing a database's schema up to date (desktop/src/library/database.cpp, run_migrations).

 A migration is any function of the stored data, given by `migrate`; a run may be broken off by a fault, and is
 then started again later.
 */
module Migrations {
  import opened Wrappers

  const CURRENT := 15
  const TARGETS := [8, 9, 11, 13, 14, 15]

  /** What is stored, and the history of the migrations committed to it. */
  datatype Stored<Data> = Stored(version: int, data: Data, applied: seq<int>)

  /** What can go wrong in a run: the version cannot be read, or the transaction of one migration fails.  A
      migration that fails leaves whatever it had done so far to be rolled back. */
  datatype Fault<Data> =
    | Unreadable
    | CannotBegin(target: int)
    | MigrationFails(target: int, left: Data)
    | CannotSetVersion(target: int)
    | CannotCommit(target: int)

  datatype Error =
    | QueryFailed | Corrupt | NewerSchema(version: int) | BeginFailed(target: int) | StepFailed(target: int)
    | SetVersionFailed(target: int) | CommitFailed(target: int)

  type Status = Result<(), Error>
  type Migration<!Data> = (int, Data) -> Data

  predicate Hits<Data>(fault: Option<Fault<Data>>, target: int) {
    fault.Some? && !fault.value.Unreadable? && fault.value.target == target
  }

  function ErrorOf<Data>(fault: Fault<Data>): Error {
    match fault
    case Unreadable => QueryFailed
    case CannotBegin(t) => BeginFailed(t)
    case MigrationFails(t, _) => StepFailed(t)
    case CannotSetVersion(t) => SetVersionFailed(t)
    case CannotCommit(t) => CommitFailed(t)
  }

  // ----- What a run comes to -----

  /** The first from `from` on of these targets that is above the version. */
  function FirstAbove(targets: seq<int>, version: int, from: nat): (k: nat)
    requires from <= |targets|
    ensures from <= k <= |targets|
    ensures forall i | from <= i < k :: targets[i] <= version
    ensures k < |targets| ==> targets[k] > version
    decreases |targets| - from
  {
    if from == |targets| || targets[from] > version then from else FirstAbove(targets, version, from + 1)
  }

  function Above(targets: seq<int>, version: int): seq<int> {
    targets[FirstAbove(targets, version, 0)..]
  }

  /** The targets a database of this version still has to reach; none when it is corrupt. */
  function Pending(version: int): seq<int> {
    if version < 0 then [] else Above(TARGETS, version)
  }

  /** Migrations committed one after the other. */
  function After<Data>(s: Stored<Data>, targets: seq<int>, migrate: Migration<Data>): Stored<Data> {
    if targets == [] then s
    else
      var before, last := targets[..|targets| - 1], targets[|targets| - 1];
      var b := After(s, before, migrate);
      Stored(last, migrate(last, b.data), b.applied + [last])
  }

  /** How many of these migrations commit before the fault. */
  function Reached<Data>(targets: seq<int>, fault: Option<Fault<Data>>): (k: nat)
    ensures k <= |targets|
    ensures forall i | 0 <= i < k :: !Hits(fault, targets[i])
    ensures k < |targets| ==> Hits(fault, targets[k])
  {
    if targets == [] || Hits(fault, targets[0]) then 0 else 1 + Reached(targets[1..], fault)
  }

  predicate IsUnreadable<Data>(fault: Option<Fault<Data>>) {
    fault.Some? && fault.value.Unreadable?
  }

  function RunOnce<Data>(s: Stored<Data>, fault: Option<Fault<Data>>, migrate: Migration<Data>)
    : (Stored<Data>, Status)
  {
    if IsUnreadable(fault) then (s, Failure(QueryFailed))
    else if s.version < 0 then (s, Failure(Corrupt))
    else if s.version > CURRENT then (s, Failure(NewerSchema(s.version)))
    else
      var pending := Pending(s.version);
      var k := Reached(pending, fault);
      (After(s, pending[..k], migrate),
       if k == |pending| then Success(()) else Failure(ErrorOf(fault.value)))
  }

  /** Runs one after another, each with its own fault or none. */
  function RunAll<Data>(s: Stored<Data>, faults: seq<Option<Fault<Data>>>, migrate: Migration<Data>): Stored<Data>
    decreases faults
  {
    if faults == [] then s else RunAll(RunOnce(s, faults[0], migrate).0, faults[1..], migrate)
  }

  // ----- Every pattern of faults -----

  ghost predicate Increasing(targets: seq<int>) {
    forall i, j | 0 <= i < j < |targets| :: targets[i] < targets[j]
  }

  lemma TargetsIncrease()
    ensures Increasing(TARGETS)
    ensures forall i | 0 <= i < |TARGETS| :: 0 < TARGETS[i] <= CURRENT
    ensures TARGETS != [] && TARGETS[|TARGETS| - 1] == CURRENT
  {
    assert TARGETS[0] == 8 && TARGETS[1] == 9 && TARGETS[2] == 11 && TARGETS[3] == 13 && TARGETS[4] == 14;
  }

  lemma AboveMeaning(targets: seq<int>, version: int)
    requires Increasing(targets)
    ensures Increasing(Above(targets, version))
    ensures forall t :: t in Above(targets, version) <==> t in targets && t > version
  {
    var n := FirstAbove(targets, version, 0);
    forall t | t in targets && t > version ensures t in Above(targets, version) {
      var i :| 0 <= i < |targets| && targets[i] == t;
      assert Above(targets, version)[i - n] == t;
    }
    forall t | t in Above(targets, version) ensures t > version {
      var i :| n <= i < |targets| && targets[i] == t;
    }
  }

  /** What is pending: every target above the version, each once and in increasing order, the last of them the
      current version. */
  lemma PendingMeaning(version: int)
    ensures Increasing(Pending(version))
    ensures forall t :: t in Pending(version) <==> 0 <= version < t && t in {8, 9, 11, 13, 14, 15}
    ensures 0 <= version < CURRENT ==> Pending(version) != [] && Pending(version)[|Pending(version)| - 1] == CURRENT
    ensures version >= CURRENT ==> Pending(version) == []
  {
    PendingTargets(version);
    TargetList();
    hide Pending, Increasing;
  }

  lemma PendingTargets(version: int)
    ensures Increasing(Pending(version))
    ensures forall t :: t in Pending(version) <==> 0 <= version < t && t in TARGETS
    ensures 0 <= version < CURRENT ==> Pending(version) != [] && Pending(version)[|Pending(version)| - 1] == CURRENT
    ensures version >= CURRENT ==> Pending(version) == []
  {
    TargetsIncrease();
    AboveMeaning(TARGETS, version);
    hide TARGETS;
  }

  lemma TargetList()
    ensures forall t :: t in TARGETS <==> t in {8, 9, 11, 13, 14, 15}
  {
  }

  /** Once the k-th target above a version is reached, what follows it is what is above. */
  lemma AboveRest(targets: seq<int>, version: int, k: nat)
    requires Increasing(targets) && k < |Above(targets, version)|
    ensures Above(targets, Above(targets, version)[k]) == Above(targets, version)[k + 1..]
  {
    var m := FirstAbove(targets, version, 0) + k;
    var next := FirstAbove(targets, targets[m], 0);
    assert next > m;
    assert m + 1 == |targets| || targets[m + 1] > targets[m];
    assert next == m + 1;
  }

  lemma {:induction false} AfterConcat<Data>(s: Stored<Data>, a: seq<int>, b: seq<int>, migrate: Migration<Data>)
    ensures After(After(s, a, migrate), b, migrate) == After(s, a + b, migrate)
  {
    if b == [] {
      assert a + b == a;
    } else {
      var before := b[..|b| - 1];
      AfterConcat(s, a, before, migrate);
      assert (a + b)[..|a + b| - 1] == a + before;
    }
  }

  lemma {:induction false} AfterMeaning<Data>(s: Stored<Data>, targets: seq<int>, migrate: Migration<Data>)
    ensures After(s, targets, migrate).applied == s.applied + targets
    ensures After(s, targets, migrate).version == if targets == [] then s.version else targets[|targets| - 1]
  {
    if targets != [] {
      AfterMeaning(s, targets[..|targets| - 1], migrate);
      assert targets == targets[..|targets| - 1] + [targets[|targets| - 1]];
    }
  }

  /** Each migration is given what the one before it left. */
  function Chain<Data>(targets: seq<int>, data: Data, migrate: Migration<Data>): Data
    decreases targets
  {
    if targets == [] then data else Chain(targets[1..], migrate(targets[0], data), migrate)
  }

  lemma {:induction false} ChainSnoc<Data>(targets: seq<int>, last: int, data: Data, migrate: Migration<Data>)
    ensures Chain(targets + [last], data, migrate) == migrate(last, Chain(targets, data, migrate))
    decreases targets
  {
    var all := targets + [last];
    if targets == [] {
      assert all[1..] == [];
    } else {
      assert all[1..] == targets[1..] + [last];
      ChainSnoc(targets[1..], last, migrate(targets[0], data), migrate);
    }
  }

  /** The data are what the migrations make of them, one after the other. */
  lemma {:induction false} DataAfter<Data>(s: Stored<Data>, targets: seq<int>, migrate: Migration<Data>)
    ensures After(s, targets, migrate).data == Chain(targets, s.data, migrate)
    decreases targets
  {
    if targets != [] {
      var before, last := targets[..|targets| - 1], targets[|targets| - 1];
      DataAfter(s, before, migrate);
      ChainSnoc(before, last, s.data, migrate);
      assert targets == before + [last];
    }
  }

  /** What is pending once the first k pending migrations have been applied. */
  lemma PendingAfter<Data>(s: Stored<Data>, k: nat, migrate: Migration<Data>)
    requires k <= |Pending(s.version)|
    ensures Pending(After(s, Pending(s.version)[..k], migrate).version) == Pending(s.version)[k..]
  {
    var done := Pending(s.version)[..k];
    AfterMeaning(s, done, migrate);
    TargetsIncrease();
    hide TARGETS;
    if k > 0 { AboveRest(TARGETS, s.version, k - 1); }
  }

  /** One run moves on by some number of pending migrations, however it ends. */
  lemma RunMovesOn<Data>(s: Stored<Data>, fault: Option<Fault<Data>>, migrate: Migration<Data>) returns (k: nat)
    ensures k <= |Pending(s.version)|
    ensures RunOnce(s, fault, migrate).0 == After(s, Pending(s.version)[..k], migrate)
    ensures RunOnce(s, fault, migrate).1.Success? ==> k == |Pending(s.version)|
  {
    if IsUnreadable(fault) || s.version < 0 || s.version > CURRENT {
      k := 0;
    } else {
      k := Reached(Pending(s.version), fault);
    }
  }

  /** After any runs with any faults the database is where the first k pending migrations put it: each was
      applied once, in increasing order, and none left anything behind by failing. */
  lemma {:induction false} RunsApplyAPrefix<Data>(
      s: Stored<Data>, faults: seq<Option<Fault<Data>>>, migrate: Migration<Data>) returns (k: nat)
    ensures k <= |Pending(s.version)|
    ensures RunAll(s, faults, migrate) == After(s, Pending(s.version)[..k], migrate)
    ensures RunAll(s, faults, migrate).applied == s.applied + Pending(s.version)[..k]
    decreases faults
  {
    hide Pending, After, RunOnce;
    var pending := Pending(s.version);
    if faults == [] {
      k := 0;
      AfterUnfold(s, pending, 0, migrate);
    } else {
      var first := RunMovesOn(s, faults[0], migrate);
      PendingAfter(s, first, migrate);
      var more := RunsApplyAPrefix(RunOnce(s, faults[0], migrate).0, faults[1..], migrate);
      k := first + more;
      TwoPrefixes(s, pending, first, more, migrate);
    }
    AfterMeaning(s, pending[..k], migrate);
  }

  lemma TwoPrefixes<Data>(s: Stored<Data>, targets: seq<int>, a: nat, b: nat, migrate: Migration<Data>)
    requires a + b <= |targets|
    ensures After(After(s, targets[..a], migrate), targets[a..][..b], migrate) == After(s, targets[..a + b], migrate)
  {
    AfterConcat(s, targets[..a], targets[a..][..b], migrate);
    assert targets[..a] + targets[a..][..b] == targets[..a + b];
  }

  /** A run succeeds exactly when the version can be read, is one this program knows, and no pending migration
      meets a fault. */
  lemma SucceedsExactly<Data>(s: Stored<Data>, fault: Option<Fault<Data>>, migrate: Migration<Data>)
    ensures RunOnce(s, fault, migrate).1.Success? <==>
            !IsUnreadable(fault) && 0 <= s.version <= CURRENT &&
            forall t | t in Pending(s.version) :: !Hits(fault, t)
  {
    var pending := Pending(s.version);
    var k := Reached(pending, fault);
    if k < |pending| { assert pending[k] in pending; }
  }

  /** As soon as one of the runs succeeds, the outcome is that of a single undisturbed run: the current version,
      every pending migration applied exactly once, and later runs change nothing. */
  lemma AnySuccessIsComplete<Data>(
      s: Stored<Data>, before: seq<Option<Fault<Data>>>, fault: Option<Fault<Data>>, after: seq<Option<Fault<Data>>>,
      migrate: Migration<Data>)
    requires 0 <= s.version <= CURRENT
    requires RunOnce(RunAll(s, before, migrate), fault, migrate).1.Success?
    ensures RunAll(s, before + [fault] + after, migrate) == RunOnce(s, None, migrate).0
    ensures RunOnce(s, None, migrate).0.version == CURRENT
    ensures RunOnce(s, None, migrate).0.applied == s.applied + Pending(s.version)
  {
    hide Pending, After, RunOnce, RunAll;
    var mid := RunAll(s, before, migrate);
    var k := RunsApplyAPrefix(s, before, migrate);
    SuccessCompletes(s, k, fault, migrate);
    SucceedsExactly(s, None, migrate);
    AfterUnfold(s, Pending(s.version), 0, migrate);
    SuccessCompletes(s, 0, None, migrate);
    var end := RunOnce(s, None, migrate).0;
    NothingLeft(end, after, migrate);
    RunAllSplits(s, before + [fault], after, migrate);
    RunAllSplits(s, before, [fault], migrate);
    RunAllOne(mid, fault, migrate);
  }

  /** What a failed run says of the version: that it could not be read, is corrupt or newer. */
  lemma VersionFailures<Data>(s: Stored<Data>, fault: Option<Fault<Data>>, migrate: Migration<Data>)
    ensures var status := RunOnce(s, fault, migrate).1;
      && (status == Failure(QueryFailed) <==> fault == Some(Unreadable))
      && (status == Failure(Corrupt) <==> fault != Some(Unreadable) && s.version < 0)
      && (forall v :: status == Failure(NewerSchema(v)) <==> fault != Some(Unreadable) && v == s.version > 15)
  {
    hide Pending, Reached, After;
  }

  /** What a failed run says of the migration it failed at: which one it is, and in which of its steps. */
  lemma MigrationFailures<Data>(s: Stored<Data>, fault: Fault<Data>, migrate: Migration<Data>)
    requires 0 <= s.version <= 15 && !fault.Unreadable?
    ensures var status := RunOnce(s, Some(fault), migrate).1;
            if fault.target > s.version && fault.target in {8, 9, 11, 13, 14, 15} then
              status == Failure(match fault
                                case CannotBegin(t) => BeginFailed(t) case MigrationFails(t, _) => StepFailed(t)
                                case CannotSetVersion(t) => SetVersionFailed(t) case CannotCommit(t) => CommitFailed(t))
            else status == Success(())
  {
    PendingMeaning(s.version);
    var pending := Pending(s.version);
    var k := Reached(pending, Some(fault));
    hide Pending, Reached, After;
    if k < |pending| { assert pending[k] in pending; } else { assert fault.target !in pending; }
  }

  lemma RunAllOne<Data>(s: Stored<Data>, fault: Option<Fault<Data>>, migrate: Migration<Data>)
    ensures RunAll(s, [fault], migrate) == RunOnce(s, fault, migrate).0
  {
    hide RunOnce;
    assert [fault][1..] == [];
  }

  /** A run that succeeds from part of the way leaves nothing pending. */
  lemma SuccessCompletes<Data>(s: Stored<Data>, k: nat, fault: Option<Fault<Data>>, migrate: Migration<Data>)
    requires 0 <= s.version <= CURRENT && k <= |Pending(s.version)|
    requires RunOnce(After(s, Pending(s.version)[..k], migrate), fault, migrate).1.Success?
    ensures RunOnce(After(s, Pending(s.version)[..k], migrate), fault, migrate).0 ==
            After(s, Pending(s.version), migrate)
    ensures After(s, Pending(s.version), migrate).version == CURRENT
    ensures After(s, Pending(s.version), migrate).applied == s.applied + Pending(s.version)
  {
    PendingMeaning(s.version);
    AfterMeaning(s, Pending(s.version), migrate);
    hide Pending, After, RunOnce;
    var pending := Pending(s.version);
    var mid := After(s, pending[..k], migrate);
    PendingAfter(s, k, migrate);
    var rest := RunMovesOn(mid, fault, migrate);
    TwoPrefixes(s, pending, k, rest, migrate);
    assert pending[..k + rest] == pending;
    assert s.version == CURRENT ==> After(s, [], migrate) == s by { AfterUnfold(s, [], 0, migrate); }
  }

  lemma NothingLeft<Data>(s: Stored<Data>, faults: seq<Option<Fault<Data>>>, migrate: Migration<Data>)
    requires s.version == CURRENT
    ensures RunAll(s, faults, migrate) == s
  {
    PendingMeaning(s.version);
    var k := RunsApplyAPrefix(s, faults, migrate);
    assert Pending(s.version)[..k] == [];
  }

  lemma {:induction false} RunAllSplits<Data>(
      s: Stored<Data>, a: seq<Option<Fault<Data>>>, b: seq<Option<Fault<Data>>>, migrate: Migration<Data>)
    ensures RunAll(s, a + b, migrate) == RunAll(RunAll(s, a, migrate), b, migrate)
    decreases a
  {
    if a == [] {
      assert a + b == b;
    } else {
      RunAllSplits(RunOnce(s, a[0], migrate).0, a[1..], b, migrate);
      assert (a + b)[1..] == a[1..] + b;
    }
  }

  // ----- The source's loop -----

  /** An open database; `saved` is what a rollback returns to. */
  class Database<Data> {
    const migrate: Migration<Data>
    var version: int
    var data: Data
    var saved: Option<(int, Data)>
    ghost var applied: seq<int>

    ghost function View(): Stored<Data>
      reads this
    {
      Stored(version, data, applied)
    }

    constructor (version: int, data: Data, migrate: Migration<Data>)
      ensures View() == Stored(version, data, []) && saved == None && this.migrate == migrate
    {
      this.version, this.data, this.migrate, saved, applied := version, data, migrate, None, [];
    }

    method Begin()
      requires saved.None?
      modifies this`saved
      ensures saved == Some((version, data))
    {
      saved := Some((version, data));
    }

    method Rollback()
      requires saved.Some?
      modifies this`version, this`data, this`saved
      ensures (version, data) == old(saved.value) && saved.None?
    {
      version, data := saved.value.0, saved.value.1;
      saved := None;
    }

    /** One migration in its transaction: all of it with the new version, or nothing. */
    method MigrateOne(target: int, fault: Option<Fault<Data>>) returns (r: Status)
      requires saved.None?
      modifies this
      ensures saved.None?
      ensures Hits(fault, target) ==> View() == old(View()) && r == Failure(ErrorOf(fault.value))
      ensures !Hits(fault, target) ==>
                View() == Stored(target, migrate(target, old(data)), old(applied) + [target]) && r == Success(())
    {
      var hit := Hits(fault, target);
      if hit && fault.value.CannotBegin? { return Failure(BeginFailed(target)); }
      Begin();
      if hit && fault.value.MigrationFails? {
        data := fault.value.left;
        Rollback();
        return Failure(StepFailed(target));
      }
      data := migrate(target, data);
      if hit && fault.value.CannotSetVersion? {
        Rollback();
        return Failure(SetVersionFailed(target));
      }
      version := target;
      if hit && fault.value.CannotCommit? {
        Rollback();
        return Failure(CommitFailed(target));
      }
      saved, applied := None, applied + [target];
      return Success(());
    }

    method RunMigrations(fault: Option<Fault<Data>>) returns (r: Status)
      requires saved.None?
      modifies this
      ensures saved.None? && (View(), r) == RunOnce(old(View()), fault, migrate)
    {
      if IsUnreadable(fault) { return Failure(QueryFailed); }
      if version < 0 { return Failure(Corrupt); }
      var current := version;
      if current == CURRENT {
        PendingMeaning(version);
        return Success(());
      }
      if current > CURRENT { return Failure(NewerSchema(current)); }
      TargetsIncrease();
      r := RunTable(TARGETS, fault);
    }

    /** The loop over the migration table. */
    method RunTable(targets: seq<int>, fault: Option<Fault<Data>>) returns (r: Status)
      requires saved.None? && !IsUnreadable(fault)
      requires Increasing(targets) && forall i | 0 <= i < |targets| :: targets[i] <= CURRENT
      modifies this
      ensures saved.None?
      ensures var pending := Above(targets, old(version));
              var k := Reached(pending, fault);
              && View() == After(old(View()), pending[..k], migrate)
              && r == if k == |pending| then Success(()) else Failure(ErrorOf(fault.value))
    {
      var current := version;
      ghost var pending, n := Above(targets, version), FirstAbove(targets, version, 0);
      hide After, Reached, Hits, FirstAbove, Above;
      var i := 0;
      ghost var k := 0;
      AfterUnfold(old(View()), pending, 0, migrate);
      while i < |targets|
        invariant i <= |targets| && saved.None? && current == version
        invariant k == if i <= n then 0 else i - n
        invariant current == if i <= n then old(version) else targets[i - 1]
        invariant View() == After(old(View()), pending[..k], migrate)
        invariant forall j | 0 <= j < k :: !Hits(fault, pending[j])
      {
        var target := targets[i];
        i := i + 1;
        if target <= current { continue; }
        if target > CURRENT { break; }
        AfterUnfold(old(View()), pending, k, migrate);
        r := MigrateOne(target, fault);
        if r.Failure? {
          ReachedIs(pending, fault, k);
          return;
        }
        current, k := target, k + 1;
      }
      ReachedIs(pending, fault, k);
      return Success(());
    }
  }

  lemma AfterUnfold<Data>(s: Stored<Data>, targets: seq<int>, k: nat, migrate: Migration<Data>)
    requires k <= |targets|
    ensures After(s, targets[..0], migrate) == s
    ensures k < |targets| ==>
              var b := After(s, targets[..k], migrate);
              After(s, targets[..k + 1], migrate) ==
              Stored(targets[k], migrate(targets[k], b.data), b.applied + [targets[k]])
  {
    if k < |targets| { assert targets[..k + 1][..k] == targets[..k]; }
  }

  lemma ReachedIs<Data>(targets: seq<int>, fault: Option<Fault<Data>>, k: nat)
    requires k <= |targets| && forall j | 0 <= j < k :: !Hits(fault, targets[j])
    requires k < |targets| ==> Hits(fault, targets[k])
    ensures Reached(targets, fault) == k
  {
  }
}
