/** Writable transactions over several backends, any of whose operations may fail at any time. */
module Transactions {

  /** One entry of the guard's list: no transaction, or a handle together with what its database has done. */
  datatype Slot = Missing | Txn(open: bool, begins: nat, commits: nat, rollbacks: nat)

  const IDLE: Slot := Txn(false, 0, 0, 0)
  const OPEN: Slot := Txn(true, 1, 0, 0)
  const COMMITTED: Slot := Txn(false, 1, 1, 0)
  const ROLLED_BACK: Slot := Txn(false, 1, 0, 1)

  /** The guard: its two flags and its transactions. */
  datatype Guard = Guard(started: bool, completed: bool, slots: seq<Slot>)

  datatype Result = Result(guard: Guard, ok: bool)

  datatype Loop = Loop(slots: seq<Slot>, ok: bool)

  /** Which indices fail during one call. */
  type Faults = nat -> bool

  function AnyFault(hooks: Faults, n: nat): bool {
    if n == 0 then false else AnyFault(hooks, n - 1) || hooks(n - 1)
  }

  // ---------------------------------------------------------------------------
  // One call
  // ---------------------------------------------------------------------------

  /** Begins the transactions from index `i` on; stops at one that is already open or fails. */
  function BeginFrom(slots: seq<Slot>, i: nat, faults: Faults): (r: Loop)
    requires i <= |slots|
    ensures |r.slots| == |slots|
    decreases |slots| - i
  {
    if i == |slots| then Loop(slots, true)
    else match slots[i]
      case Missing => BeginFrom(slots, i + 1, faults)
      case Txn(open, b, c, r) =>
        if open || faults(i) then Loop(slots, false) else BeginFrom(slots[i := Txn(true, b + 1, c, r)], i + 1, faults)
  }

  function CommitFrom(slots: seq<Slot>, i: nat, faults: Faults): (r: Loop)
    requires i <= |slots|
    ensures |r.slots| == |slots|
    decreases |slots| - i
  {
    if i == |slots| then Loop(slots, true)
    else match slots[i]
      case Missing => CommitFrom(slots, i + 1, faults)
      case Txn(open, b, c, r) =>
        if !open || faults(i) then Loop(slots, false)
            else CommitFrom(slots[i := Txn(false, b, c + 1, r)], i + 1, faults)
  }

  function RollbackFrom(slots: seq<Slot>, i: nat, faults: Faults): (r: Loop)
    requires i <= |slots|
    ensures |r.slots| == |slots|
    decreases |slots| - i
  {
    if i == |slots| then Loop(slots, true)
    else match slots[i]
      case Missing => RollbackFrom(slots, i + 1, faults)
      case Txn(open, b, c, r) =>
        if !open || faults(i) then Loop(slots, false)
            else RollbackFrom(slots[i := Txn(false, b, c, r + 1)], i + 1, faults)
  }

  /** The destructor's loop goes on after every failure. */
  function AbandonFrom(slots: seq<Slot>, i: nat, faults: Faults): (r: seq<Slot>)
    requires i <= |slots|
    ensures |r| == |slots|
    decreases |slots| - i
  {
    if i == |slots| then slots
    else match slots[i]
      case Missing => AbandonFrom(slots, i + 1, faults)
      case Txn(open, b, c, r) =>
        AbandonFrom(if open && !faults(i) then slots[i := Txn(false, b, c, r + 1)] else slots, i + 1, faults)
  }

  function Begun(g: Guard, faults: Faults, hooks: Faults): Result {
    if g.started then Result(g, true)
    else
      var r := BeginFrom(g.slots, 0, faults);
      var done := r.ok && !AnyFault(hooks, |g.slots|);
      Result(g.(slots := r.slots, started := done), done)
  }

  function Committed(g: Guard, faults: Faults, hooks: Faults): Result {
    if !g.started then Result(g, false)
    else if g.completed then Result(g, true)
    else if AnyFault(hooks, |g.slots|) then Result(g, false)
    else
      var r := CommitFrom(g.slots, 0, faults);
      Result(g.(slots := r.slots, completed := r.ok), r.ok)
  }

  function RolledBack(g: Guard, faults: Faults): Result {
    if !g.started then Result(g, false)
    else if g.completed then Result(g, true)
    else
      var r := RollbackFrom(g.slots, 0, faults);
      Result(g.(slots := r.slots, completed := r.ok), r.ok)
  }

  /** The handles' own destructors abort whatever is still open. */
  function Closed(slot: Slot): Slot {
    match slot
    case Missing => Missing
    case Txn(open, b, c, r) => if open then Txn(false, b, c, r + 1) else slot
  }

  function Destroyed(g: Guard, faults: Faults): seq<Slot> {
    var slots := if g.started && !g.completed then AbandonFrom(g.slots, 0, faults) else g.slots;
    seq(|slots|, i requires 0 <= i < |slots| => Closed(slots[i]))
  }

  // ---------------------------------------------------------------------------
  // Every run
  // ---------------------------------------------------------------------------

  datatype Call =
    | Begin(faults: Faults, hooks: Faults)
    | Commit(faults: Faults, hooks: Faults)
    | Rollback(faults: Faults)

  function Step(g: Guard, call: Call): Guard {
    match call
    case Begin(faults, hooks) => Begun(g, faults, hooks).guard
    case Commit(faults, hooks) => Committed(g, faults, hooks).guard
    case Rollback(faults) => RolledBack(g, faults).guard
  }

  function Run(g: Guard, calls: seq<Call>): Guard
    decreases |calls|
  {
    if calls == [] then g else Run(Step(g, calls[0]), calls[1..])
  }

  ghost predicate Fresh(g: Guard) {
    !g.started && !g.completed && forall i :: 0 <= i < |g.slots| ==> g.slots[i] == Missing || g.slots[i] == IDLE
  }

  /** The first `c` transactions are in state `a`, the others in state `b`. */
  ghost predicate Shape(slots: seq<Slot>, c: nat, a: Slot, b: Slot) {
    c <= |slots| && forall i :: 0 <= i < |slots| ==> slots[i] == Missing || slots[i] == if i < c then a else b
  }

  ghost predicate Split(slots: seq<Slot>, a: Slot, b: Slot) { exists c :: Shape(slots, c, a, b) }

  ghost predicate Inv(g: Guard) {
    && (!g.started ==> !g.completed && Split(g.slots, OPEN, IDLE))
    && (g.started && !g.completed ==> Split(g.slots, COMMITTED, OPEN) || Split(g.slots, ROLLED_BACK, OPEN))
    && (g.completed ==> Shape(g.slots, |g.slots|, COMMITTED, OPEN) || Shape(g.slots, |g.slots|, ROLLED_BACK, OPEN))
  }

  /** No transaction at the indices below `i`. */
  ghost predicate NoneBelow(slots: seq<Slot>, i: nat) {
    i <= |slots| && forall k :: 0 <= k < i ==> slots[k] == Missing
  }

  lemma {:induction false} BeginKeepsShape(slots: seq<Slot>, i: nat, faults: Faults)
    requires i <= |slots| && Shape(slots, i, OPEN, IDLE)
    ensures
      var r := BeginFrom(slots, i, faults);
      Split(r.slots, OPEN, IDLE) && (r.ok ==> Shape(r.slots, |slots|, OPEN, IDLE))
    decreases |slots| - i
  {
    assert Shape(slots, i, OPEN, IDLE);
    if i < |slots| {
      match slots[i]
      case Missing => BeginKeepsShape(slots, i + 1, faults);
      case Txn(open, b, c, r) =>
        if faults(i) {
          assert BeginFrom(slots, i, faults) == Loop(slots, false);
        } else {
          BeginKeepsShape(slots[i := OPEN], i + 1, faults);
        }
    }
  }

  /** A retried begin stops at the first transaction that the failed one left open. */
  lemma {:induction false} BeginAgain(slots: seq<Slot>, i: nat, c: nat, faults: Faults)
    requires i <= c && Shape(slots, c, OPEN, IDLE) && NoneBelow(slots, i)
    ensures
      var r := BeginFrom(slots, i, faults);
      Split(r.slots, OPEN, IDLE) && (r.ok ==> Shape(r.slots, |slots|, OPEN, IDLE))
    decreases c - i
  {
    if i == c {
      BeginKeepsShape(slots, c, faults);
    } else if slots[i].Missing? {
      BeginAgain(slots, i + 1, c, faults);
    } else {
      assert BeginFrom(slots, i, faults) == Loop(slots, false);
    }
  }

  lemma {:induction false} CommitKeepsShape(slots: seq<Slot>, i: nat, faults: Faults)
    requires i <= |slots| && Shape(slots, i, COMMITTED, OPEN)
    ensures
      var r := CommitFrom(slots, i, faults);
      Split(r.slots, COMMITTED, OPEN) && (r.ok ==> Shape(r.slots, |slots|, COMMITTED, OPEN))
    decreases |slots| - i
  {
    assert Shape(slots, i, COMMITTED, OPEN);
    if i < |slots| {
      match slots[i]
      case Missing => CommitKeepsShape(slots, i + 1, faults);
      case Txn(open, b, c, r) =>
        if faults(i) {
          assert CommitFrom(slots, i, faults) == Loop(slots, false);
        } else {
          CommitKeepsShape(slots[i := COMMITTED], i + 1, faults);
        }
    }
  }

  /** A commit that meets a finished transaction first changes nothing. */
  lemma {:induction false} CommitAgain(slots: seq<Slot>, i: nat, c: nat, finished: Slot, faults: Faults)
    requires i <= c && Shape(slots, c, finished, OPEN) && NoneBelow(slots, i) && finished.Txn? && !finished.open
    ensures
      var r := CommitFrom(slots, i, faults);
      if NoneBelow(slots, c) then Split(r.slots, COMMITTED, OPEN) && (r.ok ==> Shape(r.slots, |slots|, COMMITTED, OPEN))
      else r == Loop(slots, false)
    decreases c - i
  {
    if i == c {
      assert Shape(slots, c, COMMITTED, OPEN);
      CommitKeepsShape(slots, c, faults);
    } else if slots[i].Missing? {
      CommitAgain(slots, i + 1, c, finished, faults);
    } else {
      assert CommitFrom(slots, i, faults) == Loop(slots, false) && !NoneBelow(slots, c);
    }
  }

  lemma {:induction false} RollbackKeepsShape(slots: seq<Slot>, i: nat, faults: Faults)
    requires i <= |slots| && Shape(slots, i, ROLLED_BACK, OPEN)
    ensures
      var r := RollbackFrom(slots, i, faults);
      Split(r.slots, ROLLED_BACK, OPEN) && (r.ok ==> Shape(r.slots, |slots|, ROLLED_BACK, OPEN))
    decreases |slots| - i
  {
    assert Shape(slots, i, ROLLED_BACK, OPEN);
    if i < |slots| {
      match slots[i]
      case Missing => RollbackKeepsShape(slots, i + 1, faults);
      case Txn(open, b, c, r) =>
        if faults(i) {
          assert RollbackFrom(slots, i, faults) == Loop(slots, false);
        } else {
          RollbackKeepsShape(slots[i := ROLLED_BACK], i + 1, faults);
        }
    }
  }

  lemma {:induction false} RollbackAgain(slots: seq<Slot>, i: nat, c: nat, finished: Slot, faults: Faults)
    requires i <= c && Shape(slots, c, finished, OPEN) && NoneBelow(slots, i) && finished.Txn? && !finished.open
    ensures
      var r := RollbackFrom(slots, i, faults);
      if NoneBelow(slots, c) then Split(r.slots, ROLLED_BACK, OPEN)
          && (r.ok ==> Shape(r.slots, |slots|, ROLLED_BACK, OPEN))
      else r == Loop(slots, false)
    decreases c - i
  {
    if i == c {
      assert Shape(slots, c, ROLLED_BACK, OPEN);
      RollbackKeepsShape(slots, c, faults);
    } else if slots[i].Missing? {
      RollbackAgain(slots, i + 1, c, finished, faults);
    } else {
      assert RollbackFrom(slots, i, faults) == Loop(slots, false) && !NoneBelow(slots, c);
    }
  }

  /** Each call keeps the invariant, whatever fails during it. */
  lemma StepKeepsInv(g: Guard, call: Call)
    requires Inv(g)
    ensures Inv(Step(g, call)) && |Step(g, call).slots| == |g.slots|
  {
    hide BeginFrom, CommitFrom, RollbackFrom, AnyFault, Shape;
    match call {
      case Begin(faults, hooks) =>
        if !g.started {
          var c :| Shape(g.slots, c, OPEN, IDLE);
          BeginAgain(g.slots, 0, c, faults);
          AllOpen(BeginFrom(g.slots, 0, faults).slots);
        }
      case Commit(faults, hooks) =>
        if g.started && !g.completed {
          if Split(g.slots, COMMITTED, OPEN) {
            var c :| Shape(g.slots, c, COMMITTED, OPEN);
            CommitAgain(g.slots, 0, c, COMMITTED, faults);
          } else {
            var c :| Shape(g.slots, c, ROLLED_BACK, OPEN);
            CommitAgain(g.slots, 0, c, ROLLED_BACK, faults);
          }
        }
      case Rollback(faults) =>
        if g.started && !g.completed {
          if Split(g.slots, COMMITTED, OPEN) {
            var c :| Shape(g.slots, c, COMMITTED, OPEN);
            RollbackAgain(g.slots, 0, c, COMMITTED, faults);
          } else {
            var c :| Shape(g.slots, c, ROLLED_BACK, OPEN);
            RollbackAgain(g.slots, 0, c, ROLLED_BACK, faults);
          }
        }
    }
  }

  lemma AllOpen(slots: seq<Slot>)
    ensures Shape(slots, |slots|, OPEN, IDLE) ==> Shape(slots, 0, COMMITTED, OPEN)
  {
  }

  lemma {:induction false} RunKeepsInv(g: Guard, calls: seq<Call>)
    requires Inv(g)
    ensures Inv(Run(g, calls))
    decreases |calls|
  {
    if calls != [] {
      StepKeepsInv(g, calls[0]);
      RunKeepsInv(Step(g, calls[0]), calls[1..]);
    }
  }

  ghost predicate IsCommitted(slot: Slot) { slot.Txn? && slot.commits > 0 }

  /**
   What holds at every moment: commits form a prefix, nothing is done twice, and nothing
   is both committed and rolled back.
   */
  ghost predicate Safe(slots: seq<Slot>) {
    && (forall i, j :: 0 <= i < j < |slots| && IsCommitted(slots[j]) && slots[i].Txn? ==> IsCommitted(slots[i]))
    && (forall i :: 0 <= i < |slots| && slots[i].Txn? ==>
          var t := slots[i];
          && t.begins <= 1 && t.commits + t.rollbacks <= t.begins
          && t.open == (t.commits + t.rollbacks < t.begins))
  }

  /** In every run of calls on a new guard, with any backends failing at any call. */
  lemma EveryRunIsSafe(g: Guard, calls: seq<Call>)
    requires Fresh(g)
    ensures Safe(Run(g, calls).slots)
  {
    assert Shape(g.slots, 0, OPEN, IDLE);
    RunKeepsInv(g, calls);
    InvIsSafe(Run(g, calls));
  }

  lemma InvIsSafe(g: Guard)
    requires Inv(g)
    ensures Safe(g.slots)
  {
    if !g.started {
      var c :| Shape(g.slots, c, OPEN, IDLE);
    } else if !g.completed {
      var a := if Split(g.slots, COMMITTED, OPEN) then COMMITTED else ROLLED_BACK;
      var c :| Shape(g.slots, c, a, OPEN);
    }
  }

  lemma {:induction false} AbandonedSlots(slots: seq<Slot>, i: nat, faults: Faults)
    requires i <= |slots|
    ensures
      var r := AbandonFrom(slots, i, faults);
      forall k :: 0 <= k < |slots| ==>
          r[k] == slots[k] || (k >= i && slots[k].Txn? && slots[k].open && r[k] == Closed(slots[k]))
    decreases |slots| - i
  {
    if i < |slots| {
      match slots[i]
      case Missing => AbandonedSlots(slots, i + 1, faults);
      case Txn(open, b, c, r) =>
        AbandonedSlots(if open && !faults(i) then slots[i := Txn(false, b, c, r + 1)] else slots, i + 1, faults);
    }
  }

  /**
   After the guard and its transactions are gone nothing is open: each
   transaction that was begun has been committed or rolled back, once, and what
   was committed is exactly what was committed before.
   */
  lemma DestructionClosesAll(g: Guard, calls: seq<Call>, faults: Faults)
    requires Fresh(g)
    ensures
      var before := Run(g, calls);
      var after := Destroyed(before, faults);
      && |after| == |before.slots| && Safe(after)
      && forall i :: 0 <= i < |after| ==>
           && after[i] == Closed(before.slots[i])
           && (after[i].Txn? ==> !after[i].open && after[i].commits + after[i].rollbacks == after[i].begins)
  {
    assert Shape(g.slots, 0, OPEN, IDLE);
    RunKeepsInv(g, calls);
    InvIsSafe(Run(g, calls));
    ClosedIsSafe(Run(g, calls), faults);
  }

  lemma ClosedIsSafe(g: Guard, faults: Faults)
    requires Safe(g.slots)
    ensures
      var after := Destroyed(g, faults);
      && |after| == |g.slots| && Safe(after)
      && forall i :: 0 <= i < |after| ==>
           && after[i] == Closed(g.slots[i])
           && (after[i].Txn? ==> !after[i].open && after[i].commits + after[i].rollbacks == after[i].begins)
  {
    hide AbandonFrom;
    AbandonedSlots(g.slots, 0, faults);
    var after := Destroyed(g, faults);
    forall i | 0 <= i < |after| ensures after[i] == Closed(g.slots[i]) {
      assert Closed(Closed(g.slots[i])) == Closed(g.slots[i]);
    }
    forall i, j | 0 <= i < j < |after| && IsCommitted(after[j]) && after[i].Txn? ensures IsCommitted(after[i]) {
      assert IsCommitted(g.slots[j]) && g.slots[i].Txn?;
    }
  }

  // ---------------------------------------------------------------------------
  // What a failed commit leaves
  // ---------------------------------------------------------------------------

  /** The slot's transaction has been finished, one way or the other. */
  ghost predicate IsFinished(slot: Slot) { slot.Txn? && slot.commits + slot.rollbacks > 0 }

  ghost predicate NoneFinished(slots: seq<Slot>) { forall i :: 0 <= i < |slots| ==> !IsFinished(slots[i]) }

  /** Once a commit or a rollback has failed behind a finished transaction, no call can do anything more. */
  lemma PartlyFinishedIsStuck(g: Guard, call: Call)
    requires Inv(g) && g.started && !g.completed && !NoneFinished(g.slots)
    ensures Step(g, call) == g
    ensures call.Commit? ==> !Committed(g, call.faults, call.hooks).ok
    ensures call.Rollback? ==> !RolledBack(g, call.faults).ok
  {
    hide CommitFrom, RollbackFrom;
    var a := if Split(g.slots, COMMITTED, OPEN) then COMMITTED else ROLLED_BACK;
    var c :| Shape(g.slots, c, a, OPEN);
    var i :| 0 <= i < |g.slots| && IsFinished(g.slots[i]);
    assert i < c && !NoneBelow(g.slots, c);
    match call
    case Begin(faults, hooks) =>
    case Commit(faults, hooks) => CommitAgain(g.slots, 0, c, a, faults);
    case Rollback(faults) => RollbackAgain(g.slots, 0, c, a, faults);
  }

  /** A started guard can still commit, and can still roll back, exactly when none of its transactions is finished. */
  lemma CanFinishExactly(g: Guard, quiet: Faults)
    requires Inv(g) && g.started && !g.completed && forall i :: !quiet(i)
    ensures Committed(g, quiet, quiet).ok <==> NoneFinished(g.slots)
    ensures RolledBack(g, quiet).ok <==> NoneFinished(g.slots)
  {
    if NoneFinished(g.slots) {
      var a := if Split(g.slots, COMMITTED, OPEN) then COMMITTED else ROLLED_BACK;
      var c :| Shape(g.slots, c, a, OPEN);
      assert forall i :: 0 <= i < c && g.slots[i] != Missing ==> IsFinished(g.slots[i]);
      assert Shape(g.slots, 0, COMMITTED, OPEN) && Shape(g.slots, 0, ROLLED_BACK, OPEN);
      NoHookFault(quiet, |g.slots|);
      QuietCommit(g.slots, 0, quiet);
      QuietRollback(g.slots, 0, quiet);
    } else {
      PartlyFinishedIsStuck(g, Commit(quiet, quiet));
      PartlyFinishedIsStuck(g, Rollback(quiet));
    }
  }

  ghost predicate NoneOpen(slots: seq<Slot>) { forall i :: 0 <= i < |slots| ==> slots[i].Txn? ==> !slots[i].open }

  /** A begin that failed part-way cannot be repeated: it works exactly while no transaction is open. */
  lemma CanBeginExactly(g: Guard, quiet: Faults)
    requires Inv(g) && !g.started && forall i :: !quiet(i)
    ensures Begun(g, quiet, quiet).ok <==> NoneOpen(g.slots)
    ensures !NoneOpen(g.slots) ==> Begun(g, quiet, quiet).guard == g
  {
    var c :| Shape(g.slots, c, OPEN, IDLE);
    if NoneOpen(g.slots) {
      assert Shape(g.slots, 0, OPEN, IDLE);
      NoHookFault(quiet, |g.slots|);
      QuietBegin(g.slots, 0, quiet);
    } else {
      BeginRefused(g.slots, 0, c, quiet);
    }
  }

  lemma {:induction false} BeginRefused(slots: seq<Slot>, i: nat, c: nat, faults: Faults)
    requires i <= c && Shape(slots, c, OPEN, IDLE) && NoneBelow(slots, i) && !NoneOpen(slots)
    ensures BeginFrom(slots, i, faults) == Loop(slots, false)
    decreases c - i
  {
    assert i < c;
    if slots[i].Missing? { BeginRefused(slots, i + 1, c, faults); }
  }

  /** Two backends, the second of which fails once while committing, or while rolling back. */
  lemma StuckGuardsAreReachable()
    ensures
      var two := Guard(false, false, [IDLE, IDLE]);
      var none: Faults := i => false;
      var second: Faults := i => i == 1;
      && Fresh(two)
      && Run(two, [Begin(none, none), Commit(second, none)]) == Guard(true, false, [COMMITTED, OPEN])
      && Run(two, [Begin(none, none), Rollback(second)]) == Guard(true, false, [ROLLED_BACK, OPEN])
  {
    var two := Guard(false, false, [IDLE, IDLE]);
    var none: Faults := i => false;
    var second: Faults := i => i == 1;
    var begun := Guard(true, false, [OPEN, OPEN]);
    NoHookFault(none, 2);
    TwoSlots(none, second);
    var commits, rollbacks := [Begin(none, none), Commit(second, none)], [Begin(none, none), Rollback(second)];
    assert Step(two, commits[0]) == begun;
    assert commits[1..] == [commits[1]] && commits[1..][1..] == [];
    assert rollbacks[1..] == [rollbacks[1]] && rollbacks[1..][1..] == [];
    assert Run(begun, [commits[1]]) == Guard(true, false, [COMMITTED, OPEN]);
    assert Run(begun, [rollbacks[1]]) == Guard(true, false, [ROLLED_BACK, OPEN]);
  }

  /** The three loops on two transactions. */
  lemma TwoSlots(none: Faults, second: Faults)
    requires !none(0) && !none(1) && !second(0) && second(1)
    ensures BeginFrom([IDLE, IDLE], 0, none) == Loop([OPEN, OPEN], true)
    ensures CommitFrom([OPEN, OPEN], 0, second) == Loop([COMMITTED, OPEN], false)
    ensures RollbackFrom([OPEN, OPEN], 0, second) == Loop([ROLLED_BACK, OPEN], false)
  {
    assert [IDLE, IDLE][0 := OPEN] == [OPEN, IDLE] && [OPEN, IDLE][1 := OPEN] == [OPEN, OPEN];
    assert BeginFrom([OPEN, OPEN], 2, none) == Loop([OPEN, OPEN], true);
    assert BeginFrom([OPEN, IDLE], 1, none) == Loop([OPEN, OPEN], true);
    assert [OPEN, OPEN][0 := COMMITTED] == [COMMITTED, OPEN];
    assert CommitFrom([COMMITTED, OPEN], 1, second) == Loop([COMMITTED, OPEN], false);
    assert [OPEN, OPEN][0 := ROLLED_BACK] == [ROLLED_BACK, OPEN];
    assert RollbackFrom([ROLLED_BACK, OPEN], 1, second) == Loop([ROLLED_BACK, OPEN], false);
  }

  /** Without failures, begin and commit make every transaction committed. */
  lemma WithoutFaults(g: Guard, quiet: Faults)
    requires Fresh(g) && forall i :: !quiet(i)
    ensures
      var b := Begun(g, quiet, quiet);
      var c := Committed(b.guard, quiet, quiet);
      b.ok && c.ok && Shape(c.guard.slots, |g.slots|, COMMITTED, OPEN)
  {
    NoHookFault(quiet, |g.slots|);
    QuietBegin(g.slots, 0, quiet);
    var b := Begun(g, quiet, quiet).guard;
    AllOpen(b.slots);
    QuietCommit(b.slots, 0, quiet);
  }

  lemma {:induction false} NoHookFault(quiet: Faults, n: nat)
    requires forall i :: !quiet(i)
    ensures !AnyFault(quiet, n)
  {
    if n > 0 { NoHookFault(quiet, n - 1); }
  }

  lemma {:induction false} QuietBegin(slots: seq<Slot>, i: nat, quiet: Faults)
    requires i <= |slots| && Shape(slots, i, OPEN, IDLE) && forall i :: !quiet(i)
    ensures BeginFrom(slots, i, quiet).ok && Shape(BeginFrom(slots, i, quiet).slots, |slots|, OPEN, IDLE)
    decreases |slots| - i
  {
    if i < |slots| { QuietBegin(if slots[i].Missing? then slots else slots[i := OPEN], i + 1, quiet); }
  }

  lemma {:induction false} QuietCommit(slots: seq<Slot>, i: nat, quiet: Faults)
    requires i <= |slots| && Shape(slots, i, COMMITTED, OPEN) && forall i :: !quiet(i)
    ensures CommitFrom(slots, i, quiet).ok && Shape(CommitFrom(slots, i, quiet).slots, |slots|, COMMITTED, OPEN)
    decreases |slots| - i
  {
    if i < |slots| { QuietCommit(if slots[i].Missing? then slots else slots[i := COMMITTED], i + 1, quiet); }
  }

  lemma {:induction false} QuietRollback(slots: seq<Slot>, i: nat, quiet: Faults)
    requires i <= |slots| && Shape(slots, i, ROLLED_BACK, OPEN) && forall i :: !quiet(i)
    ensures RollbackFrom(slots, i, quiet).ok && Shape(RollbackFrom(slots, i, quiet).slots, |slots|, ROLLED_BACK, OPEN)
    decreases |slots| - i
  {
    if i < |slots| { QuietRollback(if slots[i].Missing? then slots else slots[i := ROLLED_BACK], i + 1, quiet); }
  }

  // ---------------------------------------------------------------------------
  // What one call does
  // ---------------------------------------------------------------------------

  // Each loop runs up to `stop`: the first transaction it cannot deal with, or the end of the list.

  lemma {:induction false} BeginLoop(slots: seq<Slot>, i: nat, faults: Faults) returns (stop: nat)
    requires i <= |slots|
    ensures i <= stop <= |slots|
    ensures forall k :: i <= k < stop && slots[k].Txn? ==> !slots[k].open && !faults(k)
    ensures stop < |slots| ==> slots[stop].Txn? && (slots[stop].open || faults(stop))
    ensures BeginFrom(slots, i, faults).ok <==> stop == |slots|
    ensures forall k :: 0 <= k < |slots| ==>
              BeginFrom(slots, i, faults).slots[k] ==
              if i <= k < stop && slots[k].Txn?
                  then Txn(true, slots[k].begins + 1, slots[k].commits, slots[k].rollbacks)
              else slots[k]
    decreases |slots| - i
  {
    if i == |slots| || (slots[i].Txn? && (slots[i].open || faults(i))) {
      stop := i;
    } else if slots[i].Missing? {
      stop := BeginLoop(slots, i + 1, faults);
    } else {
      var next := slots[i := Txn(true, slots[i].begins + 1, slots[i].commits, slots[i].rollbacks)];
      stop := BeginLoop(next, i + 1, faults);
      forall k | i <= k < stop && slots[k].Txn? ensures !slots[k].open && !faults(k) {
        assert k > i ==> next[k] == slots[k];
      }
    }
  }

  lemma {:induction false} CommitLoop(slots: seq<Slot>, i: nat, faults: Faults) returns (stop: nat)
    requires i <= |slots|
    ensures i <= stop <= |slots|
    ensures forall k :: i <= k < stop && slots[k].Txn? ==> slots[k].open && !faults(k)
    ensures stop < |slots| ==> slots[stop].Txn? && (!slots[stop].open || faults(stop))
    ensures CommitFrom(slots, i, faults).ok <==> stop == |slots|
    ensures forall k :: 0 <= k < |slots| ==>
              CommitFrom(slots, i, faults).slots[k] ==
              if i <= k < stop && slots[k].Txn?
                  then Txn(false, slots[k].begins, slots[k].commits + 1, slots[k].rollbacks)
              else slots[k]
    decreases |slots| - i
  {
    if i == |slots| || (slots[i].Txn? && (!slots[i].open || faults(i))) {
      stop := i;
    } else if slots[i].Missing? {
      stop := CommitLoop(slots, i + 1, faults);
    } else {
      var next := slots[i := Txn(false, slots[i].begins, slots[i].commits + 1, slots[i].rollbacks)];
      stop := CommitLoop(next, i + 1, faults);
      forall k | i <= k < stop && slots[k].Txn? ensures slots[k].open && !faults(k) {
        assert k > i ==> next[k] == slots[k];
      }
    }
  }

  lemma {:induction false} RollbackLoop(slots: seq<Slot>, i: nat, faults: Faults) returns (stop: nat)
    requires i <= |slots|
    ensures i <= stop <= |slots|
    ensures forall k :: i <= k < stop && slots[k].Txn? ==> slots[k].open && !faults(k)
    ensures stop < |slots| ==> slots[stop].Txn? && (!slots[stop].open || faults(stop))
    ensures RollbackFrom(slots, i, faults).ok <==> stop == |slots|
    ensures forall k :: 0 <= k < |slots| ==>
              RollbackFrom(slots, i, faults).slots[k] ==
              if i <= k < stop && slots[k].Txn?
                  then Txn(false, slots[k].begins, slots[k].commits, slots[k].rollbacks + 1)
              else slots[k]
    decreases |slots| - i
  {
    if i == |slots| || (slots[i].Txn? && (!slots[i].open || faults(i))) {
      stop := i;
    } else if slots[i].Missing? {
      stop := RollbackLoop(slots, i + 1, faults);
    } else {
      var next := slots[i := Txn(false, slots[i].begins, slots[i].commits, slots[i].rollbacks + 1)];
      stop := RollbackLoop(next, i + 1, faults);
      forall k | i <= k < stop && slots[k].Txn? ensures slots[k].open && !faults(k) {
        assert k > i ==> next[k] == slots[k];
      }
    }
  }

  lemma {:induction false} AnyFaultIs(hooks: Faults, n: nat)
    ensures AnyFault(hooks, n) <==> exists i :: 0 <= i < n && hooks(i)
  {
    if n > 0 { AnyFaultIs(hooks, n - 1); }
  }

  ghost predicate HookFails(hooks: Faults, n: nat) { exists i :: 0 <= i < n && hooks(i) }

  /**
   `begin`: nothing to do on a started guard. Otherwise the transactions before the
   first that is open or fails are opened, and the guard is started exactly when there
   is no such transaction and no hook fails; after a failing hook all are open.
   */
  lemma BeginOutcome(g: Guard, faults: Faults, hooks: Faults) returns (stop: nat)
    ensures stop <= |g.slots|
    ensures forall k :: 0 <= k < stop && g.slots[k].Txn? ==> !g.slots[k].open && !faults(k)
    ensures stop < |g.slots| ==> g.slots[stop].Txn? && (g.slots[stop].open || faults(stop))
    ensures
      var r, n := Begun(g, faults, hooks), |g.slots|;
      if g.started then r == Result(g, true)
      else
        && r.ok == r.guard.started == (stop == n && !HookFails(hooks, n))
        && r.guard.completed == g.completed && |r.guard.slots| == n
        && forall k :: 0 <= k < n ==>
             var t := g.slots[k];
             r.guard.slots[k] ==
             if k < stop && t.Txn? then Txn(true, t.begins + 1, t.commits, t.rollbacks) else t
  {
    hide BeginFrom;
    stop := BeginLoop(g.slots, 0, faults);
    AnyFaultIs(hooks, |g.slots|);
  }

  /**
   `commit`: an error before `begin`, nothing to do on a completed guard, and nothing
   but an error when a hook fails. Otherwise the transactions before the first that is
   not open or fails are committed, and the guard is completed when that is all of them.
   */
  lemma CommitOutcome(g: Guard, faults: Faults, hooks: Faults) returns (stop: nat)
    ensures stop <= |g.slots|
    ensures forall k :: 0 <= k < stop && g.slots[k].Txn? ==> g.slots[k].open && !faults(k)
    ensures stop < |g.slots| ==> g.slots[stop].Txn? && (!g.slots[stop].open || faults(stop))
    ensures
      var r, n := Committed(g, faults, hooks), |g.slots|;
      if !g.started then r == Result(g, false)
      else if g.completed then r == Result(g, true)
      else if HookFails(hooks, n) then r == Result(g, false)
      else
        && r.ok == r.guard.completed == (stop == n)
        && r.guard.started && |r.guard.slots| == n
        && forall k :: 0 <= k < n ==>
             var t := g.slots[k];
             r.guard.slots[k] ==
             if k < stop && t.Txn? then Txn(false, t.begins, t.commits + 1, t.rollbacks) else t
  {
    hide CommitFrom;
    stop := CommitLoop(g.slots, 0, faults);
    AnyFaultIs(hooks, |g.slots|);
  }

  /** `rollback`: as `commit`, without hooks, and what is reached is rolled back. */
  lemma RollbackOutcome(g: Guard, faults: Faults) returns (stop: nat)
    ensures stop <= |g.slots|
    ensures forall k :: 0 <= k < stop && g.slots[k].Txn? ==> g.slots[k].open && !faults(k)
    ensures stop < |g.slots| ==> g.slots[stop].Txn? && (!g.slots[stop].open || faults(stop))
    ensures
      var r, n := RolledBack(g, faults), |g.slots|;
      if !g.started then r == Result(g, false)
      else if g.completed then r == Result(g, true)
      else
        && r.ok == r.guard.completed == (stop == n)
        && r.guard.started && |r.guard.slots| == n
        && forall k :: 0 <= k < n ==>
             var t := g.slots[k];
             r.guard.slots[k] ==
             if k < stop && t.Txn? then Txn(false, t.begins, t.commits, t.rollbacks + 1) else t
  {
    hide RollbackFrom;
    stop := RollbackLoop(g.slots, 0, faults);
  }

  /** Destruction: every open transaction is rolled back once, by the guard or by its handle; nothing else changes. */
  lemma DestroyOutcome(g: Guard, faults: Faults)
    ensures |Destroyed(g, faults)| == |g.slots|
    ensures forall k :: 0 <= k < |g.slots| ==>
              var t := g.slots[k];
              Destroyed(g, faults)[k] ==
              if t.Txn? && t.open then Txn(false, t.begins, t.commits, t.rollbacks + 1) else t
  {
    hide AbandonFrom;
    AbandonedSlots(g.slots, 0, faults);
    forall k | 0 <= k < |g.slots|
      ensures
        var t := g.slots[k];
        Destroyed(g, faults)[k] == if t.Txn? && t.open then Txn(false, t.begins, t.commits, t.rollbacks + 1) else t
    {
      var slots := if g.started && !g.completed then AbandonFrom(g.slots, 0, faults) else g.slots;
      assert slots[k] == g.slots[k] || slots[k] == Closed(g.slots[k]);
      assert Closed(slots[k]) == Closed(g.slots[k]);
      assert Destroyed(g, faults)[k] == Closed(slots[k]);
    }
  }

  // ---------------------------------------------------------------------------
  // The classes
  // ---------------------------------------------------------------------------

  /** A writable transaction: the handle, and counts of what its database has carried out. */
  class MDBXTransaction {
    var handle: bool
    var begins: nat
    var commits: nat
    var rollbacks: nat

    ghost function Value(): Slot
      reads this
    {
      Txn(handle, begins, commits, rollbacks)
    }

    constructor ()
      ensures Value() == IDLE
    {
      handle, begins, commits, rollbacks := false, 0, 0, 0;
    }

    /** Refused when already started; the handle is set only when the database succeeds. */
    method Begin(fault: bool) returns (ok: bool)
      modifies this
      ensures ok == (!old(handle) && !fault)
      ensures Value() == if ok then Txn(true, old(begins) + 1, old(commits), old(rollbacks)) else old(Value())
    {
      if handle { return false; }
      if fault { return false; }
      handle, begins := true, begins + 1;
      ok := true;
    }

    /** A failed commit keeps the handle. */
    method Commit(fault: bool) returns (ok: bool)
      modifies this
      ensures ok == (old(handle) && !fault)
      ensures Value() == if ok then Txn(false, old(begins), old(commits) + 1, old(rollbacks)) else old(Value())
    {
      if !handle { return false; }
      if fault { return false; }
      handle, commits := false, commits + 1;
      ok := true;
    }

    method Rollback(fault: bool) returns (ok: bool)
      modifies this
      ensures ok == (old(handle) && !fault)
      ensures Value() == if ok then Txn(false, old(begins), old(commits), old(rollbacks) + 1) else old(Value())
    {
      if !handle { return false; }
      if fault { return false; }
      handle, rollbacks := false, rollbacks + 1;
      ok := true;
    }

    /** The destructor aborts an open transaction and does not look at the outcome. */
    method Destroy()
      modifies this
      ensures Value() == Closed(old(Value()))
    {
      if !handle { return; }
      handle, rollbacks := false, rollbacks + 1;
    }
  }

  class TransactionGuard {
    var started: bool
    var completed: bool
    const transactions: seq<MDBXTransaction?>

    ghost predicate Valid() {
      forall i, j :: 0 <= i < j < |transactions| && transactions[i] != null ==> transactions[i] != transactions[j]
    }

    ghost function Slots(): (r: seq<Slot>)
      reads transactions
      ensures |r| == |transactions|
    {
      seq(|transactions|, i requires 0 <= i < |transactions| reads transactions =>
        if transactions[i] == null then Missing else transactions[i].Value())
    }

    ghost function State(): Guard
      reads this, transactions
    {
      Guard(started, completed, Slots())
    }

    constructor (transactions: seq<MDBXTransaction?>)
      requires forall i, j :: 0 <= i < j < |transactions| && transactions[i] != null ==>
               transactions[i] != transactions[j]
      requires forall t :: t in transactions && t != null ==> t.Value() == IDLE
      ensures this.transactions == transactions && Valid() && Fresh(State())
    {
      this.transactions := transactions;
      started, completed := false, false;
    }

    /** Only the slot of the transaction that was changed differs. */
    twostate lemma OneSlot(i: nat)
      requires Valid() && i < |transactions| && transactions[i] != null
      requires forall t :: t in transactions && t != null && t != transactions[i] ==> t.Value() == old(t.Value())
      ensures Slots() == old(Slots())[i := transactions[i].Value()]
    {
    }

    method Begin(faults: Faults, hooks: Faults) returns (ok: bool)
      requires Valid()
      modifies this, transactions
      ensures Valid() && Result(State(), ok) == Begun(old(State()), faults, hooks)
    {
      if started { return true; }
      ghost var goal := BeginFrom(Slots(), 0, faults);
      var i := 0;
      while i < |transactions|
        invariant 0 <= i <= |transactions| && !started && completed == old(completed)
        invariant BeginFrom(Slots(), i, faults) == goal
      {
        if transactions[i] != null {
          label before:
          ghost var slots := Slots();
          var begun := transactions[i].Begin(faults(i));
          OneSlot@before(i);
          assert slots[i] == old@before(transactions[i].Value());
          if !begun {
            assert Slots() == slots;
            return false;
          }
        }
        i := i + 1;
      }
      var failed := RunHooks(hooks);
      if failed { return false; }
      started := true;
      ok := true;
    }

    /** The `before_transaction` or `after_transaction` calls: the first failure ends them. */
    method RunHooks(hooks: Faults) returns (failed: bool)
      ensures failed == AnyFault(hooks, |transactions|)
    {
      for i := 0 to |transactions|
        invariant !AnyFault(hooks, i)
      {
        if hooks(i) {
          FaultStays(hooks, i, |transactions|);
          return true;
        }
      }
      failed := false;
    }

    lemma {:induction false} FaultStays(hooks: Faults, i: nat, n: nat)
      requires i < n && hooks(i)
      ensures AnyFault(hooks, n)
      decreases n
    {
      if i < n - 1 { FaultStays(hooks, i, n - 1); }
    }

    method Commit(faults: Faults, hooks: Faults) returns (ok: bool)
      requires Valid()
      modifies this, transactions
      ensures Valid() && Result(State(), ok) == Committed(old(State()), faults, hooks)
    {
      if !started { return false; }
      if completed { return true; }
      var failed := RunHooks(hooks);
      if failed { return false; }
      ghost var goal := CommitFrom(Slots(), 0, faults);
      var i := 0;
      while i < |transactions|
        invariant 0 <= i <= |transactions| && started && !completed
        invariant CommitFrom(Slots(), i, faults) == goal
      {
        if transactions[i] != null {
          label before:
          ghost var slots := Slots();
          var committed := transactions[i].Commit(faults(i));
          OneSlot@before(i);
          assert slots[i] == old@before(transactions[i].Value());
          if !committed {
            assert Slots() == slots;
            return false;
          }
        }
        i := i + 1;
      }
      completed := true;
      ok := true;
    }

    method Rollback(faults: Faults) returns (ok: bool)
      requires Valid()
      modifies this, transactions
      ensures Valid() && Result(State(), ok) == RolledBack(old(State()), faults)
    {
      if !started { return false; }
      if completed { return true; }
      ghost var goal := RollbackFrom(Slots(), 0, faults);
      var i := 0;
      while i < |transactions|
        invariant 0 <= i <= |transactions| && started && !completed
        invariant RollbackFrom(Slots(), i, faults) == goal
      {
        if transactions[i] != null {
          label before:
          ghost var slots := Slots();
          var rolledBack := transactions[i].Rollback(faults(i));
          OneSlot@before(i);
          assert slots[i] == old@before(transactions[i].Value());
          if !rolledBack {
            assert Slots() == slots;
            return false;
          }
        }
        i := i + 1;
      }
      completed := true;
      ok := true;
    }

    /** The guard's destructor, and then those of the transactions it owns. */
    method Destroy(faults: Faults)
      requires Valid()
      modifies transactions
      ensures Slots() == Destroyed(old(State()), faults)
    {
      if started && !completed { RollbackEach(faults); }
      ghost var slots := Slots();
      var i := 0;
      while i < |transactions|
        invariant 0 <= i <= |transactions|
        invariant forall k :: 0 <= k < |transactions| ==> Slots()[k] == if k < i then Closed(slots[k]) else slots[k]
      {
        if transactions[i] != null {
          label before:
          transactions[i].Destroy();
          OneSlot@before(i);
        }
        i := i + 1;
      }
    }

    /** Exceptions are swallowed, so every transaction is tried. */
    method RollbackEach(faults: Faults)
      requires Valid()
      modifies transactions
      ensures Slots() == AbandonFrom(old(Slots()), 0, faults)
    {
      ghost var goal := AbandonFrom(Slots(), 0, faults);
      var i := 0;
      while i < |transactions|
        invariant 0 <= i <= |transactions|
        invariant AbandonFrom(Slots(), i, faults) == goal
      {
        if transactions[i] != null {
          label before:
          ghost var slots := Slots();
          var ignored := transactions[i].Rollback(faults(i));
          OneSlot@before(i);
          assert slots[i] == old@before(transactions[i].Value());
          assert !ignored ==> Slots() == slots;
        }
        i := i + 1;
      }
    }
  }
}
