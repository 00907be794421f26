/** The lifecycle lock and the approved identities, over any interleaving of processes that may crash. */
module Lifecycle {
  import opened Wrappers

  type Process = nat

  /** What identifies an installation: its install lock, its package lock and its rollback point. */
  datatype Installed = Installed(install: string, package: string, point: Option<string>)

  /** An approval names what the caller expects to replace; nothing named means no such check. */
  datatype Operation =
    | Install(install: Option<string>, package: Option<string>, point: Option<string>, persistent: bool)
    | Rollback(lock: Option<string>, approvedPoint: Option<string>)
    | Uninstall

  /** The fingerprint of the rollback point that would record an installation. */
  type PointOf = Installed -> string

  /** The checks an operation makes, under the lock, before it changes anything. */
  predicate Approved(pointOf: PointOf, op: Operation, installed: Option<Installed>) {
    match op
    case Install(install, package, point, persistent) =>
      && ((install.None? && package.None?)
          || (installed.Some? && install == Some(installed.value.install) && package == Some(installed.value.package)))
      && (installed.Some? && installed.value.point.Some? ==> persistent)
      && (persistent ==> installed.Some?)
      && (point.Some? ==> persistent && installed.Some? && point.value == pointOf(installed.value))
    case Rollback(lock, point) =>
      && installed.Some? && installed.value.point.Some?
      && (lock.Some? ==> lock.value == installed.value.package)
      && (point.Some? ==> point == installed.value.point)
    case Uninstall => installed.Some?
  }

  /** What speaks against an operation: an identity that is not the one installed, a rollback point that would be
      lost or has nothing to record, one that is not the approved one, or nothing to act on. */
  ghost predicate Objectionable(pointOf: PointOf, op: Operation, installed: Option<Installed>) {
    match op
    case Install(install, package, point, persistent) =>
      || ((install.Some? || package.Some?) && installed.None?)
      || (installed.Some? && package.Some? && (install.None? || package.value != installed.value.package))
      || (installed.Some? && install.Some? && (package.None? || install.value != installed.value.install))
      || (installed.Some? && installed.value.point.Some? && !persistent)
      || (installed.None? && persistent)
      || (point.Some? && !persistent)
      || (point.Some? && installed.Some? && point.value != pointOf(installed.value))
    case Rollback(lock, point) =>
      || installed.None? || installed.value.point.None?
      || (lock.Some? && lock.value != installed.value.package)
      || (point.Some? && point.value != installed.value.point.value)
    case Uninstall => installed.None?
  }

  lemma ApprovedWithoutObjection(pointOf: PointOf, op: Operation, installed: Option<Installed>)
    ensures Approved(pointOf, op, installed) <==> !Objectionable(pointOf, op, installed)
  {
  }

  /** Where a process stands. */
  datatype Phase = Idle | Inside(op: Operation, checked: bool) | Leaving | Crashed

  /** One change of the installation; `complete` unless recovery failed or the process died. */
  datatype Entry = Entry(process: Process, op: Operation, before: Option<Installed>, after: Option<Installed>, complete: bool)

  /** A lock is stale when its owner could not remove it and has gone. */
  datatype State = State(lock: bool, stale: bool, installed: Option<Installed>, phase: map<Process, Phase>, log: seq<Entry>)

  predicate Occupies(phase: Phase) { !phase.Idle? }

  // ---------------------------------------------------------------- steps

  /** `mkdir` of the lock directory: it succeeds only when the directory is not there. */
  ghost predicate Enter(s: State, t: State, p: Process, op: Operation) {
    p in s.phase && s.phase[p].Idle? && !s.lock && t == s.(lock := true, phase := s.phase[p := Inside(op, false)])
  }

  ghost predicate Check(s: State, t: State, p: Process, pointOf: PointOf) {
    && p in s.phase && s.phase[p].Inside? && !s.phase[p].checked
    && t == s.(phase := s.phase[p := if Approved(pointOf, s.phase[p].op, s.installed) then Inside(s.phase[p].op, true) else Leaving])
  }

  /** The swap: what it leaves is up to the operation. */
  ghost predicate Change(s: State, t: State, p: Process, after: Option<Installed>, complete: bool) {
    && p in s.phase && s.phase[p].Inside? && s.phase[p].checked
    && t == s.(installed := after, phase := s.phase[p := Leaving], log := s.log + [Entry(p, s.phase[p].op, s.installed, after, complete)])
  }

  /** A refusal or a failure that recovery undid. */
  ghost predicate Abort(s: State, t: State, p: Process) {
    p in s.phase && s.phase[p].Inside? && t == s.(phase := s.phase[p := Leaving])
  }

  ghost predicate Leave(s: State, t: State, p: Process) {
    p in s.phase && s.phase[p].Leaving? && t == s.(lock := false, phase := s.phase[p := Idle])
  }

  /** `rmdir` of the lock directory fails: the process goes and the directory stays. */
  ghost predicate Strand(s: State, t: State, p: Process) {
    p in s.phase && s.phase[p].Leaving? && t == s.(stale := true, phase := s.phase[p := Idle])
  }

  /** The process dies: the directory stays, and a swap under way may be torn. */
  ghost predicate Crash(s: State, t: State, p: Process, torn: Option<Installed>) {
    && p in s.phase && (s.phase[p].Inside? || s.phase[p].Leaving?)
    && t.lock == s.lock && t.stale == s.stale && t.phase == s.phase[p := Crashed]
    && if s.phase[p].Inside? && s.phase[p].checked
       then t.installed == torn && t.log == s.log + [Entry(p, s.phase[p].op, s.installed, torn, false)]
       else t.installed == s.installed && t.log == s.log
  }

  ghost predicate Next(s: State, t: State, pointOf: PointOf) {
    || (exists p, op :: Enter(s, t, p, op))
    || (exists p :: Check(s, t, p, pointOf) || Abort(s, t, p) || Leave(s, t, p) || Strand(s, t, p))
    || (exists p, after, complete :: Change(s, t, p, after, complete))
    || (exists p, torn :: Crash(s, t, p, torn))
    || s == t
  }

  ghost predicate Init(s: State) {
    !s.lock && !s.stale && s.log == [] && forall p | p in s.phase :: s.phase[p].Idle?
  }

  /** Each state comes from the one before it by a step. */
  ghost predicate Steps(run: seq<State>, pointOf: PointOf) {
    forall i | 0 <= i < |run| - 1 :: Next(run[i], run[i + 1], pointOf)
  }

  ghost predicate Run(run: seq<State>, pointOf: PointOf) {
    run != [] && Init(run[0]) && Steps(run, pointOf)
  }

  // ---------------------------------------------------------------- what every run keeps

  ghost predicate Exclusive(s: State) {
    && (s.lock <==> s.stale || exists p :: p in s.phase && Occupies(s.phase[p]))
    && (s.stale ==> forall p | p in s.phase :: s.phase[p].Idle?)
    && (forall p, q | p in s.phase && q in s.phase && Occupies(s.phase[p]) && Occupies(s.phase[q]) :: p == q)
  }

  ghost predicate StillApproved(s: State, pointOf: PointOf) {
    forall p | p in s.phase && s.phase[p].Inside? && s.phase[p].checked :: Approved(pointOf, s.phase[p].op, s.installed)
  }

  /** The log tells the whole story: each change starts from what the one before it left. */
  ghost predicate Chained(first: Option<Installed>, log: seq<Entry>, last: Option<Installed>) {
    && (forall i | 0 <= i < |log| :: log[i].before == LeftBy(first, log, i))
    && last == LeftBy(first, log, |log|)
  }

  /** What the first `k` changes left. */
  function LeftBy(first: Option<Installed>, log: seq<Entry>, k: nat): Option<Installed>
    requires k <= |log|
  {
    if k == 0 then first else log[k - 1].after
  }

  ghost predicate LogApproved(log: seq<Entry>, pointOf: PointOf) {
    forall e | e in log :: Approved(pointOf, e.op, e.before)
  }

  ghost predicate Invariant(first: Option<Installed>, s: State, pointOf: PointOf) {
    Exclusive(s) && StillApproved(s, pointOf) && Chained(first, s.log, s.installed) && LogApproved(s.log, pointOf)
  }

  lemma ChainedMore(first: Option<Installed>, log: seq<Entry>, last: Option<Installed>, e: Entry)
    requires Chained(first, log, last) && e.before == last
    ensures Chained(first, log + [e], e.after)
  {
    var all := log + [e];
    forall i | 0 <= i < |all|
      ensures all[i].before == LeftBy(first, all, i)
    {
      assert LeftBy(first, all, i) == LeftBy(first, log, i);
      if i < |log| { assert all[i] == log[i]; }
    }
  }

  /** A process other than the one inside is idle. */
  lemma OthersAreIdle(s: State, p: Process, q: Process)
    requires Exclusive(s) && p in s.phase && Occupies(s.phase[p]) && q in s.phase && q != p
    ensures s.phase[q].Idle?
  {
  }

  lemma StepKeeps(first: Option<Installed>, s: State, t: State, pointOf: PointOf)
    requires Invariant(first, s, pointOf) && Next(s, t, pointOf)
    ensures Invariant(first, t, pointOf)
  {
    hide Invariant, Enter, Check, Abort, Leave, Strand, Change, Crash;
    if p, op :| Enter(s, t, p, op) {
      EnterKeeps(first, s, t, pointOf, p, op);
    } else if p :| Check(s, t, p, pointOf) || Abort(s, t, p) {
      CheckKeeps(first, s, t, pointOf, p);
    } else if p :| Leave(s, t, p) || Strand(s, t, p) {
      LeaveKeeps(first, s, t, pointOf, p);
    } else if p, after, complete :| Change(s, t, p, after, complete) {
      ChangeKeeps(first, s, t, pointOf, p, after, complete);
    } else if p, torn :| Crash(s, t, p, torn) {
      CrashKeeps(first, s, t, pointOf, p, torn);
    }
  }

  lemma EnterKeeps(first: Option<Installed>, s: State, t: State, pointOf: PointOf, p: Process, op: Operation)
    requires Invariant(first, s, pointOf) && Enter(s, t, p, op)
    ensures Invariant(first, t, pointOf)
  {
    hide Approved, Chained, LogApproved;
    assert Occupies(t.phase[p]);
  }

  lemma CheckKeeps(first: Option<Installed>, s: State, t: State, pointOf: PointOf, p: Process)
    requires Invariant(first, s, pointOf) && (Check(s, t, p, pointOf) || Abort(s, t, p))
    ensures Invariant(first, t, pointOf)
  {
    hide Approved, Chained, LogApproved;
    assert Occupies(s.phase[p]) && Occupies(t.phase[p]);
  }

  lemma LeaveKeeps(first: Option<Installed>, s: State, t: State, pointOf: PointOf, p: Process)
    requires Invariant(first, s, pointOf) && (Leave(s, t, p) || Strand(s, t, p))
    ensures Invariant(first, t, pointOf)
  {
    hide Approved, Chained, LogApproved;
    assert Occupies(s.phase[p]);
    forall q | q in t.phase ensures t.phase[q].Idle? { if q != p { OthersAreIdle(s, p, q); } }
  }

  lemma ChangeKeeps(first: Option<Installed>, s: State, t: State, pointOf: PointOf, p: Process, after: Option<Installed>, complete: bool)
    requires Invariant(first, s, pointOf) && Change(s, t, p, after, complete)
    ensures Invariant(first, t, pointOf)
  {
    hide Approved, Chained;
    assert Occupies(s.phase[p]) && Occupies(t.phase[p]);
    ChainedMore(first, s.log, s.installed, Entry(p, s.phase[p].op, s.installed, after, complete));
    forall q | q in t.phase && q != p ensures t.phase[q].Idle? { OthersAreIdle(s, p, q); }
  }

  lemma CrashKeeps(first: Option<Installed>, s: State, t: State, pointOf: PointOf, p: Process, torn: Option<Installed>)
    requires Invariant(first, s, pointOf) && Crash(s, t, p, torn)
    ensures Invariant(first, t, pointOf)
  {
    hide Approved, Chained;
    assert Occupies(s.phase[p]) && Occupies(t.phase[p]);
    if s.phase[p].Inside? && s.phase[p].checked {
      ChainedMore(first, s.log, s.installed, Entry(p, s.phase[p].op, s.installed, torn, false));
    }
    forall q | q in t.phase && q != p ensures t.phase[q].Idle? { OthersAreIdle(s, p, q); }
  }

  /** Over every run at most one process is inside, and what it checked stays true until it changes it. */
  lemma {:induction false} RunKeeps(run: seq<State>, pointOf: PointOf, i: nat)
    requires Run(run, pointOf) && i < |run|
    ensures Invariant(run[0].installed, run[i], pointOf)
  {
    if i > 0 {
      RunKeeps(run, pointOf, i - 1);
      assert Next(run[i - 1], run[i - 1 + 1], pointOf);
      StepKeeps(run[0].installed, run[i - 1], run[i], pointOf);
    }
  }

  lemma MutualExclusion(run: seq<State>, pointOf: PointOf, i: nat, p: Process, q: Process)
    requires Run(run, pointOf) && i < |run| && p in run[i].phase && q in run[i].phase
    requires Occupies(run[i].phase[p]) && Occupies(run[i].phase[q])
    ensures p == q && run[i].lock
  {
    RunKeeps(run, pointOf, i);
  }

  /** The lock is there and nobody is left who could remove it. */
  ghost predicate Blocked(s: State) {
    s.lock && forall p | p in s.phase :: s.phase[p].Idle? || s.phase[p].Crashed?
  }

  /** Then nothing is ever changed again and nobody gets in. */
  lemma {:induction false} BlockedForGood(run: seq<State>, pointOf: PointOf, i: nat, j: nat)
    requires Run(run, pointOf) && i <= j < |run| && Blocked(run[i])
    ensures run[j] == run[i]
  {
    hide Next, Blocked;
    if i < j {
      BlockedForGood(run, pointOf, i, j - 1);
      assert Next(run[j - 1], run[j - 1 + 1], pointOf);
      DeadStop(run[j - 1], run[j], pointOf);
    }
  }

  lemma DeadStop(s: State, t: State, pointOf: PointOf)
    requires Next(s, t, pointOf) && Blocked(s)
    ensures s == t
  {
    hide Approved;
  }

  /** Once a process has died inside, nothing is ever changed again and nobody gets in. */
  lemma CrashBlocks(run: seq<State>, pointOf: PointOf, i: nat, j: nat, p: Process)
    requires Run(run, pointOf) && i <= j < |run| && p in run[i].phase && run[i].phase[p].Crashed?
    ensures run[j] == run[i] && run[i].lock
  {
    RunKeeps(run, pointOf, i);
    OneIsDead(run[0].installed, run[i], pointOf, p);
    hide Run, Invariant;
    BlockedForGood(run, pointOf, i, j);
  }

  lemma OneIsDead(first: Option<Installed>, s: State, pointOf: PointOf, p: Process)
    requires Invariant(first, s, pointOf) && p in s.phase && s.phase[p].Crashed?
    ensures Blocked(s)
  {
    assert Occupies(s.phase[p]);
    forall q | q in s.phase ensures q == p || s.phase[q].Idle? { if q != p { OthersAreIdle(s, p, q); } }
  }

  /** A lock that could not be removed blocks in the same way, and is the only lock without a process inside. */
  lemma StaleBlocks(run: seq<State>, pointOf: PointOf, i: nat, j: nat)
    requires Run(run, pointOf) && i <= j < |run|
    ensures run[i].stale ==> run[j] == run[i] && run[i].lock
    ensures run[i].lock && (forall p | p in run[i].phase :: run[i].phase[p].Idle?) <==> run[i].stale
  {
    RunKeeps(run, pointOf, i);
    hide Run, Chained, LogApproved, StillApproved;
    if run[i].stale { BlockedForGood(run, pointOf, i, j); }
  }

  /** Every change replaced exactly the installation that was approved, which was the one the change before it left. */
  lemma ApprovedIsReplaced(run: seq<State>, pointOf: PointOf, i: nat, k: nat)
    requires Run(run, pointOf) && i < |run| && k < |run[i].log|
    ensures var e := run[i].log[k];
            && e.before == LeftBy(run[0].installed, run[i].log, k)
            && !Objectionable(pointOf, e.op, e.before)
            && (e.op.Install? && (e.op.install.Some? || e.op.package.Some?) ==>
                  e.before.Some? && e.op.install == Some(e.before.value.install) && e.op.package == Some(e.before.value.package))
            && (e.op.Install? && e.op.point.Some? ==> e.before.Some? && e.op.point.value == pointOf(e.before.value))
            && (e.op.Rollback? && e.op.lock.Some? ==> e.before.Some? && e.op.lock.value == e.before.value.package)
            && (e.op.Rollback? && e.op.approvedPoint.Some? ==> e.before.Some? && e.op.approvedPoint == e.before.value.point)
  {
    RunKeeps(run, pointOf, i);
    var e := run[i].log[k];
    assert e in run[i].log && Approved(pointOf, e.op, e.before);
    ApprovedWithoutObjection(pointOf, e.op, e.before);
    hide Run, Invariant, LeftBy;
  }

  /** The identities of the two locks are approved together: one of them alone is never enough. */
  lemma OneIdentityIsRefused(pointOf: PointOf, op: Operation, installed: Option<Installed>)
    requires op.Install? && op.install.Some? != op.package.Some?
    ensures !Approved(pointOf, op, installed)
  {
  }

  // ---------------------------------------------------------------- one operation as the code runs it

  class Target {
    var lock: bool
    var installed: Option<Installed>

    constructor (installed: Option<Installed>)
      ensures !lock && this.installed == installed
    {
      lock, this.installed := false, installed;
    }

    /** `lock_path.mkdir()`. */
    method MakeLock() returns (ok: bool)
      modifies this`lock
      ensures ok <==> !old(lock)
      ensures lock
    {
      ok := !lock;
      lock := true;
    }

    /** `lock_path.rmdir()`, which may fail. */
    method RemoveLock(removable: bool) returns (ok: bool)
      modifies this`lock
      ensures ok == removable && lock == (old(lock) && !removable)
    {
      ok := removable;
      if removable { lock := false; }
    }
  }

  datatype Ending = Busy | NotApproved | Undone | Done

  /** The state as process `p` sees it while it works. */
  ghost predicate Mirrors(s: State, target: Target)
    reads target
  {
    s.lock == target.lock && s.installed == target.installed
  }

  /**
   * Lock, check, change, unlock: each action of the code is a step of the machine, so whatever is
   * proved of all runs holds of any interleaving of such operations.
   */
  method Operate(target: Target, op: Operation, after: Option<Installed>, fails: bool, removable: bool, pointOf: PointOf,
                 ghost p: Process, ghost start: State) returns (ending: Ending, released: bool, ghost trace: seq<State>)
    requires Mirrors(start, target) && p in start.phase && start.phase[p].Idle?
    modifies target
    ensures trace != [] && trace[0] == start && Mirrors(trace[|trace| - 1], target)
    ensures Steps(trace, pointOf)
    ensures ending.Busy? <==> start.lock
    ensures ending.Busy? ==> trace[|trace| - 1] == start
    ensures released <==> !start.lock && removable
    ensures !ending.Busy? ==> trace[|trace| - 1].phase == start.phase
    ensures !ending.Busy? ==> target.lock == !removable && trace[|trace| - 1].stale == (start.stale || !removable)
    ensures ending.NotApproved? <==> !start.lock && Objectionable(pointOf, op, start.installed)
    ensures ending.Done? <==> !start.lock && !Objectionable(pointOf, op, start.installed) && !fails
    ensures ending.Done? ==> target.installed == after && Approved(pointOf, op, old(target.installed))
    ensures !ending.Done? ==> target.installed == old(target.installed)
  {
    ApprovedWithoutObjection(pointOf, op, start.installed);
    hide Next, Approved, Objectionable, Steps;
    trace := [start];
    StandingStill(start, pointOf);
    ghost var s := start;
    var ok := target.MakeLock();
    if !ok { return Busy, false, trace; }
    ghost var entered := s.(lock := true, phase := s.phase[p := Inside(op, false)]);
    EnterIsNext(s, entered, p, op, pointOf);
    OneMoreStep(trace, entered, pointOf);
    trace := trace + [entered];
    var approved := Approved(pointOf, op, target.installed);
    ghost var checked := entered.(phase := entered.phase[p := if approved then Inside(op, true) else Leaving]);
    IsNext(entered, checked, p, pointOf);
    OneMoreStep(trace, checked, pointOf);
    trace := trace + [checked];
    ghost var finished := checked;
    if !approved {
      ending := NotApproved;
    } else if fails {
      finished := checked.(phase := checked.phase[p := Leaving]);
      IsNext(checked, finished, p, pointOf);
      OneMoreStep(trace, finished, pointOf);
      trace := trace + [finished];
      ending := Undone;
    } else {
      target.installed := after;
      finished := checked.(installed := after, phase := checked.phase[p := Leaving],
                           log := checked.log + [Entry(p, op, checked.installed, after, true)]);
      ChangeIsNext(checked, finished, p, after, true, pointOf);
      OneMoreStep(trace, finished, pointOf);
      trace := trace + [finished];
      ending := Done;
    }
    released := target.RemoveLock(removable);
    ghost var left := finished.(lock := !removable, stale := finished.stale || !removable, phase := finished.phase[p := Idle]);
    IsNext(finished, left, p, pointOf);
    assert left.phase == start.phase;
    OneMoreStep(trace, left, pointOf);
    trace := trace + [left];
  }

  lemma StandingStill(s: State, pointOf: PointOf)
    ensures Steps([s], pointOf)
  {
  }

  lemma OneMoreStep(run: seq<State>, t: State, pointOf: PointOf)
    requires run != [] && Steps(run, pointOf) && Next(run[|run| - 1], t, pointOf)
    ensures Steps(run + [t], pointOf)
  {
    hide Next;
  }

  lemma EnterIsNext(s: State, t: State, p: Process, op: Operation, pointOf: PointOf)
    requires Enter(s, t, p, op)
    ensures Next(s, t, pointOf)
  {
  }

  lemma IsNext(s: State, t: State, p: Process, pointOf: PointOf)
    requires Check(s, t, p, pointOf) || Abort(s, t, p) || Leave(s, t, p) || Strand(s, t, p)
    ensures Next(s, t, pointOf)
  {
    hide Check, Abort, Leave, Strand;
  }

  lemma ChangeIsNext(s: State, t: State, p: Process, after: Option<Installed>, complete: bool, pointOf: PointOf)
    requires Change(s, t, p, after, complete)
    ensures Next(s, t, pointOf)
  {
    hide Change;
  }
}
