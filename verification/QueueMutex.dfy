/** The lock file of the queue tools, as steps of any number of processes against one file system and one clock. */
module QueueMutex {
  import opened Registry

  /** Seconds after which a lock is taken to be abandoned: 120 minutes. */
  const EXPIRY := 7200

  /** The lock file: who created it, and the time written into it; None while it is still empty. */
  datatype LockFile = LockFile(owner: nat, stamp: Option<nat>)

  /** Where a process is. It is between acquire and release from the moment it has created the file. */
  datatype Phase =
    | Idle          // about to try the exclusive create
    | Looking       // the create failed, about to read the file that is there
    | Removing      // read an expired stamp, about to remove the file
    | Created       // created the file, has not written its stamp yet
    | Critical      // acquired
    | Reporting     // released, about to print the result
    | Cleanup       // printing raised, about to release once more in the exception handler
    | Finished

  datatype System = System(now: nat, lock: Option<LockFile>, phases: seq<Phase>)

  datatype Step =
    | Tick(seconds: nat)
    | Create(p: nat)
    | Look(p: nat)
    | RemoveStale(p: nat)
    | Stamp(p: nat)
    | Release(p: nat)         // the normal end of the critical section
    | ReleaseOnError(p: nat)  // an error inside it: release and exit
    | Report(p: nat)
    | PrintFails(p: nat)
    | ReleaseAgain(p: nat)
    | Die(p: nat)             // killed or interrupted: whatever file there is stays

  predicate Holding(ph: Phase) { ph == Created || ph == Critical }

  predicate Expired(f: LockFile, now: nat) { f.stamp.Some? && now > f.stamp.value + EXPIRY }

  /** `t` is `s` with process `p` in phase `ph` and the lock file as given. */
  predicate Moves(s: System, t: System, p: nat, from: Phase, ph: Phase, lock: Option<LockFile>)
  {
    p < |s.phases| && s.phases[p] == from && t == System(s.now, lock, s.phases[p := ph])
  }

  predicate Next(s: System, t: System, step: Step)
  {
    match step
    case Tick(d) => t == s.(now := s.now + d)
    case Create(p) =>
      if s.lock.None? then Moves(s, t, p, Idle, Created, Some(LockFile(p, None)))
      else Moves(s, t, p, Idle, Looking, s.lock)
    case Look(p) =>
      Moves(s, t, p, Looking, if s.lock.Some? && Expired(s.lock.value, s.now) then Removing else Idle, s.lock)
    case RemoveStale(p) => Moves(s, t, p, Removing, Idle, None)
    case Stamp(p) =>
      Moves(s, t, p, Created, Critical,
            if s.lock.Some? && s.lock.value.owner == p then Some(LockFile(p, Some(s.now))) else s.lock)
    case Release(p) => Moves(s, t, p, Critical, Reporting, None)
    case ReleaseOnError(p) => Moves(s, t, p, Critical, Finished, None)
    case Report(p) => Moves(s, t, p, Reporting, Finished, s.lock)
    case PrintFails(p) => Moves(s, t, p, Reporting, Cleanup, s.lock)
    case ReleaseAgain(p) => Moves(s, t, p, Cleanup, Finished, None)
    case Die(p) => p < |s.phases| && Moves(s, t, p, s.phases[p], Finished, s.lock)
  }

  predicate Initial(s: System)
  {
    s.lock.None? && forall p | 0 <= p < |s.phases| :: s.phases[p] == Idle
  }

  /** At most one process is between acquire and release. */
  ghost predicate Exclusive(s: System)
  {
    forall p, q | 0 <= p < q < |s.phases| :: !(Holding(s.phases[p]) && Holding(s.phases[q]))
  }

  predicate NeverExpires(s: System) { s.lock.Some? ==> !Expired(s.lock.value, s.now) }

  /** A run; with `expiry` off no lock file in it is ever older than the limit, with `printFails` off no report
      fails. */
  ghost predicate IsRun(ss: seq<System>, steps: seq<Step>, expiry: bool, printFails: bool)
  {
    |ss| == |steps| + 1 && Initial(ss[0]) &&
    (forall k | 0 <= k < |steps| :: Next(ss[k], ss[k + 1], steps[k]) && (printFails || !steps[k].PrintFails?)) &&
    forall k | 0 <= k < |ss| :: expiry || NeverExpires(ss[k])
  }

  /** The file belongs to the process that holds the lock. */
  ghost predicate Inv(s: System)
  {
    forall p: nat | p < |s.phases| && Holding(s.phases[p]) :: s.lock.Some? && s.lock.value.owner == p
  }

  /** Nobody holds the lock. */
  ghost predicate Free(s: System) { forall p | 0 <= p < |s.phases| :: !Holding(s.phases[p]) }

  /** The step takes away a lock file without having acquired it. */
  predicate Removal(step: Step) { step.RemoveStale? || step.ReleaseAgain? }

  lemma NextKeepsInv(s: System, t: System, step: Step)
    requires Inv(s) && Next(s, t, step) && (Removal(step) ==> Free(s))
    ensures Inv(t)
  {
  }

  lemma {:induction false} RunsKeepInv(ss: seq<System>, steps: seq<Step>, expiry: bool, printFails: bool, n: nat)
    requires IsRun(ss, steps, expiry, printFails) && n < |ss|
    requires forall k | 0 <= k < n && Removal(steps[k]) :: Free(ss[k])
    ensures Inv(ss[n])
  {
    if n > 0 {
      RunsKeepInv(ss, steps, expiry, printFails, n - 1);
      NextKeepsInv(ss[n - 1], ss[n], steps[n - 1]);
    }
  }

  /** Every run excludes as long as no stale-lock removal and no second release happens while a process is between
      acquire and release; locks may expire and prints may fail. */
  lemma HarmlessRemovalsExclude(ss: seq<System>, steps: seq<Step>, n: nat)
    requires IsRun(ss, steps, true, true) && n < |ss|
    requires forall k | 0 <= k < n && Removal(steps[k]) :: Free(ss[k])
    ensures Exclusive(ss[n])
  {
    RunsKeepInv(ss, steps, true, true, n);
  }

  /** Where no lock expires and no print fails, nobody is ever about to remove a lock file. */
  lemma {:induction false} NobodyRemoves(ss: seq<System>, steps: seq<Step>, n: nat)
    requires IsRun(ss, steps, false, false) && n < |ss|
    ensures forall p | 0 <= p < |ss[n].phases| :: ss[n].phases[p] != Removing && ss[n].phases[p] != Cleanup
  {
    if n > 0 {
      NobodyRemoves(ss, steps, n - 1);
      assert Next(ss[n - 1], ss[n], steps[n - 1]) && NeverExpires(ss[n - 1]);
    }
  }

  // ---- the lock is given back ------------------------------------------------------------------------------

  /** If there is a lock file, the process that created it is still between acquire and release. */
  ghost predicate OwnerIsInside(s: System)
  {
    s.lock.Some? ==> s.lock.value.owner < |s.phases| && Holding(s.phases[s.lock.value.owner])
  }

  /** The step kills a process between acquire and release. */
  ghost predicate KillsHolder(s: System, step: Step)
  {
    step.Die? && step.p < |s.phases| && (s.phases[step.p] == Created || s.phases[step.p] == Critical)
  }

  lemma NextKeepsOwnerInside(s: System, t: System, step: Step)
    requires OwnerIsInside(s) && Next(s, t, step) && !KillsHolder(s, step)
    ensures OwnerIsInside(t)
  {
  }

  /** Whatever else happens, errors inside, expiry, failing prints: unless a process is killed inside, no lock file
      outlives its owner's stay; so with nobody inside there is none, and the next process to try acquires it. */
  lemma {:induction false} LockIsGivenBack(ss: seq<System>, steps: seq<Step>, n: nat)
    requires IsRun(ss, steps, true, true) && n < |ss|
    requires forall k | 0 <= k < n :: !KillsHolder(ss[k], steps[k])
    ensures OwnerIsInside(ss[n])
    ensures Free(ss[n]) ==> ss[n].lock == None
    ensures Free(ss[n]) ==>
              forall t, p: nat | Next(ss[n], t, Create(p)) :: p < |t.phases| && t.phases[p] == Created
  {
    if n > 0 {
      LockIsGivenBack(ss, steps, n - 1);
      NextKeepsOwnerInside(ss[n - 1], ss[n], steps[n - 1]);
    }
  }

  /** An error inside ends the process and takes its lock file away. */
  lemma ErrorReleases(s: System, t: System, p: nat)
    requires Next(s, t, ReleaseOnError(p))
    ensures s.phases[p] == Critical && t.phases[p] == Finished && t.lock == None
    ensures forall q | 0 <= q < |s.phases| && q != p :: t.phases[q] == s.phases[q]
  {
  }

  /** A file counts as abandoned once its stamp is more than two hours old, and never without one. */
  lemma ExpiredMeaning(f: LockFile, now: nat)
    ensures Expired(f, now) <==> exists t :: f.stamp == Some(t) && now - t > 2 * 60 * 60
  {
  }

  // ---- what expiry is for, and what not --------------------------------------------------------------------

  /** What expiry is for: process 0 dies inside; once its lock has expired, process 1 removes it and acquires. */
  ghost function AbandonedRun(): (seq<System>, seq<Step>)
  {
    var dead := Some(LockFile(0, Some(0)));
    ([System(0, None, [Idle, Idle]), System(0, Some(LockFile(0, None)), [Created, Idle]),
      System(0, dead, [Critical, Idle]), System(0, dead, [Finished, Idle]), System(7201, dead, [Finished, Idle]),
      System(7201, dead, [Finished, Looking]), System(7201, dead, [Finished, Removing]),
      System(7201, None, [Finished, Idle]), System(7201, Some(LockFile(1, None)), [Finished, Created]),
      System(7201, Some(LockFile(1, Some(7201))), [Finished, Critical])],
     [Create(0), Stamp(0), Die(0), Tick(7201), Create(1), Look(1), RemoveStale(1), Create(1), Stamp(1)])
  }

  /** An expired lock file is really removed in this run, the next process gets in, and every state is exclusive. */
  lemma AbandonedLockIsRecovered()
    ensures var (ss, steps) := AbandonedRun();
            && IsRun(ss, steps, true, true)
            && (forall k | 0 <= k < |steps| && Removal(steps[k]) :: Free(ss[k]))
            && steps[6] == RemoveStale(1) && ss[6].lock.Some? && ss[9].phases[1] == Critical
            && forall k | 0 <= k < |ss| :: Exclusive(ss[k])
  {
    var (ss, steps) := AbandonedRun();
    forall k | 0 <= k < |steps| ensures Next(ss[k], ss[k + 1], steps[k]) {
      assert StepAt((ss, steps), k);
    }
    assert Free(ss[6]);
    assert forall k | 0 <= k < |steps| && Removal(steps[k]) :: k == 6;
    forall k | 0 <= k < |ss| ensures Exclusive(ss[k]) {
      HarmlessRemovalsExclude(ss, steps, k);
    }
  }

  /** An empty lock file, with nobody about to fill or to remove it. */
  ghost predicate Stuck(s: System)
  {
    && s.lock.Some? && s.lock.value.stamp.None?
    && forall p | 0 <= p < |s.phases| :: !Holding(s.phases[p]) && s.phases[p] != Removing && s.phases[p] != Cleanup
  }

  lemma StuckStays(s: System, t: System, step: Step)
    requires Stuck(s) && Next(s, t, step) && !step.PrintFails?
    ensures Stuck(t)
  {
  }

  /** What expiry does not cure: a process that dies after it has created the file and before it has written its stamp
      leaves an empty file, which never counts as expired; nobody acquires the lock in the rest of the run, however long
      it is, unless a process that released before fails to print. */
  lemma {:induction false} EmptyLockIsForever(ss: seq<System>, steps: seq<Step>, m: nat, n: nat)
    requires IsRun(ss, steps, true, false) && m <= n < |ss| && Stuck(ss[m])
    ensures Stuck(ss[n])
  {
    if m < n {
      EmptyLockIsForever(ss, steps, m, n - 1);
      StuckStays(ss[n - 1], ss[n], steps[n - 1]);
    }
  }

  /** Such a death, as the second step of any run. */
  lemma DeathBeforeStampSticks(n: nat)
    requires n > 0
    ensures var idle := seq(n, i => Idle);
            var s := System(0, None, idle);
            var t := System(0, Some(LockFile(0, None)), idle[0 := Created]);
            var u := System(0, Some(LockFile(0, None)), idle[0 := Finished]);
            IsRun([s, t, u], [Create(0), Die(0)], true, false) && Stuck(u)
  {
    var idle := seq(n, i => Idle);
    var s, t := System(0, None, idle), System(0, Some(LockFile(0, None)), idle[0 := Created]);
    var u := System(0, Some(LockFile(0, None)), idle[0 := Finished]);
    var ss, steps := [s, t, u], [Create(0), Die(0)];
    assert t.phases[0 := Finished] == u.phases;
    assert Next(ss[0], ss[1], steps[0]) && Next(ss[1], ss[2], steps[1]);
  }

  /** A process that holds the lock for more than the limit loses it to another one while still inside. */
  ghost function ExpiredRun(): (seq<System>, seq<Step>)
  {
    var old_ := Some(LockFile(0, Some(0)));
    ([System(0, None, [Idle, Idle]), System(0, Some(LockFile(0, None)), [Created, Idle]),
      System(0, old_, [Critical, Idle]), System(7201, old_, [Critical, Idle]),
      System(7201, old_, [Critical, Looking]), System(7201, old_, [Critical, Removing]),
      System(7201, None, [Critical, Idle]), System(7201, Some(LockFile(1, None)), [Critical, Created])],
     [Create(0), Stamp(0), Tick(7201), Create(1), Look(1), RemoveStale(1), Create(1)])
  }

  /** The exception handler releases a second time when printing the result raises; by then the file may be another
      process's lock, which lets a third one in. No lock expires in this run. */
  ghost function DoubleReleaseRun(): (seq<System>, seq<Step>)
  {
    var one := Some(LockFile(1, None));
    ([System(0, None, [Idle, Idle, Idle]), System(0, Some(LockFile(0, None)), [Created, Idle, Idle]),
      System(0, Some(LockFile(0, Some(0))), [Critical, Idle, Idle]), System(0, None, [Reporting, Idle, Idle]),
      System(0, one, [Reporting, Created, Idle]), System(0, one, [Cleanup, Created, Idle]),
      System(0, None, [Finished, Created, Idle]), System(0, Some(LockFile(2, None)), [Finished, Created, Created])],
     [Create(0), Stamp(0), Release(0), Create(1), PrintFails(0), ReleaseAgain(0), Create(2)])
  }

  /** The `k`-th step of a recorded run is a step of the protocol. */
  ghost predicate StepAt(run: (seq<System>, seq<Step>), k: nat)
    requires k < |run.1| && |run.0| == |run.1| + 1
  {
    Next(run.0[k], run.0[k + 1], run.1[k])
  }

  lemma ExpiryBreaksExclusion(printFails: bool)
    ensures IsRun(ExpiredRun().0, ExpiredRun().1, true, printFails) && !Exclusive(ExpiredRun().0[7])
  {
    var (ss, steps) := ExpiredRun();
    forall k | 0 <= k < |steps| ensures Next(ss[k], ss[k + 1], steps[k]) && !steps[k].PrintFails? {
      assert StepAt((ss, steps), k);
    }
    assert Holding(ss[7].phases[0]) && Holding(ss[7].phases[1]);
  }

  lemma SecondReleaseBreaksExclusion()
    ensures IsRun(DoubleReleaseRun().0, DoubleReleaseRun().1, false, true) && !Exclusive(DoubleReleaseRun().0[7])
  {
    var (ss, steps) := DoubleReleaseRun();
    forall k | 0 <= k < |steps| ensures Next(ss[k], ss[k + 1], steps[k]) && NeverExpires(ss[k]) {
      assert StepAt((ss, steps), k);
    }
    assert NeverExpires(ss[7]);
    assert Holding(ss[7].phases[1]) && Holding(ss[7].phases[2]);
  }

  ghost predicate AllExclusive(expiry: bool, printFails: bool)
  {
    forall ss: seq<System>, steps: seq<Step>, k: nat | IsRun(ss, steps, expiry, printFails) && k < |ss| ::
      Exclusive(ss[k])
  }

  /** Over all interleavings of any number of processes the lock excludes, exactly when no lock file outlives the limit
      and no process fails while printing its result. */
  lemma MutualExclusion(expiry: bool, printFails: bool)
    ensures AllExclusive(expiry, printFails) <==> !expiry && !printFails
  {
    if !expiry && !printFails {
      forall ss: seq<System>, steps: seq<Step>, k: nat | IsRun(ss, steps, false, false) && k < |ss|
        ensures Exclusive(ss[k])
      {
        forall j | 0 <= j < k ensures !Removal(steps[j]) {
          NobodyRemoves(ss, steps, j);
          assert Next(ss[j], ss[j + 1], steps[j]);
        }
        HarmlessRemovalsExclude(ss, steps, k);
      }
    } else if expiry {
      ExpiryBreaksExclusion(printFails);
    } else {
      SecondReleaseBreaksExclusion();
    }
  }
}
