/**
  The size a record states against the size its LV has, over all interleavings.

  Everything that changes an LV or its record happens under the lock of the LV's
  volume group, so one LV can be followed alone.  Its record stays within it
  exactly as long as every `lvextend` of it reaches the size the extend is about
  to record.  An extend that asks for a delta or a percentage of a copy larger
  than the LV misses that, and `StaleExtendOverstates` gives such a run.
 */
module ProtocolSizes {
  import opened Records
  import opened Protocol

  // ----- one LV, its record, and what the lock's holder is about to record

  predicate OnLv(pc: Pc, lv: Lv) {
    pc.Holding? && JobLv(pc.job) == lv
  }

  /** The size the record of this LV gets if the operation at `pc` commits. */
  function Pending(pc: Pc, lv: Lv): Option<nat> {
    if !OnLv(pc, lv) then None
    else
      match pc.job
      case CreateJob(input) =>
        if pc.phase.Header? || pc.phase.Dd? || pc.phase.Insert? then Some(input.size) else None
      case DeleteJob(_) => None
      case ExtendJob(rec, amount) => if pc.phase.Write? then Some(NewSize(rec.size, amount)) else None
  }

  function Owed(s: State, lv: Lv): Option<nat> {
    Pending(Holder(s, lv.vg), lv)
  }

  /** The record, and the one about to be written, state no more than the LV has. */
  predicate CoversAt(s: State, owed: Option<nat>, lv: Lv) {
    lv in s.lvs ==>
      && (Named(s, lv) ==> s.catalog[lv.name].size <= s.lvs[lv])
      && (owed.Some? ==> owed.value <= s.lvs[lv])
  }

  predicate Covers(s: State, lv: Lv) {
    CoversAt(s, Owed(s, lv), lv)
  }

  /** The step is an `lvextend` of this LV that succeeds. */
  predicate Grows(s: State, n: string, c: Choice, lv: Lv) {
    && n in s.procs && OnLv(s.procs[n], lv) && s.procs[n].job.ExtendJob? && s.procs[n].phase.Grow?
    && c.Allot? && lv in s.lvs && LvExtends(s.lvs[lv], s.procs[n].job.amount, c.size)
  }

  /** An `lvextend` of this LV reaches the size that will be recorded. */
  predicate GrowFits(s: State, n: string, c: Choice, lv: Lv) {
    Grows(s, n, c, lv) ==> NewSize(s.procs[n].job.rec.size, s.procs[n].job.amount) <= c.size
  }

  // ----- steps of other nodes and on other LVs

  /** A step moves one program counter and at most one lock. */
  lemma StepShape(s: State, n: string, c: Choice)
    requires Try(s, n, c).Some?
    ensures var s' := Step(s, n, c);
            && n in s.procs && n in s'.procs && s'.procs == s.procs[n := s'.procs[n]]
            && LockMove(s, s', n, Held(s.procs[n]), Held(s'.procs[n]))
  {
    if s.procs[n].Holding? && s.procs[n].phase != Release {
      HoldingShape(s, n, s.procs[n].job, s.procs[n].phase, c);
    }
  }

  lemma HoldingShape(s: State, n: string, job: Job, phase: Phase, c: Choice)
    requires StepHolding(s, n, job, phase, c).Some? && phase != Release
    ensures var s' := StepHolding(s, n, job, phase, c).value;
            && n in s'.procs && s'.procs == s.procs[n := s'.procs[n]] && s'.locks == s.locks
            && s'.procs[n].Holding? && s'.procs[n].job == job
  {
    match job
    case CreateJob(_) => CreateShape(s, n, job, phase, c);
    case DeleteJob(_) =>
    case ExtendJob(_, _) =>
  }

  lemma CreateShape(s: State, n: string, job: Job, phase: Phase, c: Choice)
    requires job.CreateJob? && StepCreate(s, n, job, phase, c).Some?
    ensures var s' := StepCreate(s, n, job, phase, c).value;
            && n in s'.procs && s'.procs == s.procs[n := s'.procs[n]] && s'.locks == s.locks
            && s'.procs[n].Holding? && s'.procs[n].job == job
  {
  }

  /** The LV is as before, and so is its record if it still has one. */
  predicate LeftAlone(s: State, s': State, lv: Lv) {
    && (lv in s'.lvs) == (lv in s.lvs)
    && (lv in s.lvs ==> s'.lvs[lv] == s.lvs[lv])
    && (Named(s', lv) ==> Named(s, lv) && s'.catalog[lv.name].size == s.catalog[lv.name].size)
  }

  lemma CreateAway(s: State, n: string, job: Job, phase: Phase, c: Choice, lv: Lv)
    requires job.CreateJob? && StepCreate(s, n, job, phase, c).Some? && JobLv(job) != lv
    ensures LeftAlone(s, StepCreate(s, n, job, phase, c).value, lv)
  {
  }

  lemma DeleteAway(s: State, n: string, job: Job, phase: Phase, c: Choice, lv: Lv)
    requires job.DeleteJob? && StepDelete(s, n, job, phase, c).Some? && JobLv(job) != lv
    ensures LeftAlone(s, StepDelete(s, n, job, phase, c).value, lv)
  {
  }

  lemma ExtendAway(s: State, n: string, job: Job, phase: Phase, c: Choice, lv: Lv)
    requires job.ExtendJob? && StepExtend(s, n, job, phase, c).Some? && JobLv(job) != lv
    ensures LeftAlone(s, StepExtend(s, n, job, phase, c).value, lv)
  {
  }

  /** A step that is not on this LV under its lock leaves it alone. */
  lemma StepAway(s: State, n: string, c: Choice, lv: Lv)
    requires Try(s, n, c).Some? && !OnLv(s.procs[n], lv)
    ensures LeftAlone(s, Step(s, n, c), lv)
  {
    if s.procs[n].Holding? && s.procs[n].phase != Release {
      var job, phase := s.procs[n].job, s.procs[n].phase;
      match job
      case CreateJob(_) => CreateAway(s, n, job, phase, c, lv);
      case DeleteJob(_) => DeleteAway(s, n, job, phase, c, lv);
      case ExtendJob(_, _) => ExtendAway(s, n, job, phase, c, lv);
    }
  }

  /** An operation that gets the lock has nothing to record yet. */
  lemma NothingOwedYet(s: State, n: string, c: Choice, lv: Lv)
    requires Try(s, n, c).Some? && !OnLv(s.procs[n], lv)
    ensures n in Step(s, n, c).procs && Pending(Step(s, n, c).procs[n], lv) == None
  {
    if s.procs[n].Holding? && s.procs[n].phase != Release {
      HoldingShape(s, n, s.procs[n].job, s.procs[n].phase, c);
    }
  }

  lemma OwedAway(s: State, n: string, c: Choice, lv: Lv)
    requires LocksOk(s) && Try(s, n, c).Some? && !OnLv(s.procs[n], lv)
    ensures Owed(Step(s, n, c), lv) == Owed(s, lv)
  {
    StepShape(s, n, c);
    NothingOwedYet(s, n, c, lv);
    LockMoves(s, Step(s, n, c), n, Step(s, n, c).procs[n], lv.vg);
  }

  /** The node that works on the LV is the holder of its lock, before and after. */
  lemma OwedOn(s: State, n: string, c: Choice, lv: Lv)
    requires LocksOk(s) && Try(s, n, c).Some? && OnLv(s.procs[n], lv)
    ensures Owed(s, lv) == Pending(s.procs[n], lv)
    ensures n in Step(s, n, c).procs && Owed(Step(s, n, c), lv) == Pending(Step(s, n, c).procs[n], lv)
  {
    StepShape(s, n, c);
    LockMoves(s, Step(s, n, c), n, Step(s, n, c).procs[n], lv.vg);
    assert Held(s.procs[n]) == Some(lv.vg);
  }

  // ----- exactly which steps keep an LV covered

  lemma CreateCovers(s: State, n: string, job: Job, phase: Phase, c: Choice)
    requires job.CreateJob? && StepCreate(s, n, job, phase, c).Some?
    requires Named(s, JobLv(job)) ==> !MakesNew(Holding(job, phase))
    requires CoversAt(s, Pending(Holding(job, phase), JobLv(job)), JobLv(job))
    ensures var s' := StepCreate(s, n, job, phase, c).value;
            n in s'.procs && CoversAt(s', Pending(s'.procs[n], JobLv(job)), JobLv(job))
  {
  }

  lemma DeleteCovers(s: State, n: string, job: Job, phase: Phase, c: Choice)
    requires job.DeleteJob? && StepDelete(s, n, job, phase, c).Some?
    requires CoversAt(s, None, JobLv(job))
    ensures CoversAt(StepDelete(s, n, job, phase, c).value, None, JobLv(job))
  {
  }

  lemma RequestedGrows(lv: nat, a: Amount, size: nat)
    requires LvExtends(lv, a, size)
    ensures size >= lv
  {
    if a.Percent? {
      assert lv * a.percent / 100 >= 0;
    }
  }

  lemma ExtendCovers(s: State, n: string, job: Job, phase: Phase, c: Choice)
    requires job.ExtendJob? && StepExtend(s, n, job, phase, c).Some?
    requires CoversAt(s, Pending(Holding(job, phase), JobLv(job)), JobLv(job))
    ensures var s' := StepExtend(s, n, job, phase, c).value;
            && n in s'.procs
            && (CoversAt(s', Pending(s'.procs[n], JobLv(job)), JobLv(job)) <==>
                !(phase.Grow? && c.Allot? && NewSize(job.rec.size, job.amount) > c.size))
  {
    if phase.Grow? && c.Allot? { RequestedGrows(s.lvs[JobLv(job)], job.amount, c.size); }
  }

  /** From a state in which an LV is covered, it stays covered if and only if the
      step is not an `lvextend` of it that falls short of what will be recorded. */
  lemma StepCoversIff(s: State, n: string, c: Choice, lv: Lv)
    requires Inv(s) && Covers(s, lv)
    ensures Covers(Step(s, n, c), lv) <==> GrowFits(s, n, c, lv)
  {
    if Try(s, n, c).Some? {
      if OnLv(s.procs[n], lv) {
        OwedOn(s, n, c, lv);
        assert ProcOk(s, s.procs[n]);
        var job, phase := s.procs[n].job, s.procs[n].phase;
        if phase != Release {
          match job
          case CreateJob(_) => CreateCovers(s, n, job, phase, c);
          case DeleteJob(_) => DeleteCovers(s, n, job, phase, c); HoldingShape(s, n, job, phase, c);
          case ExtendJob(_, _) => ExtendCovers(s, n, job, phase, c);
        }
      } else {
        OwedAway(s, n, c, lv);
        StepAway(s, n, c, lv);
      }
    }
  }

  // ----- runs

  lemma ExecNext(s0: State, sched: Schedule, k: nat)
    requires k < |sched|
    ensures Exec(s0, sched[..k + 1]) == Step(Exec(s0, sched[..k]), sched[k].0, sched[k].1)
  {
    assert sched[..k + 1][..k] == sched[..k];
  }

  /** What holds of every state of a run, if each step keeps it exactly when `ok`. */
  lemma {:induction false} RunIff(good: State -> bool, ok: (State, string, Choice) -> bool, s0: State, sched: Schedule)
    requires Init(s0) && good(s0)
    requires forall s, n, c | Inv(s) && good(s) :: good(Step(s, n, c)) <==> ok(s, n, c)
    ensures AllGood(good, s0, sched) <==> AllOk(ok, s0, sched)
  {
    if AllGood(good, s0, sched) {
      forall k | 0 <= k < |sched| ensures ok(Exec(s0, sched[..k]), sched[k].0, sched[k].1) {
        RunKeepsInv(s0, sched[..k]);
        ExecNext(s0, sched, k);
        assert good(Exec(s0, sched[..k])) && good(Exec(s0, sched[..k + 1]));
      }
    }
    if AllOk(ok, s0, sched) {
      forall k | 0 <= k <= |sched| ensures good(Exec(s0, sched[..k])) { GoodAt(good, ok, s0, sched, k); }
    }
  }

  ghost predicate AllGood(good: State -> bool, s0: State, sched: Schedule) {
    forall k | 0 <= k <= |sched| :: good(Exec(s0, sched[..k]))
  }

  ghost predicate AllOk(ok: (State, string, Choice) -> bool, s0: State, sched: Schedule) {
    forall k | 0 <= k < |sched| :: ok(Exec(s0, sched[..k]), sched[k].0, sched[k].1)
  }

  lemma {:induction false} GoodAt(good: State -> bool, ok: (State, string, Choice) -> bool,
                                  s0: State, sched: Schedule, k: nat)
    requires Init(s0) && good(s0) && k <= |sched|
    requires forall s, n, c | Inv(s) && good(s) :: good(Step(s, n, c)) <==> ok(s, n, c)
    requires AllOk(ok, s0, sched)
    ensures good(Exec(s0, sched[..k]))
  {
    if k > 0 {
      GoodAt(good, ok, s0, sched, k - 1);
      RunKeepsInv(s0, sched[..k - 1]);
      ExecNext(s0, sched, k - 1);
      assert ok(Exec(s0, sched[..k - 1]), sched[k - 1].0, sched[k - 1].1);
    }
  }

  /**
    For any interleaving of creates, deletes and of delta, absolute and percent
    extends, with any failures: an LV is at all times at least as large as its
    record states, and as the record about to be written states, if and only if
    every `lvextend` of it reached the size to be recorded.
   */
  lemma CoveredRunIff(s0: State, sched: Schedule, lv: Lv)
    requires Init(s0)
    ensures (forall k | 0 <= k <= |sched| :: Covers(Exec(s0, sched[..k]), lv))
       <==> (forall k | 0 <= k < |sched| :: GrowFits(Exec(s0, sched[..k]), sched[k].0, sched[k].1, lv))
  {
    var good, ok := (s: State) => Covers(s, lv), (s: State, n: string, c: Choice) => GrowFits(s, n, c, lv);
    forall s, n, c | Inv(s) && good(s) ensures good(Step(s, n, c)) <==> ok(s, n, c) {
      StepCoversIff(s, n, c, lv);
    }
    RunIff(good, ok, s0, sched);
    assert AllGood(good, s0, sched) <==> forall k | 0 <= k <= |sched| :: Covers(Exec(s0, sched[..k]), lv);
    assert AllOk(ok, s0, sched) <==>
           forall k | 0 <= k < |sched| :: GrowFits(Exec(s0, sched[..k]), sched[k].0, sched[k].1, lv);
  }

  // ----- the record alone

  /** What a create is about to record; an extend may still fail to. */
  function CreateOwed(pc: Pc, lv: Lv): Option<nat> {
    if OnLv(pc, lv) && pc.job.CreateJob? then Pending(pc, lv) else None
  }

  /** The record of this LV states no more than it has, and neither does a create about to insert it. */
  predicate RecordFits(s: State, lv: Lv) {
    CoversAt(s, CreateOwed(Holder(s, lv.vg), lv), lv)
  }

  /** A record update of this LV that commits writes no more than the LV has. */
  predicate UpdateFits(s: State, n: string, c: Choice, lv: Lv) {
    n in s.procs && OnLv(s.procs[n], lv) && s.procs[n].job.ExtendJob? && s.procs[n].phase.Write?
    && c.Proceed? && lv.name in s.catalog && lv in s.lvs ==>
      NewSize(s.procs[n].job.rec.size, s.procs[n].job.amount) <= s.lvs[lv]
  }

  lemma ExtendFits(s: State, n: string, job: Job, phase: Phase, c: Choice)
    requires job.ExtendJob? && StepExtend(s, n, job, phase, c).Some? && CoversAt(s, None, JobLv(job))
    ensures CoversAt(StepExtend(s, n, job, phase, c).value, None, JobLv(job)) <==>
            !(phase.Write? && c.Proceed? && job.rec.name in s.catalog && JobLv(job) in s.lvs
              && NewSize(job.rec.size, job.amount) > s.lvs[JobLv(job)])
  {
    if phase.Grow? && c.Allot? { RequestedGrows(s.lvs[JobLv(job)], job.amount, c.size); }
  }

  lemma CreateOwedAway(s: State, n: string, c: Choice, lv: Lv)
    requires LocksOk(s) && Try(s, n, c).Some? && !OnLv(s.procs[n], lv)
    ensures CreateOwed(Holder(Step(s, n, c), lv.vg), lv) == CreateOwed(Holder(s, lv.vg), lv)
  {
    StepShape(s, n, c);
    NothingOwedYet(s, n, c, lv);
    LockMoves(s, Step(s, n, c), n, Step(s, n, c).procs[n], lv.vg);
  }

  lemma CreateOwedOn(s: State, n: string, c: Choice, lv: Lv)
    requires LocksOk(s) && Try(s, n, c).Some? && OnLv(s.procs[n], lv)
    ensures CreateOwed(Holder(s, lv.vg), lv) == CreateOwed(s.procs[n], lv)
    ensures n in Step(s, n, c).procs
    ensures CreateOwed(Holder(Step(s, n, c), lv.vg), lv) == CreateOwed(Step(s, n, c).procs[n], lv)
  {
    StepShape(s, n, c);
    LockMoves(s, Step(s, n, c), n, Step(s, n, c).procs[n], lv.vg);
    assert Held(s.procs[n]) == Some(lv.vg);
  }

  lemma StepFitsIff(s: State, n: string, c: Choice, lv: Lv)
    requires Inv(s) && RecordFits(s, lv)
    ensures RecordFits(Step(s, n, c), lv) <==> UpdateFits(s, n, c, lv)
  {
    if Try(s, n, c).Some? {
      if OnLv(s.procs[n], lv) {
        CreateOwedOn(s, n, c, lv);
        assert ProcOk(s, s.procs[n]);
        var job, phase := s.procs[n].job, s.procs[n].phase;
        if phase != Release {
          HoldingShape(s, n, job, phase, c);
          match job
          case CreateJob(_) => CreateCovers(s, n, job, phase, c);
          case DeleteJob(_) => DeleteCovers(s, n, job, phase, c);
          case ExtendJob(_, _) => ExtendFits(s, n, job, phase, c);
        }
      } else {
        CreateOwedAway(s, n, c, lv);
        StepAway(s, n, c, lv);
      }
    }
  }

  /** The record of an LV never overstates it in a run if and only if no update
      that commits writes more than the LV has at that time. */
  lemma RecordFitsRunIff(s0: State, sched: Schedule, lv: Lv)
    requires Init(s0)
    ensures (forall k | 0 <= k <= |sched| :: RecordFits(Exec(s0, sched[..k]), lv))
       <==> (forall k | 0 <= k < |sched| :: UpdateFits(Exec(s0, sched[..k]), sched[k].0, sched[k].1, lv))
  {
    var good, ok := (s: State) => RecordFits(s, lv), (s: State, n: string, c: Choice) => UpdateFits(s, n, c, lv);
    forall s, n, c | Inv(s) && good(s) ensures good(Step(s, n, c)) <==> ok(s, n, c) {
      StepFitsIff(s, n, c, lv);
    }
    RunIff(good, ok, s0, sched);
    assert AllGood(good, s0, sched) <==> forall k | 0 <= k <= |sched| :: RecordFits(Exec(s0, sched[..k]), lv);
    assert AllOk(ok, s0, sched) <==>
           forall k | 0 <= k < |sched| :: UpdateFits(Exec(s0, sched[..k]), sched[k].0, sched[k].1, lv);
  }

  // ----- what a caller can see before the call

  /** What an extend writes is covered by what it asked `lvextend` for, if its
      copy was covered; wrap-around only lowers it. */
  lemma NewSizeCovered(size: nat, lv: nat, a: Amount)
    requires size <= lv
    ensures NewSize(size, a) <= Requested(lv, a)
  {
    if a.Percent? {
      var p := a.percent;
      assert size * p <= lv * p;
      assert Wrap(size * p) / 100 <= lv * p / 100;
    }
  }

  /** An `lvextend` of this LV is absolute, or the extend's copy is not larger than the LV. */
  predicate GrowSafe(s: State, n: string, c: Choice, lv: Lv) {
    Grows(s, n, c, lv) ==> s.procs[n].job.amount.Absolute? || s.procs[n].job.rec.size <= s.lvs[lv]
  }

  lemma SafeFits(s: State, n: string, c: Choice, lv: Lv)
    requires GrowSafe(s, n, c, lv)
    ensures GrowFits(s, n, c, lv)
  {
    if Grows(s, n, c, lv) && !s.procs[n].job.amount.Absolute? {
      NewSizeCovered(s.procs[n].job.rec.size, s.lvs[lv], s.procs[n].job.amount);
    }
  }

  /**
    No record states more than its LV's actual size, in any run in which every
    `lvextend` of this LV by a delta or a percentage found the LV at least as
    large as the copy of the record it goes by.
   */
  lemma RecordNeverOverstates(s0: State, sched: Schedule, lv: Lv)
    requires Init(s0)
    requires forall k | 0 <= k < |sched| :: GrowSafe(Exec(s0, sched[..k]), sched[k].0, sched[k].1, lv)
    ensures var s := Exec(s0, sched);
            Named(s, lv) && lv in s.lvs ==> s.catalog[lv.name].size <= s.lvs[lv]
  {
    forall k | 0 <= k < |sched| ensures GrowFits(Exec(s0, sched[..k]), sched[k].0, sched[k].1, lv) {
      SafeFits(Exec(s0, sched[..k]), sched[k].0, sched[k].1, lv);
    }
    CoveredRunIff(s0, sched, lv);
    assert sched[..|sched|] == sched;
    assert Covers(Exec(s0, sched[..|sched|]), lv);
  }
}
