/**
  Runs in which the extends of a disk do not overlap its deletion: none of them
  ever goes by a copy of a record that is larger than the LV.
 */
module ProtocolIsolation {
  import opened Records
  import opened Protocol
  import opened ProtocolSizes

  /** An extend of disk `x` between its pre-lock read and its record update. */
  predicate ExtendCopy(pc: Pc, x: string) {
    && (pc.Waiting? || (pc.Holding? && (pc.phase.Grow? || pc.phase.Write?)))
    && pc.job.ExtendJob? && pc.job.rec.name == x
  }

  /** The step is the commit of a delete of disk `x`. */
  predicate DeleteCommits(s: State, n: string, c: Choice, x: string) {
    && n in s.procs && s.procs[n].Holding? && s.procs[n].phase.Forget? && c.Proceed?
    && JobLv(s.procs[n].job).name == x
  }

  /** No extend of `x` carries a copy while a delete of `x` commits. */
  ghost predicate DeleteIsolated(s: State, n: string, c: Choice, x: string) {
    forall m | DeleteCommits(s, n, c, x) && m in s.procs :: !ExtendCopy(s.procs[m], x)
  }

  /** The step is the commit of an extend of this LV's record. */
  predicate UpdateCommits(s: State, n: string, c: Choice, lv: Lv) {
    n in s.procs && OnLv(s.procs[n], lv) && s.procs[n].job.ExtendJob? && s.procs[n].phase.Write? && c.Proceed?
  }

  /** A record keeps naming its LV; the LV, if there still, has not shrunk. */
  predicate StaysNamed(s: State, s': State, lv: Lv) {
    && Named(s', lv)
    && (lv in s'.lvs ==> lv in s.lvs && s'.lvs[lv] >= s.lvs[lv])
  }

  predicate SameRecordSize(s: State, s': State, lv: Lv) {
    Named(s, lv) && Named(s', lv) ==> s'.catalog[lv.name].size == s.catalog[lv.name].size
  }

  lemma CreateStays(s: State, n: string, job: Job, phase: Phase, c: Choice, lv: Lv)
    requires job.CreateJob? && StepCreate(s, n, job, phase, c).Some? && Named(s, lv)
    requires MakesNew(Holding(job, phase)) ==> JobLv(job) != lv
    ensures var s' := StepCreate(s, n, job, phase, c).value; StaysNamed(s, s', lv) && SameRecordSize(s, s', lv)
  {
  }

  lemma DeleteStays(s: State, n: string, job: Job, phase: Phase, c: Choice, lv: Lv)
    requires job.DeleteJob? && StepDelete(s, n, job, phase, c).Some? && Named(s, lv)
    requires !(phase.Forget? && c.Proceed? && JobLv(job).name == lv.name)
    ensures var s' := StepDelete(s, n, job, phase, c).value; StaysNamed(s, s', lv) && SameRecordSize(s, s', lv)
  {
  }

  lemma ExtendStays(s: State, n: string, job: Job, phase: Phase, c: Choice, lv: Lv)
    requires job.ExtendJob? && StepExtend(s, n, job, phase, c).Some? && Named(s, lv)
    requires phase.Write? && job.rec.name == lv.name ==> JobLv(job) == lv
    ensures var s' := StepExtend(s, n, job, phase, c).value;
            && StaysNamed(s, s', lv)
            && ((phase.Write? && c.Proceed? && JobLv(job) == lv) || SameRecordSize(s, s', lv))
  {
    if phase.Grow? && c.Allot? { RequestedGrows(s.lvs[JobLv(job)], job.amount, c.size); }
  }

  lemma NamedStays(s: State, n: string, c: Choice, lv: Lv)
    requires Inv(s) && Named(s, lv) && !DeleteCommits(s, n, c, lv.name)
    requires n in s.procs && s.procs[n].Holding? && ExtendCopy(s.procs[n], lv.name) ==> Named(s, JobLv(s.procs[n].job))
    ensures StaysNamed(s, Step(s, n, c), lv)
    ensures UpdateCommits(s, n, c, lv) || SameRecordSize(s, Step(s, n, c), lv)
  {
    if Try(s, n, c).Some? && s.procs[n].Holding? && s.procs[n].phase != Release {
      assert ProcOk(s, s.procs[n]);
      var job, phase := s.procs[n].job, s.procs[n].phase;
      match job
      case CreateJob(_) => CreateStays(s, n, job, phase, c, lv);
      case DeleteJob(_) => DeleteStays(s, n, job, phase, c, lv);
      case ExtendJob(_, _) => ExtendStays(s, n, job, phase, c, lv);
    }
  }

  /** A node has a copy after a step only if it had it before or has just read the record. */
  lemma OwnCopy(s: State, n: string, c: Choice, x: string)
    requires Try(s, n, c).Some? && RecordsOk(s)
    ensures var s' := Step(s, n, c);
            && n in s'.procs && s'.procs == s.procs[n := s'.procs[n]]
            && (ExtendCopy(s'.procs[n], x) ==>
                  if ExtendCopy(s.procs[n], x)
                  then s'.procs[n].job == s.procs[n].job
                       && (s.procs[n].Holding? && s.procs[n].phase.Grow? ==> s'.procs[n].phase.Write?)
                       && !(s.procs[n].Holding? && s.procs[n].phase.Write?)
                  else x in s.catalog && s'.procs[n].Waiting? && s'.procs[n].job.rec == s.catalog[x]
                       && s'.catalog == s.catalog && s'.lvs == s.lvs)
  {
    StepShape(s, n, c);
    if s.procs[n].Holding? && s.procs[n].phase != Release {
      var job, phase := s.procs[n].job, s.procs[n].phase;
      HoldingShape(s, n, job, phase, c);
      match job
      case CreateJob(_) =>
      case DeleteJob(_) =>
      case ExtendJob(_, _) => assert phase.Grow? || phase.Write?;
    }
  }

  // ----- no record overstates its LV

  /** A copy still names its LV, and before the `lvextend` states no more than it has. */
  predicate CopyCovered(s: State, pc: Pc)
    requires (pc.Waiting? || pc.Holding?) && pc.job.ExtendJob?
  {
    var lv := JobLv(pc.job);
    Named(s, lv) && (!(pc.Holding? && pc.phase.Write?) && lv in s.lvs ==> pc.job.rec.size <= s.lvs[lv])
  }

  ghost predicate DiskCovered(s: State, x: string) {
    && (forall v: string :: Covers(s, Lv(v, x)))
    && (forall m | m in s.procs && ExtendCopy(s.procs[m], x) :: CopyCovered(s, s.procs[m]))
  }

  lemma CopiesCovered(s: State, n: string, c: Choice, x: string, m: string)
    requires Inv(s) && DiskCovered(s, x) && DeleteIsolated(s, n, c, x) && Try(s, n, c).Some?
    requires m in Step(s, n, c).procs && ExtendCopy(Step(s, n, c).procs[m], x)
    ensures CopyCovered(Step(s, n, c), Step(s, n, c).procs[m])
  {
    OwnCopy(s, n, c, x);
    var pc := s.procs[m];
    if ExtendCopy(pc, x) {
      assert CopyCovered(s, pc);
      NamedStays(s, n, c, JobLv(pc.job));
    } else {
      assert Covers(s, Lv(s.catalog[x].vg, x));
    }
  }

  lemma StepKeepsCovered(s: State, n: string, c: Choice, x: string)
    requires Inv(s) && DiskCovered(s, x) && DeleteIsolated(s, n, c, x)
    ensures DiskCovered(Step(s, n, c), x)
    ensures forall v: string :: GrowSafe(s, n, c, Lv(v, x))
  {
    forall v: string ensures GrowSafe(s, n, c, Lv(v, x)) && Covers(Step(s, n, c), Lv(v, x)) {
      if Grows(s, n, c, Lv(v, x)) { assert CopyCovered(s, s.procs[n]); }
      SafeFits(s, n, c, Lv(v, x));
      StepCoversIff(s, n, c, Lv(v, x));
    }
    if Try(s, n, c).Some? {
      forall m | m in Step(s, n, c).procs && ExtendCopy(Step(s, n, c).procs[m], x)
        ensures CopyCovered(Step(s, n, c), Step(s, n, c).procs[m])
      {
        CopiesCovered(s, n, c, x, m);
      }
    }
  }

  ghost predicate IsolatedRun(s0: State, sched: Schedule, x: string) {
    forall k | 0 <= k < |sched| :: DeleteIsolated(Exec(s0, sched[..k]), sched[k].0, sched[k].1, x)
  }

  lemma {:induction false} IsolatedCovered(s0: State, sched: Schedule, x: string, k: nat)
    requires Init(s0) && IsolatedRun(s0, sched, x) && k <= |sched|
    ensures DiskCovered(Exec(s0, sched[..k]), x)
  {
    if k > 0 {
      IsolatedCovered(s0, sched, x, k - 1);
      RunKeepsInv(s0, sched[..k - 1]);
      ExecNext(s0, sched, k - 1);
      StepKeepsCovered(Exec(s0, sched[..k - 1]), sched[k - 1].0, sched[k - 1].1, x);
    }
  }

  /** If no delete of a disk commits while an extend of it carries a copy, every
      `lvextend` of the disk is safe, and its record never overstates its LV. */
  lemma IsolatedNeverOverstates(s0: State, sched: Schedule, v: string, x: string)
    requires Init(s0) && IsolatedRun(s0, sched, x)
    ensures forall k | 0 <= k < |sched| :: GrowSafe(Exec(s0, sched[..k]), sched[k].0, sched[k].1, Lv(v, x))
    ensures var s := Exec(s0, sched);
            Named(s, Lv(v, x)) && Lv(v, x) in s.lvs ==> s.catalog[x].size <= s.lvs[Lv(v, x)]
  {
    forall k | 0 <= k < |sched| ensures GrowSafe(Exec(s0, sched[..k]), sched[k].0, sched[k].1, Lv(v, x)) {
      IsolatedCovered(s0, sched, x, k);
      RunKeepsInv(s0, sched[..k]);
      StepKeepsCovered(Exec(s0, sched[..k]), sched[k].0, sched[k].1, x);
    }
    RecordNeverOverstates(s0, sched, Lv(v, x));
  }

  // ----- runs without deletes

  predicate NoDeletes(sched: Schedule) {
    forall k | 0 <= k < |sched| :: sched[k].1.Begin? ==> !sched[k].1.request.DeleteRequest?
  }

  predicate NotDeleting(pc: Pc) {
    && (pc.Reading? ==> pc.amount.Some?)
    && (pc.Waiting? || pc.Holding? ==> !pc.job.DeleteJob?)
    && !(pc.Holding? && pc.phase.Forget?)
  }

  lemma NobodyDeletes(s: State, n: string, c: Choice)
    requires forall m | m in s.procs :: NotDeleting(s.procs[m])
    requires c.Begin? ==> !c.request.DeleteRequest?
    ensures forall m | m in Step(s, n, c).procs :: NotDeleting(Step(s, n, c).procs[m])
  {
    if Try(s, n, c).Some? {
      StepShape(s, n, c);
      assert NotDeleting(s.procs[n]);
      if s.procs[n].Holding? && s.procs[n].phase != Release {
        NoForget(s, n, s.procs[n].job, s.procs[n].phase, c);
      }
    }
  }

  lemma NoForget(s: State, n: string, job: Job, phase: Phase, c: Choice)
    requires StepHolding(s, n, job, phase, c).Some? && !job.DeleteJob? && phase != Release
    ensures var s' := StepHolding(s, n, job, phase, c).value; n in s'.procs && NotDeleting(s'.procs[n])
  {
    HoldingShape(s, n, job, phase, c);
    match job
    case CreateJob(_) => CreateNoForget(s, n, job, phase, c);
    case ExtendJob(_, _) =>
  }

  lemma CreateNoForget(s: State, n: string, job: Job, phase: Phase, c: Choice)
    requires job.CreateJob? && StepCreate(s, n, job, phase, c).Some?
    ensures var s' := StepCreate(s, n, job, phase, c).value;
            n in s'.procs && s'.procs[n].Holding? && !s'.procs[n].phase.Forget?
  {
  }

  /** Every record has its LV. */
  ghost predicate Housed(s: State) {
    forall x | x in s.catalog :: LvOf(s.catalog[x]) in s.lvs
  }

  lemma NewlyNamed(s: State, n: string, job: Job, phase: Phase, c: Choice)
    requires StepHolding(s, n, job, phase, c).Some? && !job.DeleteJob? && phase != Release
    requires phase.Insert? || phase.Write? ==> JobLv(job) in s.lvs
    ensures var s' := StepHolding(s, n, job, phase, c).value;
            Named(s', JobLv(job)) ==> Named(s, JobLv(job)) || JobLv(job) in s'.lvs
  {
  }

  lemma StillHoused(s: State, n: string, c: Choice, x: string)
    requires Inv(s) && Housed(s) && Try(s, n, c).Some? && NotDeleting(s.procs[n])
    requires RecordsOk(Step(s, n, c)) && x in Step(s, n, c).catalog
    ensures LvOf(Step(s, n, c).catalog[x]) in Step(s, n, c).lvs
  {
    var s' := Step(s, n, c);
    var lv := LvOf(s'.catalog[x]);
    StepEffect(s, n, c, lv);
    if Named(s, lv) {
      assert lv in s.lvs;
      if lv !in s'.lvs { RemoverJustified(s, n, lv); }
    } else if !OnLv(s.procs[n], lv) {
      StepAway(s, n, c, lv);
    } else if s.procs[n].phase != Release {
      assert ProcOk(s, s.procs[n]) && LvOk(s, lv);
      assert Held(s.procs[n]) == Some(lv.vg) && Holder(s, lv.vg) == s.procs[n];
      NewlyNamed(s, n, s.procs[n].job, s.procs[n].phase, c);
    }
  }

  ghost predicate DeleteFree(s: State) {
    Housed(s) && forall m | m in s.procs :: NotDeleting(s.procs[m])
  }

  lemma {:induction false} DeleteFreeAt(s0: State, sched: Schedule, k: nat)
    requires Init(s0) && NoDeletes(sched) && k <= |sched|
    ensures DeleteFree(Exec(s0, sched[..k]))
  {
    if k > 0 {
      var s, n, c := Exec(s0, sched[..k - 1]), sched[k - 1].0, sched[k - 1].1;
      DeleteFreeAt(s0, sched, k - 1);
      RunKeepsInv(s0, sched[..k - 1]);
      ExecNext(s0, sched, k - 1);
      NobodyDeletes(s, n, c);
      StepKeepsInv(s, n, c);
      if Try(s, n, c).Some? {
        forall x | x in Step(s, n, c).catalog ensures LvOf(Step(s, n, c).catalog[x]) in Step(s, n, c).lvs {
          StillHoused(s, n, c, x);
        }
      }
    }
  }

  lemma NoDeletesIsolates(s0: State, sched: Schedule, x: string)
    requires Init(s0) && NoDeletes(sched)
    ensures IsolatedRun(s0, sched, x)
  {
    forall k | 0 <= k < |sched| ensures DeleteIsolated(Exec(s0, sched[..k]), sched[k].0, sched[k].1, x) {
      DeleteFreeAt(s0, sched, k);
    }
  }

  /** In every run without deletes, with any failures, every record has its LV and does not overstate it. */
  lemma WithoutDeletesNeverOverstates(s0: State, sched: Schedule, x: string)
    requires Init(s0) && NoDeletes(sched)
    requires x in Exec(s0, sched).catalog
    ensures var s := Exec(s0, sched);
            var lv := LvOf(s.catalog[x]);
            lv in s.lvs && s.catalog[x].size <= s.lvs[lv]
  {
    NoDeletesIsolates(s0, sched, x);
    RunKeepsInv(s0, sched);
    IsolatedNeverOverstates(s0, sched, Exec(s0, sched).catalog[x].vg, x);
    assert sched[..|sched|] == sched;
    DeleteFreeAt(s0, sched, |sched|);
  }
}
