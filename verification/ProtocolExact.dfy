/**
  When a record states exactly its LV's size.
 */
module ProtocolExact {
  import opened Records
  import opened Protocol
  import opened ProtocolSizes
  import opened ProtocolIsolation

  /** The record states the LV's size, or the one about to be written does. */
  predicate ExactAt(s: State, owed: Option<nat>, lv: Lv) {
    lv in s.lvs ==>
      match owed
      case Some(size) => size == s.lvs[lv]
      case None => Named(s, lv) ==> s.catalog[lv.name].size == s.lvs[lv]
  }

  predicate Exact(s: State, lv: Lv) {
    ExactAt(s, Owed(s, lv), lv)
  }

  /** The step is no `lvcreate` or `lvextend` of this LV that misses the size to be
      recorded, and no record update whose failure leaves the record behind. */
  predicate ExactPhase(s: State, job: Job, phase: Phase, c: Choice) {
    var lv := JobLv(job);
    match phase
    case MakeLv => job.CreateJob? && c.Allot? ==> c.size == job.input.size
    case Grow => job.ExtendJob? && c.Allot? ==> c.size == NewSize(job.rec.size, job.amount)
    case Write =>
      job.ExtendJob? && c.Fail? && lv in s.lvs && Named(s, lv) ==> s.catalog[lv.name].size == s.lvs[lv]
    case _ => true
  }

  predicate ExactMove(s: State, n: string, c: Choice, lv: Lv) {
    Try(s, n, c).Some? && OnLv(s.procs[n], lv) ==> ExactPhase(s, s.procs[n].job, s.procs[n].phase, c)
  }

  lemma CreateExact(s: State, n: string, job: Job, phase: Phase, c: Choice)
    requires job.CreateJob? && StepCreate(s, n, job, phase, c).Some?
    requires Named(s, JobLv(job)) ==> !MakesNew(Holding(job, phase))
    requires ExactAt(s, Pending(Holding(job, phase), JobLv(job)), JobLv(job))
    ensures var s' := StepCreate(s, n, job, phase, c).value;
            && n in s'.procs
            && (ExactAt(s', Pending(s'.procs[n], JobLv(job)), JobLv(job)) <==> ExactPhase(s, job, phase, c))
  {
  }

  lemma DeleteExact(s: State, n: string, job: Job, phase: Phase, c: Choice)
    requires job.DeleteJob? && StepDelete(s, n, job, phase, c).Some?
    requires ExactAt(s, None, JobLv(job))
    ensures ExactAt(StepDelete(s, n, job, phase, c).value, None, JobLv(job)) && ExactPhase(s, job, phase, c)
  {
  }

  lemma ExtendExact(s: State, n: string, job: Job, phase: Phase, c: Choice)
    requires job.ExtendJob? && StepExtend(s, n, job, phase, c).Some?
    requires ExactAt(s, Pending(Holding(job, phase), JobLv(job)), JobLv(job))
    ensures var s' := StepExtend(s, n, job, phase, c).value;
            && n in s'.procs
            && (ExactAt(s', Pending(s'.procs[n], JobLv(job)), JobLv(job)) <==> ExactPhase(s, job, phase, c))
  {
  }

  /** From a state in which the sizes are equal, they stay equal if and only if the step is exact. */
  lemma StepExactIff(s: State, n: string, c: Choice, lv: Lv)
    requires Inv(s) && Exact(s, lv)
    ensures Exact(Step(s, n, c), lv) <==> ExactMove(s, n, c, lv)
  {
    if Try(s, n, c).Some? {
      if OnLv(s.procs[n], lv) {
        OwedOn(s, n, c, lv);
        assert ProcOk(s, s.procs[n]);
        var job, phase := s.procs[n].job, s.procs[n].phase;
        if phase != Release {
          match job
          case CreateJob(_) => CreateExact(s, n, job, phase, c);
          case DeleteJob(_) => DeleteExact(s, n, job, phase, c); HoldingShape(s, n, job, phase, c);
          case ExtendJob(_, _) => ExtendExact(s, n, job, phase, c);
        }
      } else {
        OwedAway(s, n, c, lv);
        StepAway(s, n, c, lv);
      }
    }
  }

  /**
    For any interleaving, with any failures of other calls and whatever happens to
    other disks: the record of an LV, or the one about to be written, states its
    size at all times if and only if every step on this LV is exact.
   */
  lemma ExactRunIff(s0: State, sched: Schedule, lv: Lv)
    requires Init(s0)
    ensures (forall k | 0 <= k <= |sched| :: Exact(Exec(s0, sched[..k]), lv))
       <==> (forall k | 0 <= k < |sched| :: ExactMove(Exec(s0, sched[..k]), sched[k].0, sched[k].1, lv))
  {
    var good, ok := (s: State) => Exact(s, lv), (s: State, n: string, c: Choice) => ExactMove(s, n, c, lv);
    forall s, n, c | Inv(s) && good(s) ensures good(Step(s, n, c)) <==> ok(s, n, c) {
      StepExactIff(s, n, c, lv);
    }
    RunIff(good, ok, s0, sched);
    assert AllGood(good, s0, sched) <==> forall k | 0 <= k <= |sched| :: Exact(Exec(s0, sched[..k]), lv);
    assert AllOk(ok, s0, sched) <==>
           forall k | 0 <= k < |sched| :: ExactMove(Exec(s0, sched[..k]), sched[k].0, sched[k].1, lv);
  }

  /** If the steps on this LV are exact, then whenever its lock is free, its record
      states its size; and it exists unless a cleanup of its name has failed. */
  lemma RecordStatesExactSize(s0: State, sched: Schedule, lv: Lv)
    requires Init(s0)
    requires forall k | 0 <= k < |sched| :: ExactMove(Exec(s0, sched[..k]), sched[k].0, sched[k].1, lv)
    requires Named(Exec(s0, sched), lv) && lv.vg !in Exec(s0, sched).locks
    ensures var s := Exec(s0, sched);
            && (lv in s.lvs ==> s.catalog[lv.name].size == s.lvs[lv])
            && (lv.name !in s.damaged ==> lv in s.lvs)
  {
    ExactRunIff(s0, sched, lv);
    assert sched[..|sched|] == sched;
    assert Exact(Exec(s0, sched[..|sched|]), lv);
    RunKeepsInv(s0, sched);
    assert LvOk(Exec(s0, sched), lv);
  }

  // ----- runs in which the extends of a disk do not overlap

  /** The arithmetic of an extend of this size does not wrap. */
  predicate Fits64(size: nat, a: Amount) {
    Requested(size, a) < U64 && (a.Percent? ==> size * a.percent < U64)
  }

  /** The tools are exact on this disk, its updates do not fail, and no extend or
      delete of it commits while another extend of it carries a copy. */
  ghost predicate SoloMove(s: State, n: string, c: Choice, x: string) {
    && DeleteIsolated(s, n, c, x)
    && (Try(s, n, c).Some? && s.procs[n].Holding? && JobLv(s.procs[n].job).name == x ==>
          var job := s.procs[n].job;
          match s.procs[n].phase
          case MakeLv => job.CreateJob? && c.Allot? ==> c.size == job.input.size
          case Grow =>
            job.ExtendJob? && c.Allot? && JobLv(job) in s.lvs ==>
              c.size == Requested(s.lvs[JobLv(job)], job.amount) && Fits64(s.lvs[JobLv(job)], job.amount)
          case Write =>
            job.ExtendJob? ==> !c.Fail? && forall m | m in s.procs && m != n :: !ExtendCopy(s.procs[m], x)
          case _ => true)
  }

  /** A copy still names its LV, and before the `lvextend` states what the record states. */
  predicate CopyFresh(s: State, pc: Pc)
    requires (pc.Waiting? || pc.Holding?) && pc.job.ExtendJob?
  {
    && Named(s, JobLv(pc.job))
    && (!(pc.Holding? && pc.phase.Write?) ==> pc.job.rec.size == s.catalog[pc.job.rec.name].size)
  }

  ghost predicate DiskExact(s: State, x: string) {
    && (forall v: string :: Exact(s, Lv(v, x)))
    && (forall m | m in s.procs && ExtendCopy(s.procs[m], x) :: CopyFresh(s, s.procs[m]))
  }

  lemma CopiesFresh(s: State, n: string, c: Choice, x: string, m: string)
    requires Inv(s) && DiskExact(s, x) && SoloMove(s, n, c, x) && Try(s, n, c).Some?
    requires m in Step(s, n, c).procs && ExtendCopy(Step(s, n, c).procs[m], x)
    ensures CopyFresh(Step(s, n, c), Step(s, n, c).procs[m])
  {
    OwnCopy(s, n, c, x);
    if ExtendCopy(s.procs[m], x) {
      var lv := JobLv(s.procs[m].job);
      assert CopyFresh(s, s.procs[m]);
      NamedStays(s, n, c, lv);
      assert !UpdateCommits(s, n, c, lv);
    }
  }

  /** Without wrap-around an extend records what it asked for, if its copy states the LV's size. */
  lemma GrowExact(s: State, n: string, c: Choice, lv: Lv)
    requires Inv(s) && Exact(s, lv) && SoloMove(s, n, c, lv.name) && Grows(s, n, c, lv)
    requires CopyFresh(s, s.procs[n])
    ensures c.size == NewSize(s.procs[n].job.rec.size, s.procs[n].job.amount)
  {
    assert Held(s.procs[n]) == Some(lv.vg) && Holder(s, lv.vg) == s.procs[n];
  }

  lemma SoloIsExact(s: State, n: string, c: Choice, lv: Lv)
    requires Inv(s) && DiskExact(s, lv.name) && SoloMove(s, n, c, lv.name)
    ensures ExactMove(s, n, c, lv)
  {
    if Grows(s, n, c, lv) {
      assert Exact(s, Lv(lv.vg, lv.name)) && CopyFresh(s, s.procs[n]);
      GrowExact(s, n, c, lv);
    }
  }

  lemma StepKeepsExact(s: State, n: string, c: Choice, x: string)
    requires Inv(s) && DiskExact(s, x) && SoloMove(s, n, c, x)
    ensures DiskExact(Step(s, n, c), x)
  {
    forall v: string ensures Exact(Step(s, n, c), Lv(v, x)) {
      assert Exact(s, Lv(v, x));
      SoloIsExact(s, n, c, Lv(v, x));
      StepExactIff(s, n, c, Lv(v, x));
    }
    if Try(s, n, c).Some? {
      forall m | m in Step(s, n, c).procs && ExtendCopy(Step(s, n, c).procs[m], x)
        ensures CopyFresh(Step(s, n, c), Step(s, n, c).procs[m])
      {
        CopiesFresh(s, n, c, x, m);
      }
    }
  }

  ghost predicate SoloRun(s0: State, sched: Schedule, x: string) {
    forall k | 0 <= k < |sched| :: SoloMove(Exec(s0, sched[..k]), sched[k].0, sched[k].1, x)
  }

  lemma {:induction false} SoloExactAt(s0: State, sched: Schedule, x: string, k: nat)
    requires Init(s0) && SoloRun(s0, sched, x) && k <= |sched|
    ensures DiskExact(Exec(s0, sched[..k]), x)
  {
    if k > 0 {
      SoloExactAt(s0, sched, x, k - 1);
      RunKeepsInv(s0, sched[..k - 1]);
      ExecNext(s0, sched, k - 1);
      StepKeepsExact(Exec(s0, sched[..k - 1]), sched[k - 1].0, sched[k - 1].1, x);
    }
  }

  /** With exact tools and no overlap among the extends and deletes of one disk,
      whatever happens to other disks, its record states its LV's size. */
  lemma SoloRunIsExact(s0: State, sched: Schedule, lv: Lv)
    requires Init(s0) && SoloRun(s0, sched, lv.name)
    ensures forall k | 0 <= k < |sched| :: ExactMove(Exec(s0, sched[..k]), sched[k].0, sched[k].1, lv)
    ensures var s := Exec(s0, sched);
            Named(s, lv) && lv.vg !in s.locks && lv in s.lvs ==> s.catalog[lv.name].size == s.lvs[lv]
  {
    forall k | 0 <= k < |sched| ensures ExactMove(Exec(s0, sched[..k]), sched[k].0, sched[k].1, lv) {
      SoloExactAt(s0, sched, lv.name, k);
      RunKeepsInv(s0, sched[..k]);
      SoloIsExact(Exec(s0, sched[..k]), sched[k].0, sched[k].1, lv);
    }
    var s := Exec(s0, sched);
    if Named(s, lv) && lv.vg !in s.locks { RecordStatesExactSize(s0, sched, lv); }
  }

  // ----- exactly which extends break it

  lemma NewSizeIff(copy: nat, lv: nat, a: Amount)
    requires Fits64(copy, a)
    ensures NewSize(copy, a) <= Requested(lv, a) <==> a.Absolute? || copy <= lv
    ensures NewSize(copy, a) == Requested(lv, a) <==> a.Absolute? || copy == lv
  {
    if a.Percent? {
      var p := a.percent;
      if copy <= lv {
        assert copy * p <= lv * p;
      } else {
        assert lv * p <= copy * p;
        assert lv * p / 100 <= copy * p / 100;
      }
    }
  }

  /** An exact `lvextend` and the record update after it. */
  lemma GrowThenWrite(s: State, n: string)
    requires Inv(s) && n in s.procs && s.procs[n].Holding? && s.procs[n].job.ExtendJob? && s.procs[n].phase == Grow
    requires JobLv(s.procs[n].job) in s.lvs && JobLv(s.procs[n].job).name !in s.damaged
    requires s.procs[n].job.amount.Absolute? ==> s.procs[n].job.amount.bytes > s.lvs[JobLv(s.procs[n].job)]
    ensures var job := s.procs[n].job;
            var got := Requested(s.lvs[JobLv(job)], job.amount);
            var s' := Step(Step(s, n, Allot(got)), n, Proceed);
            && Named(s', JobLv(job)) && JobLv(job) in s'.lvs && s'.lvs[JobLv(job)] == got
            && s'.catalog[job.rec.name].size == NewSize(job.rec.size, job.amount)
  {
    var job := s.procs[n].job;
    var lv := JobLv(job);
    assert ProcOk(s, s.procs[n]) && LvOk(s, lv);
    assert Held(s.procs[n]) == Some(lv.vg) && Holder(s, lv.vg) == s.procs[n];
    GrowStep(s, n, Requested(s.lvs[lv], job.amount));
    WriteStep(LvExtended(s, n, job, Requested(s.lvs[lv], job.amount)), n, job);
  }

  lemma GrowStep(s: State, n: string, size: nat)
    requires n in s.procs && s.procs[n].Holding? && s.procs[n].job.ExtendJob? && s.procs[n].phase == Grow
    requires JobLv(s.procs[n].job) in s.lvs && LvExtends(s.lvs[JobLv(s.procs[n].job)], s.procs[n].job.amount, size)
    ensures Step(s, n, Allot(size)) == LvExtended(s, n, s.procs[n].job, size)
  {
  }

  lemma WriteStep(s: State, n: string, job: Job)
    requires job.ExtendJob? && n in s.procs && s.procs[n] == Holding(job, Write) && job.rec.name in s.catalog
    ensures Step(s, n, Proceed) == RecordUpdated(s, n, job, job.rec.(size := NewSize(job.rec.size, job.amount)))
  {
  }

  /**
    From any reachable state, an extend over an exact tool that then commits leaves
    a record that does not overstate its LV if and only if it is absolute or the
    copy it goes by is not larger than the LV; and a record that states exactly
    the LV's size if and only if it is absolute or the copy states that size.
   */
  lemma ExtendSizesIff(s0: State, sched: Schedule, n: string)
    requires Init(s0)
    requires var s := Exec(s0, sched);
             n in s.procs && s.procs[n].Holding? && s.procs[n].job.ExtendJob? && s.procs[n].phase == Grow
    requires var s := Exec(s0, sched);
             var job := s.procs[n].job;
             && JobLv(job) in s.lvs && JobLv(job).name !in s.damaged && Fits64(job.rec.size, job.amount)
             && (job.amount.Absolute? ==> job.amount.bytes > s.lvs[JobLv(job)])
    ensures var s := Exec(s0, sched);
            var job := s.procs[n].job;
            var lv := s.lvs[JobLv(job)];
            var s' := Exec(s0, sched + [(n, Allot(Requested(lv, job.amount))), (n, Proceed)]);
            && Named(s', JobLv(job)) && JobLv(job) in s'.lvs
            && (s'.catalog[job.rec.name].size <= s'.lvs[JobLv(job)] <==>
                job.amount.Absolute? || job.rec.size <= lv)
            && (s'.catalog[job.rec.name].size == s'.lvs[JobLv(job)] <==>
                job.amount.Absolute? || job.rec.size == lv)
  {
    var s := Exec(s0, sched);
    var job := s.procs[n].job;
    var lv := s.lvs[JobLv(job)];
    RunKeepsInv(s0, sched);
    var one := sched + [(n, Allot(Requested(lv, job.amount)))];
    var two := one + [(n, Proceed)];
    assert one[..|sched|] == sched && two[..|one|] == one;
    assert two == sched + [(n, Allot(Requested(lv, job.amount))), (n, Proceed)];
    GrowThenWrite(s, n);
    NewSizeIff(job.rec.size, lv, job.amount);
  }
}
