/**
  What one operation does, call by call, when no other node moves: when it holds
  the lock, when the LV and the record change, what they are in the end, and what
  is left when a call fails.  The invariants say that nothing bad happens; these
  theorems say that the operations do their work.
 */
module ProtocolProgress {
  import opened Records
  import opened Protocol

  // ----- one node moving alone

  /** The state after node `n` alone has taken these steps. */
  function Drive(s: State, n: string, cs: seq<Choice>): State {
    if cs == [] then s
    else
      var last := |cs| - 1;
      Step(Drive(s, n, cs[..last]), n, cs[last])
  }

  function Turns(n: string, cs: seq<Choice>): Schedule {
    seq(|cs|, i requires 0 <= i < |cs| => (n, cs[i]))
  }

  lemma TurnsNext(sched: Schedule, n: string, cs: seq<Choice>)
    requires cs != []
    ensures var all, last := sched + Turns(n, cs), |cs| - 1;
            |all| > 0 && all[..|all| - 1] == sched + Turns(n, cs[..last]) && all[|all| - 1] == (n, cs[last])
  {
  }

  lemma ExecLast(s0: State, sched: Schedule)
    requires sched != []
    ensures var last := |sched| - 1; Exec(s0, sched) == Step(Exec(s0, sched[..last]), sched[last].0, sched[last].1)
  {
  }

  lemma {:induction false} DriveIsExec(s0: State, sched: Schedule, n: string, cs: seq<Choice>)
    ensures Exec(s0, sched + Turns(n, cs)) == Drive(Exec(s0, sched), n, cs)
    decreases |cs|
  {
    var all := sched + Turns(n, cs);
    if cs == [] {
      assert all == sched;
    } else {
      var last := |cs| - 1;
      DriveIsExec(s0, sched, n, cs[..last]);
      TurnsNext(sched, n, cs);
      ExecLast(s0, all);
    }
  }

  lemma DriveNext(s: State, n: string, cs: seq<Choice>, c: Choice)
    ensures Drive(s, n, cs + [c]) == Step(Drive(s, n, cs), n, c)
  {
    assert (cs + [c])[..|cs|] == cs;
  }

  lemma DriveThree(s: State, n: string, cs: seq<Choice>, a: Choice, b: Choice, c: Choice)
    ensures Drive(s, n, cs + [a, b, c]) == Step(Step(Step(Drive(s, n, cs), n, a), n, b), n, c)
  {
    assert cs + [a, b, c] == cs + [a] + [b] + [c];
    DriveNext(s, n, cs, a);
    DriveNext(s, n, cs + [a], b);
    DriveNext(s, n, cs + [a] + [b], c);
  }

  /** What the nodes share. */
  datatype Shared = Shared(
    catalog: map<string, DiskRecord>, lvs: map<Lv, nat>, locks: map<string, string>,
    history: seq<Event>, damaged: set<string>)

  function SharedOf(s: State): Shared {
    Shared(s.catalog, s.lvs, s.locks, s.history, s.damaged)
  }

  /** The state with `n` at `pc` and this shared part. */
  function Mid(s: State, n: string, pc: Pc, v: Shared): State {
    State(v.catalog, v.lvs, v.locks, s.procs[n := pc], s.foreign, v.history, v.damaged)
  }

  lemma MidHome(s: State, n: string)
    requires n in s.procs && s.procs[n] == Idle
    ensures Mid(s, n, Idle, SharedOf(s)) == s
  {
    assert s.procs[n := Idle] == s.procs;
  }

  lemma MidGoto(s: State, n: string, pc: Pc, pc': Pc, v: Shared)
    ensures Goto(Mid(s, n, pc, v), n, pc') == Mid(s, n, pc', v)
  {
    assert s.procs[n := pc][n := pc'] == s.procs[n := pc'];
  }

  /** Taking and giving back the lock, from any point. */
  lemma MidLock(s: State, n: string, job: Job, v: Shared)
    requires JobLv(job).vg !in v.locks
    ensures Step(Mid(s, n, Waiting(job), v), n, Proceed)
         == Mid(s, n, Holding(job, FirstPhase(job)), v.(locks := v.locks[JobLv(job).vg := n]))
  {
    MidGoto(s, n, Waiting(job), Holding(job, FirstPhase(job)), v);
  }

  lemma MidRelease(s: State, n: string, job: Job, v: Shared, locks: map<string, string>)
    requires v.locks == locks[JobLv(job).vg := n] && JobLv(job).vg !in locks
    ensures Step(Mid(s, n, Holding(job, Release), v), n, Proceed) == Mid(s, n, Idle, v.(locks := locks))
  {
    MidGoto(s, n, Holding(job, Release), Idle, v);
    assert v.locks - {JobLv(job).vg} == locks;
  }

  /** A call under the lock that fails without effect. */
  lemma MidFail(s: State, n: string, job: Job, phase: Phase, v: Shared)
    requires job.CreateJob? ==> phase.Check? || phase.MakeLv?
    requires job.DeleteJob? ==> phase.Detach? || phase.DropLv?
    requires job.ExtendJob? ==> phase.Grow? || phase.Write?
    ensures Step(Mid(s, n, Holding(job, phase), v), n, Fail) == Mid(s, n, Holding(job, Release), v)
  {
    MidGoto(s, n, Holding(job, phase), Holding(job, Release), v);
  }

  lemma MidWaitFail(s: State, n: string, job: Job, v: Shared)
    ensures Step(Mid(s, n, Waiting(job), v), n, Fail) == Mid(s, n, Idle, v)
  {
    MidGoto(s, n, Waiting(job), Idle, v);
  }

  lemma MidIdle(s: State, n: string, v: Shared)
    ensures Step(Mid(s, n, Idle, v), n, Proceed) == Mid(s, n, Idle, v)
  {
  }

  // ----- create

  /** The calls of a create that all succeed; `lvcreate` leaves `got` bytes. */
  function CreateCalls(req: Request, thin: bool, got: nat): seq<Choice> {
    [Begin(req), Proceed, Proceed, Allot(got)]
    + if thin then [Proceed, Proceed, Proceed, Proceed] else [Proceed, Proceed]
  }

  /** The node is idle, the request is accepted, and lock, name and LV are free. */
  predicate CreateReady(s: State, n: string, input: CreateInput, vg: string, thin: nat, got: nat) {
    && n in s.procs && s.procs[n] == Idle
    && NormaliseCreate(input, vg, thin).Ok?
    && var norm := NormaliseCreate(input, vg, thin).value;
       && norm.vg !in s.locks && norm.name !in s.catalog
       && Lv(norm.vg, norm.name) !in s.lvs && got >= norm.size
  }

  function CreatePc(norm: CreateInput, k: nat): Pc {
    var job, thin := CreateJob(norm), norm.mode == Thin;
    if k == 1 then Waiting(job)
    else if k == 2 then Holding(job, Check)
    else if k == 3 then Holding(job, MakeLv)
    else if k == 4 then Holding(job, if thin then Header else Insert)
    else if k == 5 then Holding(job, if thin then Dd else Release)
    else if thin && k == 6 then Holding(job, Insert)
    else if thin && k == 7 then Holding(job, Release)
    else Idle
  }

  function CreateEnd(norm: CreateInput): nat {
    if norm.mode == Thin then 8 else 6
  }

  /** What is shared after `k` calls of a create. */
  function CreateShared(v: Shared, n: string, norm: CreateInput, got: nat, k: nat): Shared {
    var end := CreateEnd(norm);
    Shared(if k >= end - 1 then v.catalog[norm.name := RecordFor(norm, n)] else v.catalog,
           if k >= 4 then v.lvs[Lv(norm.vg, norm.name) := got] else v.lvs,
           if 2 <= k < end then v.locks[norm.vg := n] else v.locks,
           if k >= end - 1 then v.history + [Created(norm.name)] else v.history,
           v.damaged)
  }

  function CreateAt(s: State, n: string, norm: CreateInput, got: nat, k: nat): State {
    Mid(s, n, CreatePc(norm, k), CreateShared(SharedOf(s), n, norm, got, k))
  }

  lemma CreateStart(s: State, n: string, input: CreateInput, vg: string, thin: nat, v: Shared)
    requires NormaliseCreate(input, vg, thin).Ok?
    ensures Step(Mid(s, n, Idle, v), n, Begin(CreateRequest(input, vg, thin)))
         == Mid(s, n, Waiting(CreateJob(NormaliseCreate(input, vg, thin).value)), v)
  {
    MidGoto(s, n, Idle, Waiting(CreateJob(NormaliseCreate(input, vg, thin).value)), v);
  }

  lemma CreateChecks(s: State, n: string, i: CreateInput, v: Shared)
    ensures Step(Mid(s, n, Holding(CreateJob(i), Check), v), n, Proceed)
         == Mid(s, n, Holding(CreateJob(i), if i.name in v.catalog then Release else MakeLv), v)
  {
    var job := CreateJob(i);
    MidGoto(s, n, Holding(job, Check), Holding(job, if i.name in v.catalog then Release else MakeLv), v);
  }

  lemma CreateMakesLv(s: State, n: string, i: CreateInput, got: nat, v: Shared)
    requires Lv(i.vg, i.name) !in v.lvs && got >= i.size
    ensures Step(Mid(s, n, Holding(CreateJob(i), MakeLv), v), n, Allot(got))
         == Mid(s, n, Holding(CreateJob(i), if i.mode == Thin then Header else Insert),
                v.(lvs := v.lvs[Lv(i.vg, i.name) := got]))
  {
    var job := CreateJob(i);
    MidGoto(s, n, Holding(job, MakeLv), Holding(job, if i.mode == Thin then Header else Insert), v);
  }

  lemma CreateWritesHeader(s: State, n: string, i: CreateInput, v: Shared)
    ensures Step(Mid(s, n, Holding(CreateJob(i), Header), v), n, Proceed) == Mid(s, n, Holding(CreateJob(i), Dd), v)
    ensures Step(Mid(s, n, Holding(CreateJob(i), Dd), v), n, Proceed) == Mid(s, n, Holding(CreateJob(i), Insert), v)
  {
    var job := CreateJob(i);
    MidGoto(s, n, Holding(job, Header), Holding(job, Dd), v);
    MidGoto(s, n, Holding(job, Dd), Holding(job, Insert), v);
  }

  lemma CreateInserts(s: State, n: string, i: CreateInput, v: Shared)
    requires i.name !in v.catalog
    ensures Step(Mid(s, n, Holding(CreateJob(i), Insert), v), n, Proceed)
         == Mid(s, n, Holding(CreateJob(i), Release),
                v.(catalog := v.catalog[i.name := RecordFor(i, n)], history := v.history + [Created(i.name)]))
  {
    MidGoto(s, n, Holding(CreateJob(i), Insert), Holding(CreateJob(i), Release), v);
  }

  lemma CreateStep(s: State, n: string, input: CreateInput, vg: string, thin: nat, got: nat, k: nat)
    requires CreateReady(s, n, input, vg, thin, got)
    requires k < CreateEnd(NormaliseCreate(input, vg, thin).value)
    ensures var norm := NormaliseCreate(input, vg, thin).value;
            var calls := CreateCalls(CreateRequest(input, vg, thin), norm.mode == Thin, got);
            k < |calls| && Step(CreateAt(s, n, norm, got, k), n, calls[k]) == CreateAt(s, n, norm, got, k + 1)
  {
    var norm := NormaliseCreate(input, vg, thin).value;
    var v := CreateShared(SharedOf(s), n, norm, got, k);
    if k == 0 {
      CreateStart(s, n, input, vg, thin, v);
    } else if k == 1 {
      MidLock(s, n, CreateJob(norm), v);
    } else if k == 2 {
      CreateChecks(s, n, norm, v);
    } else if k == 3 {
      CreateMakesLv(s, n, norm, got, v);
    } else if k == CreateEnd(norm) - 1 {
      MidRelease(s, n, CreateJob(norm), v, s.locks);
    } else if k == CreateEnd(norm) - 2 {
      CreateInserts(s, n, norm, v);
    } else {
      CreateWritesHeader(s, n, norm, v);
    }
  }

  lemma {:induction false} CreateTimeline(s: State, n: string, input: CreateInput, vg: string, thin: nat, got: nat,
                                          k: nat)
    requires CreateReady(s, n, input, vg, thin, got)
    requires var norm := NormaliseCreate(input, vg, thin).value;
             k <= |CreateCalls(CreateRequest(input, vg, thin), norm.mode == Thin, got)|
    ensures var norm := NormaliseCreate(input, vg, thin).value;
            Drive(s, n, CreateCalls(CreateRequest(input, vg, thin), norm.mode == Thin, got)[..k])
            == CreateAt(s, n, norm, got, k)
  {
    var norm := NormaliseCreate(input, vg, thin).value;
    var req := CreateRequest(input, vg, thin);
    var calls := CreateCalls(req, norm.mode == Thin, got);
    if k == 0 {
      MidHome(s, n);
    } else {
      CreateTimeline(s, n, input, vg, thin, got, k - 1);
      assert calls[..k] == calls[..k - 1] + [calls[k - 1]];
      DriveNext(s, n, calls[..k - 1], calls[k - 1]);
      CreateStep(s, n, input, vg, thin, got, k - 1);
    }
  }

  /**
    A create whose calls all succeed, call by call: it holds the lock from the
    second call to the last, has the LV from the fourth on, and the record from
    the last but one on, after image and dd of a thin disk.
   */
  lemma CreateProgress(s0: State, sched: Schedule, n: string, input: CreateInput, vg: string, thin: nat, got: nat,
                       k: nat)
    requires CreateReady(Exec(s0, sched), n, input, vg, thin, got)
    requires k <= if input.mode == Thin then 8 else 6
    ensures var s := Exec(s0, sched);
            var calls := CreateCalls(CreateRequest(input, vg, thin), input.mode == Thin, got);
            var t := Exec(s0, sched + Turns(n, calls[..k]));
            var v := if input.vg != "" then input.vg else vg;
            && t.locks == (if 2 <= k < |calls| then s.locks[v := n] else s.locks)
            && t.lvs == (if k >= 4 then s.lvs[Lv(v, input.name) := got] else s.lvs)
            && (if k >= |calls| - 1 then input.name in t.catalog else t.catalog == s.catalog)
  {
    var s := Exec(s0, sched);
    var norm := NormaliseCreate(input, vg, thin).value;
    var calls := CreateCalls(CreateRequest(input, vg, thin), norm.mode == Thin, got);
    CreateTimeline(s, n, input, vg, thin, got, k);
    DriveIsExec(s0, sched, n, calls[..k]);
    assert |calls| == CreateEnd(norm);
  }

  /**
    A create whose calls all succeed commits: the lock is free again, the LV has the
    size `lvcreate` gave it, and the record says, field by field, what was asked
    for or defaulted, where the device is, and which node made it.
   */
  lemma CreateCompletes(s0: State, sched: Schedule, n: string, input: CreateInput, vg: string, thin: nat, got: nat)
    requires CreateReady(Exec(s0, sched), n, input, vg, thin, got)
    ensures var s := Exec(s0, sched);
            var t := Exec(s0, sched + Turns(n, CreateCalls(CreateRequest(input, vg, thin), input.mode == Thin, got)));
            var v := if input.vg != "" then input.vg else vg;
            && t.locks == s.locks && t.procs == s.procs && t.damaged == s.damaged
            && t.lvs == s.lvs[Lv(v, input.name) := got]
            && t.history == s.history + [Created(input.name)]
            && input.name in t.catalog && t.catalog == s.catalog[input.name := t.catalog[input.name]]
            && var r := t.catalog[input.name];
               && r.name == input.name && r.vg == v && r.createdOn == n
               && r.devicePath == "/dev/" + v + "/" + input.name
               && (r.mode == if input.mode == Thin then Thin else Thick)
               && (r.size == if input.size > 0 then input.size else thin)
               && (r.virtualSize == if input.virtualSize > 0 then input.virtualSize else input.size)
  {
    var norm := NormaliseCreate(input, vg, thin).value;
    CreateEnds(Exec(s0, sched), n, input, vg, thin, got);
    DriveIsExec(s0, sched, n, CreateCalls(CreateRequest(input, vg, thin), norm.mode == Thin, got));
  }

  lemma CreateEnds(s: State, n: string, input: CreateInput, vg: string, thin: nat, got: nat)
    requires CreateReady(s, n, input, vg, thin, got)
    ensures var norm := NormaliseCreate(input, vg, thin).value;
            Drive(s, n, CreateCalls(CreateRequest(input, vg, thin), norm.mode == Thin, got))
            == s.(catalog := s.catalog[norm.name := RecordFor(norm, n)], lvs := s.lvs[Lv(norm.vg, norm.name) := got],
                  history := s.history + [Created(norm.name)])
  {
    var norm := NormaliseCreate(input, vg, thin).value;
    var calls := CreateCalls(CreateRequest(input, vg, thin), norm.mode == Thin, got);
    CreateTimeline(s, n, input, vg, thin, got, |calls|);
    assert calls[..|calls|] == calls;
    assert s.procs[n := Idle] == s.procs;
  }

  /** From every reachable state, an undamaged free name has a free LV in every volume
      group where none was there from the start. */
  lemma ReachableCreateReady(s0: State, sched: Schedule, n: string, input: CreateInput, vg: string, thin: nat, got: nat)
    requires Init(s0) && NormaliseCreate(input, vg, thin).Ok?
    requires var s, norm := Exec(s0, sched), NormaliseCreate(input, vg, thin).value;
             && n in s.procs && s.procs[n] == Idle && got >= norm.size
             && norm.vg !in s.locks && norm.name !in s.catalog && norm.name !in s.damaged
             && Lv(norm.vg, norm.name) !in s0.foreign
    ensures CreateReady(Exec(s0, sched), n, input, vg, thin, got)
  {
    var norm := NormaliseCreate(input, vg, thin).value;
    LvsMatchCatalog(s0, sched, norm.vg, norm.name);
  }

  /** From the failed call on, a create undoes its LV, gives the lock back, and is where it began. */
  lemma CreateFailsEarly(s: State, n: string, norm: CreateInput, k: nat)
    requires n in s.procs && s.procs[n] == Idle && norm.vg !in s.locks && 1 <= k < 4
    ensures Step(Step(Step(CreateAt(s, n, norm, 0, k), n, Fail), n, Proceed), n, Proceed) == s
  {
    var v, job := SharedOf(s), CreateJob(norm);
    MidHome(s, n);
    MidIdle(s, n, v);
    if k == 1 {
      MidWaitFail(s, n, job, v);
    } else {
      var held := v.(locks := v.locks[norm.vg := n]);
      MidFail(s, n, job, if k == 2 then Check else MakeLv, held);
      MidRelease(s, n, job, held, s.locks);
    }
  }

  lemma CreateUndoes(s: State, n: string, i: CreateInput, phase: Phase, v: Shared)
    requires phase.Header? || phase.Dd? || phase.Insert?
    ensures Step(Mid(s, n, Holding(CreateJob(i), phase), v), n, Fail) == Mid(s, n, Holding(CreateJob(i), Undo), v)
    ensures Step(Mid(s, n, Holding(CreateJob(i), Undo), v), n, Proceed)
         == Mid(s, n, Holding(CreateJob(i), Release), v.(lvs := v.lvs - {Lv(i.vg, i.name)}))
  {
    var job := CreateJob(i);
    MidGoto(s, n, Holding(job, phase), Holding(job, Undo), v);
    MidGoto(s, n, Holding(job, Undo), Holding(job, Release), v);
  }

  lemma CreateFailsLate(s: State, n: string, norm: CreateInput, got: nat, k: nat)
    requires n in s.procs && s.procs[n] == Idle && norm.vg !in s.locks && Lv(norm.vg, norm.name) !in s.lvs
    requires 4 <= k < CreateEnd(norm) - 1
    ensures Step(Step(Step(CreateAt(s, n, norm, got, k), n, Fail), n, Proceed), n, Proceed) == s
  {
    var lv := Lv(norm.vg, norm.name);
    var held := SharedOf(s).(locks := s.locks[norm.vg := n]);
    CreateUndoes(s, n, norm, CreatePc(norm, k).phase, held.(lvs := s.lvs[lv := got]));
    assert s.lvs[lv := got] - {lv} == s.lvs;
    MidRelease(s, n, CreateJob(norm), held, s.locks);
    MidHome(s, n);
  }

  /**
    Whichever call of a create fails, lock, check, `lvcreate`, image, dd or insert,
    the create leaves everything as it was.
   */
  lemma FailedCreateChangesNothing(s0: State, sched: Schedule, n: string, input: CreateInput, vg: string, thin: nat,
                                   got: nat, k: nat)
    requires CreateReady(Exec(s0, sched), n, input, vg, thin, got)
    requires 1 <= k < if input.mode == Thin then 7 else 5
    ensures var calls := CreateCalls(CreateRequest(input, vg, thin), input.mode == Thin, got);
            Exec(s0, sched + Turns(n, calls[..k] + [Fail, Proceed, Proceed])) == Exec(s0, sched)
  {
    var s := Exec(s0, sched);
    var norm := NormaliseCreate(input, vg, thin).value;
    var calls := CreateCalls(CreateRequest(input, vg, thin), norm.mode == Thin, got);
    CreateTimeline(s, n, input, vg, thin, got, k);
    DriveThree(s, n, calls[..k], Fail, Proceed, Proceed);
    if k < 4 {
      assert CreateAt(s, n, norm, got, k) == CreateAt(s, n, norm, 0, k);
      CreateFailsEarly(s, n, norm, k);
    } else {
      CreateFailsLate(s, n, norm, got, k);
    }
    DriveIsExec(s0, sched, n, calls[..k] + [Fail, Proceed, Proceed]);
  }

  /** A create that finds its name taken gives the lock back and changes nothing else. */
  lemma TakenNameChangesNothing(s: State, n: string, input: CreateInput)
    requires n in s.procs && s.procs[n] == Waiting(CreateJob(input))
    requires input.vg !in s.locks && input.name in s.catalog
    ensures Step(Step(Step(s, n, Proceed), n, Proceed), n, Proceed) == Goto(s, n, Idle)
  {
    var v, job := SharedOf(s), CreateJob(input);
    assert s.procs[n := Waiting(job)] == s.procs;
    assert Mid(s, n, Waiting(job), v) == s;
    var held := v.(locks := v.locks[input.vg := n]);
    MidLock(s, n, job, v);
    CreateChecks(s, n, input, held);
    MidRelease(s, n, job, held, s.locks);
  }

  /** A create that loses the race for its name at the insertion removes its LV and nothing else. */
  lemma LostRaceRemovesOwnLv(s: State, n: string, input: CreateInput)
    requires n in s.procs && s.procs[n] == Holding(CreateJob(input), Insert) && input.name in s.catalog
    ensures Step(Step(Step(s, n, Proceed), n, Proceed), n, Proceed)
         == s.(procs := s.procs[n := Idle], lvs := s.lvs - {Lv(input.vg, input.name)}, locks := s.locks - {input.vg})
  {
    var job := CreateJob(input);
    assert Step(s, n, Proceed) == Goto(s, n, Holding(job, Undo));
    var s2 := Step(Goto(s, n, Holding(job, Undo)), n, Proceed);
    assert s2 == Goto(s, n, Holding(job, Release)).(lvs := s.lvs - {Lv(input.vg, input.name)});
    assert s.procs[n := Holding(job, Release)][n := Idle] == s.procs[n := Idle];
  }

  // ----- delete

  function DeleteCalls(x: string): seq<Choice> {
    [Begin(DeleteRequest(x)), Proceed, Proceed, Proceed, Proceed, Proceed, Proceed]
  }

  predicate DeleteReady(s: State, n: string, x: string) {
    && n in s.procs && s.procs[n] == Idle && x in s.catalog
    && s.catalog[x].name == x && s.catalog[x].vg !in s.locks && LvOf(s.catalog[x]) in s.lvs
  }

  function DeletePc(rec: DiskRecord, k: nat): Pc {
    var job := DeleteJob(rec);
    match k
    case 1 => Reading(rec.name, None)
    case 2 => Waiting(job)
    case 3 => Holding(job, Detach)
    case 4 => Holding(job, DropLv)
    case 5 => Holding(job, Forget)
    case 6 => Holding(job, Release)
    case _ => Idle
  }

  function DeleteShared(v: Shared, n: string, rec: DiskRecord, k: nat): Shared {
    Shared(if k >= 6 then v.catalog - {rec.name} else v.catalog,
           if k >= 5 then v.lvs - {LvOf(rec)} else v.lvs,
           if 3 <= k < 7 then v.locks[rec.vg := n] else v.locks,
           if k >= 6 then v.history + [Deleted(rec.name)] else v.history,
           v.damaged)
  }

  /** The state after `k` calls of a delete. */
  function DeleteAt(s: State, n: string, rec: DiskRecord, k: nat): State {
    Mid(s, n, DeletePc(rec, k), DeleteShared(SharedOf(s), n, rec, k))
  }

  /** Delete and extend read the record before they ask for the lock. */
  lemma ReadStarts(s: State, n: string, req: Request, x: string, amount: Option<Amount>, v: Shared)
    requires Start(req) == Reading(x, amount)
    ensures Step(Mid(s, n, Idle, v), n, Begin(req)) == Mid(s, n, Reading(x, amount), v)
    ensures Step(Mid(s, n, Reading(x, amount), v), n, Proceed)
         == Mid(s, n, if x in v.catalog then Waiting(JobFor(v.catalog[x], amount)) else Idle, v)
    ensures Step(Mid(s, n, Reading(x, amount), v), n, Fail) == Mid(s, n, Idle, v)
  {
    MidGoto(s, n, Idle, Reading(x, amount), v);
    MidGoto(s, n, Reading(x, amount), Idle, v);
    if x in v.catalog { MidGoto(s, n, Reading(x, amount), Waiting(JobFor(v.catalog[x], amount)), v); }
  }

  lemma DeleteWorks(s: State, n: string, rec: DiskRecord, v: Shared)
    requires LvOf(rec) in v.lvs && rec.name in v.catalog
    ensures Step(Mid(s, n, Holding(DeleteJob(rec), Detach), v), n, Proceed)
         == Mid(s, n, Holding(DeleteJob(rec), DropLv), v)
    ensures Step(Mid(s, n, Holding(DeleteJob(rec), DropLv), v), n, Proceed)
         == Mid(s, n, Holding(DeleteJob(rec), Forget), v.(lvs := v.lvs - {LvOf(rec)}))
  {
    var job := DeleteJob(rec);
    MidGoto(s, n, Holding(job, Detach), Holding(job, DropLv), v);
    MidGoto(s, n, Holding(job, DropLv), Holding(job, Forget), v);
  }

  lemma DeleteForgets(s: State, n: string, rec: DiskRecord, v: Shared)
    requires rec.name in v.catalog
    ensures Step(Mid(s, n, Holding(DeleteJob(rec), Forget), v), n, Proceed)
         == Mid(s, n, Holding(DeleteJob(rec), Release),
                v.(catalog := v.catalog - {rec.name}, history := v.history + [Deleted(rec.name)]))
    ensures Step(Mid(s, n, Holding(DeleteJob(rec), Forget), v), n, Fail)
         == Mid(s, n, Holding(DeleteJob(rec), Release), v.(damaged := v.damaged + {rec.name}))
  {
    MidGoto(s, n, Holding(DeleteJob(rec), Forget), Holding(DeleteJob(rec), Release), v);
  }

  lemma DeleteStep(s: State, n: string, x: string, k: nat)
    requires DeleteReady(s, n, x) && k < 7
    ensures Step(DeleteAt(s, n, s.catalog[x], k), n, DeleteCalls(x)[k]) == DeleteAt(s, n, s.catalog[x], k + 1)
  {
    var rec := s.catalog[x];
    var v := DeleteShared(SharedOf(s), n, rec, k);
    if k < 2 {
      ReadStarts(s, n, DeleteRequest(x), x, None, v);
    } else if k == 2 {
      MidLock(s, n, DeleteJob(rec), v);
    } else if k < 5 {
      DeleteWorks(s, n, rec, v);
    } else if k == 5 {
      DeleteForgets(s, n, rec, v);
    } else {
      MidRelease(s, n, DeleteJob(rec), v, s.locks);
    }
  }

  lemma {:induction false} DeleteTimeline(s: State, n: string, x: string, k: nat)
    requires DeleteReady(s, n, x) && k <= 7
    ensures Drive(s, n, DeleteCalls(x)[..k]) == DeleteAt(s, n, s.catalog[x], k)
  {
    if k == 0 {
      MidHome(s, n);
    } else {
      DeleteTimeline(s, n, x, k - 1);
      assert DeleteCalls(x)[..k] == DeleteCalls(x)[..k - 1] + [DeleteCalls(x)[k - 1]];
      DriveNext(s, n, DeleteCalls(x)[..k - 1], DeleteCalls(x)[k - 1]);
      DeleteStep(s, n, x, k - 1);
    }
  }

  /**
    A delete whose calls all succeed, call by call: it holds the lock from the third
    call to the last, the LV goes with the fifth call and the record with the sixth,
    and in the end both are gone and nothing else has changed.
   */
  lemma DeleteProgress(s0: State, sched: Schedule, n: string, x: string, k: nat)
    requires DeleteReady(Exec(s0, sched), n, x) && k <= 7
    ensures var s := Exec(s0, sched);
            var t := Exec(s0, sched + Turns(n, DeleteCalls(x)[..k]));
            var lv := Lv(s.catalog[x].vg, x);
            && t.locks == (if 3 <= k < 7 then s.locks[lv.vg := n] else s.locks)
            && t.lvs == (if k >= 5 then s.lvs - {lv} else s.lvs)
            && t.catalog == (if k >= 6 then s.catalog - {x} else s.catalog)
            && t.history == s.history + (if k >= 6 then [Deleted(x)] else [])
            && t.damaged == s.damaged && (k == 7 ==> t.procs == s.procs)
  {
    var s := Exec(s0, sched);
    DeleteTimeline(s, n, x, k);
    DriveIsExec(s0, sched, n, DeleteCalls(x)[..k]);
    assert s.procs[n := Idle] == s.procs;
  }

  lemma DeleteEnds(s: State, n: string, x: string)
    requires DeleteReady(s, n, x)
    ensures Drive(s, n, DeleteCalls(x))
         == s.(catalog := s.catalog - {x}, lvs := s.lvs - {LvOf(s.catalog[x])}, history := s.history + [Deleted(x)])
  {
    DeleteTimeline(s, n, x, 7);
    assert DeleteCalls(x)[..7] == DeleteCalls(x);
    assert s.procs[n := Idle] == s.procs;
  }

  /** From every reachable state, a record of an undamaged name whose lock is free can be deleted. */
  lemma ReachableDeleteReady(s0: State, sched: Schedule, n: string, x: string)
    requires Init(s0)
    requires var s := Exec(s0, sched);
             && n in s.procs && s.procs[n] == Idle
             && x in s.catalog && s.catalog[x].vg !in s.locks && x !in s.damaged
    ensures DeleteReady(Exec(s0, sched), n, x)
  {
    RunKeepsInv(s0, sched);
    assert LvOk(Exec(s0, sched), LvOf(Exec(s0, sched).catalog[x]));
  }

  /** A delete that fails at reading, locking, detaching or `lvremove` changes nothing;
      one that fails at the record's deletion leaves the record without its LV. */
  lemma FailedDelete(s: State, n: string, x: string, k: nat)
    requires DeleteReady(s, n, x) && 1 <= k < 6
    ensures var t := Drive(s, n, DeleteCalls(x)[..k] + [Fail, Proceed, Proceed]);
            if k < 5 then t == s else t == s.(lvs := s.lvs - {LvOf(s.catalog[x])}, damaged := s.damaged + {x})
  {
    var rec := s.catalog[x];
    var v := DeleteShared(SharedOf(s), n, rec, k);
    DeleteTimeline(s, n, x, k);
    DriveThree(s, n, DeleteCalls(x)[..k], Fail, Proceed, Proceed);
    MidHome(s, n);
    if k < 3 {
      if k == 1 { ReadStarts(s, n, DeleteRequest(x), x, None, v); } else { MidWaitFail(s, n, DeleteJob(rec), v); }
      MidIdle(s, n, v);
    } else if k < 5 {
      MidFail(s, n, DeleteJob(rec), DeletePc(rec, k).phase, v);
      MidRelease(s, n, DeleteJob(rec), v, s.locks);
      MidIdle(s, n, SharedOf(s));
    } else {
      DeleteForgets(s, n, rec, v);
      var after := v.(damaged := v.damaged + {x});
      MidRelease(s, n, DeleteJob(rec), after, s.locks);
      MidIdle(s, n, after.(locks := s.locks));
      assert s.procs[n := Idle] == s.procs;
    }
  }

  /** A delete whose LV is missing stops there and keeps the record. */
  lemma DeleteNeedsLv(s: State, n: string, rec: DiskRecord)
    requires n in s.procs && s.procs[n] == Holding(DeleteJob(rec), DropLv) && LvOf(rec) !in s.lvs
    ensures Step(Step(s, n, Proceed), n, Proceed) == s.(procs := s.procs[n := Idle], locks := s.locks - {rec.vg})
  {
    var job := DeleteJob(rec);
    assert Step(s, n, Proceed) == Goto(s, n, Holding(job, Release));
    assert s.procs[n := Holding(job, Release)][n := Idle] == s.procs[n := Idle];
  }

  // ----- extend

  function ExtendCalls(x: string, amount: Amount, got: nat): seq<Choice> {
    [Begin(ExtendRequest(x, amount)), Proceed, Proceed, Allot(got), Proceed, Proceed]
  }

  predicate ExtendReady(s: State, n: string, x: string, amount: Amount, got: nat) {
    && n in s.procs && s.procs[n] == Idle && !AsksForNothing(amount) && x in s.catalog
    && s.catalog[x].name == x && s.catalog[x].vg !in s.locks
    && LvOf(s.catalog[x]) in s.lvs && LvExtends(s.lvs[LvOf(s.catalog[x])], amount, got)
  }

  function ExtendPc(rec: DiskRecord, amount: Amount, k: nat): Pc {
    var job := ExtendJob(rec, amount);
    match k
    case 1 => Reading(rec.name, Some(amount))
    case 2 => Waiting(job)
    case 3 => Holding(job, Grow)
    case 4 => Holding(job, Write)
    case 5 => Holding(job, Release)
    case _ => Idle
  }

  function ExtendShared(v: Shared, n: string, rec: DiskRecord, amount: Amount, got: nat, k: nat): Shared {
    Shared(if k >= 5 then v.catalog[rec.name := rec.(size := NewSize(rec.size, amount))] else v.catalog,
           if k >= 4 then v.lvs[LvOf(rec) := got] else v.lvs,
           if 3 <= k < 6 then v.locks[rec.vg := n] else v.locks,
           v.history, v.damaged)
  }

  /** The state after `k` calls of an extend. */
  function ExtendAt(s: State, n: string, rec: DiskRecord, amount: Amount, got: nat, k: nat): State {
    Mid(s, n, ExtendPc(rec, amount, k), ExtendShared(SharedOf(s), n, rec, amount, got, k))
  }

  lemma ExtendWorks(s: State, n: string, rec: DiskRecord, amount: Amount, got: nat, v: Shared)
    requires LvOf(rec) in v.lvs && LvExtends(v.lvs[LvOf(rec)], amount, got)
    ensures Step(Mid(s, n, Holding(ExtendJob(rec, amount), Grow), v), n, Allot(got))
         == Mid(s, n, Holding(ExtendJob(rec, amount), Write), v.(lvs := v.lvs[LvOf(rec) := got]))
  {
    MidGoto(s, n, Holding(ExtendJob(rec, amount), Grow), Holding(ExtendJob(rec, amount), Write), v);
  }

  lemma ExtendWrites(s: State, n: string, rec: DiskRecord, amount: Amount, v: Shared)
    requires rec.name in v.catalog
    ensures Step(Mid(s, n, Holding(ExtendJob(rec, amount), Write), v), n, Proceed)
         == Mid(s, n, Holding(ExtendJob(rec, amount), Release),
                v.(catalog := v.catalog[rec.name := rec.(size := NewSize(rec.size, amount))]))
  {
    MidGoto(s, n, Holding(ExtendJob(rec, amount), Write), Holding(ExtendJob(rec, amount), Release), v);
  }

  lemma ExtendStep(s: State, n: string, x: string, amount: Amount, got: nat, k: nat)
    requires ExtendReady(s, n, x, amount, got) && k < 6
    ensures Step(ExtendAt(s, n, s.catalog[x], amount, got, k), n, ExtendCalls(x, amount, got)[k])
         == ExtendAt(s, n, s.catalog[x], amount, got, k + 1)
  {
    var rec := s.catalog[x];
    var v := ExtendShared(SharedOf(s), n, rec, amount, got, k);
    if k < 2 {
      ReadStarts(s, n, ExtendRequest(x, amount), x, Some(amount), v);
    } else if k == 2 {
      MidLock(s, n, ExtendJob(rec, amount), v);
    } else if k == 3 {
      ExtendWorks(s, n, rec, amount, got, v);
    } else if k == 4 {
      ExtendWrites(s, n, rec, amount, v);
    } else {
      MidRelease(s, n, ExtendJob(rec, amount), v, s.locks);
    }
  }

  lemma {:induction false} ExtendTimeline(s: State, n: string, x: string, amount: Amount, got: nat, k: nat)
    requires ExtendReady(s, n, x, amount, got) && k <= 6
    ensures Drive(s, n, ExtendCalls(x, amount, got)[..k]) == ExtendAt(s, n, s.catalog[x], amount, got, k)
  {
    if k == 0 {
      MidHome(s, n);
    } else {
      var calls := ExtendCalls(x, amount, got);
      ExtendTimeline(s, n, x, amount, got, k - 1);
      assert calls[..k] == calls[..k - 1] + [calls[k - 1]];
      DriveNext(s, n, calls[..k - 1], calls[k - 1]);
      ExtendStep(s, n, x, amount, got, k - 1);
    }
  }

  /**
    An extend whose calls all succeed, call by call: it holds the lock from the
    third call to the last, the LV grows with the fourth, and the record follows
    with the fifth, in size only.
   */
  lemma ExtendProgress(s0: State, sched: Schedule, n: string, x: string, amount: Amount, got: nat, k: nat)
    requires ExtendReady(Exec(s0, sched), n, x, amount, got) && k <= 6
    ensures var s := Exec(s0, sched);
            var t := Exec(s0, sched + Turns(n, ExtendCalls(x, amount, got)[..k]));
            var r := s.catalog[x];
            && t.locks == (if 3 <= k < 6 then s.locks[r.vg := n] else s.locks)
            && t.lvs == (if k >= 4 then s.lvs[Lv(r.vg, x) := got] else s.lvs)
            && (if k >= 5 then exists size: nat :: t.catalog == s.catalog[x := r.(size := size)]
                else t.catalog == s.catalog)
  {
    var s := Exec(s0, sched);
    ExtendTimeline(s, n, x, amount, got, k);
    DriveIsExec(s0, sched, n, ExtendCalls(x, amount, got)[..k]);
  }

  /** In the end the lock is free, and only the LV and the record's size have changed. */
  lemma ExtendCompletes(s0: State, sched: Schedule, n: string, x: string, amount: Amount, got: nat)
    requires ExtendReady(Exec(s0, sched), n, x, amount, got)
    ensures var s := Exec(s0, sched);
            var r := s.catalog[x];
            Exec(s0, sched + Turns(n, ExtendCalls(x, amount, got)))
            == s.(catalog := s.catalog[x := r.(size := NewSize(r.size, amount))], lvs := s.lvs[Lv(r.vg, x) := got])
  {
    ExtendEnds(Exec(s0, sched), n, x, amount, got);
    DriveIsExec(s0, sched, n, ExtendCalls(x, amount, got));
  }

  lemma ExtendEnds(s: State, n: string, x: string, amount: Amount, got: nat)
    requires ExtendReady(s, n, x, amount, got)
    ensures var r := s.catalog[x];
            Drive(s, n, ExtendCalls(x, amount, got))
            == s.(catalog := s.catalog[x := r.(size := NewSize(r.size, amount))], lvs := s.lvs[LvOf(r) := got])
  {
    ExtendTimeline(s, n, x, amount, got, 6);
    assert ExtendCalls(x, amount, got)[..6] == ExtendCalls(x, amount, got);
    assert s.procs[n := Idle] == s.procs;
  }

  /** From every reachable state, a record of an undamaged name whose lock is free can be extended. */
  lemma ReachableExtendReady(s0: State, sched: Schedule, n: string, x: string, amount: Amount, got: nat)
    requires Init(s0)
    requires var s := Exec(s0, sched);
             && n in s.procs && s.procs[n] == Idle && !AsksForNothing(amount)
             && x in s.catalog && s.catalog[x].vg !in s.locks && x !in s.damaged
             && (Lv(s.catalog[x].vg, x) in s.lvs ==> LvExtends(s.lvs[Lv(s.catalog[x].vg, x)], amount, got))
    ensures ExtendReady(Exec(s0, sched), n, x, amount, got)
  {
    RunKeepsInv(s0, sched);
    assert LvOk(Exec(s0, sched), LvOf(Exec(s0, sched).catalog[x]));
  }

  /** An extend up to and including its pre-lock read. */
  lemma ExtendReads(s: State, n: string, x: string, amount: Amount)
    requires n in s.procs && s.procs[n] == Idle && !AsksForNothing(amount) && x in s.catalog
    ensures Step(Step(s, n, Begin(ExtendRequest(x, amount))), n, Proceed)
         == Goto(s, n, Waiting(ExtendJob(s.catalog[x], amount)))
  {
    var v := SharedOf(s);
    MidHome(s, n);
    ReadStarts(s, n, ExtendRequest(x, amount), x, Some(amount), v);
  }

  function FinishCalls(got: nat): seq<Choice> {
    [Proceed, Allot(got), Proceed, Proceed]
  }

  /** From its pre-lock read on, an extend grows the LV as it is now and overwrites the
      record with what it read, whatever happened to the disk since. */
  lemma ExtendFinishes(s: State, n: string, rec: DiskRecord, amount: Amount, got: nat)
    requires n in s.procs && s.procs[n] == Waiting(ExtendJob(rec, amount)) && rec.vg !in s.locks
    requires LvOf(rec) in s.lvs && LvExtends(s.lvs[LvOf(rec)], amount, got) && rec.name in s.catalog
    ensures Drive(s, n, FinishCalls(got))
         == Goto(s, n, Idle).(catalog := s.catalog[rec.name := rec.(size := NewSize(rec.size, amount))],
                              lvs := s.lvs[LvOf(rec) := got])
  {
    var v, job := SharedOf(s), ExtendJob(rec, amount);
    assert s.procs[n := Waiting(job)] == s.procs;
    assert Mid(s, n, Waiting(job), v) == s;
    MidLock(s, n, job, v);
    var held := v.(locks := v.locks[rec.vg := n]);
    ExtendWorks(s, n, rec, amount, got, held);
    var grown := held.(lvs := v.lvs[LvOf(rec) := got]);
    ExtendWrites(s, n, rec, amount, grown);
    MidRelease(s, n, job, grown.(catalog := v.catalog[rec.name := rec.(size := NewSize(rec.size, amount))]), v.locks);
    assert FinishCalls(got) == [Proceed] + [Allot(got), Proceed, Proceed] && [Proceed] == [] + [Proceed];
    DriveNext(s, n, [], Proceed);
    DriveThree(s, n, [Proceed], Allot(got), Proceed, Proceed);
  }

  /** An extend that fails at reading, locking or `lvextend` changes nothing; one that
      fails at the record's update leaves only the LV grown. */
  lemma FailedExtend(s: State, n: string, x: string, amount: Amount, got: nat, k: nat)
    requires ExtendReady(s, n, x, amount, got) && 1 <= k < 5
    ensures var t := Drive(s, n, ExtendCalls(x, amount, got)[..k] + [Fail, Proceed, Proceed]);
            if k < 4 then t == s else t == s.(lvs := s.lvs[LvOf(s.catalog[x]) := got])
  {
    var rec := s.catalog[x];
    var job := ExtendJob(rec, amount);
    var v := ExtendShared(SharedOf(s), n, rec, amount, got, k);
    ExtendTimeline(s, n, x, amount, got, k);
    DriveThree(s, n, ExtendCalls(x, amount, got)[..k], Fail, Proceed, Proceed);
    MidHome(s, n);
    if k < 3 {
      if k == 1 { ReadStarts(s, n, ExtendRequest(x, amount), x, Some(amount), v); } else { MidWaitFail(s, n, job, v); }
      MidIdle(s, n, v);
    } else {
      MidFail(s, n, job, ExtendPc(rec, amount, k).phase, v);
      MidRelease(s, n, job, v, s.locks);
      MidIdle(s, n, v.(locks := s.locks));
      assert s.procs[n := Idle] == s.procs;
    }
  }

  /** Deletes and extends of an unknown name, and requests that are refused, change nothing. */
  lemma RefusedRequestsChangeNothing(s: State, n: string, req: Request)
    requires n in s.procs && s.procs[n] == Idle
    requires req.CreateRequest? ==> NormaliseCreate(req.input, req.defaultVg, req.defaultThin).Err?
    requires req.DeleteRequest? ==> req.name !in s.catalog
    requires req.ExtendRequest? ==> AsksForNothing(req.amount) || req.name !in s.catalog
    ensures Step(Step(s, n, Begin(req)), n, Proceed) == s
  {
    assert s.procs[n := Idle] == s.procs;
  }
}
