/**
  Disk lifecycle as a distributed protocol.

  Any number of nodes run `CreateDisk`, `DeleteDisk`, `ExtendDisk` and
  `ExtendByPercent` at the same time, one operation in flight per node.  They
  share the catalog, the logical volumes and one lock per volume group.  Every
  external call is one step of one node, and a schedule interleaves the steps
  in any order; any call may fail.  Disk names are global while locks are per
  volume group, and delete and extend read the record before they take the
  lock, so the copy of the record a node carries may be stale.
 */
module Protocol {
  import opened Records

  datatype Request =
    | CreateRequest(input: CreateInput, defaultVg: string, defaultThin: nat)
    | DeleteRequest(name: string)
    | ExtendRequest(name: string, amount: Amount)

  /** A request whose volume group is known; delete and extend carry the record
      they read before taking the lock. */
  datatype Job =
    | CreateJob(input: CreateInput)
    | DeleteJob(rec: DiskRecord)
    | ExtendJob(rec: DiskRecord, amount: Amount)

  function JobLv(job: Job): Lv {
    if job.CreateJob? then Lv(job.input.vg, job.input.name) else LvOf(job.rec)
  }

  /** The external calls an operation makes under the lock. */
  datatype Phase =
    | Check | MakeLv | Header | Dd | Insert | Undo  // create
    | Detach | DropLv | Forget                      // delete
    | Grow | Write                                  // extend
    | Release

  /** Program counter of a node, with the locals the operation carries. */
  datatype Pc =
    | Idle
    | Reading(name: string, amount: Option<Amount>)  // a delete when there is no amount
    | Waiting(job: Job)
    | Holding(job: Job, phase: Phase)

  /** What the catalog commits: the insertion and the deletion of a record. */
  datatype Event = Created(name: string) | Deleted(name: string)

  /**
    `foreign` are the LVs that were there before the catalog knew any disk.
    `history` is the sequence of committed insertions and deletions.  `damaged`
    are the names for which the rollback of a create or the deletion of the
    record at the end of a delete has failed.
   */
  datatype State = State(
    catalog: map<string, DiskRecord>,
    lvs: map<Lv, nat>,
    locks: map<string, string>,
    procs: map<string, Pc>,
    foreign: map<Lv, nat>,
    history: seq<Event>,
    damaged: set<string>)

  /** What the environment decides about one step. */
  datatype Choice =
    | Begin(request: Request)  // a client calls an idle node
    | Proceed                  // the external call answers
    | Allot(size: nat)         // lvcreate or lvextend leaves the LV this large
    | Fail                     // the external call fails without effect

  // ----- the steps

  function Goto(s: State, n: string, pc: Pc): State {
    s.(procs := s.procs[n := pc])
  }

  function TakeLock(s: State, n: string, job: Job, phase: Phase): State {
    Goto(s, n, Holding(job, phase)).(locks := s.locks[JobLv(job).vg := n])
  }

  function FreeLock(s: State, n: string, job: Job): State {
    Goto(s, n, Idle).(locks := s.locks - {JobLv(job).vg})
  }

  function LvCreated(s: State, n: string, job: Job, phase: Phase, size: nat): State {
    Goto(s, n, Holding(job, phase)).(lvs := s.lvs[JobLv(job) := size])
  }

  function Inserted(s: State, n: string, job: Job, rec: DiskRecord): State {
    Goto(s, n, Holding(job, Release)).(
      catalog := s.catalog[rec.name := rec], history := s.history + [Created(rec.name)])
  }

  function Undone(s: State, n: string, job: Job): State {
    Goto(s, n, Holding(job, Release)).(lvs := s.lvs - {JobLv(job)})
  }

  function LvRemoved(s: State, n: string, job: Job): State {
    Goto(s, n, Holding(job, Forget)).(lvs := s.lvs - {JobLv(job)})
  }

  /** Deleting a record that is not there commits nothing. */
  function RecordDeleted(s: State, n: string, job: Job): State {
    var x := JobLv(job).name;
    Goto(s, n, Holding(job, Release)).(
      catalog := s.catalog - {x}, history := s.history + if x in s.catalog then [Deleted(x)] else [])
  }

  /** A cleanup that fails leaves its work undone. */
  function GaveUp(s: State, n: string, job: Job): State {
    Goto(s, n, Holding(job, Release)).(damaged := s.damaged + {JobLv(job).name})
  }

  function LvExtended(s: State, n: string, job: Job, size: nat): State {
    Goto(s, n, Holding(job, Write)).(lvs := s.lvs[JobLv(job) := size])
  }

  function RecordUpdated(s: State, n: string, job: Job, rec: DiskRecord): State {
    Goto(s, n, Holding(job, Release)).(catalog := s.catalog[rec.name := rec])
  }

  /** The input checks, which touch no shared state. */
  function Start(req: Request): Pc {
    match req
    case CreateRequest(input, vg, thin) =>
      (match NormaliseCreate(input, vg, thin) case Ok(norm) => Waiting(CreateJob(norm)) case Err(_) => Idle)
    case DeleteRequest(name) => Reading(name, None)
    case ExtendRequest(name, amount) =>
      if AsksForNothing(amount) then Idle else Reading(name, Some(amount))
  }

  function JobFor(rec: DiskRecord, amount: Option<Amount>): Job {
    if amount.Some? then ExtendJob(rec, amount.value) else DeleteJob(rec)
  }

  /** The first call an operation makes once it holds the lock. */
  function FirstPhase(job: Job): Phase {
    match job case CreateJob(_) => Check case DeleteJob(_) => Detach case ExtendJob(_, _) => Grow
  }

  /** What node `n` does at `phase` of a create on choice `c`; `None` if it has no such step. */
  function StepCreate(s: State, n: string, job: Job, phase: Phase, c: Choice): Option<State>
    requires job.CreateJob?
  {
    var i := job.input;
    match phase
    case Check =>
      if c.Proceed? && i.name !in s.catalog then Some(Goto(s, n, Holding(job, MakeLv)))
      else if c.Proceed? || c.Fail? then Some(Goto(s, n, Holding(job, Release))) else None
    case MakeLv =>
      if c.Allot? && JobLv(job) !in s.lvs && c.size >= i.size then
        Some(LvCreated(s, n, job, if i.mode == Thin then Header else Insert, c.size))
      else if c.Fail? then Some(Goto(s, n, Holding(job, Release))) else None
    case Header =>
      if c.Proceed? then Some(Goto(s, n, Holding(job, Dd)))
      else if c.Fail? then Some(Goto(s, n, Holding(job, Undo))) else None
    case Dd =>
      if c.Proceed? then Some(Goto(s, n, Holding(job, Insert)))
      else if c.Fail? then Some(Goto(s, n, Holding(job, Undo))) else None
    case Insert =>
      if c.Proceed? && i.name !in s.catalog then Some(Inserted(s, n, job, RecordFor(i, n)))
      else if c.Proceed? || c.Fail? then Some(Goto(s, n, Holding(job, Undo))) else None
    case Undo =>
      if c.Proceed? then Some(Undone(s, n, job))
      else if c.Fail? then Some(GaveUp(s, n, job)) else None
    case _ => None
  }

  function StepDelete(s: State, n: string, job: Job, phase: Phase, c: Choice): Option<State>
    requires job.DeleteJob?
  {
    match phase
    // Listing and detaching the attachments touches neither records nor LVs.
    case Detach =>
      if c.Proceed? then Some(Goto(s, n, Holding(job, DropLv)))
      else if c.Fail? then Some(Goto(s, n, Holding(job, Release))) else None
    case DropLv =>
      if c.Proceed? && JobLv(job) in s.lvs then Some(LvRemoved(s, n, job))
      else if c.Proceed? || c.Fail? then Some(Goto(s, n, Holding(job, Release))) else None
    case Forget =>
      if c.Proceed? then Some(RecordDeleted(s, n, job))
      else if c.Fail? then Some(GaveUp(s, n, job)) else None
    case _ => None
  }

  function StepExtend(s: State, n: string, job: Job, phase: Phase, c: Choice): Option<State>
    requires job.ExtendJob?
  {
    match phase
    case Grow =>
      if c.Allot? && JobLv(job) in s.lvs && LvExtends(s.lvs[JobLv(job)], job.amount, c.size) then
        Some(LvExtended(s, n, job, c.size))
      else if c.Fail? then Some(Goto(s, n, Holding(job, Release))) else None
    case Write =>
      if c.Proceed? && job.rec.name in s.catalog then
        Some(RecordUpdated(s, n, job, job.rec.(size := NewSize(job.rec.size, job.amount))))
      else if c.Proceed? || c.Fail? then Some(Goto(s, n, Holding(job, Release))) else None
    case _ => None
  }

  /** The steps under the lock. */
  function StepHolding(s: State, n: string, job: Job, phase: Phase, c: Choice): Option<State> {
    if phase == Release then (if c.Proceed? then Some(FreeLock(s, n, job)) else None)
    else
      match job
      case CreateJob(_) => StepCreate(s, n, job, phase, c)
      case DeleteJob(_) => StepDelete(s, n, job, phase, c)
      case ExtendJob(_, _) => StepExtend(s, n, job, phase, c)
  }

  /** The step of node `n` on choice `c`, if it has one.  An acquisition has none
      while another operation holds the lock. */
  function Try(s: State, n: string, c: Choice): Option<State> {
    if n !in s.procs then None
    else
      match s.procs[n]
      case Idle => if c.Begin? then Some(Goto(s, n, Start(c.request))) else None
      case Reading(x, amount) =>
        if c.Proceed? && x in s.catalog then Some(Goto(s, n, Waiting(JobFor(s.catalog[x], amount))))
        else if c.Proceed? || c.Fail? then Some(Goto(s, n, Idle)) else None
      case Waiting(job) =>
        if c.Proceed? && JobLv(job).vg !in s.locks then Some(TakeLock(s, n, job, FirstPhase(job)))
        else if c.Fail? then Some(Goto(s, n, Idle)) else None
      case Holding(job, phase) => StepHolding(s, n, job, phase, c)
  }

  /** One step of a run; a choice the node has no step for changes nothing. */
  function Step(s: State, n: string, c: Choice): State {
    match Try(s, n, c) case Some(s') => s' case None => s
  }

  type Schedule = seq<(string, Choice)>

  /** The state a schedule leads to. */
  function Exec(s: State, sched: Schedule): State
    decreases |sched|
  {
    if sched == [] then s
    else
      var last := |sched| - 1;
      Step(Exec(s, sched[..last]), sched[last].0, sched[last].1)
  }

  /** Every node idle, no record yet, and only foreign LVs. */
  ghost predicate Init(s: State) {
    && s.catalog == map[] && s.locks == map[] && s.history == [] && s.damaged == {}
    && s.lvs == s.foreign
    && forall n | n in s.procs :: s.procs[n] == Idle
  }

  // ----- the inductive invariant

  /** The volume group whose lock an operation holds at `pc`. */
  function Held(pc: Pc): Option<string> {
    if pc.Holding? then Some(JobLv(pc.job).vg) else None
  }

  /** Phases between `lvcreate` and the insertion of the record. */
  predicate BuildPhase(phase: Phase) {
    phase.Header? || phase.Dd? || phase.Insert? || phase.Undo?
  }

  /** An LV created whose record is not inserted yet. */
  predicate Building(pc: Pc, lv: Lv) {
    pc.Holding? && BuildPhase(pc.phase) && JobLv(pc.job) == lv
  }

  /** An LV removed whose record is not deleted yet. */
  predicate Removing(pc: Pc, lv: Lv) {
    pc.Holding? && pc.phase.Forget? && JobLv(pc.job) == lv
  }

  /** A committed record names this LV. */
  predicate Named(s: State, lv: Lv) {
    lv.name in s.catalog && s.catalog[lv.name].vg == lv.vg
  }

  ghost predicate LocksOk(s: State) {
    && (forall n | n in s.procs && Held(s.procs[n]).Some? ::
          Held(s.procs[n]).value in s.locks && s.locks[Held(s.procs[n]).value] == n)
    && (forall v | v in s.locks :: s.locks[v] in s.procs && Held(s.procs[s.locks[v]]) == Some(v))
  }

  /** The program counter of the holder of a volume group's lock. */
  function Holder(s: State, vg: string): Pc {
    if vg in s.locks && s.locks[vg] in s.procs then s.procs[s.locks[vg]] else Idle
  }

  /** Presence of an LV, case by case over the holder's program counter. */
  predicate LvAgrees(s: State, lv: Lv) {
    var pc := Holder(s, lv.vg);
    if Building(pc, lv) then lv in s.lvs && !Named(s, lv)
    else if Removing(pc, lv) then lv !in s.lvs && Named(s, lv)
    else lv in s.lvs <==> Named(s, lv) || lv in s.foreign
  }

  /** Catalog and LVM agree on the LV unless its name is damaged; nobody claims a foreign LV. */
  predicate LvOk(s: State, lv: Lv) {
    && !(Named(s, lv) && lv in s.foreign)
    && (Building(Holder(s, lv.vg), lv) ==> lv in s.lvs && lv !in s.foreign)
    && (lv.name !in s.damaged ==> LvAgrees(s, lv))
  }

  /** The record copy a job carries, current or stale. */
  predicate CarriesCopy(pc: Pc) {
    (pc.Waiting? || pc.Holding?) && !pc.job.CreateJob?
  }

  /** A create between its check of the name and its insertion. */
  predicate MakesNew(pc: Pc) {
    pc.Holding? && (pc.phase.MakeLv? || BuildPhase(pc.phase))
  }

  predicate ProcOk(s: State, pc: Pc) {
    && (CarriesCopy(pc) ==> JobLv(pc.job) !in s.foreign)
    && (pc.Holding? && pc.phase.Write? ==>
          JobLv(pc.job) in s.lvs && (JobLv(pc.job).name !in s.damaged ==> Named(s, JobLv(pc.job))))
    && (MakesNew(pc) ==> !Named(s, JobLv(pc.job)))
  }

  ghost predicate RecordsOk(s: State) {
    forall x | x in s.catalog :: s.catalog[x].name == x
  }

  ghost predicate ForeignOk(s: State) {
    forall lv | lv in s.foreign :: lv in s.lvs && s.lvs[lv] == s.foreign[lv]
  }

  /** Whether a name is in the catalog according to the history alone. */
  predicate Live(history: seq<Event>, x: string) {
    if history == [] then false
    else
      var last := history[|history| - 1];
      if last == Created(x) then true
      else if last == Deleted(x) then false
      else Live(history[..|history| - 1], x)
  }

  /** Every insertion finds its name free and every deletion finds it taken. */
  ghost predicate Ordered(history: seq<Event>) {
    forall i | 0 <= i < |history| ::
      Live(history[..i], history[i].name) == history[i].Deleted?
  }

  ghost predicate HistoryOk(s: State) {
    && Ordered(s.history)
    && forall x :: x in s.catalog <==> Live(s.history, x)
  }

  ghost predicate Inv(s: State) {
    && LocksOk(s)
    && RecordsOk(s)
    && ForeignOk(s)
    && HistoryOk(s)
    && (forall lv :: LvOk(s, lv))
    && (forall n | n in s.procs :: ProcOk(s, s.procs[n]))
  }

  // ----- preservation

  lemma OrderedExtends(h: seq<Event>, e: Event)
    requires Ordered(h)
    requires Live(h, e.name) == e.Deleted?
    ensures Ordered(h + [e])
    ensures forall x :: Live(h + [e], x) == if x == e.name then e.Created? else Live(h, x)
  {
    var h' := h + [e];
    assert h'[..|h|] == h;
    forall i | 0 <= i < |h'| ensures Live(h'[..i], h'[i].name) == h'[i].Deleted? {
      if i < |h| {
        assert h'[..i] == h[..i];
      }
    }
  }

  lemma CreatedHistory(s: State, s': State, x: string)
    requires HistoryOk(s) && x !in s.catalog
    requires s'.catalog.Keys == s.catalog.Keys + {x} && s'.history == s.history + [Created(x)]
    ensures HistoryOk(s')
  {
    OrderedExtends(s.history, Created(x));
  }

  lemma DeletedHistory(s: State, s': State, x: string)
    requires HistoryOk(s) && s'.catalog.Keys == s.catalog.Keys - {x}
    requires s'.history == s.history + if x in s.catalog then [Deleted(x)] else []
    ensures HistoryOk(s')
  {
    if x in s.catalog {
      OrderedExtends(s.history, Deleted(x));
    } else {
      assert s'.history == s.history && s'.catalog.Keys == s.catalog.Keys;
    }
  }

  /** A step of `n` keeps its lock, takes a free one, or gives its own back. */
  predicate LockMove(s: State, s': State, n: string, held: Option<string>, held': Option<string>) {
    || (s'.locks == s.locks && held' == held)
    || (held.None? && held'.Some? && held'.value !in s.locks && s'.locks == s.locks[held'.value := n])
    || (held.Some? && held'.None? && s'.locks == s.locks - {held.value})
  }

  /** Who holds `v` after a step of `n` from `pc` to `pc'`. */
  predicate HolderMoved(s: State, s': State, pc: Pc, pc': Pc, v: string) {
    && (Held(pc) == Some(v) ==> Holder(s, v) == pc)
    && (Held(pc') == Some(v) ==> Holder(s', v) == pc')
    && (Held(pc) == Some(v) && Held(pc') != Some(v) ==> Holder(s', v) == Idle)
    && (Held(pc) != Some(v) && Held(pc') == Some(v) ==> Holder(s, v) == Idle)
    && (Held(pc) != Some(v) && Held(pc') != Some(v) ==> Holder(s', v) == Holder(s, v))
  }

  lemma LocksStayOk(s: State, s': State, n: string, pc': Pc)
    requires LocksOk(s) && n in s.procs
    requires s'.procs == s.procs[n := pc']
    requires LockMove(s, s', n, Held(s.procs[n]), Held(pc'))
    ensures LocksOk(s')
  {
  }

  lemma LockMoves(s: State, s': State, n: string, pc': Pc, v: string)
    requires LocksOk(s) && n in s.procs
    requires s'.procs == s.procs[n := pc']
    requires LockMove(s, s', n, Held(s.procs[n]), Held(pc'))
    ensures HolderMoved(s, s', s.procs[n], pc', v)
  {
  }

  lemma LocksKept(s: State, s': State, n: string, pc': Pc)
    requires LocksOk(s) && n in s.procs
    requires s'.procs == s.procs[n := pc']
    requires LockMove(s, s', n, Held(s.procs[n]), Held(pc'))
    ensures LocksOk(s')
    ensures forall v :: HolderMoved(s, s', s.procs[n], pc', v)
  {
    LocksStayOk(s, s', n, pc');
    forall v ensures HolderMoved(s, s', s.procs[n], pc', v) { LockMoves(s, s', n, pc', v); }
  }

  /** The step leaves the presence, the size and the record of this LV alone. */
  predicate Untouched(s: State, s': State, lv: Lv) {
    && (lv in s'.lvs) == (lv in s.lvs)
    && (lv in s.lvs ==> s'.lvs[lv] == s.lvs[lv])
    && Named(s', lv) == Named(s, lv)
  }

  /** The step leaves this LV alone; it may take the record of a damaged name away from it. */
  predicate Spared(s: State, s': State, lv: Lv) {
    && (lv in s'.lvs) == (lv in s.lvs)
    && (lv in s.lvs ==> s'.lvs[lv] == s.lvs[lv])
    && (Named(s', lv) ==> Named(s, lv))
    && (lv.name !in s'.damaged ==> Named(s', lv) == Named(s, lv))
  }

  /** `n` works on this LV half-way between its two systems. */
  predicate Midway(pc: Pc, lv: Lv) {
    Building(pc, lv) || Removing(pc, lv)
  }

  /** An LV left alone that the moving node is not midway on stays right. */
  lemma LvKept(s: State, s': State, pc: Pc, pc': Pc, lv: Lv)
    requires s'.foreign == s.foreign && s.damaged <= s'.damaged
    requires HolderMoved(s, s', pc, pc', lv.vg)
    requires LvOk(s, lv) && Spared(s, s', lv)
    requires Building(pc', lv) == Building(pc, lv) && Removing(pc', lv) == Removing(pc, lv)
    ensures LvOk(s', lv)
  {
    assert Midway(pc, lv) ==> Held(pc) == Some(lv.vg);
    assert Midway(pc', lv) ==> Held(pc') == Some(lv.vg);
  }

  /** A record update keeps naming its LV while the LV's record does not change
      or another node holds the lock. */
  lemma ProcKept(s: State, s': State, n: string, m: string, lv: Lv)
    requires LocksOk(s) && n in s.procs && m in s.procs && m != n
    requires s'.foreign == s.foreign && s.damaged <= s'.damaged
    requires ProcOk(s, s.procs[m])
    requires forall l: Lv | l != lv :: Spared(s, s', l)
    requires Named(s', lv) != Named(s, lv) || (lv in s'.lvs) != (lv in s.lvs) ==> Held(s.procs[n]) == Some(lv.vg)
    ensures ProcOk(s', s.procs[m])
  {
    if s.procs[m].Holding? {
      var l := JobLv(s.procs[m].job);
      assert Held(s.procs[m]) == Some(l.vg);
      if l != lv { assert Spared(s, s', l); }
    }
  }

  /** A step that touches at most the LV `lv`, of whose volume group `n` then
      holds the lock, keeps the invariant if it is right about that LV. */
  lemma Assemble(s: State, s': State, n: string, pc': Pc, lv: Lv)
    requires Inv(s) && n in s.procs
    requires s'.procs == s.procs[n := pc'] && s'.foreign == s.foreign && s.damaged <= s'.damaged
    requires LockMove(s, s', n, Held(s.procs[n]), Held(pc'))
    requires forall l: Lv | l != lv :: Spared(s, s', l) && !Midway(pc', l) && !Midway(s.procs[n], l)
    requires lv in s.foreign ==> Spared(s, s', lv)
    requires Named(s', lv) != Named(s, lv) || (lv in s'.lvs) != (lv in s.lvs) ==> Held(s.procs[n]) == Some(lv.vg)
    requires HolderMoved(s, s', s.procs[n], pc', lv.vg) ==> LvOk(s', lv)
    requires ProcOk(s', pc') && RecordsOk(s') && HistoryOk(s')
    ensures Inv(s')
  {
    LocksKept(s, s', n, pc');
    assert HolderMoved(s, s', s.procs[n], pc', lv.vg);
    forall m ensures LvOk(s', m) {
      if m != lv {
        assert LvOk(s, m) && Spared(s, s', m) && HolderMoved(s, s', s.procs[n], pc', m.vg);
        LvKept(s, s', s.procs[n], pc', m);
      }
    }
    forall m | m in s'.procs ensures ProcOk(s', s'.procs[m]) {
      if m != n { ProcKept(s, s', n, m, lv); }
    }
    forall f | f in s'.foreign ensures f in s'.lvs && s'.lvs[f] == s'.foreign[f] {
      assert Spared(s, s', f);
    }
  }

  /** Changing the record of one name, from or to this LV, spares all other LVs. */
  lemma RecordSpares(s: State, s': State, lv: Lv, l: Lv)
    requires s'.lvs == s.lvs && s'.damaged == s.damaged && l != lv
    requires OnlyRecord(s, s', lv)
    requires lv.name !in s.catalog || Named(s, lv) || lv.name in s.damaged
    ensures Spared(s, s', l)
  {
  }

  /** At most the record of this LV's name changes, and if there is one then, it names this LV. */
  ghost predicate OnlyRecord(s: State, s': State, lv: Lv) {
    && (forall y | y != lv.name ::
          (y in s'.catalog) == (y in s.catalog) && (y in s.catalog ==> s'.catalog[y] == s.catalog[y]))
    && (lv.name in s'.catalog ==> s'.catalog[lv.name].vg == lv.vg && s'.catalog[lv.name].name == lv.name)
  }

  /** The commit of a change to the record of a job's own name. */
  lemma RecordStepKeepsInv(s: State, s': State, n: string, job: Job)
    requires Inv(s) && n in s.procs && s.procs[n].Holding? && s.procs[n].job == job
    requires s' == Goto(s, n, Holding(job, Release)).(catalog := s'.catalog, history := s'.history)
    requires OnlyRecord(s, s', JobLv(job)) && HistoryOk(s') && JobLv(job) !in s.foreign
    requires JobLv(job).name !in s.catalog || Named(s, JobLv(job)) || JobLv(job).name in s.damaged
    requires HolderMoved(s, s', s.procs[n], Holding(job, Release), JobLv(job).vg) ==> LvOk(s', JobLv(job))
    ensures Inv(s')
  {
    var lv := JobLv(job);
    forall l: Lv | l != lv ensures Spared(s, s', l) { RecordSpares(s, s', lv, l); }
    assert ProcOk(s, s.procs[n]);
    Assemble(s, s', n, Holding(job, Release), lv);
  }

  /** Neither side is midway on an LV, or both build the same one. */
  predicate SameDebt(pc: Pc, pc': Pc) {
    if pc.Holding? && BuildPhase(pc.phase) then
      pc'.Holding? && BuildPhase(pc'.phase) && pc'.job == pc.job
    else
      && !(pc.Holding? && pc.phase.Forget?)
      && !(pc'.Holding? && (pc'.phase.Forget? || BuildPhase(pc'.phase)))
  }

  lemma QuietLv(s: State, s': State, pc: Pc, pc': Pc, lv: Lv)
    requires s' == s.(procs := s'.procs, locks := s'.locks)
    requires LvOk(s, lv) && SameDebt(pc, pc') && HolderMoved(s, s', pc, pc', lv.vg)
    ensures LvOk(s', lv)
  {
    LvKept(s, s', pc, pc', lv);
  }

  /** A step that only moves the program counter, possibly taking or freeing a lock. */
  lemma Quiet(s: State, s': State, n: string, pc': Pc)
    requires Inv(s) && n in s.procs
    requires s' == s.(procs := s.procs[n := pc'], locks := s'.locks)
    requires LockMove(s, s', n, Held(s.procs[n]), Held(pc'))
    requires SameDebt(s.procs[n], pc') && ProcOk(s, pc')
    ensures Inv(s')
  {
    LocksStayOk(s, s', n, pc');
    forall lv ensures LvOk(s', lv) {
      LockMoves(s, s', n, pc', lv.vg);
      assert LvOk(s, lv);
      QuietLv(s, s', s.procs[n], pc', lv);
    }
    forall m | m in s'.procs ensures ProcOk(s', s'.procs[m]) {
      if m != n { assert ProcOk(s, s.procs[m]); }
    }
  }

  lemma GotoKeepsInv(s: State, n: string, pc': Pc)
    requires Inv(s) && n in s.procs
    requires Held(pc') == Held(s.procs[n]) && SameDebt(s.procs[n], pc') && ProcOk(s, pc')
    ensures Inv(Goto(s, n, pc'))
  {
    Quiet(s, Goto(s, n, pc'), n, pc');
  }

  lemma TakeLockKeepsInv(s: State, n: string, job: Job, phase: Phase)
    requires Inv(s) && n in s.procs && s.procs[n] == Waiting(job) && JobLv(job).vg !in s.locks
    requires phase == FirstPhase(job)
    ensures Inv(TakeLock(s, n, job, phase))
  {
    assert ProcOk(s, s.procs[n]);
    Quiet(s, TakeLock(s, n, job, phase), n, Holding(job, phase));
  }

  lemma FreeLockKeepsInv(s: State, n: string, job: Job)
    requires Inv(s) && n in s.procs && s.procs[n] == Holding(job, Release)
    ensures Inv(FreeLock(s, n, job))
  {
    Quiet(s, FreeLock(s, n, job), n, Idle);
  }

  lemma LvCreatedKeepsInv(s: State, n: string, job: Job, phase: Phase, size: nat)
    requires Inv(s) && n in s.procs && s.procs[n] == Holding(job, MakeLv) && job.CreateJob?
    requires JobLv(job) !in s.lvs && BuildPhase(phase)
    ensures Inv(LvCreated(s, n, job, phase, size))
  {
    var lv := JobLv(job);
    assert LvOk(s, lv) && ProcOk(s, s.procs[n]);
    Assemble(s, LvCreated(s, n, job, phase, size), n, Holding(job, phase), lv);
  }

  lemma InsertKeepsInv(s: State, n: string, job: Job, rec: DiskRecord)
    requires Inv(s) && n in s.procs && s.procs[n] == Holding(job, Insert) && job.CreateJob?
    requires rec.name !in s.catalog && LvOf(rec) == JobLv(job)
    ensures Inv(Inserted(s, n, job, rec))
  {
    var lv := JobLv(job);
    var s' := Inserted(s, n, job, rec);
    assert LvOk(s, lv) && ProcOk(s, s.procs[n]);
    CreatedHistory(s, s', rec.name);
    RecordStepKeepsInv(s, s', n, job);
  }

  lemma UndoKeepsInv(s: State, n: string, job: Job)
    requires Inv(s) && n in s.procs && s.procs[n] == Holding(job, Undo) && job.CreateJob?
    ensures Inv(Undone(s, n, job))
  {
    assert LvOk(s, JobLv(job));
    Assemble(s, Undone(s, n, job), n, Holding(job, Release), JobLv(job));
  }

  lemma LvRemovedKeepsInv(s: State, n: string, job: Job)
    requires Inv(s) && n in s.procs && s.procs[n] == Holding(job, DropLv) && job.DeleteJob?
    requires JobLv(job) in s.lvs
    ensures Inv(LvRemoved(s, n, job))
  {
    assert ProcOk(s, s.procs[n]) && LvOk(s, JobLv(job));
    Assemble(s, LvRemoved(s, n, job), n, Holding(job, Forget), JobLv(job));
  }

  lemma ForgottenOk(s: State, s': State, n: string, job: Job)
    requires Inv(s) && n in s.procs && s.procs[n] == Holding(job, Forget) && job.DeleteJob?
    requires s' == RecordDeleted(s, n, job)
    ensures JobLv(job).name in s.damaged || Named(s, JobLv(job))
    ensures HolderMoved(s, s', s.procs[n], Holding(job, Release), JobLv(job).vg) ==> LvOk(s', JobLv(job))
    ensures JobLv(job) !in s.foreign
  {
    assert ProcOk(s, s.procs[n]) && LvOk(s, JobLv(job));
    assert Held(s.procs[n]) == Some(JobLv(job).vg) && Holder(s, JobLv(job).vg) == s.procs[n];
  }

  lemma ForgottenHistory(s: State, s': State, n: string, job: Job)
    requires HistoryOk(s) && s' == RecordDeleted(s, n, job)
    ensures HistoryOk(s') && OnlyRecord(s, s', JobLv(job))
  {
    var x := JobLv(job).name;
    assert s'.catalog == s.catalog - {x};
    assert s'.catalog.Keys == s.catalog.Keys - {x};
    DeletedHistory(s, s', x);
  }

  lemma RecordDeletedKeepsInv(s: State, n: string, job: Job)
    requires Inv(s) && n in s.procs && s.procs[n] == Holding(job, Forget) && job.DeleteJob?
    ensures Inv(RecordDeleted(s, n, job))
  {
    var s' := RecordDeleted(s, n, job);
    ForgottenOk(s, s', n, job);
    ForgottenHistory(s, s', n, job);
    RecordStepKeepsInv(s, s', n, job);
  }

  lemma GaveUpKeepsInv(s: State, n: string, job: Job, phase: Phase)
    requires Inv(s) && n in s.procs && s.procs[n] == Holding(job, phase)
    ensures Inv(GaveUp(s, n, job))
  {
    assert LvOk(s, JobLv(job)) && ProcOk(s, s.procs[n]);
    Assemble(s, GaveUp(s, n, job), n, Holding(job, Release), JobLv(job));
  }

  lemma LvExtendedKeepsInv(s: State, n: string, job: Job, size: nat)
    requires Inv(s) && n in s.procs && s.procs[n] == Holding(job, Grow) && job.ExtendJob?
    requires JobLv(job) in s.lvs
    ensures Inv(LvExtended(s, n, job, size))
  {
    assert ProcOk(s, s.procs[n]) && LvOk(s, JobLv(job));
    Assemble(s, LvExtended(s, n, job, size), n, Holding(job, Write), JobLv(job));
  }

  lemma UpdateKeepsInv(s: State, n: string, job: Job, rec: DiskRecord)
    requires Inv(s) && n in s.procs && s.procs[n] == Holding(job, Write) && job.ExtendJob?
    requires LvOf(rec) == JobLv(job) && rec.name in s.catalog
    ensures Inv(RecordUpdated(s, n, job, rec))
  {
    var s' := RecordUpdated(s, n, job, rec);
    assert ProcOk(s, s.procs[n]) && LvOk(s, JobLv(job));
    RecordStepKeepsInv(s, s', n, job);
  }

  /** A copy read from the catalog never names a foreign LV. */
  lemma ReadNotForeign(s: State, x: string)
    requires Inv(s) && x in s.catalog
    ensures LvOf(s.catalog[x]) !in s.foreign
  {
    assert LvOk(s, LvOf(s.catalog[x]));
  }

  lemma CreateKeepsInv(s: State, n: string, job: Job, phase: Phase, c: Choice)
    requires Inv(s) && n in s.procs && s.procs[n] == Holding(job, phase) && job.CreateJob?
    requires StepCreate(s, n, job, phase, c).Some?
    ensures Inv(StepCreate(s, n, job, phase, c).value)
  {
    match phase
    case Check =>
      GotoKeepsInv(s, n, Holding(job, if c.Proceed? && job.input.name !in s.catalog then MakeLv else Release));
    case MakeLv =>
      if c.Allot? {
        LvCreatedKeepsInv(s, n, job, if job.input.mode == Thin then Header else Insert, c.size);
      } else {
        GotoKeepsInv(s, n, Holding(job, Release));
      }
    case Header => GotoKeepsInv(s, n, Holding(job, if c.Proceed? then Dd else Undo));
    case Dd => GotoKeepsInv(s, n, Holding(job, if c.Proceed? then Insert else Undo));
    case Insert =>
      if c.Proceed? && job.input.name !in s.catalog {
        InsertKeepsInv(s, n, job, RecordFor(job.input, n));
      } else {
        GotoKeepsInv(s, n, Holding(job, Undo));
      }
    case Undo => if c.Proceed? { UndoKeepsInv(s, n, job); } else { GaveUpKeepsInv(s, n, job, phase); }
  }

  lemma DeleteKeepsInv(s: State, n: string, job: Job, phase: Phase, c: Choice)
    requires Inv(s) && n in s.procs && s.procs[n] == Holding(job, phase) && job.DeleteJob?
    requires StepDelete(s, n, job, phase, c).Some?
    ensures Inv(StepDelete(s, n, job, phase, c).value)
  {
    assert ProcOk(s, s.procs[n]);
    match phase
    case Detach => GotoKeepsInv(s, n, Holding(job, if c.Proceed? then DropLv else Release));
    case DropLv =>
      if c.Proceed? && JobLv(job) in s.lvs {
        LvRemovedKeepsInv(s, n, job);
      } else {
        GotoKeepsInv(s, n, Holding(job, Release));
      }
    case Forget => if c.Proceed? { RecordDeletedKeepsInv(s, n, job); } else { GaveUpKeepsInv(s, n, job, phase); }
  }

  lemma ExtendKeepsInv(s: State, n: string, job: Job, phase: Phase, c: Choice)
    requires Inv(s) && n in s.procs && s.procs[n] == Holding(job, phase) && job.ExtendJob?
    requires StepExtend(s, n, job, phase, c).Some?
    ensures Inv(StepExtend(s, n, job, phase, c).value)
  {
    assert ProcOk(s, s.procs[n]);
    match phase
    case Grow =>
      if c.Allot? { LvExtendedKeepsInv(s, n, job, c.size); } else { GotoKeepsInv(s, n, Holding(job, Release)); }
    case Write =>
      if c.Proceed? && job.rec.name in s.catalog {
        UpdateKeepsInv(s, n, job, job.rec.(size := NewSize(job.rec.size, job.amount)));
      } else {
        GotoKeepsInv(s, n, Holding(job, Release));
      }
  }

  lemma HoldingKeepsInv(s: State, n: string, job: Job, phase: Phase, c: Choice)
    requires Inv(s) && n in s.procs && s.procs[n] == Holding(job, phase)
    requires StepHolding(s, n, job, phase, c).Some?
    ensures Inv(StepHolding(s, n, job, phase, c).value)
  {
    if phase == Release {
      FreeLockKeepsInv(s, n, job);
    } else if job.CreateJob? {
      CreateKeepsInv(s, n, job, phase, c);
    } else if job.DeleteJob? {
      DeleteKeepsInv(s, n, job, phase, c);
    } else {
      ExtendKeepsInv(s, n, job, phase, c);
    }
  }

  /** Every step of every node keeps the invariant. */
  lemma StepKeepsInv(s: State, n: string, c: Choice)
    requires Inv(s)
    ensures Inv(Step(s, n, c))
  {
    if Try(s, n, c).Some? {
      match s.procs[n]
      case Idle => GotoKeepsInv(s, n, Start(c.request));
      case Reading(x, amount) =>
        if c.Proceed? && x in s.catalog {
          ReadNotForeign(s, x);
          GotoKeepsInv(s, n, Waiting(JobFor(s.catalog[x], amount)));
        } else {
          GotoKeepsInv(s, n, Idle);
        }
      case Waiting(job) =>
        if c.Proceed? { TakeLockKeepsInv(s, n, job, FirstPhase(job)); } else { GotoKeepsInv(s, n, Idle); }
      case Holding(job, phase) => HoldingKeepsInv(s, n, job, phase, c);
    }
  }

  // ----- what every interleaving guarantees

  lemma InitInv(s: State)
    requires Init(s)
    ensures Inv(s)
  {
    forall lv ensures LvOk(s, lv) {
    }
  }

  /** Every state of every run satisfies the invariant. */
  lemma {:induction false} RunKeepsInv(s0: State, sched: Schedule)
    requires Init(s0)
    ensures Inv(Exec(s0, sched))
    decreases |sched|
  {
    if sched == [] {
      InitInv(s0);
    } else {
      var last := |sched| - 1;
      RunKeepsInv(s0, sched[..last]);
      StepKeepsInv(Exec(s0, sched[..last]), sched[last].0, sched[last].1);
    }
  }

  /** A cleanup of disk `x`, a rollback or the deletion of the record, fails in this step. */
  predicate CleanupFails(s: State, n: string, c: Choice, x: string) {
    && n in s.procs && s.procs[n].Holding? && JobLv(s.procs[n].job).name == x && c.Fail?
    && IsCleanup(s.procs[n].job, s.procs[n].phase)
  }

  /** The rollback of a create, or the deletion of the record at the end of a delete. */
  predicate IsCleanup(job: Job, phase: Phase) {
    (job.CreateJob? && phase.Undo?) || (job.DeleteJob? && phase.Forget?)
  }

  /** The LVs differ at `lv`: it appeared, vanished or changed its size. */
  predicate LvChanged(s: State, s': State, lv: Lv) {
    (lv in s'.lvs) != (lv in s.lvs) || (lv in s.lvs && s'.lvs[lv] != s.lvs[lv])
  }

  /** The calls that can change LVs. */
  predicate LvPhase(job: Job, phase: Phase) {
    match job
    case CreateJob(_) => phase.MakeLv? || phase.Undo?
    case DeleteJob(_) => phase.DropLv?
    case ExtendJob(_, _) => phase.Grow?
  }

  /** What a step under the lock does to the foreign and damaged LVs and to `lv`. */
  predicate Effect(s: State, s': State, job: Job, phase: Phase, c: Choice, lv: Lv) {
    && s'.foreign == s.foreign
    && (LvChanged(s, s', lv) ==> LvPhase(job, phase) && lv == JobLv(job))
    && (lv in s.lvs && lv !in s'.lvs ==> phase.Undo? || phase.DropLv?)
    && s'.damaged == s.damaged +
         if c.Fail? && IsCleanup(job, phase) then {JobLv(job).name} else {}
  }

  lemma CreateEffect(s: State, n: string, job: Job, phase: Phase, c: Choice, lv: Lv)
    requires job.CreateJob? && StepCreate(s, n, job, phase, c).Some?
    ensures Effect(s, StepCreate(s, n, job, phase, c).value, job, phase, c, lv)
  {
  }

  lemma DeleteEffect(s: State, n: string, job: Job, phase: Phase, c: Choice, lv: Lv)
    requires job.DeleteJob? && StepDelete(s, n, job, phase, c).Some?
    ensures Effect(s, StepDelete(s, n, job, phase, c).value, job, phase, c, lv)
  {
  }

  lemma ExtendEffect(s: State, n: string, job: Job, phase: Phase, c: Choice, lv: Lv)
    requires job.ExtendJob? && StepExtend(s, n, job, phase, c).Some?
    ensures Effect(s, StepExtend(s, n, job, phase, c).value, job, phase, c, lv)
  {
  }

  lemma HoldingEffect(s: State, n: string, job: Job, phase: Phase, c: Choice, lv: Lv)
    requires StepHolding(s, n, job, phase, c).Some?
    ensures Effect(s, StepHolding(s, n, job, phase, c).value, job, phase, c, lv)
  {
    if phase != Release {
      match job
      case CreateJob(_) => CreateEffect(s, n, job, phase, c, lv);
      case DeleteJob(_) => DeleteEffect(s, n, job, phase, c, lv);
      case ExtendJob(_, _) => ExtendEffect(s, n, job, phase, c, lv);
    }
  }

  lemma StepEffect(s: State, n: string, c: Choice, lv: Lv)
    ensures var s' := Step(s, n, c);
            && s'.foreign == s.foreign && s.damaged <= s'.damaged
            && (LvChanged(s, s', lv) ==>
                  && n in s.procs && s.procs[n].Holding? && JobLv(s.procs[n].job) == lv
                  && LvPhase(s.procs[n].job, s.procs[n].phase)
                  && (lv in s.lvs && lv !in s'.lvs ==> s.procs[n].phase.Undo? || s.procs[n].phase.DropLv?))
    ensures forall x :: x in Step(s, n, c).damaged <==> x in s.damaged || CleanupFails(s, n, c, x)
  {
    if n in s.procs && s.procs[n].Holding? && Try(s, n, c).Some? {
      HoldingEffect(s, n, s.procs[n].job, s.procs[n].phase, c, lv);
    }
  }

  lemma {:induction false} ForeignFixed(s0: State, sched: Schedule)
    ensures Exec(s0, sched).foreign == s0.foreign
    decreases |sched|
  {
    if sched != [] {
      var last := |sched| - 1;
      ForeignFixed(s0, sched[..last]);
      StepEffect(Exec(s0, sched[..last]), sched[last].0, sched[last].1, Lv("", ""));
    }
  }

  lemma DamageStep(s: State, n: string, c: Choice, x: string)
    ensures x in Step(s, n, c).damaged <==> x in s.damaged || CleanupFails(s, n, c, x)
  {
    StepEffect(s, n, c, Lv("", ""));
  }

  /** A name is damaged exactly if one of its cleanups has failed in the run. */
  lemma {:induction false} DamagedIff(s0: State, sched: Schedule, x: string)
    requires Init(s0)
    ensures x in Exec(s0, sched).damaged <==> exists k :: 0 <= k < |sched| && FailsAt(s0, sched, k, x)
    decreases |sched|
  {
    if sched != [] {
      var last := |sched| - 1;
      var before := sched[..last];
      DamagedIff(s0, before, x);
      DamageStep(Exec(s0, before), sched[last].0, sched[last].1, x);
      forall k: nat | k < last ensures FailsAt(s0, before, k, x) == FailsAt(s0, sched, k, x) {
        assert before[..k] == sched[..k] && before[k] == sched[k];
      }
      assert FailsAt(s0, sched, last, x) <==> CleanupFails(Exec(s0, before), sched[last].0, sched[last].1, x);
    }
  }

  predicate FailsAt(s0: State, sched: Schedule, k: nat, x: string)
    requires k < |sched|
  {
    CleanupFails(Exec(s0, sched[..k]), sched[k].0, sched[k].1, x)
  }

  /**
    Agreement: in every interleaving, with any calls failing, whenever the lock of
    a volume group is free, its LVs of any name whose cleanups never failed are
    exactly those a committed record names and those that were there from the
    start; and no record ever claims one of the latter.
   */
  lemma LvsMatchCatalog(s0: State, sched: Schedule, vg: string, x: string)
    requires Init(s0)
    ensures var s := Exec(s0, sched);
            vg !in s.locks && x !in s.damaged ==>
              (Lv(vg, x) in s.lvs <==>
               ((x in s.catalog && s.catalog[x].vg == vg) != (Lv(vg, x) in s0.foreign)))
  {
    var s := Exec(s0, sched);
    RunKeepsInv(s0, sched);
    ForeignFixed(s0, sched);
    assert LvOk(s, Lv(vg, x));
  }

  /**
    The exception is exact: a cleanup that is the first to fail for its name leaves
    an LV without a record or a record without an LV when its lock is free again.
   */
  lemma FailedCleanupDisagrees(s0: State, sched: Schedule, n: string, c: Choice, x: string)
    requires Init(s0) && x !in Exec(s0, sched).damaged && CleanupFails(Exec(s0, sched), n, c, x)
    ensures var s := Exec(s0, sched);
            var lv := JobLv(s.procs[n].job);
            var s' := Step(Step(s, n, c), n, Proceed);
            lv.name == x && lv.vg !in s'.locks && lv !in s0.foreign && (lv in s'.lvs <==> !Named(s', lv))
  {
    var s := Exec(s0, sched);
    RunKeepsInv(s0, sched);
    ForeignFixed(s0, sched);
    MidwayDisagrees(s, n, c, x);
    var job := s.procs[n].job;
    GivesUp(s, n, c, x);
    assert s.procs[n] == Holding(job, s.procs[n].phase);
  }

  lemma GivesUp(s: State, n: string, c: Choice, x: string)
    requires CleanupFails(s, n, c, x)
    ensures Step(Step(s, n, c), n, Proceed) == FreeLock(GaveUp(s, n, s.procs[n].job), n, s.procs[n].job)
  {
    var job := s.procs[n].job;
    assert Try(s, n, c) == Some(GaveUp(s, n, job));
    assert Try(GaveUp(s, n, job), n, Proceed) == Some(FreeLock(GaveUp(s, n, job), n, job));
  }

  lemma MidwayDisagrees(s: State, n: string, c: Choice, x: string)
    requires Inv(s) && x !in s.damaged && CleanupFails(s, n, c, x)
    ensures var lv := JobLv(s.procs[n].job);
            lv !in s.foreign && (lv in s.lvs <==> !Named(s, lv))
  {
    var lv := JobLv(s.procs[n].job);
    assert LvOk(s, lv) && ProcOk(s, s.procs[n]);
    assert Held(s.procs[n]) == Some(lv.vg) && Holder(s, lv.vg) == s.procs[n];
  }

  /** LVs that were there before the catalog are never removed, resized or recreated. */
  lemma ForeignLvsUntouched(s0: State, sched: Schedule, lv: Lv)
    requires Init(s0) && lv in s0.foreign
    ensures var s := Exec(s0, sched); lv in s.lvs && s.lvs[lv] == s0.foreign[lv]
  {
    RunKeepsInv(s0, sched);
    ForeignFixed(s0, sched);
  }

  /** At most one node is between acquire and release on a volume group. */
  lemma MutualExclusion(s0: State, sched: Schedule, n: string, m: string)
    requires Init(s0)
    requires var s := Exec(s0, sched);
             && n in s.procs && m in s.procs
             && Held(s.procs[n]).Some? && Held(s.procs[n]) == Held(s.procs[m])
    ensures n == m
  {
    RunKeepsInv(s0, sched);
  }

  /** Whoever changes an LV holds the lock of its volume group and works on that LV. */
  lemma OnlyHolderChangesLv(s0: State, sched: Schedule, n: string, c: Choice, lv: Lv)
    requires Init(s0)
    requires LvChanged(Exec(s0, sched), Step(Exec(s0, sched), n, c), lv)
    ensures var s := Exec(s0, sched);
            && n in s.procs && s.procs[n].Holding? && JobLv(s.procs[n].job) == lv
            && lv.vg in s.locks && s.locks[lv.vg] == n
  {
    var s := Exec(s0, sched);
    RunKeepsInv(s0, sched);
    StepEffect(s, n, c, lv);
    assert Held(s.procs[n]) == Some(JobLv(s.procs[n].job).vg);
  }

  lemma RemoverJustified(s: State, n: string, lv: Lv)
    requires Inv(s) && n in s.procs && s.procs[n].Holding? && JobLv(s.procs[n].job) == lv && lv in s.lvs
    requires LvPhase(s.procs[n].job, s.procs[n].phase) && (s.procs[n].phase.Undo? || s.procs[n].phase.DropLv?)
    ensures lv !in s.foreign
    ensures if s.procs[n].job.CreateJob? then s.procs[n].phase == Undo && !Named(s, lv)
            else s.procs[n].job.DeleteJob? && s.procs[n].phase == DropLv && (Named(s, lv) || lv.name in s.damaged)
  {
    assert LvOk(s, lv) && ProcOk(s, s.procs[n]);
    assert Held(s.procs[n]) == Some(lv.vg) && Holder(s, lv.vg) == s.procs[n];
  }

  /**
    Losing a name race is harmless: in every interleaving, with any calls failing,
    an LV is removed either by the rollback of a create, and then no committed
    record names it, or by a delete, and then a committed record names it unless
    an earlier cleanup of the name has failed.
   */
  lemma RemovalIsJustified(s0: State, sched: Schedule, n: string, c: Choice, lv: Lv)
    requires Init(s0)
    requires lv in Exec(s0, sched).lvs && lv !in Step(Exec(s0, sched), n, c).lvs
    ensures var s := Exec(s0, sched);
            && n in s.procs && s.procs[n].Holding? && JobLv(s.procs[n].job) == lv && lv !in s.foreign
            && if s.procs[n].job.CreateJob? then s.procs[n].phase == Undo && !Named(s, lv)
               else s.procs[n].job.DeleteJob? && s.procs[n].phase == DropLv && (Named(s, lv) || lv.name in s.damaged)
  {
    var s := Exec(s0, sched);
    StepEffect(s, n, c, lv);
    RunKeepsInv(s0, sched);
    RemoverJustified(s, n, lv);
  }

  /** A name taken before position `j` and free at `j` was deleted in between. */
  lemma {:induction false} DeletedInBetween(h: seq<Event>, i: nat, j: nat, x: string)
    requires i < j <= |h| && h[i] == Created(x) && !Live(h[..j], x)
    ensures exists k :: i < k < j && h[k] == Deleted(x)
    decreases j
  {
    var h' := h[..j];
    assert h'[|h'| - 1] == h[j - 1];
    if h[j - 1] != Deleted(x) {
      assert h'[..|h'| - 1] == h[..j - 1];
      DeletedInBetween(h, i, j - 1, x);
    }
  }

  /** Two successful creates of one name have a delete of it between them; so
      between two deletes at most one create succeeds. */
  lemma CreatesAlternateWithDeletes(s0: State, sched: Schedule, i: nat, j: nat, x: string)
    requires Init(s0)
    requires i < j < |Exec(s0, sched).history|
    requires Exec(s0, sched).history[i] == Created(x) && Exec(s0, sched).history[j] == Created(x)
    ensures exists k :: i < k < j && Exec(s0, sched).history[k] == Deleted(x)
  {
    var h := Exec(s0, sched).history;
    RunKeepsInv(s0, sched);
    assert Live(h[..j], h[j].name) == h[j].Deleted?;
    DeletedInBetween(h, i, j, x);
  }
}
