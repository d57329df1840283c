/**
  The runs behind the conditions on sizes: a stale extend that overstates its
  LV, and two extends of which one update is lost.  Every call in them succeeds.
 */
module ProtocolRaces {
  import opened Records
  import opened Protocol
  import opened ProtocolProgress

  predicate NoFailure(cs: seq<Choice>) {
    forall i | 0 <= i < |cs| :: !cs[i].Fail?
  }

  /** Two idle nodes over an empty volume group. */
  const TwoNodes: State := State(map[], map[], map[], map["a" := Idle, "b" := Idle], map[], [], {})

  /** The states that runs from there reach without a failing call. */
  ghost predicate Reached(s: State) {
    exists sched: Schedule :: Exec(TwoNodes, sched) == s && forall k | 0 <= k < |sched| :: !sched[k].1.Fail?
  }

  /** A property of states that every node moving alone without a failing call carries on. */
  ghost predicate Closed(reach: State -> bool) {
    forall s, n, cs | reach(s) && NoFailure(cs) :: reach(Drive(s, n, cs))
  }

  lemma ReachedClosed()
    ensures Closed(Reached) && Reached(TwoNodes) && Init(TwoNodes)
  {
    assert Exec(TwoNodes, []) == TwoNodes;
    forall s, n, cs | Reached(s) && NoFailure(cs) ensures Reached(Drive(s, n, cs)) {
      var sched: Schedule :| Exec(TwoNodes, sched) == s && forall k | 0 <= k < |sched| :: !sched[k].1.Fail?;
      DriveIsExec(TwoNodes, sched, n, cs);
      var all := sched + Turns(n, cs);
      assert Exec(TwoNodes, all) == Drive(s, n, cs);
    }
  }

  function ThickInput(x: string, vg: string, size: nat): CreateInput {
    CreateInput(x, vg, Thick, size, size)
  }

  /** The record a create of `size` bytes by node "a" leaves. */
  function Made(size: nat): DiskRecord {
    RecordFor(ThickInput("d", "v", size), "a")
  }

  /** The one disk of the counterexamples, as the catalog and LVM see it. */
  function OneDisk(rec: DiskRecord, lvSize: nat, pcs: map<string, Pc>, h: seq<Event>): State {
    State(map["d" := rec], map[Lv("v", "d") := lvSize], map[], pcs, map[], h, {})
  }

  /** Node "b" has read a disk of 100 bytes, and is about to add 5. */
  const Stale: Pc := Waiting(ExtendJob(Made(100), Delta(5)))

  lemma MadeDisk(reach: State -> bool, s: State, size: nat)
    requires Closed(reach) && reach(s) && size > 0
    requires s.catalog == map[] && s.lvs == map[] && s.locks == map[] && s.foreign == map[] && s.damaged == {}
    requires "a" in s.procs && s.procs["a"] == Idle
    ensures reach(OneDisk(Made(size), size, s.procs, s.history + [Created("d")]))
  {
    var input := ThickInput("d", "v", size);
    ValidNameIff("d");
    assert NormaliseCreate(input, "", 0) == Ok(input);
    var calls := CreateCalls(CreateRequest(input, "", 0), false, size);
    CreateEnds(s, "a", input, "", 0, size);
    assert reach(Drive(s, "a", calls));
    assert map[][Lv("v", "d") := size] == map[Lv("v", "d") := size];
    assert map[]["d" := Made(size)] == map["d" := Made(size)];
  }

  lemma Reads(reach: State -> bool, s: State, n: string, d: nat)
    requires Closed(reach) && reach(s) && n in s.procs && s.procs[n] == Idle && "d" in s.catalog && d > 0
    ensures reach(Goto(s, n, Waiting(ExtendJob(s.catalog["d"], Delta(d)))))
  {
    ExtendReads(s, n, "d", Delta(d));
    var calls := [Begin(ExtendRequest("d", Delta(d))), Proceed];
    assert reach(Drive(s, n, calls));
    assert calls == [] + [calls[0]] + [Proceed];
    DriveNext(s, n, [], calls[0]);
    DriveNext(s, n, [calls[0]], Proceed);
  }

  /** An extend by `d` bytes finishes what it read, over an LV that gets exactly `d` bytes more. */
  lemma Finishes(reach: State -> bool, s: State, n: string, rec: DiskRecord, d: nat)
    requires Closed(reach) && reach(s) && n in s.procs
    requires s.procs[n] == Waiting(ExtendJob(rec, Delta(d))) && rec.vg !in s.locks
    requires LvOf(rec) in s.lvs && rec.name in s.catalog && rec.size + d < U64
    ensures reach(Goto(s, n, Idle).(catalog := s.catalog[rec.name := rec.(size := rec.size + d)],
                                      lvs := s.lvs[LvOf(rec) := s.lvs[LvOf(rec)] + d]))
  {
    var got := s.lvs[LvOf(rec)] + d;
    ExtendFinishes(s, n, rec, Delta(d), got);
    assert reach(Drive(s, n, FinishCalls(got)));
  }

  lemma Deletes(reach: State -> bool, s: State, n: string, x: string)
    requires Closed(reach) && reach(s) && DeleteReady(s, n, x)
    ensures reach(s.(catalog := s.catalog - {x}, lvs := s.lvs - {LvOf(s.catalog[x])},
                       history := s.history + [Deleted(x)]))
  {
    DeleteEnds(s, n, x);
    assert reach(Drive(s, n, DeleteCalls(x)));
  }

  lemma ReadBeforeLock(reach: State -> bool)
    requires Closed(reach) && reach(TwoNodes)
    ensures reach(OneDisk(Made(100), 100, map["a" := Idle, "b" := Stale], [Created("d")]))
  {
    MadeDisk(reach, TwoNodes, 100);
    var s := OneDisk(Made(100), 100, map["a" := Idle, "b" := Idle], [Created("d")]);
    assert TwoNodes.history + [Created("d")] == [Created("d")];
    Reads(reach, s, "b", 5);
    assert s.procs["b" := Stale] == map["a" := Idle, "b" := Stale];
  }

  /** "b" finishes its extend of what it read, whatever happened to the disk since. */
  lemma StaleFinishes(reach: State -> bool, rec: DiskRecord, lvSize: nat, h: seq<Event>)
    requires Closed(reach) && reach(OneDisk(rec, lvSize, map["a" := Idle, "b" := Stale], h))
    ensures reach(OneDisk(Made(100).(size := 105), lvSize + 5, map["a" := Idle, "b" := Idle], h))
  {
    var s := OneDisk(rec, lvSize, map["a" := Idle, "b" := Stale], h);
    Finishes(reach, s, "b", Made(100), 5);
    assert s.procs["b" := Idle] == map["a" := Idle, "b" := Idle];
    assert s.catalog["d" := Made(100).(size := 105)] == map["d" := Made(100).(size := 105)];
    assert s.lvs[Lv("v", "d") := lvSize + 5] == map[Lv("v", "d") := lvSize + 5];
  }

  lemma OverstatingRun(reach: State -> bool)
    requires Closed(reach) && reach(TwoNodes)
    ensures reach(OneDisk(Made(100).(size := 105), 15, map["a" := Idle, "b" := Idle],
                          [Created("d"), Deleted("d"), Created("d")]))
  {
    ReadBeforeLock(reach);
    var s := OneDisk(Made(100), 100, map["a" := Idle, "b" := Stale], [Created("d")]);
    Deletes(reach, s, "a", "d");
    var gone := s.(catalog := s.catalog - {"d"}, lvs := s.lvs - {Lv("v", "d")}, history := s.history + [Deleted("d")]);
    assert gone.catalog == map[] && gone.lvs == map[];
    MadeDisk(reach, gone, 10);
    assert gone.history + [Created("d")] == [Created("d"), Deleted("d"), Created("d")];
    StaleFinishes(reach, Made(10), 10, [Created("d"), Deleted("d"), Created("d")]);
  }

  lemma LosingRun(reach: State -> bool)
    requires Closed(reach) && reach(TwoNodes)
    ensures reach(OneDisk(Made(100).(size := 105), 112, map["a" := Idle, "b" := Idle], [Created("d")]))
  {
    ReadBeforeLock(reach);
    var s := OneDisk(Made(100), 100, map["a" := Idle, "b" := Stale], [Created("d")]);
    Reads(reach, s, "a", 7);
    var s' := Goto(s, "a", Waiting(ExtendJob(Made(100), Delta(7))));
    Finishes(reach, s', "a", Made(100), 7);
    assert s'.procs["a" := Idle] == s.procs;
    assert s'.catalog["d" := Made(100).(size := 107)] == map["d" := Made(100).(size := 107)];
    assert s'.lvs[Lv("v", "d") := 107] == map[Lv("v", "d") := 107];
    StaleFinishes(reach, Made(100).(size := 107), 107, [Created("d")]);
  }

  /**
    The condition on deletes is needed.  Node "b" reads a disk of 100 bytes; node
    "a" deletes it and creates it anew with 10 bytes; then "b" extends by 5.  Every
    call succeeds and every tool is exact, yet the record ends at 105 bytes over
    an LV of 15, and it is the deleted disk's record that came back.
   */
  lemma StaleExtendOverstates()
    ensures Init(TwoNodes)
    ensures Reached(OneDisk(Made(100).(size := 105), 15, map["a" := Idle, "b" := Idle],
                            [Created("d"), Deleted("d"), Created("d")]))
  {
    ReachedClosed();
    OverstatingRun(Reached);
  }

  /**
    So is the condition on extends.  Two extends, by 7 and by 5, that both read
    100 bytes leave an LV of 112 bytes under a record of 105: one update is lost.
   */
  lemma RacingExtendsLoseUpdate()
    ensures Init(TwoNodes)
    ensures Reached(OneDisk(Made(100).(size := 105), 112, map["a" := Idle, "b" := Idle], [Created("d")]))
  {
    ReachedClosed();
    LosingRun(Reached);
  }
}
