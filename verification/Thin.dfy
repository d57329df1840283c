/**
  The thin auto-extend manager: one inspection pass, and many of them.

  A pass visits the VMs in the order of a Go map, which is any order.  What it
  does is a function of the state and of that order.  When every disk is
  attached at most once the order leaves no trace; when one is attached to two
  VMs it can.
 */
module Thin {
  import opened Records
  import opened Domstats
  import opened Growth

  type DiskMap = map<string, DiskRecord>
  type StatsMap = map<string, seq<BlockStats>>

  /** The catalog's disks and libvirt's statistics by VM. */
  datatype Pool = Pool(disks: DiskMap, stats: StatsMap)

  /** The size a disk's record states. */
  function SizeIn(p: Pool, name: string): nat {
    if name in p.disks then p.disks[name].size else 0
  }

  /** The calls that fail during a pass: statistics by VM, extends by disk, resizes by device. */
  datatype Faults = Faults(stats: set<string>, extend: set<string>, resize: set<(string, string)>)

  const NO_FAULTS: Faults := Faults({}, {}, {})

  // ----- libvirt's statistics

  function StatsOf(stats: StatsMap, vm: string): seq<BlockStats> {
    if vm in stats then stats[vm] else []
  }

  /** The statistics under a device name; for a repeated name the last entry. */
  function Named(entries: seq<BlockStats>, target: string): Option<BlockStats> {
    if entries == [] then None
    else if entries[|entries| - 1].name == target then Some(entries[|entries| - 1])
    else Named(entries[..|entries| - 1], target)
  }

  /** The lookup finds the last entry of a name, and nothing only for a name without entries. */
  lemma {:induction false} NamedIff(entries: seq<BlockStats>, target: string)
    ensures Named(entries, target).None? <==> forall i | 0 <= i < |entries| :: entries[i].name != target
    ensures forall i | 0 <= i < |entries| && entries[i].name == target
                       && (forall j | i < j < |entries| :: entries[j].name != target) ::
              Named(entries, target) == Some(entries[i])
  {
    if entries != [] {
      var last := |entries| - 1;
      NamedIff(entries[..last], target);
      assert entries == entries[..last] + [entries[last]];
    }
  }

  /** The position the lookup by name finds depends on the names only. */
  lemma {:induction false} NamedAt(entries: seq<BlockStats>, entries': seq<BlockStats>, target: string)
      returns (i: nat)
    requires |entries'| == |entries| && forall j | 0 <= j < |entries| :: entries'[j].name == entries[j].name
    requires Named(entries, target).Some?
    ensures i < |entries| && Named(entries, target) == Some(entries[i]) && Named(entries', target) == Some(entries'[i])
    ensures entries[i].name == target
    decreases |entries|
  {
    var last := |entries| - 1;
    if entries[last].name == target {
      i := last;
    } else {
      i := NamedAt(entries[..last], entries'[..last], target);
    }
  }

  /** The entry at `i` is the last of that name. */
  predicate LastOf(entries: seq<BlockStats>, target: string, i: int) {
    && 0 <= i < |entries| && entries[i].name == target
    && forall j | i < j < |entries| :: entries[j].name != target
  }

  lemma {:induction false} LastIndex(entries: seq<BlockStats>, target: string) returns (i: nat)
    requires Named(entries, target).Some?
    ensures LastOf(entries, target, i) && Named(entries, target) == Some(entries[i])
  {
    var last := |entries| - 1;
    if entries[last].name == target {
      i := last;
    } else {
      i := LastIndex(entries[..last], target);
      assert entries[..last][i] == entries[i];
    }
  }

  /** The statistics of one VM by device name, later entries replacing earlier ones. */
  method IndexByName(entries: seq<BlockStats>) returns (byDev: map<string, BlockStats>)
    ensures forall t :: t in byDev <==> Named(entries, t).Some?
    ensures forall t | t in byDev :: Named(entries, t) == Some(byDev[t])
    ensures forall t :: t in byDev <==> exists i :: 0 <= i < |entries| && entries[i].name == t
    ensures forall t, i | LastOf(entries, t, i) :: t in byDev && byDev[t] == entries[i]
  {
    byDev := map[];
    for i := 0 to |entries|
      invariant forall t :: t in byDev <==> Named(entries[..i], t).Some?
      invariant forall t | t in byDev :: Named(entries[..i], t) == Some(byDev[t])
    {
      byDev := byDev[entries[i].name := entries[i]];
      assert entries[..i + 1][..i] == entries[..i];
    }
    assert entries[..|entries|] == entries;
    forall t ensures t in byDev <==> exists i :: 0 <= i < |entries| && entries[i].name == t { NamedIff(entries, t); }
    forall t, i | LastOf(entries, t, i) ensures t in byDev && byDev[t] == entries[i] { NamedIff(entries, t); }
  }

  /** The allocation libvirt shows for an attachment. */
  function AllocationOf(ss: StatsMap, a: AttachmentRecord): nat {
    var s := Named(StatsOf(ss, a.vm), a.target);
    if s.Some? then s.value.allocation else 0
  }

  /** A resized device shows its new size and its old allocation. */
  lemma ResizedShows(ss: StatsMap, a: AttachmentRecord, size: nat)
    requires Named(StatsOf(ss, a.vm), a.target).Some?
    ensures a.vm in ss && Named(Resized(ss[a.vm], a.target, size), a.target).Some?
    ensures Named(Resized(ss[a.vm], a.target, size), a.target).value.physical == size
    ensures Named(Resized(ss[a.vm], a.target, size), a.target).value.allocation == AllocationOf(ss, a)
  {
    var i := NamedAt(ss[a.vm], Resized(ss[a.vm], a.target, size), a.target);
  }

  // ----- extending one disk

  function Extended(r: DiskRecord, step: nat): DiskRecord {
    r.(size := PercentExtended(r.size, step))
  }

  /** A libvirt resize: the device shows its new size. */
  function Resized(entries: seq<BlockStats>, target: string, size: nat): (r: seq<BlockStats>)
    ensures |r| == |entries|
    ensures forall i | 0 <= i < |r| ::
              r[i] == if entries[i].name == target then entries[i].(physical := size, capacity := size) else entries[i]
  {
    seq(|entries|, i requires 0 <= i < |entries| =>
      if entries[i].name == target then entries[i].(physical := size, capacity := size) else entries[i])
  }

  function ResizeDevice(ss: StatsMap, a: AttachmentRecord, size: nat, deaf: set<(string, string)>): StatsMap {
    if a.vm in ss && (a.vm, a.target) !in deaf then ss[a.vm := Resized(ss[a.vm], a.target, size)] else ss
  }

  /** The resizes of all attachments of a disk, one after the other; those in `deaf` fail. */
  function ResizeAll(ss: StatsMap, atts: seq<AttachmentRecord>, name: string, size: nat,
                     deaf: set<(string, string)>): StatsMap
  {
    if atts == [] then ss
    else
      var last := |atts| - 1;
      var before := ResizeAll(ss, atts[..last], name, size, deaf);
      if atts[last].disk == name then ResizeDevice(before, atts[last], size, deaf) else before
  }

  /** What `ExtendByPercent` does: the record grows and every attachment of the disk is resized. */
  function Grown(p: Pool, atts: seq<AttachmentRecord>, name: string, step: nat, f: Faults): Pool {
    if name !in p.disks || name in f.extend then p
    else
      Pool(p.disks[name := Extended(p.disks[name], step)],
           ResizeAll(p.stats, atts, name, PercentExtended(p.disks[name].size, step), f.resize))
  }

  // ----- the manager

  class Manager {
    const nodeId: string
    const threshold: nat
    const step: nat
    var disks: DiskMap
    var attachments: seq<AttachmentRecord>
    var stats: StatsMap

    constructor (nodeId: string, threshold: nat, step: nat)
      ensures this.nodeId == nodeId && this.threshold == threshold && this.step == step
      ensures disks == map[] && attachments == [] && stats == map[]
    {
      this.nodeId, this.threshold, this.step := nodeId, threshold, step;
      disks, attachments, stats := map[], [], map[];
    }

    ghost function Now(): Pool
      reads this`disks, this`stats
    {
      Pool(disks, stats)
    }

    /** The attachment is looked at by this node. */
    predicate Hosted(a: AttachmentRecord) {
      a.host == "" || a.host == nodeId
    }

    /** A thin disk whose device shows too little free space. */
    predicate Wants(ds: DiskMap, entries: seq<BlockStats>, a: AttachmentRecord) {
      && a.disk in ds && ds[a.disk].mode == Thin
      && Named(entries, a.target).Some?
      && var s := Named(entries, a.target).value;
         BelowThreshold(s.physical, s.allocation, threshold)
    }

    // ----- what a pass does, as a function of the visiting order

    /** One attachment, decided on statistics read before. */
    function VisitOne(p: Pool, atts: seq<AttachmentRecord>, entries: seq<BlockStats>, f: Faults,
                      a: AttachmentRecord): Pool
    {
      if Wants(p.disks, entries, a) then Grown(p, atts, a.disk, step, f) else p
    }

    /** The attachments of one VM in turn, all decided on the same statistics. */
    function VisitGroup(p: Pool, atts: seq<AttachmentRecord>, entries: seq<BlockStats>, f: Faults,
                        mine: seq<AttachmentRecord>): Pool
    {
      if mine == [] then p
      else
        var last := |mine| - 1;
        VisitOne(VisitGroup(p, atts, entries, f, mine[..last]), atts, entries, f, mine[last])
    }

    /** This node's attachments of one VM, in the order of the listing. */
    function Mine(atts: seq<AttachmentRecord>, vm: string): seq<AttachmentRecord> {
      if atts == [] then []
      else
        var last := |atts| - 1;
        Mine(atts[..last], vm) + if Hosted(atts[last]) && atts[last].vm == vm then [atts[last]] else []
    }

    function VisitVm(p: Pool, atts: seq<AttachmentRecord>, f: Faults, vm: string): Pool {
      if vm in f.stats then p else VisitGroup(p, atts, StatsOf(p.stats, vm), f, Mine(atts, vm))
    }

    function VisitAll(p: Pool, atts: seq<AttachmentRecord>, f: Faults, order: seq<string>): Pool {
      if order == [] then p
      else
        var last := |order| - 1;
        VisitVm(VisitAll(p, atts, f, order[..last]), atts, f, order[last])
    }

    lemma {:induction false} MineIs(atts: seq<AttachmentRecord>, vm: string)
      ensures forall a :: a in Mine(atts, vm) <==> a in atts && Hosted(a) && a.vm == vm
    {
      if atts != [] {
        var last := |atts| - 1;
        MineIs(atts[..last], vm);
        assert atts == atts[..last] + [atts[last]];
      }
    }

    /** The order visits exactly the VMs with an attachment of this node, each once. */
    ghost predicate Visits(order: seq<string>, atts: seq<AttachmentRecord>) {
      && (forall i, j | 0 <= i < j < |order| :: order[i] != order[j])
      && (forall vm :: vm in order <==> Mine(atts, vm) != [])
    }

    // ----- the code

    /** `disk.Service.ExtendByPercent` as the manager sees it. */
    method ExtendByPercent(name: string, f: Faults) returns (ok: bool)
      modifies this`disks, this`stats
      ensures ok <==> name in old(disks) && name !in f.extend
      ensures Now() == Grown(old(Now()), attachments, name, step, f)
    {
      if name !in disks || name in f.extend {
        return false;
      }
      var size := PercentExtended(disks[name].size, step);
      disks := disks[name := disks[name].(size := size)];
      for i := 0 to |attachments|
        invariant stats == ResizeAll(old(stats), attachments[..i], name, size, f.resize)
        invariant disks == old(disks)[name := Extended(old(disks)[name], step)]
      {
        var a := attachments[i];
        assert attachments[..i + 1][..i] == attachments[..i];
        if a.disk == name && a.vm in stats && (a.vm, a.target) !in f.resize {
          stats := stats[a.vm := Resized(stats[a.vm], a.target, size)];
        }
      }
      assert attachments[..|attachments|] == attachments;
      ok := true;
    }

    /** Groups this node's attachments by VM. */
    method GroupByVm() returns (byVm: map<string, seq<AttachmentRecord>>)
      ensures forall vm :: vm in byVm <==> Mine(attachments, vm) != []
      ensures forall vm | vm in byVm :: byVm[vm] == Mine(attachments, vm)
      ensures forall vm, a :: vm in byVm && a in byVm[vm] <==>
                a in attachments && a.vm == vm && (a.host == "" || a.host == nodeId)
    {
      byVm := map[];
      for i := 0 to |attachments|
        invariant forall vm :: vm in byVm <==> Mine(attachments[..i], vm) != []
        invariant forall vm | vm in byVm :: byVm[vm] == Mine(attachments[..i], vm)
      {
        var a := attachments[i];
        assert attachments[..i + 1][..i] == attachments[..i];
        if Hosted(a) {
          byVm := byVm[a.vm := (if a.vm in byVm then byVm[a.vm] else []) + [a]];
        }
      }
      assert attachments[..|attachments|] == attachments;
      forall vm ensures forall a :: vm in byVm && a in byVm[vm] <==>
          a in attachments && a.vm == vm && (a.host == "" || a.host == nodeId) {
        MineIs(attachments, vm);
      }
    }

    method TickVm(vm: string, mine: seq<AttachmentRecord>, f: Faults)
      requires mine == Mine(attachments, vm)
      modifies this`disks, this`stats
      ensures Now() == VisitVm(old(Now()), attachments, f, vm)
    {
      if vm in f.stats {
        return;
      }
      ghost var p, entries := Now(), StatsOf(stats, vm);
      var byDev := IndexByName(StatsOf(stats, vm));
      for i := 0 to |mine|
        invariant Now() == VisitGroup(p, attachments, entries, f, mine[..i])
      {
        var a := mine[i];
        assert mine[..i + 1][..i] == mine[..i];
        if a.disk in disks && disks[a.disk].mode == Thin && a.target in byDev
           && BelowThreshold(byDev[a.target].physical, byDev[a.target].allocation, threshold) {
          var ok := ExtendByPercent(a.disk, f);
        }
      }
      assert mine[..|mine|] == mine;
    }

    /** Visits the VMs in any order. */
    method VisitGroups(byVm: map<string, seq<AttachmentRecord>>, f: Faults) returns (ghost order: seq<string>)
      requires forall vm | vm in byVm :: byVm[vm] == Mine(attachments, vm)
      modifies this`disks, this`stats
      ensures Order(order, byVm.Keys) && Now() == VisitAll(old(Now()), attachments, f, order)
    {
      order := [];
      var left := byVm.Keys;
      while left != {}
        invariant left <= byVm.Keys && Order(order, byVm.Keys - left)
        invariant Now() == VisitAll(old(Now()), attachments, f, order)
        decreases |left|
      {
        var vm := AnyOf(left);
        OrderNext(order, byVm.Keys - left, vm);
        assert byVm.Keys - left + {vm} == byVm.Keys - (left - {vm});
        order := order + [vm];
        left := left - {vm};
        TickVm(vm, byVm[vm], f);
      }
    }

    /**
      One inspection pass, whatever is attached where and whatever fails: it does
      what the visiting order says.  If every disk is attached at most once, the
      state after the pass is one function of the state before it: exactly the
      disks are extended whose attachment is this node's, whose VM's statistics
      could be read and show the device below the threshold, and whose extend
      succeeded.
     */
    method Tick(f: Faults) returns (ghost order: seq<string>)
      modifies this`disks, this`stats
      ensures Visits(order, attachments) && Now() == VisitAll(old(Now()), attachments, f, order)
      ensures Separate(attachments) ==> AfterHits(Now(), old(Now()), Hit(old(Now()), f, attachments), step, f.resize)
      ensures Separate(attachments) ==> forall a | a in attachments && a.disk in old(disks) ::
                a.disk in disks && disks[a.disk] ==
                  if (a.host == "" || a.host == nodeId) && a.vm !in f.stats && a.disk !in f.extend
                     && Low(old(Now()), a)
                  then old(disks)[a.disk].(size := PercentExtended(old(disks)[a.disk].size, step))
                  else old(disks)[a.disk]
      ensures Separate(attachments) ==>
                && disks.Keys == old(disks).Keys
                && forall x | x in disks && (forall a | a in attachments :: a.disk != x) :: disks[x] == old(disks)[x]
    {
      var byVm := GroupByVm();
      order := VisitGroups(byVm, f);
      if Separate(attachments) {
        OrderLeavesNoTrace(old(Now()), attachments, f, order);
        forall a | a in attachments && a.disk in old(disks)
          ensures disks[a.disk] ==
                  if (a.host == "" || a.host == nodeId) && a.vm !in f.stats && a.disk !in f.extend
                     && Low(old(Now()), a)
                  then old(disks)[a.disk].(size := PercentExtended(old(disks)[a.disk].size, step))
                  else old(disks)[a.disk]
        {
          DiskAfter(old(Now()), Now(), f, attachments, a);
        }
      }
    }

    /** A thin disk whose VM's statistics show its device with too little free. */
    ghost predicate Low(p: Pool, a: AttachmentRecord) {
      && a.disk in p.disks && p.disks[a.disk].mode == Thin
      && a.vm in p.stats
      && exists i :: LastOf(p.stats[a.vm], a.target, i)
                     && BelowThreshold(p.stats[a.vm][i].physical, p.stats[a.vm][i].allocation, threshold)
    }

    /** What one disk is after a pass. */
    lemma DiskAfter(p0: Pool, p: Pool, f: Faults, atts: seq<AttachmentRecord>, a: AttachmentRecord)
      requires Separate(atts) && a in atts && a.disk in p0.disks
      requires AfterHits(p, p0, Hit(p0, f, atts), step, f.resize)
      ensures p.disks[a.disk] == if a in Hit(p0, f, atts) then Extended(p0.disks[a.disk], step) else p0.disks[a.disk]
      ensures a in Hit(p0, f, atts) <==>
              (a.host == "" || a.host == nodeId) && a.vm !in f.stats && a.disk !in f.extend && Low(p0, a)
    {
      if a !in Hit(p0, f, atts) {
        forall b | b in Hit(p0, f, atts) ensures b.disk != a.disk { AttachedOnce(atts, a, b); }
      }
      LowIff(p0, a);
    }

    lemma LowIff(p: Pool, a: AttachmentRecord)
      ensures Low(p, a) <==> Wants(p.disks, StatsOf(p.stats, a.vm), a)
    {
      var entries := StatsOf(p.stats, a.vm);
      NamedIff(entries, a.target);
      if Named(entries, a.target).Some? {
        var last := LastIndex(entries, a.target);
      }
    }

    // ----- every disk attached at most once

    predicate Extends(p: Pool, f: Faults, a: AttachmentRecord) {
      Hosted(a) && a.vm !in f.stats && Wants(p.disks, StatsOf(p.stats, a.vm), a) && a.disk !in f.extend
    }

    /** The attachments whose disk a pass extends, read off the state before it. */
    ghost function Hit(p: Pool, f: Faults, atts: seq<AttachmentRecord>): set<AttachmentRecord> {
      set a | a in atts && Extends(p, f, a)
    }

    lemma HitsOf(p0: Pool, f: Faults, atts: seq<AttachmentRecord>, mine: seq<AttachmentRecord>, vm: string,
                 hits: set<AttachmentRecord>, i: nat)
      requires mine == Mine(atts, vm) && i < |mine|
      ensures mine[i] in atts && Hosted(mine[i]) && mine[i].vm == vm
      ensures mine[..i + 1] == mine[..i] + [mine[i]]
      ensures hits + Hit(p0, f, mine[..i + 1]) ==
              hits + Hit(p0, f, mine[..i]) + if Extends(p0, f, mine[i]) then {mine[i]} else {}
    {
      assert mine[i] in mine;
      MineIs(atts, vm);
      assert mine[..i + 1] == mine[..i] + [mine[i]];
    }

    /** One more attachment of a VM: its decision is the one the first state gives. */
    lemma OneHits(p0: Pool, p: Pool, atts: seq<AttachmentRecord>, f: Faults, hits: set<AttachmentRecord>,
                  a: AttachmentRecord, hits': set<AttachmentRecord>)
      requires Separate(atts) && a in atts && a !in hits && Hosted(a) && a.vm !in f.stats
      requires forall b | b in hits :: b in atts && Extends(p0, f, b)
      requires AfterHits(p, p0, hits, step, f.resize)
      requires hits' == if Extends(p0, f, a) then hits + {a} else hits
      ensures AfterHits(VisitOne(p, atts, StatsOf(p0.stats, a.vm), f, a), p0, hits', step, f.resize)
    {
      if a.disk in p0.disks {
        HitOne(p, p0, hits, step, f.resize, atts, a);
      }
    }

    lemma {:induction false} GroupHits(p0: Pool, p: Pool, atts: seq<AttachmentRecord>, f: Faults,
                                       hits: set<AttachmentRecord>, vm: string, i: nat)
      requires Separate(atts) && vm !in f.stats && i <= |Mine(atts, vm)|
      requires forall b | b in hits :: b in atts && Extends(p0, f, b) && b.vm != vm
      requires AfterHits(p, p0, hits, step, f.resize)
      ensures var mine := Mine(atts, vm)[..i];
              AfterHits(VisitGroup(p, atts, StatsOf(p0.stats, vm), f, mine), p0,
                        hits + Hit(p0, f, mine), step, f.resize)
    {
      var mine := Mine(atts, vm);
      if i == 0 {
        assert hits + Hit(p0, f, mine[..0]) == hits;
      } else {
        GroupHits(p0, p, atts, f, hits, vm, i - 1);
        var p' := VisitGroup(p, atts, StatsOf(p0.stats, vm), f, mine[..i - 1]);
        assert mine[..i][..i - 1] == mine[..i - 1];
        NextHits(p0, p', atts, f, hits, vm, i - 1);
      }
    }

    lemma HitsSoFar(p0: Pool, atts: seq<AttachmentRecord>, f: Faults, hits: set<AttachmentRecord>, vm: string, i: nat)
      requires Separate(atts) && i < |Mine(atts, vm)|
      requires forall b | b in hits :: b in atts && Extends(p0, f, b) && b.vm != vm
      ensures forall b | b in hits + Hit(p0, f, Mine(atts, vm)[..i]) :: b in atts && Extends(p0, f, b)
      ensures Mine(atts, vm)[i] !in hits + Hit(p0, f, Mine(atts, vm)[..i])
    {
      var mine := Mine(atts, vm);
      MineOnce(atts, vm, i);
      MineIs(atts, vm);
      assert mine[i] in mine;
      assert forall b | b in mine[..i] :: b in mine;
    }

    lemma NextHits(p0: Pool, p: Pool, atts: seq<AttachmentRecord>, f: Faults, hits: set<AttachmentRecord>,
                   vm: string, i: nat)
      requires Separate(atts) && vm !in f.stats && i < |Mine(atts, vm)|
      requires forall b | b in hits :: b in atts && Extends(p0, f, b) && b.vm != vm
      requires AfterHits(p, p0, hits + Hit(p0, f, Mine(atts, vm)[..i]), step, f.resize)
      ensures AfterHits(VisitOne(p, atts, StatsOf(p0.stats, vm), f, Mine(atts, vm)[i]), p0,
                        hits + Hit(p0, f, Mine(atts, vm)[..i + 1]), step, f.resize)
    {
      var mine := Mine(atts, vm);
      HitsOf(p0, f, atts, mine, vm, hits, i);
      HitsSoFar(p0, atts, f, hits, vm, i);
      var before, after := hits + Hit(p0, f, mine[..i]), hits + Hit(p0, f, mine[..i + 1]);
      assert after == if Extends(p0, f, mine[i]) then before + {mine[i]} else before;
      OneHits(p0, p, atts, f, before, mine[i], after);
    }

    /** An attachment is listed once. */
    lemma {:induction false} MineOnce(atts: seq<AttachmentRecord>, vm: string, i: nat)
      requires Separate(atts) && i < |Mine(atts, vm)|
      ensures Mine(atts, vm)[i] !in Mine(atts, vm)[..i]
    {
      var last := |atts| - 1;
      var before := Mine(atts[..last], vm);
      if i < |before| {
        MineOnce(atts[..last], vm, i);
        assert Mine(atts, vm)[..i] == before[..i];
      } else {
        assert Mine(atts, vm)[..i] == before;
        MineIs(atts[..last], vm);
        assert forall b | b in atts[..last] :: b.disk != atts[last].disk;
      }
    }

    lemma VmHits(p0: Pool, p: Pool, atts: seq<AttachmentRecord>, f: Faults, hits: set<AttachmentRecord>, vm: string)
      requires Separate(atts)
      requires forall b | b in hits :: b in atts && Extends(p0, f, b) && b.vm != vm
      requires AfterHits(p, p0, hits, step, f.resize)
      ensures AfterHits(VisitVm(p, atts, f, vm), p0, hits + Hit(p0, f, Mine(atts, vm)), step, f.resize)
    {
      MineIs(atts, vm);
      if vm in f.stats {
        assert hits + Hit(p0, f, Mine(atts, vm)) == hits;
      } else {
        UnhitVm(p, p0, hits, step, f.resize, vm);
        GroupHits(p0, p, atts, f, hits, vm, |Mine(atts, vm)|);
        assert Mine(atts, vm)[..|Mine(atts, vm)|] == Mine(atts, vm);
      }
    }

    /** The hits among the VMs visited. */
    ghost function HitIn(p: Pool, f: Faults, atts: seq<AttachmentRecord>, order: seq<string>): set<AttachmentRecord> {
      set a | a in Hit(p, f, atts) && a.vm in order
    }

    lemma {:induction false} OrderHits(p0: Pool, atts: seq<AttachmentRecord>, f: Faults, order: seq<string>)
      requires Separate(atts) && forall i, j | 0 <= i < j < |order| :: order[i] != order[j]
      ensures AfterHits(VisitAll(p0, atts, f, order), p0, HitIn(p0, f, atts, order), step, f.resize)
      decreases |order|
    {
      if order == [] {
        assert HitIn(p0, f, atts, order) == {};
        NothingHit(p0, step, f.resize);
      } else {
        var last := |order| - 1;
        var before, vm := order[..last], order[last];
        OrderHits(p0, atts, f, before);
        var hits := HitIn(p0, f, atts, before);
        assert order == before + [vm] && vm !in before;
        VmHits(p0, VisitAll(p0, atts, f, before), atts, f, hits, vm);
        MineIs(atts, vm);
        assert hits + Hit(p0, f, Mine(atts, vm)) == HitIn(p0, f, atts, order);
      }
    }

    /** If every disk is attached at most once, any visiting order extends the same disks. */
    lemma OrderLeavesNoTrace(p0: Pool, atts: seq<AttachmentRecord>, f: Faults, order: seq<string>)
      requires Separate(atts) && Visits(order, atts)
      ensures AfterHits(VisitAll(p0, atts, f, order), p0, Hit(p0, f, atts), step, f.resize)
    {
      OrderHits(p0, atts, f, order);
      forall a | a in Hit(p0, f, atts) ensures a.vm in order { MineIs(atts, a.vm); }
      assert HitIn(p0, f, atts, order) == Hit(p0, f, atts);
    }

    /** Two passes over one state that visit the VMs in different orders end in the same state. */
    lemma OrdersAgree(p0: Pool, atts: seq<AttachmentRecord>, f: Faults, order: seq<string>, order': seq<string>)
      requires Separate(atts) && Visits(order, atts) && Visits(order', atts)
      ensures VisitAll(p0, atts, f, order) == VisitAll(p0, atts, f, order')
    {
      OrderLeavesNoTrace(p0, atts, f, order);
      OrderLeavesNoTrace(p0, atts, f, order');
      AfterHitsUnique(VisitAll(p0, atts, f, order), VisitAll(p0, atts, f, order'), p0, Hit(p0, f, atts), step,
                      f.resize);
    }

    // ----- a disk attached to two VMs

    /** Visiting a VM with one tracked attachment is one tick of its disk, and every
        attachment of the disk shows the result. */
    lemma VisitShared(p: Pool, a: AttachmentRecord, b: AttachmentRecord, atts: seq<AttachmentRecord>)
      requires (atts == [a, b] || atts == [b, a]) && a.vm != b.vm && a.disk == b.disk
      requires Tracked(p, a) && Tracked(p, b)
      ensures var p' := VisitVm(p, atts, NO_FAULTS, a.vm);
              && Tracked(p', a) && Tracked(p', b)
              && AllocationOf(p'.stats, a) == AllocationOf(p.stats, a)
              && AllocationOf(p'.stats, b) == AllocationOf(p.stats, b)
              && p'.disks[a.disk].size == TickSize(p.disks[a.disk].size, AllocationOf(p.stats, a), threshold, step)
    {
      MineOfTwo(a, b, atts);
      var entries := StatsOf(p.stats, a.vm);
      assert [a][..0] == [];
      assert VisitGroup(p, atts, entries, NO_FAULTS, [a]) == VisitOne(p, atts, entries, NO_FAULTS, a);
      if Wants(p.disks, entries, a) { ResizeBoth(p, a, b, atts, PercentExtended(p.disks[a.disk].size, step)); }
    }

    lemma MineOfTwo(a: AttachmentRecord, b: AttachmentRecord, atts: seq<AttachmentRecord>)
      requires (atts == [a, b] || atts == [b, a]) && a.vm != b.vm && Hosted(a)
      ensures Mine(atts, a.vm) == [a]
    {
      assert atts[..1] == [atts[0]] && [atts[0]][..0] == [];
      assert Mine([atts[0]], a.vm) == if atts[0] == a then [a] else [];
    }

    lemma ResizeBoth(p: Pool, a: AttachmentRecord, b: AttachmentRecord, atts: seq<AttachmentRecord>, size: nat)
      requires (atts == [a, b] || atts == [b, a]) && a.vm != b.vm && a.disk == b.disk
      requires Tracked(p, a) && Tracked(p, b)
      ensures var ss := ResizeAll(p.stats, atts, a.disk, size, {});
              forall c | c == a || c == b ::
                && Named(StatsOf(ss, c.vm), c.target).Some?
                && Named(StatsOf(ss, c.vm), c.target).value.physical == size
                && AllocationOf(ss, c) == AllocationOf(p.stats, c)
    {
      assert atts[..1] == [atts[0]] && [atts[0]][..0] == [];
      var one := ResizeDevice(p.stats, atts[0], size, {});
      assert ResizeAll(p.stats, [atts[0]], a.disk, size, {}) == one;
      assert ResizeAll(p.stats, atts, a.disk, size, {}) == ResizeDevice(one, atts[1], size, {});
      ResizedShows(p.stats, a, size);
      ResizedShows(p.stats, b, size);
    }

    /** For a disk attached to two VMs, the two orders tick it on the two allocations in turn. */
    lemma SharedDiskOrders(p: Pool, a: AttachmentRecord, b: AttachmentRecord)
      requires a.vm != b.vm && a.disk == b.disk && Tracked(p, a) && Tracked(p, b)
      ensures Visits([a.vm, b.vm], [a, b]) && Visits([b.vm, a.vm], [a, b])
      ensures var size, u, v := p.disks[a.disk].size, AllocationOf(p.stats, a), AllocationOf(p.stats, b);
              && SizeIn(VisitAll(p, [a, b], NO_FAULTS, [a.vm, b.vm]), a.disk)
                 == TickSize(TickSize(size, u, threshold, step), v, threshold, step)
              && SizeIn(VisitAll(p, [a, b], NO_FAULTS, [b.vm, a.vm]), a.disk)
                 == TickSize(TickSize(size, v, threshold, step), u, threshold, step)
    {
      TwoVisits(p, a, b, [a, b]);
      TwoVisits(p, b, a, [a, b]);
      forall vm ensures vm in [a.vm, b.vm] <==> Mine([a, b], vm) != [] { MineIs([a, b], vm); MineListed([a, b], vm); }
      assert forall vm :: vm in [b.vm, a.vm] <==> vm in [a.vm, b.vm];
    }

    lemma MineListed(atts: seq<AttachmentRecord>, vm: string)
      ensures Mine(atts, vm) != [] <==> exists a :: a in atts && Hosted(a) && a.vm == vm
    {
      MineIs(atts, vm);
      if Mine(atts, vm) != [] { assert Mine(atts, vm)[0] in Mine(atts, vm); }
    }

    lemma TwoVisits(p: Pool, a: AttachmentRecord, b: AttachmentRecord, atts: seq<AttachmentRecord>)
      requires (atts == [a, b] || atts == [b, a]) && a.vm != b.vm && a.disk == b.disk
      requires Tracked(p, a) && Tracked(p, b)
      ensures SizeIn(VisitAll(p, atts, NO_FAULTS, [a.vm, b.vm]), a.disk) ==
              TickSize(TickSize(p.disks[a.disk].size, AllocationOf(p.stats, a), threshold, step),
                       AllocationOf(p.stats, b), threshold, step)
    {
      var order := [a.vm, b.vm];
      assert order[..1] == [a.vm] && [a.vm][..0] == [];
      VisitShared(p, a, b, atts);
      var p1 := VisitVm(p, atts, NO_FAULTS, a.vm);
      assert VisitAll(p, atts, NO_FAULTS, [a.vm]) == p1;
      VisitShared(p1, b, a, atts);
    }

    /**
      For a disk attached to two VMs, the visiting order matters exactly when the
      first extend satisfies the smaller of the two allocations and not the larger.
     */
    lemma SharedDiskOrderMattersIff(p: Pool, a: AttachmentRecord, b: AttachmentRecord)
      requires a.vm != b.vm && a.disk == b.disk && Tracked(p, a) && Tracked(p, b)
      requires AllocationOf(p.stats, a) <= AllocationOf(p.stats, b) && p.disks[a.disk].size * step >= 100
      requires Parameters(AllocationOf(p.stats, a), threshold, step)
      requires Parameters(AllocationOf(p.stats, b), threshold, step)
      ensures var u, v := AllocationOf(p.stats, a), AllocationOf(p.stats, b);
              var size := p.disks[a.disk].size;
              var grown := TickSize(size, v, threshold, step);
              SizeIn(VisitAll(p, [a, b], NO_FAULTS, [a.vm, b.vm]), a.disk)
              != SizeIn(VisitAll(p, [a, b], NO_FAULTS, [b.vm, a.vm]), a.disk)
              <==> BelowThreshold(size, u, threshold) && !BelowThreshold(grown, u, threshold)
                   && BelowThreshold(grown, v, threshold)
    {
      SharedDiskOrders(p, a, b);
      SharedDiskOrderIff(p.disks[a.disk].size, AllocationOf(p.stats, a), AllocationOf(p.stats, b), threshold, step);
    }

    // ----- many passes

    /** A thin disk of this node whose device shows the size its record states. */
    predicate Tracked(p: Pool, a: AttachmentRecord) {
      && Hosted(a) && a.disk in p.disks && p.disks[a.disk].mode == Thin
      && Named(StatsOf(p.stats, a.vm), a.target).Some?
      && Named(StatsOf(p.stats, a.vm), a.target).value.physical == p.disks[a.disk].size
    }

    /** A pass without faults takes every tracked disk one step of the feedback loop. */
    lemma TickTracked(p: Pool, p': Pool, atts: seq<AttachmentRecord>, a: AttachmentRecord)
      requires Separate(atts) && a in atts && Tracked(p, a)
      requires AfterHits(p', p, Hit(p, NO_FAULTS, atts), step, {})
      ensures Tracked(p', a) && AllocationOf(p'.stats, a) == AllocationOf(p.stats, a)
      ensures p'.disks[a.disk].size == TickSize(p.disks[a.disk].size, AllocationOf(p.stats, a), threshold, step)
    {
      var hits := Hit(p, NO_FAULTS, atts);
      var ss, ss' := p.stats, p'.stats;
      var i := NamedAt(ss[a.vm], ss'[a.vm], a.target) by {
        forall j | 0 <= j < |ss[a.vm]| ensures ss'[a.vm][j].name == ss[a.vm][j].name {
          assert StatAfter(ss'[a.vm][j], ss[a.vm][j], a.vm, p.disks, hits, step, {});
        }
      }
      forall b | b in hits && b != a ensures b.disk != a.disk && (b.vm != a.vm || b.target != a.target) {
        AttachedOnce(atts, a, b);
      }
      assert StatAfter(ss'[a.vm][i], ss[a.vm][i], a.vm, p.disks, hits, step, {});
      assert a in hits <==> BelowThreshold(p.disks[a.disk].size, AllocationOf(ss, a), threshold);
    }

    /** `n` passes took a tracked disk `n` steps of the feedback loop, and it is tracked still. */
    ghost predicate Advanced(p0: Pool, p: Pool, a: AttachmentRecord, n: nat) {
      && Tracked(p0, a) && Tracked(p, a) && AllocationOf(p.stats, a) == AllocationOf(p0.stats, a)
      && p.disks[a.disk].size == SizeAfter(p0.disks[a.disk].size, AllocationOf(p0.stats, a), threshold, step, n)
    }

    /**
      Passes without faults over a fixed allocation, every disk attached at most
      once: every tracked disk goes through the sizes of the feedback loop, so after
      enough passes it has the threshold free, and it never ends above (100 + step)
      percent of what it needed.
     */
    method Ticks(n: nat)
      modifies this`disks, this`stats
      ensures Separate(attachments) ==> forall a | a in attachments && Tracked(old(Now()), a) ::
                && Advanced(old(Now()), Now(), a, n)
                && Settled(old(disks)[a.disk].size, disks[a.disk].size, AllocationOf(stats, a), threshold, step, n)
    {
      ghost var p0 := Now();
      for k := 0 to n
        invariant Separate(attachments) ==>
                    forall a | a in attachments && Tracked(p0, a) :: Advanced(p0, Now(), a, k)
      {
        ghost var p := Now();
        ghost var order := Tick(NO_FAULTS);
        if Separate(attachments) {
          forall a | a in attachments && Tracked(p0, a) ensures Advanced(p0, Now(), a, k + 1) {
            assert Advanced(p0, p, a, k);
            TickTracked(p, Now(), attachments, a);
          }
        }
      }
      if Separate(attachments) {
        forall a | a in attachments && Tracked(p0, a)
          ensures Settled(p0.disks[a.disk].size, disks[a.disk].size, AllocationOf(stats, a), threshold, step, n)
        {
          assert Advanced(p0, Now(), a, n);
          SettledAfter(p0.disks[a.disk].size, AllocationOf(stats, a), threshold, step, n);
        }
      }
    }
  }

  /** The elements of a set, each once. */
  ghost predicate Order(order: seq<string>, vms: set<string>) {
    && (forall i, j | 0 <= i < j < |order| :: order[i] != order[j])
    && (forall vm :: vm in order <==> vm in vms)
  }

  lemma OrderNext(order: seq<string>, vms: set<string>, vm: string)
    requires Order(order, vms) && vm !in vms
    ensures Order(order + [vm], vms + {vm}) && (order + [vm])[..|order|] == order
  {
    assert forall i | 0 <= i < |order| :: order[i] in order;
  }

  /** A manager is made for a threshold in (0, 100), a positive step and a node id, and for nothing else. */
  method New(nodeId: string, threshold: int, step: int) returns (m: Option<Manager>)
    ensures m.Some? <==> 0 < threshold < 100 && step > 0 && nodeId != ""
    ensures m.Some? ==> m.value.nodeId == nodeId && m.value.threshold == threshold && m.value.step == step
  {
    if threshold <= 0 || threshold >= 100 || step <= 0 || nodeId == "" {
      return None;
    }
    var manager := new Manager(nodeId, threshold, step);
    m := Some(manager);
  }

  /** One disk of 1000 bytes attached to two VMs that use 810 and 900 of them. */
  const FIRST: AttachmentRecord := AttachmentRecord("d", "u", "", "vdb")
  const SECOND: AttachmentRecord := AttachmentRecord("d", "w", "", "vdb")
  const SHARED: Pool :=
    Pool(map["d" := DiskRecord("d", "v", Thin, 1000, 9000, "", "")],
         map["u" := [BlockStats(0, "vdb", "", 810, 1000, 1000)], "w" := [BlockStats(0, "vdb", "", 900, 1000, 1000)]])

  /** The order does matter: with threshold 20 and step 10 one order leaves 1210 bytes, the other 1100. */
  lemma VisitingOrderMatters(m: Manager)
    requires m.threshold == 20 && m.step == 10
    ensures m.Visits(["u", "w"], [FIRST, SECOND]) && m.Visits(["w", "u"], [FIRST, SECOND])
    ensures SizeIn(m.VisitAll(SHARED, [FIRST, SECOND], NO_FAULTS, ["u", "w"]), "d") == 1210
    ensures SizeIn(m.VisitAll(SHARED, [FIRST, SECOND], NO_FAULTS, ["w", "u"]), "d") == 1100
  {
    m.SharedDiskOrders(SHARED, FIRST, SECOND);
    OrderExample();
  }

  lemma OrderExample()
    ensures TickSize(TickSize(1000, 810, 20, 10), 900, 20, 10) == 1210
    ensures TickSize(TickSize(1000, 900, 20, 10), 810, 20, 10) == 1100
  {
  }

  /** Within the parameter bounds: enough passes reach the threshold, and any
      growth ends below (100 + step) percent of the need. */
  predicate Settled(size: nat, size': nat, allocation: nat, threshold: nat, step: nat, n: nat) {
    Parameters(allocation, threshold, step) && size * step >= 100 ==>
      && (n >= TicksNeeded(size, allocation, threshold, step) ==> !BelowThreshold(size', allocation, threshold))
      && (size' != size ==> size' * (100 - threshold) < allocation * (100 + step))
  }

  lemma SettledAfter(size: nat, allocation: nat, threshold: nat, step: nat, n: nat)
    ensures Settled(size, SizeAfter(size, allocation, threshold, step, n), allocation, threshold, step, n)
  {
    if Parameters(allocation, threshold, step) && size * step >= 100 {
      if n >= TicksNeeded(size, allocation, threshold, step) {
        Converges(size, allocation, threshold, step, n);
      }
      if SizeAfter(size, allocation, threshold, step, n) != size {
        Overshoot(size, allocation, threshold, step, n);
      }
    }
  }

  // ----- the state after a pass

  /** A disk is attached at most once, and a VM has one device per target. */
  predicate Separate(atts: seq<AttachmentRecord>) {
    && (forall i, j | 0 <= i < j < |atts| :: atts[i].disk != atts[j].disk)
    && (forall i, j | 0 <= i < j < |atts| :: atts[i].vm != atts[j].vm || atts[i].target != atts[j].target)
  }

  lemma AttachedOnce(atts: seq<AttachmentRecord>, a: AttachmentRecord, b: AttachmentRecord)
    requires Separate(atts) && a in atts && b in atts && a != b
    ensures a.disk != b.disk && (a.vm != b.vm || a.target != b.target)
  {
    var i :| 0 <= i < |atts| && atts[i] == a;
    var j :| 0 <= j < |atts| && atts[j] == b;
    if i < j {
      assert atts[i].disk != atts[j].disk;
    } else {
      assert atts[j].disk != atts[i].disk;
    }
  }

  /** One device's entry after a pass that extended the disks of `hits`. */
  ghost predicate StatAfter(s': BlockStats, s: BlockStats, vm: string, d0: DiskMap,
                            hits: set<AttachmentRecord>, step: nat, deaf: set<(string, string)>) {
    && (forall a | a in hits && a.vm == vm && a.target == s.name && a.disk in d0 ::
          var size := PercentExtended(d0[a.disk].size, step);
          s' == if (vm, s.name) in deaf then s else s.(physical := size, capacity := size))
    && ((forall a | a in hits :: a.vm != vm || a.target != s.name) ==> s' == s)
  }

  /** The disks of `hits` have grown and their devices were resized; nothing else changed. */
  ghost predicate AfterHits(p: Pool, p0: Pool, hits: set<AttachmentRecord>, step: nat, deaf: set<(string, string)>) {
    && p.disks.Keys == p0.disks.Keys && p.stats.Keys == p0.stats.Keys
    && (forall a | a in hits && a.disk in p0.disks :: p.disks[a.disk] == Extended(p0.disks[a.disk], step))
    && (forall x | x in p0.disks && (forall a | a in hits :: a.disk != x) :: p.disks[x] == p0.disks[x])
    && (forall vm | vm in p0.stats :: |p.stats[vm]| == |p0.stats[vm]|)
    && (forall vm, i | vm in p0.stats && 0 <= i < |p0.stats[vm]| ::
          StatAfter(p.stats[vm][i], p0.stats[vm][i], vm, p0.disks, hits, step, deaf))
  }

  /** The state after a pass is determined by the state before it. */
  lemma AfterHitsUnique(p1: Pool, p2: Pool, p0: Pool, hits: set<AttachmentRecord>, step: nat,
                        deaf: set<(string, string)>)
    requires forall a | a in hits :: a.disk in p0.disks
    requires AfterHits(p1, p0, hits, step, deaf) && AfterHits(p2, p0, hits, step, deaf)
    ensures p1 == p2
  {
    forall x | x in p0.disks ensures p1.disks[x] == p2.disks[x] {
      if a :| a in hits && a.disk == x {
        assert p1.disks[a.disk] == Extended(p0.disks[a.disk], step);
      }
    }
    forall vm | vm in p0.stats ensures p1.stats[vm] == p2.stats[vm] {
      forall i | 0 <= i < |p0.stats[vm]| ensures p1.stats[vm][i] == p2.stats[vm][i] {
        assert StatAfter(p1.stats[vm][i], p0.stats[vm][i], vm, p0.disks, hits, step, deaf);
        assert StatAfter(p2.stats[vm][i], p0.stats[vm][i], vm, p0.disks, hits, step, deaf);
      }
    }
  }

  lemma {:induction false} ResizeNone(ss: StatsMap, atts: seq<AttachmentRecord>, name: string, size: nat,
                                      deaf: set<(string, string)>)
    requires forall b | b in atts :: b.disk != name
    ensures ResizeAll(ss, atts, name, size, deaf) == ss
    decreases |atts|
  {
    if atts != [] {
      var last := |atts| - 1;
      assert atts[last] in atts;
      ResizeNone(ss, atts[..last], name, size, deaf);
    }
  }

  /** With one attachment per disk, extending a disk resizes that attachment's device and nothing else. */
  lemma {:induction false} ResizeOne(ss: StatsMap, atts: seq<AttachmentRecord>, a: AttachmentRecord, size: nat,
                                     deaf: set<(string, string)>)
    requires Separate(atts) && a in atts
    ensures ResizeAll(ss, atts, a.disk, size, deaf) == ResizeDevice(ss, a, size, deaf)
    decreases |atts|
  {
    var last := |atts| - 1;
    if a == atts[last] {
      ResizeNone(ss, atts[..last], a.disk, size, deaf);
    } else {
      var i :| 0 <= i < |atts| && atts[i] == a;
      assert atts[..last][i] == a;
      ResizeOne(ss, atts[..last], a, size, deaf);
    }
  }

  /** Extending one more disk. */
  lemma HitOne(p: Pool, p0: Pool, hits: set<AttachmentRecord>, step: nat, deaf: set<(string, string)>,
               atts: seq<AttachmentRecord>, a: AttachmentRecord)
    requires Separate(atts) && a in atts && a !in hits && a.disk in p0.disks
    requires forall b | b in hits :: b in atts
    requires AfterHits(p, p0, hits, step, deaf)
    ensures p.disks[a.disk] == p0.disks[a.disk]
    ensures AfterHits(Pool(p.disks[a.disk := Extended(p.disks[a.disk], step)],
                           ResizeAll(p.stats, atts, a.disk, PercentExtended(p.disks[a.disk].size, step), deaf)),
                      p0, hits + {a}, step, deaf)
  {
    forall b | b in hits ensures b.disk != a.disk && (b.vm != a.vm || b.target != a.target) {
      AttachedOnce(atts, a, b);
    }
    assert p.disks[a.disk] == p0.disks[a.disk];
    var size := PercentExtended(p0.disks[a.disk].size, step);
    ResizeOne(p.stats, atts, a, size, deaf);
    var ss' := ResizeAll(p.stats, atts, a.disk, size, deaf);
    forall vm, i | vm in p0.stats && 0 <= i < |p0.stats[vm]|
      ensures StatAfter(ss'[vm][i], p0.stats[vm][i], vm, p0.disks, hits + {a}, step, deaf)
    {
      StatOne(p.stats, ss', p0, hits, step, deaf, a, vm, i);
    }
  }

  lemma StatOne(ss: StatsMap, ss': StatsMap, p0: Pool, hits: set<AttachmentRecord>, step: nat,
                deaf: set<(string, string)>, a: AttachmentRecord, vm: string, i: nat)
    requires ss.Keys == p0.stats.Keys && vm in p0.stats && a.disk in p0.disks
    requires forall v | v in p0.stats :: |ss[v]| == |p0.stats[v]|
    requires i < |p0.stats[vm]| && StatAfter(ss[vm][i], p0.stats[vm][i], vm, p0.disks, hits, step, deaf)
    requires forall b | b in hits :: b.vm != a.vm || b.target != a.target
    requires ss' == ResizeDevice(ss, a, PercentExtended(p0.disks[a.disk].size, step), deaf)
    ensures vm in ss' && |ss'[vm]| == |p0.stats[vm]|
    ensures StatAfter(ss'[vm][i], p0.stats[vm][i], vm, p0.disks, hits + {a}, step, deaf)
  {
    var st := p0.stats[vm][i];
    if a.vm == vm && a.target == st.name {
      assert forall b | b in hits :: b.vm != vm || b.target != st.name;
      assert ss[vm][i] == st;
    }
  }

  lemma NothingHit(p: Pool, step: nat, deaf: set<(string, string)>)
    ensures AfterHits(p, p, {}, step, deaf)
  {
  }

  /** A VM none of whose disks was extended still shows its first statistics. */
  lemma UnhitVm(p: Pool, p0: Pool, hits: set<AttachmentRecord>, step: nat, deaf: set<(string, string)>, vm: string)
    requires AfterHits(p, p0, hits, step, deaf)
    ensures (forall a | a in hits :: a.vm != vm) ==> StatsOf(p.stats, vm) == StatsOf(p0.stats, vm)
  {
    if vm in p0.stats && forall a | a in hits :: a.vm != vm {
      forall i | 0 <= i < |p0.stats[vm]| ensures p.stats[vm][i] == p0.stats[vm][i] {
        assert StatAfter(p.stats[vm][i], p0.stats[vm][i], vm, p0.disks, hits, step, deaf);
      }
    }
  }
}
