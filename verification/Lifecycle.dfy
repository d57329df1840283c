/**
  The disk service run sequentially on one node, with a fault at any external call.

  Every call into the lock, the catalog, LVM, qemu-img, dd and libvirt either
  takes full effect or fails with none.  Which calls fail is an arbitrary
  function of the kind of call and of how many calls were made before.
 */
module Lifecycle {
  import opened Records
  import opened Ordering
  import Stores

  datatype Call =
    | TakeLockCall | GetDiskCall | InsertDiskCall | UpdateDiskCall | DeleteDiskCall
    | ListCall | GetAttachmentCall | InsertAttachmentCall | DeleteAttachmentCall
    | LvCreateCall | LvRemoveCall | LvExtendCall | UndoLvCreateCall
    | ImageCall | DdCall | RemoveFileCall
    | DomainCall | PlugCall | UnplugCall | UndoPlugCall | ResizeCall

  /** A device libvirt has plugged into a VM. */
  datatype Device = Device(source: string, format: string)

  function DeviceFor(r: DiskRecord): Device {
    Device(r.devicePath, if r.mode == Thin then "qcow2" else "raw")
  }

  /** A guest told about a new size. */
  datatype Resize = Resize(vm: string, target: string, size: nat)

  /** The place an attachment takes in its VM. */
  function Slot(a: AttachmentRecord): (string, string) {
    (a.vm, a.target)
  }

  type DiskMap = map<string, DiskRecord>
  type AttMap = map<(string, string), AttachmentRecord>
  type DevMap = map<(string, string), Device>

  // ----- invariants of the three systems

  /** Attachments are filed under their disk and VM, and name existing disks. */
  ghost predicate Referential(disks: DiskMap, atts: AttMap) {
    && (forall x | x in disks ::
          x != "" && NoSlash(x) && disks[x].name == x && disks[x].devicePath == DevicePath(disks[x].vg, x))
    && (forall k | k in atts :: k.0 in disks && k.1 != "" && atts[k].disk == k.0 && atts[k].vm == k.1)
  }

  ghost predicate Taken(atts: AttMap, slot: (string, string)) {
    exists k :: k in atts && Slot(atts[k]) == slot
  }

  /** Attachments and plugged devices correspond one to one, with matching path and format. */
  ghost predicate Synced(disks: DiskMap, atts: AttMap, devs: DevMap) {
    && (forall k | k in atts ::
          Slot(atts[k]) in devs && k.0 in disks && devs[Slot(atts[k])] == DeviceFor(disks[k.0]))
    && (forall d | d in devs :: Taken(atts, d))
    && (forall k, l | k in atts && l in atts && Slot(atts[k]) == Slot(atts[l]) :: k == l)
  }

  lemma AttachKeepsSync(disks: DiskMap, atts: AttMap, devs: DevMap, a: AttachmentRecord)
    requires Referential(disks, atts) && Synced(disks, atts, devs)
    requires a.disk in disks && (a.disk, a.vm) !in atts && Slot(a) !in devs
    ensures Synced(disks, atts[(a.disk, a.vm) := a], devs[Slot(a) := DeviceFor(disks[a.disk])])
  {
    var atts' := atts[(a.disk, a.vm) := a];
    forall d | d == Slot(a) || d in devs ensures Taken(atts', d) { AttachTakes(atts, devs, a, d); }
    forall k | k in atts ensures Slot(atts[k]) != Slot(a) {
      assert Slot(atts[k]) in devs;
    }
  }

  lemma AttachTakes(atts: AttMap, devs: DevMap, a: AttachmentRecord, d: (string, string))
    requires forall e | e in devs :: Taken(atts, e)
    requires (a.disk, a.vm) !in atts && (d == Slot(a) || d in devs)
    ensures Taken(atts[(a.disk, a.vm) := a], d)
  {
    var atts' := atts[(a.disk, a.vm) := a];
    if d == Slot(a) {
      assert Slot(atts'[(a.disk, a.vm)]) == d;
    } else {
      var k :| k in atts && Slot(atts[k]) == d;
      assert k in atts' && Slot(atts'[k]) == d;
    }
  }

  /** Every record has its LV, and every thin one the image header in it. */
  ghost predicate Backed(disks: DiskMap, lvs: map<Lv, nat>, headers: set<Lv>) {
    forall x | x in disks :: LvOf(disks[x]) in lvs && (disks[x].mode == Thin ==> LvOf(disks[x]) in headers)
  }

  // ----- listings and targets

  /** The attachments of one disk, in the order of their VMs. */
  ghost predicate AttachmentsOf(list: seq<AttachmentRecord>, atts: AttMap, disk: string) {
    && Sorted(list, AttLess)
    && forall a :: a in list <==> (a.disk, a.vm) in atts && atts[(a.disk, a.vm)] == a && a.disk == disk
  }

  ghost predicate Filed(atts: AttMap) {
    forall k | k in atts :: atts[k].disk == k.0 && atts[k].vm == k.1
  }

  ghost function Listing(atts: AttMap, disk: string): (list: seq<AttachmentRecord>)
    requires Filed(atts)
    ensures AttachmentsOf(list, atts, disk)
    decreases |atts|
  {
    if atts == map[] then []
    else
      var k :| k in atts;
      assert (atts - {k}).Keys == atts.Keys - {k};
      var rest := Listing(atts - {k}, disk);
      if k.0 != disk then rest
      else ListingGrows(rest, atts, k); Ordering.Insert(atts[k], rest, AttLess)
  }

  lemma ListingGrows(rest: seq<AttachmentRecord>, atts: AttMap, k: (string, string))
    requires Filed(atts) && k in atts && AttachmentsOf(rest, atts - {k}, k.0)
    ensures AttachmentsOf(Ordering.Insert(atts[k], rest, AttLess), atts, k.0)
  {
    AttOrder();
    InsertSorts(atts[k], rest, AttLess);
  }

  lemma ListingExists(atts: AttMap, disk: string) returns (list: seq<AttachmentRecord>)
    requires Filed(atts)
    ensures AttachmentsOf(list, atts, disk)
  {
    list := Listing(atts, disk);
  }

  lemma OnlyListing(list: seq<AttachmentRecord>, atts: AttMap, disk: string)
    requires AttachmentsOf(list, atts, disk)
    ensures forall other | AttachmentsOf(other, atts, disk) :: other == list
  {
    AttOrder();
    forall other | AttachmentsOf(other, atts, disk) ensures other == list {
      SortedUnique(other, list, AttLess);
    }
  }

  /** `lvextend` takes the request for this disk's LV and leaves it `got` bytes. */
  predicate Growable(disks: DiskMap, lvs: map<Lv, nat>, name: string, amount: Amount, got: nat) {
    name in disks && LvOf(disks[name]) in lvs && LvExtends(lvs[LvOf(disks[name])], amount, got)
  }

  /** The disk's LV has grown to `got` bytes and no other LV has changed. */
  predicate GrownLv(disks: DiskMap, lvs: map<Lv, nat>, lvs': map<Lv, nat>, name: string, amount: Amount, got: nat) {
    Growable(disks, lvs, name, amount, got) && lvs' == lvs[LvOf(disks[name]) := got]
  }

  /** The notices that tell the guests of a list of attachments. */
  function Notices(list: seq<AttachmentRecord>, size: nat): seq<Resize> {
    if list == [] then []
    else
      var last := |list| - 1;
      Notices(list[..last], size) + [Resize(list[last].vm, list[last].target, size)]
  }

  lemma {:induction false} NoticeAt(list: seq<AttachmentRecord>, size: nat, i: nat)
    ensures |Notices(list, size)| == |list|
    ensures i < |list| ==> Notices(list, size)[i] == Resize(list[i].vm, list[i].target, size)
  {
    if list != [] { NoticeAt(list[..|list| - 1], size, i); }
  }

  function Keys(list: seq<AttachmentRecord>): set<(string, string)> {
    set a | a in list :: (a.disk, a.vm)
  }

  lemma LastIsNew(list: seq<AttachmentRecord>)
    requires Sorted(list, AttLess) && list != []
    ensures (list[|list| - 1].disk, list[|list| - 1].vm) !in Keys(list[..|list| - 1])
  {
    var last := |list| - 1;
    forall i | 0 <= i < last ensures (list[i].disk, list[i].vm) != (list[last].disk, list[last].vm) {
      assert AttLess(list[i], list[last]);
      LessIrreflexive(list[i].disk);
      LessIrreflexive(list[i].vm);
    }
  }

  /** A listing holds each attachment once. */
  lemma {:induction false} ListingSize(list: seq<AttachmentRecord>)
    requires Sorted(list, AttLess)
    ensures |Keys(list)| == |list|
  {
    if list != [] {
      var last := |list| - 1;
      ListingSize(list[..last]);
      LastIsNew(list);
      assert list == list[..last] + [list[last]];
      assert Keys(list) == Keys(list[..last]) + {(list[last].disk, list[last].vm)};
    }
  }

  /** These notices tell every guest that has the disk, each once and in the order of
      their names, and nobody else. */
  ghost predicate TellsAll(notices: seq<Resize>, atts: AttMap, disk: string, size: nat) {
    && (forall k | k in atts && k.0 == disk ::
          exists i :: 0 <= i < |notices| && notices[i] == Resize(k.1, atts[k].target, size))
    && |notices| == |set k | k in atts && k.0 == disk|
    && (forall i | 0 <= i < |notices| - 1 :: NameBefore(notices[i].vm, notices[i + 1].vm))
  }

  lemma NoticesTellAll(list: seq<AttachmentRecord>, atts: AttMap, disk: string, size: nat)
    requires Filed(atts) && AttachmentsOf(list, atts, disk)
    ensures TellsAll(Notices(list, size), atts, disk, size)
  {
    var notices := Notices(list, size);
    forall k | k in atts && k.0 == disk
      ensures exists i :: 0 <= i < |notices| && notices[i] == Resize(k.1, atts[k].target, size)
    {
      assert (atts[k].disk, atts[k].vm) == k;
      assert atts[k] in list;
      var i :| 0 <= i < |list| && list[i] == atts[k];
      NoticeAt(list, size, i);
    }
    NoticeAt(list, size, 0);
    ListingSize(list);
    assert Keys(list) == set k | k in atts && k.0 == disk by {
      forall k | k in atts && k.0 == disk ensures k in Keys(list) {
        assert (atts[k].disk, atts[k].vm) == k && atts[k] in list;
      }
    }
    forall i | 0 <= i < |notices| - 1 ensures NameBefore(notices[i].vm, notices[i + 1].vm) {
      NoticeAt(list, size, i);
      NoticeAt(list, size, i + 1);
      AttNeighbours(list, i);
      assert list[i] in list && list[i + 1] in list;
      LessIrreflexive(disk);
      LessIff(disk, disk);
    }
  }

  /** The notice is about an attachment of this disk and this size. */
  predicate Informs(n: Resize, atts: AttMap, disk: string, size: nat) {
    n.size == size && (disk, n.vm) in atts && atts[(disk, n.vm)].target == n.target
  }

  lemma ListingInforms(list: seq<AttachmentRecord>, atts: AttMap, disk: string, size: nat)
    requires AttachmentsOf(list, atts, disk)
    ensures forall a | a in list :: Informs(Resize(a.vm, a.target, size), atts, disk, size)
  {
    forall a | a in list ensures Informs(Resize(a.vm, a.target, size), atts, disk, size) {
      assert (a.disk, a.vm) in atts && a.disk == disk;
    }
  }

  function Without(atts: AttMap, list: seq<AttachmentRecord>): AttMap {
    atts - (set a | a in list :: (a.disk, a.vm))
  }

  function Unplugged(devs: DevMap, list: seq<AttachmentRecord>): DevMap {
    devs - (set a | a in list :: Slot(a))
  }

  /** Detaching any part of the catalog's attachments, each with its device, keeps the correspondence. */
  lemma DetachKeepsSync(disks: DiskMap, atts: AttMap, devs: DevMap, list: seq<AttachmentRecord>)
    requires Referential(disks, atts)
    requires forall a | a in list :: (a.disk, a.vm) in atts && atts[(a.disk, a.vm)] == a
    ensures Referential(disks, Without(atts, list))
    ensures Synced(disks, atts, devs) ==> Synced(disks, Without(atts, list), Unplugged(devs, list))
  {
    var atts' := Without(atts, list);
    if Synced(disks, atts, devs) {
      forall d | d in Unplugged(devs, list) ensures Taken(atts', d) {
        assert Taken(atts, d);
        var k :| k in atts && Slot(atts[k]) == d;
        assert k in atts' && Slot(atts'[k]) == d;
      }
    }
  }

  /** Clearing a listing takes exactly the attachments of its disk, and the devices in
      their places. */
  lemma ClearedFields(atts: AttMap, devs: DevMap, name: string, list: seq<AttachmentRecord>)
    requires Filed(atts) && AttachmentsOf(list, atts, name)
    ensures forall k :: k in Without(atts, list) <==> k in atts && k.0 != name
    ensures forall k | k in Without(atts, list) :: Without(atts, list)[k] == atts[k]
    ensures forall s :: s in Unplugged(devs, list) <==>
              s in devs && forall k | k in atts && k.0 == name :: (atts[k].vm, atts[k].target) != s
    ensures forall s | s in Unplugged(devs, list) :: Unplugged(devs, list)[s] == devs[s]
  {
    forall k | k in atts && k.0 == name ensures atts[k] in list {
      assert (atts[k].disk, atts[k].vm) == k;
    }
    forall a | a in list ensures (a.disk, a.vm) in atts && atts[(a.disk, a.vm)] == a && a.disk == name {
    }
  }

  /** Detaching attachments of one disk leaves those of all others, and their devices, alone. */
  lemma DetachSparesOthers(disks: DiskMap, atts: AttMap, devs: DevMap, name: string, list: seq<AttachmentRecord>)
    requires Referential(disks, atts) && Synced(disks, atts, devs) && AttachmentsOf(list, atts, name)
    ensures forall k | k in atts && k.0 != name ::
              && k in Without(atts, list) && Without(atts, list)[k] == atts[k]
              && Slot(atts[k]) in Unplugged(devs, list)
              && Unplugged(devs, list)[Slot(atts[k])] == devs[Slot(atts[k])]
    ensures forall k | k in atts && k.0 == name ::
              k !in Without(atts, list) && Slot(atts[k]) !in Unplugged(devs, list)
  {
    forall k | k in atts && k.0 == name ensures atts[k] in list {
      assert (atts[k].disk, atts[k].vm) == k;
    }
  }

  lemma DetachOneKeepsSync(disks: DiskMap, atts: AttMap, devs: DevMap, k: (string, string))
    requires Referential(disks, atts) && k in atts
    ensures Referential(disks, atts - {k})
    ensures Synced(disks, atts, devs) ==> Synced(disks, atts - {k}, devs - {Slot(atts[k])})
  {
    var list := [atts[k]];
    assert Without(atts, list) == atts - {k} && Unplugged(devs, list) == devs - {Slot(atts[k])};
    DetachKeepsSync(disks, atts, devs, list);
  }

  /** A new disk disturbs nothing. */
  lemma NewDiskKeepsSync(disks: DiskMap, atts: AttMap, devs: DevMap, rec: DiskRecord)
    requires Referential(disks, atts) && rec.name !in disks
    requires ValidName(rec.name) && rec.devicePath == DevicePath(rec.vg, rec.name)
    ensures Referential(disks[rec.name := rec], atts)
    ensures Synced(disks, atts, devs) ==> Synced(disks[rec.name := rec], atts, devs)
  {
  }

  /** A disk without attachments can go. */
  lemma ForgetDiskKeepsSync(disks: DiskMap, atts: AttMap, devs: DevMap, name: string)
    requires Referential(disks, atts)
    requires forall k | k in atts :: k.0 != name
    ensures Referential(disks - {name}, atts)
    ensures Synced(disks, atts, devs) ==> Synced(disks - {name}, atts, devs)
  {
  }

  /** A disk can go together with all its attachments. */
  lemma DeleteKeepsSync(disks: DiskMap, atts: AttMap, devs: DevMap, name: string, list: seq<AttachmentRecord>)
    requires Referential(disks, atts) && AttachmentsOf(list, atts, name)
    ensures Referential(disks - {name}, Without(atts, list))
    ensures Synced(disks, atts, devs) ==> Synced(disks - {name}, Without(atts, list), Unplugged(devs, list))
  {
    DetachKeepsSync(disks, atts, devs, list);
    ForgetDiskKeepsSync(disks, Without(atts, list), Unplugged(devs, list), name);
  }

  lemma DeleteKeepsBacked(disks: DiskMap, lvs: map<Lv, nat>, headers: set<Lv>, name: string)
    requires name in disks && forall x | x in disks :: disks[x].name == x
    requires Backed(disks, lvs, headers)
    ensures Backed(disks - {name}, lvs - {LvOf(disks[name])}, headers - {LvOf(disks[name])})
  {
  }

  lemma ResizeKeepsBacked(disks: DiskMap, disks': DiskMap, lvs: map<Lv, nat>, lvs': map<Lv, nat>, headers: set<Lv>,
                          name: string)
    requires Backed(disks, lvs, headers) && lvs'.Keys == lvs.Keys
    requires disks' == disks
             || (name in disks && exists size :: disks' == disks[name := disks[name].(size := size)])
    ensures Backed(disks', lvs', headers)
  {
    forall x | x in disks' ensures LvOf(disks'[x]) == LvOf(disks[x]) && disks'[x].mode == disks[x].mode {
    }
  }

  /** A record may change in size only. */
  lemma ResizeKeepsSync(disks: DiskMap, atts: AttMap, devs: DevMap, name: string, size: nat)
    requires Referential(disks, atts) && name in disks
    ensures Referential(disks[name := disks[name].(size := size)], atts)
    ensures Synced(disks, atts, devs) ==> Synced(disks[name := disks[name].(size := size)], atts, devs)
  {
  }

  /** After `n` of the attachments were detached: all of them if nothing failed so far;
      the device of the next is gone as well if the deletion of its record failed. */
  ghost predicate ClearedTo(atts: AttMap, devs: DevMap, atts': AttMap, devs': DevMap, list: seq<AttachmentRecord>,
                            n: nat, deletesWork: bool, r: Result<()>)
  {
    && n <= |list| && atts' == Without(atts, list[..n])
    && (r.Ok? ==> n == |list| && devs' == Unplugged(devs, list))
    && (r == Err(LibvirtFailed) ==> n < |list| && devs' == Unplugged(devs, list[..n]))
    && (r.Err? ==>
          || devs' == Unplugged(devs, list[..n])
          || (r.error == StoreFailed && !deletesWork && n < |list| && devs' == Unplugged(devs, list[..n + 1])))
  }

  function TargetName(c: char): string {
    "vd" + [c]
  }

  /** The first of vdb, ..., vdz that is free, or "vdaa", used or not. */
  function FirstFree(used: set<string>, c: char): string
    requires 'b' <= c <= 'z'
    decreases 'z' as int - c as int
  {
    if TargetName(c) !in used then TargetName(c)
    else if c == 'z' then "vdaa"
    else FirstFree(used, c + 1 as char)
  }

  /** A name is picked that is free whenever any letter from b on is free. */
  lemma {:induction false} FirstFreeIsFree(used: set<string>, c: char)
    requires 'b' <= c <= 'z'
    ensures (exists d :: c <= d <= 'z' && TargetName(d) !in used) ==>
              exists d :: c <= d <= 'z' && FirstFree(used, c) == TargetName(d) && TargetName(d) !in used
                          && forall e | c <= e < d :: TargetName(e) in used
    ensures (forall d | c <= d <= 'z' :: TargetName(d) in used) ==> FirstFree(used, c) == "vdaa"
    decreases 'z' as int - c as int
  {
    if TargetName(c) in used && c < 'z' {
      FirstFreeIsFree(used, c + 1 as char);
    }
  }

  /** The targets a VM's attachments take, and the boot disk's. */
  function UsedTargets(atts: AttMap, vm: string): set<string> {
    {"vda"} + set k | k in atts && k.1 == vm :: atts[k].target
  }

  datatype AttachInput = AttachInput(disk: string, vm: string, target: string)

  function EffectiveTarget(atts: AttMap, input: AttachInput): string {
    if input.target != "" then input.target else FirstFree(UsedTargets(atts, input.vm), 'b')
  }

  /** The attachment the catalog has already, asked for again at its own target. */
  predicate Reattach(atts: AttMap, input: AttachInput) {
    (input.disk, input.vm) in atts && atts[(input.disk, input.vm)].target == EffectiveTarget(atts, input)
  }

  /** An attach without a target repeats an attachment only after all letters ran out. */
  lemma AutoReattachOnlyWhenFull(atts: AttMap, input: AttachInput)
    requires input.target == "" && Reattach(atts, input)
    ensures EffectiveTarget(atts, input) == "vdaa"
    ensures forall d | 'b' <= d <= 'z' :: TargetName(d) in UsedTargets(atts, input.vm)
  {
    FirstFreeIsFree(UsedTargets(atts, input.vm), 'b');
  }

  /** The attachment an input asks for. */
  function Asked(atts: AttMap, input: AttachInput, node: string): AttachmentRecord {
    AttachmentRecord(input.disk, input.vm, node, EffectiveTarget(atts, input))
  }

  /** libvirt takes a device at a free target, and at an occupied one only under the
      idempotent contract and for the source that is there already. */
  predicate Accepts(strict: bool, devs: DevMap, slot: (string, string), d: Device) {
    slot !in devs || (!strict && devs[slot].source == d.source)
  }

  function Plugged(devs: DevMap, slot: (string, string), d: Device): DevMap {
    if slot in devs then devs else devs[slot := d]
  }

  datatype AttachOutcome = AttachOutcome(done: bool, atts: AttMap, devs: DevMap)

  /** What an attach does when no call fails. */
  function Attached(disks: DiskMap, atts: AttMap, devs: DevMap, domains: set<string>, strict: bool,
                    node: string, input: AttachInput): AttachOutcome
  {
    var a := Asked(atts, input, node);
    if input.vm == "" || input.disk !in disks || input.vm !in domains
       || !Accepts(strict, devs, Slot(a), DeviceFor(disks[input.disk])) then AttachOutcome(false, atts, devs)
    else if (a.disk, a.vm) in atts then AttachOutcome(false, atts, devs - {Slot(a)})
    else AttachOutcome(true, atts[(a.disk, a.vm) := a], Plugged(devs, Slot(a), DeviceFor(disks[input.disk])))
  }

  /** What an attach does when no call fails, without the names of the parts. */
  lemma AttachedIs(disks: DiskMap, atts: AttMap, devs: DevMap, domains: set<string>, strict: bool, node: string,
                   input: AttachInput)
    ensures var o := Attached(disks, atts, devs, domains, strict, node, input);
            var target := EffectiveTarget(atts, input);
            && (o.done <==> && input.disk in disks && input.vm != "" && input.vm in domains
                            && (input.disk, input.vm) !in atts
                            && ((input.vm, target) in devs ==>
                                  !strict && devs[(input.vm, target)].source == disks[input.disk].devicePath))
            && (o.done ==>
                  o.atts == atts[(input.disk, input.vm) := AttachmentRecord(input.disk, input.vm, node, target)])
            && (!o.done ==> o.atts == atts)
            && (o.done && (input.vm, target) !in devs ==>
                  var format := if disks[input.disk].mode == Thin then "qcow2" else "raw";
                  o.devs == devs[(input.vm, target) := Device(disks[input.disk].devicePath, format)])
            && (o.done && (input.vm, target) in devs ==> o.devs == devs)
            && (!o.done ==>
                  var plugged := input.disk in disks && input.vm != "" && input.vm in domains
                                 && ((input.vm, target) in devs ==>
                                       !strict && devs[(input.vm, target)].source == disks[input.disk].devicePath);
                  o.devs == if plugged then devs - {(input.vm, target)} else devs)
  {
  }

  /** The target asked for; or the first of vdb, ..., vdz that no attachment of the VM has;
      or vdaa if each of them is taken. */
  lemma TargetIs(atts: AttMap, input: AttachInput)
    ensures input.target != "" ==> EffectiveTarget(atts, input) == input.target
    ensures input.target == "" ==>
              || (EffectiveTarget(atts, input) == "vdaa"
                  && forall c | 'b' <= c <= 'z' :: HasTarget(atts, input.vm, "vd" + [c]))
              || exists c :: 'b' <= c <= 'z' && EffectiveTarget(atts, input) == "vd" + [c]
                             && !HasTarget(atts, input.vm, "vd" + [c])
                             && forall e | 'b' <= e < c :: HasTarget(atts, input.vm, "vd" + [e])
  {
    if input.target == "" {
      var used := UsedTargets(atts, input.vm);
      FirstFreeIsFree(used, 'b');
      forall c | 'b' <= c <= 'z' ensures TargetName(c) in used <==> HasTarget(atts, input.vm, "vd" + [c]) {
        assert TargetName(c) == "vd" + [c] && TargetName(c)[2] != 'a' && "vda"[2] == 'a';
      }
      if d :| 'b' <= d <= 'z' && TargetName(d) !in used {
        var c :| 'b' <= c <= 'z' && FirstFree(used, 'b') == TargetName(c) && TargetName(c) !in used
                 && forall e | 'b' <= e < c :: TargetName(e) in used;
        assert EffectiveTarget(atts, input) == "vd" + [c];
      }
    }
  }

  /** An attachment of the VM has this target. */
  ghost predicate HasTarget(atts: AttMap, vm: string, target: string) {
    exists k :: k in atts && k.1 == vm && atts[k].target == target
  }

  /** In step with the catalog, libvirt takes an occupied target only for a repeated attachment. */
  lemma OccupiedMeansReattach(disks: DiskMap, atts: AttMap, devs: DevMap, strict: bool, input: AttachInput)
    requires Referential(disks, atts) && Synced(disks, atts, devs) && input.disk in disks
    requires var slot := (input.vm, EffectiveTarget(atts, input));
             slot in devs && Accepts(strict, devs, slot, DeviceFor(disks[input.disk]))
    ensures !strict && Reattach(atts, input)
  {
    var slot := (input.vm, EffectiveTarget(atts, input));
    assert Taken(atts, slot);
    var k :| k in atts && Slot(atts[k]) == slot;
    var r, q := disks[input.disk], disks[k.0];
    DevicePathInjective(r.vg, input.disk, q.vg, k.0);
  }

  lemma AttachDoneKeepsSync(disks: DiskMap, atts: AttMap, devs: DevMap, strict: bool,
                            input: AttachInput, a: AttachmentRecord)
    requires Referential(disks, atts) && input.disk in disks && input.vm != ""
    requires a == Asked(atts, input, a.host) && (a.disk, a.vm) !in atts
    requires Accepts(strict, devs, Slot(a), DeviceFor(disks[a.disk]))
    ensures Referential(disks, atts[(a.disk, a.vm) := a])
    ensures Synced(disks, atts, devs) ==>
              Synced(disks, atts[(a.disk, a.vm) := a], Plugged(devs, Slot(a), DeviceFor(disks[a.disk])))
  {
    if Synced(disks, atts, devs) {
      if Slot(a) in devs {
        OccupiedMeansReattach(disks, atts, devs, strict, input);
      } else {
        AttachKeepsSync(disks, atts, devs, a);
      }
    }
  }

  /**
    With no call failing, an attach keeps catalog and libvirt in step unless
    libvirt is idempotent and the attachment is there already: then, and only
    then, the rollback of the refused insert unplugs the earlier device.
   */
  lemma AttachKeepsSyncIff(disks: DiskMap, atts: AttMap, devs: DevMap, domains: set<string>,
                           strict: bool, node: string, input: AttachInput)
    requires Referential(disks, atts) && Synced(disks, atts, devs)
    ensures var o := Attached(disks, atts, devs, domains, strict, node, input);
            Synced(disks, o.atts, o.devs) <==> strict || input.vm !in domains || !Reattach(atts, input)
  {
    var o := Attached(disks, atts, devs, domains, strict, node, input);
    var a := Asked(atts, input, node);
    var key := (input.disk, input.vm);
    if !strict && input.vm in domains && Reattach(atts, input) {
      assert Slot(atts[key]) == Slot(a);
      assert Slot(o.atts[key]) !in o.devs;
    } else {
      assert Slot(a) !in devs ==> devs - {Slot(a)} == devs;
      if o.done && Slot(a) !in devs {
        AttachKeepsSync(disks, atts, devs, a);
      } else if o != AttachOutcome(false, atts, devs) {
        OccupiedMeansReattach(disks, atts, devs, strict, input);
      }
    }
  }

  /** Attaching one disk twice at vdb leaves the catalog with an attachment libvirt has lost. */
  lemma RepeatedAttachLosesDevice(rec: DiskRecord, vm: string, node: string)
    requires rec.name != "" && NoSlash(rec.name) && vm != "" && rec.devicePath == DevicePath(rec.vg, rec.name)
    ensures var disks := map[rec.name := rec];
            var input := AttachInput(rec.name, vm, "vdb");
            var once := Attached(disks, map[], map[], {vm}, false, node, input);
            var twice := Attached(disks, once.atts, once.devs, {vm}, false, node, input);
            && once.done && Synced(disks, once.atts, once.devs)
            && !twice.done && twice.atts == once.atts && twice.devs == map[]
            && !Synced(disks, twice.atts, twice.devs)
  {
    var disks := map[rec.name := rec];
    var input := AttachInput(rec.name, vm, "vdb");
    var once := Attached(disks, map[], map[], {vm}, false, node, input);
    AttachKeepsSyncIff(disks, map[], map[], {vm}, false, node, input);
    assert Reattach(once.atts, input);
    AttachKeepsSyncIff(disks, once.atts, once.devs, {vm}, false, node, input);
    assert once.devs - {(vm, "vdb")} == map[];
  }

  /** One operation on the service, with what the environment contributes to it. */
  datatype Act =
    | CreateAct(input: CreateInput, tmp: string, got: nat)
    | DeleteAct(name: string, force: bool)
    | AttachAct(attach: AttachInput)
    | DetachAct(disk: string, vm: string)
    | ExtendAct(name: string, amount: Amount, got: nat)

  /** What one operation can do to the attachments. */
  ghost predicate AttStep(before: AttMap, act: Act, after: AttMap, node: string) {
    match act
    case AttachAct(input) =>
      || after == before
      || ((input.disk, input.vm) !in before
          && after == before[(input.disk, input.vm) := Asked(before, input, node)])
    case DetachAct(disk, vm) => after == before || after == before - {(disk, vm)}
    case DeleteAct(name, _) =>
      && after.Keys <= before.Keys && (forall k | k in after :: after[k] == before[k])
      && (forall k | k in before && k.0 != name :: k in after)
    case _ => after == before
  }

  /** `seen` are the attachments before each of the operations, and after the last. */
  ghost predicate Trace(acts: seq<Act>, seen: seq<AttMap>, node: string) {
    |seen| == |acts| + 1 && forall i | 0 <= i < |acts| :: AttStep(seen[i], acts[i], seen[i + 1], node)
  }

  /** No attach asks for an attachment that is there already, at its own target. */
  ghost predicate NoReattach(acts: seq<Act>, seen: seq<AttMap>)
    requires |seen| == |acts| + 1
  {
    forall i | 0 <= i < |acts| && acts[i].AttachAct? :: !Reattach(seen[i], acts[i].attach)
  }

  function AttachKey(act: Act): (string, string)
    requires act.AttachAct?
  {
    (act.attach.disk, act.attach.vm)
  }

  /** No disk and VM are attached that are attached already or were asked for before. */
  ghost predicate NoRepeats(acts: seq<Act>, keys: set<(string, string)>) {
    forall i | 0 <= i < |acts| && acts[i].AttachAct? ::
      && AttachKey(acts[i]) !in keys
      && forall j | 0 <= j < i && acts[j].AttachAct? :: AttachKey(acts[j]) != AttachKey(acts[i])
  }

  /** What is attached was attached at the start or asked for since. */
  lemma {:induction false} AttachedWasAsked(acts: seq<Act>, seen: seq<AttMap>, node: string, i: nat,
                                            k: (string, string))
    requires Trace(acts, seen, node) && i <= |acts| && k in seen[i]
    ensures k in seen[0] || exists j :: 0 <= j < i && acts[j].AttachAct? && AttachKey(acts[j]) == k
  {
    if i > 0 && k !in seen[0] {
      assert AttStep(seen[i - 1], acts[i - 1], seen[i], node);
      if k in seen[i - 1] {
        AttachedWasAsked(acts, seen, node, i - 1, k);
      } else {
        assert acts[i - 1].AttachAct? && AttachKey(acts[i - 1]) == k;
      }
    }
  }

  /** A sequence that names no disk and VM twice repeats no attachment. */
  lemma NoRepeatsNoReattach(acts: seq<Act>, seen: seq<AttMap>, node: string)
    requires Trace(acts, seen, node) && NoRepeats(acts, seen[0].Keys)
    ensures NoReattach(acts, seen)
  {
    forall i | 0 <= i < |acts| && acts[i].AttachAct? ensures !Reattach(seen[i], acts[i].attach) {
      if AttachKey(acts[i]) in seen[i] { AttachedWasAsked(acts, seen, node, i, AttachKey(acts[i])); }
    }
  }

  // ----- the service

  class Service {
    const nodeId: string
    const defaultVg: string
    const defaultThin: nat
    const domains: set<string>
    /** libvirt refuses every occupied target; otherwise it accepts the device that is there already. */
    const strict: bool
    const fails: (Call, nat) -> bool

    var calls: nat
    var disks: DiskMap
    var atts: AttMap
    var lvs: map<Lv, nat>
    var headers: set<Lv>
    var temps: set<string>
    var devs: DevMap
    var resizes: seq<Resize>

    constructor (nodeId: string, defaultVg: string, defaultThin: nat, domains: set<string>,
                 strict: bool, fails: (Call, nat) -> bool, lvs: map<Lv, nat>)
      ensures this.nodeId == nodeId && this.strict == strict && this.fails == fails && this.domains == domains
      ensures Valid() && InStep(true)
      ensures disks == map[] && atts == map[] && devs == map[] && this.lvs == lvs && headers == {} && temps == {}
    {
      this.nodeId, this.defaultVg, this.defaultThin := nodeId, defaultVg, defaultThin;
      this.domains, this.strict, this.fails := domains, strict, fails;
      calls := 0;
      disks, atts, devs := map[], map[], map[];
      this.lvs := lvs;
      headers, temps, resizes := {}, {}, [];
    }

    ghost predicate Never(c: Call) {
      forall k: nat :: !fails(c, k)
    }

    ghost predicate NoFaults() {
      forall c, k: nat :: !fails(c, k)
    }

    /** One external call. */
    method Attempt(c: Call) returns (ok: bool)
      modifies this`calls
      ensures ok == !fails(c, old(calls)) && calls == old(calls) + 1
    {
      ok := !fails(c, calls);
      calls := calls + 1;
    }

    method GetDisk(name: string) returns (r: Result<DiskRecord>)
      modifies this`calls
      ensures r.Ok? ==> name in disks && r.value == disks[name]
      ensures r.Err? ==> r.error == StoreFailed || (r.error == NotFound && name !in disks)
      ensures NoFaults() ==> r == if name in disks then Ok(disks[name]) else Err(NotFound)
    {
      var ok := Attempt(GetDiskCall);
      if !ok { return Err(StoreFailed); }
      r := if name in disks then Ok(disks[name]) else Err(NotFound);
    }

    /** The best-effort `lvremove` of a create that cannot be completed. */
    method UndoLv(lv: Lv)
      modifies this`calls, this`lvs, this`headers
      ensures (lvs == old(lvs) - {lv} && headers == old(headers) - {lv})
              || (!Never(UndoLvCreateCall) && lvs == old(lvs) && headers == old(headers))
    {
      var ok := Attempt(UndoLvCreateCall);
      if ok {
        lvs := lvs - {lv};
        headers := headers - {lv};
      }
    }

    /** Writes the qcow2 header of a thin disk; `made` tells that the temporary image exists. */
    method WriteHeader(lv: Lv, tmp: string) returns (ok: bool, made: bool)
      modifies this`calls, this`headers, this`temps
      ensures headers == old(headers) + if ok then {lv} else {}
      ensures temps == old(temps) + if made then {tmp} else {}
      ensures NoFaults() ==> ok
    {
      made := Attempt(ImageCall);
      if !made { return false, false; }
      temps := temps + {tmp};
      ok := Attempt(DdCall);
      if ok { headers := headers + {lv}; }
    }

    /** A create under the lock, up to the removal of the temporary image. */
    method Provision(norm: CreateInput, tmp: string, got: nat) returns (r: Result<DiskRecord>, made: bool)
      requires headers <= lvs.Keys
      modifies this`calls, this`disks, this`lvs, this`headers, this`temps
      ensures headers <= lvs.Keys
      ensures r.Ok? ==>
                && r.value == RecordFor(norm, nodeId)
                && norm.name !in old(disks) && disks == old(disks)[norm.name := r.value]
                && LvOf(r.value) !in old(lvs)
                && lvs == old(lvs)[LvOf(r.value) := got] && got >= norm.size
                && headers == old(headers) + if norm.mode == Thin then {LvOf(r.value)} else {}
      ensures r.Err? ==> disks == old(disks)
      ensures r.Err? && Never(UndoLvCreateCall) ==> lvs == old(lvs) && headers == old(headers)
      ensures temps == old(temps) + if made then {tmp} else {}
      ensures NoFaults() ==>
                && (r.Ok? <==> norm.name !in old(disks) && Lv(norm.vg, norm.name) !in old(lvs) && got >= norm.size)
                && (r.Err? ==> r.error == if norm.name in old(disks) then AlreadyExists else LvmFailed)
    {
      made := false;
      var existing := GetDisk(norm.name);
      if existing.Ok? { return Err(AlreadyExists), made; }
      if existing.error != NotFound { return Err(existing.error), made; }
      var lv := Lv(norm.vg, norm.name);
      var ok := Attempt(LvCreateCall);
      if !ok || lv in lvs || got < norm.size { return Err(LvmFailed), made; }
      lvs := lvs[lv := got];
      if norm.mode == Thin {
        ok, made := WriteHeader(lv, tmp);
        if !ok {
          UndoLv(lv);
          return Err(ImageFailed), made;
        }
      }
      var rec := RecordFor(norm, nodeId);
      ok := Attempt(InsertDiskCall);
      if !ok || norm.name in disks {
        UndoLv(lv);
        return Err(StoreFailed), made;
      }
      disks := disks[norm.name := rec];
      r := Ok(rec);
    }

    /**
      All or nothing: on success the record, its LV and, for a thin disk, the
      header are there; on any failure catalog and LVM are as before, if the
      rollback `lvremove` works.  A temporary image never outlives the call, if
      its removal works.  Without faults a create fails only on bad input and on
      names that are taken.
     */
    method CreateDisk(input: CreateInput, tmp: string, got: nat) returns (r: Result<DiskRecord>)
      requires headers <= lvs.Keys
      modifies this`calls, this`disks, this`lvs, this`headers, this`temps
      ensures headers <= lvs.Keys
      ensures r.Ok? ==>
                var norm := NormaliseCreate(input, defaultVg, defaultThin);
                && norm.Ok? && r.value == RecordFor(norm.value, nodeId)
                && input.name !in old(disks) && disks == old(disks)[input.name := r.value]
                && LvOf(r.value) !in old(lvs)
                && lvs == old(lvs)[LvOf(r.value) := got] && got >= r.value.size
                && headers == old(headers) + if r.value.mode == Thin then {LvOf(r.value)} else {}
      ensures r.Ok? ==>
                && r.value.name == input.name && r.value.createdOn == nodeId
                && r.value.vg == (if input.vg != "" then input.vg else defaultVg)
                && r.value.devicePath == "/dev/" + r.value.vg + "/" + input.name
                && r.value.mode == (if input.mode == Thin then Thin else Thick)
                && r.value.size == (if input.size > 0 then input.size else defaultThin)
                && r.value.virtualSize == (if input.virtualSize > 0 then input.virtualSize else input.size)
      ensures r.Err? ==> disks == old(disks)
      ensures r.Err? && Never(UndoLvCreateCall) ==> lvs == old(lvs) && headers == old(headers)
      ensures Never(RemoveFileCall) && tmp !in old(temps) ==> temps == old(temps)
      ensures NoFaults() ==>
                var norm := NormaliseCreate(input, defaultVg, defaultThin);
                r.Ok? <==> norm.Ok? && input.name !in old(disks)
                           && Lv(norm.value.vg, input.name) !in old(lvs) && got >= norm.value.size
      ensures NoFaults() && r.Err? ==>
                r.error == if NormaliseCreate(input, defaultVg, defaultThin).Err? then InvalidInput
                           else if input.name in old(disks) then AlreadyExists else LvmFailed
    {
      var norm :- NormaliseCreate(input, defaultVg, defaultThin);
      var ok := Attempt(TakeLockCall);
      if !ok { return Err(LockFailed); }
      var made;
      r, made := Provision(norm, tmp, got);
      if made {
        var removed := Attempt(RemoveFileCall);
        if removed { temps := temps - {tmp}; }
      }
    }

    /** Unplugs one attachment and deletes its record; what is done when it fails is said by `error`. */
    method DetachLocked(a: AttachmentRecord) returns (r: Result<()>)
      modifies this`calls, this`atts, this`devs
      ensures r.Ok? ==> devs == old(devs) - {Slot(a)} && atts == old(atts) - {(a.disk, a.vm)}
      ensures r.Err? ==> atts == old(atts)
      ensures r.Err? ==> (r.error == LibvirtFailed && devs == old(devs))
                         || (r.error == StoreFailed && !Never(DeleteAttachmentCall) && devs == old(devs) - {Slot(a)})
      ensures NoFaults() ==> r.Ok?
    {
      var ok := Attempt(UnplugCall);
      if !ok { return Err(LibvirtFailed); }
      devs := devs - {Slot(a)};
      ok := Attempt(DeleteAttachmentCall);
      if !ok { return Err(StoreFailed); }
      atts := atts - {(a.disk, a.vm)};
      r := Ok(());
    }

    /** The catalog's listing of one disk's attachments. */
    method ListAttachments(disk: string) returns (r: Result<seq<AttachmentRecord>>)
      requires Referential(disks, atts) && disk != ""
      modifies this`calls
      ensures r.Ok? ==> AttachmentsOf(r.value, atts, disk)
      ensures r.Err? ==> r.error == StoreFailed
      ensures NoFaults() ==> r.Ok?
    {
      var ok := Attempt(ListCall);
      if !ok { return Err(StoreFailed); }
      var out := Stores.CollectAttachments(atts, disk, "");
      forall a ensures (exists k :: k in atts && atts[k] == a) <==>
                       (a.disk, a.vm) in atts && atts[(a.disk, a.vm)] == a {
      }
      r := Ok(out);
    }

    /** Detaches a list from the front until a call fails; `n` attachments were detached. */
    method DetachAll(list: seq<AttachmentRecord>) returns (r: Result<()>, n: nat)
      modifies this`calls, this`atts, this`devs
      ensures n <= |list| && atts == Without(old(atts), list[..n])
      ensures r.Ok? ==> n == |list| && devs == Unplugged(old(devs), list)
      ensures r.Err? ==>
                && n < |list|
                && ((r.error == LibvirtFailed && devs == Unplugged(old(devs), list[..n]))
                    || (r.error == StoreFailed && !Never(DeleteAttachmentCall)
                        && devs == Unplugged(old(devs), list[..n + 1])))
      ensures NoFaults() ==> r.Ok?
    {
      n := 0;
      assert Without(atts, list[..0]) == atts && Unplugged(devs, list[..0]) == devs;
      while n < |list|
        invariant n <= |list|
        invariant atts == Without(old(atts), list[..n]) && devs == Unplugged(old(devs), list[..n])
      {
        assert list[..n + 1] == list[..n] + [list[n]];
        r := DetachLocked(list[n]);
        if r.Err? { return; }
        n := n + 1;
      }
      assert list[..|list|] == list;
      r := Ok(());
    }

    /** Removes the LV, then the record. */
    method Deprovision(rec: DiskRecord) returns (r: Result<()>)
      requires headers <= lvs.Keys
      modifies this`calls, this`disks, this`lvs, this`headers
      ensures headers <= lvs.Keys
      ensures r.Ok? ==>
                && disks == old(disks) - {rec.name} && LvOf(rec) in old(lvs)
                && lvs == old(lvs) - {LvOf(rec)} && headers == old(headers) - {LvOf(rec)}
      ensures r.Err? ==> disks == old(disks) && r.error != LibvirtFailed
      ensures r.Err? && Never(DeleteDiskCall) ==> lvs == old(lvs) && headers == old(headers)
      ensures NoFaults() ==> (r.Ok? <==> LvOf(rec) in old(lvs)) && (r.Err? ==> r.error == LvmFailed)
    {
      var ok := Attempt(LvRemoveCall);
      if !ok || LvOf(rec) !in lvs { return Err(LvmFailed); }
      lvs := lvs - {LvOf(rec)};
      headers := headers - {LvOf(rec)};
      ok := Attempt(DeleteDiskCall);
      if !ok { return Err(StoreFailed); }
      disks := disks - {rec.name};
      r := Ok(());
    }

    /** The front of a delete: lists the attachments and, if forced, detaches them. */
    method ClearAttachments(name: string, force: bool) returns (r: Result<()>, ghost n: nat)
      requires Referential(disks, atts) && name != ""
      modifies this`calls, this`atts, this`devs
      ensures forall list | AttachmentsOf(list, old(atts), name) ::
                && ClearedTo(old(atts), old(devs), atts, devs, list, n, Never(DeleteAttachmentCall), r)
                && (!force && list != [] ==> r.Err? && n == 0 && devs == old(devs))
      ensures NoFaults() ==>
                (r.Ok? <==> force || AttachmentsOf([], old(atts), name)) && (r.Err? ==> r.error == HasAttachments)
    {
      n := 0;
      NothingDetached(atts, devs);
      var listed := ListAttachments(name);
      if listed.Err? { return Err(listed.error), 0; }
      var list := listed.value;
      OnlyListing(list, atts, name);
      if |list| > 0 && !force { return Err(HasAttachments), 0; }
      var done;
      r, done := DetachAll(list);
      n := done;
      assert list[..|list|] == list;
    }

    /**
      Forced deletion removes the record, the LV and all attachments of the disk and
      nothing else.  When it fails, a prefix of the VM-sorted attachments has been
      detached, and the device of the next one too if only the deletion of its
      record failed; the disk's record is there, and so is the LV unless only the
      deletion of that record failed.
     */
    method DeleteDisk(name: string, force: bool) returns (r: Result<()>, ghost n: nat)
      requires Referential(disks, atts) && headers <= lvs.Keys
      modifies this`calls, this`disks, this`atts, this`lvs, this`headers, this`devs
      ensures headers <= lvs.Keys
      ensures r.Ok? ==>
                && name in old(disks) && disks == old(disks) - {name}
                && LvOf(old(disks)[name]) in old(lvs)
                && lvs == old(lvs) - {LvOf(old(disks)[name])} && headers == old(headers) - {LvOf(old(disks)[name])}
      ensures r.Err? ==> disks == old(disks)
      ensures r.Err? && (Never(DeleteDiskCall) || r.error == LibvirtFailed) ==>
                lvs == old(lvs) && headers == old(headers)
      ensures forall list | AttachmentsOf(list, old(atts), name) ::
                && ClearedTo(old(atts), old(devs), atts, devs, list, n, Never(DeleteAttachmentCall), r)
                && (!force && list != [] ==> r.Err? && n == 0 && devs == old(devs))
      ensures NoFaults() ==>
                (r.Ok? <==> name in old(disks) && LvOf(old(disks)[name]) in old(lvs)
                            && (force || AttachmentsOf([], old(atts), name)))
      ensures NoFaults() && r.Err? ==>
                r.error == if name !in old(disks) then NotFound
                           else if !force && !AttachmentsOf([], old(atts), name) then HasAttachments else LvmFailed
      ensures r.Ok? ==>
                && (forall k :: k in atts <==> k in old(atts) && k.0 != name)
                && (forall k | k in atts :: atts[k] == old(atts)[k])
                && (forall s :: s in devs <==>
                      s in old(devs) && forall k | k in old(atts) && k.0 == name ::
                                          (old(atts)[k].vm, old(atts)[k].target) != s)
                && (forall s | s in devs :: devs[s] == old(devs)[s])
    {
      n := 0;
      NothingDetached(atts, devs);
      var got := GetDisk(name);
      if got.Err? { return Err(got.error), 0; }
      var ok := Attempt(TakeLockCall);
      if !ok { return Err(LockFailed), 0; }
      r, n := ClearAttachments(name, force);
      if r.Err? { return; }
      r := Deprovision(got.value);
      if r.Ok? {
        ghost var list := ListingExists(old(atts), name);
        assert list[..|list|] == list;
        ClearedFields(old(atts), old(devs), name, list);
      }
    }

    method PickTargetDev(used: set<string>) returns (target: string)
      ensures target == FirstFree(used, 'b')
    {
      var c := 'b';
      while true
        invariant 'b' <= c <= 'z' && FirstFree(used, 'b') == FirstFree(used, c)
        decreases 'z' as int - c as int
      {
        if TargetName(c) !in used { return TargetName(c); }
        if c == 'z' { return "vdaa"; }
        c := c + 1 as char;
      }
    }

    method Plug(slot: (string, string), d: Device) returns (ok: bool)
      modifies this`calls, this`devs
      ensures ok ==> Accepts(strict, old(devs), slot, d) && devs == Plugged(old(devs), slot, d)
      ensures !ok ==> devs == old(devs)
      ensures NoFaults() ==> (ok <==> Accepts(strict, old(devs), slot, d))
    {
      ok := Attempt(PlugCall);
      if !ok || !Accepts(strict, devs, slot, d) { return false; }
      if slot !in devs { devs := devs[slot := d]; }
    }

    /** The target asked for, or else one picked from what the catalog lists for the VM. */
    method ChooseTarget(input: AttachInput) returns (r: Result<string>)
      modifies this`calls
      ensures r.Ok? ==> r.value == EffectiveTarget(atts, input)
      ensures NoFaults() ==> r.Ok?
    {
      if input.target != "" { return Ok(input.target); }
      var ok := Attempt(ListCall);
      if !ok { return Err(StoreFailed); }
      var target := PickTargetDev(UsedTargets(atts, input.vm));
      r := Ok(target);
    }

    /** Records an attachment whose device is plugged, or unplugs whatever is in its slot. */
    method InsertOrUndo(a: AttachmentRecord) returns (r: Result<AttachmentRecord>)
      modifies this`calls, this`atts, this`devs
      ensures r.Ok? ==> r.value == a && (a.disk, a.vm) !in old(atts)
                        && atts == old(atts)[(a.disk, a.vm) := a] && devs == old(devs)
      ensures r.Err? ==> atts == old(atts)
      ensures r.Err? ==> devs == old(devs) - {Slot(a)} || (!Never(UndoPlugCall) && devs == old(devs))
      ensures NoFaults() ==> (r.Ok? <==> (a.disk, a.vm) !in old(atts)) && (r.Err? ==> r.error == AlreadyExists)
    {
      var ok := Attempt(InsertAttachmentCall);
      if !ok || (a.disk, a.vm) in atts {
        var undone := Attempt(UndoPlugCall);
        if undone { devs := devs - {Slot(a)}; }
        return Err(if ok then AlreadyExists else StoreFailed);
      }
      atts := atts[(a.disk, a.vm) := a];
      r := Ok(a);
    }

    /** The calls of an attach, in terms of the functions that say what it asks for. */
    method TryAttach(input: AttachInput) returns (r: Result<AttachmentRecord>)
      requires Referential(disks, atts)
      modifies this`calls, this`atts, this`devs
      ensures r.Ok? ==>
                && input.disk in disks && input.vm in domains && input.vm != ""
                && r.value == Asked(old(atts), input, nodeId)
                && (input.disk, input.vm) !in old(atts) && atts == old(atts)[(input.disk, input.vm) := r.value]
                && Accepts(strict, old(devs), Slot(r.value), DeviceFor(disks[input.disk]))
                && devs == Plugged(old(devs), Slot(r.value), DeviceFor(disks[input.disk]))
      ensures r.Err? ==> atts == old(atts)
      ensures r.Err? && Never(UndoPlugCall) ==>
                || devs == old(devs)
                || (var slot := Slot(Asked(old(atts), input, nodeId));
                    && input.disk in disks && input.vm in domains && slot in old(devs)
                    && Accepts(strict, old(devs), slot, DeviceFor(disks[input.disk]))
                    && devs == old(devs) - {slot})
      ensures NoFaults() ==>
                var o := Attached(disks, old(atts), old(devs), domains, strict, nodeId, input);
                r.Ok? == o.done && atts == o.atts && devs == o.devs
      ensures NoFaults() && r.Err? ==>
                r.error == if input.disk == "" || input.vm == "" then InvalidInput
                           else if input.disk !in disks then NotFound
                           else if input.vm !in domains then DomainNotFound
                           else if Accepts(strict, old(devs), Slot(Asked(old(atts), input, nodeId)),
                                           DeviceFor(disks[input.disk])) then AlreadyExists
                           else LibvirtFailed
    {
      if input.disk == "" || input.vm == "" { return Err(InvalidInput); }
      var rec :- GetDisk(input.disk);
      var ok := Attempt(DomainCall);
      if !ok { return Err(LibvirtFailed); }
      if input.vm !in domains { return Err(DomainNotFound); }
      var target :- ChooseTarget(input);
      var a := AttachmentRecord(rec.name, input.vm, nodeId, target);
      ok := Plug(Slot(a), DeviceFor(rec));
      if !ok { return Err(LibvirtFailed); }
      r := InsertOrUndo(a);
      if Slot(a) !in old(devs) {
        assert old(devs)[Slot(a) := DeviceFor(rec)] - {Slot(a)} == old(devs);
      }
    }

    /**
      On success the attachment is recorded for this node, and its device is there with
      the disk's path and format.  On failure the catalog is as before, and libvirt is
      too if the rollback works, unless libvirt took a device that was there already:
      then the rollback has unplugged that one.  Without faults it succeeds exactly
      for a known disk and domain that are not attached yet, at a target that is free
      or, for an idempotent libvirt, has that very device.
     */
    method AttachDisk(input: AttachInput) returns (r: Result<AttachmentRecord>)
      requires Referential(disks, atts)
      modifies this`calls, this`atts, this`devs
      ensures r.Ok? ==>
                && input.disk in disks && input.vm in domains && input.vm != ""
                && r.value == AttachmentRecord(input.disk, input.vm, nodeId, EffectiveTarget(old(atts), input))
                && (input.disk, input.vm) !in old(atts) && atts == old(atts)[(input.disk, input.vm) := r.value]
                && var slot, path := (input.vm, r.value.target), disks[input.disk].devicePath;
                   if slot in old(devs) then devs == old(devs) && !strict && devs[slot].source == path
                   else devs == old(devs)[slot :=
                                            Device(path, if disks[input.disk].mode == Thin then "qcow2" else "raw")]
      ensures r.Err? ==> atts == old(atts)
      ensures r.Err? && Never(UndoPlugCall) ==>
                || devs == old(devs)
                || (var slot := (input.vm, EffectiveTarget(old(atts), input));
                    && input.disk in disks && input.vm in domains && slot in old(devs)
                    && !strict && old(devs)[slot].source == disks[input.disk].devicePath
                    && devs == old(devs) - {slot})
      ensures NoFaults() ==>
                var slot := (input.vm, EffectiveTarget(old(atts), input));
                (r.Ok? <==> && input.disk in disks && input.vm != "" && input.vm in domains
                            && (input.disk, input.vm) !in old(atts)
                            && (slot in old(devs) ==>
                                  !strict && old(devs)[slot].source == disks[input.disk].devicePath))
      ensures NoFaults() ==>
                var o := Attached(disks, old(atts), old(devs), domains, strict, nodeId, input);
                r.Ok? == o.done && atts == o.atts && devs == o.devs
    {
      AttachedIs(disks, atts, devs, domains, strict, nodeId, input);
      r := TryAttach(input);
    }

    method DetachDisk(disk: string, vm: string) returns (r: Result<()>)
      requires Referential(disks, atts)
      modifies this`calls, this`atts, this`devs
      ensures r.Ok? ==>
                && disk in disks && (disk, vm) in old(atts)
                && devs == old(devs) - {Slot(old(atts)[(disk, vm)])} && atts == old(atts) - {(disk, vm)}
      ensures r.Err? ==> atts == old(atts) && (Never(DeleteAttachmentCall) ==> devs == old(devs))
      ensures NoFaults() ==>
                (r.Ok? <==> disk in disks && (disk, vm) in old(atts)) && (r.Err? ==> r.error == NotFound)
    {
      var rec :- GetDisk(disk);
      var ok := Attempt(GetAttachmentCall);
      if !ok { return Err(StoreFailed); }
      if (disk, vm) !in atts { return Err(NotFound); }
      r := DetachLocked(atts[(disk, vm)]);
    }

    /** Tells the guests that have the disk, as far as the calls work. */
    method NotifyGuests(name: string, size: nat)
      requires Referential(disks, atts) && name != ""
      modifies this`calls, this`resizes
      ensures old(resizes) <= resizes
      ensures forall i | |old(resizes)| <= i < |resizes| :: Informs(resizes[i], atts, name, size)
      ensures NoFaults() ==> TellsAll(resizes[|old(resizes)|..], atts, name, size)
    {
      var listed := ListAttachments(name);
      if listed.Err? { return; }
      NoticesTellAll(listed.value, atts, name, size);
      ListingInforms(listed.value, atts, name, size);
      Notify(listed.value, size);
    }

    method Notify(list: seq<AttachmentRecord>, size: nat)
      modifies this`calls, this`resizes
      ensures old(resizes) <= resizes
      ensures forall i | |old(resizes)| <= i < |resizes| ::
                exists a :: a in list && resizes[i] == Resize(a.vm, a.target, size)
      ensures NoFaults() ==> resizes == old(resizes) + Notices(list, size)
    {
      for i := 0 to |list|
        invariant old(resizes) <= resizes
        invariant forall j | |old(resizes)| <= j < |resizes| ::
                    exists a :: a in list && resizes[j] == Resize(a.vm, a.target, size)
        invariant NoFaults() ==> resizes == old(resizes) + Notices(list[..i], size)
      {
        assert list[i] in list;
        assert list[..i + 1][..i] == list[..i];
        var ok := Attempt(ResizeCall);
        if ok { resizes := resizes + [Resize(list[i].vm, list[i].target, size)]; }
      }
      assert list[..|list|] == list;
    }

    /** Grows the LV, then the record; what the record says follows from the record,
        what the LV is follows from the LV.  A failure after the LV has grown leaves
        it grown. */
    method GrowDisk(name: string, amount: Amount, got: nat) returns (r: Result<DiskRecord>)
      requires Referential(disks, atts)
      modifies this`calls, this`disks, this`lvs
      ensures r.Ok? ==>
                && name in old(disks)
                && r.value == old(disks)[name].(size := NewSize(old(disks)[name].size, amount))
                && disks == old(disks)[name := r.value]
                && LvOf(r.value) in old(lvs) && LvExtends(old(lvs)[LvOf(r.value)], amount, got)
                && lvs == old(lvs)[LvOf(r.value) := got]
      ensures r.Err? ==> disks == old(disks)
      ensures r.Err? ==> lvs == old(lvs) || (!Never(UpdateDiskCall) && GrownLv(disks, old(lvs), lvs, name, amount, got))
      ensures NoFaults() ==> (r.Ok? <==> !AsksForNothing(amount) && Growable(old(disks), old(lvs), name, amount, got))
      ensures NoFaults() && r.Err? ==>
                r.error == if AsksForNothing(amount) then InvalidInput
                           else if name !in disks then NotFound else LvmFailed
    {
      if AsksForNothing(amount) { return Err(InvalidInput); }
      var rec :- GetDisk(name);
      var ok := Attempt(TakeLockCall);
      if !ok { return Err(LockFailed); }
      ok := Attempt(LvExtendCall);
      if !ok || LvOf(rec) !in lvs || !LvExtends(lvs[LvOf(rec)], amount, got) { return Err(LvmFailed); }
      lvs := lvs[LvOf(rec) := got];
      rec := rec.(size := NewSize(rec.size, amount));
      ok := Attempt(UpdateDiskCall);
      if !ok || rec.name !in disks { return Err(StoreFailed); }
      disks := disks[rec.name := rec];
      r := Ok(rec);
    }

    /** Extends a disk and tells the guests that have it. */
    method Extend(name: string, amount: Amount, got: nat) returns (r: Result<DiskRecord>)
      requires Referential(disks, atts)
      modifies this`calls, this`disks, this`lvs, this`resizes
      ensures r.Ok? ==>
                && name in old(disks)
                && r.value == old(disks)[name].(size := NewSize(old(disks)[name].size, amount))
                && disks == old(disks)[name := r.value]
                && GrownLv(old(disks), old(lvs), lvs, name, amount, got)
      ensures r.Ok? ==>
                && old(resizes) <= resizes
                && forall i | |old(resizes)| <= i < |resizes| :: Informs(resizes[i], atts, name, r.value.size)
      ensures r.Err? ==> disks == old(disks) && resizes == old(resizes)
      ensures r.Err? ==> lvs == old(lvs) || (!Never(UpdateDiskCall) && GrownLv(disks, old(lvs), lvs, name, amount, got))
      ensures NoFaults() ==> (r.Ok? <==> !AsksForNothing(amount) && Growable(old(disks), old(lvs), name, amount, got))
      ensures NoFaults() && r.Ok? ==> TellsAll(resizes[|old(resizes)|..], atts, name, r.value.size)
      ensures NoFaults() && r.Err? ==>
                r.error == if AsksForNothing(amount) then InvalidInput
                           else if name !in disks then NotFound else LvmFailed
    {
      r := GrowDisk(name, amount, got);
      if r.Err? { return; }
      ResizeKeepsSync(old(disks), atts, devs, name, r.value.size);
      NotifyGuests(name, r.value.size);
    }

    /** The assumptions under which the catalog and libvirt stay in step. */
    ghost predicate Tame() {
      Never(UndoPlugCall) && Never(DeleteAttachmentCall)
    }

    ghost predicate Valid()
      reads this`disks, this`atts, this`lvs, this`headers
    {
      Referential(disks, atts) && headers <= lvs.Keys
    }

    /** What every run keeps; `clean` tells that no attachment was repeated. */
    ghost predicate InStep(clean: bool)
      reads this`disks, this`atts, this`devs, this`lvs, this`headers
    {
      && (Tame() && (strict || clean) ==> Synced(disks, atts, devs))
      && (Never(UndoLvCreateCall) && Never(DeleteDiskCall) ==> Backed(disks, lvs, headers))
    }

    method ServeCreate(input: CreateInput, tmp: string, got: nat, ghost clean: bool)
      requires Valid() && InStep(clean)
      modifies this`calls, this`disks, this`lvs, this`headers, this`temps
      ensures Valid() && InStep(clean)
    {
      var r := CreateDisk(input, tmp, got);
      if r.Ok? { NewDiskKeepsSync(old(disks), atts, devs, r.value); }
    }

    method ServeDelete(name: string, force: bool, ghost clean: bool)
      requires Valid() && InStep(clean)
      modifies this`calls, this`disks, this`atts, this`lvs, this`headers, this`devs
      ensures Valid() && InStep(clean) && AttStep(old(atts), DeleteAct(name, force), atts, nodeId)
    {
      ghost var list := ListingExists(atts, name);
      var r, n := DeleteDisk(name, force);
      assert forall a | a in list[..n] :: a in list;
      if r.Ok? {
        assert list[..n] == list;
        DeleteKeepsSync(old(disks), old(atts), old(devs), name, list);
        if Backed(old(disks), old(lvs), old(headers)) {
          DeleteKeepsBacked(old(disks), old(lvs), old(headers), name);
        }
      } else {
        DetachKeepsSync(old(disks), old(atts), old(devs), list[..n]);
      }
    }

    method ServeAttach(input: AttachInput, ghost clean: bool)
      requires Valid() && InStep(clean)
      modifies this`calls, this`atts, this`devs
      ensures Valid() && InStep(clean && !Reattach(old(atts), input))
      ensures AttStep(old(atts), AttachAct(input), atts, nodeId)
    {
      var r := TryAttach(input);
      if r.Ok? {
        AttachDoneKeepsSync(disks, old(atts), old(devs), strict, input, r.value);
      } else if Never(UndoPlugCall) && devs != old(devs) && Synced(disks, old(atts), old(devs)) {
        OccupiedMeansReattach(disks, old(atts), old(devs), strict, input);
      }
    }

    method ServeDetach(disk: string, vm: string, ghost clean: bool)
      requires Valid() && InStep(clean)
      modifies this`calls, this`atts, this`devs
      ensures Valid() && InStep(clean) && AttStep(old(atts), DetachAct(disk, vm), atts, nodeId)
    {
      var r := DetachDisk(disk, vm);
      if r.Ok? {
        DetachOneKeepsSync(disks, old(atts), old(devs), (disk, vm));
      }
    }

    method ServeExtend(name: string, amount: Amount, got: nat, ghost clean: bool)
      requires Valid() && InStep(clean)
      modifies this`calls, this`disks, this`lvs, this`resizes
      ensures Valid() && InStep(clean)
    {
      var r := Extend(name, amount, got);
      if r.Ok? { ResizeKeepsSync(old(disks), atts, devs, name, r.value.size); }
      if Backed(old(disks), old(lvs), headers) { ResizeKeepsBacked(old(disks), disks, old(lvs), lvs, headers, name); }
    }

    method ServeOne(act: Act, ghost clean: bool)
      requires Valid() && InStep(clean)
      modifies this`calls, this`disks, this`atts, this`lvs, this`headers, this`temps, this`devs, this`resizes
      ensures Valid() && InStep(clean && !(act.AttachAct? && Reattach(old(atts), act.attach)))
      ensures AttStep(old(atts), act, atts, nodeId)
    {
      match act
      case CreateAct(input, tmp, got) => ServeCreate(input, tmp, got, clean);
      case DeleteAct(name, force) => ServeDelete(name, force, clean);
      case DetachAct(disk, vm) => ServeDetach(disk, vm, clean);
      case ExtendAct(name, amount, got) => ServeExtend(name, amount, got, clean);
      case AttachAct(input) => ServeAttach(input, clean);
    }

    /**
      Any sequence of operations, with any calls failing.  Attachments always name
      existing disks.  If rollback detaches and attachment deletes work, and
      libvirt refuses occupied targets or no attachment is asked for while it is
      there, attachments and devices correspond one to one; in particular no two
      attachments share VM and target.  If the rollback `lvremove` and the
      deletion of records work, every record has its LV and header.
     */
    method Serve(acts: seq<Act>) returns (ghost seen: seq<AttMap>)
      requires Valid() && InStep(true)
      modifies this`calls, this`disks, this`atts, this`lvs, this`headers, this`temps, this`devs, this`resizes
      ensures Trace(acts, seen, nodeId) && seen[0] == old(atts) && seen[|acts|] == atts
      ensures Referential(disks, atts)
      ensures Tame() && (strict || NoReattach(acts, seen)) ==>
                && Synced(disks, atts, devs)
                && forall k, l | k in atts && l in atts && k != l ::
                     atts[k].vm != atts[l].vm || atts[k].target != atts[l].target
      ensures Never(UndoLvCreateCall) && Never(DeleteDiskCall) ==> Backed(disks, lvs, headers)
    {
      seen := [atts];
      ghost var clean := true;
      for i := 0 to |acts|
        invariant Valid() && InStep(clean)
        invariant Trace(acts[..i], seen, nodeId) && seen[0] == old(atts) && seen[i] == atts
        invariant NoReattach(acts[..i], seen) ==> clean
      {
        ghost var before, was := atts, seen;
        ServeOne(acts[i], clean);
        seen := seen + [atts];
        TraceNext(acts, was, nodeId, i, before, atts);
        clean := clean && !(acts[i].AttachAct? && Reattach(before, acts[i].attach));
      }
      assert acts[..|acts|] == acts;
    }
  }

  lemma TraceNext(acts: seq<Act>, seen: seq<AttMap>, node: string, i: nat, before: AttMap, after: AttMap)
    requires i < |acts| && Trace(acts[..i], seen, node) && seen[i] == before
    requires AttStep(before, acts[i], after, node)
    ensures Trace(acts[..i + 1], seen + [after], node)
    ensures NoReattach(acts[..i + 1], seen + [after]) ==>
              NoReattach(acts[..i], seen) && !(acts[i].AttachAct? && Reattach(before, acts[i].attach))
  {
    var acts', seen' := acts[..i + 1], seen + [after];
    forall j | 0 <= j < |acts'| ensures AttStep(seen'[j], acts'[j], seen'[j + 1], node) {
      if j < i { assert AttStep(seen[j], acts[..i][j], seen[j + 1], node); }
    }
    if NoReattach(acts', seen') {
      assert acts'[i].AttachAct? ==> !Reattach(seen'[i], acts'[i].attach);
      forall j | 0 <= j < i && acts[..i][j].AttachAct? ensures !Reattach(seen[j], acts[..i][j].attach) {
        assert acts'[j] == acts[..i][j] && seen'[j] == seen[j];
      }
    }
  }

  lemma NothingDetached(atts: AttMap, devs: DevMap)
    ensures forall list: seq<AttachmentRecord> :: list[..0] == []
    ensures Without(atts, []) == atts && Unplugged(devs, []) == devs
  {
  }
}