/**
  The three catalog backends over their flat key spaces, and the one abstract
  catalog they implement.

  No backend refuses a name for the characters in it, so none is refused here:
  every operation is said to answer as the abstract catalog does exactly when
  no other attachment in the catalog has the key of the one in question.
 */
module Stores {
  import opened Records
  import opened Ordering

  // ----- the abstract catalog

  /** Disks by name and attachments by (disk, VM). */
  datatype Catalog = Catalog(
    disks: map<string, DiskRecord>,
    atts: map<(string, string), AttachmentRecord>)

  datatype Op =
    | CreateDisk(rec: DiskRecord)
    | UpdateDisk(rec: DiskRecord)
    | GetDisk(name: string)
    | ListDisks(vg: string)
    | DeleteDisk(name: string)
    | CreateAttachment(att: AttachmentRecord)
    | GetAttachment(disk: string, vm: string)
    | ListAttachments(disk: string, vm: string)
    | DeleteAttachment(disk: string, vm: string)

  datatype Reply =
    | Done
    | Refused(error: Error)
    | Disk(rec: DiskRecord)
    | Disks(recs: seq<DiskRecord>)
    | Attachment(att: AttachmentRecord)
    | Attachments(atts: seq<AttachmentRecord>)

  ghost predicate WellFormed(c: Catalog) {
    && (forall x | x in c.disks :: c.disks[x].name == x)
    && (forall k | k in c.atts :: c.atts[k].disk == k.0 && c.atts[k].vm == k.1)
  }

  /** The listing of the disks of one volume group, or of all for the empty name. */
  ghost predicate ListsDisks(recs: seq<DiskRecord>, c: Catalog, vg: string) {
    && Sorted(recs, DiskLess)
    && forall r :: r in recs <==>
         r.name in c.disks && c.disks[r.name] == r && (vg == "" || r.vg == vg)
  }

  /** The listing of attachments, filtered by disk and VM unless empty. */
  ghost predicate ListsAttachments(atts: seq<AttachmentRecord>, c: Catalog, disk: string, vm: string) {
    && Sorted(atts, AttLess)
    && forall a :: a in atts <==>
         && (a.disk, a.vm) in c.atts && c.atts[(a.disk, a.vm)] == a
         && (disk == "" || a.disk == disk) && (vm == "" || a.vm == vm)
  }

  /** What an operation answers and leaves behind. */
  ghost predicate Serves(c: Catalog, op: Op, c': Catalog, reply: Reply) {
    match op
    case CreateDisk(r) =>
      if r.name in c.disks then c' == c && reply == Refused(AlreadyExists)
      else c' == c.(disks := c.disks[r.name := r]) && reply == Done
    case UpdateDisk(r) =>
      if r.name !in c.disks then c' == c && reply == Refused(NotFound)
      else c' == c.(disks := c.disks[r.name := r]) && reply == Done
    case GetDisk(x) =>
      c' == c && reply == if x in c.disks then Disk(c.disks[x]) else Refused(NotFound)
    case ListDisks(vg) =>
      c' == c && reply.Disks? && ListsDisks(reply.recs, c, vg)
    case DeleteDisk(x) =>
      c' == c.(disks := c.disks - {x}) && reply == Done
    case CreateAttachment(a) =>
      if (a.disk, a.vm) in c.atts then c' == c && reply == Refused(AlreadyExists)
      else c' == c.(atts := c.atts[(a.disk, a.vm) := a]) && reply == Done
    case GetAttachment(d, v) =>
      c' == c && reply == if (d, v) in c.atts then Attachment(c.atts[(d, v)]) else Refused(NotFound)
    case ListAttachments(d, v) =>
      c' == c && reply.Attachments? && ListsAttachments(reply.atts, c, d, v)
    case DeleteAttachment(d, v) =>
      c' == c.(atts := c.atts - {(d, v)}) && reply == Done
  }

  /** Whatever serves an operation gives the one answer, listings included. */
  lemma ServesDeterministic(c: Catalog, op: Op, c1: Catalog, r1: Reply, c2: Catalog, r2: Reply)
    requires Serves(c, op, c1, r1) && Serves(c, op, c2, r2)
    ensures c1 == c2 && r1 == r2
  {
    match op
    case ListDisks(vg) =>
      DiskOrder();
      SortedUnique(r1.recs, r2.recs, DiskLess);
    case ListAttachments(d, v) =>
      AttOrder();
      SortedUnique(r1.atts, r2.atts, AttLess);
    case _ =>
  }

  /** Listings come in dictionary order, and hold exactly what is asked for. */
  lemma ListingsInOrder(c: Catalog, op: Op, c': Catalog, reply: Reply)
    requires Serves(c, op, c', reply)
    ensures op.ListDisks? ==>
              && reply.Disks?
              && (forall i | 0 <= i < |reply.recs| - 1 :: NameBefore(reply.recs[i].name, reply.recs[i + 1].name))
              && forall r :: r in reply.recs <==>
                   r.name in c.disks && c.disks[r.name] == r && (op.vg == "" || r.vg == op.vg)
    ensures op.ListAttachments? ==>
              && reply.Attachments?
              && (forall i | 0 <= i < |reply.atts| - 1 ::
                    var a, b := reply.atts[i], reply.atts[i + 1];
                    NameBefore(a.disk, b.disk) || (a.disk == b.disk && NameBefore(a.vm, b.vm)))
              && forall a :: a in reply.atts <==>
                   && (a.disk, a.vm) in c.atts && c.atts[(a.disk, a.vm)] == a
                   && (op.disk == "" || a.disk == op.disk) && (op.vm == "" || a.vm == op.vm)
  {
    match op
    case ListDisks(vg) =>
      forall i | 0 <= i < |reply.recs| - 1 ensures NameBefore(reply.recs[i].name, reply.recs[i + 1].name) {
        DiskNeighbours(reply.recs, i);
      }
    case ListAttachments(d, v) =>
      forall i | 0 <= i < |reply.atts| - 1
        ensures var a, b := reply.atts[i], reply.atts[i + 1];
                NameBefore(a.disk, b.disk) || (a.disk == b.disk && NameBefore(a.vm, b.vm))
      {
        AttNeighbours(reply.atts, i);
      }
    case _ =>
  }

  /** What the catalog promises across operations: a record is there, and alone under its
      name, from its creation to its deletion; updates are seen, and other names unaffected. */
  lemma CatalogLaws(c: Catalog, r: DiskRecord, x: string, op: Op, c': Catalog, reply: Reply)
    requires Serves(c, op, c', reply)
    requires op == CreateDisk(r) || op == UpdateDisk(r) || op == DeleteDisk(r.name)
    ensures op == CreateDisk(r) ==> (reply == Done <==> r.name !in c.disks)
    ensures op == UpdateDisk(r) ==> (reply == Done <==> r.name in c.disks)
    ensures op == CreateDisk(r) && reply != Done ==> reply == Refused(AlreadyExists) && c' == c
    ensures op == UpdateDisk(r) && reply != Done ==> reply == Refused(NotFound) && c' == c
    ensures !op.DeleteDisk? && reply == Done ==> Serves(c', GetDisk(r.name), c', Disk(r))
    ensures op.DeleteDisk? ==> reply == Done && Serves(c', GetDisk(r.name), c', Refused(NotFound))
    ensures x != r.name ==> forall g :: Serves(c, GetDisk(x), c, g) <==> Serves(c', GetDisk(x), c', g)
    ensures c'.atts == c.atts
  {
  }

  lemma AttachmentLaws(c: Catalog, a: AttachmentRecord, k: (string, string), op: Op, c': Catalog, reply: Reply)
    requires Serves(c, op, c', reply)
    requires op == CreateAttachment(a) || op == DeleteAttachment(a.disk, a.vm)
    ensures op.CreateAttachment? ==> (reply == Done <==> (a.disk, a.vm) !in c.atts)
    ensures op.CreateAttachment? && reply != Done ==> reply == Refused(AlreadyExists) && c' == c
    ensures op.CreateAttachment? && reply == Done ==> Serves(c', GetAttachment(a.disk, a.vm), c', Attachment(a))
    ensures op.DeleteAttachment? ==>
              reply == Done && Serves(c', GetAttachment(a.disk, a.vm), c', Refused(NotFound))
    ensures k != (a.disk, a.vm) ==>
              forall g :: Serves(c, GetAttachment(k.0, k.1), c, g) <==> Serves(c', GetAttachment(k.0, k.1), c', g)
    ensures c'.disks == c.disks
  {
  }

  // ----- keys

  /** How an attachment's key is made of its two names. */
  datatype KeyFormat = KeyFormat(prefix: string, sep: char) {
    function Key(disk: string, vm: string): string {
      prefix + (disk + [sep] + vm)
    }

    /** What all keys of one disk start with. */
    function Range(disk: string): string {
      prefix + (disk + [sep])
    }
  }

  /** The composite key of the memory and bolt stores. */
  const BARS: KeyFormat := KeyFormat("", '|')

  function SLASHES(prefix: string): KeyFormat {
    KeyFormat(prefix + "/attachments/", '/')
  }

  lemma KeyTexts(prefix: string, disk: string, vm: string)
    ensures BARS.Key(disk, vm) == disk + "|" + vm
    ensures SLASHES(prefix).Key(disk, vm) == prefix + "/attachments/" + disk + "/" + vm
    ensures SLASHES(prefix).Range(disk) == prefix + "/attachments/" + disk + "/"
  {
  }

  /** Neither name is the other one followed by the separator and more. */
  predicate Apart(sep: char, a: string, b: string) {
    !(a + [sep] <= b) && !(b + [sep] <= a)
  }

  lemma LongerIsNested(f: KeyFormat, d1: string, v1: string, d2: string, v2: string)
    requires f.Key(d1, v1) == f.Key(d2, v2) && |d1| < |d2|
    ensures d1 + [f.sep] <= d2
  {
    var n := |f.prefix|;
    assert f.Key(d1, v1)[n..] == d1 + [f.sep] + v1 && f.Key(d2, v2)[n..] == d2 + [f.sep] + v2;
    var s := d1 + [f.sep] + v1;
    assert s[..|d1| + 1] == d1 + [f.sep] && s[..|d2|] == d2;
    assert d2[..|d1| + 1] == s[..|d1| + 1];
  }

  /** Names that are equal or apart have different keys for different pairs. */
  lemma KeyInjective(f: KeyFormat, d1: string, v1: string, d2: string, v2: string)
    requires d1 == d2 || Apart(f.sep, d1, d2)
    requires f.Key(d1, v1) == f.Key(d2, v2)
    ensures d1 == d2 && v1 == v2
  {
    if |d1| < |d2| { LongerIsNested(f, d1, v1, d2, v2); }
    if |d2| < |d1| { LongerIsNested(f, d2, v2, d1, v1); }
    var n := |f.prefix|;
    assert f.Key(d1, v1)[n..] == d1 + [f.sep] + v1 && f.Key(d2, v2)[n..] == d2 + [f.sep] + v2;
    if |d1| == |d2| { SameSplit(f.sep, d1, v1, d2, v2); }
  }

  /** The VM that gives the shorter of two nested names the key of the longer. */
  function Twin(sep: char, d1: string, d2: string, v: string): string
    requires d1 + [sep] <= d2
  {
    d2[|d1| + 1..] + [sep] + v
  }

  lemma TwinCollides(f: KeyFormat, d1: string, d2: string, v: string)
    requires d1 + [f.sep] <= d2
    ensures f.Key(d1, Twin(f.sep, d1, d2, v)) == f.Key(d2, v)
  {
    assert d2 == d1 + [f.sep] + d2[|d1| + 1..];
    assert d1 + [f.sep] + Twin(f.sep, d1, d2, v) == d2 + [f.sep] + v;
  }

  /** Exactly which two disks can get attachments with one key. */
  lemma KeysCollideIff(f: KeyFormat, d1: string, d2: string)
    requires d1 != d2
    ensures (exists v1, v2 :: f.Key(d1, v1) == f.Key(d2, v2)) <==> !Apart(f.sep, d1, d2)
  {
    if v1, v2 :| f.Key(d1, v1) == f.Key(d2, v2) {
      if Apart(f.sep, d1, d2) { KeyInjective(f, d1, v1, d2, v2); }
    }
    if d1 + [f.sep] <= d2 { TwinCollides(f, d1, d2, ""); }
    if d2 + [f.sep] <= d1 { TwinCollides(f, d2, d1, ""); }
  }

  lemma NestedAt(sep: char, a: string, b: string)
    requires a + [sep] <= b
    ensures |a| < |b| && b[|a|] == sep
  {
    assert (a + [sep])[|a|] == sep;
  }

  /** Names without the separator are apart. */
  lemma PlainNamesApart(sep: char, a: string, b: string)
    requires sep !in a && sep !in b
    ensures Apart(sep, a, b)
  {
    if a + [sep] <= b { NestedAt(sep, a, b); }
    if b + [sep] <= a { NestedAt(sep, b, a); }
  }

  /** `normaliseCreate` accepts disk names that are not apart. */
  lemma AcceptedNamesCollide()
    ensures ValidName("a") && ValidName("a|b") && !Apart('|', "a", "a|b")
  {
    assert "a" + ['|'] == "a|b"[..2];
  }

  /** Two names cannot be nested by two separators. */
  lemma NestedOnce(d1: string, d2: string, sep: char, other: char)
    requires d1 + [sep] <= d2 && sep != other
    ensures Apart(other, d1, d2)
  {
    NestedAt(sep, d1, d2);
    if d1 + [other] <= d2 { NestedAt(other, d1, d2); }
  }

  /**
    A scan of one disk's key range finds an attachment if and only if filtering by
    disk would, whatever the VM is called, for disk names that are apart.
   */
  lemma PrefixScanIsFilter(f: KeyFormat, disk: string, d: string, v: string)
    requires d == disk || Apart(f.sep, disk, d)
    ensures f.Range(disk) <= f.Key(d, v) <==> d == disk
  {
    var key := f.Key(d, v);
    if d == disk {
      assert key == f.Range(disk) + v;
    } else if f.Range(disk) <= key {
      var rest := key[|f.Range(disk)|..];
      assert key == f.Key(disk, rest);
      KeyInjective(f, disk, rest, d, v);
    }
  }

  // ----- listings: collect what passes the filter, then sort

  predicate DiskMatches(r: DiskRecord, vg: string) {
    vg == "" || r.vg == vg
  }

  method CollectDisks(entries: map<string, DiskRecord>, vg: string) returns (out: seq<DiskRecord>)
    requires forall k, l | k in entries && l in entries :: entries[k].name == entries[l].name ==> k == l
    ensures Sorted(out, DiskLess)
    ensures forall r :: r in out <==> DiskMatches(r, vg) && exists k :: k in entries && entries[k] == r
  {
    DiskOrder();
    out := Collect(entries, (r: DiskRecord) => DiskMatches(r, vg), DiskLess);
  }

  predicate AttMatches(a: AttachmentRecord, disk: string, vm: string) {
    (disk == "" || a.disk == disk) && (vm == "" || a.vm == vm)
  }

  method CollectAttachments<K(!new)>(entries: map<K, AttachmentRecord>, disk: string, vm: string)
      returns (out: seq<AttachmentRecord>)
    requires forall k, l | k in entries && l in entries ::
               entries[k].disk == entries[l].disk && entries[k].vm == entries[l].vm ==> k == l
    ensures Sorted(out, AttLess)
    ensures forall a :: a in out <==> AttMatches(a, disk, vm) && exists k :: k in entries && entries[k] == a
  {
    AttOrder();
    out := Collect(entries, (a: AttachmentRecord) => AttMatches(a, disk, vm), AttLess);
  }

  // ----- when an operation answers as the abstract catalog does

  type AttMap = map<(string, string), AttachmentRecord>

  /** Another attachment has the key of this pair. */
  ghost predicate Shadowed(f: KeyFormat, atts: AttMap, d: string, v: string) {
    exists k :: k in atts && k != (d, v) && f.Key(k.0, k.1) == f.Key(d, v)
  }

  /** The pair of names an operation looks up by key. */
  function KeyPair(op: Op): Option<(string, string)> {
    match op
    case CreateAttachment(a) => Some((a.disk, a.vm))
    case GetAttachment(d, v) => Some((d, v))
    case DeleteAttachment(d, v) => Some((d, v))
    case _ => None
  }

  ghost predicate Unshadowed(f: KeyFormat, op: Op, c: Catalog) {
    match KeyPair(op) case Some(k) => !Shadowed(f, c.atts, k.0, k.1) case None => true
  }

  /** An attachment of another disk lies in the key range of the one that is listed. */
  ghost predicate Strays(f: KeyFormat, atts: AttMap, disk: string, vm: string) {
    disk != "" && exists k :: k in atts && k.0 != disk && (vm == "" || k.1 == vm) && f.Range(disk) <= f.Key(k.0, k.1)
  }

  /** The etcd store scans a key range where the others filter. */
  ghost predicate InRange(f: KeyFormat, op: Op, c: Catalog) {
    op.ListAttachments? ==> !Strays(f, c.atts, op.disk, op.vm)
  }

  /** `held` is the one attachment with the key of this pair. */
  ghost predicate HeldAt(f: KeyFormat, atts: AttMap, d: string, v: string, held: Option<AttachmentRecord>) {
    && (held.Some? ==>
          && (held.value.disk, held.value.vm) in atts && atts[(held.value.disk, held.value.vm)] == held.value
          && f.Key(held.value.disk, held.value.vm) == f.Key(d, v))
    && (forall k | k in atts && f.Key(k.0, k.1) == f.Key(d, v) ::
          held.Some? && k == (held.value.disk, held.value.vm))
  }

  lemma ShadowedIff(f: KeyFormat, atts: AttMap, d: string, v: string, held: Option<AttachmentRecord>)
    requires HeldAt(f, atts, d, v, held)
    ensures Shadowed(f, atts, d, v) <==> held.Some? && (held.value.disk, held.value.vm) != (d, v)
    ensures (d, v) in atts <==> held.Some? && (held.value.disk, held.value.vm) == (d, v)
  {
  }

  /** Creating what is not held and refusing what is, is what the catalog does, unless
      the key is another attachment's. */
  lemma CreateServes(f: KeyFormat, c: Catalog, held: Option<AttachmentRecord>, a: AttachmentRecord)
    requires HeldAt(f, c.atts, a.disk, a.vm, held)
    ensures var c' := if held.Some? then c else c.(atts := c.atts[(a.disk, a.vm) := a]);
            Serves(c, CreateAttachment(a), c', if held.Some? then Refused(AlreadyExists) else Done)
            <==> !Shadowed(f, c.atts, a.disk, a.vm)
  {
    ShadowedIff(f, c.atts, a.disk, a.vm, held);
  }

  lemma GetServes(f: KeyFormat, c: Catalog, held: Option<AttachmentRecord>, d: string, v: string)
    requires HeldAt(f, c.atts, d, v, held)
    ensures Serves(c, GetAttachment(d, v), c, if held.Some? then Attachment(held.value) else Refused(NotFound))
            <==> !Shadowed(f, c.atts, d, v)
  {
    ShadowedIff(f, c.atts, d, v, held);
  }

  /** The attachments without the one that is held. */
  function Dropped(atts: AttMap, held: Option<AttachmentRecord>): AttMap {
    if held.Some? then atts - {(held.value.disk, held.value.vm)} else atts
  }

  lemma DeleteServes(f: KeyFormat, c: Catalog, held: Option<AttachmentRecord>, d: string, v: string)
    requires HeldAt(f, c.atts, d, v, held)
    ensures Serves(c, DeleteAttachment(d, v), c.(atts := Dropped(c.atts, held)), Done)
            <==> !Shadowed(f, c.atts, d, v)
  {
    ShadowedIff(f, c.atts, d, v, held);
    var atts' := Dropped(c.atts, held);
    if held.Some? && (held.value.disk, held.value.vm) != (d, v) {
      assert (held.value.disk, held.value.vm) in c.atts - {(d, v)};
      assert (held.value.disk, held.value.vm) !in atts';
    } else if held.None? {
      assert c.atts - {(d, v)} == c.atts;
    }
  }

  // ----- attachments under their '|' keys

  type Entries = map<string, AttachmentRecord>

  /** Every attachment is stored under its own key, and nothing else is. */
  ghost predicate Stored(f: KeyFormat, entries: Entries, atts: AttMap) {
    && (forall k | k in atts ::
          f.Key(k.0, k.1) in entries && entries[f.Key(k.0, k.1)] == atts[k] && atts[k].disk == k.0 && atts[k].vm == k.1)
    && (forall s | s in entries ::
          s == f.Key(entries[s].disk, entries[s].vm) && (entries[s].disk, entries[s].vm) in atts)
  }

  function HeldIn(entries: Entries, s: string): Option<AttachmentRecord> {
    if s in entries then Some(entries[s]) else None
  }

  lemma Lookup(f: KeyFormat, entries: Entries, atts: AttMap, d: string, v: string)
    requires Stored(f, entries, atts)
    ensures HeldAt(f, atts, d, v, HeldIn(entries, f.Key(d, v)))
  {
  }

  lemma InsertStored(f: KeyFormat, entries: Entries, atts: AttMap, a: AttachmentRecord)
    requires Stored(f, entries, atts) && f.Key(a.disk, a.vm) !in entries
    ensures Stored(f, entries[f.Key(a.disk, a.vm) := a], atts[(a.disk, a.vm) := a])
  {
  }

  lemma RemoveStored(f: KeyFormat, entries: Entries, atts: AttMap, s: string)
    requires Stored(f, entries, atts)
    ensures Stored(f, entries - {s}, Dropped(atts, HeldIn(entries, s)))
  {
    if s in entries {
      var gone := (entries[s].disk, entries[s].vm);
      assert forall k | k in atts && k != gone :: f.Key(k.0, k.1) != s;
    }
  }

  lemma ListServes(f: KeyFormat, entries: Entries, c: Catalog, d: string, v: string, out: seq<AttachmentRecord>)
    requires Stored(f, entries, c.atts) && Sorted(out, AttLess)
    requires forall a :: a in out <==> AttMatches(a, d, v) && exists s :: s in entries && entries[s] == a
    ensures ListsAttachments(out, c, d, v)
  {
    forall a ensures a in out <==> (a.disk, a.vm) in c.atts && c.atts[(a.disk, a.vm)] == a && AttMatches(a, d, v) {
      if (a.disk, a.vm) in c.atts && c.atts[(a.disk, a.vm)] == a { assert f.Key(a.disk, a.vm) in entries; }
    }
  }

  // ----- the backends

  /** Two maps in memory. */
  class MemoryStore {
    var disks: map<string, DiskRecord>
    var attachments: Entries
    ghost var catalog: Catalog

    ghost predicate Valid()
      reads this
    {
      && disks == catalog.disks && (forall x | x in disks :: disks[x].name == x)
      && Stored(BARS, attachments, catalog.atts)
    }

    constructor ()
      ensures Valid() && catalog == Catalog(map[], map[]) && attachments == map[]
    {
      disks, attachments := map[], map[];
      catalog := Catalog(map[], map[]);
    }

    method CreateAttachment(a: AttachmentRecord) returns (reply: Reply)
      requires Valid()
      modifies this`attachments, this`catalog
      ensures Valid()
      ensures var held := HeldIn(old(attachments), BARS.Key(a.disk, a.vm));
              && HeldAt(BARS, old(catalog).atts, a.disk, a.vm, held)
              && reply == (if held.Some? then Refused(AlreadyExists) else Done)
              && attachments == (if held.Some? then old(attachments) else old(attachments)[BARS.Key(a.disk, a.vm) := a])
              && catalog == if held.Some? then old(catalog)
                            else old(catalog).(atts := old(catalog).atts[(a.disk, a.vm) := a])
    {
      var key := BARS.Key(a.disk, a.vm);
      Lookup(BARS, attachments, catalog.atts, a.disk, a.vm);
      if key in attachments { return Refused(AlreadyExists); }
      InsertStored(BARS, attachments, catalog.atts, a);
      attachments := attachments[key := a];
      catalog := catalog.(atts := catalog.atts[(a.disk, a.vm) := a]);
      reply := Done;
    }

    method DeleteAttachment(d: string, v: string)
      requires Valid()
      modifies this`attachments, this`catalog
      ensures Valid()
      ensures var held := HeldIn(old(attachments), BARS.Key(d, v));
              && HeldAt(BARS, old(catalog).atts, d, v, held)
              && catalog == old(catalog).(atts := Dropped(old(catalog).atts, held))
    {
      var key := BARS.Key(d, v);
      Lookup(BARS, attachments, catalog.atts, d, v);
      RemoveStored(BARS, attachments, catalog.atts, key);
      catalog := catalog.(atts := Dropped(catalog.atts, HeldIn(attachments, key)));
      attachments := attachments - {key};
    }

    /** Every operation answers as the abstract catalog does, exactly unless its key is shadowed. */
    method Do(op: Op) returns (reply: Reply)
      requires Valid()
      modifies this
      ensures Valid() && (Serves(old(catalog), op, catalog, reply) <==> Unshadowed(BARS, op, old(catalog)))
    {
      match op
      case CreateDisk(r) =>
        if r.name in disks { return Refused(AlreadyExists); }
        disks := disks[r.name := r];
        catalog := catalog.(disks := disks);
        reply := Done;
      case UpdateDisk(r) =>
        if r.name !in disks { return Refused(NotFound); }
        disks := disks[r.name := r];
        catalog := catalog.(disks := disks);
        reply := Done;
      case GetDisk(x) =>
        reply := if x in disks then Disk(disks[x]) else Refused(NotFound);
      case ListDisks(vg) =>
        var out := CollectDisks(disks, vg);
        reply := Disks(out);
      case DeleteDisk(x) =>
        disks := disks - {x};
        catalog := catalog.(disks := disks);
        reply := Done;
      case CreateAttachment(a) =>
        CreateServes(BARS, catalog, HeldIn(attachments, BARS.Key(a.disk, a.vm)), a) by {
          Lookup(BARS, attachments, catalog.atts, a.disk, a.vm);
        }
        reply := CreateAttachment(a);
      case GetAttachment(d, v) =>
        var key := BARS.Key(d, v);
        Lookup(BARS, attachments, catalog.atts, d, v);
        GetServes(BARS, catalog, HeldIn(attachments, key), d, v);
        reply := if key in attachments then Attachment(attachments[key]) else Refused(NotFound);
      case ListAttachments(d, v) =>
        var out := CollectAttachments(attachments, d, v);
        ListServes(BARS, attachments, catalog, d, v, out);
        reply := Attachments(out);
      case DeleteAttachment(d, v) =>
        Lookup(BARS, attachments, catalog.atts, d, v);
        DeleteServes(BARS, catalog, HeldIn(attachments, BARS.Key(d, v)), d, v);
        DeleteAttachment(d, v);
        reply := Done;
    }
  }

  /** Two buckets of one database file; a bucket refuses the empty key. */
  class BoltStore {
    var diskBucket: map<string, DiskRecord>
    var attachmentBucket: Entries
    ghost var catalog: Catalog

    ghost predicate Valid()
      reads this
    {
      && diskBucket == catalog.disks && (forall x | x in diskBucket :: diskBucket[x].name == x != "")
      && Stored(BARS, attachmentBucket, catalog.atts)
    }

    constructor ()
      ensures Valid() && catalog == Catalog(map[], map[]) && attachmentBucket == map[]
    {
      diskBucket, attachmentBucket := map[], map[];
      catalog := Catalog(map[], map[]);
    }

    method CreateAttachment(a: AttachmentRecord) returns (reply: Reply)
      requires Valid()
      modifies this`attachmentBucket, this`catalog
      ensures Valid()
      ensures var held := HeldIn(old(attachmentBucket), BARS.Key(a.disk, a.vm));
              && HeldAt(BARS, old(catalog).atts, a.disk, a.vm, held)
              && reply == (if held.Some? then Refused(AlreadyExists) else Done)
              && attachmentBucket == (if held.Some? then old(attachmentBucket)
                                      else old(attachmentBucket)[BARS.Key(a.disk, a.vm) := a])
              && catalog == if held.Some? then old(catalog)
                            else old(catalog).(atts := old(catalog).atts[(a.disk, a.vm) := a])
    {
      var key := BARS.Key(a.disk, a.vm);
      Lookup(BARS, attachmentBucket, catalog.atts, a.disk, a.vm);
      if key in attachmentBucket { return Refused(AlreadyExists); }
      InsertStored(BARS, attachmentBucket, catalog.atts, a);
      attachmentBucket := attachmentBucket[key := a];
      catalog := catalog.(atts := catalog.atts[(a.disk, a.vm) := a]);
      reply := Done;
    }

    method DeleteAttachment(d: string, v: string)
      requires Valid()
      modifies this`attachmentBucket, this`catalog
      ensures Valid()
      ensures var held := HeldIn(old(attachmentBucket), BARS.Key(d, v));
              && HeldAt(BARS, old(catalog).atts, d, v, held)
              && catalog == old(catalog).(atts := Dropped(old(catalog).atts, held))
    {
      var key := BARS.Key(d, v);
      Lookup(BARS, attachmentBucket, catalog.atts, d, v);
      RemoveStored(BARS, attachmentBucket, catalog.atts, key);
      catalog := catalog.(atts := Dropped(catalog.atts, HeldIn(attachmentBucket, key)));
      attachmentBucket := attachmentBucket - {key};
    }

    method PutDisk(r: DiskRecord) returns (reply: Reply)
      requires Valid()
      modifies this`diskBucket, this`catalog
      ensures Valid()
      ensures r.name == "" ==> catalog == old(catalog) && reply == Refused(StoreFailed)
      ensures r.name != "" ==> catalog == old(catalog).(disks := old(catalog).disks[r.name := r]) && reply == Done
    {
      if r.name == "" { return Refused(StoreFailed); }
      diskBucket := diskBucket[r.name := r];
      catalog := catalog.(disks := diskBucket);
      reply := Done;
    }

    /** Every operation answers as the abstract catalog does, exactly unless its key is shadowed. */
    method Do(op: Op) returns (reply: Reply)
      requires Valid()
      modifies this
      ensures Valid()
      ensures Serves(old(catalog), op, catalog, reply) <==>
              Unshadowed(BARS, op, old(catalog)) && !(op.CreateDisk? && op.rec.name == "")
    {
      match op
      case CreateDisk(r) =>
        if r.name in diskBucket { return Refused(AlreadyExists); }
        reply := PutDisk(r);
      case UpdateDisk(r) =>
        if r.name !in diskBucket { return Refused(NotFound); }
        reply := PutDisk(r);
      case GetDisk(x) =>
        reply := if x in diskBucket then Disk(diskBucket[x]) else Refused(NotFound);
      case ListDisks(vg) =>
        var out := CollectDisks(diskBucket, vg);
        reply := Disks(out);
      case DeleteDisk(x) =>
        diskBucket := diskBucket - {x};
        catalog := catalog.(disks := diskBucket);
        reply := Done;
      case CreateAttachment(a) =>
        CreateServes(BARS, catalog, HeldIn(attachmentBucket, BARS.Key(a.disk, a.vm)), a) by {
          Lookup(BARS, attachmentBucket, catalog.atts, a.disk, a.vm);
        }
        reply := CreateAttachment(a);
      case GetAttachment(d, v) =>
        var key := BARS.Key(d, v);
        Lookup(BARS, attachmentBucket, catalog.atts, d, v);
        GetServes(BARS, catalog, HeldIn(attachmentBucket, key), d, v);
        reply := if key in attachmentBucket then Attachment(attachmentBucket[key]) else Refused(NotFound);
      case ListAttachments(d, v) =>
        var out := CollectAttachments(attachmentBucket, d, v);
        ListServes(BARS, attachmentBucket, catalog, d, v, out);
        reply := Attachments(out);
      case DeleteAttachment(d, v) =>
        Lookup(BARS, attachmentBucket, catalog.atts, d, v);
        DeleteServes(BARS, catalog, HeldIn(attachmentBucket, BARS.Key(d, v)), d, v);
        DeleteAttachment(d, v);
        reply := Done;
    }
  }

  /** What etcd holds under the prefix: records, and the keys of locks and nodes. */
  datatype Value = DiskValue(rec: DiskRecord) | AttachmentValue(att: AttachmentRecord) | OtherValue

  type KeySpace = map<string, Value>

  function DiskRange(prefix: string): string {
    prefix + "/disks/"
  }

  function DiskKey(prefix: string, name: string): string {
    DiskRange(prefix) + name
  }

  /** A value is the catalog's and lies under its own key, or is none of the catalog's business. */
  ghost predicate ValueOk(p: string, s: string, value: Value, c: Catalog) {
    match value
    case DiskValue(r) => s == DiskKey(p, r.name) && r.name in c.disks
    case AttachmentValue(a) => s == SLASHES(p).Key(a.disk, a.vm) && (a.disk, a.vm) in c.atts
    case OtherValue => p + "/locks/" <= s || p + "/nodes/" <= s
  }

  ghost predicate EtcdHolds(p: string, kv: KeySpace, c: Catalog) {
    && (forall x | x in c.disks :: DiskKey(p, x) in kv && kv[DiskKey(p, x)] == DiskValue(c.disks[x]))
    && (forall k | k in c.atts ::
          SLASHES(p).Key(k.0, k.1) in kv && kv[SLASHES(p).Key(k.0, k.1)] == AttachmentValue(c.atts[k]))
    && (forall s | s in kv :: ValueOk(p, s, kv[s], c))
    && WellFormed(c)
  }

  lemma DiskKeyText(prefix: string, name: string)
    ensures DiskKey(prefix, name) == prefix + "/disks/" + name
  {
  }

  lemma DiskKeyInjective(p: string, x: string, y: string)
    requires DiskKey(p, x) == DiskKey(p, y)
    ensures x == y
  {
    assert DiskKey(p, x)[|DiskRange(p)|..] == x && DiskKey(p, y)[|DiskRange(p)|..] == y;
  }

  lemma KeyMarks(p: string, x: string, d: string, v: string)
    ensures |DiskKey(p, x)| > |p| + 1 && DiskKey(p, x)[|p| + 1] == 'd'
    ensures |SLASHES(p).Key(d, v)| > |p| + 1 && SLASHES(p).Key(d, v)[|p| + 1] == 'a'
  {
  }

  /** What a key holds is told by the character after the prefix and its slash. */
  lemma KeyKind(p: string, s: string, value: Value, c: Catalog)
    requires ValueOk(p, s, value, c)
    ensures |s| > |p| + 1
    ensures value.DiskValue? <==> s[|p| + 1] == 'd'
    ensures value.AttachmentValue? <==> s[|p| + 1] == 'a'
  {
    match value
    case DiskValue(r) => KeyMarks(p, r.name, "", "");
    case AttachmentValue(a) => KeyMarks(p, "", a.disk, a.vm);
    case OtherValue =>
      assert (p + "/locks/")[|p| + 1] == 'l' && (p + "/nodes/")[|p| + 1] == 'n';
  }

  /** No disk key lies in the attachment range and no attachment key in the disk range. */
  lemma KeyRangesDisjoint(p: string, x: string, d: string, v: string)
    ensures !(SLASHES(p).prefix <= DiskKey(p, x)) && !(DiskRange(p) <= SLASHES(p).Key(d, v))
  {
    KeyMarks(p, x, d, v);
    assert SLASHES(p).prefix[|p| + 1] == 'a' && DiskRange(p)[|p| + 1] == 'd';
  }

  /** A disk key holds that disk or nothing. */
  lemma EtcdDiskLookup(p: string, kv: KeySpace, c: Catalog, x: string)
    requires EtcdHolds(p, kv, c)
    ensures DiskKey(p, x) in kv <==> x in c.disks
  {
    var s := DiskKey(p, x);
    if s in kv {
      KeyMarks(p, x, "", "");
      KeyKind(p, s, kv[s], c);
      DiskKeyInjective(p, x, kv[s].rec.name);
    }
  }

  function HeldUnder(kv: KeySpace, s: string): Option<AttachmentRecord> {
    if s in kv && kv[s].AttachmentValue? then Some(kv[s].att) else None
  }

  /** An attachment key holds an attachment or nothing. */
  lemma EtcdAttachmentLookup(p: string, kv: KeySpace, c: Catalog, d: string, v: string)
    requires EtcdHolds(p, kv, c)
    ensures SLASHES(p).Key(d, v) in kv ==> kv[SLASHES(p).Key(d, v)].AttachmentValue?
    ensures HeldAt(SLASHES(p), c.atts, d, v, HeldUnder(kv, SLASHES(p).Key(d, v)))
  {
    var s := SLASHES(p).Key(d, v);
    if s in kv {
      KeyMarks(p, "", d, v);
      KeyKind(p, s, kv[s], c);
    }
  }

  lemma EtcdPutDisk(p: string, kv: KeySpace, c: Catalog, r: DiskRecord)
    requires EtcdHolds(p, kv, c)
    ensures EtcdHolds(p, kv[DiskKey(p, r.name) := DiskValue(r)], c.(disks := c.disks[r.name := r]))
  {
    forall x | x in c.disks && x != r.name ensures DiskKey(p, x) != DiskKey(p, r.name) {
      if DiskKey(p, x) == DiskKey(p, r.name) { DiskKeyInjective(p, x, r.name); }
    }
    forall k | k in c.atts ensures SLASHES(p).Key(k.0, k.1) != DiskKey(p, r.name) {
      KeyMarks(p, r.name, k.0, k.1);
    }
  }

  lemma EtcdDropDisk(p: string, kv: KeySpace, c: Catalog, x: string)
    requires EtcdHolds(p, kv, c)
    ensures EtcdHolds(p, kv - {DiskKey(p, x)}, c.(disks := c.disks - {x}))
  {
    forall y | y in c.disks && y != x ensures DiskKey(p, y) != DiskKey(p, x) {
      if DiskKey(p, y) == DiskKey(p, x) { DiskKeyInjective(p, y, x); }
    }
    forall k | k in c.atts ensures SLASHES(p).Key(k.0, k.1) != DiskKey(p, x) {
      KeyMarks(p, x, k.0, k.1);
    }
  }

  lemma EtcdPutAttachment(p: string, kv: KeySpace, c: Catalog, a: AttachmentRecord)
    requires EtcdHolds(p, kv, c) && SLASHES(p).Key(a.disk, a.vm) !in kv
    ensures EtcdHolds(p, kv[SLASHES(p).Key(a.disk, a.vm) := AttachmentValue(a)],
                      c.(atts := c.atts[(a.disk, a.vm) := a]))
  {
  }

  lemma EtcdDropAttachment(p: string, kv: KeySpace, c: Catalog, d: string, v: string)
    requires EtcdHolds(p, kv, c)
    ensures var s := SLASHES(p).Key(d, v);
            EtcdHolds(p, kv - {s}, c.(atts := Dropped(c.atts, HeldUnder(kv, s))))
  {
    var s := SLASHES(p).Key(d, v);
    EtcdAttachmentLookup(p, kv, c, d, v);
    forall x | x in c.disks ensures DiskKey(p, x) != s { KeyMarks(p, x, d, v); }
  }

  /** The attachment is the catalog's, passes the VM filter, and lies in the range. */
  ghost predicate Scanned(f: KeyFormat, atts: AttMap, range: string, vm: string, a: AttachmentRecord) {
    && (a.disk, a.vm) in atts && atts[(a.disk, a.vm)] == a
    && (vm == "" || a.vm == vm) && range <= f.Key(a.disk, a.vm)
  }

  /** Listing a key range is listing by disk, unless an attachment of another disk strays into the range. */
  lemma ScanServes(f: KeyFormat, c: Catalog, disk: string, vm: string, out: seq<AttachmentRecord>)
    requires WellFormed(c) && Sorted(out, AttLess)
    requires var range := if disk == "" then f.prefix else f.Range(disk);
             forall a :: a in out <==> Scanned(f, c.atts, range, vm, a)
    ensures ListsAttachments(out, c, disk, vm) <==> !Strays(f, c.atts, disk, vm)
  {
    var range := if disk == "" then f.prefix else f.Range(disk);
    forall a: AttachmentRecord | disk == "" || a.disk == disk ensures range <= f.Key(a.disk, a.vm) {
      assert f.Key(a.disk, a.vm) == f.Range(a.disk) + a.vm;
    }
    if Strays(f, c.atts, disk, vm) {
      var k :| k in c.atts && k.0 != disk && (vm == "" || k.1 == vm) && f.Range(disk) <= f.Key(k.0, k.1);
      assert Scanned(f, c.atts, range, vm, c.atts[k]);
    } else {
      forall a | a in out ensures disk == "" || a.disk == disk {
        assert (a.disk, a.vm) in c.atts;
      }
    }
  }

  /** One flat key space; listings are prefix scans. */
  class EtcdStore {
    const prefix: string
    var kv: KeySpace
    ghost var catalog: Catalog

    ghost predicate Valid()
      reads this
    {
      EtcdHolds(prefix, kv, catalog)
    }

    /** `others` are the lock and membership keys under the same prefix. */
    constructor (prefix: string, others: set<string>)
      requires forall s | s in others :: prefix + "/locks/" <= s || prefix + "/nodes/" <= s
      ensures Valid() && this.prefix == prefix && catalog == Catalog(map[], map[]) && kv.Keys == others
    {
      this.prefix := prefix;
      kv := map s | s in others :: OtherValue;
      catalog := Catalog(map[], map[]);
    }

    method ScanDisks(vg: string) returns (out: seq<DiskRecord>)
      requires Valid()
      ensures ListsDisks(out, catalog, vg)
    {
      forall s | s in kv ensures DiskRange(prefix) <= s <==> kv[s].DiskValue? {
        KeyKind(prefix, s, kv[s], catalog);
        assert DiskRange(prefix)[|prefix| + 1] == 'd';
      }
      var found := map s | s in kv && DiskRange(prefix) <= s :: kv[s].rec;
      out := CollectDisks(found, vg);
      forall r ensures (exists s :: s in found && found[s] == r) <==>
                       r.name in catalog.disks && catalog.disks[r.name] == r {
        if r.name in catalog.disks && catalog.disks[r.name] == r {
          assert DiskKey(prefix, r.name) in found;
        }
      }
    }

    /** The attachments in the scanned range, filtered by VM. */
    method ScanAttachments(disk: string, vm: string) returns (out: seq<AttachmentRecord>)
      requires Valid()
      ensures ListsAttachments(out, catalog, disk, vm) <==> !Strays(SLASHES(prefix), catalog.atts, disk, vm)
    {
      var range := if disk == "" then SLASHES(prefix).prefix else SLASHES(prefix).Range(disk);
      forall s | s in kv && range <= s ensures kv[s].AttachmentValue? {
        KeyKind(prefix, s, kv[s], catalog);
        assert range[|prefix| + 1] == 'a';
      }
      var found := map s | s in kv && range <= s :: kv[s].att;
      out := CollectAttachments(found, "", vm);
      forall a ensures a in out <==> Scanned(SLASHES(prefix), catalog.atts, range, vm, a) {
        if Scanned(SLASHES(prefix), catalog.atts, range, vm, a) {
          assert SLASHES(prefix).Key(a.disk, a.vm) in found;
        }
      }
      ScanServes(SLASHES(prefix), catalog, disk, vm, out);
    }

    method CreateAttachment(a: AttachmentRecord) returns (reply: Reply)
      requires Valid()
      modifies this`kv, this`catalog
      ensures Valid()
      ensures var s := SLASHES(prefix).Key(a.disk, a.vm);
              && reply == (if s in old(kv) then Refused(AlreadyExists) else Done)
              && kv == (if s in old(kv) then old(kv) else old(kv)[s := AttachmentValue(a)])
              && catalog == if s in old(kv) then old(catalog)
                            else old(catalog).(atts := old(catalog).atts[(a.disk, a.vm) := a])
    {
      // Txn: put only if the key was never created.
      var key := SLASHES(prefix).Key(a.disk, a.vm);
      if key in kv { return Refused(AlreadyExists); }
      EtcdPutAttachment(prefix, kv, catalog, a);
      kv := kv[key := AttachmentValue(a)];
      catalog := catalog.(atts := catalog.atts[(a.disk, a.vm) := a]);
      reply := Done;
    }

    method PutDisk(r: DiskRecord)
      requires Valid()
      modifies this`kv, this`catalog
      ensures Valid() && catalog == old(catalog).(disks := old(catalog).disks[r.name := r])
    {
      EtcdPutDisk(prefix, kv, catalog, r);
      kv := kv[DiskKey(prefix, r.name) := DiskValue(r)];
      catalog := catalog.(disks := catalog.disks[r.name := r]);
    }

    /** Every operation answers as the abstract catalog does, exactly unless its key is
        shadowed or, for a listing, the scanned range holds strays. */
    method Do(op: Op) returns (reply: Reply)
      requires Valid()
      modifies this
      ensures Valid()
      ensures Serves(old(catalog), op, catalog, reply) <==>
              Unshadowed(SLASHES(prefix), op, old(catalog)) && InRange(SLASHES(prefix), op, old(catalog))
    {
      match op
      case CreateDisk(r) =>
        // Txn: put only if the key was never created.
        EtcdDiskLookup(prefix, kv, catalog, r.name);
        if DiskKey(prefix, r.name) in kv { return Refused(AlreadyExists); }
        PutDisk(r);
        reply := Done;
      case UpdateDisk(r) =>
        // Txn: put only if the key exists.
        EtcdDiskLookup(prefix, kv, catalog, r.name);
        if DiskKey(prefix, r.name) !in kv { return Refused(NotFound); }
        PutDisk(r);
        reply := Done;
      case GetDisk(x) =>
        EtcdDiskLookup(prefix, kv, catalog, x);
        var key := DiskKey(prefix, x);
        reply := if key in kv then Disk(kv[key].rec) else Refused(NotFound);
      case ListDisks(vg) =>
        var out := ScanDisks(vg);
        reply := Disks(out);
      case DeleteDisk(x) =>
        EtcdDropDisk(prefix, kv, catalog, x);
        kv := kv - {DiskKey(prefix, x)};
        catalog := catalog.(disks := catalog.disks - {x});
        reply := Done;
      case CreateAttachment(a) =>
        EtcdAttachmentLookup(prefix, kv, catalog, a.disk, a.vm);
        CreateServes(SLASHES(prefix), catalog, HeldUnder(kv, SLASHES(prefix).Key(a.disk, a.vm)), a);
        reply := CreateAttachment(a);
      case GetAttachment(d, v) =>
        var key := SLASHES(prefix).Key(d, v);
        EtcdAttachmentLookup(prefix, kv, catalog, d, v);
        GetServes(SLASHES(prefix), catalog, HeldUnder(kv, key), d, v);
        reply := if key in kv then Attachment(kv[key].att) else Refused(NotFound);
      case ListAttachments(d, v) =>
        var out := ScanAttachments(d, v);
        reply := Attachments(out);
      case DeleteAttachment(d, v) =>
        var key := SLASHES(prefix).Key(d, v);
        EtcdAttachmentLookup(prefix, kv, catalog, d, v);
        DeleteServes(SLASHES(prefix), catalog, HeldUnder(kv, key), d, v);
        EtcdDropAttachment(prefix, kv, catalog, d, v);
        catalog := catalog.(atts := Dropped(catalog.atts, HeldUnder(kv, key)));
        kv := kv - {key};
        reply := Done;
    }
  }

  // ----- the three backends side by side

  /** No two of the names collide in any backend. */
  ghost predicate Compatible(names: set<string>) {
    forall a, b | a in names && b in names && a != b :: Apart('|', a, b) && Apart('/', a, b)
  }

  /** The disk whose attachments an operation is about. */
  function AttachedDisk(op: Op): Option<string> {
    match op
    case CreateAttachment(a) => Some(a.disk)
    case GetAttachment(d, _) => Some(d)
    case DeleteAttachment(d, _) => Some(d)
    case ListAttachments(d, _) => if d == "" then None else Some(d)
    case _ => None
  }

  predicate Uses(op: Op, names: set<string>) {
    && (AttachedDisk(op).Some? ==> AttachedDisk(op).value in names)
    && !(op.CreateDisk? && op.rec.name == "")
  }

  ghost predicate AttachedIn(c: Catalog, names: set<string>) {
    forall k | k in c.atts :: k.0 in names
  }

  lemma CompatibleFits(names: set<string>, f: KeyFormat, op: Op, c: Catalog)
    requires Compatible(names) && Uses(op, names) && AttachedIn(c, names) && (f.sep == '|' || f.sep == '/')
    ensures Unshadowed(f, op, c) && InRange(f, op, c)
  {
    forall k, v | k in c.atts && AttachedDisk(op).Some? && f.Key(k.0, k.1) == f.Key(AttachedDisk(op).value, v)
      ensures k == (AttachedDisk(op).value, v)
    {
      KeyInjective(f, k.0, k.1, AttachedDisk(op).value, v);
    }
    if op.ListAttachments? && op.disk != "" {
      forall k | k in c.atts && k.0 != op.disk ensures !(f.Range(op.disk) <= f.Key(k.0, k.1)) {
        PrefixScanIsFilter(f, op.disk, k.0, k.1);
      }
    }
  }

  lemma StillAttachedIn(names: set<string>, c: Catalog, op: Op, c': Catalog, reply: Reply)
    requires AttachedIn(c, names) && Uses(op, names) && Serves(c, op, c', reply)
    ensures AttachedIn(c', names)
  {
  }

  /**
    Any sequence of operations on three backends that start with the same catalog
    gets the same replies, errors and listings included, and ends with the same
    catalog, if no disk name in use is another one followed by a bar or a slash
    and more.  VM names are arbitrary.
   */
  method Lockstep(mem: MemoryStore, bolt: BoltStore, etcd: EtcdStore, ops: seq<Op>, ghost names: set<string>)
      returns (r1: seq<Reply>, r2: seq<Reply>, r3: seq<Reply>)
    requires mem.Valid() && bolt.Valid() && etcd.Valid()
    requires mem.catalog == bolt.catalog == etcd.catalog
    requires Compatible(names) && AttachedIn(mem.catalog, names)
    requires forall i | 0 <= i < |ops| :: Uses(ops[i], names)
    modifies mem, bolt, etcd
    ensures mem.Valid() && bolt.Valid() && etcd.Valid()
    ensures mem.catalog == bolt.catalog == etcd.catalog
    ensures |r1| == |ops| && r1 == r2 == r3
  {
    r1, r2, r3 := [], [], [];
    for i := 0 to |ops|
      invariant mem.Valid() && bolt.Valid() && etcd.Valid()
      invariant mem.catalog == bolt.catalog == etcd.catalog
      invariant AttachedIn(mem.catalog, names)
      invariant |r1| == i && r1 == r2 == r3
    {
      ghost var c := mem.catalog;
      CompatibleFits(names, BARS, ops[i], c);
      CompatibleFits(names, SLASHES(etcd.prefix), ops[i], c);
      var a := mem.Do(ops[i]);
      var b := bolt.Do(ops[i]);
      var d := etcd.Do(ops[i]);
      ServesDeterministic(c, ops[i], mem.catalog, a, bolt.catalog, b);
      ServesDeterministic(c, ops[i], mem.catalog, a, etcd.catalog, d);
      StillAttachedIn(names, c, ops[i], mem.catalog, a);
      r1, r2, r3 := r1 + [a], r2 + [b], r3 + [d];
    }
  }

  /** The two attachments that tell the backends apart for nested names. */
  function TwinAttachments(sep: char, d1: string, d2: string, v: string): (AttachmentRecord, AttachmentRecord)
    requires d1 + [sep] <= d2
  {
    (AttachmentRecord(d2, v, "", ""), AttachmentRecord(d1, Twin(sep, d1, d2, v), "", ""))
  }

  lemma TwinKeys(f: KeyFormat, sep: char, d1: string, d2: string, v: string)
    requires d1 + [sep] <= d2
    ensures f.Key(d1, Twin(sep, d1, d2, v)) == f.Key(d2, v) <==> f.sep == sep
  {
    if f.sep == sep {
      TwinCollides(f, d1, d2, v);
    } else if f.Key(d1, Twin(sep, d1, d2, v)) == f.Key(d2, v) {
      NestedOnce(d1, d2, sep, f.sep);
      KeyInjective(f, d1, Twin(sep, d1, d2, v), d2, v);
    }
  }

  /**
    The condition on names is needed, for every two names that break it.  If one
    disk is called like another one followed by a bar and more, there are two
    attachments of which memory refuses the second and etcd takes both; with a
    slash it is the other way round.
   */
  method NestedNamesDisagree(prefix: string, sep: char, d1: string, d2: string, v: string)
      returns (m1: Reply, m2: Reply, e1: Reply, e2: Reply)
    requires d1 + [sep] <= d2 && (sep == '|' || sep == '/')
    ensures m1 == Done && e1 == Done
    ensures sep == '|' ==> m2 == Refused(AlreadyExists) && e2 == Done
    ensures sep == '/' ==> m2 == Done && e2 == Refused(AlreadyExists)
  {
    var twins := TwinAttachments(sep, d1, d2, v);
    TwinKeys(BARS, sep, d1, d2, v);
    TwinKeys(SLASHES(prefix), sep, d1, d2, v);
    m1, m2 := CreateTwo(twins.0, twins.1);
    e1, e2 := CreateTwoEtcd(prefix, twins.0, twins.1);
  }

  /** Two attachments put into a new store: the second is refused exactly if it has the key of the first. */
  method CreateTwo(a: AttachmentRecord, b: AttachmentRecord) returns (r1: Reply, r2: Reply)
    ensures r1 == Done
    ensures r2 == if BARS.Key(b.disk, b.vm) == BARS.Key(a.disk, a.vm) then Refused(AlreadyExists) else Done
  {
    var mem := new MemoryStore();
    r1 := mem.CreateAttachment(a);
    r2 := mem.CreateAttachment(b);
  }

  method CreateTwoEtcd(prefix: string, a: AttachmentRecord, b: AttachmentRecord) returns (r1: Reply, r2: Reply)
    ensures r1 == Done
    ensures var f := SLASHES(prefix);
            r2 == if f.Key(b.disk, b.vm) == f.Key(a.disk, a.vm) then Refused(AlreadyExists) else Done
  {
    var etcd := new EtcdStore(prefix, {});
    r1 := etcd.CreateAttachment(a);
    r2 := etcd.CreateAttachment(b);
  }
}
