/**
  The byte-wise order of strings, and listings sorted by a strict order.
 */
module Ordering {
  import opened Records

  /** Lexicographic order, as Go compares strings. */
  predicate Less(a: string, b: string) {
    b != "" && (a == "" || a[0] < b[0] || (a[0] == b[0] && Less(a[1..], b[1..])))
  }

  lemma LessIrreflexive(a: string)
    ensures !Less(a, a)
  {
  }

  lemma {:induction false} LessTransitive(a: string, b: string, c: string)
    requires Less(a, b) && Less(b, c)
    ensures Less(a, c)
  {
    if a != "" && a[0] == b[0] && b[0] == c[0] {
      LessTransitive(a[1..], b[1..], c[1..]);
    }
  }

  lemma {:induction false} LessTotal(a: string, b: string)
    ensures a == b || Less(a, b) || Less(b, a)
  {
    if a != "" && b != "" && a[0] == b[0] {
      LessTotal(a[1..], b[1..]);
      assert a == [a[0]] + a[1..] && b == [b[0]] + b[1..];
    }
  }

  /** Dictionary order: a proper prefix comes first, and otherwise the smaller
      character at the first difference decides. */
  ghost predicate NameBefore(a: string, b: string) {
    a < b || exists i :: 0 <= i < |a| && i < |b| && a[..i] == b[..i] && a[i] < b[i]
  }

  lemma {:induction false} LessIff(a: string, b: string)
    ensures Less(a, b) <==> NameBefore(a, b)
  {
    if a != [] && b != [] {
      LessIff(a[1..], b[1..]);
      if a[0] == b[0] {
        assert a == [a[0]] + a[1..] && b == [b[0]] + b[1..];
        if i :| 0 <= i < |a| && i < |b| && a[..i] == b[..i] && a[i] < b[i] {
          assert a[1..][..i - 1] == a[..i][1..] && b[1..][..i - 1] == b[..i][1..];
          assert a[1..][i - 1] < b[1..][i - 1];
        }
        if j :| 0 <= j < |a[1..]| && j < |b[1..]| && a[1..][..j] == b[1..][..j] && a[1..][j] < b[1..][j] {
          assert a[..j + 1] == [a[0]] + a[1..][..j] && b[..j + 1] == [b[0]] + b[1..][..j];
          assert a[j + 1] < b[j + 1];
        }
      } else {
        assert a[..0] == b[..0];
      }
    }
  }

  /** Disks are listed by name. */
  predicate DiskLess(a: DiskRecord, b: DiskRecord) {
    Less(a.name, b.name)
  }

  /** Attachments are listed by disk, then by VM. */
  predicate AttLess(a: AttachmentRecord, b: AttachmentRecord) {
    Less(a.disk, b.disk) || (a.disk == b.disk && Less(a.vm, b.vm))
  }

  ghost predicate StrictOrder<T(!new)>(lt: (T, T) -> bool) {
    && (forall x :: !lt(x, x))
    && (forall x, y, z :: lt(x, y) && lt(y, z) ==> lt(x, z))
  }

  lemma DiskOrder()
    ensures StrictOrder(DiskLess)
    ensures forall a: DiskRecord, b: DiskRecord :: a.name == b.name || DiskLess(a, b) || DiskLess(b, a)
  {
    forall a: DiskRecord ensures !DiskLess(a, a) { LessIrreflexive(a.name); }
    forall a, b, c | DiskLess(a, b) && DiskLess(b, c) ensures DiskLess(a, c) {
      LessTransitive(a.name, b.name, c.name);
    }
    forall a: DiskRecord, b: DiskRecord ensures a.name == b.name || DiskLess(a, b) || DiskLess(b, a) {
      LessTotal(a.name, b.name);
    }
  }

  lemma AttOrder()
    ensures StrictOrder(AttLess)
    ensures forall a: AttachmentRecord, b: AttachmentRecord ::
              (a.disk == b.disk && a.vm == b.vm) || AttLess(a, b) || AttLess(b, a)
  {
    forall a: AttachmentRecord ensures !AttLess(a, a) { LessIrreflexive(a.disk); LessIrreflexive(a.vm); }
    forall a, b, c | AttLess(a, b) && AttLess(b, c) ensures AttLess(a, c) {
      if Less(a.disk, b.disk) && Less(b.disk, c.disk) { LessTransitive(a.disk, b.disk, c.disk); }
      if Less(a.vm, b.vm) && Less(b.vm, c.vm) { LessTransitive(a.vm, b.vm, c.vm); }
    }
    forall a: AttachmentRecord, b: AttachmentRecord
      ensures (a.disk == b.disk && a.vm == b.vm) || AttLess(a, b) || AttLess(b, a)
    {
      LessTotal(a.disk, b.disk);
      LessTotal(a.vm, b.vm);
    }
  }

  ghost predicate Sorted<T>(xs: seq<T>, lt: (T, T) -> bool) {
    forall i, j | 0 <= i < j < |xs| :: lt(xs[i], xs[j])
  }

  /** A strictly sorted listing is determined by what it lists. */
  lemma {:induction false} SortedUnique<T(!new)>(xs: seq<T>, ys: seq<T>, lt: (T, T) -> bool)
    requires StrictOrder(lt) && Sorted(xs, lt) && Sorted(ys, lt)
    requires forall x :: x in xs <==> x in ys
    ensures xs == ys
  {
    assert |ys| > 0 ==> ys[0] in ys;
    if xs != [] {
      assert xs[0] in ys && ys != [];
      assert ys[0] in xs;
      assert xs[0] == ys[0];
      assert xs == [xs[0]] + xs[1..] && ys == [ys[0]] + ys[1..];
      assert xs[0] !in xs[1..] && ys[0] !in ys[1..];
      forall x ensures x in xs[1..] <==> x in ys[1..] {
        assert x in xs <==> x == xs[0] || x in xs[1..];
        assert x in ys <==> x == ys[0] || x in ys[1..];
      }
      SortedUnique(xs[1..], ys[1..], lt);
    }
  }

  /** Neighbours in a listing of disks are in dictionary order of their names. */
  lemma DiskNeighbours(recs: seq<DiskRecord>, i: nat)
    requires Sorted(recs, DiskLess) && i + 1 < |recs|
    ensures NameBefore(recs[i].name, recs[i + 1].name)
  {
    assert DiskLess(recs[i], recs[i + 1]);
    LessIff(recs[i].name, recs[i + 1].name);
  }

  /** Neighbours in a listing of attachments are in dictionary order of their disks,
      and of their VMs within one disk. */
  lemma AttNeighbours(atts: seq<AttachmentRecord>, i: nat)
    requires Sorted(atts, AttLess) && i + 1 < |atts|
    ensures NameBefore(atts[i].disk, atts[i + 1].disk)
            || (atts[i].disk == atts[i + 1].disk && NameBefore(atts[i].vm, atts[i + 1].vm))
  {
    assert AttLess(atts[i], atts[i + 1]);
    LessIff(atts[i].disk, atts[i + 1].disk);
    LessIff(atts[i].vm, atts[i + 1].vm);
  }

  /** Puts `x` before the first element that is not below it. */
  function Insert<T>(x: T, xs: seq<T>, lt: (T, T) -> bool): seq<T> {
    if xs == [] || lt(x, xs[0]) then [x] + xs else [xs[0]] + Insert(x, xs[1..], lt)
  }

  lemma {:induction false} InsertSorts<T(!new)>(x: T, xs: seq<T>, lt: (T, T) -> bool)
    requires StrictOrder(lt) && Sorted(xs, lt)
    requires forall y | y in xs :: lt(x, y) || lt(y, x)
    ensures Sorted(Insert(x, xs, lt), lt)
    ensures forall y :: y in Insert(x, xs, lt) <==> y == x || y in xs
  {
    if xs != [] {
      assert xs == [xs[0]] + xs[1..];
      if !lt(x, xs[0]) {
        InsertSorts(x, xs[1..], lt);
        var rest := Insert(x, xs[1..], lt);
        forall i | 0 <= i < |rest| ensures lt(xs[0], rest[i]) {
          assert rest[i] in rest;
        }
      }
    }
  }

  /** `sort.Slice` on elements with pairwise different keys. */
  method Sort<T(!new)>(xs: seq<T>, lt: (T, T) -> bool) returns (ys: seq<T>)
    requires StrictOrder(lt)
    requires forall i, j | 0 <= i < j < |xs| :: lt(xs[i], xs[j]) || lt(xs[j], xs[i])
    ensures Sorted(ys, lt)
    ensures forall x :: x in ys <==> x in xs
  {
    ys := [];
    for i := 0 to |xs|
      invariant Sorted(ys, lt)
      invariant forall x :: x in ys <==> x in xs[..i]
    {
      InsertSorts(xs[i], ys, lt);
      ys := Insert(xs[i], ys, lt);
      assert xs[..i + 1] == xs[..i] + [xs[i]];
    }
    assert xs[..|xs|] == xs;
  }

  /** Any two entries are ordered. */
  ghost predicate Separated<K(!new), R>(entries: map<K, R>, lt: (R, R) -> bool) {
    forall k, l | k in entries && l in entries && k != l :: lt(entries[k], entries[l]) || lt(entries[l], entries[k])
  }

  /** What was collected once the entries `left` remain. */
  ghost predicate Collected<K(!new), R(!new)>(out: seq<R>, entries: map<K, R>, left: set<K>, keep: R -> bool,
                                             lt: (R, R) -> bool) {
    && (forall i | 0 <= i < |out| :: keep(out[i]) && exists k :: k in entries.Keys - left && entries[k] == out[i])
    && (forall k | k in entries.Keys - left :: keep(entries[k]) ==> entries[k] in out)
    && (forall i, j | 0 <= i < j < |out| :: lt(out[i], out[j]) || lt(out[j], out[i]))
  }

  lemma CollectOne<K(!new), R(!new)>(out: seq<R>, entries: map<K, R>, left: set<K>, keep: R -> bool,
                                     lt: (R, R) -> bool, k: K)
    requires Collected(out, entries, left, keep, lt) && Separated(entries, lt)
    requires left <= entries.Keys && k in left
    ensures Collected(if keep(entries[k]) then out + [entries[k]] else out, entries, left - {k}, keep, lt)
  {
    var out' := if keep(entries[k]) then out + [entries[k]] else out;
    forall i | 0 <= i < |out'|
      ensures keep(out'[i]) && exists l :: l in entries.Keys - (left - {k}) && entries[l] == out'[i]
    {
      if i < |out| {
        var l :| l in entries.Keys - left && entries[l] == out[i];
        assert l in entries.Keys - (left - {k});
      } else {
        assert k in entries.Keys - (left - {k});
      }
    }
    forall l | l in entries.Keys - (left - {k}) ensures keep(entries[l]) ==> entries[l] in out' {
      if l == k && keep(entries[k]) { assert out'[|out|] == entries[k]; }
    }
  }

  /** Visits the entries in any order, keeps some, and sorts them. */
  method Collect<K(!new), R(!new)>(entries: map<K, R>, keep: R -> bool, lt: (R, R) -> bool) returns (out: seq<R>)
    requires StrictOrder(lt) && Separated(entries, lt)
    ensures Sorted(out, lt)
    ensures forall r :: r in out <==> keep(r) && exists k :: k in entries && entries[k] == r
  {
    var left := entries.Keys;
    out := [];
    while left != {}
      invariant left <= entries.Keys && Collected(out, entries, left, keep, lt)
      decreases |left|
    {
      var k :| k in left;
      CollectOne(out, entries, left, keep, lt, k);
      if keep(entries[k]) { out := out + [entries[k]]; }
      left := left - {k};
    }
    forall r ensures r in out <==> keep(r) && exists k :: k in entries && entries[k] == r {
      if k :| k in entries && entries[k] == r { assert k in entries.Keys - left; }
    }
    out := Sort(out, lt);
  }
}
