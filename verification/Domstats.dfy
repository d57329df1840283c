/**
  Parsing `virsh domstats --block` output.

  The text is read line by line; every recognised line sets one field of one
  block device in a map by index; the devices are then listed in index order,
  by probing 0, 1, ... when the indices are dense and by sorting the keys when
  they are not.
 */
module Domstats {
  import opened Records
  import opened Ordering

  datatype BlockStats = BlockStats(
    index: int, name: string, path: string,
    allocation: nat, capacity: nat, physical: nat)

  // ----- characters and numbers

  /** Unicode white space, as `strings.TrimSpace` sees it. */
  predicate IsSpace(c: char) {
    var n := c as int;
    9 <= n <= 13 || n == 0x20 || n == 0x85 || n == 0xA0 || n == 0x1680
    || 0x2000 <= n <= 0x200A || n == 0x2028 || n == 0x2029 || n == 0x202F || n == 0x205F || n == 0x3000
  }

  function TrimLeft(s: string): string {
    if s != "" && IsSpace(s[0]) then TrimLeft(s[1..]) else s
  }

  function TrimRight(s: string): string {
    if s != "" && IsSpace(s[|s| - 1]) then TrimRight(s[..|s| - 1]) else s
  }

  function Trim(s: string): string {
    TrimRight(TrimLeft(s))
  }

  predicate IsDigit(c: char) {
    '0' <= c <= '9'
  }

  function DigitValue(c: char): nat
    requires IsDigit(c)
  {
    c as int - '0' as int
  }

  predicate AllDigits(s: string) {
    forall i | 0 <= i < |s| :: IsDigit(s[i])
  }

  function Value(s: string): nat
    requires AllDigits(s)
  {
    if s == "" then 0 else Value(s[..|s| - 1]) * 10 + DigitValue(s[|s| - 1])
  }

  /** `strconv.ParseUint` with its error dropped, from left to right: 0 at the first
      character that is no digit, the greatest `uint64` at the first overflow. */
  function ScanUint(s: string, acc: nat): nat {
    if s == "" then acc
    else if !IsDigit(s[0]) then 0
    else if acc * 10 + DigitValue(s[0]) >= U64 then U64 - 1
    else ScanUint(s[1..], acc * 10 + DigitValue(s[0]))
  }

  function ParseUint(s: string): nat {
    ScanUint(Trim(s), 0)
  }

  const I63: int := 0x8000_0000_0000_0000

  /** `strconv.Atoi`: an optional sign, digits, and the range of `int64`. */
  function Atoi(s: string): Option<int> {
    var signed := s != "" && (s[0] == '-' || s[0] == '+');
    var digits := if signed then s[1..] else s;
    if digits == "" || !AllDigits(digits) then None
    else
      var n: int := Value(digits);
      if signed && s[0] == '-' then (if n <= I63 then Some(-n) else None)
      else if n < I63 then Some(n) else None
  }

  // ----- lines

  /** The position of the first `c`, or the length. */
  function IndexOf(s: string, c: char): (i: nat)
    ensures i <= |s|
    ensures c !in s[..i]
    ensures i < |s| ==> s[i] == c
  {
    if s == "" || s[0] == c then 0
    else
      assert s == [s[0]] + s[1..];
      1 + IndexOf(s[1..], c)
  }

  /** A first occurrence is where the head stops having none. */
  lemma {:induction false} IndexOfSplit(a: string, c: char, b: string)
    requires c !in a
    ensures IndexOf(a + [c] + b, c) == |a|
  {
    if a != "" {
      assert (a + [c] + b)[1..] == a[1..] + [c] + b;
      IndexOfSplit(a[1..], c, b);
    }
  }

  datatype Kind = KName | KPath | KAllocation | KCapacity | KPhysical

  /** The value a line gives to a field; a key outside the five is `Other`. */
  datatype Field =
    | Name(text: string)
    | Path(text: string)
    | Allocation(bytes: nat)
    | Capacity(bytes: nat)
    | Physical(bytes: nat)
    | Other

  function KindOf(f: Field): Option<Kind> {
    match f
    case Name(_) => Some(KName)
    case Path(_) => Some(KPath)
    case Allocation(_) => Some(KAllocation)
    case Capacity(_) => Some(KCapacity)
    case Physical(_) => Some(KPhysical)
    case Other => None
  }

  datatype Update = Update(index: int, field: Field)

  function FieldFor(key: string, val: string): Field {
    if key == "name" then Name(val)
    else if key == "path" then Path(val)
    else if key == "allocation" then Allocation(ParseUint(val))
    else if key == "capacity" then Capacity(ParseUint(val))
    else if key == "physical" then Physical(ParseUint(val))
    else Other
  }

  /** `rest` is the key after its first dot: an index and a field name. */
  function ParseKey(rest: string, val: string): Option<Update> {
    var dot := IndexOf(rest, '.');
    if dot == |rest| then None
    else
      match Atoi(rest[..dot])
      case None => None
      case Some(index) => Some(Update(index, FieldFor(rest[dot + 1..], val)))
  }

  function ParseAssignment(key: string, val: string): Option<Update> {
    var dot := IndexOf(key, '.');
    if dot == |key| then None else ParseKey(key[dot + 1..], val)
  }

  function ParseTrimmed(line: string): Option<Update> {
    if !("block." <= line) then None
    else
      var eq := IndexOf(line, '=');
      if eq == |line| then None else ParseAssignment(line[..eq], line[eq + 1..])
  }

  /** What one line says; `None` for a line that does not have the documented shape. */
  function ParseLine(raw: string): Option<Update> {
    ParseTrimmed(Trim(raw))
  }

  function Blank(index: int): BlockStats {
    BlockStats(index, "", "", 0, 0, 0)
  }

  function SetField(s: BlockStats, f: Field): BlockStats {
    match f
    case Name(v) => s.(name := v)
    case Path(v) => s.(path := v)
    case Allocation(n) => s.(allocation := n)
    case Capacity(n) => s.(capacity := n)
    case Physical(n) => s.(physical := n)
    case Other => s
  }

  function GetField(s: BlockStats, k: Kind): Field {
    match k
    case KName => Name(s.name)
    case KPath => Path(s.path)
    case KAllocation => Allocation(s.allocation)
    case KCapacity => Capacity(s.capacity)
    case KPhysical => Physical(s.physical)
  }

  type Table = map<int, BlockStats>

  function Apply(t: Table, u: Update): Table {
    t[u.index := SetField(if u.index in t then t[u.index] else Blank(u.index), u.field)]
  }

  /** What every line says. */
  function Updates(lines: seq<string>): (us: seq<Option<Update>>)
    ensures |us| == |lines|
    ensures forall i | 0 <= i < |lines| :: us[i] == ParseLine(lines[i])
  {
    seq(|lines|, i requires 0 <= i < |lines| => ParseLine(lines[i]))
  }

  /** A line without the documented shape is ignored. */
  function Take(t: Table, u: Option<Update>): Table {
    match u case Some(update) => Apply(t, update) case None => t
  }

  /** The table after all updates, in order. */
  function Fold(us: seq<Option<Update>>): Table {
    if us == [] then map[] else Take(Fold(us[..|us| - 1]), us[|us| - 1])
  }

  lemma FoldStep(us: seq<Option<Update>>, i: nat)
    requires i < |us|
    ensures Fold(us[..i + 1]) == Take(Fold(us[..i]), us[i])
  {
    assert us[..i + 1][..i] == us[..i];
  }

  /** The line sets this field of this device. */
  predicate Sets(u: Option<Update>, index: int, k: Kind) {
    u.Some? && u.value.index == index && KindOf(u.value.field) == Some(k)
  }

  predicate Mentions(u: Option<Update>, index: int) {
    u.Some? && u.value.index == index
  }

  /** The devices in the table are the ones some line mentions, under their own index. */
  lemma {:induction false} FoldKeys(us: seq<Option<Update>>, index: int)
    ensures index in Fold(us) <==> exists i :: 0 <= i < |us| && Mentions(us[i], index)
    ensures index in Fold(us) ==> Fold(us)[index].index == index
  {
    if us != [] {
      var last := |us| - 1;
      var before := us[..last];
      FoldKeys(before, index);
      if index in Fold(before) {
        var i :| 0 <= i < |before| && Mentions(before[i], index);
        assert Mentions(us[i], index);
      }
      if index in Fold(us) && index !in Fold(before) {
        assert Mentions(us[last], index);
      }
      if i :| 0 <= i < |us| && Mentions(us[i], index) {
        if i < last {
          assert Mentions(before[i], index);
        }
      }
    }
  }

  lemma SetOther(s: BlockStats, f: Field, k: Kind)
    ensures GetField(SetField(s, f), k) == if KindOf(f) == Some(k) then f else GetField(s, k)
  {
  }

  /** For a field that several lines set, the last line wins. */
  lemma {:induction false} LastLineWins(us: seq<Option<Update>>, i: nat, index: int, k: Kind)
    requires i < |us| && Sets(us[i], index, k)
    requires forall j | i < j < |us| :: !Sets(us[j], index, k)
    ensures index in Fold(us)
    ensures GetField(Fold(us)[index], k) == us[i].value.field
    decreases |us|
  {
    var last := |us| - 1;
    var t := Fold(us[..last]);
    if i < last {
      LastLineWins(us[..last], i, index, k);
      if Mentions(us[last], index) {
        assert !Sets(us[last], index, k);
        SetOther(t[index], us[last].value.field, k);
      }
    } else {
      SetOther(if index in t then t[index] else Blank(index), us[last].value.field, k);
    }
  }

  /** A field no line sets keeps its zero value. */
  lemma {:induction false} UnsetIsBlank(us: seq<Option<Update>>, index: int, k: Kind)
    requires forall j | 0 <= j < |us| :: !Sets(us[j], index, k)
    requires index in Fold(us)
    ensures var s := Fold(us)[index];
            && (k.KName? ==> s.name == "") && (k.KPath? ==> s.path == "")
            && (k.KAllocation? ==> s.allocation == 0) && (k.KCapacity? ==> s.capacity == 0)
            && (k.KPhysical? ==> s.physical == 0)
    decreases |us|
  {
    var last := |us| - 1;
    var t := Fold(us[..last]);
    assert !Sets(us[last], index, k);
    if index in t {
      UnsetIsBlank(us[..last], index, k);
    }
    if Mentions(us[last], index) {
      SetOther(if index in t then t[index] else Blank(index), us[last].value.field, k);
    }
  }

  // ----- the listing

  predicate StatLess(a: BlockStats, b: BlockStats) {
    a.index < b.index
  }

  /** Each device of the table once, in increasing index order. */
  ghost predicate Lists(out: seq<BlockStats>, t: Table) {
    Sorted(out, StatLess) && forall s :: s in out <==> s.index in t && t[s.index] == s
  }

  lemma ListsIncreasing(out: seq<BlockStats>, t: Table, i: nat, j: nat)
    requires Lists(out, t) && i < j < |out|
    ensures out[i].index < out[j].index
  {
    assert StatLess(out[i], out[j]);
  }

  lemma ListsUnique(a: seq<BlockStats>, b: seq<BlockStats>, t: Table)
    requires Lists(a, t) && Lists(b, t)
    ensures a == b
  {
    SortedUnique(a, b, StatLess);
  }

  /** The indices 0, 1, ..., n-1. */
  function Dense(n: nat): (r: set<int>)
    ensures |r| == n && forall i :: i in r <==> 0 <= i < n
  {
    if n == 0 then {} else Dense(n - 1) + {n - 1}
  }

  lemma SubsetOfSameSize(a: set<int>, b: set<int>)
    requires a <= b && |a| == |b|
    ensures a == b
  {
    assert |b - a| == 0;
  }

  /** The probes at 0..n-1 that hit a key. */
  function Hits(keys: set<int>, n: nat): (r: set<int>)
    ensures forall i :: i in r <==> i in keys && 0 <= i < n
  {
    if n == 0 then {} else Hits(keys, n - 1) + if n - 1 in keys then {n - 1} else {}
  }

  lemma HitsGrow(keys: set<int>, n: nat)
    ensures |Hits(keys, n + 1)| == |Hits(keys, n)| + if n in keys then 1 else 0
  {
    assert n !in Hits(keys, n);
  }

  /** n hits in n probes force the keys to be 0, ..., n-1; any gap makes a probe miss. */
  lemma AllHitsIffDense(keys: set<int>, hits: nat)
    requires hits == |Hits(keys, |keys|)|
    ensures hits == |keys| <==> keys == Dense(|keys|)
  {
    var found := Hits(keys, |keys|);
    if keys == Dense(|keys|) {
      assert found == keys;
    }
    if hits == |keys| {
      SubsetOfSameSize(found, keys);
      assert found <= Dense(|keys|);
      SubsetOfSameSize(found, Dense(|keys|));
    }
  }

  predicate SortedInts(s: seq<int>) {
    forall p, q | 0 <= p < q < |s| :: s[p] <= s[q]
  }

  /** Insertion sort in place. */
  method SortInts(a: array<int>)
    modifies a
    ensures SortedInts(a[..])
    ensures multiset(a[..]) == multiset(old(a[..]))
  {
    var i := 1;
    while i < a.Length
      invariant 1 <= i
      invariant forall p, q | 0 <= p < q < i && q < a.Length :: a[p] <= a[q]
      invariant multiset(a[..]) == multiset(old(a[..]))
    {
      var j := i;
      while j > 0 && a[j] < a[j - 1]
        invariant 0 <= j <= i
        invariant forall p, q | 0 <= p < q <= i && q != j :: a[p] <= a[q]
        invariant multiset(a[..]) == multiset(old(a[..]))
      {
        a[j], a[j - 1] := a[j - 1], a[j];
        j := j - 1;
      }
      i := i + 1;
    }
  }

  /** Some element: Go visits a map in no particular order. */
  method AnyOf<T>(s: set<T>) returns (i: T)
    requires s != {}
    ensures i in s
  {
    i :| i in s;
  }

  /** The keys of a table, collected in any order and sorted. */
  method SortedKeys(keys: set<int>) returns (idxs: seq<int>)
    ensures forall p, q | 0 <= p < q < |idxs| :: idxs[p] < idxs[q]
    ensures forall i :: i in idxs <==> i in keys
  {
    var collected: seq<int> := [];
    var left := keys;
    while left != {}
      invariant left <= keys
      invariant forall i :: i in collected <==> i in keys - left
      invariant forall p, q | 0 <= p < q < |collected| :: collected[p] != collected[q]
      decreases |left|
    {
      var i := AnyOf(left);
      forall p | 0 <= p < |collected| ensures collected[p] != i { assert collected[p] in collected; }
      collected := collected + [i];
      left := left - {i};
    }
    var a := new int[|collected|](i requires 0 <= i < |collected| => collected[i]);
    assert a[..] == collected;
    SortInts(a);
    idxs := a[..];
    SameElements(idxs, collected);
  }

  /** A sorted rearrangement of distinct numbers is strictly sorted and has the same elements. */
  lemma SameElements(sorted: seq<int>, s: seq<int>)
    requires SortedInts(sorted) && multiset(sorted) == multiset(s)
    requires forall p, q | 0 <= p < q < |s| :: s[p] != s[q]
    ensures forall p, q | 0 <= p < q < |sorted| :: sorted[p] < sorted[q]
    ensures forall i :: i in sorted <==> i in s
  {
    forall i ensures i in sorted <==> i in s {
      assert i in sorted <==> i in multiset(sorted);
      assert i in s <==> i in multiset(s);
    }
    forall p, q | 0 <= p < q < |sorted| ensures sorted[p] < sorted[q] {
      if sorted[p] == sorted[q] {
        TwiceInMultiset(sorted, p, q);
        OnceInMultiset(s, sorted[p]);
      }
    }
  }

  lemma TwiceInMultiset(s: seq<int>, p: nat, q: nat)
    requires p < q < |s| && s[p] == s[q]
    ensures multiset(s)[s[p]] >= 2
  {
    assert s == s[..q] + s[q..];
    assert s[p] in s[..q] && s[q] in s[q..];
    assert multiset(s[..q])[s[p]] >= 1 && multiset(s[q..])[s[p]] >= 1;
  }

  lemma {:induction false} OnceInMultiset(s: seq<int>, x: int)
    requires forall p, q | 0 <= p < q < |s| :: s[p] != s[q]
    ensures multiset(s)[x] <= 1
  {
    if s != [] {
      assert s == [s[0]] + s[1..];
      OnceInMultiset(s[1..], x);
      assert s[0] !in s[1..];
      assert s[0] !in multiset(s[1..]);
    }
  }

  // ----- the text

  const LINE_LIMIT: nat := 0x10_0000

  /** The lines between newlines; a text that ends in a newline has no line after it. */
  function RawLines(text: string): seq<string>
    decreases |text|
  {
    if text == "" then []
    else
      var i := IndexOf(text, '\n');
      if i == |text| then [text] else [text[..i]] + RawLines(text[i + 1..])
  }

  /** The scanner drops one carriage return at the end of a line. */
  function DropCr(line: string): string {
    if line != "" && line[|line| - 1] == '\r' then line[..|line| - 1] else line
  }

  function Lines(text: string): (ls: seq<string>)
    ensures |ls| == |RawLines(text)|
    ensures forall i | 0 <= i < |ls| :: ls[i] == DropCr(RawLines(text)[i])
  {
    var raw := RawLines(text);
    seq(|raw|, i requires 0 <= i < |raw| => DropCr(raw[i]))
  }

  /** A line that does not fit the scanner's buffer stops the parse. */
  predicate TooLong(text: string) {
    exists i :: 0 <= i < |RawLines(text)| && |RawLines(text)[i]| >= LINE_LIMIT
  }

  /** The buffer holds one mebibyte. */
  lemma TooLongIff(text: string)
    ensures TooLong(text) <==> exists i :: 0 <= i < |RawLines(text)| && |RawLines(text)[i]| >= 1_048_576
  {
    if i :| 0 <= i < |RawLines(text)| && |RawLines(text)[i]| >= 1_048_576 {
      assert |RawLines(text)[i]| >= LINE_LIMIT;
    }
    if TooLong(text) {
      var i :| 0 <= i < |RawLines(text)| && |RawLines(text)[i]| >= LINE_LIMIT;
      assert |RawLines(text)[i]| >= 1_048_576;
    }
  }

  function TableOf(text: string): Table {
    Fold(Updates(Lines(text)))
  }

  /** Reads the lines until one does not fit, and takes what `parse` makes of each. */
  method ScanLines(raw: seq<string>, parse: string -> Option<Update>, ghost us: seq<Option<Update>>)
      returns (byIndex: Table, tooLong: bool)
    requires |us| == |raw| && forall i | 0 <= i < |raw| :: us[i] == parse(DropCr(raw[i]))
    ensures tooLong <==> exists i :: 0 <= i < |raw| && |raw[i]| >= LINE_LIMIT
    ensures !tooLong ==> byIndex == Fold(us)
  {
    byIndex, tooLong := map[], false;
    for i := 0 to |raw|
      invariant byIndex == Fold(us[..i])
      invariant forall j | 0 <= j < i :: |raw[j]| < LINE_LIMIT
    {
      if |raw[i]| >= LINE_LIMIT {
        return byIndex, true;
      }
      FoldStep(us, i);
      byIndex := Take(byIndex, parse(DropCr(raw[i])));
    }
    assert us[..|raw|] == us;
  }

  /**
    Fails on an over-long line; otherwise returns each mentioned index exactly
    once, in strictly increasing order, with its last values.  The probe of
    0..n-1 and the sorted walk over the keys give the same list.
   */
  method ParseDomstatsBlocks(text: string) returns (r: Result<seq<BlockStats>>)
    ensures TooLong(text) ==> r == Err(LineTooLong)
    ensures !TooLong(text) ==> r.Ok? && Lists(r.value, TableOf(text))
  {
    ghost var us := Updates(Lines(text));
    var byIndex, tooLong := ScanLines(RawLines(text), ParseLine, us);
    if tooLong {
      return Err(LineTooLong);
    }
    var stats := ListStats(us, byIndex);
    r := Ok(stats);
  }

  /** The dense probe, and the sorted walk when a probe missed. */
  method ListStats(ghost us: seq<Option<Update>>, byIndex: Table) returns (stats: seq<BlockStats>)
    requires byIndex == Fold(us)
    ensures Lists(stats, byIndex)
  {
    forall index | index in byIndex ensures byIndex[index].index == index { FoldKeys(us, index); }
    stats := ProbeDense(byIndex);
    if |stats| != |byIndex| {
      stats := WalkSorted(byIndex);
    }
  }

  /** The list holds the devices of the table with index below `n`, in order. */
  ghost predicate ListsBelow(stats: seq<BlockStats>, t: Table, n: int) {
    && (forall p | 0 <= p < |stats| ::
          0 <= stats[p].index < n && stats[p].index in t && t[stats[p].index] == stats[p])
    && (forall k | k in t && 0 <= k < n :: t[k] in stats)
    && (forall p, q | 0 <= p < q < |stats| :: stats[p].index < stats[q].index)
  }

  lemma ProbeOne(stats: seq<BlockStats>, t: Table, i: nat)
    requires forall k | k in t :: t[k].index == k
    requires ListsBelow(stats, t, i)
    ensures ListsBelow(if i in t then stats + [t[i]] else stats, t, i + 1)
  {
    var stats' := if i in t then stats + [t[i]] else stats;
    forall k | k in t && 0 <= k < i + 1 ensures t[k] in stats' {
      if k < i { assert t[k] in stats; } else { assert stats'[|stats|] == t[k]; }
    }
  }

  lemma AllProbed(stats: seq<BlockStats>, t: Table)
    requires forall k | k in t :: t[k].index == k
    requires ListsBelow(stats, t, |t|) && t.Keys == Dense(|t|)
    ensures Lists(stats, t)
  {
    forall s ensures s in stats <==> s.index in t && t[s.index] == s {
      if s.index in t && t[s.index] == s {
        assert s.index in Dense(|t|);
      }
    }
  }

  /** The probes of 0, ..., n-1 found these devices, one a hit. */
  ghost predicate Probed(stats: seq<BlockStats>, t: Table, n: nat) {
    ListsBelow(stats, t, n) && |stats| == |Hits(t.Keys, n)|
  }

  /** The devices at 0, ..., n-1 in turn. */
  function Probe(t: Table, n: nat): seq<BlockStats> {
    if n == 0 then [] else Probe(t, n - 1) + if n - 1 in t then [t[n - 1]] else []
  }

  /** What every probe carries on holds of all of them. */
  lemma {:induction false} ProbeKeeps(t: Table, n: nat, good: (seq<BlockStats>, int) -> bool)
    requires good([], 0)
    requires forall s, i: nat | good(s, i) :: good(if i in t then s + [t[i]] else s, i + 1)
    ensures good(Probe(t, n), n)
  {
    if n > 0 {
      ProbeKeeps(t, n - 1, good);
      ProbeStep(t, n);
      assert good(if n - 1 in t then Probe(t, n - 1) + [t[n - 1]] else Probe(t, n - 1), n - 1 + 1);
    }
  }

  lemma ProbeStep(t: Table, n: nat)
    requires n > 0
    ensures Probe(t, n) == if n - 1 in t then Probe(t, n - 1) + [t[n - 1]] else Probe(t, n - 1)
  {
  }

  lemma ProbeLists(t: Table, n: nat)
    requires forall k | k in t :: t[k].index == k
    ensures ListsBelow(Probe(t, n), t, n)
  {
    var good := (s: seq<BlockStats>, i: int) => ListsBelow(s, t, i);
    forall s, i: nat | good(s, i) ensures good(if i in t then s + [t[i]] else s, i + 1) { ProbeOne(s, t, i); }
    ProbeKeeps(t, n, good);
  }

  lemma {:induction false} ProbeCount(t: Table, n: nat)
    ensures |Probe(t, n)| == |Hits(t.Keys, n)|
  {
    if n > 0 {
      ProbeCount(t, n - 1);
      HitsGrow(t.Keys, n - 1);
    }
  }

  lemma CompleteProbe(stats: seq<BlockStats>, t: Table)
    requires forall k | k in t :: t[k].index == k
    requires Probed(stats, t, |t|)
    ensures |stats| == |t| ==> Lists(stats, t)
  {
    assert |t.Keys| == |t|;
    if |stats| == |t| {
      AllHitsIffDense(t.Keys, |stats|);
      AllProbed(stats, t);
    }
  }

  /** Probes 0..n-1, n being the number of devices: complete when every probe hits. */
  method ProbeDense(t: Table) returns (stats: seq<BlockStats>)
    requires forall k | k in t :: t[k].index == k
    ensures |stats| == |t| ==> Lists(stats, t)
  {
    stats := [];
    for i := 0 to |t|
      invariant stats == Probe(t, i)
    {
      if i in t {
        stats := stats + [t[i]];
      }
    }
    ProbeLists(t, |t|);
    ProbeCount(t, |t|);
    CompleteProbe(stats, t);
  }

  /** Collects all keys, sorts them, and looks each up. */
  method WalkSorted(t: Table) returns (stats: seq<BlockStats>)
    requires forall i | i in t :: t[i].index == i
    ensures Lists(stats, t)
  {
    var idxs := SortedKeys(t.Keys);
    stats := [];
    for n := 0 to |idxs|
      invariant |stats| == n
      invariant forall p | 0 <= p < n :: idxs[p] in t && stats[p] == t[idxs[p]]
    {
      assert idxs[n] in idxs;
      stats := stats + [t[idxs[n]]];
    }
    forall s ensures s in stats <==> s.index in t && t[s.index] == s {
      if s.index in t && t[s.index] == s {
        assert s.index in idxs;
        var p :| 0 <= p < |idxs| && idxs[p] == s.index;
        assert stats[p] == s;
      }
    }
  }
}
