/**
  Printing block statistics in the documented line format and parsing them back.
 */
module DomstatsRoundTrip {
  import opened Records
  import opened Ordering
  import opened Domstats
  import opened DomstatsLines

  // ----- decimal numerals

  function Digit(n: nat): char
    requires n < 10
  {
    '0' + n as char
  }

  function Dec(n: nat): string {
    if n < 10 then [Digit(n)] else Dec(n / 10) + [Digit(n % 10)]
  }

  function IntText(i: int): string {
    if i < 0 then "-" + Dec(-i) else Dec(i)
  }

  lemma {:induction false} DecValue(n: nat)
    ensures Dec(n) != "" && AllDigits(Dec(n)) && Value(Dec(n)) == n
    ensures Dec(n)[0] != '-' && Dec(n)[0] != '+'
  {
    if n >= 10 {
      DecValue(n / 10);
      var s := Dec(n);
      assert s[..|s| - 1] == Dec(n / 10);
      assert s[0] == Dec(n / 10)[0];
    } else {
      assert Value(Dec(n)[..0]) == 0;
    }
  }

  lemma AtoiIntText(i: int)
    requires -I63 <= i < I63
    ensures Atoi(IntText(i)) == Some(i)
  {
    DecValue(if i < 0 then -i else i);
    if i < 0 {
      assert IntText(i)[1..] == Dec(-i);
    }
  }

  /** Text that trimming leaves as it is. */
  predicate Trimmed(s: string) {
    s != "" ==> !IsSpace(s[0]) && !IsSpace(s[|s| - 1])
  }

  lemma ParseUintDec(n: nat)
    requires n < U64
    ensures ParseUint(Dec(n)) == n
  {
    DecValue(n);
    assert Trim(Dec(n)) == Dec(n);
    ParseUintIs(Dec(n));
    assert Dec(n)[..|Dec(n)|] == Dec(n);
  }

  // ----- printed lines

  function KeyText(k: Kind): string {
    match k
    case KName => "name"
    case KPath => "path"
    case KAllocation => "allocation"
    case KCapacity => "capacity"
    case KPhysical => "physical"
  }

  function ValueText(s: BlockStats, k: Kind): string {
    match k
    case KName => s.name
    case KPath => s.path
    case KAllocation => Dec(s.allocation)
    case KCapacity => Dec(s.capacity)
    case KPhysical => Dec(s.physical)
  }

  function KeyPart(s: BlockStats, k: Kind): string {
    "block" + ['.'] + (IntText(s.index) + ['.'] + KeyText(k))
  }

  /** The line without its indentation. */
  function BareLine(s: BlockStats, k: Kind): string {
    KeyPart(s, k) + ['='] + ValueText(s, k)
  }

  function PrintLine(s: BlockStats, k: Kind): string {
    "  " + BareLine(s, k)
  }

  /** Values a text line can carry: no newline, trimmed, and within the machine types. */
  predicate Printable(s: BlockStats) {
    && -I63 <= s.index < I63
    && Trimmed(s.name) && Trimmed(s.path) && '\n' !in s.name && '\n' !in s.path
    && s.allocation < U64 && s.capacity < U64 && s.physical < U64
  }

  lemma NoSeparators(i: int)
    ensures '.' !in IntText(i) && '=' !in IntText(i)
  {
    DecValue(if i < 0 then -i else i);
  }

  lemma KeyPartPlain(s: BlockStats, k: Kind)
    ensures '=' !in KeyPart(s, k)
  {
    NoSeparators(s.index);
    assert '=' !in KeyText(k);
  }

  lemma ValueEnd(s: BlockStats, k: Kind)
    requires Printable(s)
    ensures ValueText(s, k) == "" || !IsSpace(ValueText(s, k)[|ValueText(s, k)| - 1])
  {
    if k.KAllocation? { DecValue(s.allocation); }
    if k.KCapacity? { DecValue(s.capacity); }
    if k.KPhysical? { DecValue(s.physical); }
  }

  lemma TrimIndent(s: string)
    requires s != "" && Trimmed(s)
    ensures Trim("  " + s) == s
  {
    assert ("  " + s)[1..] == " " + s;
    assert (" " + s)[1..] == s;
    assert TrimLeft("  " + s) == TrimLeft(" " + s) == TrimLeft(s) == s;
  }

  lemma FieldForPrinted(s: BlockStats, k: Kind)
    requires Printable(s)
    ensures FieldFor(KeyText(k), ValueText(s, k)) == GetField(s, k)
  {
    if k.KAllocation? { ParseUintDec(s.allocation); }
    if k.KCapacity? { ParseUintDec(s.capacity); }
    if k.KPhysical? { ParseUintDec(s.physical); }
  }

  lemma KeyParsed(s: BlockStats, k: Kind)
    requires Printable(s)
    ensures ParseAssignment(KeyPart(s, k), ValueText(s, k)) == Some(Update(s.index, GetField(s, k)))
  {
    var rest := IntText(s.index) + ['.'] + KeyText(k);
    SplitAt("block", '.', rest);
    NoSeparators(s.index);
    SplitAt(IntText(s.index), '.', KeyText(k));
    AtoiIntText(s.index);
    FieldForPrinted(s, k);
  }

  /** A printed line says what was printed. */
  lemma ParsePrinted(s: BlockStats, k: Kind)
    requires Printable(s)
    ensures ParseLine(PrintLine(s, k)) == Some(Update(s.index, GetField(s, k)))
  {
    var line := BareLine(s, k);
    ValueEnd(s, k);
    assert line[0] == 'b';
    assert line[|line| - 1] == if ValueText(s, k) == "" then '=' else ValueText(s, k)[|ValueText(s, k)| - 1];
    TrimIndent(line);
    assert line[..6] == "block.";
    KeyPartPlain(s, k);
    SplitAt(KeyPart(s, k), '=', ValueText(s, k));
    KeyParsed(s, k);
  }

  // ----- the whole text

  /** No two devices share an index. */
  predicate DistinctIndices(stats: seq<BlockStats>) {
    forall p, q | 0 <= p < q < |stats| :: stats[p].index != stats[q].index
  }

  /** The update tells device `s` nothing but what it is, or sets a field outside the five. */
  predicate Agrees(u: Update, s: BlockStats) {
    && u.index == s.index
    && (KindOf(u.field).Some? ==> u.field == GetField(s, KindOf(u.field).value))
  }

  /** Every field of every device is set somewhere, and nothing else is said. */
  ghost predicate Describes(us: seq<Option<Update>>, stats: seq<BlockStats>) {
    && (forall s, k | s in stats :: Some(Update(s.index, GetField(s, k))) in us)
    && (forall i | 0 <= i < |us| && us[i].Some? :: exists s :: s in stats && Agrees(us[i].value, s))
  }

  /** The last of the updates that set a field. */
  lemma {:induction false} LastSetting(us: seq<Option<Update>>, index: int, k: Kind) returns (i: nat)
    requires exists j :: 0 <= j < |us| && Sets(us[j], index, k)
    ensures i < |us| && Sets(us[i], index, k)
    ensures forall j | i < j < |us| :: !Sets(us[j], index, k)
    decreases |us|
  {
    var last := |us| - 1;
    if Sets(us[last], index, k) {
      i := last;
    } else {
      var j :| 0 <= j < |us| && Sets(us[j], index, k);
      assert Sets(us[..last][j], index, k);
      i := LastSetting(us[..last], index, k);
    }
  }

  lemma FieldRead(us: seq<Option<Update>>, stats: seq<BlockStats>, s: BlockStats, k: Kind)
    requires DistinctIndices(stats) && Describes(us, stats) && s in stats
    ensures s.index in Fold(us) && GetField(Fold(us)[s.index], k) == GetField(s, k)
  {
    var u := Some(Update(s.index, GetField(s, k)));
    assert u in us;
    var j :| 0 <= j < |us| && us[j] == u;
    assert KindOf(GetField(s, k)) == Some(k);
    assert Sets(us[j], s.index, k);
    var i := LastSetting(us, s.index, k);
    LastLineWins(us, i, s.index, k);
    SettingTells(us, stats, s, k, i);
  }

  lemma SettingTells(us: seq<Option<Update>>, stats: seq<BlockStats>, s: BlockStats, k: Kind, i: nat)
    requires DistinctIndices(stats) && Describes(us, stats) && s in stats
    requires i < |us| && Sets(us[i], s.index, k)
    ensures us[i].value.field == GetField(s, k)
  {
    var s' :| s' in stats && Agrees(us[i].value, s');
    assert s' == s;
  }

  lemma SameFields(a: BlockStats, b: BlockStats)
    requires a.index == b.index && forall k :: GetField(a, k) == GetField(b, k)
    ensures a == b
  {
    assert GetField(a, KName) == GetField(b, KName);
    assert GetField(a, KPath) == GetField(b, KPath);
    assert GetField(a, KAllocation) == GetField(b, KAllocation);
    assert GetField(a, KCapacity) == GetField(b, KCapacity);
    assert GetField(a, KPhysical) == GetField(b, KPhysical);
  }

  /** Updates that describe a list of devices, in any order, build exactly that list. */
  lemma DescribedTable(us: seq<Option<Update>>, stats: seq<BlockStats>)
    requires DistinctIndices(stats) && Describes(us, stats)
    ensures forall s: BlockStats :: (s.index in Fold(us) && Fold(us)[s.index] == s) <==> s in stats
  {
    forall s: BlockStats | s in stats ensures s.index in Fold(us) && Fold(us)[s.index] == s {
      FieldRead(us, stats, s, KName);
      forall k ensures GetField(Fold(us)[s.index], k) == GetField(s, k) { FieldRead(us, stats, s, k); }
      FoldKeys(us, s.index);
      SameFields(Fold(us)[s.index], s);
    }
    forall s: BlockStats | s.index in Fold(us) && Fold(us)[s.index] == s ensures s in stats {
      FoldKeys(us, s.index);
      var i :| 0 <= i < |us| && Mentions(us[i], s.index);
      var s' :| s' in stats && Agrees(us[i].value, s');
      assert s' == s;
    }
  }

  lemma {:induction false} TrimLeftSpace(t: string, c: char)
    requires IsSpace(c)
    ensures TrimLeft(t + [c]) == if TrimLeft(t) == "" then "" else TrimLeft(t) + [c]
    decreases |t|
  {
    if t == "" {
      assert (t + [c])[1..] == "";
    } else if IsSpace(t[0]) {
      assert (t + [c])[1..] == t[1..] + [c];
      TrimLeftSpace(t[1..], c);
    }
  }

  /** The carriage return the scanner drops would be trimmed anyway. */
  lemma DropCrHarmless(line: string)
    ensures ParseLine(DropCr(line)) == ParseLine(line)
  {
    if DropCr(line) != line {
      var t := DropCr(line);
      assert line == t + ['\r'];
      TrimLeftSpace(t, '\r');
      assert TrimLeft(t) != "" ==> (TrimLeft(t) + ['\r'])[..|TrimLeft(t)|] == TrimLeft(t);
    }
  }

  /** A text line that says nothing about a device of the list: it does not have the
      documented shape with a signed decimal for the index, or it is about a key
      outside the five of one of the devices. */
  ghost predicate Unrelated(line: string, stats: seq<BlockStats>) {
    forall num, key, val, sign, digits, i |
      Shape(Trim(line), num, key, val) && Decimal(num, sign, digits, i) ::
      && key != "name" && key != "path" && key != "allocation" && key != "capacity" && key != "physical"
      && exists s :: s in stats && s.index == i
  }

  /** The text is these lines, with or without a newline after the last. */
  predicate TextOf(text: string, lines: seq<string>) {
    || text == Unlines(lines)
    || (|lines| > 0 && lines[|lines| - 1] != ""
        && text == Unlines(lines[..|lines| - 1]) + lines[|lines| - 1])
  }

  lemma RawLinesOfText(text: string, lines: seq<string>)
    requires TextOf(text, lines) && forall i | 0 <= i < |lines| :: '\n' !in lines[i]
    ensures RawLines(text) == lines
  {
    if text == Unlines(lines) {
      RawLinesAre(lines, "");
      assert Unlines(lines) + "" == Unlines(lines);
    } else {
      RawLinesAre(lines[..|lines| - 1], lines[|lines| - 1]);
      assert lines == lines[..|lines| - 1] + [lines[|lines| - 1]];
    }
  }

  /** The text has every printed line at least once, in any order, among unrelated lines. */
  ghost predicate Prints(lines: seq<string>, stats: seq<BlockStats>) {
    && (forall s, k | s in stats :: PrintLine(s, k) in lines)
    && (forall i | 0 <= i < |lines| ::
          Unrelated(lines[i], stats) || exists s, k :: s in stats && lines[i] == PrintLine(s, k))
    && (forall i | 0 <= i < |lines| :: '\n' !in lines[i] && |lines[i]| < LINE_LIMIT)
  }

  lemma OwnFieldAgrees(s: BlockStats, k: Kind)
    ensures Agrees(Update(s.index, GetField(s, k)), s)
  {
    assert KindOf(GetField(s, k)) == Some(k);
  }

  lemma UnrelatedAgrees(line: string, stats: seq<BlockStats>)
    requires Unrelated(line, stats) && ParseLine(line).Some?
    ensures exists s :: s in stats && Agrees(ParseLine(line).value, s)
  {
    var u := ParseLine(line).value;
    ParseLineIff(line, u);
    var num, key, val, sign, digits :|
      Shape(Trim(line), num, key, val) && Decimal(num, sign, digits, u.index) && u.field == FieldFor(key, val);
    FieldForIs(key, val);
    OtherAgrees(u, stats);
  }

  lemma OtherAgrees(u: Update, stats: seq<BlockStats>)
    requires u.field == Other && exists s :: s in stats && s.index == u.index
    ensures exists s :: s in stats && Agrees(u, s)
  {
    var s :| s in stats && s.index == u.index;
    assert Agrees(u, s);
  }

  lemma LineSays(lines: seq<string>, i: nat, s: BlockStats, k: Kind)
    requires Printable(s) && i < |lines| && lines[i] == PrintLine(s, k)
    ensures Updates(lines)[i] == Some(Update(s.index, GetField(s, k)))
  {
    ParsePrinted(s, k);
  }

  lemma PrintedDescribes(lines: seq<string>, stats: seq<BlockStats>)
    requires Prints(lines, stats) && forall s | s in stats :: Printable(s)
    ensures Describes(Updates(lines), stats)
  {
    forall s, k | s in stats ensures Some(Update(s.index, GetField(s, k))) in Updates(lines) {
      assert PrintLine(s, k) in lines;
      var i :| 0 <= i < |lines| && lines[i] == PrintLine(s, k);
      LineSays(lines, i, s, k);
      assert Updates(lines)[i] in Updates(lines);
    }
    forall i | 0 <= i < |lines| && Updates(lines)[i].Some?
      ensures exists s :: s in stats && Agrees(Updates(lines)[i].value, s)
    {
      if Unrelated(lines[i], stats) {
        UnrelatedAgrees(lines[i], stats);
      } else {
        var s, k :| s in stats && lines[i] == PrintLine(s, k);
        LineSays(lines, i, s, k);
        OwnFieldAgrees(s, k);
      }
    }
  }

  /**
    Round trip: print any list of devices with distinct indices, one line a field,
    put the lines in any order, repeat some, interleave unrelated lines; what
    parses back is the same devices sorted by index.
   */
  lemma PrintParseRoundTrip(text: string, lines: seq<string>, stats: seq<BlockStats>, out: seq<BlockStats>)
    requires DistinctIndices(stats) && (forall s | s in stats :: Printable(s)) && Prints(lines, stats)
    requires TextOf(text, lines) && Lists(out, TableOf(text))
    ensures !TooLong(text)
    ensures (forall i | 0 <= i < |out| - 1 :: out[i].index < out[i + 1].index) && forall s :: s in out <==> s in stats
  {
    RawLinesOfText(text, lines);
    assert Updates(Lines(text)) == Updates(lines) by {
      forall i | 0 <= i < |lines| ensures ParseLine(Lines(text)[i]) == ParseLine(lines[i]) {
        DropCrHarmless(lines[i]);
      }
    }
    PrintedDescribes(lines, stats);
    DescribedTable(Updates(lines), stats);
  }
}
