/**
  Which lines of `virsh domstats --block` output count, and what they say,
  independently of how the parser takes them apart.
 */
module DomstatsLines {
  import opened Records
  import opened Domstats

  // ----- numbers

  function TenTo(n: nat): nat {
    if n == 0 then 1 else 10 * TenTo(n - 1)
  }

  lemma ValueOfSnoc(s: string, c: char)
    requires AllDigits(s) && IsDigit(c)
    ensures AllDigits(s + [c]) && Value(s + [c]) == Value(s) * 10 + DigitValue(c)
  {
    assert (s + [c])[..|s|] == s;
  }

  lemma Tenfold(x: nat, y: nat, d: nat, n: nat)
    ensures (x * TenTo(n) + y) * 10 + d == x * TenTo(n + 1) + (y * 10 + d)
  {
    var t := TenTo(n);
    assert (x * t) * 10 == x * (10 * t);
  }

  /** Decimal place value. */
  lemma {:induction false} ValueOfConcat(a: string, b: string)
    requires AllDigits(a) && AllDigits(b)
    ensures AllDigits(a + b) && Value(a + b) == Value(a) * TenTo(|b|) + Value(b)
    decreases |b|
  {
    if b == "" {
      assert a + b == a;
    } else {
      var last := |b| - 1;
      ValueOfConcat(a, b[..last]);
      assert a + b == (a + b[..last]) + [b[last]] && b == b[..last] + [b[last]];
      ValueOfSnoc(a + b[..last], b[last]);
      ValueOfSnoc(b[..last], b[last]);
      Tenfold(Value(a), Value(b[..last]), DigitValue(b[last]), last);
    }
  }

  /** A signed decimal within `int64`. */
  predicate Decimal(s: string, sign: string, digits: string, i: int) {
    && s == sign + digits && (sign == "" || sign == "+" || sign == "-")
    && digits != "" && AllDigits(digits)
    && var v: int := Value(digits); i == (if sign == "-" then -v else v) && -I63 <= i < I63
  }

  /** `strconv.Atoi` reads exactly the signed decimals within `int64`. */
  lemma AtoiIff(s: string, i: int)
    ensures Atoi(s) == Some(i) <==> exists sign, digits :: Decimal(s, sign, digits, i)
  {
    if Atoi(s) == Some(i) {
      if s[0] == '-' || s[0] == '+' {
        assert s == [s[0]] + s[1..];
        assert Decimal(s, [s[0]], s[1..], i);
      } else {
        assert s == "" + s;
        assert Decimal(s, "", s, i);
      }
    }
    if sign, digits :| Decimal(s, sign, digits, i) {
      if sign == "" {
        assert s == digits && IsDigit(s[0]);
      } else {
        assert s[1..] == digits;
      }
    }
  }

  /** What is left of a text after trimming: it does not begin or end with a space, and
      what was taken away on both sides is spaces. */
  lemma TrimIs(s: string) returns (l: nat, r: nat)
    ensures l <= r <= |s| && Trim(s) == s[l..r]
    ensures forall i | 0 <= i < |s| && !(l <= i < r) :: IsSpace(s[i])
    ensures l < r ==> !IsSpace(s[l]) && !IsSpace(s[r - 1])
  {
    l := TrimLeftIs(s);
    var n := TrimRightIs(s[l..]);
    r := l + n;
    assert s[l..][..n] == s[l..r];
    forall i | 0 <= i < |s| && !(l <= i < r) ensures IsSpace(s[i]) {
      if i >= r { assert s[l..][i - l] == s[i]; }
    }
  }

  lemma {:induction false} TrimLeftIs(s: string) returns (l: nat)
    ensures l <= |s| && TrimLeft(s) == s[l..] && (forall i | 0 <= i < l :: IsSpace(s[i]))
    ensures l < |s| ==> !IsSpace(s[l])
  {
    if s != "" && IsSpace(s[0]) {
      var k := TrimLeftIs(s[1..]);
      l := k + 1;
      forall i | 0 <= i < l ensures IsSpace(s[i]) {
        if i > 0 { assert s[1..][i - 1] == s[i]; }
      }
    } else {
      l := 0;
    }
  }

  lemma {:induction false} TrimRightIs(s: string) returns (r: nat)
    ensures r <= |s| && TrimRight(s) == s[..r] && (forall i | r <= i < |s| :: IsSpace(s[i]))
    ensures r > 0 ==> !IsSpace(s[r - 1])
    decreases |s|
  {
    if s != "" && IsSpace(s[|s| - 1]) {
      r := TrimRightIs(s[..|s| - 1]);
    } else {
      r := |s|;
    }
  }

  /** The white space of ASCII. */
  lemma AsciiSpaces(c: char)
    requires c < 128 as char
    ensures IsSpace(c) <==> c == ' ' || c == '\t' || c == '\n' || c == '\r' || c == 11 as char || c == 12 as char
  {
  }

  /** The digits a text begins with. */
  function Digits(s: string): (n: nat)
    ensures n <= |s| && AllDigits(s[..n]) && (n < |s| ==> !IsDigit(s[n]))
  {
    if s == "" || !IsDigit(s[0]) then 0
    else
      var n := Digits(s[1..]);
      assert forall i | 0 <= i < n + 1 :: i > 0 ==> s[i] == s[1..][..n][i - 1];
      n + 1
  }

  /** The value that reading digits from the left reaches. */
  function Accumulate(acc: nat, s: string): nat
    requires AllDigits(s)
    decreases s
  {
    if s == "" then acc else Accumulate(acc * 10 + DigitValue(s[0]), s[1..])
  }

  lemma {:induction false} AccumulateIs(acc: nat, s: string)
    requires AllDigits(s)
    ensures Accumulate(acc, s) == acc * TenTo(|s|) + Value(s) && Accumulate(acc, s) >= acc
    decreases |s|
  {
    if s != "" {
      AccumulateIs(acc * 10 + DigitValue(s[0]), s[1..]);
      assert s == [s[0]] + s[1..];
      assert [s[0]][..0] == "" && Value([s[0]]) == DigitValue(s[0]);
      ValueOfConcat([s[0]], s[1..]);
      Shift(acc, DigitValue(s[0]), |s| - 1);
    }
  }

  lemma Shift(acc: nat, d: nat, n: nat)
    ensures (acc * 10 + d) * TenTo(n) == acc * TenTo(n + 1) + d * TenTo(n)
    ensures acc * TenTo(n + 1) + d * TenTo(n) >= acc
  {
    PowerPositive(n);
    var t := TenTo(n);
    assert acc * (10 * t) == (acc * 10) * t;
    assert acc * 1 <= acc * (10 * t);
  }

  lemma {:induction false} PowerPositive(n: nat)
    ensures TenTo(n) > 0
  {
    if n > 0 { PowerPositive(n - 1); }
  }

  lemma {:induction false} ScanIs(s: string, acc: nat)
    requires acc < U64
    ensures var n := Digits(s);
            var reached := Accumulate(acc, s[..n]);
            ScanUint(s, acc) == if reached >= U64 then U64 - 1 else if n == |s| then reached else 0
    decreases |s|
  {
    var n := Digits(s);
    if n > 0 {
      var next := acc * 10 + DigitValue(s[0]);
      assert s[..n][1..] == s[1..][..n - 1];
      AccumulateIs(next, s[..n][1..]);
      if next < U64 { ScanIs(s[1..], next); }
    }
  }

  /** `strconv.ParseUint` with its error dropped: the value, saturated at the greatest
      `uint64`; a character that is no digit makes it 0, unless the digits before it
      overflow. */
  lemma ParseUintIs(s: string)
    ensures var t := Trim(s);
            var n := Digits(t);
            ParseUint(s) == if Value(t[..n]) >= U64 then U64 - 1 else if n == |t| then Value(t) else 0
  {
    var t := Trim(s);
    ScanIs(t, 0);
    AccumulateIs(0, t[..Digits(t)]);
    assert t[..|t|] == t;
  }

  // ----- lines

  /** A line of the documented shape `block.<num>.<key>=<val>`. */
  predicate Shape(line: string, num: string, key: string, val: string) {
    line == "block." + num + "." + key + "=" + val && '.' !in num && '=' !in num && '=' !in key
  }

  /** What the key and the value of a line say. */
  lemma FieldForIs(key: string, val: string)
    ensures key == "name" ==> FieldFor(key, val) == Name(val)
    ensures key == "path" ==> FieldFor(key, val) == Path(val)
    ensures key == "allocation" ==> FieldFor(key, val) == Allocation(ParseUint(val))
    ensures key == "capacity" ==> FieldFor(key, val) == Capacity(ParseUint(val))
    ensures key == "physical" ==> FieldFor(key, val) == Physical(ParseUint(val))
    ensures FieldFor(key, val) == Other <==>
            key != "name" && key != "path" && key != "allocation" && key != "capacity" && key != "physical"
  {
  }

  /** Splitting at the first separator gives back the two parts. */
  lemma SplitAt(a: string, c: char, b: string)
    requires c !in a
    ensures var s := a + [c] + b;
            IndexOf(s, c) == |a| && s[..|a|] == a && s[|a| + 1..] == b && |a| < |s|
  {
    IndexOfSplit(a, c, b);
  }

  lemma Rejoin(s: string, c: char)
    requires IndexOf(s, c) < |s|
    ensures s == s[..IndexOf(s, c)] + [c] + s[IndexOf(s, c) + 1..] && c !in s[..IndexOf(s, c)]
  {
  }

  lemma ShapeParts(line: string, num: string, key: string, val: string)
    requires Shape(line, num, key, val)
    ensures line == ("block" + ['.'] + (num + ['.'] + key)) + ['='] + val
    ensures '=' !in "block" + ['.'] + (num + ['.'] + key)
  {
    assert "block." == "block" + ['.'] && "." == ['.'] && "=" == ['='];
  }

  lemma ShapeParses(line: string, num: string, key: string, val: string)
    requires Shape(line, num, key, val)
    ensures "block." <= line
    ensures ParseTrimmed(line) == match Atoi(num)
                                  case None => None
                                  case Some(i) => Some(Update(i, FieldFor(key, val)))
  {
    var rest := num + ['.'] + key;
    var head := "block" + ['.'] + rest;
    ShapeParts(line, num, key, val);
    assert line[..6] == "block.";
    SplitAt(head, '=', val);
    SplitAt("block", '.', rest);
    SplitAt(num, '.', key);
    assert ParseTrimmed(line) == ParseAssignment(head, val);
    assert ParseAssignment(head, val) == ParseKey(rest, val);
  }

  lemma ParsedHasShape(line: string) returns (num: string, key: string, val: string)
    requires ParseTrimmed(line).Some?
    ensures Shape(line, num, key, val)
  {
    var eq := IndexOf(line, '=');
    Rejoin(line, '=');
    val := line[eq + 1..];
    var rest := HeadRest(line, eq);
    Rejoin(rest, '.');
    var dot := IndexOf(rest, '.');
    num, key := rest[..dot], rest[dot + 1..];
    JoinShape(line, line[..eq], rest, num, key, val);
    NoneWithin('=', num, key, rest);
  }

  lemma JoinShape(line: string, head: string, rest: string, num: string, key: string, val: string)
    requires line == head + ['='] + val && head == "block." + rest && rest == num + ['.'] + key
    ensures line == "block." + num + "." + key + "=" + val
  {
    assert "." == ['.'] && "=" == ['='];
  }

  lemma NoneWithin(c: char, a: string, b: string, s: string)
    requires c !in s && s == a + ['.'] + b
    ensures c !in a && c !in b
  {
    forall i | 0 <= i < |b| ensures b[i] != c { assert s[|a| + 1 + i] == b[i]; }
    forall i | 0 <= i < |a| ensures a[i] != c { assert s[i] == a[i]; }
  }

  /** The part before the '=' is "block." and a rest with a dot in it. */
  lemma HeadRest(line: string, eq: nat) returns (rest: string)
    requires ParseTrimmed(line).Some? && eq == IndexOf(line, '=')
    ensures line[..eq] == "block." + rest && '=' !in rest && IndexOf(rest, '.') < |rest|
  {
    assert line[..6] == "block.";
    assert eq >= 6;
    var head := line[..eq];
    assert head[..6] == "block.";
    rest := head[6..];
    assert head == "block" + ['.'] + rest;
    SplitAt("block", '.', rest);
  }

  /**
    A line counts if and only if, trimmed, it reads `block.<num>.<key>=<val>` with a
    signed decimal for <num>; and then it says what the key and the value say
    about that index.
   */
  lemma ParseLineIff(raw: string, u: Update)
    ensures ParseLine(raw) == Some(u) <==>
            exists num, key, val, sign, digits ::
              Shape(Trim(raw), num, key, val) && Decimal(num, sign, digits, u.index) && u.field == FieldFor(key, val)
  {
    var line := Trim(raw);
    if ParseLine(raw) == Some(u) {
      var num, key, val := ParsedHasShape(line);
      ShapeParses(line, num, key, val);
      AtoiIff(num, u.index);
      var sign, digits :| Decimal(num, sign, digits, u.index);
    }
    if num, key, val, sign, digits :|
       Shape(line, num, key, val) && Decimal(num, sign, digits, u.index) && u.field == FieldFor(key, val) {
      AtoiIff(num, u.index);
      ShapeParses(line, num, key, val);
    }
  }

  /** Lines about anything but a block device are ignored. */
  lemma OtherLinesIgnored(raw: string)
    requires !("block." <= Trim(raw))
    ensures ParseLine(raw) == None
  {
  }

  /** So are keys of fewer than three parts, such as `block.count=2`. */
  lemma ShortKeysIgnored(raw: string, key: string, val: string)
    requires Trim(raw) == "block." + key + "=" + val && '.' !in key && '=' !in key
    ensures ParseLine(raw) == None
  {
    var line := Trim(raw);
    var head := "block" + ['.'] + key;
    assert line == head + ['='] + val;
    assert line[..6] == "block.";
    SplitAt(head, '=', val);
    SplitAt("block", '.', key);
    assert ParseTrimmed(line) == ParseAssignment(head, val) == ParseKey(key, val);
    assert IndexOf(key, '.') == |key|;
  }

  // ----- the text

  function Unlines(lines: seq<string>): string {
    if lines == [] then "" else lines[0] + ['\n'] + Unlines(lines[1..])
  }

  /** The lines of a text are what the newlines separate; after the last newline there
      is a line only if there is text. */
  lemma {:induction false} RawLinesAre(lines: seq<string>, last: string)
    requires '\n' !in last && forall i | 0 <= i < |lines| :: '\n' !in lines[i]
    ensures RawLines(Unlines(lines) + last) == lines + if last == "" then [] else [last]
  {
    if lines == [] {
      assert Unlines(lines) + last == last;
      if last != "" { assert IndexOf(last, '\n') == |last|; }
    } else {
      var rest := Unlines(lines[1..]) + last;
      assert Unlines(lines) + last == lines[0] + ['\n'] + rest;
      SplitAt(lines[0], '\n', rest);
      RawLinesAre(lines[1..], last);
    }
  }

  /** A domain without block devices: the header and the count make no device. */
  lemma HeaderMakesNoDevice()
    ensures ParseLine("Domain: 'web01'") == None && ParseLine("  block.count=0") == None
  {
    var raw := "  block.count=0";
    var l, r := TrimIs(raw);
    assert raw[2] == 'b' && raw[14] == '0' && !IsSpace(raw[2]) && !IsSpace(raw[14]);
    assert l <= 2 && r == 15;
    assert IsSpace(raw[0]) && IsSpace(raw[1]);
    assert l == 2;
    assert raw[2..15] == "block." + "count" + "=" + "0";
    ShortKeysIgnored(raw, "count", "0");
    var domain := "Domain: 'web01'";
    var l', r' := TrimIs(domain);
    assert !IsSpace(domain[0]);
    assert l' == 0;
    assert Trim(domain)[0] == 'D';
    OtherLinesIgnored(domain);
  }
}
