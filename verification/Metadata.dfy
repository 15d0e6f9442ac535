/** What the metadata callback understands: a reading by lines. */
module Metadata {
  import opened Platform
  import opened CStrings
  import opened Http
  import opened HttpWait
  import opened Updater

  /** A text of lines, each ended by `eol`. */
  function Join(lines: seq<string>, eol: string): string {
    if lines == [] then [] else lines[0] + eol + Join(lines[1..], eol)
  }

  /** The reference: the value is what follows the key in the first line that contains it. */
  function Lookup(lines: seq<string>, key: string): Option<string> {
    if lines == [] then None
    else
      match Find(lines[0], key)
      case Some(i) => Some(lines[0][i + |key|..])
      case None => Lookup(lines[1..], key)
  }

  predicate Eol(eol: string) { eol == "\n" || eol == "\r\n" }

  lemma InsideOccurrence(text: string, key: string, j: nat, k: nat)
    requires OccursAt(text, key, j) && j <= k < j + |key| && OneLine(key)
    ensures !EndsLine(text[k])
  {
    assert text[k] == text[j..j + |key|][k - j] == key[k - j];
    assert key[k - j] in key;
  }

  lemma SliceBehind(a: string, b: string, j: nat, n: nat)
    requires |a| <= j && j + n <= |a + b|
    ensures (a + b)[j..j + n] == b[j - |a|..j - |a| + n]
  {
  }

  /** A key without line ends occurs in a text only inside a line. */
  lemma OccursInLine(line: string, eol: string, rest: string, key: string, j: nat)
    requires Eol(eol) && OneLine(key) && key != [] && OccursAt(line + eol + rest, key, j)
    ensures OccursAt(line, key, j) || (j >= |line| + |eol| && OccursAt(rest, key, j - |line| - |eol|))
  {
    var text, n := line + eol + rest, |line| + |eol|;
    assert EndsLine(text[|line|]) && EndsLine(text[n - 1]);
    if j + |key| <= |line| {
      assert line[j..j + |key|] == text[j..j + |key|];
    } else if j <= |line| {
      InsideOccurrence(text, key, j, |line|);
    } else if j < n {
      InsideOccurrence(text, key, j, n - 1);
    } else {
      SliceBehind(line + eol, rest, j, |key|);
    }
  }

  lemma OccursInText(before: string, part: string, after: string, key: string, j: nat)
    requires OccursAt(part, key, j)
    ensures OccursAt(before + part + after, key, |before| + j)
  {
    assert (before + part + after)[|before| + j..|before| + j + |key|] == part[j..j + |key|];
  }

  lemma FindInFirst(line: string, eol: string, rest: string, key: string, i: nat)
    requires Eol(eol) && OneLine(key) && key != [] && Find(line, key) == Some(i)
    ensures Find(line + eol + rest, key) == Some(i)
  {
    var text := line + eol + rest;
    OccursInText([], line, eol + rest, key, i);
    assert [] + line + (eol + rest) == text;
    forall j: nat | j < i ensures !OccursAt(text, key, j) {
      if OccursAt(text, key, j) { OccursInLine(line, eol, rest, key, j); }
    }
    FindIs(text, key, i);
  }

  lemma FindInRest(line: string, eol: string, rest: string, key: string)
    requires Eol(eol) && OneLine(key) && key != [] && Find(line, key) == None
    ensures Find(line + eol + rest, key) ==
      match Find(rest, key)
      case Some(i) => Some(|line| + |eol| + i)
      case None => None
  {
    var text, n := line + eol + rest, |line| + |eol|;
    forall j: nat | OccursAt(text, key, j) ensures j >= n && OccursAt(rest, key, j - n) {
      OccursInLine(line, eol, rest, key, j);
    }
    if Find(rest, key).Some? {
      var i := Find(rest, key).value;
      OccursInText(line + eol, rest, [], key, i);
      assert line + eol + rest + [] == text;
      FindIs(text, key, n + i);
    }
  }

  ghost predicate Lines(lines: seq<string>) {
    forall i :: 0 <= i < |lines| ==> OneLine(lines[i])
  }

  /** A value and the rest of a text after its line. */
  ghost predicate ValueAt(text: string, key: string, value: string, i: nat, eol: string, rest: string) {
    OneLine(value) && Find(text, key) == Some(i) && text[i + |key|..] == value + eol + rest
  }

  lemma ValueInFirst(line: string, eol: string, tail: string, key: string, i: nat)
    requires Eol(eol) && OneLine(line) && OneLine(key) && key != [] && Find(line, key) == Some(i)
    ensures ValueAt(line + eol + tail, key, line[i + |key|..], i, eol, tail)
  {
    FindInFirst(line, eol, tail, key, i);
    assert (line + eol + tail)[i + |key|..] == line[i + |key|..] + eol + tail;
    assert forall c :: c in line[i + |key|..] ==> c in line;
  }

  lemma ValueInRest(line: string, eol: string, tail: string, key: string, value: string, i: nat, rest: string)
    requires Eol(eol) && OneLine(key) && key != [] && Find(line, key) == None
    requires ValueAt(tail, key, value, i, eol, rest)
    ensures ValueAt(line + eol + tail, key, value, |line| + |eol| + i, eol, rest)
  {
    FindInRest(line, eol, tail, key);
    assert (line + eol + tail)[|line| + |eol| + i + |key|..] == tail[i + |key|..];
  }

  lemma LookupLater(lines: seq<string>, key: string)
    requires lines != [] && Find(lines[0], key) == None
    ensures Lookup(lines, key) == Lookup(lines[1..], key)
  {
  }

  lemma LookupNowhere(lines: seq<string>, key: string)
    requires lines != [] && Lookup(lines, key) == None
    ensures Find(lines[0], key) == None && Lookup(lines[1..], key) == None
  {
  }

  /** The refinement: what the parsers read after a key is the value of the reference lookup, up to the
      end of its line; and they find nothing if it finds nothing. */
  lemma {:induction false} ParserReadsLookup(lines: seq<string>, eol: string, key: string, value: string) returns (i: nat, rest: string)
    requires Eol(eol) && Lines(lines) && OneLine(key) && key != [] && Lookup(lines, key) == Some(value)
    ensures ValueAt(Join(lines, eol), key, value, i, eol, rest)
  {
    hide ValueAt, OneLine, Find;
    var line, tail := lines[0], Join(lines[1..], eol);
    assert Join(lines, eol) == line + eol + tail;
    if Find(line, key).Some? {
      i, rest := Find(line, key).value, tail;
      ValueInFirst(line, eol, tail, key, i);
    } else {
      LookupLater(lines, key);
      i, rest := ParserReadsLookup(lines[1..], eol, key, value);
      ValueInRest(line, eol, tail, key, value, i, rest);
      i := |line| + |eol| + i;
    }
  }

  lemma {:induction false} ParserFindsNothing(lines: seq<string>, eol: string, key: string)
    requires Eol(eol) && OneLine(key) && key != [] && Lookup(lines, key) == None
    ensures Find(Join(lines, eol), key) == None
  {
    if lines == [] {
      assert forall j: nat :: !OccursAt([], key, j);
    } else {
      ParserFindsNothing(lines[1..], eol, key);
      FindInRest(lines[0], eol, Join(lines[1..], eol), key);
    }
  }

  // ---------- The three values ----------

  lemma StringAt(text: string, key: string, value: string, i: nat, eol: string, rest: string, strLen: int)
    requires Eol(eol) && ValueAt(text, key, value, i, eol, rest)
    ensures KeyValueString(text, key, strLen) == Some(Truncate(value, strLen - 1))
  {
    assert value + eol + rest == value + (eol + rest);
    LineIs(value, eol + rest);
  }

  lemma IntAt(text: string, key: string, n: int, value: string, i: nat, eol: string, rest: string)
    requires Eol(eol) && ValueAt(text, key, value, i, eol, rest) && value == Printed(n)
    ensures KeyValueInt(text, key) == Some(n)
  {
    hide Printed, Find, OneLine, ScanInt;
    assert value + eol + rest == [] + (value + (eol + rest));
    ScanPrinted([], n, eol + rest);
  }

  /** The lookup does not see what stands behind the text. */
  lemma ValueBefore(text: string, tail: string, key: string, value: string, i: nat, eol: string, rest: string)
    requires ValueAt(text, key, value, i, eol, rest)
    ensures ValueAt(text + tail, key, value, i, eol, rest + tail)
  {
    FindBefore(text, tail, key, i);
    assert (text + tail)[i + |key|..] == text[i + |key|..] + tail == value + eol + (rest + tail);
  }

  lemma FindBefore(text: string, tail: string, key: string, i: nat)
    requires Find(text, key) == Some(i)
    ensures Find(text + tail, key) == Some(i)
  {
    var all := text + tail;
    forall j: nat | j <= i ensures OccursAt(all, key, j) <==> OccursAt(text, key, j) {
      assert all[j..j + |key|] == text[j..j + |key|];
    }
    FindIs(all, key, i);
  }

  /** Behind lines without a key, the key is found where the rest of the text has it. */
  lemma {:induction false} FindAfter(lines: seq<string>, eol: string, key: string, tail: string)
    requires Eol(eol) && OneLine(key) && key != [] && Lookup(lines, key) == None
    ensures Find(Join(lines, eol) + tail, key) ==
      match Find(tail, key) case Some(i) => Some(|Join(lines, eol)| + i) case None => None
  {
    hide Find, OneLine, Lookup;
    if lines == [] {
      assert Join(lines, eol) + tail == tail;
    } else {
      var rest := Join(lines[1..], eol) + tail;
      LookupNowhere(lines, key);
      FindAfter(lines[1..], eol, key, tail);
      FindInRest(lines[0], eol, rest, key);
      assert Join(lines, eol) + tail == lines[0] + eol + rest;
    }
  }

  lemma ReadsString(lines: seq<string>, eol: string, tail: string, key: string, value: string, strLen: int)
    requires Eol(eol) && Lines(lines) && OneLine(key) && key != [] && Lookup(lines, key) == Some(value)
    ensures KeyValueString(Join(lines, eol) + tail, key, strLen) == Some(Truncate(value, strLen - 1))
  {
    var i, rest := ParserReadsLookup(lines, eol, key, value);
    ValueBefore(Join(lines, eol), tail, key, value, i, eol, rest);
    StringAt(Join(lines, eol) + tail, key, value, i, eol, rest + tail, strLen);
  }

  lemma ReadsInt(lines: seq<string>, eol: string, tail: string, key: string, value: string, n: int)
    requires Eol(eol) && Lines(lines) && OneLine(key) && key != [] && Lookup(lines, key) == Some(value) && value == Printed(n)
    ensures KeyValueInt(Join(lines, eol) + tail, key) == Some(n)
  {
    var i, rest := ParserReadsLookup(lines, eol, key, value);
    ValueBefore(Join(lines, eol), tail, key, value, i, eol, rest);
    IntAt(Join(lines, eol) + tail, key, n, value, i, eol, rest + tail);
  }

  /** The interval line, which is optional. Without it, what stands behind the lines must not hold its key. */
  ghost predicate IntervalIs(lines: seq<string>, tail: string, interval: Option<int>) {
    match interval
    case Some(n) => Lookup(lines, INTERVAL) == Some(Printed(n))
    case None => Lookup(lines, INTERVAL) == None && !Contains(tail, INTERVAL)
  }

  /** The values of the three keys. */
  ghost predicate Describes(lines: seq<string>, tail: string, interval: Option<int>, version: int, path: string) {
    IntervalIs(lines, tail, interval) && Lookup(lines, VERSION) == Some(Printed(version)) && Lookup(lines, FILE) == Some(path)
  }

  /** What the metadata ask for. */
  function Applied(u: State, interval: Option<int>, version: int, path: string): State {
    u.(interval := if interval.Some? then interval.value % WORD else u.interval,
       firmwarePath := StorePath(Truncate(path, 255)), downloadBit := u.downloadBit || version != u.version)
  }

  /** Whatever other lines there are, in any order, and whatever text stands behind the lines, the metadata
      callback takes over the values of the first lines with the keys: the interval, if there is one, as a uint32_t,
      the file name cut to 255 characters, and it asks for a download exactly if the version differs from the
      installed one. */
  lemma MetadataIsApplied(u: State, lines: seq<string>, eol: string, tail: string, interval: Option<int>, version: int, path: string)
    requires Eol(eol) && Lines(lines) && Describes(lines, tail, interval, version, path)
    ensures ApplyMetadata(u, Join(lines, eol) + tail) == Applied(u, interval, version, path)
  {
    hide KeyValueInt, KeyValueString, Join, Lookup, Printed, StorePath, Contains;
    match interval {
      case Some(n) => ReadsInt(lines, eol, tail, INTERVAL, Printed(n), n);
      case None => NoIntervalRead(lines, eol, tail);
    }
    ReadsInt(lines, eol, tail, VERSION, Printed(version), version);
    ReadsString(lines, eol, tail, FILE, path, PATH_SIZE);
  }

  lemma NoIntervalRead(lines: seq<string>, eol: string, tail: string)
    requires Eol(eol) && IntervalIs(lines, tail, None)
    ensures KeyValueInt(Join(lines, eol) + tail, INTERVAL) == None
  {
    FindAfter(lines, eol, INTERVAL, tail);
  }

  /** Neither the lines nor the text behind them have the key. */
  ghost predicate Nowhere(lines: seq<string>, tail: string, key: string) {
    Lookup(lines, key) == None && !Contains(tail, key)
  }

  lemma NothingRead(lines: seq<string>, eol: string, tail: string, key: string)
    requires Eol(eol) && OneLine(key) && key != [] && Nowhere(lines, tail, key)
    ensures Find(Join(lines, eol) + tail, key) == None
  {
    FindAfter(lines, eol, key, tail);
  }

  /** Metadata without a version or without a file change the interval at most, and nothing at all without an
      interval; nothing is downloaded on their account. */
  lemma IncompleteMetadata(u: State, lines: seq<string>, eol: string, tail: string)
    requires Eol(eol) && (Nowhere(lines, tail, VERSION) || Nowhere(lines, tail, FILE))
    ensures var u' := ApplyMetadata(u, Join(lines, eol) + tail);
      u' == u.(interval := u'.interval) && (Nowhere(lines, tail, INTERVAL) ==> u' == u)
  {
    hide Join, Nowhere, Find, Line, Atoi, StorePath;
    if Nowhere(lines, tail, VERSION) { NothingRead(lines, eol, tail, VERSION); }
    if Nowhere(lines, tail, FILE) { NothingRead(lines, eol, tail, FILE); }
    if Nowhere(lines, tail, INTERVAL) { NothingRead(lines, eol, tail, INTERVAL); }
  }

  /** The stored firmware path is a C string that holds the cut file name. */
  lemma PathIsTerminated(path: string)
    requires NUL !in path
    ensures var stored := StorePath(Truncate(path, 255));
      |stored| == PATH_SIZE && NUL in stored && Text(stored) == Truncate(path, 255)
  {
    var value := Truncate(path, 255);
    var stored := StorePath(value);
    assert stored[..|value|] == value && stored[|value|] == NUL;
    assert forall c :: c in value ==> c in path;
    TextIs(stored, value);
  }

  // ---------- The format of meta/ota.txt ----------

  predicate IsKey(key: string) { key == INTERVAL || key == VERSION || key == FILE }

  lemma KeyLetters(key: string)
    requires IsKey(key)
    ensures |key| >= 5 && key[|key| - 1] == '=' && OneLine(key)
    ensures forall i :: 0 <= i < |key| - 1 ==> key[i] != '='
    ensures key[|key| - 2] == if key == INTERVAL then 'L' else if key == VERSION then 'N' else 'E'
  {
  }

  lemma CharOf(text: string, key: string, j: nat, i: nat)
    requires OccursAt(text, key, j) && i < |key|
    ensures text[j + i] == key[i]
  {
    assert text[j..j + |key|][i] == key[i];
  }

  /** In a line that begins with one key, another key can only occur in the value. */
  lemma OtherKeyInValue(key: string, value: string, other: string, j: nat)
    requires IsKey(key) && IsKey(other) && key != other && OccursAt(key + value, other, j)
    ensures j >= |key| && OccursAt(value, other, j - |key|)
  {
    var line, e := key + value, j + |other| - 1;
    if j >= |key| {
      SliceBehind(key, value, j, |other|);
      return;
    }
    KeyLetters(key);
    KeyLetters(other);
    CharOf(line, other, j, |other| - 1);
    CharOf(line, other, j, |other| - 2);
    if e >= |key| {
      CharOf(line, other, j, |key| - 1 - j);
    }
  }

  /** The value of the only line with a key, wherever it stands. */
  lemma {:induction false} LookupLine(lines: seq<string>, a: nat, key: string, value: string)
    requires a < |lines| && lines[a] == key + value && IsKey(key)
    requires forall i :: 0 <= i < a ==> !Contains(lines[i], key)
    ensures Lookup(lines, key) == Some(value)
  {
    if a == 0 {
      assert (key + value)[0..|key|] == key;
      FindIs(key + value, key, 0);
    } else {
      assert !Contains(lines[0], key);
      LookupLine(lines[1..], a - 1, key, value);
    }
  }

  lemma DecimalHasNoKey(n: nat, key: string)
    requires IsKey(key)
    ensures !Contains(Decimal(n), key)
  {
    KeyLetters(key);
    forall j: nat ensures !OccursAt(Decimal(n), key, j) {
      if OccursAt(Decimal(n), key, j) { CharOf(Decimal(n), key, j, |key| - 1); }
    }
  }

  lemma NotInOtherLine(key: string, value: string, other: string)
    requires IsKey(key) && IsKey(other) && key != other && !Contains(value, other)
    ensures !Contains(key + value, other)
  {
    forall j: nat ensures !OccursAt(key + value, other, j) {
      if OccursAt(key + value, other, j) { OtherKeyInValue(key, value, other, j); }
    }
  }

  lemma FirstIndex(lines: seq<string>, line: string) returns (a: nat)
    requires line in lines
    ensures a < |lines| && lines[a] == line && forall i :: 0 <= i < a ==> lines[i] != line
  {
    a := 0;
    while lines[a] != line
      invariant a < |lines| && line in lines[a..]
      invariant forall i :: 0 <= i < a ==> lines[i] != line
      decreases |lines| - a
    {
      a := a + 1;
    }
  }

  /** The three metadata lines, in any order. */
  ghost predicate MetadataLines(lines: seq<string>, interval: nat, version: nat, path: string) {
    |lines| == 3 &&
    multiset(lines) == multiset{INTERVAL + Decimal(interval), VERSION + Decimal(version), FILE + path}
  }

  lemma AnyOrderLookup(lines: seq<string>, key: string, value: string, interval: nat, version: nat, path: string)
    requires MetadataLines(lines, interval, version, path) && OneLine(path)
    requires !Contains(path, INTERVAL) && !Contains(path, VERSION)
    requires (key, value) in {(INTERVAL, Decimal(interval)), (VERSION, Decimal(version)), (FILE, path)}
    ensures Lookup(lines, key) == Some(value)
  {
    DecimalHasNoKey(interval, key);
    DecimalHasNoKey(version, key);
    if key != INTERVAL { NotInOtherLine(INTERVAL, Decimal(interval), key); }
    if key != VERSION { NotInOtherLine(VERSION, Decimal(version), key); }
    if key != FILE { NotInOtherLine(FILE, path, key); }
    assert key + value in multiset(lines);
    forall i | 0 <= i < |lines| && lines[i] != key + value ensures !Contains(lines[i], key) {
      assert lines[i] in multiset(lines);
    }
    var first := FirstIndex(lines, key + value);
    LookupLine(lines, first, key, value);
  }

  /** Round trip for meta/ota.txt: a file of the three lines, in any order and with either line end, is
      read back, provided the path does not itself contain the other two keys. */
  lemma MetadataFileReadsBack(u: State, lines: seq<string>, eol: string, interval: nat, version: nat, path: string)
    requires Eol(eol) && MetadataLines(lines, interval, version, path) && OneLine(path)
    requires !Contains(path, INTERVAL) && !Contains(path, VERSION)
    ensures ApplyMetadata(u, Join(lines, eol)) == Applied(u, Some(interval), version, path)
  {
    AnyOrderLookup(lines, INTERVAL, Decimal(interval), interval, version, path);
    AnyOrderLookup(lines, VERSION, Decimal(version), interval, version, path);
    AnyOrderLookup(lines, FILE, path, interval, version, path);
    forall i | 0 <= i < |lines| ensures OneLine(lines[i]) {
      assert lines[i] in multiset(lines);
      KeyLetters(INTERVAL); KeyLetters(VERSION); KeyLetters(FILE);
    }
    MetadataIsApplied(u, lines, eol, [], Some(interval), version, path);
    assert Join(lines, eol) + [] == Join(lines, eol);
  }
}
