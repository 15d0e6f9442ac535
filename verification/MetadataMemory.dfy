/** Reading the metadata from a buffer that need not be a C string. */
module MetadataMemory {
  import opened Platform
  import opened CStrings
  import opened Updater
  import opened Metadata

  /** The number behind the key is there, and something that ends it. */
  predicate NumberEnds(text: string, key: string) {
    match Find(text, key) case None => false case Some(i) => !RunsOut(text[i + |key|..])
  }

  /** The path behind its key is there, and a line end behind it or more characters than are copied. */
  predicate PathEnds(text: string) {
    match Find(text, FILE)
    case None => false
    case Some(i) =>
      var rest := text[i + |FILE|..];
      |Line(rest)| < |rest| || |Line(rest)| >= PATH_SIZE - 1
  }

  /** All reads of the metadata callback stay inside the buffer: it holds a NUL, or all three keys are found and none
      of their values goes on to the end. */
  predicate StaysInside(mem: string) {
    NUL in mem || (NumberEnds(mem, INTERVAL) && NumberEnds(mem, VERSION) && PathEnds(mem))
  }

  lemma TextOf(mem: string)
    ensures NUL !in mem ==> Text(mem) == mem
    ensures NUL in mem ==> |Text(mem)| < |mem|
  {
    if NUL !in mem { TextIs(mem, mem); }
  }

  lemma ReadIntIs(mem: string, key: string)
    ensures ReadInt(mem, key) ==
      match KeyValueInt(Text(mem), key)
      case None => if NUL in mem then Missing else PastEnd
      case Some(n) => if NUL in mem || NumberEnds(mem, key) then Got(n) else PastEnd
  {
    hide Text, RunsOut, Atoi, Find, OccursAt;
    TextOf(mem);
  }

  lemma ReadPathIs(mem: string)
    ensures ReadString(mem, FILE, PATH_SIZE) ==
      match KeyValueString(Text(mem), FILE, PATH_SIZE)
      case None => if NUL in mem then Missing else PastEnd
      case Some(path) => if NUL in mem || PathEnds(mem) then Got(path) else PastEnd
  {
    hide Line, Text, Find, OccursAt, Truncate, ReadString;
    TextOf(mem);
    ReadStringIs(mem, FILE, PATH_SIZE);
  }

  /** The callback reads past its buffer if and only if not all of these reads stay inside, and otherwise decides on the
      text in the buffer. Before a read past the end it may have taken over the interval. */
  lemma ApplyMemoryIs(u: State, mem: string)
    ensures StaysInside(mem) ==> ApplyMemory(u, mem) == ApplyMetadata(u, Text(mem))
    ensures !StaysInside(mem) ==>
      var u' := ApplyMemory(u, mem); u' == u.(fault := true, interval := u'.interval)
    ensures ApplyMemory(u, mem).fault <==> u.fault || !StaysInside(mem)
  {
    hide ReadInt, ReadString, NumberEnds, PathEnds, KeyValueInt, KeyValueString, StorePath, Text;
    ReadIntIs(mem, INTERVAL);
    ReadIntIs(mem, VERSION);
    ReadPathIs(mem);
    FoundIfEnds(mem);
    TextOf(mem);
  }

  lemma FoundIfEnds(mem: string)
    ensures NumberEnds(mem, INTERVAL) ==> KeyValueInt(mem, INTERVAL).Some?
    ensures NumberEnds(mem, VERSION) ==> KeyValueInt(mem, VERSION).Some?
    ensures PathEnds(mem) ==> KeyValueString(mem, FILE, PATH_SIZE).Some?
  {
  }

  // ---------- Ended lines ----------

  lemma DigitsEnd(n: int, rest: string)
    requires rest != [] && !IsDigit(rest[0])
    ensures !RunsOut(Printed(n) + rest)
  {
    hide Decimal;
    var digits := Decimal(if n < 0 then -n else n);
    var s := Printed(n) + rest;
    assert SkipSpace(s) == s;
    assert n < 0 ==> s[1..] == digits + rest;
    LeadingDigitsOf(digits, rest);
  }

  lemma EndedNumber(lines: seq<string>, eol: string, tail: string, key: string, n: int)
    requires Eol(eol) && Lines(lines) && OneLine(key) && key != [] && Lookup(lines, key) == Some(Printed(n))
    ensures NumberEnds(Join(lines, eol) + tail, key)
  {
    hide Join, Lookup, Printed, Find, RunsOut, OneLine;
    var i, rest := ParserReadsLookup(lines, eol, key, Printed(n));
    ValueBefore(Join(lines, eol), tail, key, Printed(n), i, eol, rest);
    assert Printed(n) + eol + (rest + tail) == Printed(n) + (eol + (rest + tail));
    DigitsEnd(n, eol + (rest + tail));
  }

  lemma EndedPath(lines: seq<string>, eol: string, tail: string, path: string)
    requires Eol(eol) && Lines(lines) && Lookup(lines, FILE) == Some(path)
    ensures PathEnds(Join(lines, eol) + tail)
  {
    hide Join, Lookup, Find, Line;
    KeyLetters(FILE);
    var i, rest := ParserReadsLookup(lines, eol, FILE, path);
    ValueBefore(Join(lines, eol), tail, FILE, path, i, eol, rest);
    assert path + eol + (rest + tail) == path + (eol + (rest + tail));
    LineIs(path, eol + (rest + tail));
  }

  /** Lines that are ended are read without a NUL behind them, if all three are there. Without an interval line and
      without a NUL, the search for it runs past the buffer. */
  lemma MemoryIsApplied(u: State, mem: string, lines: seq<string>, eol: string, tail: string,
                        interval: Option<int>, version: int, path: string)
    requires Eol(eol) && Lines(lines) && Describes(lines, tail, interval, version, path)
    requires Text(mem) == Join(lines, eol) + tail
    ensures StaysInside(mem) <==> NUL in mem || interval.Some?
    ensures ApplyMemory(u, mem) ==
      if NUL in mem || interval.Some? then Applied(u, interval, version, path) else u.(fault := true)
  {
    hide Join, Lookup, Printed, ApplyMetadata, ApplyMemory, NumberEnds, PathEnds, Contains;
    KeyLetters(INTERVAL);
    KeyLetters(VERSION);
    TextOf(mem);
    EndedNumber(lines, eol, tail, VERSION, version);
    EndedPath(lines, eol, tail, path);
    match interval {
      case Some(n) => EndedNumber(lines, eol, tail, INTERVAL, n);
      case None =>
        NoIntervalRead(lines, eol, tail);
        NoIntervalFaults(u, mem);
    }
    ApplyMemoryIs(u, mem);
    MetadataIsApplied(u, lines, eol, tail, interval, version, path);
  }

  lemma NoIntervalFaults(u: State, mem: string)
    requires KeyValueInt(Text(mem), INTERVAL) == None
    ensures NUL !in mem ==> !NumberEnds(mem, INTERVAL) && ApplyMemory(u, mem) == u.(fault := true)
  {
    TextOf(mem);
    ReadIntIs(mem, INTERVAL);
  }

}
