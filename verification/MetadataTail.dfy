/** A last line that is not ended: old header text in the buffer goes on behind it. */
module MetadataTail {
  import opened Platform
  import opened CStrings
  import opened Updater
  import opened Metadata

  lemma DigitsSplit(d: string, tail: string)
    requires forall i :: 0 <= i < |d| ==> IsDigit(d[i])
    ensures LeadingDigits(d + tail) == |d| + LeadingDigits(tail)
  {
    var n := LeadingDigits(tail);
    assert (d + tail)[..|d| + n] == d + tail[..n];
    assert d + tail == (d + tail[..n]) + tail[n..];
    LeadingDigitsOf(d + tail[..n], tail[n..]);
  }

  /** More digits make a number at least ten times as large, or leave leading zeros. */
  lemma {:induction false} MoreDigits(d: string, more: string)
    requires more != [] && (forall i :: 0 <= i < |d| ==> IsDigit(d[i])) && (forall i :: 0 <= i < |more| ==> IsDigit(more[i]))
    ensures forall i :: 0 <= i < |d + more| ==> IsDigit((d + more)[i])
    ensures ValueOf(d + more) >= 10 * ValueOf(d)
    ensures ValueOf(d) == 0 ==> ValueOf(d + more) == ValueOf(more)
    decreases |more|
  {
    var init := more[..|more| - 1];
    assert (d + more)[..|d + more| - 1] == d + init;
    if init == [] {
      assert d + init == d;
    } else {
      MoreDigits(d, init);
    }
  }

  /** The digits behind a number do not change it. */
  ghost predicate Harmless(n: nat, tail: string) {
    var d := LeadingDigits(tail);
    d == 0 || (n == 0 && ValueOf(tail[..d]) == 0)
  }

  lemma ScanOnward(n: nat, tail: string)
    ensures Atoi(Decimal(n) + tail) == n <==> Harmless(n, tail)
  {
    hide Decimal;
    var s, d := Decimal(n) + tail, LeadingDigits(tail);
    assert IsDigit(s[0]) && SkipSpace(s) == s;
    DigitsSplit(Decimal(n), tail);
    ValueOfDecimal(n);
    var digits := Decimal(n) + tail[..d];
    assert s[..|Decimal(n)| + d] == digits;
    if d > 0 {
      MoreDigits(Decimal(n), tail[..d]);
    } else {
      assert digits == Decimal(n);
    }
    assert Atoi(s) == ValueOf(digits);
  }

  /** The number of an unended last line is read right if and only if the text behind it does not begin with a digit,
      or the number and those digits are all zeros. */
  lemma UnendedIntIff(lines: seq<string>, eol: string, key: string, n: nat, tail: string)
    requires Eol(eol) && Lookup(lines, key) == None && IsKey(key)
    ensures KeyValueInt(Join(lines, eol) + (key + (Decimal(n) + tail)), key) == Some(n) <==> Harmless(n, tail)
    ensures KeyValueInt(Join(lines, eol) + (key + (Decimal(n) + tail)), key).Some?
  {
    hide Atoi, Decimal, Join, Lookup, Harmless;
    KeyLetters(key);
    var last := key + (Decimal(n) + tail);
    assert last[0..|key|] == key;
    FindIs(last, key, 0);
    FindAfter(lines, eol, key, last);
    assert (Join(lines, eol) + last)[|Join(lines, eol)| + |key|..] == Decimal(n) + tail;
    ScanOnward(n, tail);
  }

  /** The path of an unended last line is read together with the rest of the header line behind it. */
  lemma UnendedPath(lines: seq<string>, eol: string, path: string, tail: string)
    requires Eol(eol) && Lookup(lines, FILE) == None
    ensures KeyValueString(Join(lines, eol) + (FILE + (path + tail)), FILE, PATH_SIZE) == Some(Truncate(Line(path + tail), PATH_SIZE - 1))
  {
    hide Join, Lookup, Line, Truncate;
    KeyLetters(FILE);
    var last := FILE + (path + tail);
    assert last[0..|FILE|] == FILE;
    FindIs(last, FILE, 0);
    FindAfter(lines, eol, FILE, last);
    assert (Join(lines, eol) + last)[|Join(lines, eol)| + |FILE|..] == path + tail;
  }

  /** With the installed version in an unended last line, an update is asked for if and only if a digit of the
      header text behind it changes the number. */
  lemma StaleDigitsIff(u: State, lines: seq<string>, eol: string, path: string, tail: string)
    requires Eol(eol) && Lines(lines) && Lookup(lines, VERSION) == None && Lookup(lines, FILE) == Some(path)
    requires u.version >= 0 && !u.downloadBit
    ensures var text := Join(lines, eol) + (VERSION + (Decimal(u.version) + tail));
      ApplyMetadata(u, text).downloadBit <==> !Harmless(u.version, tail)
  {
    hide Join, Lookup, KeyValueInt, KeyValueString, Decimal, Harmless, StorePath;
    var last := VERSION + (Decimal(u.version) + tail);
    UnendedIntIff(lines, eol, VERSION, u.version, tail);
    ReadsString(lines, eol, last, FILE, path, PATH_SIZE);
  }
}
