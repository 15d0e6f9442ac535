/** C strings in memory, and the library calls and key/value parsers of main/https_client.c that read them. */
module CStrings {
  import opened Platform

  const NUL: char := '\0'

  predicate OccursAt(s: string, key: string, i: nat) {
    i + |key| <= |s| && s[i..i + |key|] == key
  }

  /** The first occurrence of `key`. */
  function Find(s: string, key: string): (r: Option<nat>)
    ensures r.Some? ==> OccursAt(s, key, r.value) && forall j: nat :: j < r.value ==> !OccursAt(s, key, j)
    ensures r.None? ==> forall j: nat :: !OccursAt(s, key, j)
  {
    FindFrom(s, key, 0)
  }

  function FindFrom(s: string, key: string, i: nat): (r: Option<nat>)
    requires i <= |s|
    ensures r.Some? ==> i <= r.value && OccursAt(s, key, r.value)
    ensures r.Some? ==> forall j: nat :: i <= j < r.value ==> !OccursAt(s, key, j)
    ensures r.None? ==> forall j: nat :: i <= j ==> !OccursAt(s, key, j)
    decreases |s| - i
  {
    if OccursAt(s, key, i) then Some(i)
    else if i == |s| then None
    else FindFrom(s, key, i + 1)
  }

  predicate Contains(s: string, key: string) {
    Find(s, key).Some?
  }

  lemma FindIs(s: string, key: string, i: nat)
    requires OccursAt(s, key, i) && forall j: nat :: j < i ==> !OccursAt(s, key, j)
    ensures Find(s, key) == Some(i)
  {
  }

  /** The characters before the first NUL; all of memory if there is none. */
  function Text(mem: string): (s: string)
    ensures |s| <= |mem| && s == mem[..|s|] && NUL !in s
    ensures |s| < |mem| ==> mem[|s|] == NUL
  {
    if mem == [] || mem[0] == NUL then [] else [mem[0]] + Text(mem[1..])
  }

  lemma {:induction false} TextIs(mem: string, s: string)
    requires NUL !in s && |s| <= |mem| && s == mem[..|s|]
    requires |s| < |mem| ==> mem[|s|] == NUL
    ensures Text(mem) == s
  {
    if s != [] {
      assert s[0] in s;
      TextIs(mem[1..], s[1..]);
    }
  }

  datatype Search = Found(at: nat) | Absent | Overrun

  /** strstr on the memory `mem`. Without a NUL the search runs past the end of the buffer, unless it
      finds the key first. */
  function StrStr(mem: string, key: string): Search {
    match Find(Text(mem), key)
    case Some(i) => Found(i)
    case None => if NUL in mem then Absent else Overrun
  }

  // ---------- Decimal numbers ----------

  predicate IsDigit(c: char) { '0' <= c <= '9' }

  predicate IsSpace(c: char) { c == ' ' || '\t' <= c <= '\r' }

  function LeadingDigits(s: string): (n: nat)
    ensures n <= |s| && (forall i :: 0 <= i < n ==> IsDigit(s[i])) && (n < |s| ==> !IsDigit(s[n]))
  {
    if s == [] || !IsDigit(s[0]) then 0 else 1 + LeadingDigits(s[1..])
  }

  function SkipSpace(s: string): string {
    if s == [] || !IsSpace(s[0]) then s else SkipSpace(s[1..])
  }

  function ValueOf(digits: string): nat
    requires forall i :: 0 <= i < |digits| ==> IsDigit(digits[i])
  {
    if digits == [] then 0
    else
      assert IsDigit(digits[|digits| - 1]);
      10 * ValueOf(digits[..|digits| - 1]) + (digits[|digits| - 1] as int - '0' as int)
  }

  /** The conversion that "%d" and atoi share: white space, a sign, at least one digit. Also returns the
      rest of the text. Numbers are unbounded. */
  function ScanInt(s: string): Option<(int, string)> {
    var t := SkipSpace(s);
    var signed := t != [] && (t[0] == '-' || t[0] == '+');
    var u := if signed then t[1..] else t;
    var n := LeadingDigits(u);
    if n == 0 then None
    else
      var v: int := ValueOf(u[..n]);
      Some((if signed && t[0] == '-' then -v else v, u[n..]))
  }

  function Atoi(s: string): int {
    match ScanInt(s)
    case None => 0
    case Some((v, _)) => v
  }

  function Decimal(n: nat): (s: string)
    ensures s != [] && forall i :: 0 <= i < |s| ==> IsDigit(s[i])
  {
    (if n < 10 then "" else Decimal(n / 10)) + [('0' as int + n % 10) as char]
  }

  lemma {:induction false} ValueOfDecimal(n: nat)
    ensures ValueOf(Decimal(n)) == n
  {
    var d := Decimal(n);
    if n >= 10 {
      ValueOfDecimal(n / 10);
      assert d[..|d| - 1] == Decimal(n / 10);
    } else {
      assert d[..|d| - 1] == [];
    }
  }

  lemma {:induction false} LeadingDigitsOf(digits: string, rest: string)
    requires forall i :: 0 <= i < |digits| ==> IsDigit(digits[i])
    requires rest == [] || !IsDigit(rest[0])
    ensures LeadingDigits(digits + rest) == |digits|
  {
    if digits == [] {
      assert digits + rest == rest;
    } else {
      assert (digits + rest)[1..] == digits[1..] + rest;
      LeadingDigitsOf(digits[1..], rest);
    }
  }

  /** Reading a printed number back. */
  lemma ScanDecimal(n: nat, rest: string)
    requires rest == [] || !IsDigit(rest[0])
    ensures ScanInt(Decimal(n) + rest) == Some((n, rest))
    ensures Atoi(Decimal(n) + rest) == n
  {
    hide Decimal, ValueOf, LeadingDigits;
    var s := Decimal(n) + rest;
    assert IsDigit(s[0]) && SkipSpace(s) == s;
    LeadingDigitsOf(Decimal(n), rest);
    ValueOfDecimal(n);
    assert s[..|Decimal(n)|] == Decimal(n) && s[|Decimal(n)|..] == rest;
  }

  /** A number as "%d" prints it. */
  function Printed(v: int): string {
    if v < 0 then "-" + Decimal(-v) else Decimal(v)
  }

  /** Blanks, tabs and everything else that isspace accepts. */
  predicate Spaces(s: string) {
    forall i :: 0 <= i < |s| ==> s[i] == ' ' || 9 <= s[i] as int <= 13
  }

  lemma {:induction false} SkipSpaces(spaces: string, s: string)
    requires Spaces(spaces) && (s == [] || !IsSpace(s[0]))
    ensures SkipSpace(spaces + s) == s
  {
    if spaces == [] {
      assert spaces + s == s;
    } else {
      assert (spaces + s)[1..] == spaces[1..] + s;
      SkipSpaces(spaces[1..], s);
    }
  }

  lemma ScanSigned(sign: string, n: int, rest: string)
    requires n >= 0 && (sign == "-" || sign == "+")
    requires rest == [] || !IsDigit(rest[0])
    ensures ScanInt(sign + (Decimal(n) + rest)) == Some((if sign == "-" then -n else n, rest))
  {
    hide Decimal, ValueOf, LeadingDigits;
    var u := Decimal(n) + rest;
    var s := sign + u;
    assert s[0] == sign[0] && SkipSpace(s) == s && s[1..] == u;
    LeadingDigitsOf(Decimal(n), rest);
    ValueOfDecimal(n);
    assert u[..|Decimal(n)|] == Decimal(n) && u[|Decimal(n)|..] == rest;
  }

  lemma ScanAfterSpaces(spaces: string, s: string)
    requires Spaces(spaces) && s != [] && !IsSpace(s[0])
    ensures ScanInt(spaces + s) == ScanInt(s)
  {
    hide ValueOf, LeadingDigits, SkipSpace;
    SkipSpaces(spaces, s);
    SkipSpaces([], s);
    assert [] + s == s;
  }

  /** Reading back any number as it is printed, with its sign, behind any white space. */
  lemma ScanPrinted(spaces: string, v: int, rest: string)
    requires Spaces(spaces) && (rest == [] || !IsDigit(rest[0]))
    ensures ScanInt(spaces + (Printed(v) + rest)) == Some((v, rest)) && Atoi(spaces + (Printed(v) + rest)) == v
  {
    hide ScanInt, Decimal;
    if v < 0 {
      ScanSigned("-", -v, rest);
      assert Printed(v) + rest == "-" + (Decimal(-v) + rest);
    } else {
      ScanDecimal(v, rest);
    }
    ScanAfterSpaces(spaces, Printed(v) + rest);
  }

  /** Nothing is converted where, behind white space, there is neither a digit nor a sign in front of one. */
  lemma NothingScanned(spaces: string, s: string)
    requires Spaces(spaces)
    requires s == [] || !(IsSpace(s[0]) || IsDigit(s[0]) || ((s[0] == '-' || s[0] == '+') && |s| > 1 && IsDigit(s[1])))
    ensures ScanInt(spaces + s) == None && Atoi(spaces + s) == 0
  {
    SkipSpaces(spaces, s);
  }

  // ---------- The key/value parsers ----------

  /** http_parse_key_value_int on the text of a C string. */
  function KeyValueInt(text: string, key: string): Option<int> {
    match Find(text, key)
    case None => None
    case Some(i) => Some(Atoi(text[i + |key|..]))
  }

  /** The characters up to the end of the line or of the text. */
  function Line(s: string): (r: string)
    ensures |r| <= |s| && r == s[..|r|]
    ensures forall c :: c in r ==> c != '\r' && c != '\n'
    ensures |r| < |s| ==> s[|r|] == '\r' || s[|r|] == '\n'
  {
    if s == [] || s[0] == '\r' || s[0] == '\n' then [] else [s[0]] + Line(s[1..])
  }

  /** `s` cut to at most `n` characters. */
  function Truncate(s: string, n: int): string {
    if n <= 0 then [] else if |s| <= n then s else s[..n]
  }

  /** What http_parse_key_value_string copies: the rest of the line after the key, at most strLen - 1 characters. */
  function KeyValueString(text: string, key: string, strLen: int): Option<string> {
    match Find(text, key)
    case None => None
    case Some(i) => Some(Truncate(Line(text[i + |key|..]), strLen - 1))
  }

  // ---------- Reading from memory ----------

  /** What a parser comes back with; PastEnd: it has read past the end of the memory. */
  datatype Parsed<T> = Missing | Got(value: T) | PastEnd

  /** The conversion of a number reads to the end of `s`. */
  predicate RunsOut(s: string) {
    var t := SkipSpace(s);
    var u := if t != [] && (t[0] == '-' || t[0] == '+') then t[1..] else t;
    LeadingDigits(u) == |u|
  }

  /** White space, an optional sign, and nothing but digits from there on. */
  ghost predicate NumberToTheEnd(s: string, i: nat, j: nat) {
    && i <= j <= |s| && j <= i + 1 && Spaces(s[..i]) && (j == i + 1 ==> s[i] == '-' || s[i] == '+')
    && forall k :: j <= k < |s| ==> IsDigit(s[k])
  }

  lemma {:induction false} AllDigits(s: string)
    ensures LeadingDigits(s) == |s| <==> forall k :: 0 <= k < |s| ==> IsDigit(s[k])
  {
    if s != [] { AllDigits(s[1..]); }
  }

  lemma {:induction false} SpacesSkipped(s: string) returns (i: nat)
    ensures i <= |s| && Spaces(s[..i]) && SkipSpace(s) == s[i..] && (i < |s| ==> !IsSpace(s[i]))
  {
    if s == [] || !IsSpace(s[0]) {
      i := 0;
    } else {
      i := SpacesSkipped(s[1..]);
      assert s[1..][i..] == s[i + 1..] && s[..i + 1] == [s[0]] + s[1..][..i];
      i := i + 1;
    }
  }

  lemma RunsOutAt(s: string) returns (i: nat, j: nat)
    requires RunsOut(s)
    ensures NumberToTheEnd(s, i, j)
  {
    i := SpacesSkipped(s);
    j := if i < |s| && (s[i] == '-' || s[i] == '+') then i + 1 else i;
    var t := s[i..];
    assert j == i + 1 ==> t[1..] == s[j..];
    AllDigits(s[j..]);
    assert forall k :: j <= k < |s| ==> s[k] == s[j..][k - j];
  }

  lemma RunsOutThere(s: string, i: nat, j: nat)
    requires NumberToTheEnd(s, i, j)
    ensures RunsOut(s)
  {
    var t := s[i..];
    assert j == i + 1 ==> t[1..] == s[j..];
    var u := s[j..];
    assert forall k :: 0 <= k < |u| ==> IsDigit(u[k]);
    AllDigits(u);
    if j == i && i < |s| { assert IsDigit(s[i]); }
    SkipSpaces(s[..i], t);
    assert s == s[..i] + t;
  }

  /** A conversion reads to the end exactly if there is nothing in `s` but white space, a sign and digits. */
  lemma RunsOutIff(s: string)
    ensures RunsOut(s) <==> exists i: nat, j: nat :: NumberToTheEnd(s, i, j)
  {
    hide RunsOut, NumberToTheEnd;
    if RunsOut(s) {
      var i, j := RunsOutAt(s);
    }
    if i: nat, j: nat :| NumberToTheEnd(s, i, j) {
      RunsOutThere(s, i, j);
    }
  }

  /** http_parse_key_value_int on the memory `mem`. Without a NUL the search may run past the end, and so may the
      conversion. */
  function ReadInt(mem: string, key: string): Parsed<int> {
    match StrStr(mem, key)
    case Overrun => PastEnd
    case Absent => Missing
    case Found(i) =>
      var value := Text(mem)[i + |key|..];
      if NUL !in mem && RunsOut(value) then PastEnd else Got(Atoi(value))
  }

  /** http_parse_key_value_string on the memory `mem`. The copy reads at most strLen - 1 characters. */
  function ReadString(mem: string, key: string, strLen: int): Parsed<string> {
    match StrStr(mem, key)
    case Overrun => PastEnd
    case Absent => Missing
    case Found(i) =>
      var src := i + |key|;
      var line := Line(Text(mem)[src..]);
      if src + |line| == |mem| && |line| < strLen - 1 then PastEnd else Got(Truncate(line, strLen - 1))
  }

  predicate EndsLine(c: char) { c == NUL || c == '\r' || c == '\n' }

  predicate OneLine(s: string) {
    forall c :: c in s ==> !EndsLine(c)
  }

  lemma {:induction false} LineIs(line: string, rest: string)
    requires OneLine(line) && rest != [] && EndsLine(rest[0]) && rest[0] != NUL
    ensures Line(line + rest) == line
  {
    if line == [] {
      assert line + rest == rest;
    } else {
      assert line[0] in line;
      assert (line + rest)[1..] == line[1..] + rest;
      LineIs(line[1..], rest);
    }
  }

  /** `line` is what memory holds from `src` up to a character that ends a line, or up to its end. */
  ghost predicate LineAt(mem: string, src: nat, line: string) {
    src + |line| <= |mem| && mem[src..src + |line|] == line &&
    (src + |line| < |mem| ==> EndsLine(mem[src + |line|])) &&
    forall i :: 0 <= i < |line| ==> !EndsLine(line[i])
  }

  lemma LineInText(mem: string, src: nat)
    requires src <= |Text(mem)|
    ensures LineAt(mem, src, Line(Text(mem)[src..]))
  {
    var text := Text(mem);
    var line := Line(text[src..]);
    forall i | 0 <= i < |line| ensures !EndsLine(line[i]) {
      assert line[i] in line && text[src + i] in text;
    }
    assert src + |line| < |text| ==> text[src..][|line|] == mem[src + |line|];
  }

  /** The output buffer after `value` has been stored with its NUL. */
  ghost function Stored(value: string, before: string): string
    requires |value| < |before|
  {
    value + [NUL] + before[|value| + 1..]
  }

  /** http_parse_key_value_string. `mem` is the memory behind `buffer`, `str` the output. At most strLen characters are
      written (one, if strLen is 0 or less), the last of them a NUL. */
  method ParseKeyValueString(mem: string, key: string, str: array<char>, strLen: int) returns (result: int, pastEnd: bool)
    requires strLen <= str.Length && 0 < str.Length
    modifies str
    ensures pastEnd <==> ReadString(mem, key, strLen) == PastEnd
    ensures ReadString(mem, key, strLen) == Missing ==> result == -1 && str[..] == old(str[..])
    ensures var v := ReadString(mem, key, strLen);
      v.Got? ==> result == 0 && |v.value| < str.Length && (|v.value| < strLen || v.value == "") &&
                 str[..] == Stored(v.value, old(str[..]))
  {
    hide Find, Text, Line, StrStr, Stored, LineAt, ReadString, Truncate;
    ReadStringIs(mem, key, strLen);
    var locKey := StrStr(mem, key);
    if locKey == Overrun {
      return -1, true;
    }
    if locKey == Absent {
      return -1, false;
    }
    FoundInText(mem, key);
    var src := locKey.at + |key|;
    LineInText(mem, src);
    pastEnd := CopyLine(mem, src, str, strLen, Line(Text(mem)[src..]));
    result := 0;
    TruncateLength(Line(Text(mem)[src..]), strLen - 1);
  }

  lemma TruncateLength(s: string, n: int)
    ensures |Truncate(s, n)| <= n || Truncate(s, n) == ""
  {
  }

  lemma FoundInText(mem: string, key: string)
    requires StrStr(mem, key).Found?
    ensures StrStr(mem, key).at + |key| <= |Text(mem)|
  {
  }

  lemma ReadStringIs(mem: string, key: string, strLen: int)
    ensures match StrStr(mem, key)
      case Overrun => ReadString(mem, key, strLen) == PastEnd
      case Absent => ReadString(mem, key, strLen) == Missing
      case Found(i) =>
        i + |key| <= |Text(mem)| &&
        var line := Line(Text(mem)[i + |key|..]);
        ReadString(mem, key, strLen) ==
          if i + |key| + |line| == |mem| && |line| < strLen - 1 then PastEnd else Got(Truncate(line, strLen - 1))
  {
  }

  /** The output buffer while the first `i` characters of the line are in place, one step on, and closed. */
  ghost function Filled(line: string, before: string, i: nat): string
    requires i <= |line| && i <= |before|
  {
    line[..i] + before[i..]
  }

  lemma FilledStart(line: string, before: string)
    ensures Filled(line, before, 0) == before
  {
  }

  lemma FilledNext(line: string, before: string, i: nat)
    requires i <= |line| && i < |before|
    ensures i < |line| ==> Filled(line, before, i)[i := line[i]] == Filled(line, before, i + 1)
    ensures Filled(line, before, i)[i := NUL] == Stored(line[..i], before)
  {
  }

  lemma TruncateIs(line: string, i: nat, n: int)
    requires i == |line| || (i == n <= |line|) || (i == 0 && n <= 0)
    requires i <= n || i == 0
    ensures i <= |line| && Truncate(line, n) == line[..i]
  {
  }

  /** The copy loop. */
  method CopyLine(mem: string, src0: nat, str: array<char>, strLen: int, ghost line: string) returns (pastEnd: bool)
    requires LineAt(mem, src0, line) && strLen <= str.Length && 0 < str.Length
    modifies str
    ensures pastEnd <==> src0 + |line| == |mem| && |line| < strLen - 1
    ensures var v := Truncate(line, strLen - 1); !pastEnd ==> |v| < str.Length && str[..] == Stored(v, old(str[..]))
  {
    hide Truncate, Stored, Filled;
    ghost var before := str[..];
    var i, src := 0, src0;
    FilledStart(line, before);
    while i < strLen - 1 && src < |mem| && !EndsLine(mem[src])
      invariant 0 <= i <= |line| && i < str.Length && (i == 0 || i < strLen) && src == src0 + i
      invariant str[..] == Filled(line, before, i)
    {
      FilledNext(line, before, i);
      Put(str, i, mem[src]);
      src, i := src + 1, i + 1;
    }
    if i < strLen - 1 && src == |mem| {
      return true;
    }
    FilledNext(line, before, i);
    TruncateIs(line, i, strLen - 1);
    Put(str, i, NUL);
    pastEnd := false;
  }

  /** *str++ = c */
  method Put(str: array<char>, i: nat, c: char)
    requires i < str.Length
    modifies str
    ensures str[..] == old(str[..])[i := c]
  {
    str[i] := c;
  }
}
