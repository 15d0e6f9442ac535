/** The responses a server writes, in the form of RFC 7230: a status line, header fields, an empty line and a
    body. The processor reads back what was written. */
module Response {
  import opened Platform
  import opened CStrings
  import opened Tls
  import opened Http
  import opened HttpStream
  import opened HttpWait
  import opened IapImage
  import opened Metadata
  import Updater
  import Download
  import UpdateCheck
  import UpdaterProofs
  import HttpPlan
  import HttpOverrun
  import MetadataTail
  import Iap

  const CRLF := "\r\n"

  /** Section 3 of RFC 7230. The body is arbitrary bytes. */
  function Written(lines: seq<string>, body: string): string {
    Join(lines, CRLF) + CRLF + body
  }

  /** A line of the header block is not empty and holds no line end and no NUL. */
  ghost predicate HeaderLines(lines: seq<string>) {
    lines != [] && forall i :: 0 <= i < |lines| ==> OneLine(lines[i]) && lines[i] != []
  }

  /** Status 200, version 1.1, and a Content-Length field with the value `n` after optional white space. */
  ghost predicate Announces(lines: seq<string>, reason: string, blanks: string, n: nat) {
    && HeaderLines(lines) && lines[0] == "HTTP/1.1 200 " + reason
    && Lookup(lines, CONTENT_LENGTH) == Some(blanks + Decimal(n)) && Blank(blanks)
  }

  predicate Blank(s: string) {
    forall i :: 0 <= i < |s| ==> s[i] == ' ' || s[i] == '\t'
  }

  // ---------- Where the header block ends ----------

  lemma InTerminator(s: string, j: nat, k: nat)
    requires OccursAt(s, TERMINATOR, j) && k < 4
    ensures s[j + k] == if k % 2 == 0 then '\r' else '\n'
  {
    assert s[j..j + 4][k] == TERMINATOR[k];
  }

  lemma LineHasNoEnd(line: string, k: nat)
    requires OneLine(line) && k < |line|
    ensures line[k] != '\r' && line[k] != '\n' && line[k] != NUL
  {
    assert line[k] in line;
  }

  lemma {:induction false} NoEarlierTerminator(lines: seq<string>, body: string, j: nat)
    requires HeaderLines(lines) && OccursAt(Written(lines, body), TERMINATOR, j)
    ensures j + 2 >= |Join(lines, CRLF)|
    decreases |lines|
  {
    var line, tail := lines[0], Join(lines[1..], CRLF) + CRLF + body;
    var s := Written(lines, body);
    assert s == line + (CRLF + tail);
    InTerminator(s, j, 0);
    InTerminator(s, j, 2);
    if j < |line| {
      LineHasNoEnd(line, j);
    } else if j == |line| {
      if |lines| > 1 {
        assert tail[0] == lines[1][0];
        LineHasNoEnd(lines[1], 0);
      }
    } else if j > |line| + 1 {
      assert tail[j - |line| - 2..j - |line| + 2] == s[j..j + 4];
      if |lines| > 1 {
        assert tail == Written(lines[1..], body);
        NoEarlierTerminator(lines[1..], body, j - |line| - 2);
      }
    }
  }

  lemma {:induction false} HeaderText(lines: seq<string>)
    requires forall i :: 0 <= i < |lines| ==> OneLine(lines[i])
    ensures NUL !in Join(lines, CRLF)
    ensures lines != [] ==> |Join(lines, CRLF)| >= 2 && Join(lines, CRLF)[|Join(lines, CRLF)| - 2..] == CRLF
  {
    if lines != [] {
      HeaderText(lines[1..]);
      var tail := Join(lines[1..], CRLF);
      var text := lines[0] + CRLF + tail;
      if |lines| > 1 {
        assert text[|text| - 2..] == tail[|tail| - 2..];
      } else {
        assert text == lines[0] + CRLF;
      }
    }
  }

  lemma WrittenEnds(lines: seq<string>, body: string)
    requires HeaderLines(lines)
    ensures |Join(lines, CRLF)| >= 2 && HeaderEnds(Written(lines, body), |Join(lines, CRLF)| - 2)
  {
    var text, s := Join(lines, CRLF), Written(lines, body);
    HeaderText(lines);
    var e := |text| - 2;
    assert s[e..e + 4] == text[e..] + CRLF == TERMINATOR;
    forall j: nat | j < e ensures !OccursAt(s, TERMINATOR, j) {
      if OccursAt(s, TERMINATOR, j) { NoEarlierTerminator(lines, body, j); }
    }
    FindIs(s, TERMINATOR, e);
    assert s[..e + 4] == text + CRLF;
  }

  // ---------- What the header block says ----------

  /** A status line up to its end: `tail` is the reason phrase with the space in front of it, or nothing. */
  function StatusOf(major: nat, minor: nat, code: nat, tail: string): string {
    "HTTP/" + (Decimal(major) + ("." + (Decimal(minor) + (" " + (Decimal(code) + tail)))))
  }

  /** The three numbers of every status line are read back. */
  lemma StatusLineReads(major: nat, minor: nat, code: nat, tail: string)
    requires tail == [] || !IsDigit(tail[0])
    ensures ScanStatusLine(StatusOf(major, minor, code, tail)) == Some((major, minor, code))
  {
    hide ScanInt, Decimal;
    var r2 := " " + (Decimal(code) + tail);
    var r1 := "." + (Decimal(minor) + r2);
    var text := StatusOf(major, minor, code, tail);
    assert text[0..5] == "HTTP/" && text[5..] == Decimal(major) + r1 && r1[1..] == Decimal(minor) + r2;
    ScanDecimal(major, r1);
    ScanDecimal(minor, r2);
    ScanAfterSpaces(" ", Decimal(code) + tail);
    ScanDecimal(code, tail);
  }

  lemma Digits()
    ensures Decimal(1) == "1" && Decimal(200) == "200"
  {
    assert Decimal(2) == "2" && Decimal(20) == Decimal(2) + "0";
  }

  lemma StatusLineText(rest: string)
    ensures "HTTP/1.1 200 " + rest == StatusOf(1, 1, 200, " " + rest)
  {
    hide Decimal;
    Digits();
  }

  lemma CutLastEnd(text: string, at: nat, blanks: string, digits: string, rest: string)
    requires at <= |text| && text[at..] == blanks + digits + CRLF + rest
    ensures at <= |text| - 2 && text[..|text| - 2][at..] == blanks + (digits + (CRLF + rest)[..|rest|])
  {
    var tail := blanks + (digits + (CRLF + rest));
    assert text[at..] == tail && |tail| == |blanks| + |digits| + 2 + |rest|;
    assert text[..|text| - 2][at..] == tail[..|tail| - 2];
  }

  /** The header text ends before the last line end. */
  lemma FieldReads(lines: seq<string>, key: string, blanks: string, v: int)
    requires HeaderLines(lines) && OneLine(key) && key != [] && Blank(blanks)
    requires Lookup(lines, key) == Some(blanks + Printed(v))
    ensures |Join(lines, CRLF)| >= 2
    ensures KeyValueInt(Join(lines, CRLF)[..|Join(lines, CRLF)| - 2], key) == Some(v)
  {
    hide Join, Lookup, Printed, ScanInt, OneLine;
    var text, value := Join(lines, CRLF), blanks + Printed(v);
    var i, rest := ParserReadsLookup(lines, CRLF, key, value);
    HeaderText(lines);
    var t, at := text[..|text| - 2], i + |key|;
    var w := (CRLF + rest)[..|rest|];
    CutLastEnd(text, at, blanks, Printed(v), rest);
    FindInPrefix(text, t, key, i);
    ScanPrinted(blanks, v, w);
  }

  lemma FindInPrefix(text: string, t: string, key: string, i: nat)
    requires Find(text, key) == Some(i) && t <= text && i + |key| <= |t|
    ensures Find(t, key) == Some(i)
  {
    assert t[i..i + |key|] == text[i..i + |key|];
    forall j: nat | j < i ensures !OccursAt(t, key, j) {
      assert !OccursAt(text, key, j);
      assert t[j..j + |key|] == text[j..j + |key|];
    }
    FindIs(t, key, i);
  }

  /** What a header block says, from its lines: version and status first, then Content-Length, as a size_t. */
  lemma JudgeOfLines(lines: seq<string>, major: nat, minor: nat, code: nat, tail: string)
    requires HeaderLines(lines) && lines[0] == StatusOf(major, minor, code, tail) && (tail == [] || !IsDigit(tail[0]))
    ensures |Join(lines, CRLF)| >= 2
    ensures var judgement := Judge(Join(lines, CRLF)[..|Join(lines, CRLF)| - 2]);
      && (major != 1 ==> judgement == BadHeaders(VersionNotSupported))
      && (major == 1 && code != 200 ==> judgement == BadHeaders(Non200(code)))
      && (major == 1 && code == 200 && Lookup(lines, CONTENT_LENGTH) == None ==> judgement == NoLength)
      && (forall blanks, v :: major == 1 && code == 200 && Blank(blanks) && Lookup(lines, CONTENT_LENGTH) == Some(blanks + Printed(v)) ==>
            judgement == Accept(v % WORD))
  {
    hide ScanStatusLine, KeyValueInt, Lookup, Decimal, Printed, Find, Join;
    HeaderText(lines);
    var text := Join(lines, CRLF)[..|Join(lines, CRLF)| - 2];
    StatusOfText(lines, major, minor, code, tail, text);
    if Lookup(lines, CONTENT_LENGTH) == None { FieldMissing(lines, CONTENT_LENGTH); }
    forall blanks, v | Blank(blanks) && Lookup(lines, CONTENT_LENGTH) == Some(blanks + Printed(v))
      ensures KeyValueInt(text, CONTENT_LENGTH) == Some(v)
    {
      FieldReads(lines, CONTENT_LENGTH, blanks, v);
    }
  }

  lemma StatusOfText(lines: seq<string>, major: nat, minor: nat, code: nat, tail: string, text: string)
    requires HeaderLines(lines) && lines[0] == StatusOf(major, minor, code, tail) && (tail == [] || !IsDigit(tail[0]))
    requires |Join(lines, CRLF)| >= 2 && text == Join(lines, CRLF)[..|Join(lines, CRLF)| - 2]
    ensures ScanStatusLine(text) == Some((major, minor, code))
  {
    hide ScanStatusLine, Decimal, OneLine;
    var rest := TextAfterFirst(lines, text);
    assert text == StatusOf(major, minor, code, tail + rest);
    StatusLineReads(major, minor, code, tail + rest);
  }

  lemma TextAfterFirst(lines: seq<string>, text: string) returns (rest: string)
    requires lines != [] && |Join(lines, CRLF)| >= 2 && text == Join(lines, CRLF)[..|Join(lines, CRLF)| - 2]
    ensures text == lines[0] + rest && (rest == [] || rest[0] == '\r')
  {
    var tail := CRLF + Join(lines[1..], CRLF);
    assert Join(lines, CRLF) == lines[0] + tail;
    rest := tail[..|tail| - 2];
  }

  lemma FieldMissing(lines: seq<string>, key: string)
    requires HeaderLines(lines) && OneLine(key) && key != [] && Lookup(lines, key) == None
    ensures |Join(lines, CRLF)| >= 2
    ensures KeyValueInt(Join(lines, CRLF)[..|Join(lines, CRLF)| - 2], key) == None
  {
    hide Join, Lookup, Find, OneLine;
    HeaderText(lines);
    ParserFindsNothing(lines, CRLF, key);
    NotInPrefix(Join(lines, CRLF), Join(lines, CRLF)[..|Join(lines, CRLF)| - 2], key);
  }

  lemma NotInPrefix(text: string, t: string, key: string)
    requires Find(text, key) == None && t <= text
    ensures Find(t, key) == None
  {
    forall j: nat ensures !OccursAt(t, key, j) {
      assert !OccursAt(text, key, j);
      assert j + |key| <= |t| ==> t[j..j + |key|] == text[j..j + |key|];
    }
  }

  /** Whatever other fields there are, in any order, the processor finds the end of the header block a server
      wrote, and accepts the response with the announced Content-Length. The body may hold any bytes. */
  lemma WrittenIsAccepted(lines: seq<string>, reason: string, blanks: string, n: nat, body: string)
    requires Announces(lines, reason, blanks, n)
    ensures |Join(lines, CRLF)| >= 2
    ensures var stream, e := Written(lines, body), |Join(lines, CRLF)| - 2;
      HeaderEnds(stream, e) && |stream| == e + 4 + |body| && stream[e + 4..] == body && Judge(stream[..e]) == Accept(n % WORD)
  {
    hide Judge, Lookup, Decimal, Find, Join, StatusOf, OneLine;
    var text, stream := Join(lines, CRLF), Written(lines, body);
    WrittenEnds(lines, body);
    StatusLineText(reason);
    assert Printed(n) == Decimal(n);
    JudgeOfLines(lines, 1, 1, 200, " " + reason);
    assert stream[..|text| - 2] == text[..|text| - 2];
  }

  /** End to end, from the server's side: if a server writes any image as a response of this form, the request goes out,
      the response arrives in any chunks, with the end of the header block in the first or at the end of a later one,
      and no heap, flash or partition call fails, then the device has installed exactly that image. */
  lemma ServedImageIsInstalled(env: Env, u: Updater.State, l: Link, net: Updater.Network,
                               lines: seq<string>, reason: string, blanks: string, image: string)
    requires Updater.Proper(net) && Iap.Inv(u.iap) && !u.iap.dev.fault && u.iap.initialized && u.iap.dev.boot != Other
    requires Download.Flawless(env, u.iap.dev.tick) && Download.Requested(u, l, net)
    requires Announces(lines, reason, blanks, |image|) && 0 < |image| < 0x8000_0000
    requires var chunks := Arriving(net.rx);
      && chunks != [] && Flat(chunks) == Written(lines, image)
      && Arrived(chunks, |Join(lines, CRLF)| + 2) <= 4096 && CopiesRight(Updater.FIRMWARE, chunks, |Join(lines, CRLF)| + 2)
    ensures Download.Installed(env, u.iap, Updater.DownloadImage(env, u, l, net).1.iap, image)
  {
    hide Announces, Written, Join, Flat, Judge, HeaderEnds, Iap.Inv, Download.Flawless, Download.Requested, Download.Installed,
         Updater.DownloadImage;
    WrittenIsAccepted(lines, reason, blanks, |image|, image);
    Download.DownloadInstallsBody(env, u, l, net, |Join(lines, CRLF)| - 2, |image|);
  }

  lemma {:induction false} NoNulInLines(lines: seq<string>, eol: string)
    requires Eol(eol) && Lines(lines)
    ensures NUL !in Join(lines, eol)
  {
    if lines != [] { NoNulInLines(lines[1..], eol); }
  }

  /** The server's image and a prefix of its response that holds the header block. */
  lemma PrefixAnswers(lines: seq<string>, reason: string, blanks: string, image: string, stream: string)
    requires Announces(lines, reason, blanks, |image|) && stream <= Written(lines, image) && |Join(lines, CRLF)| + 2 <= |stream|
    ensures |Join(lines, CRLF)| >= 2
    ensures var e := |Join(lines, CRLF)| - 2;
      HeaderEnds(stream, e) && Judge(stream[..e]) == Accept(|image| % WORD) && stream[e + 4..] <= image
  {
    hide Announces, Judge, Join;
    WrittenIsAccepted(lines, reason, blanks, |image|, image);
    var all, e := Written(lines, image), |Join(lines, CRLF)| - 2;
    FindInPrefix(all, stream, TERMINATOR, e);
    assert stream[..e + 4] == all[..e + 4] && stream[..e] == all[..e];
    assert stream[e + 4..] == all[e + 4..][..|stream| - e - 4];
  }

  /** What arrives is a prefix of the response with the whole header block, and copied right. */
  ghost predicate PrefixArrives(net: Updater.Network, lines: seq<string>, image: string)
    requires Updater.Proper(net)
  {
    var chunks := Arriving(net.rx);
    && chunks != [] && Flat(chunks) <= Written(lines, image) && |Join(lines, CRLF)| + 2 <= |Flat(chunks)|
    && CopiesRight(Updater.FIRMWARE, chunks, |Join(lines, CRLF)| + 2)
  }

  lemma PrefixPlan(net: Updater.Network, lines: seq<string>, reason: string, blanks: string, image: string)
    requires Updater.Proper(net) && Announces(lines, reason, blanks, |image|) && PrefixArrives(net, lines, image)
    ensures var plan := Download.FirmwarePlan(net);
      plan.Streamed? ==> plan.contentLength == |image| % WORD && Flat(plan.fragments) <= image
  {
    hide Announces, Judge, HeaderEnds, HttpPlan.PlanOf, Join, Arrived, CopiesRight, HttpStream.PlanAfter, CompleteAt, Written, Flat, Cut,
         HttpOverrun.Fills;
    var chunks, e := Arriving(net.rx), |Join(lines, CRLF)| - 2;
    PrefixAnswers(lines, reason, blanks, image, Flat(chunks));
    ArrivingFits(net.rx, Updater.TLS_BUFFER);
    HttpOverrun.HeaderOutcome(Updater.FIRMWARE, net.mem, chunks, e);
    if Arrived(chunks, e + 4) <= 4096 {
      StreamingIsChunkingIndependent(Updater.FIRMWARE, net.mem, chunks, e);
      CutDropsPrefix(chunks, e + 4);
    }
  }

  /** What was delivered when Content-Length is reached. */
  lemma DeliveredIsImage(net: Updater.Network, lines: seq<string>, reason: string, blanks: string, image: string, sent: seq<string>)
    requires Updater.Proper(net) && Announces(lines, reason, blanks, |image|) && |image| < WORD && PrefixArrives(net, lines, image)
    requires var plan := Download.FirmwarePlan(net);
      plan.Streamed? && sent <= plan.fragments && UpdaterProofs.Reaches(plan.contentLength, sent)
    ensures Flat(sent) == image
  {
    hide Announces, Download.FirmwarePlan, PrefixArrives, Flat;
    PrefixPlan(net, lines, reason, blanks, image);
    var fragments := Download.FirmwarePlan(net).fragments;
    assert fragments == sent + fragments[|sent|..];
    FlatAppend(sent, fragments[|sent|..]);
    assert Flat(sent) <= image;
  }

  /** Whatever fails: if the device boots another partition after a download, and what arrived is a prefix of a server's
      response that was copied right, then all of the server's image was delivered, and it is what the device boots
      if and only if the final page write succeeded. */
  lemma ServedImageIsActivated(env: Env, u: Updater.State, l: Link, net: Updater.Network,
                               lines: seq<string>, reason: string, blanks: string, image: string) returns (sent: seq<string>)
    requires Updater.Proper(net) && Iap.Inv(u.iap) && !u.iap.dev.fault
    requires Announces(lines, reason, blanks, |image|) && |image| < WORD && PrefixArrives(net, lines, image)
    requires Updater.DownloadImage(env, u, l, net).1.iap.dev.boot != u.iap.dev.boot
    ensures Iap.Inv(UpdaterProofs.Prepared(env, u.iap)) && Upload(env, UpdaterProofs.Prepared(env, u.iap), sent).1
    ensures var d := Updater.DownloadImage(env, u, l, net).1.iap.dev;
      && Flat(sent) == image
      && (Flat(Contents(env, d.ops, d.boot)) == image <==> FlushSucceeds(env, Upload(env, UpdaterProofs.Prepared(env, u.iap), sent).0))
  {
    hide Announces, PrefixArrives, Updater.DownloadImage, Download.FirmwarePlan, UpdaterProofs.Prepared,
         UpdaterProofs.Reaches, Upload, Contents, Flat, Iap.Inv, FlushSucceeds, Iap.Commit, Arriving;
    sent := Download.ActivationSafety(env, u, l, net);
    DeliveredIsImage(net, lines, reason, blanks, image, sent);
  }

  lemma AnnouncesLines(lines: seq<string>, reason: string, blanks: string, n: nat)
    requires Announces(lines, reason, blanks, n)
    ensures HeaderLines(lines)
  {
  }

  /** The response of a server, in any chunks that are copied right, with a body that fits the buffer. */
  ghost predicate MetadataArrives(net: Updater.Network, lines: seq<string>, body: string)
    requires Updater.Proper(net) && |Join(lines, CRLF)| >= 2
  {
    var chunks, m, capacity := Arriving(net.rx), |Join(lines, CRLF)| + 2, Updater.METADATA.capacity;
    && chunks != [] && Flat(chunks) == Written(lines, body)
    && Arrived(chunks, m) <= capacity && CopiesRight(Updater.METADATA, chunks, m)
    && |body| <= capacity
  }

  lemma MetadataIsGood(net: Updater.Network, lines: seq<string>, reason: string, blanks: string, body: string)
    requires Updater.Proper(net) && Announces(lines, reason, blanks, |body|) && NUL !in body
    requires |Join(lines, CRLF)| >= 2 && MetadataArrives(net, lines, body)
    ensures UpdateCheck.GoodMetadata(net, |Join(lines, CRLF)| - 2, body)
  {
    hide Announces, Judge, Lookup, Arrived, CopiesRight, Flat;
    AnnouncesLines(lines, reason, blanks, |body|);
    HeaderText(lines);
    WrittenIsAccepted(lines, reason, blanks, |body|, body);
    assert Updater.METADATA.capacity == 512 && |body| % WORD == |body|;
    assert NUL !in Written(lines, body);
  }

  /** End to end for the metadata: if a server sends a file of the three lines, in any order, in a response of this form,
      and it arrives in any chunks that are copied right, then the device takes over its values, whatever header text is
      left behind the file, and even if the file fills the buffer. */
  lemma ServedMetadataIsApplied(u: Updater.State, l: Link, net: Updater.Network, lines: seq<string>, reason: string,
                                blanks: string, file: seq<string>, eol: string, interval: nat, version: nat, path: string)
    requires Updater.Proper(net) && UpdateCheck.CheckRequested(u, l, net) && Eol(eol) && Lines(file)
    requires MetadataLines(file, interval, version, path) && OneLine(path)
    requires !Contains(path, Updater.INTERVAL) && !Contains(path, Updater.VERSION)
    requires Announces(lines, reason, blanks, |Join(file, eol)|)
    requires |Join(lines, CRLF)| >= 2 && MetadataArrives(net, lines, Join(file, eol))
    ensures Updater.CheckForUpdate(u, l, net).1 == Applied(u, Some(interval), version, path)
  {
    hide Announces, Written, Join, Lookup, Decimal, Contains, OneLine, UpdateCheck.GoodMetadata, UpdateCheck.CheckRequested,
         Updater.CheckForUpdate, Applied, MetadataArrives;
    NoNulInLines(file, eol);
    MetadataIsGood(net, lines, reason, blanks, Join(file, eol));
    AnyOrderLookup(file, Updater.INTERVAL, Decimal(interval), interval, version, path);
    AnyOrderLookup(file, Updater.VERSION, Decimal(version), interval, version, path);
    AnyOrderLookup(file, Updater.FILE, path, interval, version, path);
    UpdateCheck.CheckReadsMetadata(u, l, net, |Join(lines, CRLF)| - 2, file, eol, Some(interval), version, path);
  }

  // ---------- An update to the installed version ----------

  const STATUS := "HTTP/1.1 200 OK"
  const LENGTH := "Content-Length: 33"

  /** A metadata file of 33 bytes, without a line end behind the version. */
  function File33(path: string): string {
    Updater.FILE + path + "\n" + Updater.VERSION + "1"
  }

  lemma Digits33()
    ensures Decimal(33) == "33" && Decimal(1) == "1"
  {
    assert Decimal(3) == "3";
  }

  /** The Content-Length line for `n` bytes. */
  function LengthOf(n: nat): string {
    CONTENT_LENGTH + (" " + Decimal(n))
  }

  lemma LengthLine(n: nat)
    ensures Find(LengthOf(n), CONTENT_LENGTH) == Some(0) && LengthOf(n)[15..] == " " + Decimal(n) && OneLine(LengthOf(n))
  {
    hide Decimal;
    var line, value := LengthOf(n), " " + Decimal(n);
    assert line[0..15] == CONTENT_LENGTH;
    FindIs(line, CONTENT_LENGTH, 0);
    assert OneLine(CONTENT_LENGTH) && OneLine(value);
  }

  lemma StatusLine()
    ensures Find(STATUS, CONTENT_LENGTH) == None && OneLine(STATUS) && STATUS == "HTTP/1.1 200 " + "OK"
  {
    assert STATUS[0..15] == STATUS != CONTENT_LENGTH;
    assert forall j: nat :: OccursAt(STATUS, CONTENT_LENGTH, j) ==> j == 0;
  }

  lemma HeaderOf(n: nat)
    ensures Announces([STATUS, LengthOf(n)], "OK", " ", n)
    ensures Join([STATUS, LengthOf(n)], CRLF) == STATUS + CRLF + (LengthOf(n) + CRLF)
  {
    hide Find, Decimal, OneLine;
    var line := LengthOf(n);
    var lines := [STATUS, line];
    LengthLine(n);
    StatusLine();
    assert lines[1..] == [line] && [line][1..] == [];
    assert Join([line], CRLF) == line + CRLF;
    assert Lookup([line], CONTENT_LENGTH) == Some(" " + Decimal(n));
    assert Lookup(lines, CONTENT_LENGTH) == Lookup([line], CONTENT_LENGTH);
  }

  lemma Header33()
    ensures LENGTH == LengthOf(33)
    ensures Announces([STATUS, LENGTH], "OK", " ", 33)
    ensures Join([STATUS, LENGTH], CRLF) == STATUS + CRLF + (LENGTH + CRLF)
  {
    hide Announces;
    Digits33();
    HeaderOf(33);
  }

  lemma HeaderText33()
    ensures var text := Join([STATUS, LENGTH], CRLF); |text| == 37 && text[33..35] == "33"
  {
    hide Announces;
    Header33();
    assert STATUS + CRLF + (LENGTH + CRLF) == "HTTP/1.1 200 OK\r\nContent-Length: " + "33" + CRLF;
  }

  lemma File33Lines(path: string)
    requires |path| == 18 && OneLine(path) && !Contains(path, Updater.VERSION)
    ensures File33(path) == Join([Updater.FILE + path], "\n") + (Updater.VERSION + Decimal(1))
    ensures |File33(path)| == 33 && NUL !in File33(path) && Lines([Updater.FILE + path])
    ensures Lookup([Updater.FILE + path], Updater.VERSION) == None && Lookup([Updater.FILE + path], Updater.FILE) == Some(path)
  {
    hide Decimal;
    Digits33();
    KeyLetters(Updater.FILE);
    KeyLetters(Updater.VERSION);
    NotInOtherLine(Updater.FILE, path, Updater.VERSION);
    LookupLine([Updater.FILE + path], 0, Updater.FILE, path);
    assert [Updater.FILE + path][1..] == [];
  }

  /** The header text behind a body of 33 bytes in a chunk of its own: the digits of Content-Length. */
  lemma Stale33(net: Updater.Network, path: string)
    requires Updater.Proper(net) && |path| == 18 && OneLine(path) && !Contains(path, Updater.VERSION)
    requires Arriving(net.rx) == [Written([STATUS, LENGTH], []), File33(path)]
    ensures UpdateCheck.GoodMetadata(net, 35, File33(path)) && UpdateCheck.Stale(net, 35, File33(path)) == "33"
  {
    hide Announces, Decimal, Judge, Lookup, OneLine, File33;
    var lines, body := [STATUS, LENGTH], File33(path);
    var head := Written(lines, []);
    var chunks := [head, body];
    Header33();
    HeaderText33();
    File33Lines(path);
    assert Written(lines, body) == head + body;
    assert chunks[1..] == [body] && Flat([body]) == body && Flat(chunks) == head + body;
    assert Arrived(chunks, 39) == 39;
    MetadataIsGood(net, lines, "OK", " ", body);
    assert Flat(chunks)[..39] == head;
    assert head[33..35] == Join(lines, CRLF)[33..35];
  }

  /** A device with version 1 installed asks for an update although the server has version 1: if the file ends with
      "VERSION=1" and no line end, is 33 bytes long and arrives in a chunk behind the headers, the digits of
      "Content-Length: 33" follow it in the buffer and version 133 is read. */
  lemma StaleDigitsChangeVersion(u: Updater.State, l: Link, net: Updater.Network, path: string)
    requires Updater.Proper(net) && UpdateCheck.CheckRequested(u, l, net) && u.version == 1 && !u.downloadBit
    requires |path| == 18 && OneLine(path) && !Contains(path, Updater.VERSION)
    requires Arriving(net.rx) == [Written([STATUS, LENGTH], []), File33(path)]
    ensures Updater.CheckForUpdate(u, l, net).1.downloadBit
  {
    hide UpdateCheck.GoodMetadata, UpdateCheck.CheckRequested, UpdateCheck.Stale, Updater.CheckForUpdate, Decimal, Lookup, Join, OneLine, File33;
    Stale33(net, path);
    File33Lines(path);
    UpdateCheck.StaleDigitsAskIff(u, l, net, 35, [Updater.FILE + path], "\n", path);
    DigitsBehind();
  }

  lemma DigitsBehind()
    ensures !MetadataTail.Harmless(1, "33")
  {
    assert LeadingDigits("3") == 1 && "33"[1..] == "3";
  }
}
