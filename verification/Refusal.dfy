/** What the processor refuses, and that nothing happens on the device then. */
module Refusal {
  import opened Platform
  import opened CStrings
  import opened Tls
  import opened Http
  import opened HttpPlan
  import opened HttpStream
  import opened HttpOverrun
  import opened HttpTrace
  import opened HttpWait
  import opened IapImage
  import opened Metadata
  import opened Updater
  import opened Download
  import opened UpdateCheck
  import opened Response

  // ---------- Invalid status lines ----------

  /** No number begins here: behind white space there is something that is neither a digit nor a signed digit. */
  ghost predicate NoNumber(s: string) {
    exists i :: 0 <= i < |s| && Spaces(s[..i]) && NoNumberAt(s, i)
  }

  predicate NoNumberAt(s: string, i: nat)
    requires i < |s|
  {
    !IsSpace(s[i]) && !IsDigit(s[i]) && ((s[i] == '-' || s[i] == '+') ==> i + 1 < |s| && !IsDigit(s[i + 1]))
  }

  lemma NoNumberScanned(s: string, more: string)
    requires NoNumber(s)
    ensures ScanInt(s + more) == None
  {
    var i :| 0 <= i < |s| && Spaces(s[..i]) && NoNumberAt(s, i);
    var t := s[i..] + more;
    assert s + more == s[..i] + t;
    NothingScanned(s[..i], t);
  }

  /** The ways in which a first line fails to be a status line: another protocol, or one of the three numbers or the dot
      missing. */
  ghost predicate Malformed(line: string, major: nat, minor: nat, rest: string) {
    || (|line| >= 5 && line[..5] != "HTTP/")
    || (line == "HTTP/" + rest && NoNumber(rest))
    || (line == "HTTP/" + (Decimal(major) + rest) && rest != [] && rest[0] != '.' && !IsDigit(rest[0]))
    || (line == "HTTP/" + (Decimal(major) + ("." + rest)) && NoNumber(rest))
    || (line == "HTTP/" + (Decimal(major) + ("." + (Decimal(minor) + rest))) && rest != [] && NoNumber(rest) && !IsDigit(rest[0]))
  }

  lemma MalformedIsNotRead(line: string, major: nat, minor: nat, rest: string, more: string)
    requires Malformed(line, major, minor, rest)
    ensures ScanStatusLine(line + more) == None
  {
    hide ScanInt, Decimal, NoNumber;
    var text, r := line + more, rest + more;
    if line == "HTTP/" + rest && NoNumber(rest) {
      NoNumberScanned(rest, more);
      assert text[5..] == r;
    } else if line == "HTTP/" + (Decimal(major) + rest) && rest != [] && rest[0] != '.' && !IsDigit(rest[0]) {
      assert text[5..] == Decimal(major) + r && r[0] == rest[0];
      ScanDecimal(major, r);
    } else if line == "HTTP/" + (Decimal(major) + ("." + rest)) && NoNumber(rest) {
      assert text[5..] == Decimal(major) + ("." + r);
      ScanDecimal(major, "." + r);
      assert ("." + r)[1..] == r;
      NoNumberScanned(rest, more);
    } else if line == "HTTP/" + (Decimal(major) + ("." + (Decimal(minor) + rest))) && rest != [] && NoNumber(rest) && !IsDigit(rest[0]) {
      assert text[5..] == Decimal(major) + ("." + (Decimal(minor) + r));
      ScanDecimal(major, "." + (Decimal(minor) + r));
      assert ("." + (Decimal(minor) + r))[1..] == Decimal(minor) + r && r[0] == rest[0];
      ScanDecimal(minor, r);
      NoNumberScanned(rest, more);
    } else {
      assert text[0..5] == line[..5];
    }
  }

  /** A first line of that kind is refused, whatever follows. */
  lemma MalformedIsRefused(lines: seq<string>, major: nat, minor: nat, rest: string)
    requires HeaderLines(lines) && Malformed(lines[0], major, minor, rest)
    ensures |Join(lines, CRLF)| >= 2
    ensures Judge(Join(lines, CRLF)[..|Join(lines, CRLF)| - 2]) == BadHeaders(InvalidStatusLine)
  {
    hide ScanStatusLine, KeyValueInt, Malformed, Join;
    HeaderText(lines);
    var text := Join(lines, CRLF)[..|Join(lines, CRLF)| - 2];
    var more := TextAfterFirst(lines, text);
    MalformedIsNotRead(lines[0], major, minor, rest, more);
  }

  // ---------- Refused responses ----------

  /** The plan of every response that is not accepted. */
  lemma RefusedPlan(cfg: Config, mem: string, chunks: seq<string>, e: nat)
    requires Fits(chunks, |mem|) && 0 < cfg.capacity && HeaderEnds(Flat(chunks), e) && !Judge(Flat(chunks)[..e]).Accept?
    ensures PlanOf(cfg, Cleared(cfg), mem, chunks) ==
      if Arrived(chunks, e + 4) <= cfg.capacity then
        match Judge(Flat(chunks)[..e]) case BadHeaders(err) => Rejected(err) case _ => Unknown
      else if Fills(chunks, cfg.capacity) then Broken
      else Rejected(BufferTooSmall)
  {
    hide PlanOf, Judge, HeaderEnds, CompleteAt, Fills, Arrived;
    HeaderOutcome(cfg, mem, chunks, e);
  }

  lemma RefusedExecutes<C>(client: Client<C>, plan: Plan, c: C)
    requires !plan.Streamed? && !plan.Whole? && (forall c', err :: client.error(c', err) == c')
    ensures Execute(client, plan, c).0 == c
  {
  }

  /** A download that is not answered by a response it accepts leaves the programmer and everything else but its own
      session flag as they were; and a check leaves everything as it was. */
  lemma UnansweredChangesNothing(env: Env, u: State, l: Link, net: Network)
    requires Proper(net)
    ensures !FirmwarePlan(net).Streamed? ==> DownloadImage(env, u, l, net).1.(hasSession := u.hasSession) == u
    ensures !MetadataPlan(net).Whole? ==> CheckForUpdate(u, l, net).1 == u
  {
    hide DownloadImage, CheckForUpdate, Requested, CheckRequested, PlanOf;
    DownloadExecutesPlan(env, u, l, net);
    CheckExecutesPlan(u, l, net);
    PlanFits(net);
    ArrivingFits(net.rx, TLS_BUFFER);
    PlanFragmentsFit(METADATA, Cleared(METADATA), net.mem, Arriving(net.rx));
    if !FirmwarePlan(net).Streamed? {
      RefusedExecutes(FirmwareClient(env), FirmwarePlan(net), u.(hasSession := false));
    }
    if !MetadataPlan(net).Whole? {
      RefusedExecutes(MetadataClient(), MetadataPlan(net), u);
    }
  }

  /** The header block of the data that arrives consists of these lines. */
  ghost predicate Starts(net: Network, lines: seq<string>)
    requires Proper(net)
  {
    HeaderLines(lines) && Join(lines, CRLF) + CRLF <= Flat(Arriving(net.rx))
  }

  lemma StartsWith(net: Network, lines: seq<string>)
    requires Proper(net) && Starts(net, lines)
    ensures HeaderLines(lines) && |Join(lines, CRLF)| >= 2
    ensures var stream, e := Flat(Arriving(net.rx)), |Join(lines, CRLF)| - 2;
      HeaderEnds(stream, e) && stream[..e] == Join(lines, CRLF)[..e]
  {
    var stream, head := Flat(Arriving(net.rx)), Join(lines, CRLF) + CRLF;
    var body := stream[|head|..];
    assert stream == Written(lines, body);
    WrittenEnds(lines, body);
    assert stream[..|head| - 4] == head[..|head| - 4] == Join(lines, CRLF)[..|head| - 4];
  }

  /** Another version, another status, no Content-Length, or no status line at all. */
  ghost predicate Unacceptable(lines: seq<string>, major: nat, minor: nat, code: nat, tail: string)
    requires HeaderLines(lines)
  {
    || Malformed(lines[0], major, minor, tail)
    || (lines[0] == StatusOf(major, minor, code, tail) && (tail == [] || !IsDigit(tail[0])) &&
        (major != 1 || code != 200 || Lookup(lines, CONTENT_LENGTH) == None))
  }

  /** The error that is reported, if any. */
  ghost function Reported(lines: seq<string>, major: nat, minor: nat, code: nat, tail: string): Judgement
    requires HeaderLines(lines)
  {
    if Malformed(lines[0], major, minor, tail) then BadHeaders(InvalidStatusLine)
    else if major != 1 then BadHeaders(VersionNotSupported)
    else if code != 200 then BadHeaders(Non200(code))
    else NoLength
  }

  lemma UnacceptableIsRefused(lines: seq<string>, major: nat, minor: nat, code: nat, tail: string)
    requires HeaderLines(lines) && Unacceptable(lines, major, minor, code, tail)
    ensures |Join(lines, CRLF)| >= 2
    ensures Judge(Join(lines, CRLF)[..|Join(lines, CRLF)| - 2]) == Reported(lines, major, minor, code, tail)
  {
    hide Judge, Malformed, Lookup, Join, StatusOf;
    if Malformed(lines[0], major, minor, tail) {
      MalformedIsRefused(lines, major, minor, tail);
    } else {
      JudgeOfLines(lines, major, minor, code, tail);
    }
  }

  /** End to end: a server that answers with another version or status, without Content-Length or without a status line,
      in any chunks and with any body, changes nothing on the device but the session flag of a download; and if the
      header block fits the response buffer, exactly its error is reported. */
  lemma RefusedResponseChangesNothing(env: Env, u: State, l: Link, net: Network,
                                      lines: seq<string>, major: nat, minor: nat, code: nat, tail: string)
    requires Proper(net) && Starts(net, lines) && Unacceptable(lines, major, minor, code, tail)
    ensures DownloadImage(env, u, l, net).1.(hasSession := u.hasSession) == u
    ensures CheckForUpdate(u, l, net).1 == u
    ensures var expected := match Reported(lines, major, minor, code, tail) case BadHeaders(err) => Rejected(err) case _ => Unknown;
      var arrived := Arrived(Arriving(net.rx), |Join(lines, CRLF)| + 2);
      && (arrived <= FIRMWARE.capacity ==> FirmwarePlan(net) == expected)
      && (arrived <= METADATA.capacity ==> MetadataPlan(net) == expected)
  {
    hide Judge, HeaderEnds, Unacceptable, Join, Arrived, PlanOf, DownloadImage, CheckForUpdate, Starts, Fills, Malformed;
    var chunks, e := Arriving(net.rx), |Join(lines, CRLF)| - 2;
    StartsWith(net, lines);
    UnacceptableIsRefused(lines, major, minor, code, tail);
    ArrivingFits(net.rx, TLS_BUFFER);
    RefusedPlan(FIRMWARE, net.mem, chunks, e);
    RefusedPlan(METADATA, net.mem, chunks, e);
    UnansweredChangesNothing(env, u, l, net);
  }

  // ---------- What is acted on at all ----------

  /** A header block with version 1, status 200 and a Content-Length. */
  ghost predicate Answer200(text: string) {
    Contains(text, CONTENT_LENGTH) && exists minor :: ScanStatusLine(text) == Some((1, minor, 200))
  }

  ghost predicate AnsweredAt(stream: string, e: nat) {
    e + 4 <= |stream| && OccursAt(stream, TERMINATOR, e) && Answer200(stream[..e])
  }

  lemma AcceptIsAnswer200(text: string)
    requires Judge(text).Accept?
    ensures Answer200(text)
  {
    var (major, minor, status) := ScanStatusLine(text).value;
    assert ScanStatusLine(text) == Some((1, minor, 200));
  }

  /** The header part enters the body only with such a block. */
  lemma EntersWithAnswer(cfg: Config, stream: string, k: nat, x: Context, mem: string, chunks: seq<string>)
    requires k <= |stream| && k <= cfg.capacity && x == Collected(cfg, stream[..k]) && WellFormed(cfg, x) && Fits(chunks, |mem|)
    requires StrStr(x.buffer, TERMINATOR).Found?
    requires HeaderPlan(cfg, x, mem, chunks).Streamed? || HeaderPlan(cfg, x, mem, chunks).Whole?
    ensures AnsweredAt(stream, StrStr(x.buffer, TERMINATOR).at)
  {
    hide StrStr, Judge, Answer200, PlanOf, BodyPlan;
    SearchFinds(cfg, stream, k);
    var e := StrStr(x.buffer, TERMINATOR).at;
    assert x.buffer[..e] == stream[..e];
    AcceptIsAnswer200(stream[..e]);
  }

  lemma {:induction false} ActsFrom(cfg: Config, acc: string, mem: string, chunks: seq<string>, stream: string, x: Context) returns (e: nat)
    requires Fits(chunks, |mem|) && stream == acc + Flat(chunks)
    requires |acc| < cfg.capacity && x == Collected(cfg, acc) && WellFormed(cfg, x)
    requires PlanOf(cfg, x, mem, chunks).Streamed? || PlanOf(cfg, x, mem, chunks).Whole?
    ensures AnsweredAt(stream, e)
    decreases |chunks|
  {
    hide PlanOf, HeaderPlan, WellFormed, Flat, StrStr, AnsweredAt, Append, Collected;
    if chunks == [] {
      NothingComes(cfg, acc, mem, x);
      assert false;
    }
    CollectedWellFormed(cfg, acc);
    if |acc| + |chunks[0]| > cfg.capacity {
      OverflowIsRejected(cfg, x, mem, chunks);
      assert false;
    }
    var acc', mem', rest := acc + chunks[0], Store(mem, chunks[0]), chunks[1..];
    FlatOne(acc, chunks);
    assert acc' == stream[..|acc'|];
    CollectedWellFormed(cfg, acc');
    AppendCollected(cfg, acc, chunks[0]);
    PlanOne(cfg, x, mem, chunks);
    match StrStr(Collected(cfg, acc').buffer, TERMINATOR)
    case Found(at) =>
      e := at;
      EntersWithAnswer(cfg, stream, |acc'|, Collected(cfg, acc'), mem', rest);
    case Absent =>
      HeadersIncomplete(cfg, Collected(cfg, acc'), mem', rest);
      if |acc'| == cfg.capacity {
        FullIsStuck(cfg, Collected(cfg, acc'), mem', rest);
        assert false;
      }
      e := ActsFrom(cfg, acc', mem', rest, stream, Collected(cfg, acc'));
    case Overrun =>
      OverrunIsBroken(cfg, Collected(cfg, acc'), mem', rest);
      assert false;
  }

  lemma FullIsStuck(cfg: Config, x: Context, mem: string, chunks: seq<string>)
    requires WellFormed(cfg, x) && x.inHeaders && Fits(chunks, |mem|) && x.count == cfg.capacity
    ensures PlanOf(cfg, x, mem, chunks) in {Waiting, Rejected(BufferTooSmall)}
  {
  }

  /** Whatever arrives: a download that changes more than its session flag, or a check that changes anything, has received
      a header block with version 1, status 200 and a Content-Length. */
  lemma ActsOnlyOnAnswer200(env: Env, u: State, l: Link, net: Network) returns (e: nat)
    requires Proper(net)
    requires DownloadImage(env, u, l, net).1.(hasSession := u.hasSession) != u || CheckForUpdate(u, l, net).1 != u
    ensures AnsweredAt(Flat(Arriving(net.rx)), e)
  {
    hide DownloadImage, CheckForUpdate, PlanOf, AnsweredAt;
    UnansweredChangesNothing(env, u, l, net);
    ArrivingFits(net.rx, TLS_BUFFER);
    var chunks := Arriving(net.rx);
    assert [] + Flat(chunks) == Flat(chunks);
    NothingCollected(FIRMWARE);
    NothingCollected(METADATA);
    if FirmwarePlan(net).Streamed? {
      e := ActsFrom(FIRMWARE, [], net.mem, chunks, Flat(chunks), Cleared(FIRMWARE));
    } else {
      e := ActsFrom(METADATA, [], net.mem, chunks, Flat(chunks), Cleared(METADATA));
    }
  }
}
