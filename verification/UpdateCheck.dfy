/** A whole check for updates: connection, TLS loop, response processor and metadata callback together. */
module UpdateCheck {
  import opened Platform
  import opened CStrings
  import opened Tls
  import opened Http
  import opened HttpPlan
  import opened HttpStream
  import opened HttpTrace
  import opened HttpOverrun
  import opened HttpWait
  import opened IapImage
  import Request
  import opened Updater
  import opened Metadata
  import opened MetadataTail
  import opened MetadataMemory
  import opened Download

  /** The plan of the data that arrives on a connection. */
  ghost function MetadataPlan(net: Network): Plan
    requires Proper(net)
  {
    ArrivingFits(net.rx, TLS_BUFFER);
    PlanOf(METADATA, Cleared(METADATA), net.mem, Arriving(net.rx))
  }

  /** The request has gone out on a fresh, verified connection and reading has started. */
  ghost predicate CheckRequested(u: State, l: Link, net: Network) {
    var (l1, status) := Connect(l, net.script);
    status == Done && Text(u.metadataPath) != [] && net.alloc == Granted &&
    WriteLoop(l1.wire, Request.Submitted(u.host, Text(u.metadataPath), net.surplus), net.tx).2 == Done
  }

  /** The result of a request that has gone out. */
  ghost function ExecutedCheck(u: State, net: Network): (State, Status)
    requires Proper(net)
  {
    var (u', verdict) := Execute(MetadataClient(), MetadataPlan(net), u);
    (u', match verdict case Continue => Ending(net.rx) case Stop => Done case Fault => Crashed)
  }

  lemma ReadingExecutesCheck(net: Network, u: State)
    requires Proper(net)
    ensures var (s, status) := ReadLoop(AsCallback(MetadataClient(), METADATA), net.mem, net.rx, 0, (net.before, u));
      (s.1, status) == ExecutedCheck(u, net)
  {
    ReadLoopDelivers(AsCallback(MetadataClient(), METADATA), net.mem, net.rx, 0, (net.before, u));
    ProcessorExecutesPlan(MetadataClient(), METADATA, net.before, net.mem, Arriving(net.rx), u);
  }

  /** A check executes the plan of the arriving data, if the request has gone out, and otherwise changes nothing. */
  lemma CheckExecutesPlan(u: State, l: Link, net: Network)
    requires Proper(net)
    ensures var (_, u', status) := CheckForUpdate(u, l, net);
      if CheckRequested(u, l, net) then (u', status) == ExecutedCheck(u, net) else u' == u
  {
    hide ReadLoop, WriteLoop, AsCallback, MetadataClient, Text, Send, Request.Submitted, ExecutedCheck;
    var (l1, status) := Connect(l, net.script);
    assert status == Done ==> l1.valid;
    SendReads(MetadataClient(), METADATA, u.host, Text(u.metadataPath), l1, net, u);
    ReadingExecutesCheck(net, u);
  }

  /** The response buffer that the metadata callback gets to see. */
  ghost function Shown(u: State, l: Link, net: Network): Option<string>
    requires Proper(net)
  {
    var plan := MetadataPlan(net);
    if CheckRequested(u, l, net) && plan.Whole? then Some(plan.body + plan.rest) else None
  }

  /** Whatever arrives: the callback runs at most once, on the buffer it is shown, and reads past it exactly if not all
      of its reads stay inside. Otherwise it decides on the text in the buffer. */
  lemma CheckFaultIff(u: State, l: Link, net: Network)
    requires Proper(net)
    ensures var u', shown := CheckForUpdate(u, l, net).1, Shown(u, l, net);
      && u' == (match shown case None => u case Some(mem) => ApplyMemory(u, mem))
      && (u'.fault <==> u.fault || (shown.Some? && !StaysInside(shown.value)))
      && (shown.Some? && StaysInside(shown.value) ==> u' == ApplyMetadata(u, Text(shown.value)))
  {
    hide CheckForUpdate, CheckRequested, PlanOf, Text, ApplyMemory, ApplyMetadata, StaysInside;
    CheckExecutesPlan(u, l, net);
    ArrivingFits(net.rx, TLS_BUFFER);
    PlanFragmentsFit(METADATA, Cleared(METADATA), net.mem, Arriving(net.rx));
    PlanIsShown(MetadataPlan(net), u);
    if Shown(u, l, net).Some? { ApplyMemoryIs(u, Shown(u, l, net).value); }
  }

  lemma PlanIsShown(plan: Plan, u: State)
    requires !plan.Streamed?
    ensures Execute(MetadataClient(), plan, u).0 == if plan.Whole? then ApplyMemory(u, plan.body + plan.rest) else u
  {
    hide ApplyMemory;
  }

  /** A text asks for an update: it names another version and a file. */
  ghost predicate AsksForUpdate(u: State, text: string) {
    && KeyValueInt(text, VERSION).Some? && KeyValueInt(text, VERSION).value != u.version
    && KeyValueString(text, FILE, PATH_SIZE).Some?
  }

  lemma ApplyIs(u: State, text: string)
    ensures var u' := ApplyMetadata(u, text);
      && u' == u.(interval := u'.interval, firmwarePath := u'.firmwarePath, downloadBit := u'.downloadBit)
      && (u'.downloadBit <==> u.downloadBit || AsksForUpdate(u, text))
      && (AsksForUpdate(u, text) ==> u'.firmwarePath == StorePath(KeyValueString(text, FILE, PATH_SIZE).value))
  {
    hide KeyValueInt, KeyValueString, StorePath, ApplyMetadata;
    ApplyForm(u, text);
  }

  lemma ApplyForm(u: State, text: string)
    ensures var i, v, p := KeyValueInt(text, INTERVAL), KeyValueInt(text, VERSION), KeyValueString(text, FILE, PATH_SIZE);
      ApplyMetadata(u, text) ==
        u.(interval := if i.Some? then i.value % WORD else u.interval,
           firmwarePath := if v.Some? && p.Some? then StorePath(p.value) else u.firmwarePath,
           downloadBit := u.downloadBit || (v.Some? && p.Some? && v.value != u.version))
  {
    hide KeyValueInt, KeyValueString, StorePath;
  }

  /** Whatever arrives, a check leaves the programmer and the running session alone, and never withdraws a
      download. It asks for one exactly if the text it reads names another version and a file, and the file it
      names is then the one that is stored. */
  lemma CheckTouchesOnly(u: State, l: Link, net: Network)
    requires Proper(net)
    ensures var u', shown := CheckForUpdate(u, l, net).1, Shown(u, l, net);
      var asks := shown.Some? && StaysInside(shown.value) && AsksForUpdate(u, Text(shown.value));
      && u' == u.(interval := u'.interval, firmwarePath := u'.firmwarePath, downloadBit := u'.downloadBit, fault := u'.fault)
      && (u'.downloadBit <==> u.downloadBit || asks)
      && (asks ==> u'.firmwarePath == StorePath(KeyValueString(Text(shown.value), FILE, PATH_SIZE).value))
  {
    hide CheckForUpdate, Shown, ApplyMetadata, ApplyMemory, AsksForUpdate, KeyValueString, StorePath, Text, StaysInside;
    CheckFaultIff(u, l, net);
    match Shown(u, l, net)
    case None =>
    case Some(mem) =>
      ApplyIs(u, Text(mem));
      ApplyMemoryIs(u, mem);
  }

  // ---------- Responses ----------

  /** The data that arrives is a response with status 200, Content-Length `n` and a header block that ends at `e`. */
  ghost predicate Answers(net: Network, e: nat, n: nat)
    requires Proper(net)
  {
    var chunks := Arriving(net.rx);
    chunks != [] && HeaderEnds(Flat(chunks), e) && Judge(Flat(chunks)[..e]) == Accept(n)
  }

  /** What was copied as the body bytes that came with the end of the headers. */
  ghost function Leftover(net: Network, e: nat): (leftover: string)
    requires Proper(net) && e + 4 <= |Flat(Arriving(net.rx))| && Arrived(Arriving(net.rx), e + 4) <= METADATA.capacity
    ensures |leftover| == Arrived(Arriving(net.rx), e + 4) - e - 4
  {
    var chunks := Arriving(net.rx);
    ArrivingFits(net.rx, TLS_BUFFER);
    assert [] + Flat(chunks) == Flat(chunks);
    ArrivedIs([], net.mem, chunks, e + 4);
    Copied(METADATA, Flat(chunks), e, CompleteAt([], net.mem, chunks, e + 4))
  }

  /** The buffer that is shown when `k` body bytes have been collected, `leftover` first. */
  ghost function Buffer(stream: string, e: nat, arrived: nat, k: int, leftover: string): string
    requires e + 4 + |leftover| == arrived <= |stream| && arrived <= METADATA.capacity && |leftover| <= k <= METADATA.capacity
    requires k <= |stream| - e - 4
  {
    (leftover + stream[arrived..])[..k] + AtBodyStart(METADATA.capacity, stream[..arrived], e, leftover)[k..]
  }

  /** The buffer the metadata callback is shown, for every response and every chunking: none, if the chunk with the end
      of the headers does not fit, if the body does not come or if it does not fit; otherwise the body as it was
      copied and collected, and behind it what is left of the headers. */
  lemma CheckOutcome(u: State, l: Link, net: Network, e: nat, n: nat)
    requires Proper(net) && CheckRequested(u, l, net) && Answers(net, e, n)
    ensures var chunks := Arriving(net.rx);
      var stream, arrived, k := Flat(chunks), Arrived(chunks, e + 4), Taken(chunks, e, n);
      && e + 4 <= arrived <= |stream| && arrived - e - 4 <= k <= |stream| - e - 4
      && (arrived <= METADATA.capacity ==> |Leftover(net, e)| == arrived - e - 4)
      && Shown(u, l, net) ==
           if arrived > METADATA.capacity || k < n || k > METADATA.capacity then None
           else Some(Buffer(stream, e, arrived, k, Leftover(net, e)))
  {
    hide CheckRequested, PlanOf, Judge, HeaderEnds, Arrived, Taken, Flat, Copied, AtBodyStart, CompleteAt, PlanAfter, Fills;
    var chunks := Arriving(net.rx);
    ArrivingFits(net.rx, TLS_BUFFER);
    HeaderEndsWithin(Flat(chunks), e);
    ArrivedWithin(chunks, e + 4);
    TakenWithin(chunks, e, n);
    assert [] + Flat(chunks) == Flat(chunks);
    ArrivedIs([], net.mem, chunks, e + 4);
    if Arrived(chunks, e + 4) <= METADATA.capacity {
      WaitingCopied(METADATA, net.mem, chunks, e, n, CompleteAt([], net.mem, chunks, e + 4), Leftover(net, e));
    } else {
      HeaderOutcome(METADATA, net.mem, chunks, e);
    }
  }

  /** The body bytes that came with the end of the headers were copied from the right place (see
      HttpWait.WaitCopiesRightIff). */
  ghost predicate CopiedRight(net: Network, e: nat)
    requires Proper(net)
  {
    var chunks := Arriving(net.rx);
    chunks != [] && Arrived(chunks, e + 4) <= METADATA.capacity && CopiesRight(METADATA, chunks, e + 4)
  }

  lemma RightLeftover(net: Network, e: nat, n: nat)
    requires Proper(net) && Answers(net, e, n) && CopiedRight(net, e)
    ensures var chunks := Arriving(net.rx);
      e + 4 <= Arrived(chunks, e + 4) <= |Flat(chunks)| && Leftover(net, e) == Flat(chunks)[e + 4..Arrived(chunks, e + 4)]
  {
    hide Judge, HeaderEnds, CompleteAt, Collected;
    var chunks := Arriving(net.rx);
    ArrivingFits(net.rx, TLS_BUFFER);
    HeaderEndsWithin(Flat(chunks), e);
    ArrivedWithin(chunks, e + 4);
    assert [] + Flat(chunks) == Flat(chunks);
    ArrivedIs([], net.mem, chunks, e + 4);
    LeftoverRight(METADATA, net.mem, chunks, e, CompleteAt([], net.mem, chunks, e + 4));
  }

  /** A body of exactly 512 bytes fills the buffer. It is then read past its end if and only if not all three keys are
      there with something that ends their values. */
  lemma FullBodyFaultsIff(u: State, l: Link, net: Network, e: nat)
    requires Proper(net) && CheckRequested(u, l, net) && Answers(net, e, METADATA.capacity) && CopiedRight(net, e)
    requires |Flat(Arriving(net.rx))| == e + 4 + METADATA.capacity
    ensures var u', body := CheckForUpdate(u, l, net).1, Flat(Arriving(net.rx))[e + 4..];
      && u' == ApplyMemory(u, body)
      && (u'.fault <==> u.fault || !StaysInside(body))
      && (StaysInside(body) ==> u' == ApplyMetadata(u, Text(body)))
  {
    hide CheckForUpdate, CheckRequested, Judge, HeaderEnds, Flat, CopiesRight, ApplyMemory, ApplyMetadata, StaysInside, Shown, Arrived,
         AtBodyStart, Leftover;
    var stream, chunks := Flat(Arriving(net.rx)), Arriving(net.rx);
    RightLeftover(net, e, METADATA.capacity);
    CheckOutcome(u, l, net, e, METADATA.capacity);
    ArrivedWithin(chunks, e + 4 + METADATA.capacity);
    CheckFaultIff(u, l, net);
    var arrived := Arrived(chunks, e + 4);
    assert Leftover(net, e) + stream[arrived..] == stream[e + 4..];
    assert Buffer(stream, e, arrived, METADATA.capacity, Leftover(net, e)) == stream[e + 4..];
  }

  // ---------- Metadata files ----------

  /** The response has the body `body`, all of it announced and no more, without a NUL; it fits the buffer and is copied
      right. */
  ghost predicate GoodMetadata(net: Network, e: nat, body: string)
    requires Proper(net)
  {
    var chunks := Arriving(net.rx);
    && Answers(net, e, |body|) && CopiedRight(net, e) && NUL !in Flat(chunks)
    && e + 4 <= |Flat(chunks)| && Flat(chunks)[e + 4..] == body && |body| <= METADATA.capacity
  }

  /** Whether a NUL is left in the buffer behind the body. */
  ghost predicate NulRemains(net: Network, e: nat, body: string)
    requires Proper(net)
  {
    NulLeft(METADATA.capacity, Arrived(Arriving(net.rx), e + 4), e, |body|)
  }

  /** The header text behind the body. */
  ghost function Stale(net: Network, e: nat, body: string): string
    requires Proper(net) && GoodMetadata(net, e, body)
  {
    var chunks := Arriving(net.rx);
    ArrivedWithin(chunks, e + 4);
    Behind(Flat(chunks)[..Arrived(chunks, e + 4)], e, |body|)
  }

  /** The callback is shown the body and the header text behind it. */
  lemma BodyIsShown(u: State, l: Link, net: Network, e: nat, body: string)
    requires Proper(net) && CheckRequested(u, l, net) && GoodMetadata(net, e, body)
    ensures Shown(u, l, net).Some?
    ensures var mem := Shown(u, l, net).value;
      && CheckForUpdate(u, l, net).1 == ApplyMemory(u, mem)
      && Text(mem) == body + Stale(net, e, body) && (NUL in mem <==> NulRemains(net, e, body))
  {
    hide CheckForUpdate, CheckRequested, Judge, HeaderEnds, Flat, CopiesRight, ApplyMemory, StaysInside, Shown, Arrived, Leftover, NulLeft,
         Behind, AtBodyStart, Text;
    var chunks := Arriving(net.rx);
    var stream, arrived := Flat(chunks), Arrived(chunks, e + 4);
    RightLeftover(net, e, |body|);
    CheckOutcome(u, l, net, e, |body|);
    ArrivedWithin(chunks, e + 4 + |body|);
    CheckFaultIff(u, l, net);
    var leftover := Leftover(net, e);
    assert leftover + stream[arrived..] == stream[e + 4..] == body && body[..|body|] == body;
    NoNulIn(stream, 0, arrived);
    NoNulIn(stream, e + 4, |stream|);
    assert stream[0..arrived] == stream[..arrived] && stream[e + 4..|stream|] == body;
    TextBehindBody(METADATA.capacity, stream[..arrived], e, leftover, body);
    if !NulRemains(net, e, body) { BehindFull(METADATA.capacity, stream[..arrived], e, leftover, body); }
  }

  /** Without a NUL the whole buffer is the body and what the body has not covered of the headers. */
  lemma BehindFull(capacity: nat, headers: string, e: nat, leftover: string, body: string)
    requires e + 4 + |leftover| == |headers| <= capacity && |leftover| <= |body| <= capacity && NUL !in headers
    requires !NulLeft(capacity, |headers|, e, |body|)
    ensures body + AtBodyStart(capacity, headers, e, leftover)[|body|..] == body + Behind(headers, e, |body|)
  {
  }

  /** End to end: if the request goes out and the lines of the metadata file arrive in any chunks, then the check takes over
      exactly the values of the file, whatever header text is left behind them, and asks for a download if and only if
      the version differs from the installed one. Only the search for an interval that is not there needs a NUL, and
      runs past the buffer without one. */
  lemma CheckReadsMetadata(u: State, l: Link, net: Network, e: nat, lines: seq<string>, eol: string,
                           interval: Option<int>, version: int, path: string)
    requires Proper(net) && CheckRequested(u, l, net) && Eol(eol) && Lines(lines)
    requires GoodMetadata(net, e, Join(lines, eol))
    requires Describes(lines, Stale(net, e, Join(lines, eol)), interval, version, path)
    ensures CheckForUpdate(u, l, net).1 ==
      if interval.Some? || NulRemains(net, e, Join(lines, eol)) then Applied(u, interval, version, path)
      else u.(fault := true)
  {
    hide CheckForUpdate, CheckRequested, GoodMetadata, ApplyMemory, Stale, Join, Describes, Applied, Shown, NulRemains, Text, StaysInside;
    BodyIsShown(u, l, net, e, Join(lines, eol));
    MemoryIsApplied(u, Shown(u, l, net).value, lines, eol, Stale(net, e, Join(lines, eol)), interval, version, path);
  }

  /** The same with the installed version in a last line that is not ended, and a NUL behind it: an update is asked for,
      although there is none, if and only if a digit of the header text behind the body changes the number. */
  lemma StaleDigitsAskIff(u: State, l: Link, net: Network, e: nat, lines: seq<string>, eol: string, path: string)
    requires Proper(net) && CheckRequested(u, l, net) && Eol(eol) && Lines(lines)
    requires u.version >= 0 && !u.downloadBit && Lookup(lines, VERSION) == None && Lookup(lines, FILE) == Some(path)
    requires var body := Join(lines, eol) + (VERSION + Decimal(u.version));
      GoodMetadata(net, e, body) && NulRemains(net, e, body)
    ensures var tail := Stale(net, e, Join(lines, eol) + (VERSION + Decimal(u.version)));
      CheckForUpdate(u, l, net).1.downloadBit <==> !Harmless(u.version, tail)
  {
    hide CheckForUpdate, CheckRequested, GoodMetadata, ApplyMetadata, ApplyMemory, Stale, Join, Lookup, Harmless, Decimal, Shown, NulRemains, Text;
    var body := Join(lines, eol) + (VERSION + Decimal(u.version));
    var tail := Stale(net, e, body);
    BodyIsShown(u, l, net, e, body);
    ApplyMemoryIs(u, Shown(u, l, net).value);
    assert body + tail == Join(lines, eol) + (VERSION + (Decimal(u.version) + tail));
    StaleDigitsIff(u, lines, eol, path, tail);
  }
}
