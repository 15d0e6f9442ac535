/** Runs that go wrong, with all their inputs: the failures whose exact conditions are proved elsewhere do occur. */
module FailingRuns {
  import opened Platform
  import opened CStrings
  import opened Tls
  import opened Http
  import opened HttpPlan
  import opened HttpStream
  import opened IapImage
  import opened Updater
  import opened UpdaterProofs
  import opened Download
  import opened Metadata
  import opened Response
  import opened HttpOverrun
  import opened UpdateCheck
  import opened Connections
  import opened StaleImage
  import opened MetadataMemory
  import Request
  import Iap
  import IapProofs

  // ---------- Small images ----------

  /** Of the six calls from tick `t` on, exactly the call `k` fails. */
  ghost predicate FailsOnly(env: Env, t: nat, k: nat) {
    forall i :: t <= i < t + 6 ==> (env.ok(i) <==> i != t + k)
  }

  /** The session of an image of less than a page: three calls open it, the write makes none, and those of the commit are
      the flush, the end and the activation. */
  lemma SmallUpload(env: Env, s: Iap.State, image: string, k: nat)
    requires Iap.Inv(s) && s.initialized && !s.open && s.dev.boot != Other && FailsOnly(env, s.dev.tick, k)
    requires 0 < |image| < Iap.PAGE && 3 <= k < 6
    ensures Upload(env, s, [image]).1
    ensures var ready := Upload(env, s, [image]).0;
      && Iap.Commit(env, ready).1 == (if k == 3 then Iap.Ok else Iap.Fail)
      && (FlushSucceeds(env, ready) <==> k != 3)
  {
    var t := s.dev.tick;
    assert env.ok(t) && env.ok(t + 1) && env.ok(t + 2);
    var s0 := Iap.Begin(env, s).0;
    assert s0.dev.tick == t + 3 && s0.open && s0.pending == [] && Iap.BufferLive(s0);
    var s1 := s0.(pending := s0.pending + image[..|image|]);
    assert Iap.CopyOnce(env, s0, image) == (s1, Iap.Ok, |image|);
    assert image[|image|..] == [];
    assert Iap.Fill(env, s1, []) == (s1, Iap.Ok);
    assert Iap.Fill(env, s0, image) == (s1, Iap.Ok);
    OneWrite(env, s0, image);
    assert (env.ok(t + 3) <==> k != 3) && (env.ok(t + 4) <==> k != 4) && (env.ok(t + 5) <==> k != 5);
    SmallCommit(env, s1);
  }

  lemma SmallCommit(env: Env, s: Iap.State)
    requires s.initialized && s.open && Iap.BufferLive(s) && s.pending != [] && s.handle.Some? && s.target.Some?
    ensures FlushSucceeds(env, s) <==> env.ok(s.dev.tick)
    ensures Iap.Commit(env, s).1 == if env.ok(s.dev.tick + 1) && env.ok(s.dev.tick + 2) then Iap.Ok else Iap.Fail
  {
  }

  lemma OneWrite(env: Env, s: Iap.State, image: string)
    requires Iap.Inv(s) && Iap.Write(env, s, image).1 == Iap.Ok
    ensures WriteAll(env, s, [image]) == (Iap.Write(env, s, image).0, true)
  {
    IapProofs.StepKeeps(env, s, Iap.OpWrite(image));
    assert [image][1..] == [];
  }

  lemma OneFragment(net: Network, lines: seq<string>, reason: string, blanks: string, image: string)
    requires Proper(net) && Announces(lines, reason, blanks, |image|) && 0 < |image| < Iap.PAGE
    requires Arriving(net.rx) == [Written(lines, image)] && |Written(lines, image)| <= FIRMWARE.capacity
    ensures FirmwarePlan(net) == Streamed(|image|, [image])
  {
    hide Announces, Judge, HeaderEnds, PlanOf, Join;
    WrittenIsAccepted(lines, reason, blanks, |image|, image);
    var e, chunks := |Join(lines, CRLF)| - 2, Arriving(net.rx);
    assert Flat(chunks) == chunks[0];
    assert |image| % WORD == |image|;
    ArrivingFits(net.rx, TLS_BUFFER);
    StreamingIsChunkingIndependent(FIRMWARE, net.mem, chunks, e);
    assert Cut(chunks, e + 4) == [chunks[0][e + 4..]] + chunks[1..];
  }

  /** An image of less than a page, in one piece, to a device without an open session. */
  ghost predicate Small(u: State, l: Link, net: Network, lines: seq<string>, reason: string, blanks: string, image: string) {
    && Proper(net) && Iap.Inv(u.iap) && !u.iap.dev.fault && u.iap.initialized && !u.iap.open && u.iap.dev.boot != Other
    && Requested(u, l, net) && Announces(lines, reason, blanks, |image|) && 0 < |image| < Iap.PAGE
    && Arriving(net.rx) == [Written(lines, image)] && |Written(lines, image)| <= FIRMWARE.capacity
  }

  lemma SmallDownload(env: Env, u: State, l: Link, net: Network, lines: seq<string>, reason: string, blanks: string, image: string)
    requires Small(u, l, net, lines, reason, blanks, image) && Upload(env, u.iap, [image]).1
    ensures var u' := DownloadImage(env, u, l, net).1;
      u'.newFirmware && u'.iap == Iap.Commit(env, Upload(env, u.iap, [image]).0).0
  {
    hide DownloadImage, Requested, FirmwarePlan, Announces, Written, Iap.Begin, Iap.Commit, WriteAll;
    OneFragment(net, lines, reason, blanks, image);
    assert Prepared(env, u.iap) == u.iap;
    var outcome := DownloadHappens(env, u, l, net);
    assert outcome.Updated? && outcome.sent == [image];
    assert Flat([image]) == image;
    assert outcome.fate == Committed;
  }

  /** If only the activation fails, new firmware is reported, the boot partition stays, and the session is left open
      without a buffer. */
  lemma FailedActivationIsReported(env: Env, u: State, l: Link, net: Network,
                                   lines: seq<string>, reason: string, blanks: string, image: string)
    requires Small(u, l, net, lines, reason, blanks, image) && FailsOnly(env, u.iap.dev.tick, 5)
    ensures var u' := DownloadImage(env, u, l, net).1;
      u'.newFirmware && u'.iap.dev.boot == u.iap.dev.boot && Iap.Hollow(u'.iap)
  {
    hide DownloadImage, Requested, Announces, Written, Iap.Begin, Iap.Commit, WriteAll, FailsOnly;
    SmallUpload(env, u.iap, image, 5);
    SmallDownload(env, u, l, net, lines, reason, blanks, image);
    CommitMoves(env, u.iap, [image]);
  }

  /** If only the final page write fails, the commit returns OK, and the device boots from an erased partition. */
  lemma FailedFlushIsActivated(env: Env, u: State, l: Link, net: Network,
                               lines: seq<string>, reason: string, blanks: string, image: string)
    requires Small(u, l, net, lines, reason, blanks, image) && FailsOnly(env, u.iap.dev.tick, 3)
    ensures var u' := DownloadImage(env, u, l, net).1;
      && u'.newFirmware && Some(u'.iap.dev.boot) == Iap.Next(u.iap.dev.boot) && u'.iap.dev.boot != u.iap.dev.boot
      && Contents(env, u'.iap.dev.ops, u'.iap.dev.boot) == []
  {
    hide DownloadImage, Requested, Announces, Written, Iap.Begin, Iap.Commit, WriteAll, FailsOnly, Contents, Session;
    SmallUpload(env, u.iap, image, 3);
    SmallDownload(env, u, l, net, lines, reason, blanks, image);
    CommitMoves(env, u.iap, [image]);
    CommittedUpload(env, u.iap, [image]);
    assert Flat([image]) == image && Pages(image) == [];
    ContentsOfSession(env, u.iap.dev.ops, DownloadImage(env, u, l, net).1.iap.dev.boot, []);
  }

  // ---------- Constructed runs ----------

  const SCRIPT := ConnectScript(true, true, true, true, true, [HandshakeDone], true, true)
  const CLOSED := Link(false, false, 0, [])

  ghost function Fresh(): State {
    State(Iap.Init(Iap.Reset(Device(0, {}, false, Factory, []))).0, false, false, 0, true, false, false, 1, 0, "h", "/m", "/f", false)
  }

  ghost function Submission(path: string): string {
    Request.Submitted("h", path, Zeros(Request.SURPLUS - 1))
  }

  /** A connection that stands, with a request that is sent at once. */
  ghost function Answer(path: string, mem: string, rx: seq<ReadResult>): Network {
    Network(SCRIPT, Granted, Cleared(FIRMWARE), mem, Zeros(Request.SURPLUS - 1), [Sent(|Submission(path)|)], rx)
  }

  lemma OneResponse(response: string)
    ensures Arriving([Data(response)]) == [response]
  {
    assert [Data(response)][1..] == [];
    assert Arriving([]) == [];
  }

  lemma SentAtOnce(request: string)
    ensures WriteLoop([], request, [Sent(|request|)]).2 == Done
  {
  }

  lemma WrittenLength(lines: seq<string>, body: string)
    ensures |Written(lines, body)| == |Join(lines, CRLF)| + 2 + |body|
  {
  }

  lemma RequestGoesOut(mem: string, rx: seq<ReadResult>)
    ensures Requested(Fresh(), CLOSED, Answer("/f", mem, rx))
    ensures CheckRequested(Fresh(), CLOSED, Answer("/m", mem, rx))
  {
    hide Request.Submitted;
    TextIs("/f", "/f");
    TextIs("/m", "/m");
    SentAtOnce(Submission("/f"));
    SentAtOnce(Submission("/m"));
  }

  lemma FreshIsReady()
    ensures var s := Fresh().iap;
      && Iap.Inv(s) && s.initialized && !s.open && !s.dev.fault && s.dev.boot == Factory && s.dev.tick == 0
      && !Fresh().newFirmware
  {
  }

  ghost function SmallAnswer(): Network {
    Answer("/f", Zeros(TLS_BUFFER), [Data(Written([STATUS, LENGTH], Zeros(33)))])
  }

  lemma SmallRun()
    ensures Proper(SmallAnswer()) && Small(Fresh(), CLOSED, SmallAnswer(), [STATUS, LENGTH], "OK", " ", Zeros(33))
  {
    hide Announces, Written, Requested, Iap.Inv, Join, Request.Submitted;
    var response := Written([STATUS, LENGTH], Zeros(33));
    Header33();
    HeaderText33();
    WrittenLength([STATUS, LENGTH], Zeros(33));
    FreshIsReady();
    OneResponse(response);
    RequestGoesOut(Zeros(TLS_BUFFER), [Data(response)]);
  }

  ghost function FailAt(k: nat): Env {
    Env(i => i != k, _ => 0, _ => [])
  }

  lemma FailsAt(k: nat)
    ensures FailsOnly(FailAt(k), Fresh().iap.dev.tick, k)
  {
  }

  /** A flash driver that refuses only the activation: new firmware is reported and the boot partition stays. */
  lemma FlagWithoutImage()
    ensures Proper(SmallAnswer())
    ensures var u' := DownloadImage(FailAt(5), Fresh(), CLOSED, SmallAnswer()).1;
      !Fresh().newFirmware && u'.newFirmware && u'.iap.dev.boot == Factory
  {
    hide DownloadImage, Small, FailsOnly, Fresh, SmallAnswer, Iap.Inv, Iap.Hollow;
    SmallRun();
    FailsAt(5);
    FreshIsReady();
    FailedActivationIsReported(FailAt(5), Fresh(), CLOSED, SmallAnswer(), [STATUS, LENGTH], "OK", " ", Zeros(33));
  }

  /** A flash driver that refuses only the final page write: the device boots from an empty partition. */
  lemma EmptyImageIsBooted()
    ensures Proper(SmallAnswer())
    ensures var s := DownloadImage(FailAt(3), Fresh(), CLOSED, SmallAnswer()).1.iap;
      s.dev.boot == Ota0 && Contents(FailAt(3), s.dev.ops, Ota0) == []
  {
    hide DownloadImage, Small, FailsOnly, Contents, Fresh, SmallAnswer, Iap.Inv;
    SmallRun();
    FailsAt(3);
    FreshIsReady();
    FailedFlushIsActivated(FailAt(3), Fresh(), CLOSED, SmallAnswer(), [STATUS, LENGTH], "OK", " ", Zeros(33));
  }

  // ---------- A full buffer without an end of the headers ----------

  function Filler(n: nat): (s: string)
    ensures |s| == n && NUL !in s && forall i :: 0 <= i < n ==> s[i] == 'x'
  {
    seq(n, _ => 'x')
  }

  lemma FillerOverruns(n: nat)
    requires 0 < n
    ensures Overruns(Flat([Filler(n)]), [Filler(n)], n, n)
  {
    var s := Filler(n);
    assert Flat([s]) == s && s[..n] == s;
    forall j: nat | j + 4 <= n ensures !OccursAt(s, TERMINATOR, j) {
      assert s[j..j + 4][0] == 'x';
    }
  }

  /** A server that sends as many bytes as the response buffer holds, and no end of the headers in them: the search runs
      past the buffer, in a download and in a check. */
  lemma FullBufferCrashes()
    ensures Proper(Answer("/f", Zeros(TLS_BUFFER), [Data(Filler(4096))]))
    ensures Proper(Answer("/m", Zeros(TLS_BUFFER), [Data(Filler(512))]))
    ensures DownloadImage(FailAt(6), Fresh(), CLOSED, Answer("/f", Zeros(TLS_BUFFER), [Data(Filler(4096))])).2 == Crashed
    ensures CheckForUpdate(Fresh(), CLOSED, Answer("/m", Zeros(TLS_BUFFER), [Data(Filler(512))])).2 == Crashed
  {
    hide DownloadImage, CheckForUpdate, Requested, CheckRequested, Overruns, Flat, Request.Submitted, Connect, Filler;
    FillerOverruns(4096);
    FillerOverruns(512);
    OneResponse(Filler(4096));
    OneResponse(Filler(512));
    RequestGoesOut(Zeros(TLS_BUFFER), [Data(Filler(4096))]);
    RequestGoesOut(Zeros(TLS_BUFFER), [Data(Filler(512))]);
    ConnectStands();
    TextIs("/f", "/f");
    TextIs("/m", "/m");
    DownloadCrashesIff(FailAt(6), Fresh(), CLOSED, Answer("/f", Zeros(TLS_BUFFER), [Data(Filler(4096))]));
    CheckCrashesIff(Fresh(), CLOSED, Answer("/m", Zeros(TLS_BUFFER), [Data(Filler(512))]));
  }

  lemma ConnectStands()
    ensures Connect(CLOSED, SCRIPT).1 == Done
  {
  }

  // ---------- A header block in two chunks ----------

  ghost function TwoChunks(): seq<string> {
    var response := Written([STATUS, LENGTH], Zeros(33));
    [response[..10], response[10..]]
  }

  ghost function SplitAnswer(mem: string): Network {
    Answer("/f", mem, [Data(TwoChunks()[0]), Data(TwoChunks()[1])])
  }

  lemma TwoArrive()
    ensures |Written([STATUS, LENGTH], Zeros(33))| == 72
    ensures forall mem :: Arriving(SplitAnswer(mem).rx) == TwoChunks()
    ensures Flat(TwoChunks()) == Written([STATUS, LENGTH], Zeros(33))
    ensures Arrived(TwoChunks(), 39) == 72 && !CopiesRight(FIRMWARE, TwoChunks(), 39)
  {
    hide Written, Join;
    HeaderText33();
    WrittenLength([STATUS, LENGTH], Zeros(33));
    var a, b := TwoChunks()[0], TwoChunks()[1];
    TwoResponses(a, b);
    assert TwoChunks() == [a, b] && TwoChunks()[1..] == [b];
  }

  const ALL_OK := Env(_ => true, _ => 0, _ => [])

  lemma SplitIsServed(mem: string)
    requires |mem| == TLS_BUFFER
    ensures Proper(SplitAnswer(mem)) && Served(ALL_OK, Fresh(), CLOSED, SplitAnswer(mem), 35, 33)
    ensures Flat(Arriving(SplitAnswer(mem).rx)) == Written([STATUS, LENGTH], Zeros(33))
    ensures Written([STATUS, LENGTH], Zeros(33))[39..] == Zeros(33)
  {
    hide Written, Join, Announces, Judge, HeaderEnds, Requested, Iap.Inv, Arrived, Flat, CopiesRight, Request.Submitted;
    TwoArrive();
    Header33();
    HeaderText33();
    WrittenIsAccepted([STATUS, LENGTH], "OK", " ", 33, Zeros(33));
    FreshIsReady();
    assert SplitAnswer(mem).rx == [Data(TwoChunks()[0]), Data(TwoChunks()[1])];
    RequestGoesOut(mem, [Data(TwoChunks()[0]), Data(TwoChunks()[1])]);
  }

  lemma SplitHolds(mem: string)
    ensures SplitAnswer(mem).(mem := mem) == SplitAnswer(mem)
  {
  }

  /** A server whose header block comes in two chunks, the second with the image, and no failing call: for some old
      contents of the TLS buffer the device boots an image that nobody has sent. */
  lemma WrongImageIsBooted() returns (mem: string, wrong: string)
    ensures |mem| == TLS_BUFFER && Proper(SplitAnswer(mem)) && |wrong| == 33 && wrong != Zeros(33)
    ensures Installed(ALL_OK, Fresh().iap, DownloadImage(ALL_OK, Fresh(), CLOSED, SplitAnswer(mem)).1.iap, wrong)
  {
    hide Written, Installed, DownloadImage, Served, Arrived, Flat, CopiesRight, SplitAnswer, Fresh, TwoChunks, InstallsBody, Arriving;
    var stream := Written([STATUS, LENGTH], Zeros(33));
    TwoArrive();
    mem := Differing(TLS_BUFFER, stream, 71);
    SplitIsServed(mem);
    wrong := StaleByteIsInstalled(ALL_OK, Fresh(), CLOSED, SplitAnswer(mem), 35, 33, mem, stream, 71);
    SplitHolds(mem);
  }

  // ---------- A metadata body that fills the buffer ----------

  lemma FillerFaults(u: State)
    ensures ApplyMemory(u, Filler(512)) == u.(fault := true)
  {
    var s := Filler(512);
    TextOf(s);
    forall j: nat ensures !OccursAt(s, INTERVAL, j) {
      if OccursAt(s, INTERVAL, j) { CharOf(s, INTERVAL, j, 0); }
    }
    ReadIntIs(s, INTERVAL);
  }

  lemma FullRequest()
    ensures CheckRequested(Fresh(), CLOSED, FullAnswer())
  {
    hide CheckRequested, Written, Fresh;
    RequestGoesOut(Zeros(TLS_BUFFER), [Data(Written([STATUS, LengthOf(512)], [])), Data(Filler(512))]);
  }

  ghost function FullAnswer(): Network {
    Answer("/m", Zeros(TLS_BUFFER), [Data(Written([STATUS, LengthOf(512)], [])), Data(Filler(512))])
  }

  lemma ShortHead()
    ensures |LengthOf(512)| == 19
  {
    assert Decimal(5) == "5" && Decimal(51) == Decimal(5) + "1" && Decimal(512) == Decimal(51) + "2";
  }

  lemma TwoResponses(a: string, b: string)
    ensures Arriving([Data(a), Data(b)]) == [a, b] && Flat([a, b]) == a + b
    ensures a != [] ==> Arrived([a, b], |a|) == |a|
  {
    hide Arriving;
    ArrivingTwo(a, b);
    assert [a, b][1..] == [b] && [b][1..] == [];
    assert Flat([b]) == b;
  }

  lemma ArrivingTwo(a: string, b: string)
    ensures Arriving([Data(a), Data(b)]) == [a, b]
  {
    OneResponse(b);
    assert [Data(a), Data(b)][1..] == [Data(b)];
  }

  lemma FullArrives(head: string)
    requires head == Written([STATUS, LengthOf(512)], []) && |head| == 40
    ensures Arriving(FullAnswer().rx) == [head, Filler(512)] && Flat([head, Filler(512)]) == head + Filler(512)
    ensures Arrived([head, Filler(512)], 40) == 40 && Proper(FullAnswer())
    ensures head + Filler(512) == Written([STATUS, LengthOf(512)], Filler(512))
  {
    hide Join, LengthOf, Filler, Arriving, Flat, Arrived, Written, Proper;
    TwoResponses(head, Filler(512));
    WrittenSplit([STATUS, LengthOf(512)], Filler(512));
    FullIsProper(head);
  }

  lemma WrittenSplit(lines: seq<string>, body: string)
    ensures Written(lines, []) + body == Written(lines, body)
  {
  }

  lemma FullIsProper(head: string)
    requires head == Written([STATUS, LengthOf(512)], []) && |head| == 40
    ensures Proper(FullAnswer())
  {
    hide Written, LengthOf, Filler, Request.Submitted;
  }

  /** A server whose metadata are 512 bytes without a key: they are read past the end of the buffer. */
  lemma MetadataReadPastEnd()
    ensures Proper(FullAnswer())
    ensures CheckForUpdate(Fresh(), CLOSED, FullAnswer()).1 == Fresh().(fault := true)
  {
    hide CheckForUpdate, CheckRequested, Written, Join, Announces, Judge, HeaderEnds, Filler, Fresh, Request.Submitted, StaysInside, Decimal,
         ApplyMemory, FullAnswer, Flat, Arrived, LengthOf;
    var head := Written([STATUS, LengthOf(512)], []);
    ShortHead();
    HeaderOf(512);
    WrittenIsAccepted([STATUS, LengthOf(512)], "OK", " ", 512, Filler(512));
    WrittenLength([STATUS, LengthOf(512)], []);
    FullArrives(head);
    FillerFaults(Fresh());
    FullRequest();
    FullBodyFaultsIff(Fresh(), CLOSED, FullAnswer(), 36);
  }
}
