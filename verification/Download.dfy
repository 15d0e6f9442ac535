/** Whole downloads: connection, TLS loop, response processor, coordinator and programmer together. */
module Download {
  import opened Platform
  import opened CStrings
  import opened Tls
  import opened TlsProofs
  import opened Http
  import opened HttpPlan
  import opened HttpStream
  import opened HttpTrace
  import opened IapProofs
  import opened IapImage
  import opened Request
  import opened Updater
  import opened UpdaterProofs
  import Iap

  // ---------- From the network to the fragments ----------

  lemma FirmwareClientSuits(env: Env)
    ensures Suits(FirmwareClient(env), FIRMWARE, TLS_BUFFER)
  {
  }

  /** The plan of the data that arrives on a connection. */
  ghost function FirmwarePlan(net: Network): Plan
    requires Proper(net)
  {
    ArrivingFits(net.rx, TLS_BUFFER);
    PlanOf(FIRMWARE, Cleared(FIRMWARE), net.mem, Arriving(net.rx))
  }

  /** The request has gone out on a fresh, verified connection and reading has started. */
  ghost predicate Requested(u: State, l: Link, net: Network) {
    var (l1, status) := Connect(l, net.script);
    status == Done && Text(u.firmwarePath) != [] && net.alloc == Granted &&
    WriteLoop(l1.wire, Submitted(u.host, Text(u.firmwarePath), net.surplus), net.tx).2 == Done
  }

  lemma ReadingExecutesPlan(env: Env, net: Network, u: State)
    requires Proper(net)
    ensures var (s, status) := ReadLoop(AsCallback(FirmwareClient(env), FIRMWARE), net.mem, net.rx, 0, (net.before, u));
      (s.1, status) == Executed(env, u, net)
  {
    FirmwareClientSuits(env);
    ReadLoopDelivers(AsCallback(FirmwareClient(env), FIRMWARE), net.mem, net.rx, 0, (net.before, u));
    ProcessorExecutesPlan(FirmwareClient(env), FIRMWARE, net.before, net.mem, Arriving(net.rx), u);
  }

  lemma SendRequestReads<S>(cb: Callback<S>, l: Link, request: string, mem: string, tx: seq<WriteResult>, rx: seq<ReadResult>, s: S)
    requires Legal(rx, |mem|) && request != []
    ensures var (_, s', status) := SendRequest(cb, l, request, mem, tx, rx, s);
      if l.valid && WriteLoop(l.wire, request, tx).2 == Done then (s', status) == ReadLoop(cb, mem, rx, 0, s) else s' == s
  {
    assert WriteLoop(l.wire, request, [WriteFailed]).2 == Error;
  }

  /** The result of a request that has gone out. */
  ghost function Executed(env: Env, u: State, net: Network): (State, Status)
    requires Proper(net)
  {
    var (u', verdict) := Execute(FirmwareClient(env), FirmwarePlan(net), u);
    (u', match verdict case Continue => Ending(net.rx) case Stop => Done case Fault => Crashed)
  }

  /** A request that has gone out reads; any other changes nothing. */
  lemma SendReads<C>(client: Client<C>, cfg: Config, host: string, path: string, l: Link, net: Network, c: C)
    requires Proper(net)
    ensures var (_, c', status) := Send(client, cfg, host, path, l, net, c);
      if path != [] && net.alloc == Granted && l.valid && WriteLoop(l.wire, Submitted(host, path, net.surplus), net.tx).2 == Done
      then var (s, read) := ReadLoop(AsCallback(client, cfg), net.mem, net.rx, 0, (net.before, c)); c' == s.1 && status == read
      else c' == c
  {
    hide ReadLoop, WriteLoop, AsCallback, SendRequest;
    var request := Submitted(host, path, net.surplus);
    SendRequestReads(AsCallback(client, cfg), l, request, net.mem, net.tx, net.rx, (net.before, c));
  }

  lemma SendExecutes(env: Env, u: State, l: Link, net: Network)
    requires Proper(net)
    ensures var path := Text(u.firmwarePath);
      var (_, u', status) := Send(FirmwareClient(env), FIRMWARE, u.host, path, l, net, u);
      if path != [] && net.alloc == Granted && l.valid && WriteLoop(l.wire, Submitted(u.host, path, net.surplus), net.tx).2 == Done
      then (u', status) == Executed(env, u, net)
      else u' == u
  {
    hide ReadLoop, WriteLoop, Executed, AsCallback, FirmwareClient, Text, Send, Submitted;
    SendReads(FirmwareClient(env), FIRMWARE, u.host, Text(u.firmwarePath), l, net, u);
    ReadingExecutesPlan(env, net, u);
  }

  /** A download executes the plan of the arriving data, if the request has gone out, and
      otherwise leaves the programmer alone; in particular nothing reaches it after a failed connect. */
  lemma DownloadExecutesPlan(env: Env, u: State, l: Link, net: Network)
    requires Proper(net)
    ensures var (_, u', status) := DownloadImage(env, u, l, net);
      if Requested(u, l, net) then (u', status) == Executed(env, u.(hasSession := false), net)
      else u'.(hasSession := u.hasSession) == u
  {
    var (l1, status) := Connect(l, net.script);
    assert status in {Done, Error, Blocked} && (status == Error ==> !l1.valid);
    if status != Blocked {
      SendExecutes(env, u.(hasSession := false), l1, net);
    }
  }

  // ---------- From the fragments to the flash ----------

  lemma PlanFits(net: Network)
    requires Proper(net)
    ensures FirmwarePlan(net).Streamed? ==> Fits(FirmwarePlan(net).fragments, 4096)
    ensures !FirmwarePlan(net).Whole?
  {
    ArrivingFits(net.rx, TLS_BUFFER);
    PlanFragmentsFit(FIRMWARE, Cleared(FIRMWARE), net.mem, Arriving(net.rx));
  }

  /** What became of a download: no session was opened and the programmer is as it was, or as a failed begin
      left it; or the fragments `sent` were given to a new session. */
  datatype Outcome = Untouched | NotOpened | Updated(sent: seq<string>, contentLength: nat, fate: Fate)

  ghost predicate Happened(env: Env, requested: bool, u: State, u': State, plan: Plan, outcome: Outcome)
    requires Iap.Inv(u.iap)
  {
    PreparedIsClosed(env, u.iap);
    var (s0, err) := Iap.Begin(env, Prepared(env, u.iap));
    BeginKeeps(env, Prepared(env, u.iap));
    match outcome
    case Untouched => !(requested && plan.Streamed? && plan.fragments != []) && u'.(hasSession := u.hasSession) == u
    case NotOpened => err != Iap.Ok && u'.(hasSession := u.hasSession) == u.(iap := s0)
    case Updated(sent, contentLength, fate) =>
      && err == Iap.Ok && sent != [] && plan.Streamed? && contentLength == plan.contentLength && sent <= plan.fragments
      && (fate == Running ==> sent == plan.fragments)
      && exists verdict :: Ends(env, s0, contentLength, sent, u.(hasSession := u'.hasSession), u', verdict, fate)
  }

  lemma DriveStarts(env: Env, contentLength: nat, frags: seq<string>, u: State)
    requires Iap.Inv(u.iap) && !u.hasSession && !u.iap.dev.fault && frags != [] && Fits(frags, 4096)
    ensures Iap.Inv(Prepared(env, u.iap))
    ensures var p := Prepared(env, u.iap);
      var (s0, err) := Iap.Begin(env, p);
      var u0 := u.(iap := s0, received := 0, hasSession := true);
      && (err != Iap.Ok ==> Drive(FirmwareClient(env), contentLength, frags, 0, u) == (u.(iap := s0), Stop))
      && (err == Iap.Ok ==>
            Uploading(env, u0, s0, p.dev.ops, []) &&
            Drive(FirmwareClient(env), contentLength, frags, 0, u) == Drive(FirmwareClient(env), contentLength, frags, 0, u0))
  {
    UploadingStart(env, u, frags[0]);
  }

  lemma StreamHappens(env: Env, u: State, plan: Plan, u0: State, u': State, verdict: Verdict) returns (outcome: Outcome)
    requires Iap.Inv(u.iap) && !u.iap.dev.fault && u0 == u.(hasSession := false)
    requires plan.Streamed? && plan.fragments != [] && Fits(plan.fragments, 4096)
    requires (u', verdict) == Drive(FirmwareClient(env), plan.contentLength, plan.fragments, 0, u0)
    ensures Happened(env, true, u, u', plan, outcome)
  {
    DriveStarts(env, plan.contentLength, plan.fragments, u0);
    var p := Prepared(env, u0.iap);
    var (s0, err) := Iap.Begin(env, p);
    if err != Iap.Ok {
      outcome := NotOpened;
    } else {
      outcome := SessionHappens(env, u, plan, u.(iap := s0, received := 0, hasSession := true), s0, p.dev.ops, u', verdict);
    }
  }

  lemma SessionHappens(env: Env, u: State, plan: Plan, u1: State, s0: Iap.State, base: seq<FlashOp>, u': State, verdict: Verdict)
    returns (outcome: Outcome)
    requires Iap.Inv(u.iap) && plan.Streamed? && plan.fragments != [] && Fits(plan.fragments, 4096)
    requires (s0, Iap.Ok) == Iap.Begin(env, Prepared(env, u.iap)) && u1 == u.(iap := s0, received := 0, hasSession := true)
    requires Uploading(env, u1, s0, base, []) && (u', verdict) == Drive(FirmwareClient(env), plan.contentLength, plan.fragments, 0, u1)
    ensures Happened(env, true, u, u', plan, outcome)
  {
    hide Drive, Ends, Uploading, Updater.FirmwareBody, WriteAll, Iap.Begin, Prepared;
    var m, fate, all := DriveUploads(env, plan.contentLength, plan.fragments, 0, u1, s0, base, [], u', verdict);
    outcome := Updated(all, plan.contentLength, fate);
    UploadingInv(env, u1, s0, base, []);
    EndsForUpdate(env, s0, plan.contentLength, all, u, u1, u', verdict, fate);
    assert all == plan.fragments[..m];
    assert all == [] ==> fate == Running;
  }

  lemma EndsForUpdate(env: Env, s0: Iap.State, contentLength: nat, sent: seq<string>, u: State, u1: State, u': State, verdict: Verdict, fate: Fate)
    requires Iap.Inv(s0) && u1 == u.(iap := s0, received := 0, hasSession := true)
    requires Ends(env, s0, contentLength, sent, u1, u', verdict, fate)
    ensures Ends(env, s0, contentLength, sent, u.(hasSession := u'.hasSession), u', verdict, fate)
    ensures sent == [] ==> fate == Running
  {
  }

  lemma QuietPlan(env: Env, plan: Plan, u: State)
    requires !plan.Whole? && !(plan.Streamed? && plan.fragments != [])
    ensures Execute(FirmwareClient(env), plan, u).0 == u
  {
  }

  /** Every download, whatever the network, the flash and the heap do, has one of these outcomes. */
  lemma DownloadHappens(env: Env, u: State, l: Link, net: Network) returns (outcome: Outcome)
    requires Proper(net) && Iap.Inv(u.iap) && !u.iap.dev.fault
    ensures Happened(env, Requested(u, l, net), u, DownloadImage(env, u, l, net).1, FirmwarePlan(net), outcome)
  {
    hide DownloadImage, Drive, Requested, FirmwarePlan;
    var u0, plan := u.(hasSession := false), FirmwarePlan(net);
    var u' := DownloadImage(env, u, l, net).1;
    DownloadExecutesPlan(env, u, l, net);
    PlanFits(net);
    if Requested(u, l, net) && plan.Streamed? && plan.fragments != [] {
      outcome := StreamHappens(env, u, plan, u0, u', Execute(FirmwareClient(env), plan, u0).1);
    } else {
      outcome := Untouched;
      if Requested(u, l, net) { QuietPlan(env, plan, u0); }
    }
  }

  // ---------- What every download keeps ----------

  /** From `s` to `s'` nothing has gone wrong: no fault, and the image the device boots from is untouched. */
  ghost predicate Steady(s: Iap.State, s': Iap.State) {
    && Iap.Inv(s') && (s'.dev.fault ==> s.dev.fault)
    && s.dev.ops <= s'.dev.ops && Spares(s'.dev.ops[|s.dev.ops|..], s.dev.boot)
  }

  lemma SteadyChain(s: Iap.State, s1: Iap.State, s2: Iap.State)
    requires Steady(s, s1) && Steady(s1, s2) && s1.dev.boot == s.dev.boot
    ensures Steady(s, s2)
  {
    var a, b, c := s.dev.ops, s1.dev.ops, s2.dev.ops;
    assert c[|a|..] == b[|a|..] + c[|b|..];
  }

  lemma StepSteady(env: Env, s: Iap.State, op: Iap.Op)
    requires Iap.Inv(s) && (op.OpWrite? ==> !Iap.Hollow(s))
    ensures Steady(s, Iap.Step(env, s, op).0)
    ensures !Iap.Hollow(s) && op.OpWrite? ==> !Iap.Hollow(Iap.Step(env, s, op).0)
    ensures op != Iap.OpCommit ==> Iap.Step(env, s, op).0.dev.boot == s.dev.boot
  {
    StepKeeps(env, s, op);
  }

  lemma {:induction false} WriteAllSteady(env: Env, s: Iap.State, ws: seq<string>)
    requires Iap.Inv(s) && !Iap.Hollow(s)
    ensures Steady(s, WriteAll(env, s, ws).0) && WriteAll(env, s, ws).0.dev.boot == s.dev.boot
    decreases |ws|
  {
    if ws != [] {
      var (s1, err) := Iap.Write(env, s, ws[0]);
      StepSteady(env, s, Iap.OpWrite(ws[0]));
      if err == Iap.Ok {
        WriteAllSteady(env, s1, ws[1..]);
        SteadyChain(s, s1, WriteAll(env, s1, ws[1..]).0);
      }
    }
  }

  lemma BeginSteady(env: Env, s: Iap.State)
    requires Iap.Inv(s)
    ensures Iap.Inv(Prepared(env, s))
    ensures var s0 := Iap.Begin(env, Prepared(env, s)).0;
      Steady(s, s0) && s0.dev.boot == s.dev.boot && !Iap.Hollow(s0)
  {
    PreparedIsClosed(env, s);
    var p := Prepared(env, s);
    StepSteady(env, p, Iap.OpBegin);
    SteadyChain(s, p, Iap.Begin(env, p).0);
    StepKeeps(env, p, Iap.OpBegin);
  }

  lemma EndSteady(env: Env, s0: Iap.State, sent: seq<string>, fate: Fate, s': Iap.State)
    requires Iap.Inv(s0) && !Iap.Hollow(s0)
    requires s' == match fate
      case Running => WriteAll(env, s0, sent).0
      case Committed => Iap.Commit(env, WriteAll(env, s0, sent).0).0
      case _ => Iap.Abort(env, WriteAll(env, s0, sent).0).0
    ensures Steady(s0, s') && (fate != Committed ==> s'.dev.boot == s0.dev.boot)
  {
    WriteAllSteady(env, s0, sent);
    var s := WriteAll(env, s0, sent).0;
    StepSteady(env, s, Iap.OpCommit);
    StepSteady(env, s, Iap.OpAbort);
    SteadyChain(s0, s, Iap.Commit(env, s).0);
    SteadyChain(s0, s, Iap.Abort(env, s).0);
  }

  /** No download uses the page buffer without an open session and a live buffer, frees it twice, or touches
      the image the device boots from, whatever state earlier downloads have left behind. */
  lemma DownloadIsSafe(env: Env, u: State, l: Link, net: Network)
    requires Proper(net) && Iap.Inv(u.iap) && !u.iap.dev.fault
    ensures Steady(u.iap, DownloadImage(env, u, l, net).1.iap)
  {
    hide DownloadImage, Iap.Begin, Prepared, WriteAll, Iap.Commit, Iap.Abort;
    var u' := DownloadImage(env, u, l, net).1;
    var outcome := DownloadHappens(env, u, l, net);
    BeginSteady(env, u.iap);
    if outcome.Updated? {
      var s0 := Iap.Begin(env, Prepared(env, u.iap)).0;
      EndSteady(env, s0, outcome.sent, outcome.fate, u'.iap);
      SteadyChain(u.iap, s0, u'.iap);
    }
  }

  lemma SteadyKeepsImage(env: Env, s: Iap.State, s': Iap.State)
    requires Steady(s, s')
    ensures Contents(env, s'.dev.ops, s.dev.boot) == Contents(env, s.dev.ops, s.dev.boot)
  {
    var more := s'.dev.ops[|s.dev.ops|..];
    SparedContents(env, s.dev.ops, more, s.dev.boot);
    assert s'.dev.ops == s.dev.ops + more;
  }

  /** A write of the session finds it open, with a live buffer, so that it can only fail in the flash. */
  ghost predicate MeetsSession(env: Env, s: Iap.State, bytes: string) {
    |s.pending| <= Iap.PAGE && s.initialized && s.open && Iap.BufferLive(s) && Iap.Write(env, s, bytes).1 in {Iap.Ok, Iap.WriteFailed}
  }

  lemma WritesMeetSession(env: Env, s: Iap.State, sent: seq<string>, k: nat)
    requires Iap.Inv(s) && Iap.Begin(env, s).1 == Iap.Ok && k < |sent|
    ensures Iap.Inv(Iap.Begin(env, s).0)
    ensures var (s', ok) := WriteAll(env, Iap.Begin(env, s).0, sent[..k]); ok ==> MeetsSession(env, s', sent[k])
  {
    BeginAccepts(env, s);
    var s0 := Iap.Begin(env, s).0;
    var (s', ok) := WriteAll(env, s0, sent[..k]);
    if ok {
      WritesProgram(env, s0, sent[..k], s.dev.ops, []);
      var data := [] + Flat(sent[..k]);
      var _, _ := FillAccepts(env, s', sent[k], s.dev.ops, Pages(data), data);
    }
  }

  /** No write of a download is made without an open session and a live buffer: the writes are those of the fragments
      `sent`, up to the first that fails. */
  lemma DownloadWritesInSession(env: Env, u: State, l: Link, net: Network) returns (outcome: Outcome)
    requires Proper(net) && Iap.Inv(u.iap) && !u.iap.dev.fault
    ensures Happened(env, Requested(u, l, net), u, DownloadImage(env, u, l, net).1, FirmwarePlan(net), outcome)
    ensures Iap.Inv(Prepared(env, u.iap)) && Iap.Inv(Iap.Begin(env, Prepared(env, u.iap)).0)
    ensures outcome.Updated? ==> forall k :: 0 <= k < |outcome.sent| ==>
      var (s, ok) := WriteAll(env, Iap.Begin(env, Prepared(env, u.iap)).0, outcome.sent[..k]);
      ok ==> MeetsSession(env, s, outcome.sent[k])
  {
    hide DownloadImage, FirmwarePlan, Requested, Prepared, WriteAll, MeetsSession, Iap.Begin;
    outcome := DownloadHappens(env, u, l, net);
    PreparedIsClosed(env, u.iap);
    BeginKeeps(env, Prepared(env, u.iap));
    if outcome.Updated? {
      forall k | 0 <= k < |outcome.sent|
        ensures var (s, ok) := WriteAll(env, Iap.Begin(env, Prepared(env, u.iap)).0, outcome.sent[..k]);
          ok ==> MeetsSession(env, s, outcome.sent[k])
      {
        WritesMeetSession(env, Prepared(env, u.iap), outcome.sent, k);
      }
    }
  }

  // ---------- Activation ----------

  /** What a successful commit of the session of an upload has done to the flash. */
  lemma CommittedUpload(env: Env, p: Iap.State, sent: seq<string>)
    requires Iap.Inv(p) && Upload(env, p, sent).1 && Iap.Commit(env, Upload(env, p, sent).0).1 == Iap.Ok
    ensures var ready := Upload(env, p, sent).0;
      var d, t := Iap.Commit(env, ready).0.dev, Iap.Next(p.dev.boot);
      && Some(d.boot) == t
      && d.ops == p.dev.ops + Session(d.boot, if FlushSucceeds(env, ready) then Image(Flat(sent)) else Pages(Flat(sent)))
      && (Flat(Contents(env, d.ops, d.boot)) == Flat(sent) <==> FlushSucceeds(env, ready))
  {
    BeginAccepts(env, p);
    var s0 := Iap.Begin(env, p).0;
    WritesProgram(env, s0, sent, p.dev.ops, []);
    assert [] + Flat(sent) == Flat(sent);
    CommitActivates(env, WriteAll(env, s0, sent).0, p.dev.ops, Flat(sent));
  }

  /** The download has been one update with the fragments `sent`, and has ended in a commit. */
  ghost predicate CommittedWith(env: Env, u: State, u': State, plan: Plan, sent: seq<string>)
    requires Iap.Inv(u.iap)
  {
    PreparedIsClosed(env, u.iap);
    var p := Prepared(env, u.iap);
    && plan.Streamed? && sent <= plan.fragments && Reaches(plan.contentLength, sent)
    && Upload(env, p, sent).1 && u'.iap == Iap.Commit(env, Upload(env, p, sent).0).0
    && u'.newFirmware && u'.restarted == (u.restarted || u.autoReboot) && !u'.hasSession
  }

  lemma UpdatedIsCommitted(env: Env, requested: bool, u: State, u': State, plan: Plan, outcome: Outcome)
    requires Iap.Inv(u.iap) && Happened(env, requested, u, u', plan, outcome)
    requires outcome.Updated? && outcome.fate == Committed
    ensures CommittedWith(env, u, u', plan, outcome.sent)
  {
    hide Iap.Begin, Iap.Commit, Iap.Abort, WriteAll, Flat, ToInt32, Reaches, Prepared, Iap.Inv;
    PreparedIsClosed(env, u.iap);
  }

  /** The boot partition moves, or new firmware is reported, only by such a commit. */
  lemma MovedIsCommitted(env: Env, requested: bool, u: State, u': State, plan: Plan, outcome: Outcome)
    requires Iap.Inv(u.iap) && Happened(env, requested, u, u', plan, outcome)
    requires u'.iap.dev.boot != u.iap.dev.boot || (u'.newFirmware && !u.newFirmware)
    ensures outcome.Updated? && CommittedWith(env, u, u', plan, outcome.sent)
  {
    hide Iap.Begin, Iap.Commit, Iap.Abort, WriteAll, Flat, ToInt32, Reaches, Prepared, Iap.Inv, Iap.Hollow, Spares, CommittedWith;
    BeginSteady(env, u.iap);
    PreparedIsClosed(env, u.iap);
    assert outcome.Updated?;
    var s0 := Iap.Begin(env, Prepared(env, u.iap)).0;
    EndSteady(env, s0, outcome.sent, outcome.fate, u'.iap);
    UpdatedIsCommitted(env, requested, u, u', plan, outcome);
  }

  /** The boot partition changes in a download only if a new session was opened, every write of it returned
      OK, the delivered bytes reach Content-Length with the last fragment and not before, and the commit
      returned OK. The flash then holds a session with the delivered bytes, which are the activated image
      if and only if the final flush, whose result is dropped, succeeded. */
  lemma ActivationSafety(env: Env, u: State, l: Link, net: Network) returns (sent: seq<string>)
    requires Proper(net) && Iap.Inv(u.iap) && !u.iap.dev.fault
    requires DownloadImage(env, u, l, net).1.iap.dev.boot != u.iap.dev.boot
    ensures var plan := FirmwarePlan(net);
      plan.Streamed? && sent <= plan.fragments && Reaches(plan.contentLength, sent)
    ensures DownloadImage(env, u, l, net).1.newFirmware
    ensures Iap.Inv(Prepared(env, u.iap)) && Upload(env, Prepared(env, u.iap), sent).1
    ensures var p := Prepared(env, u.iap);
      var ready := Upload(env, p, sent).0;
      var d := DownloadImage(env, u, l, net).1.iap.dev;
      && Iap.Commit(env, ready).1 == Iap.Ok && Some(d.boot) == Iap.Next(u.iap.dev.boot)
      && d.ops == p.dev.ops + Session(d.boot, if FlushSucceeds(env, ready) then Image(Flat(sent)) else Pages(Flat(sent)))
      && (Flat(Contents(env, d.ops, d.boot)) == Flat(sent) <==> FlushSucceeds(env, ready))
  {
    hide DownloadImage, FirmwarePlan, Prepared, Iap.Commit, Contents, Flat, Requested, Reaches, FlushSucceeds, Session, Image, Pages,
         Upload, Iap.Inv, Happened;
    var p := Prepared(env, u.iap);
    var outcome := DownloadHappens(env, u, l, net);
    PreparedIsClosed(env, u.iap);
    MovedIsCommitted(env, Requested(u, l, net), u, DownloadImage(env, u, l, net).1, FirmwarePlan(net), outcome);
    sent := outcome.sent;
    CommitMoves(env, p, sent);
    CommittedUpload(env, p, sent);
  }

  /** When a download reports new firmware it has ended in a commit, of a session whose writes all succeeded. The
      device boots from another partition then if and only if that commit returned OK; a failed commit is reported
      as new firmware all the same, and leaves the session open without a buffer. In either case the device is
      restarted if it is configured to be. */
  lemma NewFirmwareIff(env: Env, u: State, l: Link, net: Network) returns (sent: seq<string>)
    requires Proper(net) && Iap.Inv(u.iap) && !u.iap.dev.fault && !u.newFirmware
    requires DownloadImage(env, u, l, net).1.newFirmware
    ensures FirmwarePlan(net).Streamed? && sent <= FirmwarePlan(net).fragments && Reaches(FirmwarePlan(net).contentLength, sent)
    ensures Iap.Inv(Prepared(env, u.iap)) && Upload(env, Prepared(env, u.iap), sent).1
    ensures var (s, err) := Iap.Commit(env, Upload(env, Prepared(env, u.iap), sent).0);
      && DownloadImage(env, u, l, net).1.iap == s
      && (s.dev.boot != u.iap.dev.boot <==> err == Iap.Ok)
      && (Iap.Hollow(s) <==> err != Iap.Ok)
    ensures var u' := DownloadImage(env, u, l, net).1; u'.restarted == (u.restarted || u.autoReboot) && !u'.hasSession
  {
    hide DownloadImage, FirmwarePlan, Prepared, Iap.Commit, Flat, Requested, Reaches, Upload, Iap.Inv, Happened, Iap.Hollow;
    var outcome := DownloadHappens(env, u, l, net);
    PreparedIsClosed(env, u.iap);
    MovedIsCommitted(env, Requested(u, l, net), u, DownloadImage(env, u, l, net).1, FirmwarePlan(net), outcome);
    sent := outcome.sent;
    CommitMoves(env, Prepared(env, u.iap), sent);
  }

  lemma CommitMoves(env: Env, p: Iap.State, sent: seq<string>)
    requires Iap.Inv(p) && !p.open && Upload(env, p, sent).1
    ensures var (s, err) := Iap.Commit(env, Upload(env, p, sent).0);
      (s.dev.boot != p.dev.boot <==> err == Iap.Ok) && (Iap.Hollow(s) <==> err != Iap.Ok)
  {
    hide Iap.Begin, Iap.Commit, WriteAll, Contents;
    BeginAccepts(env, p);
    BeginKeeps(env, p);
    var s0 := Iap.Begin(env, p).0;
    WritesProgram(env, s0, sent, p.dev.ops, []);
    var ready := WriteAll(env, s0, sent).0;
    StepKeeps(env, ready, Iap.OpCommit);
    CommitReturns(env, ready);
  }

  lemma CommitReturns(env: Env, s: Iap.State)
    requires Iap.Inv(s) && s.open
    ensures Iap.Commit(env, s).1 in {Iap.Ok, Iap.Fail}
    ensures Iap.Next(s.dev.boot) != Some(s.dev.boot)
  {
    FlushKeeps(env, s);
  }

  // ---------- End to end ----------

  /** No heap, flash or partition call fails from tick `t` on. */
  ghost predicate Flawless(env: Env, t: nat) {
    forall i :: i >= t ==> env.ok(i)
  }

  lemma {:induction false} FillFlawless(env: Env, s: Iap.State, bytes: string)
    requires Iap.Inv(s) && s.open && !Iap.Hollow(s) && Flawless(env, s.dev.tick)
    ensures var (s', err) := Iap.Fill(env, s, bytes);
      err == Iap.Ok && s'.dev.tick >= s.dev.tick && s'.open && !Iap.Hollow(s')
    decreases |bytes|, |s.pending|
  {
    if bytes != [] {
      var (s', _, n) := Iap.CopyOnce(env, s, bytes);
      FillFlawless(env, s', bytes[n..]);
    }
  }

  lemma {:induction false} WriteAllFlawless(env: Env, s: Iap.State, ws: seq<string>)
    requires Iap.Inv(s) && s.open && !Iap.Hollow(s) && Flawless(env, s.dev.tick)
    ensures var (s', ok) := WriteAll(env, s, ws); ok && s'.dev.tick >= s.dev.tick && s'.open
    decreases |ws|
  {
    if ws != [] {
      FillFlawless(env, s, ws[0]);
      StepKeeps(env, s, Iap.OpWrite(ws[0]));
      WriteAllFlawless(env, Iap.Write(env, s, ws[0]).0, ws[1..]);
    }
  }

  lemma BeginFlawless(env: Env, s: Iap.State)
    requires Iap.Inv(s) && s.initialized && s.dev.boot != Other && Flawless(env, s.dev.tick)
    ensures var p := Prepared(env, s); var (s0, err) := Iap.Begin(env, p);
      && err == Iap.Ok && s0.open && !Iap.Hollow(s0) && s0.dev.tick >= s.dev.tick
      && p.dev.ops == s.dev.ops + if s.open then [Ended(s.target.value)] else []
  {
  }

  lemma CommitFlawless(env: Env, s: Iap.State)
    requires Iap.Inv(s) && s.open && !Iap.Hollow(s) && Flawless(env, s.dev.tick)
    ensures Iap.Commit(env, s).1 == Iap.Ok && FlushSucceeds(env, s)
  {
  }

  /** The data that arrives is a response with status 200 and Content-Length `n`, a header block and then exactly `n`
      body bytes, cut anyhow, as far as the chunk with the end of the header block fits the response buffer. */
  ghost predicate GoodResponse(net: Network, e: nat, n: nat)
    requires Proper(net)
  {
    var chunks := Arriving(net.rx);
    && chunks != [] && HeaderEnds(Flat(chunks), e) && Arrived(chunks, e + 4) <= FIRMWARE.capacity
    && Judge(Flat(chunks)[..e]) == Accept(n) && |Flat(chunks)| == e + 4 + n
  }

  lemma GoodPlan(net: Network, e: nat, n: nat)
    requires Proper(net) && GoodResponse(net, e, n) && CopiesRight(FIRMWARE, Arriving(net.rx), e + 4)
    ensures var body, plan := Flat(Arriving(net.rx))[e + 4..], FirmwarePlan(net);
      plan.Streamed? && plan.contentLength == n == |body| && Flat(plan.fragments) == body
  {
    hide Judge, HeaderEnds, Arrived, CopiesRight, PlanOf, Cut, Flat, Arriving;
    var chunks := Arriving(net.rx);
    ArrivingFits(net.rx, TLS_BUFFER);
    StreamingIsChunkingIndependent(FIRMWARE, net.mem, chunks, e);
    CutDropsPrefix(chunks, e + 4);
  }

  lemma FlatNothing()
    ensures Flat([]) == []
  {
  }

  /** Of the possible outcomes only a commit of the whole body is left. */
  lemma OnlyCommitted(env: Env, u: State, u': State, plan: Plan, n: nat, outcome: Outcome)
    requires Iap.Inv(u.iap) && u.iap.initialized && u.iap.dev.boot != Other && Flawless(env, u.iap.dev.tick)
    requires Happened(env, true, u, u', plan, outcome)
    requires plan.Streamed? && plan.contentLength == n == |Flat(plan.fragments)| && 0 < n < 0x8000_0000
    ensures outcome.Updated? && outcome.fate == Committed && Flat(outcome.sent) == Flat(plan.fragments)
  {
    hide Iap.Begin, Prepared, WriteAll, Iap.Commit, Iap.Abort, Contents, Flat;
    BeginFlawless(env, u.iap);
    BeginSteady(env, u.iap);
    assert plan.fragments != [] by { FlatNothing(); }
    assert outcome.Updated?;
    var s0, sent := Iap.Begin(env, Prepared(env, u.iap)).0, outcome.sent;
    WriteAllFlawless(env, s0, sent);
    var rest := plan.fragments[|sent|..];
    assert plan.fragments == sent + rest;
    FlatAppend(sent, rest);
  }

  /** From `s` to `s'` the flash has seen one update session with the image `body`, and boots from it now;
      a session that was open before has been ended first. */
  ghost predicate Installed(env: Env, s: Iap.State, s': Iap.State, body: string) {
    && Iap.Next(s.dev.boot) == Some(s'.dev.boot) && s'.dev.boot != s.dev.boot
    && s'.dev.ops == s.dev.ops + (if s.open && s.target.Some? then [Ended(s.target.value)] else [])
                               + Session(s'.dev.boot, Image(body))
    && Flat(Contents(env, s'.dev.ops, s'.dev.boot)) == body
  }

  lemma UpdatedFlash(env: Env, u: State, s': Iap.State, sent: seq<string>, body: string)
    requires Iap.Inv(u.iap) && u.iap.initialized && u.iap.dev.boot != Other && Flawless(env, u.iap.dev.tick)
    requires Iap.Inv(Prepared(env, u.iap)) && Flat(sent) == body
    requires Upload(env, Prepared(env, u.iap), sent).1 && s' == Iap.Commit(env, Upload(env, Prepared(env, u.iap), sent).0).0
    ensures Installed(env, u.iap, s', body)
  {
    var p := Prepared(env, u.iap);
    BeginFlawless(env, u.iap);
    BeginSteady(env, u.iap);
    PreparedIsClosed(env, u.iap);
    var s0 := Iap.Begin(env, p).0;
    WriteAllFlawless(env, s0, sent);
    WriteAllSteady(env, s0, sent);
    var ready := WriteAll(env, s0, sent).0;
    ReadyToCommit(env, s0, sent);
    CommitFlawless(env, ready);
    CommittedUpload(env, p, sent);
  }

  lemma {:induction false} ReadyToCommit(env: Env, s: Iap.State, ws: seq<string>)
    requires Iap.Inv(s) && s.open && !Iap.Hollow(s) && WriteAll(env, s, ws).1
    ensures !Iap.Hollow(WriteAll(env, s, ws).0) && WriteAll(env, s, ws).0.open
    decreases |ws|
  {
    if ws != [] {
      StepKeeps(env, s, Iap.OpWrite(ws[0]));
      var more := FillKeeps(env, s, ws[0]);
      ReadyToCommit(env, Iap.Write(env, s, ws[0]).0, ws[1..]);
    }
  }

  /** A plan with as many bytes as announced is installed. */
  lemma DownloadInstallsPlan(env: Env, u: State, l: Link, net: Network)
    requires Proper(net) && Iap.Inv(u.iap) && !u.iap.dev.fault && u.iap.initialized && u.iap.dev.boot != Other
    requires Flawless(env, u.iap.dev.tick) && Requested(u, l, net)
    requires var plan := FirmwarePlan(net); plan.Streamed? && 0 < plan.contentLength == |Flat(plan.fragments)| < 0x8000_0000
    ensures var u' := DownloadImage(env, u, l, net).1;
      Installed(env, u.iap, u'.iap, Flat(FirmwarePlan(net).fragments)) && u'.newFirmware
  {
    hide DownloadImage, FirmwarePlan, Requested, Iap.Begin, Prepared, WriteAll, Flat, Contents, Installed, Flawless;
    var u', plan := DownloadImage(env, u, l, net).1, FirmwarePlan(net);
    var outcome := DownloadHappens(env, u, l, net);
    OnlyCommitted(env, u, u', plan, plan.contentLength, outcome);
    BeginSteady(env, u.iap);
    UpdatedFlash(env, u, u'.iap, outcome.sent, Flat(plan.fragments));
  }

  /** End to end: if the request goes out, a good response arrives, what came with the end of its header block is copied
      from the right place, and no heap, flash or partition call fails, then the download writes exactly the body to
      the next OTA partition, page by page and in order, and switches the boot partition to it once, as its last
      flash operation. A session left open by an earlier download is ended first. */
  lemma DownloadInstallsBody(env: Env, u: State, l: Link, net: Network, e: nat, n: nat)
    requires Proper(net) && Iap.Inv(u.iap) && !u.iap.dev.fault && u.iap.initialized && u.iap.dev.boot != Other
    requires Flawless(env, u.iap.dev.tick)
    requires Requested(u, l, net) && GoodResponse(net, e, n) && 0 < n < 0x8000_0000
    requires CopiesRight(FIRMWARE, Arriving(net.rx), e + 4)
    ensures var u' := DownloadImage(env, u, l, net).1;
      Installed(env, u.iap, u'.iap, Flat(Arriving(net.rx))[e + 4..]) && u'.newFirmware
  {
    hide DownloadImage, FirmwarePlan, Requested, Installed, Flawless, Flat, CopiesRight, HeaderEnds, Judge, Arrived;
    GoodPlan(net, e, n);
    DownloadInstallsPlan(env, u, l, net);
  }
}
