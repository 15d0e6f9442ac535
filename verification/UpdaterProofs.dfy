/** The coordinator's firmware callback, driven by any fragments and any failures, makes exactly the IAP
    calls of one update: begin, one write a fragment, commit. */
module UpdaterProofs {
  import opened Platform
  import opened Tls
  import opened Http
  import opened HttpPlan
  import opened HttpTrace
  import opened HttpCount
  import opened IapProofs
  import opened IapImage
  import opened Updater
  import Iap

  /** `s` without the session that an interrupted download has left open. */
  ghost function Prepared(env: Env, s: Iap.State): Iap.State {
    if s.open then Iap.Abort(env, s).0 else s
  }

  lemma PreparedIsClosed(env: Env, s: Iap.State)
    requires Iap.Inv(s)
    ensures var p := Prepared(env, s);
      && Iap.Inv(p) && !p.open && p.initialized == s.initialized && p.dev.boot == s.dev.boot
      && p.dev.fault == s.dev.fault && s.dev.tick <= p.dev.tick
      && s.dev.ops <= p.dev.ops && Spares(p.dev.ops[|s.dev.ops|..], s.dev.boot)
  {
    if s.open { FinishKeeps(env, s, false); }
  }

  /** In recovery the abort always closes the open session, so that the second begin cannot find one. */
  lemma RecoveryOpensSession(env: Env, u: State)
    requires Iap.Inv(u.iap) && !u.hasSession
    ensures var (s, err) := Iap.Begin(env, Prepared(env, u.iap));
      && err != Iap.SessionAlreadyOpen
      && OpenSession(env, u) == (if err == Iap.Ok then u.(iap := s, received := 0, hasSession := true) else u.(iap := s), err == Iap.Ok)
  {
    PreparedIsClosed(env, u.iap);
  }

  // ---------- One call of the callback ----------

  lemma ToInt32Adds(a: int, b: int)
    ensures ToInt32(ToInt32(a) + b) == ToInt32(a + b)
  {
  }

  lemma {:induction false} WriteAllKeeps(env: Env, s: Iap.State, ws: seq<string>)
    requires Iap.Inv(s)
    ensures Iap.Inv(WriteAll(env, s, ws).0)
    decreases |ws|
  {
    if ws != [] {
      StepKeeps(env, s, Iap.OpWrite(ws[0]));
      if Iap.Write(env, s, ws[0]).1 == Iap.Ok { WriteAllKeeps(env, Iap.Write(env, s, ws[0]).0, ws[1..]); }
    }
  }

  lemma {:induction false} WriteAllAppend(env: Env, s: Iap.State, ws: seq<string>, w: string)
    requires Iap.Inv(s) && WriteAll(env, s, ws).1
    ensures Iap.Inv(WriteAll(env, s, ws).0)
    ensures var s' := WriteAll(env, s, ws).0;
      WriteAll(env, s, ws + [w]) == (Iap.Write(env, s', w).0, Iap.Write(env, s', w).1 == Iap.Ok)
    decreases |ws|
  {
    WriteAllKeeps(env, s, ws);
    if ws == [] {
      assert [] + [w] == [w];
    } else {
      StepKeeps(env, s, Iap.OpWrite(ws[0]));
      WriteAllAppend(env, Iap.Write(env, s, ws[0]).0, ws[1..], w);
      assert (ws + [w])[1..] == ws[1..] + [w];
    }
  }

  /** The session `u` is in has accepted the fragments `sent` since it was opened in the state `s0`. */
  ghost predicate Uploading(env: Env, u: State, s0: Iap.State, base: seq<FlashOp>, sent: seq<string>) {
    && Programmed(env, s0, base, []) && !s0.dev.fault && Iap.Inv(u.iap)
    && u.hasSession && WriteAll(env, s0, sent) == (u.iap, true)
    && u.received == ToInt32(|Flat(sent)|)
  }

  lemma UploadingIs(env: Env, u: State, s0: Iap.State, base: seq<FlashOp>, sent: seq<string>)
    requires Uploading(env, u, s0, base, sent)
    ensures Programmed(env, u.iap, base, Flat(sent)) && u.iap.target == s0.target && u.iap.dev.boot == s0.dev.boot && !u.iap.dev.fault
    ensures u.iap.open && Iap.BufferLive(u.iap)
  {
    WritesProgram(env, s0, sent, base, []);
    assert [] + Flat(sent) == Flat(sent);
  }

  /** A fragment is written to an open session with a live buffer; the upload goes on if the write returns
      OK and is aborted otherwise. */
  lemma FragmentUploads(env: Env, u: State, s0: Iap.State, base: seq<FlashOp>, sent: seq<string>, f: string)
    requires Uploading(env, u, s0, base, sent) && 0 < |f| < 0x1_0000
    ensures var s' := WriteAll(env, s0, sent + [f]).0; var r := FirmwareBody(env, u, f);
      && (r.more <==> WriteAll(env, s0, sent + [f]).1)
      && (r.more ==> Uploading(env, r.c, s0, base, sent + [f]))
      && (!r.more ==> Iap.Inv(s') && r.c.iap == Iap.Abort(env, s').0)
      && r.c == u.(iap := r.c.iap, received := ToInt32(|Flat(sent + [f])|))
  {
    UploadingIs(env, u, s0, base, sent);
    WriteAllAppend(env, s0, sent, f);
    WriteAllKeeps(env, s0, sent + [f]);
    ToInt32Adds(|Flat(sent)|, |f|);
    FlatAppend(sent, [f]);
    assert Flat([f]) == f;
    assert f[..|f| % 0x1_0000] == f;
  }

  /** The empty fragment commits what has been sent, unless the byte count, an int, is not positive. */
  lemma EndCommits(env: Env, u: State, s0: Iap.State, base: seq<FlashOp>, sent: seq<string>)
    requires Uploading(env, u, s0, base, sent)
    ensures FirmwareBody(env, u, []) == Reply(
      if ToInt32(|Flat(sent)|) > 0 then
        u.(iap := Iap.Commit(env, u.iap).0, hasSession := false, newFirmware := true, restarted := u.restarted || u.autoReboot)
      else u.(iap := Iap.Abort(env, u.iap).0, hasSession := false), false)
  {
  }

  lemma UploadingStart(env: Env, u: State, f: string)
    requires Iap.Inv(u.iap) && !u.hasSession && !u.iap.dev.fault && 0 < |f| < 0x1_0000
    ensures Iap.Inv(Prepared(env, u.iap))
    ensures var p := Prepared(env, u.iap);
      var (s0, err) := Iap.Begin(env, p);
      var r := FirmwareBody(env, u, f);
      && (err != Iap.Ok ==> r == Reply(u.(iap := s0), false))
      && (err == Iap.Ok ==>
            var u0 := u.(iap := s0, received := 0, hasSession := true);
            Uploading(env, u0, s0, p.dev.ops, []) && r == FirmwareBody(env, u0, f) &&
            s0.target == Iap.Next(u.iap.dev.boot) && s0.dev.boot == u.iap.dev.boot)
  {
    var p := Prepared(env, u.iap);
    PreparedIsClosed(env, u.iap);
    RecoveryOpensSession(env, u);
    if Iap.Begin(env, p).1 == Iap.Ok {
      BeginAccepts(env, p);
    }
  }

  // ---------- A whole download ----------

  /** How the delivery of fragments ends for an update session. */
  datatype Fate = Running | WriteError | Committed | Discarded

  /** Content-Length is reached with the last of the fragments `sent`, counting in a size_t. */
  ghost predicate Reaches(contentLength: nat, sent: seq<string>) {
    && sent != [] && |Flat(sent)| % WORD >= contentLength
    && (|sent| > 1 ==> |Flat(sent[..|sent| - 1])| % WORD < contentLength)
  }

  /** The session opened in `s0` has been given the fragments `sent`, and then ended in this way. */
  ghost predicate Ends(env: Env, s0: Iap.State, contentLength: nat, sent: seq<string>, u: State, u': State, verdict: Verdict, fate: Fate)
    requires Iap.Inv(s0)
  {
    var (s, ok) := WriteAll(env, s0, sent);
    && u' == u.(iap := u'.iap, received := ToInt32(|Flat(sent)|), hasSession := fate in {Running, WriteError},
                newFirmware := u.newFirmware || fate == Committed, restarted := u.restarted || (fate == Committed && u.autoReboot))
    && (ok <==> fate != WriteError) && (verdict == Continue <==> fate == Running) && verdict != Fault
    && (fate in {Committed, Discarded} ==>
          Reaches(contentLength, sent) && (fate == Committed <==> ToInt32(|Flat(sent)|) > 0))
    && (fate == Running && sent != [] ==> |Flat(sent)| % WORD < contentLength)
    && u'.iap == match fate
      case Running => s
      case Committed => Iap.Commit(env, s).0
      case _ => Iap.Abort(env, s).0
  }

  /** The branch for an empty image is never taken for an empty image, only when the int byte count has
      overflowed. */
  lemma DiscardedOnlyByOverflow(env: Env, s0: Iap.State, contentLength: nat, sent: seq<string>, u: State, u': State, verdict: Verdict)
    requires Iap.Inv(s0) && Fits(sent, 0xFFFF) && Ends(env, s0, contentLength, sent, u, u', verdict, Discarded)
    ensures |Flat(sent)| >= 0x8000_0000
  {
    hide WriteAll, Iap.Abort, Iap.Inv;
    assert sent != [] && Flat(sent) == sent[0] + Flat(sent[1..]);
  }

  function LastFate(r: Reply<State>, sent: seq<string>): Fate {
    if !r.more then WriteError else if ToInt32(|Flat(sent)|) > 0 then Committed else Discarded
  }

  lemma EndEnds(env: Env, contentLength: nat, u: State, s0: Iap.State, base: seq<FlashOp>, sent: seq<string>, u1: State, u': State)
    requires Uploading(env, u1, s0, base, sent) && Iap.Inv(u1.iap) && Reaches(contentLength, sent)
    requires u1 == u.(iap := u1.iap, received := u1.received) && u' == FirmwareBody(env, u1, []).c
    ensures Ends(env, s0, contentLength, sent, u, u', Stop, if ToInt32(|Flat(sent)|) > 0 then Committed else Discarded)
  {
    EndCommits(env, u1, s0, base, sent);
  }

  /** One fragment: the upload goes on, or the download has ended in the state `u'`. */
  lemma FragmentEnds(env: Env, contentLength: nat, u: State, s0: Iap.State, base: seq<FlashOp>, sent: seq<string>, f: string,
                     sent': seq<string>, r: Reply<State>, u': State)
    requires Uploading(env, u, s0, base, sent) && 0 < |f| < 0x1_0000 && Iap.Inv(u.iap)
    requires sent != [] ==> |Flat(sent)| % WORD < contentLength
    requires sent' == sent + [f] && r == FirmwareBody(env, u, f)
    ensures r.more ==> Uploading(env, r.c, s0, base, sent') && r.c == u.(iap := r.c.iap, received := r.c.received)
    ensures !r.more && u' == r.c ==> Ends(env, s0, contentLength, sent', u, u', Stop, LastFate(r, sent'))
    ensures r.more && |Flat(sent')| % WORD >= contentLength && u' == FirmwareBody(env, r.c, []).c ==>
              Ends(env, s0, contentLength, sent', u, u', Stop, LastFate(r, sent'))
  {
    hide Updater.FirmwareBody, Uploading, Flat, ToInt32, WriteAll, Iap.Abort, Iap.Commit;
    UploadingInv(env, u, s0, base, sent);
    FragmentUploads(env, u, s0, base, sent, f);
    assert sent'[..|sent'| - 1] == sent;
    if r.more { UploadingInv(env, r.c, s0, base, sent'); }
    if r.more && |Flat(sent')| % WORD >= contentLength {
      EndEnds(env, contentLength, u, s0, base, sent', r.c, FirmwareBody(env, r.c, []).c);
    }
  }

  lemma DriveOne(env: Env, contentLength: nat, frags: seq<string>, total: nat, u: State)
    requires frags != [] && Iap.Inv(u.iap) && (FirmwareBody(env, u, frags[0]).more ==> Iap.Inv(FirmwareBody(env, u, frags[0]).c.iap))
    ensures var r := FirmwareBody(env, u, frags[0]);
      var total' := (total + |frags[0]|) % WORD;
      Drive(FirmwareClient(env), contentLength, frags, total, u) ==
        if !r.more then (r.c, Stop)
        else if total' >= contentLength then (FirmwareBody(env, r.c, []).c, Stop)
        else Drive(FirmwareClient(env), contentLength, frags[1..], total', r.c)
  {
  }

  lemma EndsFrom(env: Env, s0: Iap.State, contentLength: nat, sent: seq<string>, u: State, u1: State, u': State, verdict: Verdict, fate: Fate)
    requires Iap.Inv(s0) && u1 == u.(iap := u1.iap, received := u1.received)
    requires Ends(env, s0, contentLength, sent, u1, u', verdict, fate)
    ensures Ends(env, s0, contentLength, sent, u, u', verdict, fate)
  {
  }

  lemma UploadingInv(env: Env, u: State, s0: Iap.State, base: seq<FlashOp>, sent: seq<string>)
    requires Uploading(env, u, s0, base, sent)
    ensures Iap.Inv(u.iap) && Iap.Inv(s0) && |u.iap.pending| <= Iap.PAGE && u.hasSession
  {
  }

  lemma DriveNothing(env: Env, contentLength: nat, total: nat, u: State, s0: Iap.State, base: seq<FlashOp>, sent: seq<string>)
    requires Uploading(env, u, s0, base, sent) && total == |Flat(sent)| % WORD && (sent != [] ==> total < contentLength)
    ensures Drive(FirmwareClient(env), contentLength, [], total, u) == (u, Continue)
    ensures Ends(env, s0, contentLength, sent, u, u, Continue, Running)
  {
  }

  lemma AppendRest(sent: seq<string>, frags: seq<string>, n: nat)
    requires frags != [] && n < |frags|
    ensures (sent + [frags[0]]) + frags[1..][..n] == sent + frags[..n + 1]
  {
  }

  lemma {:induction false} DriveUploads(env: Env, contentLength: nat, frags: seq<string>, total: nat, u: State,
                                        s0: Iap.State, base: seq<FlashOp>, sent: seq<string>, u': State, verdict: Verdict)
    returns (m: nat, fate: Fate, all: seq<string>)
    requires Uploading(env, u, s0, base, sent) && Fits(frags, 0xFFFF) && total == |Flat(sent)| % WORD
    requires sent != [] ==> total < contentLength
    requires (u', verdict) == Drive(FirmwareClient(env), contentLength, frags, total, u)
    ensures m <= |frags| && (fate == Running ==> m == |frags|) && all == sent + frags[..m]
    ensures Ends(env, s0, contentLength, all, u, u', verdict, fate)
    decreases |frags|
  {
    hide Drive, Ends, Uploading, Updater.FirmwareBody, Flat, Iap.Inv;
    UploadingInv(env, u, s0, base, sent);
    if frags == [] {
      m, fate, all := 0, Running, sent;
      DriveNothing(env, contentLength, total, u, s0, base, sent);
    } else {
      var sent', r := sent + [frags[0]], FirmwareBody(env, u, frags[0]);
      OneMore(sent, frags[0], total);
      FragmentEnds(env, contentLength, u, s0, base, sent, frags[0], sent', r, u');
      if r.more { UploadingInv(env, r.c, s0, base, sent'); }
      DriveOne(env, contentLength, frags, total, u);
      AppendRest(sent, frags, 0);
      m, all := 1, sent';
      if !r.more || (total + |frags[0]|) % WORD >= contentLength {
        fate := LastFate(r, sent');
      } else {
        m, fate, all := DriveUploads(env, contentLength, frags[1..], (total + |frags[0]|) % WORD, r.c, s0, base, sent', u', verdict);
        AppendRest(sent, frags, m);
        m := m + 1;
        EndsFrom(env, s0, contentLength, all, u, r.c, u', verdict, fate);
      }
    }
  }
}
