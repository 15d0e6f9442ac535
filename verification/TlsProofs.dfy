/** What the TLS request loop and the connection keep, for all scripts of mbedTLS results. */
module TlsProofs {
  import opened Platform
  import opened Tls

  /** The bytes on the wire are at every moment a prefix of the request, and all of it when reading starts. */
  lemma {:induction false} WireIsRequest(wire: string, request: string, tx: seq<WriteResult>)
    ensures var (wire', rest, status) := WriteLoop(wire, request, tx);
      wire' + rest == wire + request && (status == Done <==> rest == [])
    decreases |tx|
  {
    if request != [] && tx != [] {
      match tx[0]
      case Sent(n) =>
        var k := if n < |request| then n else |request|;
        if k > 0 {
          WireIsRequest(wire + request[..k], request[k..], tx[1..]);
          assert wire + request[..k] + request[k..] == wire + request;
        }
      case WriteAgain => WireIsRequest(wire, request, tx[1..]);
      case WriteFailed =>
    }
  }

  /** An ordinary result of a write: a retry, or progress. */
  predicate Ordinary(r: WriteResult) {
    r.WriteAgain? || (r.Sent? && r.n > 0)
  }

  /** The results up to the first that is not ordinary. */
  function OrdinaryPrefix(tx: seq<WriteResult>): (k: nat)
    ensures k <= |tx| && (forall i :: 0 <= i < k ==> Ordinary(tx[i])) && (k < |tx| ==> !Ordinary(tx[k]))
  {
    if tx == [] || !Ordinary(tx[0]) then 0 else 1 + OrdinaryPrefix(tx[1..])
  }

  /** How many bytes the results report as sent. */
  function Total(tx: seq<WriteResult>): nat {
    if tx == [] then 0 else (if tx[0].Sent? then tx[0].n else 0) + Total(tx[1..])
  }

  /** The write loop, for every sequence of results: it goes on as long as they are ordinary and stops with success as soon
      as the whole request is out; it fails exactly if an error, or a write of nothing, comes before that; and the wire
      holds what has been reported as sent. */
  lemma {:induction false} WriteOutcome(wire: string, request: string, tx: seq<WriteResult>)
    ensures var k := OrdinaryPrefix(tx);
      var sent := if Total(tx[..k]) < |request| then Total(tx[..k]) else |request|;
      WriteLoop(wire, request, tx) ==
        (wire + request[..sent], request[sent..], if sent == |request| then Done else if k < |tx| then Error else Blocked)
    decreases |tx|
  {
    var k := OrdinaryPrefix(tx);
    if request != [] && k > 0 {
      assert tx[..k] == [tx[0]] + tx[1..][..k - 1];
      match tx[0]
      case Sent(n) =>
        var m := if n < |request| then n else |request|;
        WriteOutcome(wire + request[..m], request[m..], tx[1..]);
        Onward(wire, request, m, if Total(tx[..k]) < |request| then Total(tx[..k]) - m else |request| - m);
      case WriteAgain => WriteOutcome(wire, request, tx[1..]);
    } else {
      assert wire + request[..0] == wire;
    }
  }

  lemma Onward(wire: string, request: string, m: nat, n: nat)
    requires m + n <= |request|
    ensures (wire + request[..m]) + request[m..][..n] == wire + request[..m + n] && request[m..][n..] == request[m + n..]
  {
  }

  // ---------- How reading ends ----------

  predicate EndsReading(r: ReadResult) { r.Eof? || r.ReadFailed? }

  /** The results up to the end of the stream or an error. */
  function ReadPrefix(rx: seq<ReadResult>): (k: nat)
    ensures k <= |rx| && (forall i :: 0 <= i < k ==> !EndsReading(rx[i])) && (k < |rx| ==> EndsReading(rx[k]))
  {
    if rx == [] || EndsReading(rx[0]) then 0 else 1 + ReadPrefix(rx[1..])
  }

  /** The data among the results, in order. */
  function DataOf(rx: seq<ReadResult>): seq<string> {
    if rx == [] then [] else DataOf(rx[..|rx| - 1]) + if rx[|rx| - 1].Data? then [rx[|rx| - 1].bytes] else []
  }

  lemma {:induction false} DataOfCons(r: ReadResult, rx: seq<ReadResult>)
    ensures DataOf([r] + rx) == (if r.Data? then [r.bytes] else []) + DataOf(rx)
  {
    var all := [r] + rx;
    if rx == [] {
      assert all[..0] == [] && all[|all| - 1] == r;
    } else {
      assert all[..|all| - 1] == [r] + rx[..|rx| - 1];
      DataOfCons(r, rx[..|rx| - 1]);
    }
  }

  /** What arrives is the data of all results before the stream ends or fails, whatever retries are among them; nobody
      stopping it, reading ends with success at the end of the stream and with an error at a failure. */
  lemma {:induction false} ArrivingIs(rx: seq<ReadResult>)
    ensures var k := ReadPrefix(rx);
      && Arriving(rx) == DataOf(rx[..k])
      && Ending(rx) == if k == |rx| then Blocked else if rx[k].Eof? then Done else Error
    decreases |rx|
  {
    var k := ReadPrefix(rx);
    if k > 0 {
      ArrivingIs(rx[1..]);
      assert rx[..k] == [rx[0]] + rx[1..][..k - 1];
      DataOfCons(rx[0], rx[1..][..k - 1]);
    }
  }

  // ---------- What the callback is given ----------

  /** A callback that writes down its arguments and then decides by all it has seen. */
  ghost function Recorder(decide: seq<(nat, string)> -> Verdict): Callback<seq<(nat, string)>> {
    (s: seq<(nat, string)>, mem: string, index: nat, len: nat) =>
      var seen := s + [(index, if len <= |mem| then mem[..len] else mem)];
      (seen, decide(seen))
  }

  ghost function Numbered(chunks: seq<string>, index: nat): seq<(nat, string)> {
    seq(|chunks|, i requires 0 <= i < |chunks| => (index + i, chunks[i]))
  }

  /** What the recorder has seen after `k` chunks. */
  ghost function Seen(s: seq<(nat, string)>, chunks: seq<string>, index: nat, k: nat): seq<(nat, string)>
    requires k <= |chunks|
  {
    s + Numbered(chunks[..k], index)
  }

  lemma SeenNext(s: seq<(nat, string)>, chunks: seq<string>, index: nat, k: nat)
    requires k < |chunks|
    ensures Seen(s, chunks, index, k + 1) == Seen(s + [(index, chunks[0])], chunks[1..], index + 1, k)
    ensures Seen(s, chunks, index, 0) == s
  {
    assert chunks[..k + 1] == [chunks[0]] + chunks[1..][..k];
  }

  lemma SeenNothing(s: seq<(nat, string)>, chunks: seq<string>, index: nat)
    ensures Seen(s, chunks, index, 0) == s
  {
  }

  /** The callback sees the chunks in order, numbered 0, 1, 2, …, without a gap or a stale byte; it is not
      called again once it does not continue, and as long as it continues it gets every chunk. */
  lemma {:induction false} DeliveryIsInOrder(decide: seq<(nat, string)> -> Verdict, mem: string, chunks: seq<string>,
                                             index: nat, s: seq<(nat, string)>) returns (k: nat)
    requires Fits(chunks, |mem|)
    ensures k <= |chunks|
    ensures Deliver(Recorder(decide), mem, chunks, index, s) ==
            (Seen(s, chunks, index, k), if k == 0 then Continue else decide(Seen(s, chunks, index, k)))
    ensures forall i :: 0 < i < k ==> decide(Seen(s, chunks, index, i)) == Continue
    ensures k == |chunks| || (k > 0 && decide(Seen(s, chunks, index, k)) != Continue)
    decreases |chunks|
  {
    if chunks == [] {
      k := 0;
      SeenNothing(s, chunks, index);
    } else {
      var seen := s + [(index, chunks[0])];
      assert Recorder(decide)(s, Store(mem, chunks[0]), index, |chunks[0]|) == (seen, decide(seen));
      hide Numbered, Recorder, Store, Seen;
      SeenNext(s, chunks, index, 0);
      SeenNothing(seen, chunks[1..], index + 1);
      if decide(seen) != Continue {
        k := 1;
      } else {
        var m := DeliveryIsInOrder(decide, Store(mem, chunks[0]), chunks[1..], index + 1, seen);
        k := m + 1;
        forall i | 0 < i <= k ensures Seen(s, chunks, index, i) == Seen(seen, chunks[1..], index + 1, i - 1) {
          SeenNext(s, chunks, index, i - 1);
        }
      }
    }
  }

  // ---------- Lifecycle ----------

  /** The handshake is retried `k` times and then completed. */
  ghost predicate HandshakeAt(results: seq<HandshakeResult>, k: nat, last: HandshakeResult) {
    k < |results| && results[k] == last && forall i :: 0 <= i < k ==> results[i] == HandshakeAgain
  }

  lemma {:induction false} HandshakeIs(results: seq<HandshakeResult>)
    ensures Handshake(results) in {Done, Error, Blocked}
    ensures Handshake(results) == Done <==> exists k :: HandshakeAt(results, k, HandshakeDone)
    ensures Handshake(results) == Error <==> exists k :: HandshakeAt(results, k, HandshakeFailed)
    decreases |results|
  {
    if results != [] {
      if results[0] == HandshakeAgain {
        HandshakeIs(results[1..]);
        ShiftHandshake(results, HandshakeDone);
        ShiftHandshake(results, HandshakeFailed);
      } else {
        assert HandshakeAt(results, 0, results[0]);
        assert forall k, last :: HandshakeAt(results, k, last) ==> k == 0;
      }
    }
  }

  lemma ShiftHandshake(results: seq<HandshakeResult>, last: HandshakeResult)
    requires results != [] && results[0] == HandshakeAgain && last != HandshakeAgain
    ensures (exists k :: HandshakeAt(results, k, last)) <==> exists k :: HandshakeAt(results[1..], k, last)
  {
    if k: nat :| HandshakeAt(results, k, last) {
      assert k > 0;
      assert HandshakeAt(results[1..], k - 1, last);
    }
    if k: nat :| HandshakeAt(results[1..], k, last) {
      assert forall i :: 1 <= i < k + 1 ==> results[i] == results[1..][i - 1];
      assert results[k + 1] == results[1..][k];
      assert HandshakeAt(results, k + 1, last);
    }
  }

  /** The context is valid already, or every step of its initialisation succeeds. */
  predicate CanInitialise(l: Link, script: ConnectScript) {
    l.valid || (script.seeded && script.caParsed && script.peerParsed && script.setUp)
  }

  /** Connecting succeeds if and only if the context can be initialised, the server is reached, the handshake completes, the
      certificate chain is verified and the peer's certificate is the pinned one; it hangs only in the handshake. */
  lemma ConnectSucceedsIff(l: Link, script: ConnectScript)
    ensures var status := Connect(l, script).1;
      var reached := CanInitialise(l, script) && script.connected;
      && (status == Done <==>
            reached && (exists k :: HandshakeAt(script.handshake, k, HandshakeDone)) && script.verified && script.pinned)
      && (status == Blocked <==>
            reached && !exists k :: (HandshakeAt(script.handshake, k, HandshakeDone) || HandshakeAt(script.handshake, k, HandshakeFailed)))
      && status in {Done, Error, Blocked}
  {
    HandshakeIs(script.handshake);
  }

  /** From every link: when connecting comes back, the context is valid if and only if it returned success, on every
      failure path, and nothing has been sent yet; when a request comes back, the context is reset and the socket
      closed. A request after a failed connect sends nothing and never reaches the callback; the callback is reached
      only when exactly the request has gone out. From an idle link one socket is open after success and none after
      failure. */
  lemma ConnectionIsClosed<S>(cb: Callback<S>, l: Link, script: ConnectScript, request: string, mem: string,
                              tx: seq<WriteResult>, rx: seq<ReadResult>, s: S)
    requires Legal(rx, |mem|) && request != []
    ensures var (l1, status) := Connect(l, script);
      && (status != Blocked ==> (l1.valid <==> status == Done) && status in {Done, Error})
      && (status == Done ==> l1.fd && l1.wire == [])
      && (Idle(l) && status == Done ==> Connected(l1)) && (Idle(l) && status == Error ==> Idle(l1))
    ensures var (l1, status) := Connect(l, script);
      var (l2, s', sent) := SendRequest(cb, l1, request, mem, tx, rx, s);
      && (sent in {Done, Error} ==> !l2.valid && !l2.fd)
      && (Idle(l) && status != Blocked && sent in {Done, Error} ==> Idle(l2))
      && (status == Error ==> sent == Error && s' == s && l2.wire == l1.wire)
      && (s' != s ==> l2.wire == request)
  {
    var (l1, status) := Connect(l, script);
    var effective := if l1.valid then tx else [WriteFailed];
    WireIsRequest(l1.wire, request, effective);
    var (wire, rest, _) := WriteLoop(l1.wire, request, effective);
    assert rest == [] ==> wire + rest == wire;
    assert l1.wire == [] ==> l1.wire + request == request;
  }
}
