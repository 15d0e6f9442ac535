/** The request loop of main/wifi_tls.c over an mbedTLS session whose results are given as scripts:
    the results of successive mbedtls_ssl_write and mbedtls_ssl_read calls. A script that ends is a
    session still blocked in the next call, so statements for all scripts hold at every moment. */
module Tls {
  import opened Platform

  datatype WriteResult = Sent(n: nat) | WriteAgain | WriteFailed   // WriteAgain: WANT_READ or WANT_WRITE
  datatype ReadResult = Data(bytes: string) | Eof | ReadAgain | ReadFailed

  datatype Verdict = Continue | Stop | Fault  // Fault: the callback ran into undefined behaviour
  datatype Status = Done | Error | Blocked | Crashed

  /** State, response buffer, callback index and length of the data in the buffer. */
  type Callback<!S> = (S, string, nat, nat) -> (S, Verdict)

  /** mbedTLS returns at most the size of the buffer it is given, and 0 only at the end of the stream. */
  predicate Legal(rx: seq<ReadResult>, size: nat) {
    forall i :: 0 <= i < |rx| && rx[i].Data? ==> 0 < |rx[i].bytes| <= size
  }

  /** The buffer after a read: what the read does not overwrite keeps its old contents. */
  function Store(mem: string, bytes: string): (r: string)
    requires |bytes| <= |mem|
    ensures |r| == |mem| && r[..|bytes|] == bytes && r[|bytes|..] == mem[|bytes|..]
  {
    bytes + mem[|bytes|..]
  }

  /** The write loop: what has gone out so far, what is still to be sent, and how it ends. At most what is
      offered is written. */
  function WriteLoop(wire: string, request: string, tx: seq<WriteResult>): (string, string, Status)
    decreases |tx|
  {
    if request == [] then (wire, request, Done)
    else if tx == [] then (wire, request, Blocked)
    else
      match tx[0]
      case Sent(n) =>
        var k := if n < |request| then n else |request|;
        if k == 0 then (wire, request, Error)
        else WriteLoop(wire + request[..k], request[k..], tx[1..])
      case WriteAgain => WriteLoop(wire, request, tx[1..])
      case WriteFailed => (wire, request, Error)
  }

  function ReadLoop<S>(cb: Callback<S>, mem: string, rx: seq<ReadResult>, index: nat, s: S): (S, Status)
    requires Legal(rx, |mem|)
    decreases |rx|
  {
    if rx == [] then (s, Blocked)
    else
      match rx[0]
      case Eof => (s, Done)
      case ReadFailed => (s, Error)
      case ReadAgain => ReadLoop(cb, mem, rx[1..], index, s)
      case Data(bytes) =>
        var mem' := Store(mem, bytes);
        var (s', verdict) := cb(s, mem', index, |bytes|);
        match verdict
        case Continue => ReadLoop(cb, mem', rx[1..], index + 1, s')
        case Stop => (s', Done)
        case Fault => (s', Crashed)
  }

  // ---------- The simple form: a list of chunks ----------

  predicate Fits(chunks: seq<string>, size: nat) {
    forall i :: 0 <= i < |chunks| ==> 0 < |chunks[i]| <= size
  }

  /** The callback applied to one chunk after the other until it does not continue. */
  function Deliver<S>(cb: Callback<S>, mem: string, chunks: seq<string>, index: nat, s: S): (S, Verdict)
    requires Fits(chunks, |mem|)
    decreases |chunks|
  {
    if chunks == [] then (s, Continue)
    else
      var mem' := Store(mem, chunks[0]);
      var (s', verdict) := cb(s, mem', index, |chunks[0]|);
      if verdict != Continue then (s', verdict) else Deliver(cb, mem', chunks[1..], index + 1, s')
  }

  /** The data that arrives before the stream ends or fails. */
  function Arriving(rx: seq<ReadResult>): seq<string>
    decreases |rx|
  {
    if rx == [] || rx[0].Eof? || rx[0].ReadFailed? then []
    else (if rx[0].Data? then [rx[0].bytes] else []) + Arriving(rx[1..])
  }

  /** How a stream ends that nobody stops. */
  function Ending(rx: seq<ReadResult>): Status
    decreases |rx|
  {
    if rx == [] then Blocked
    else if rx[0].Eof? then Done
    else if rx[0].ReadFailed? then Error
    else Ending(rx[1..])
  }

  lemma {:induction false} ArrivingFits(rx: seq<ReadResult>, size: nat)
    requires Legal(rx, size)
    ensures Fits(Arriving(rx), size)
    decreases |rx|
  {
    if rx != [] && !rx[0].Eof? && !rx[0].ReadFailed? {
      ArrivingFits(rx[1..], size);
    }
  }

  /** The read loop, with its retries and errors, is delivery of the arriving chunks. */
  lemma {:induction false} ReadLoopDelivers<S>(cb: Callback<S>, mem: string, rx: seq<ReadResult>, index: nat, s: S)
    requires Legal(rx, |mem|)
    ensures Fits(Arriving(rx), |mem|)
    ensures var (s', verdict) := Deliver(cb, mem, Arriving(rx), index, s);
      ReadLoop(cb, mem, rx, index, s) ==
        (s', match verdict case Continue => Ending(rx) case Stop => Done case Fault => Crashed)
    decreases |rx|
  {
    ArrivingFits(rx, |mem|);
    if rx != [] {
      match rx[0]
      case Eof =>
      case ReadFailed =>
      case ReadAgain =>
        assert Arriving(rx) == Arriving(rx[1..]);
        ReadLoopDelivers(cb, mem, rx[1..], index, s);
      case Data(bytes) =>
        var mem' := Store(mem, bytes);
        var (s', verdict) := cb(s, mem', index, |bytes|);
        assert Arriving(rx)[1..] == Arriving(rx[1..]);
        if verdict == Continue {
          ReadLoopDelivers(cb, mem', rx[1..], index + 1, s');
        }
    }
  }

  // ---------- The connection ----------

  /** `valid` is is_valid, `fd` says whether server_fd refers to a socket, `sockets` counts the open sockets
      of the process, `wire` is what has been written on the current session. */
  datatype Link = Link(valid: bool, fd: bool, sockets: nat, wire: string)

  datatype HandshakeResult = HandshakeDone | HandshakeAgain | HandshakeFailed

  /** The results of the platform calls that wifi_tls_connect makes, in order. */
  datatype ConnectScript = ConnectScript(seeded: bool, caParsed: bool, peerParsed: bool, setUp: bool,
                                         connected: bool, handshake: seq<HandshakeResult>,
                                         verified: bool, pinned: bool)

  function ResetContext(l: Link): Link {
    l.(valid := false)
  }

  /** mbedtls_net_free closes the socket, if there is one, and then the context is reset. */
  function Disconnect(l: Link): Link {
    ResetContext(if l.fd && l.sockets > 0 then l.(fd := false, sockets := l.sockets - 1) else l.(fd := false))
  }

  function InitContext(l: Link, script: ConnectScript): (Link, bool) {
    if l.valid then (l, true)
    else if script.seeded && script.caParsed && script.peerParsed && script.setUp then (l.(valid := true), true)
    else (ResetContext(l), false)
  }

  function Handshake(results: seq<HandshakeResult>): Status
    decreases |results|
  {
    if results == [] then Blocked
    else
      match results[0]
      case HandshakeDone => Done
      case HandshakeAgain => Handshake(results[1..])
      case HandshakeFailed => Error
  }

  function Connect(l: Link, script: ConnectScript): (Link, Status) {
    var (l1, ok) := InitContext(l, script);
    if !ok then (l1, Error)
    else
      var l2 := l1.(fd := false, wire := []);  // mbedtls_net_init forgets an old socket
      if !script.connected then (ResetContext(l2), Error)
      else
        var l3 := l2.(fd := true, sockets := l2.sockets + 1);
        match Handshake(script.handshake)
        case Blocked => (l3, Blocked)
        case Done => if script.verified && script.pinned then (l3, Done) else (Disconnect(l3), Error)
        case _ => (Disconnect(l3), Error)
  }

  /** wifi_tls_send_request. mbedTLS refuses I/O on a context that has been reset. */
  function SendRequest<S>(cb: Callback<S>, l: Link, request: string, mem: string,
                          tx: seq<WriteResult>, rx: seq<ReadResult>, s: S): (Link, S, Status)
    requires Legal(rx, |mem|)
  {
    var (wire, _, sent) := WriteLoop(l.wire, request, if l.valid then tx else [WriteFailed]);
    var l1 := l.(wire := wire);
    match sent
    case Blocked => (l1, s, Blocked)
    case Done =>
      var (s', status) := ReadLoop(cb, mem, rx, 0, s);
      (if status == Done || status == Error then Disconnect(l1) else l1, s', status)
    case _ => (Disconnect(l1), s, Error)
  }

  /** Nothing is held: no valid context and no open socket. */
  ghost predicate Idle(l: Link) {
    !l.valid && !l.fd && l.sockets == 0
  }

  ghost predicate Connected(l: Link) {
    l.valid && l.fd && l.sockets == 1
  }
}
