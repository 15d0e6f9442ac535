/** Which server a check or a download believes, and what it tells it. */
module Exchange {
  import opened Platform
  import opened CStrings
  import opened Tls
  import opened TlsProofs
  import opened Http
  import opened Request
  import opened Updater
  import opened Download
  import opened UpdateCheck

  /** The bytes of a request: the request line, the Host header, and four surplus bytes. */
  function Question(host: string, path: string, surplus: string): string {
    RequestHead(host, path) + [NUL] + surplus
  }

  lemma SubmittedIs(host: string, path: string, surplus: string)
    requires |surplus| == SURPLUS - 1
    ensures Submitted(host, path, surplus) == Question(host, path, surplus) != []
  {
    RequestIsWellFormed(host, path, surplus);
  }

  /** The server has been reached and is the one whose certificate is pinned. */
  ghost predicate Genuine(script: ConnectScript) {
    script.connected && (exists k :: HandshakeAt(script.handshake, k, HandshakeDone)) && script.verified && script.pinned
  }

  /** What is on the wire behind `before` when a request has ended in this way. */
  ghost predicate Told(before: string, after: string, request: string, answered: bool) {
    && before <= after <= before + request
    && (answered ==> after == before + request)
  }

  lemma SendTells<C>(client: Client<C>, cfg: Config, host: string, path: string, l: Link, net: Network, c: C)
    requires Proper(net)
    ensures var (l', c', status) := Send(client, cfg, host, path, l, net, c);
      && Told(l.wire, l'.wire, Question(host, path, net.surplus), c' != c || status == Done)
      && (!l.valid ==> l'.wire == l.wire && c' == c && status != Done)
  {
    hide ReadLoop, AsCallback, Submitted, Question;
    var request := Submitted(host, path, net.surplus);
    var tx := if l.valid then net.tx else [WriteFailed];
    SubmittedIs(host, path, net.surplus);
    WireIsRequest(l.wire, request, tx);
    WriteGrows(l.wire, request, tx);
  }

  lemma WriteGrows(wire: string, request: string, tx: seq<WriteResult>)
    ensures var (wire', rest, status) := WriteLoop(wire, request, tx);
      wire <= wire' <= wire + request && (status == Done ==> wire' == wire + request)
    ensures tx == [WriteFailed] && request != [] ==> WriteLoop(wire, request, tx) == (wire, request, Error)
  {
    WriteOutcome(wire, request, tx);
  }

  lemma ConnectTells(l: Link, script: ConnectScript)
    ensures var (l1, status) := Connect(l, script);
      && (status == Done ==> l1.wire == [] && l1.valid && Genuine(script)) && (status == Error ==> !l1.valid)
      && status in {Done, Error, Blocked}
  {
    ConnectSucceedsIff(l, script);
  }

  /** A download that changes more than its session flag, or comes back with success, has reached the genuine server, and all
      it has told it is the request for the firmware file at the configured host. After a successful connect nothing but a
      prefix of that is ever sent, and after a failed one nothing. */
  lemma DownloadAsksServer(env: Env, u: State, l: Link, net: Network)
    requires Proper(net)
    ensures var (l', u', status) := DownloadImage(env, u, l, net);
      var request := Question(u.host, Text(u.firmwarePath), net.surplus);
      var (l1, connected) := Connect(l, net.script);
      && (connected == Done ==> l'.wire <= request)
      && (connected == Error ==> l'.wire == l1.wire)
      && (u'.(hasSession := u.hasSession) != u || status == Done ==> Genuine(net.script) && l'.wire == request)
  {
    hide Connect, Send, FirmwareClient, Text, Question, Genuine;
    var (l1, status) := Connect(l, net.script);
    ConnectTells(l, net.script);
    if status != Blocked {
      SendTells(FirmwareClient(env), FIRMWARE, u.host, Text(u.firmwarePath), l1, net, u.(hasSession := false));
    }
  }

  /** The same for a check, which changes nothing at all otherwise, and its metadata file. */
  lemma CheckAsksServer(u: State, l: Link, net: Network)
    requires Proper(net)
    ensures var (l', u', status) := CheckForUpdate(u, l, net);
      var request := Question(u.host, Text(u.metadataPath), net.surplus);
      var (l1, connected) := Connect(l, net.script);
      && (connected == Done ==> l'.wire <= request)
      && (connected == Error ==> l'.wire == l1.wire)
      && (u' != u || status == Done ==> Genuine(net.script) && l'.wire == request)
  {
    hide Connect, Send, MetadataClient, Text, Question, Genuine;
    var (l1, status) := Connect(l, net.script);
    ConnectTells(l, net.script);
    if status == Done {
      SendTells(MetadataClient(), METADATA, u.host, Text(u.metadataPath), l1, net, u);
    }
  }

  /** The results of the writes take the whole request. */
  ghost predicate Taken(tx: seq<WriteResult>, request: string) {
    Total(tx[..OrdinaryPrefix(tx)]) >= |request|
  }

  lemma TakenIffDone(wire: string, request: string, tx: seq<WriteResult>)
    ensures WriteLoop(wire, request, tx).2 == Done <==> Taken(tx, request)
  {
    WriteOutcome(wire, request, tx);
  }

  /** When a request goes out, in terms of what the platform and the server decide: the context can be initialised, the
      server is genuine, there is a path and memory, and the writes take the whole request, in pieces or not, before
      one of them fails. */
  lemma RequestedIff(u: State, l: Link, net: Network)
    requires Proper(net)
    ensures Requested(u, l, net) <==>
      CanInitialise(l, net.script) && Genuine(net.script) && Text(u.firmwarePath) != [] && net.alloc == Granted &&
      Taken(net.tx, Question(u.host, Text(u.firmwarePath), net.surplus))
    ensures CheckRequested(u, l, net) <==>
      CanInitialise(l, net.script) && Genuine(net.script) && Text(u.metadataPath) != [] && net.alloc == Granted &&
      Taken(net.tx, Question(u.host, Text(u.metadataPath), net.surplus))
  {
    hide Connect, Text, Question, Submitted, Taken;
    var l1 := Connect(l, net.script).0;
    ConnectSucceedsIff(l, net.script);
    SubmittedIs(u.host, Text(u.firmwarePath), net.surplus);
    SubmittedIs(u.host, Text(u.metadataPath), net.surplus);
    TakenIffDone(l1.wire, Question(u.host, Text(u.firmwarePath), net.surplus), net.tx);
    TakenIffDone(l1.wire, Question(u.host, Text(u.metadataPath), net.surplus), net.tx);
  }
}
