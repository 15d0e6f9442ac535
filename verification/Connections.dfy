/** What a check or a download does to the connection, and when the task does not survive it. */
module Connections {
  import opened Platform
  import opened CStrings
  import opened Tls
  import opened TlsProofs
  import opened Http
  import opened HttpPlan
  import opened HttpOverrun
  import opened IapImage
  import opened Request
  import opened Updater
  import opened Download
  import opened UpdateCheck
  import opened MetadataMemory
  import IapProofs
  import Iap

  // ---------- Connections that are left open ----------

  /** Between two actions of the task: the context is valid exactly if server_fd refers to an open socket. */
  ghost predicate Settled(l: Link) {
    (l.valid <==> l.fd) && (l.fd ==> l.sockets > 0)
  }

  /** The connection is made, but nothing is sent, because there is no path or no memory for the request. */
  ghost predicate LeftOpen(l: Link, net: Network, path: string) {
    Connect(l, net.script).1 == Done && (path == [] || net.alloc == NoBuffer)
  }

  lemma ConnectSettles(l: Link, script: ConnectScript)
    requires Settled(l)
    ensures var (l1, status) := Connect(l, script);
      && status in {Done, Error, Blocked} && (status != Blocked ==> Settled(l1) && (l1.fd <==> status == Done))
      && l1.sockets == l.sockets + if status == Error then 0 else 1
  {
  }

  lemma SendSettles<C>(client: Client<C>, cfg: Config, host: string, path: string, l: Link, net: Network, c: C)
    requires Proper(net) && Settled(l)
    ensures var (l', _, status) := Send(client, cfg, host, path, l, net, c);
      status !in {Blocked, Crashed} ==>
        && Settled(l') && (l'.fd <==> l.fd && (path == [] || net.alloc == NoBuffer))
        && l'.sockets == l.sockets - if l.fd && !l'.fd then 1 else 0
  {
    hide ReadLoop, WriteLoop, AsCallback, Submitted;
  }

  /** What the task does in one round. */
  datatype Action = Check(net: Network) | Download(net: Network)

  ghost function Act(env: Env, u: State, l: Link, a: Action): (Link, State, Status)
    requires Proper(a.net)
  {
    match a case Check(net) => CheckForUpdate(u, l, net) case Download(net) => DownloadImage(env, u, l, net)
  }

  ghost predicate Leaves(u: State, l: Link, a: Action) {
    LeftOpen(l, a.net, Text(if a.Check? then u.metadataPath else u.firmwarePath))
  }

  /** A check or a download that comes back leaves its connection open if and only if connecting succeeded and the path
      is empty or no request buffer could be allocated; and then, and only then, there is one open socket more. */
  lemma LeftOpenIff(env: Env, u: State, l: Link, a: Action)
    requires Proper(a.net) && Settled(l)
    ensures var (l', _, status) := Act(env, u, l, a);
      status !in {Blocked, Crashed} ==>
        Settled(l') && (l'.fd <==> Leaves(u, l, a)) && l'.sockets == l.sockets + if Leaves(u, l, a) then 1 else 0
  {
    hide Connect, Send, FirmwareClient, MetadataClient, Text;
    var (l1, status) := Connect(l, a.net.script);
    ConnectSettles(l, a.net.script);
    if status != Blocked {
      SendSettles(MetadataClient(), METADATA, u.host, Text(u.metadataPath), l1, a.net, u);
      SendSettles(FirmwareClient(env), FIRMWARE, u.host, Text(u.firmwarePath), l1, a.net, u.(hasSession := false));
    }
  }

  ghost predicate AllProper(actions: seq<Action>) {
    forall i :: 0 <= i < |actions| ==> Proper(actions[i].net)
  }

  /** The link and the coordinator's state after the actions, one after the other. */
  ghost function AfterActions(env: Env, u: State, l: Link, actions: seq<Action>): (Link, State)
    requires AllProper(actions)
    decreases |actions|
  {
    if actions == [] then (l, u) else
      var (l', u', _) := Act(env, u, l, actions[0]);
      AfterActions(env, u', l', actions[1..])
  }

  /** All the actions come back. */
  ghost predicate ComeBack(env: Env, u: State, l: Link, actions: seq<Action>)
    requires AllProper(actions)
    decreases |actions|
  {
    actions == [] ||
    var (l', u', status) := Act(env, u, l, actions[0]);
    status !in {Blocked, Crashed} && ComeBack(env, u', l', actions[1..])
  }

  /** How many of them leave their connection open. */
  ghost function CountLeft(env: Env, u: State, l: Link, actions: seq<Action>): nat
    requires AllProper(actions)
    decreases |actions|
  {
    if actions == [] then 0 else
      var (l', u', _) := Act(env, u, l, actions[0]);
      (if Leaves(u, l, actions[0]) then 1 else 0) + CountLeft(env, u', l', actions[1..])
  }

  /** Over any sequence of checks and downloads: every connection that is left open costs a socket for good, because the
      next connect forgets it, and nothing else does. */
  lemma {:induction false} SocketsLeak(env: Env, u: State, l: Link, actions: seq<Action>)
    requires AllProper(actions) && Settled(l) && ComeBack(env, u, l, actions)
    ensures AfterActions(env, u, l, actions).0.sockets == l.sockets + CountLeft(env, u, l, actions)
    decreases |actions|
  {
    hide Act, Leaves, Settled, Proper;
    if actions != [] {
      var (l', u', _) := Act(env, u, l, actions[0]);
      LeftOpenIff(env, u, l, actions[0]);
      SocketsLeak(env, u', l', actions[1..]);
    }
  }

  // ---------- What every sequence of actions keeps ----------

  /** None of the actions activates an image. */
  ghost predicate NoActivation(env: Env, u: State, l: Link, actions: seq<Action>)
    requires AllProper(actions)
    decreases |actions|
  {
    actions == [] ||
    var (l', u', _) := Act(env, u, l, actions[0]);
    u'.iap.dev.boot == u.iap.dev.boot && NoActivation(env, u', l', actions[1..])
  }

  lemma ActIsSafe(env: Env, u: State, l: Link, a: Action)
    requires Proper(a.net) && Iap.Inv(u.iap) && !u.iap.dev.fault
    ensures Steady(u.iap, Act(env, u, l, a).1.iap)
  {
    hide CheckForUpdate, DownloadImage, Shown, StaysInside;
    match a
    case Check(net) => CheckTouchesOnly(u, l, net);
    case Download(net) => DownloadIsSafe(env, u, l, net);
  }

  /** Over any sequence of checks and downloads nothing is used wrongly, and as long as none activates an image, the
      partition the device boots from keeps its contents. */
  lemma {:induction false} ActionsAreSafe(env: Env, u: State, l: Link, actions: seq<Action>)
    requires AllProper(actions) && Iap.Inv(u.iap) && !u.iap.dev.fault
    ensures var s := AfterActions(env, u, l, actions).1.iap;
      && Iap.Inv(s) && !s.dev.fault
      && (NoActivation(env, u, l, actions) ==>
            s.dev.boot == u.iap.dev.boot && Contents(env, s.dev.ops, s.dev.boot) == Contents(env, u.iap.dev.ops, u.iap.dev.boot))
    decreases |actions|
  {
    hide Act, Contents, IapProofs.Spares, Iap.Inv, Proper;
    if actions != [] {
      var (l', u', _) := Act(env, u, l, actions[0]);
      ActIsSafe(env, u, l, actions[0]);
      SteadyKeepsImage(env, u.iap, u'.iap);
      ActionsAreSafe(env, u', l', actions[1..]);
    }
  }

  // ---------- Undefined behaviour in a request ----------

  lemma {:induction false} DriveDoesNotFault<C>(client: Client<C>, contentLength: nat, fragments: seq<string>, total: nat, c: C)
    ensures Drive(client, contentLength, fragments, total, c).1 != Fault
    decreases |fragments|
  {
    if fragments != [] {
      var reply := client.body(c, fragments[0], []);
      DriveDoesNotFault(client, contentLength, fragments[1..], (total + |fragments[0]|) % WORD, reply.c);
    }
  }

  lemma {:induction false} EndingIsNotCrashed(rx: seq<ReadResult>)
    ensures Ending(rx) != Crashed
    decreases |rx|
  {
    if rx != [] { EndingIsNotCrashed(rx[1..]); }
  }

  lemma ExecuteFaultsIff<C>(client: Client<C>, plan: Plan, c: C)
    ensures Execute(client, plan, c).1 == Fault <==> plan.Broken?
  {
    if plan.Streamed? { DriveDoesNotFault(client, plan.contentLength, plan.fragments, 0, c); }
  }

  /** The search for the end of the headers runs past the response buffer (see HttpOverrun.BrokenIff). */
  ghost predicate SearchOverruns(net: Network, cfg: Config) {
    Overruns(Flat(Arriving(net.rx)), Arriving(net.rx), cfg.capacity, cfg.capacity)
  }

  lemma DownloadPlanCrashesIff(env: Env, u: State, net: Network)
    requires Proper(net)
    ensures Executed(env, u, net).1 == Crashed <==> SearchOverruns(net, FIRMWARE)
  {
    hide PlanOf, Execute, FirmwareClient, Overruns;
    ArrivingFits(net.rx, TLS_BUFFER);
    EndingIsNotCrashed(net.rx);
    BrokenIff(FIRMWARE, net.mem, Arriving(net.rx));
    ExecuteFaultsIff(FirmwareClient(env), FirmwarePlan(net), u);
  }

  lemma CheckPlanCrashesIff(u: State, net: Network)
    requires Proper(net)
    ensures ExecutedCheck(u, net).1 == Crashed <==> SearchOverruns(net, METADATA)
  {
    hide PlanOf, Execute, MetadataClient, Overruns;
    ArrivingFits(net.rx, TLS_BUFFER);
    EndingIsNotCrashed(net.rx);
    BrokenIff(METADATA, net.mem, Arriving(net.rx));
    ExecuteFaultsIff(MetadataClient(), MetadataPlan(net), u);
  }

  lemma SendCrashesIff<C>(client: Client<C>, cfg: Config, host: string, path: string, l: Link, net: Network, c: C)
    requires Proper(net)
    ensures Send(client, cfg, host, path, l, net, c).2 == Crashed <==>
      path != [] && (net.alloc == NoContext ||
        (net.alloc == Granted && l.valid && WriteLoop(l.wire, Submitted(host, path, net.surplus), net.tx).2 == Done &&
         ReadLoop(AsCallback(client, cfg), net.mem, net.rx, 0, (net.before, c)).1 == Crashed))
  {
    hide ReadLoop, AsCallback, Submitted;
    var request := Submitted(host, path, net.surplus);
    assert request != [] by { SubmittedSomething(host, path, net.surplus); }
    RefusedWrite(l.wire, request);
    WriteDoesNotCrash(l.wire, request, net.tx);
    hide WriteLoop;
  }

  lemma SubmittedSomething(host: string, path: string, surplus: string)
    ensures Submitted(host, path, surplus) != []
  {
  }

  lemma RefusedWrite(wire: string, request: string)
    requires request != []
    ensures WriteLoop(wire, request, [WriteFailed]).2 == Error
  {
  }

  lemma {:induction false} WriteDoesNotCrash(wire: string, request: string, tx: seq<WriteResult>)
    ensures WriteLoop(wire, request, tx).2 != Crashed
    decreases |tx|
  {
    if request != [] && tx != [] {
      match tx[0]
      case Sent(n) =>
        var k := if n < |request| then n else |request|;
        if k > 0 { WriteDoesNotCrash(wire + request[..k], request[k..], tx[1..]); }
      case WriteAgain => WriteDoesNotCrash(wire, request, tx[1..]);
      case WriteFailed =>
    }
  }

  /** A check runs into undefined behaviour before its callback if and only if there is a path and either no memory for
      the context of the request, or the request goes out and the search for the end of the headers overruns. */
  lemma CheckCrashesIff(u: State, l: Link, net: Network)
    requires Proper(net)
    ensures CheckForUpdate(u, l, net).2 == Crashed <==>
      Connect(l, net.script).1 == Done && Text(u.metadataPath) != [] &&
      (net.alloc == NoContext || (CheckRequested(u, l, net) && SearchOverruns(net, METADATA)))
  {
    hide Send, ReadLoop, WriteLoop, AsCallback, MetadataClient, Text, Submitted, ExecutedCheck, SearchOverruns;
    var (l1, status) := Connect(l, net.script);
    assert status in {Done, Error, Blocked} && (status == Done ==> l1.valid);
    SendCrashesIff(MetadataClient(), METADATA, u.host, Text(u.metadataPath), l1, net, u);
    ReadingExecutesCheck(net, u);
    CheckPlanCrashesIff(u, net);
  }

  /** The same for a download, which goes on after a failed connect. */
  lemma DownloadCrashesIff(env: Env, u: State, l: Link, net: Network)
    requires Proper(net)
    ensures DownloadImage(env, u, l, net).2 == Crashed <==>
      Connect(l, net.script).1 != Blocked && Text(u.firmwarePath) != [] &&
      (net.alloc == NoContext || (Requested(u, l, net) && SearchOverruns(net, FIRMWARE)))
  {
    hide Send, ReadLoop, WriteLoop, AsCallback, FirmwareClient, Text, Submitted, Executed, SearchOverruns;
    var (l1, status) := Connect(l, net.script);
    var u0 := u.(hasSession := false);
    assert status in {Done, Error, Blocked} && (status == Done ==> l1.valid) && (status == Error ==> !l1.valid);
    SendCrashesIff(FirmwareClient(env), FIRMWARE, u.host, Text(u.firmwarePath), l1, net, u0);
    ReadingExecutesPlan(env, net, u0);
    DownloadPlanCrashesIff(env, u0, net);
  }
}
