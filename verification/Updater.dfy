/** The update coordinator of main/iap_https.c on values: its two body callbacks, and the two actions
    of its task, each a request over a fresh connection. */
module Updater {
  import opened Platform
  import opened CStrings
  import opened Tls
  import opened Http
  import Iap
  import opened Request

  const PATH_SIZE: nat := 256

  /** The static variables and the configuration. `interval` is polling_interval_s, a uint32_t;
      `firmwarePath` the character array server_firmware_path. */
  datatype State = State(iap: Iap.State, hasSession: bool, newFirmware: bool, received: int,
                         downloadBit: bool, restarted: bool, fault: bool,
                         version: int, interval: nat, host: string, metadataPath: string,
                         firmwarePath: string, autoReboot: bool)

  /** Conversion to a 32-bit int. */
  function ToInt32(n: int): (r: int)
    ensures -0x8000_0000 <= r < 0x8000_0000 && (n - r) % WORD == 0
  {
    (n + 0x8000_0000) % WORD - 0x8000_0000
  }

  // ---------- iap_https_firmware_body_callback ----------

  /** The IAP session to write to: the open one, or a new one in place of whatever an earlier download
      has left open. */
  function OpenSession(env: Env, u: State): (State, bool) {
    if u.hasSession then (u, true)
    else
      var (s1, err1) := Iap.Begin(env, u.iap);
      var (s2, err2) := if err1 == Iap.SessionAlreadyOpen then Iap.Begin(env, Iap.Abort(env, s1).0) else (s1, err1);
      if err2 != Iap.Ok then (u.(iap := s2), false)
      else (u.(iap := s2, received := 0, hasSession := true), true)
  }

  /** A commit that fails is reported as new firmware all the same. */
  function FirmwareBody(env: Env, u: State, fragment: string): Reply<State>
    requires |u.iap.pending| <= Iap.PAGE
  {
    var (u1, ok) := OpenSession(env, u);
    if !ok then Reply(u1, false)
    else if fragment != [] then
      assert |u1.iap.pending| <= Iap.PAGE;
      var (s, err) := Iap.Write(env, u1.iap, fragment[..|fragment| % 0x1_0000]);
      var u2 := u1.(iap := s, received := ToInt32(u1.received + |fragment|));
      if err != Iap.Ok then Reply(u2.(iap := Iap.Abort(env, s).0), false) else Reply(u2, true)
    else
      var u2 := u1.(hasSession := false);
      if u2.received > 0 then
        Reply(u2.(iap := Iap.Commit(env, u2.iap).0, newFirmware := true, restarted := u2.restarted || u2.autoReboot), false)
      else Reply(u2.(iap := Iap.Abort(env, u2.iap).0), false)
  }

  // ---------- iap_https_metadata_body_callback ----------

  const INTERVAL := "INTERVAL="
  const VERSION := "VERSION="
  const FILE := "FILE="

  /** strncpy into the path array: the value, padded with NULs. */
  function StorePath(value: string): string {
    if |value| <= PATH_SIZE then value + Zeros(PATH_SIZE - |value|) else value[..PATH_SIZE]
  }

  /** What the callback does with the response buffer: the interval is optional; without a version or a file it
      returns early. A read past the end of the buffer is undefined behaviour. */
  function ApplyMemory(u: State, mem: string): State {
    var interval := ReadInt(mem, INTERVAL);
    if interval == PastEnd then u.(fault := true)
    else
      var u1 := if interval.Got? then u.(interval := interval.value % WORD) else u;
      match ReadInt(mem, VERSION)
      case PastEnd => u1.(fault := true)
      case Missing => u1
      case Got(version) =>
        match ReadString(mem, FILE, PATH_SIZE)
        case PastEnd => u1.(fault := true)
        case Missing => u1
        case Got(path) =>
          var u2 := u1.(firmwarePath := StorePath(path));
          if version == u.version then u2 else u2.(downloadBit := true)
  }

  /** Always stops receiving. */
  function MetadataBody(u: State, body: string, rest: string): Reply<State> {
    Reply(ApplyMemory(u, body + rest), false)
  }

  /** The decision on the metadata as a text, apart from where it is stored. */
  function ApplyMetadata(u: State, text: string): State {
    var u1 := match KeyValueInt(text, INTERVAL)
      case None => u
      case Some(n) => u.(interval := n % WORD);
    match KeyValueInt(text, VERSION)
    case None => u1
    case Some(version) =>
      match KeyValueString(text, FILE, PATH_SIZE)
      case None => u1
      case Some(path) =>
        var u2 := u1.(firmwarePath := StorePath(path));
        if version == u.version then u2 else u2.(downloadBit := true)
  }

  // ---------- The two requests ----------

  /** The error callback only logs. */
  ghost function FirmwareClient(env: Env): Client<State> {
    Client((u: State, fragment: string, rest: string) =>
             if |u.iap.pending| <= Iap.PAGE then FirmwareBody(env, u, fragment) else Reply(u, false),
           (u: State, err: HttpError) => u)
  }

  ghost function MetadataClient(): Client<State> {
    Client((u: State, body: string, rest: string) => MetadataBody(u, body, rest), (u: State, err: HttpError) => u)
  }

  const FIRMWARE := Config(StreamBody, 4096, LatestChunk)
  const METADATA := Config(WaitForCompleteBody, 512, LatestChunk)
  const TLS_BUFFER: nat := 4096

  datatype Allocation = Granted | NoContext | NoBuffer

  /** Everything the platform and the server decide about one connection; `before` is what the request's
      context and response buffer held before, `mem` the uninitialised TLS response buffer and `surplus` the
      uninitialised end of the request buffer. */
  datatype Network = Network(script: ConnectScript, alloc: Allocation, before: Context, mem: string, surplus: string,
                             tx: seq<WriteResult>, rx: seq<ReadResult>)

  ghost predicate Proper(net: Network) {
    |net.mem| == TLS_BUFFER && Legal(net.rx, TLS_BUFFER) && |net.surplus| == SURPLUS - 1
  }

  /** https_send_request. Without a path or a request buffer nothing is sent and nothing is disconnected;
      without memory for the context its request_id is written through NULL. */
  ghost function Send<C>(client: Client<C>, cfg: Config, host: string, path: string, l: Link, net: Network, c: C): (Link, C, Status)
    requires Proper(net)
  {
    if path == [] then (l, c, Error)
    else
      match net.alloc
      case NoContext => (l, c, Crashed)
      case NoBuffer => (l, c, Error)
      case Granted =>
        var (l', s, status) := SendRequest(AsCallback(client, cfg), l, Submitted(host, path, net.surplus), net.mem, net.tx, net.rx, (net.before, c));
        (l', s.1, status)
  }

  ghost function CheckForUpdate(u: State, l: Link, net: Network): (Link, State, Status)
    requires Proper(net)
  {
    var (l1, status) := Connect(l, net.script);
    if status != Done then (l1, u, status)
    else Send(MetadataClient(), METADATA, u.host, Text(u.metadataPath), l1, net, u)
  }

  /** The image is requested even if connecting has failed. */
  ghost function DownloadImage(env: Env, u: State, l: Link, net: Network): (Link, State, Status)
    requires Proper(net)
  {
    var (l1, status) := Connect(l, net.script);
    if status == Blocked then (l1, u, status)
    else Send(FirmwareClient(env), FIRMWARE, u.host, Text(u.firmwarePath), l1, net, u.(hasSession := false))
  }
}
