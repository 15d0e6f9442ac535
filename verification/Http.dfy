/** The incremental HTTP response processor of main/https_client.c on values. */
module Http {
  import opened Platform
  import opened CStrings
  import opened Tls

  datatype Mode = WaitForCompleteBody | StreamBody

  /** Where the body bytes that share a buffer with the end of the headers are copied from: the code
      reads the latest TLS chunk; `Accumulated` is the corrected variant, which reads the response buffer. */
  datatype CopySource = LatestChunk | Accumulated

  /** `capacity` is response_buffer_len. */
  datatype Config = Config(mode: Mode, capacity: nat, source: CopySource)

  datatype HttpError = BufferTooSmall | InvalidStatusLine | VersionNotSupported | Non200(status: int)

  datatype Reply<C> = Reply(c: C, more: bool)

  /** The callbacks of a request. `body` gets the announced bytes and the rest of the buffer after them. */
  datatype Client<!C> = Client(body: (C, string, string) -> Reply<C>, error: (C, HttpError) -> C)

  datatype Context = Context(buffer: string, count: nat, total: nat, contentLength: nat, inHeaders: bool)

  function Zeros(n: nat): (z: string)
    ensures |z| == n && forall i :: 0 <= i < n ==> z[i] == NUL
  {
    seq(n, _ => NUL)
  }

  function Cleared(cfg: Config): Context {
    Context(Zeros(cfg.capacity), 0, 0, 0, true)
  }

  /** While headers are being collected, the buffer is zero after the data. */
  ghost predicate WellFormed(cfg: Config, x: Context) {
    && |x.buffer| == cfg.capacity && x.count <= cfg.capacity
    && (x.inHeaders ==> forall i :: x.count <= i < cfg.capacity ==> x.buffer[i] == NUL)
  }

  // ---------- Status line and Content-Length ----------

  datatype Judgement = BadHeaders(err: HttpError) | NoLength | Accept(contentLength: nat)

  /** sscanf with the format "HTTP/%d.%d %d ", when all three numbers convert. */
  function ScanStatusLine(text: string): Option<(int, int, int)> {
    if !OccursAt(text, "HTTP/", 0) then None else
    match ScanInt(text[5..])
    case None => None
    case Some((major, r)) =>
      if r == [] || r[0] != '.' then None else
      match ScanInt(r[1..])
      case None => None
      case Some((minor, r2)) =>
        match ScanInt(r2)
        case None => None
        case Some((status, _)) => Some((major, minor, status))
  }

  const CONTENT_LENGTH := "Content-Length:"

  /** The decision on the header text. The parsed int is stored in a size_t. */
  function Judge(text: string): Judgement {
    match ScanStatusLine(text)
    case None => BadHeaders(InvalidStatusLine)
    case Some((major, _, status)) =>
      if major != 1 then BadHeaders(VersionNotSupported)
      else if status != 200 then BadHeaders(Non200(status))
      else
        match KeyValueInt(text, CONTENT_LENGTH)
        case None => NoLength
        case Some(n) => Accept(n % WORD)
  }

  // ---------- https_tls_callback ----------

  const TERMINATOR := "\r\n\r\n"

  function Append(x: Context, bytes: string): (x': Context)
    requires x.count + |bytes| <= |x.buffer|
    ensures |x'.buffer| == |x.buffer| && x'.count <= |x'.buffer|
  {
    x.(buffer := x.buffer[..x.count] + bytes + x.buffer[x.count + |bytes|..],
       count := x.count + |bytes|,
       total := (x.total + |bytes|) % WORD)
  }

  datatype HeaderStep = Incomplete | Refused(err: HttpError) | Unsized | Enter(x: Context) | OutOfBounds

  /** memcpy of the leftover body bytes to the start of the buffer, and the NUL after them. */
  function MoveToFront(buffer: string, leftover: string): (r: string)
    requires |leftover| < |buffer|
    ensures |r| == |buffer|
  {
    leftover + [NUL] + buffer[|leftover| + 1..]
  }

  function Slice(source: string, start: nat, len: nat): (r: string)
    requires len == 0 || start + len <= |source|
    ensures |r| == len
  {
    if len == 0 then [] else source[start..start + len]
  }

  /** The context in which the body begins, with `leftover` at the start of the buffer. */
  function Entered(buffer: string, leftover: string, contentLength: nat): Context
    requires |leftover| < |buffer|
  {
    Context(MoveToFront(buffer, leftover), |leftover|, |leftover| % WORD, contentLength, false)
  }

  lemma TerminatorInData(cfg: Config, x: Context)
    requires WellFormed(cfg, x) && x.inHeaders && StrStr(x.buffer, TERMINATOR).Found?
    ensures StrStr(x.buffer, TERMINATOR).at + 4 <= x.count
  {
    var text, at := Text(x.buffer), StrStr(x.buffer, TERMINATOR).at;
    assert OccursAt(text, TERMINATOR, at);
    assert text[at..at + 4][3] == '\n';
    assert text[at + 3] == x.buffer[at + 3] == '\n';
  }

  /** The header part of the callback, after the latest chunk has been appended; `mem` is the TLS buffer. */
  function Headers(cfg: Config, x: Context, mem: string): (step: HeaderStep)
    requires WellFormed(cfg, x) && x.inHeaders
    ensures step.Enter? ==> WellFormed(cfg, step.x) && !step.x.inHeaders && step.x.total == step.x.count % WORD
  {
    match StrStr(x.buffer, TERMINATOR)
    case Overrun => OutOfBounds
    case Absent => Incomplete
    case Found(endOfHeader) =>
      var nofHeaderBytes := endOfHeader + 4;
      match Judge(x.buffer[..endOfHeader])
      case BadHeaders(err) => Refused(err)
      case NoLength => Unsized
      case Accept(contentLength) =>
        TerminatorInData(cfg, x);
        var buffer := x.buffer[endOfHeader := NUL];
        var left := x.count - nofHeaderBytes;
        var source := if cfg.source == LatestChunk then mem else buffer;
        if left > 0 && |source| < x.count then OutOfBounds
        else Enter(Entered(buffer, Slice(source, nofHeaderBytes, left), contentLength))
  }

  /** The end of the headers is marked with a NUL even if they are refused. */
  function Terminated(x: Context): (x': Context)
    ensures |x'.buffer| == |x.buffer| && x' == x.(buffer := x'.buffer)
    ensures forall i :: 0 <= i < |x.buffer| && x.buffer[i] == NUL ==> x'.buffer[i] == NUL
  {
    match StrStr(x.buffer, TERMINATOR)
    case Found(e) => if e < |x.buffer| then x.(buffer := x.buffer[e := NUL]) else x
    case _ => x
  }

  /** The body part: hand over what is complete. */
  function Body<C>(client: Client<C>, cfg: Config, x: Context, c: C): (Context, C, Verdict)
    requires x.count <= |x.buffer|
  {
    var fragment, rest := x.buffer[..x.count], x.buffer[x.count..];
    match cfg.mode
    case WaitForCompleteBody =>
      if x.count < x.contentLength then (x, c, Continue)
      else (x, client.body(c, fragment, rest).c, Stop)
    case StreamBody =>
      if x.count == 0 then (x, c, Continue)
      else
        var reply := client.body(c, fragment, rest);
        if !reply.more then (x, reply.c, Stop)
        else if x.total >= x.contentLength then (x, client.body(reply.c, [], x.buffer).c, Stop)
        else (x.(count := 0), reply.c, Continue)
  }

  /** The callback once the data has been appended. */
  function Process<C>(client: Client<C>, cfg: Config, x: Context, c: C, mem: string): (r: (Context, C, Verdict))
    requires WellFormed(cfg, x)
    ensures WellFormed(cfg, r.0)
  {
    if !x.inHeaders then Body(client, cfg, x, c)
    else
      match Headers(cfg, x, mem)
      case Incomplete => (x, c, Continue)
      case Refused(err) => (Terminated(x), client.error(c, err), Stop)
      case Unsized => (Terminated(x), c, Stop)
      case OutOfBounds => (Terminated(x), c, Fault)
      case Enter(x2) => Body(client, cfg, x2, c)
  }

  function TlsCallback<C>(client: Client<C>, cfg: Config, x0: Context, c: C, mem: string, index: nat, len: nat)
    : (r: (Context, C, Verdict))
    requires len <= |mem| && (index > 0 ==> WellFormed(cfg, x0))
    ensures WellFormed(cfg, r.0)
  {
    var x := if index == 0 then Cleared(cfg) else x0;
    if x.count + len > cfg.capacity then (x, client.error(c, BufferTooSmall), Stop)
    else Process(client, cfg, Append(x, mem[..len]), c, mem)
  }

  /** The callback as wifi_tls_send_request sees it. */
  ghost function AsCallback<C>(client: Client<C>, cfg: Config): Callback<(Context, C)> {
    (s: (Context, C), mem: string, index: nat, len: nat) =>
      if len <= |mem| && (index > 0 ==> WellFormed(cfg, s.0)) then
        var (x, c, verdict) := TlsCallback(client, cfg, s.0, s.1, mem, index, len);
        ((x, c), verdict)
      else (s, Fault)
  }
}
