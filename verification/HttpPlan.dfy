/** The response processor, run over any chunks with any client, does what a plan says that depends on
    the chunks alone: the client only decides how far the plan is carried out. */
module HttpPlan {
  import opened Platform
  import opened CStrings
  import opened Tls
  import opened Http

  datatype Plan =
    | Waiting                                              // more data is needed before anything happens
    | Unknown                                              // no Content-Length: the request ends silently
    | Broken                                               // undefined behaviour
    | Rejected(err: HttpError)                             // the error callback
    | Whole(body: string, rest: string)                    // wait mode: the body callback
    | Streamed(contentLength: nat, fragments: seq<string>) // stream mode

  /** What the chunks lead to, from a context that is collecting headers. */
  ghost function PlanOf(cfg: Config, x: Context, mem: string, chunks: seq<string>): Plan
    requires WellFormed(cfg, x) && x.inHeaders && Fits(chunks, |mem|)
    decreases |chunks|, 0
  {
    if chunks == [] then Waiting
    else if x.count + |chunks[0]| > cfg.capacity then Rejected(BufferTooSmall)
    else HeaderPlan(cfg, Append(x, chunks[0]), Store(mem, chunks[0]), chunks[1..])
  }

  /** The same from a context to which a chunk has just been appended. */
  ghost function HeaderPlan(cfg: Config, x: Context, mem: string, chunks: seq<string>): Plan
    requires WellFormed(cfg, x) && x.inHeaders && Fits(chunks, |mem|)
    decreases |chunks|, 1
  {
    match Headers(cfg, x, mem)
    case Incomplete => PlanOf(cfg, x, mem, chunks)
    case Refused(err) => Rejected(err)
    case Unsized => Unknown
    case OutOfBounds => Broken
    case Enter(x2) => BodyPlan(cfg, x2, chunks)
  }

  /** The plan once the headers are complete: `x` holds the body bytes that came with them. */
  ghost function BodyPlan(cfg: Config, x: Context, chunks: seq<string>): Plan
    requires WellFormed(cfg, x) && !x.inHeaders
  {
    if cfg.mode == StreamBody then
      Streamed(x.contentLength, (if x.count == 0 then [] else [x.buffer[..x.count]]) + chunks)
    else Collect(cfg, x, chunks)
  }

  /** Wait mode, after the headers. */
  ghost function Collect(cfg: Config, x: Context, chunks: seq<string>): Plan
    requires WellFormed(cfg, x) && !x.inHeaders
    decreases |chunks|
  {
    if x.count >= x.contentLength then Whole(x.buffer[..x.count], x.buffer[x.count..])
    else if chunks == [] then Waiting
    else if x.count + |chunks[0]| > cfg.capacity then Rejected(BufferTooSmall)
    else Collect(cfg, Append(x, chunks[0]), chunks[1..])
  }

  /** Fragments go to the client until it stops or Content-Length is reached, which an empty fragment
      announces. `total` counts the bytes in a size_t. */
  ghost function Drive<C>(client: Client<C>, contentLength: nat, fragments: seq<string>, total: nat, c: C): (C, Verdict)
    decreases |fragments|
  {
    if fragments == [] then (c, Continue)
    else
      var reply := client.body(c, fragments[0], []);
      var total' := (total + |fragments[0]|) % WORD;
      if !reply.more then (reply.c, Stop)
      else if total' >= contentLength then (client.body(reply.c, [], []).c, Stop)
      else Drive(client, contentLength, fragments[1..], total', reply.c)
  }

  ghost function Execute<C>(client: Client<C>, plan: Plan, c: C): (C, Verdict) {
    match plan
    case Waiting => (c, Continue)
    case Unknown => (c, Stop)
    case Broken => (c, Fault)
    case Rejected(err) => (client.error(c, err), Stop)
    case Whole(body, rest) => (client.body(c, body, rest).c, Stop)
    case Streamed(contentLength, fragments) => Drive(client, contentLength, fragments, 0, c)
  }

  /** A streaming client looks at the announced bytes only. */
  ghost predicate ReadsFragmentOnly<C(!new)>(client: Client<C>) {
    forall c, fragment, rest :: client.body(c, fragment, rest) == client.body(c, fragment, [])
  }

  /** Every TLS chunk fits the response buffer of a streaming request. */
  ghost predicate Suits<C(!new)>(client: Client<C>, cfg: Config, size: nat) {
    cfg.capacity < WORD && (cfg.mode == StreamBody ==> ReadsFragmentOnly(client) && size <= cfg.capacity)
  }

  /** The context, the client's state and the verdict after the remaining chunks. */
  ghost function Run<C>(client: Client<C>, cfg: Config, x: Context, mem: string, chunks: seq<string>, index: nat, c: C): ((Context, C), Verdict)
    requires Fits(chunks, |mem|)
  {
    Deliver(AsCallback(client, cfg), mem, chunks, index, (x, c))
  }

  /** What the client sees of it. */
  function Result<C>(r: ((Context, C), Verdict)): (C, Verdict) {
    (r.0.1, r.1)
  }

  ghost function Resume<C>(client: Client<C>, cfg: Config, r: (Context, C, Verdict), mem: string, chunks: seq<string>, index: nat): ((Context, C), Verdict)
    requires Fits(chunks, |mem|)
  {
    if r.2 == Continue then Run(client, cfg, r.0, mem, chunks, index, r.1) else ((r.0, r.1), r.2)
  }

  lemma RunOne<C(!new)>(client: Client<C>, cfg: Config, x: Context, mem: string, chunks: seq<string>, index: nat, c: C)
    requires Fits(chunks, |mem|) && chunks != [] && (index > 0 ==> WellFormed(cfg, x))
    ensures var mem' := Store(mem, chunks[0]);
      Run(client, cfg, x, mem, chunks, index, c) ==
        Resume(client, cfg, TlsCallback(client, cfg, x, c, mem', index, |chunks[0]|), mem', chunks[1..], index + 1)
  {
  }

  lemma {:induction false} StreamingDrives<C(!new)>(client: Client<C>, cfg: Config, x: Context, mem: string,
                                                    chunks: seq<string>, index: nat, c: C)
    requires Suits(client, cfg, |mem|) && cfg.mode == StreamBody && Fits(chunks, |mem|)
    requires WellFormed(cfg, x) && !x.inHeaders && x.count == 0 && index > 0
    ensures Result(Run(client, cfg, x, mem, chunks, index, c)) == Drive(client, x.contentLength, chunks, x.total, c)
    decreases |chunks|
  {
    if chunks != [] {
      var mem' := Store(mem, chunks[0]);
      RunOne(client, cfg, x, mem, chunks, index, c);
      var (x', c', verdict) := TlsCallback(client, cfg, x, c, mem', index, |chunks[0]|);
      var x1 := Append(x, chunks[0]);
      assert x1.buffer[..x1.count] == chunks[0];
      if verdict == Continue {
        StreamingDrives(client, cfg, x', mem', chunks[1..], index + 1, c');
      }
    }
  }

  lemma {:induction false} CollectingExecutes<C(!new)>(client: Client<C>, cfg: Config, x: Context, mem: string,
                                                       chunks: seq<string>, index: nat, c: C)
    requires cfg.mode == WaitForCompleteBody && Fits(chunks, |mem|)
    requires WellFormed(cfg, x) && !x.inHeaders && index > 0 && x.count < x.contentLength
    ensures Result(Run(client, cfg, x, mem, chunks, index, c)) == Execute(client, Collect(cfg, x, chunks), c)
    decreases |chunks|
  {
    if chunks != [] {
      var mem' := Store(mem, chunks[0]);
      RunOne(client, cfg, x, mem, chunks, index, c);
      var (x', c', verdict) := TlsCallback(client, cfg, x, c, mem', index, |chunks[0]|);
      if verdict == Continue {
        CollectingExecutes(client, cfg, x', mem', chunks[1..], index + 1, c');
      }
    }
  }

  lemma BodyExecutes<C(!new)>(client: Client<C>, cfg: Config, x: Context, mem: string,
                              chunks: seq<string>, index: nat, c: C)
    requires Suits(client, cfg, |mem|) && Fits(chunks, |mem|)
    requires WellFormed(cfg, x) && !x.inHeaders && index > 0 && x.total == x.count % WORD
    ensures Result(Resume(client, cfg, Body(client, cfg, x, c), mem, chunks, index)) == Execute(client, BodyPlan(cfg, x, chunks), c)
  {
    var (x', c', verdict) := Body(client, cfg, x, c);
    if cfg.mode == WaitForCompleteBody {
      if verdict == Continue {
        CollectingExecutes(client, cfg, x, mem, chunks, index, c);
      }
    } else {
      if verdict == Continue {
        StreamingDrives(client, cfg, x', mem, chunks, index, c');
      }
      if x.count > 0 {
        var fragment := x.buffer[..x.count];
        assert ([fragment] + chunks)[1..] == chunks;
        assert client.body(c, fragment, x.buffer[x.count..]) == client.body(c, fragment, []);
      } else {
        assert [] + chunks == chunks;
      }
    }
  }

  /** The run from a context to which a chunk of headers has just been appended. */
  ghost function HeaderRun<C>(client: Client<C>, cfg: Config, x: Context, mem: string, chunks: seq<string>, index: nat, c: C): ((Context, C), Verdict)
    requires WellFormed(cfg, x) && x.inHeaders && Fits(chunks, |mem|)
  {
    match Headers(cfg, x, mem)
    case Incomplete => Run(client, cfg, x, mem, chunks, index, c)
    case Refused(err) => ((Terminated(x), client.error(c, err)), Stop)
    case Unsized => ((Terminated(x), c), Stop)
    case OutOfBounds => ((Terminated(x), c), Fault)
    case Enter(x2) => Resume(client, cfg, Body(client, cfg, x2, c), mem, chunks, index)
  }

  lemma HeadersOne<C(!new)>(client: Client<C>, cfg: Config, x: Context, mem: string, chunks: seq<string>, index: nat, c: C,
                            x1: Context, mem1: string, rest: seq<string>)
    requires WellFormed(cfg, x) && x.inHeaders && (index == 0 ==> x == Cleared(cfg))
    requires Fits(chunks, |mem|) && chunks != [] && x.count + |chunks[0]| <= cfg.capacity
    requires x1 == Append(x, chunks[0]) && mem1 == Store(mem, chunks[0]) && rest == chunks[1..]
    ensures WellFormed(cfg, x1) && x1.inHeaders && Fits(rest, |mem1|)
    ensures Run(client, cfg, x, mem, chunks, index, c) == HeaderRun(client, cfg, x1, mem1, rest, index + 1, c)
    ensures PlanOf(cfg, x, mem, chunks) == HeaderPlan(cfg, x1, mem1, rest)
  {
    RunOne(client, cfg, x, mem, chunks, index, c);
    PlanOne(cfg, x, mem, chunks);
  }

  lemma OverflowRejects<C(!new)>(client: Client<C>, cfg: Config, x: Context, mem: string, chunks: seq<string>, index: nat, c: C)
    requires WellFormed(cfg, x) && (index == 0 ==> x == Cleared(cfg))
    requires Fits(chunks, |mem|) && chunks != [] && x.count + |chunks[0]| > cfg.capacity
    ensures Result(Run(client, cfg, x, mem, chunks, index, c)) == Execute(client, Rejected(BufferTooSmall), c)
  {
    RunOne(client, cfg, x, mem, chunks, index, c);
  }

  lemma PlanOne(cfg: Config, x: Context, mem: string, chunks: seq<string>)
    requires WellFormed(cfg, x) && x.inHeaders
    requires Fits(chunks, |mem|) && chunks != [] && x.count + |chunks[0]| <= cfg.capacity
    ensures var x1 := Append(x, chunks[0]);
      WellFormed(cfg, x1) && x1.inHeaders &&
      PlanOf(cfg, x, mem, chunks) == HeaderPlan(cfg, x1, Store(mem, chunks[0]), chunks[1..])
  {
  }

  lemma {:induction false} HeadersExecute<C(!new)>(client: Client<C>, cfg: Config, x: Context, mem: string,
                                                   chunks: seq<string>, index: nat, c: C)
    requires Suits(client, cfg, |mem|) && Fits(chunks, |mem|)
    requires WellFormed(cfg, x) && x.inHeaders && (index == 0 ==> x == Cleared(cfg))
    ensures Result(Run(client, cfg, x, mem, chunks, index, c)) == Execute(client, PlanOf(cfg, x, mem, chunks), c)
    decreases |chunks|, 1
  {
    if chunks == [] {
    } else if x.count + |chunks[0]| > cfg.capacity {
      OverflowRejects(client, cfg, x, mem, chunks, index, c);
    } else {
      ChunkExecutes(client, cfg, x, mem, chunks, index, c,
                    Run(client, cfg, x, mem, chunks, index, c), PlanOf(cfg, x, mem, chunks));
    }
  }

  lemma {:induction false} ChunkExecutes<C(!new)>(client: Client<C>, cfg: Config, x: Context, mem: string, chunks: seq<string>,
                                                  index: nat, c: C, run: ((Context, C), Verdict), plan: Plan)
    requires Suits(client, cfg, |mem|) && Fits(chunks, |mem|) && chunks != []
    requires WellFormed(cfg, x) && x.inHeaders && (index == 0 ==> x == Cleared(cfg))
    requires x.count + |chunks[0]| <= cfg.capacity
    requires run == Run(client, cfg, x, mem, chunks, index, c) && plan == PlanOf(cfg, x, mem, chunks)
    ensures Result(run) == Execute(client, plan, c)
    decreases |chunks|, 0
  {
    hide Run, HeaderRun, PlanOf, HeaderPlan, Execute;
    var x1, mem1, rest := Append(x, chunks[0]), Store(mem, chunks[0]), chunks[1..];
    HeadersOne(client, cfg, x, mem, chunks, index, c, x1, mem1, rest);
    HeaderExecutes(client, cfg, x1, mem1, rest, index + 1, c, run, plan);
  }

  lemma {:induction false} HeaderExecutes<C(!new)>(client: Client<C>, cfg: Config, x: Context, mem: string, chunks: seq<string>,
                                                   index: nat, c: C, run: ((Context, C), Verdict), plan: Plan)
    requires Suits(client, cfg, |mem|) && Fits(chunks, |mem|)
    requires WellFormed(cfg, x) && x.inHeaders && index > 0
    requires run == HeaderRun(client, cfg, x, mem, chunks, index, c) && plan == HeaderPlan(cfg, x, mem, chunks)
    ensures Result(run) == Execute(client, plan, c)
    decreases |chunks|, 2
  {
    match Headers(cfg, x, mem)
    case Incomplete => HeadersExecute(client, cfg, x, mem, chunks, index, c);
    case Enter(x2) => BodyExecutes(client, cfg, x2, mem, chunks, index, c);
    case _ =>
  }

  /** The factorisation: for every client, every chunking and every old contents of the buffers, running
      the incremental processor is executing the plan of the chunks. */
  lemma ProcessorExecutesPlan<C(!new)>(client: Client<C>, cfg: Config, x: Context, mem: string, chunks: seq<string>, c: C)
    requires Suits(client, cfg, |mem|) && Fits(chunks, |mem|)
    ensures Result(Run(client, cfg, x, mem, chunks, 0, c)) == Execute(client, PlanOf(cfg, Cleared(cfg), mem, chunks), c)
  {
    HeadersExecute(client, cfg, Cleared(cfg), mem, chunks, 0, c);
    if chunks != [] {
      RunOne(client, cfg, x, mem, chunks, 0, c);
      RunOne(client, cfg, Cleared(cfg), mem, chunks, 0, c);
    }
  }
}
