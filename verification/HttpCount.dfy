/** The counters of a streaming request between two calls of the TLS callback. */
module HttpCount {
  import opened Platform
  import opened Tls
  import opened Http
  import opened HttpPlan
  import opened IapImage

  /** Between two chunks of the body the buffer is empty and the byte count is that of the fragments. */
  ghost predicate Streaming(x: Context, fragments: seq<string>) {
    !x.inHeaders && x.count == 0 && x.total == |Flat(fragments)| % WORD
  }

  lemma {:induction false} StreamingStays<C(!new)>(client: Client<C>, cfg: Config, x: Context, mem: string,
                                                   chunks: seq<string>, index: nat, c: C, sent: seq<string>)
    requires Suits(client, cfg, |mem|) && cfg.mode == StreamBody && Fits(chunks, |mem|)
    requires WellFormed(cfg, x) && Streaming(x, sent) && index > 0
    ensures var ((x', _), verdict) := Run(client, cfg, x, mem, chunks, index, c);
      verdict == Continue ==> Streaming(x', sent + chunks) && x'.contentLength == x.contentLength
    decreases |chunks|
  {
    if chunks == [] {
      assert sent + chunks == sent;
    } else {
      var mem' := Store(mem, chunks[0]);
      RunOne(client, cfg, x, mem, chunks, index, c);
      var (x', c', verdict) := TlsCallback(client, cfg, x, c, mem', index, |chunks[0]|);
      OneMore(sent, chunks[0], x.total);
      if verdict == Continue {
        StreamingStays(client, cfg, x', mem', chunks[1..], index + 1, c', sent + [chunks[0]]);
        assert sent + [chunks[0]] + chunks[1..] == sent + chunks;
      }
    }
  }

  lemma OneMore(sent: seq<string>, f: string, total: nat)
    requires total == |Flat(sent)| % WORD
    ensures (total + |f|) % WORD == |Flat(sent + [f])| % WORD
  {
    FlatAppend(sent, [f]);
    assert Flat([f]) == f;
  }

  /** What a context looks like that is waiting for the next chunk. */
  ghost predicate Awaiting(x: Context, plan: Plan) {
    if plan.Streamed? then Streaming(x, plan.fragments) && x.contentLength == plan.contentLength else x.inHeaders
  }

  lemma NothingDelivered<C(!new)>(client: Client<C>, cfg: Config, x: Context, mem: string, index: nat, c: C)
    requires WellFormed(cfg, x) && x.inHeaders
    ensures Run(client, cfg, x, mem, [], index, c) == ((x, c), Continue)
    ensures Awaiting(x, PlanOf(cfg, x, mem, []))
  {
  }

  lemma {:induction false} HeadersAwait<C(!new)>(client: Client<C>, cfg: Config, x: Context, mem: string,
                                                 chunks: seq<string>, index: nat, c: C)
    requires Suits(client, cfg, |mem|) && cfg.mode == StreamBody && Fits(chunks, |mem|)
    requires WellFormed(cfg, x) && x.inHeaders && (index == 0 ==> x == Cleared(cfg))
    ensures var ((x', _), verdict) := Run(client, cfg, x, mem, chunks, index, c);
      verdict == Continue ==> Awaiting(x', PlanOf(cfg, x, mem, chunks))
    decreases |chunks|, 0
  {
    hide Run, HeaderRun, PlanOf, HeaderPlan, Awaiting, Suits, Append;
    if chunks == [] {
      NothingDelivered(client, cfg, x, mem, index, c);
    } else if x.count + |chunks[0]| > cfg.capacity {
      OverflowRejects(client, cfg, x, mem, chunks, index, c);
    } else {
      var x1, mem1, rest := Append(x, chunks[0]), Store(mem, chunks[0]), chunks[1..];
      HeadersOne(client, cfg, x, mem, chunks, index, c, x1, mem1, rest);
      AfterHeadersAwait(client, cfg, x1, mem1, rest, index + 1, c);
    }
  }

  lemma {:induction false} AfterHeadersAwait<C(!new)>(client: Client<C>, cfg: Config, x: Context, mem: string,
                                                      chunks: seq<string>, index: nat, c: C)
    requires Suits(client, cfg, |mem|) && cfg.mode == StreamBody && Fits(chunks, |mem|)
    requires WellFormed(cfg, x) && x.inHeaders && index > 0
    ensures var ((x', _), verdict) := HeaderRun(client, cfg, x, mem, chunks, index, c);
      verdict == Continue ==> Awaiting(x', HeaderPlan(cfg, x, mem, chunks))
    decreases |chunks|, 1
  {
    match Headers(cfg, x, mem)
    case Incomplete => HeadersAwait(client, cfg, x, mem, chunks, index, c);
    case Enter(x2) => BodyAwaits(client, cfg, x2, mem, chunks, index, c);
    case _ =>
  }

  lemma BodyAwaits<C(!new)>(client: Client<C>, cfg: Config, x: Context, mem: string, chunks: seq<string>, index: nat, c: C)
    requires Suits(client, cfg, |mem|) && cfg.mode == StreamBody && Fits(chunks, |mem|)
    requires WellFormed(cfg, x) && !x.inHeaders && x.total == x.count % WORD && index > 0
    ensures var (x1, c1, verdict1) := Body(client, cfg, x, c);
      verdict1 == Continue ==>
        var ((x', _), verdict) := Run(client, cfg, x1, mem, chunks, index, c1);
        verdict == Continue ==> Awaiting(x', BodyPlan(cfg, x, chunks))
  {
    var (x1, c1, verdict1) := Body(client, cfg, x, c);
    if verdict1 == Continue {
      var sent := if x.count == 0 then [] else [x.buffer[..x.count]];
      assert sent != [] ==> Flat(sent) == sent[0];
      StreamingStays(client, cfg, x1, mem, chunks, index, c1, sent);
    }
  }

  /** After any chunks that left the request running, a streaming request is still collecting headers, or its buffer
      is empty, its byte count is the sum of the fragments it has delivered, and the next chunk fits. */
  lemma StreamingInvariant<C(!new)>(client: Client<C>, cfg: Config, x: Context, mem: string, chunks: seq<string>, c: C)
    requires Suits(client, cfg, |mem|) && cfg.mode == StreamBody && Fits(chunks, |mem|) && chunks != []
    ensures var ((x', _), verdict) := Run(client, cfg, x, mem, chunks, 0, c);
      verdict == Continue ==>
        Awaiting(x', PlanOf(cfg, Cleared(cfg), mem, chunks)) && (!x'.inHeaders ==> x'.count + |mem| <= cfg.capacity)
  {
    HeadersAwait(client, cfg, Cleared(cfg), mem, chunks, 0, c);
    FirstChunkClears(client, cfg, x, mem, chunks, c);
  }

  lemma FirstChunkClears<C(!new)>(client: Client<C>, cfg: Config, x: Context, mem: string, chunks: seq<string>, c: C)
    requires Fits(chunks, |mem|) && chunks != []
    ensures Run(client, cfg, x, mem, chunks, 0, c) == Run(client, cfg, Cleared(cfg), mem, chunks, 0, c)
  {
  }
}
