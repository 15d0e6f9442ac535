/** The order of the callbacks a request makes, for every client behaviour. */
module HttpTrace {
  import opened Platform
  import opened CStrings
  import opened Tls
  import opened Http
  import opened HttpPlan

  datatype Event = Called(bytes: string) | Failed(err: HttpError)

  /** A client that writes down its callbacks and decides by all it has seen whether to go on. */
  ghost function Recorder(decide: seq<Event> -> bool): Client<seq<Event>> {
    Client((t: seq<Event>, fragment: string, rest: string) => Reply(t + [Called(fragment)], decide(t + [Called(fragment)])),
           (t: seq<Event>, err: HttpError) => t + [Failed(err)])
  }

  /** Only calls with data, except that the last may be empty and then follows one with data; the client
      agreed to go on after every call but the last. */
  ghost predicate StreamGrammar(decide: seq<Event> -> bool, t: seq<Event>) {
    && (forall i :: 0 <= i < |t| ==> t[i].Called?)
    && (forall i :: 0 <= i < |t| - 1 ==> t[i].bytes != "" && decide(t[..i + 1]))
    && (|t| == 1 ==> t[0].bytes != "")
  }

  ghost predicate Grammar(mode: Mode, decide: seq<Event> -> bool, t: seq<Event>) {
    || (|t| == 1 && t[0].Failed?)
    || (mode == WaitForCompleteBody && |t| <= 1)
    || (mode == StreamBody && StreamGrammar(decide, t))
  }

  lemma GrammarGrows(decide: seq<Event> -> bool, t: seq<Event>, e: Event)
    requires StreamGrammar(decide, t) && e.Called? && (t == [] || t[|t| - 1].bytes != "") && (t == [] || decide(t))
    requires t == [] ==> e.bytes != ""
    ensures StreamGrammar(decide, t + [e])
  {
    var t' := t + [e];
    forall i | 0 <= i < |t'| - 1 ensures t'[i].bytes != "" && decide(t'[..i + 1]) {
      assert t'[i] == t[i] && t'[..i + 1] == t[..i + 1];
      assert i == |t| - 1 ==> t[..i + 1] == t;
    }
  }

  lemma {:induction false} DriveGrammar(decide: seq<Event> -> bool, contentLength: nat, fragments: seq<string>, size: nat, total: nat, t: seq<Event>)
    requires StreamGrammar(decide, t) && (t == [] || (t[|t| - 1].bytes != "" && decide(t))) && Fits(fragments, size)
    ensures StreamGrammar(decide, Drive(Recorder(decide), contentLength, fragments, total, t).0)
    decreases |fragments|
  {
    if fragments != [] {
      var t' := t + [Called(fragments[0])];
      GrammarGrows(decide, t, Called(fragments[0]));
      assert Recorder(decide).body(t, fragments[0], []) == Reply(t', decide(t'));
      if decide(t') {
        var total' := (total + |fragments[0]|) % WORD;
        if total' >= contentLength {
          GrammarGrows(decide, t', Called([]));
          assert Recorder(decide).body(t', [], []).c == t' + [Called([])];
        } else {
          DriveGrammar(decide, contentLength, fragments[1..], size, total', t');
        }
      }
    }
  }

  /** In stream mode no fragment is empty or larger than the buffer. */
  lemma {:induction false} PlanFragmentsFit(cfg: Config, x: Context, mem: string, chunks: seq<string>)
    requires WellFormed(cfg, x) && x.inHeaders && Fits(chunks, |mem|) && (cfg.mode == StreamBody ==> |mem| <= cfg.capacity)
    ensures cfg.mode == StreamBody ==> !PlanOf(cfg, x, mem, chunks).Whole?
    ensures var plan := PlanOf(cfg, x, mem, chunks); plan.Streamed? ==> Fits(plan.fragments, cfg.capacity) && cfg.mode == StreamBody
    decreases |chunks|, 0
  {
    if chunks != [] && x.count + |chunks[0]| <= cfg.capacity {
      PlanOne(cfg, x, mem, chunks);
      HeaderFragmentsFit(cfg, Append(x, chunks[0]), Store(mem, chunks[0]), chunks[1..]);
    }
  }

  lemma {:induction false} HeaderFragmentsFit(cfg: Config, x: Context, mem: string, chunks: seq<string>)
    requires WellFormed(cfg, x) && x.inHeaders && Fits(chunks, |mem|) && (cfg.mode == StreamBody ==> |mem| <= cfg.capacity)
    ensures cfg.mode == StreamBody ==> !HeaderPlan(cfg, x, mem, chunks).Whole?
    ensures var plan := HeaderPlan(cfg, x, mem, chunks); plan.Streamed? ==> Fits(plan.fragments, cfg.capacity) && cfg.mode == StreamBody
    decreases |chunks|, 1
  {
    hide PlanOf, Collect, StrStr, Judge;
    match Headers(cfg, x, mem)
    case Incomplete => PlanFragmentsFit(cfg, x, mem, chunks);
    case Enter(x2) => if cfg.mode == WaitForCompleteBody { CollectNeverStreams(cfg, x2, chunks); }
    case _ =>
  }

  lemma {:induction false} CollectNeverStreams(cfg: Config, x: Context, chunks: seq<string>)
    requires WellFormed(cfg, x) && !x.inHeaders
    ensures !Collect(cfg, x, chunks).Streamed?
    decreases |chunks|
  {
    if x.count < x.contentLength && chunks != [] && x.count + |chunks[0]| <= cfg.capacity {
      CollectNeverStreams(cfg, Append(x, chunks[0]), chunks[1..]);
    }
  }

  /** For every request, every chunking and every client: at most one error callback, never together with a
      body callback; in wait mode at most one body callback; in stream mode the stream grammar. */
  lemma CallbackGrammar(cfg: Config, x: Context, mem: string, chunks: seq<string>, decide: seq<Event> -> bool)
    requires Fits(chunks, |mem|) && (cfg.mode == StreamBody ==> |mem| <= cfg.capacity < WORD) && cfg.capacity < WORD
    ensures Grammar(cfg.mode, decide, Result(Run(Recorder(decide), cfg, x, mem, chunks, 0, [])).0)
  {
    var plan := PlanOf(cfg, Cleared(cfg), mem, chunks);
    ProcessorExecutesPlan(Recorder(decide), cfg, x, mem, chunks, []);
    PlanFragmentsFit(cfg, Cleared(cfg), mem, chunks);
    if plan.Streamed? {
      DriveGrammar(decide, plan.contentLength, plan.fragments, cfg.capacity, 0, []);
    }
  }
}
