/** When the search for the end of the headers runs past the response buffer, and what else becomes of a header
    block that does not fit. */
module HttpOverrun {
  import opened Platform
  import opened CStrings
  import opened Tls
  import opened Http
  import opened HttpPlan
  import opened HttpStream
  import opened IapImage

  /** Some prefix of the chunks has exactly `room` bytes. */
  predicate Fills(chunks: seq<string>, room: nat)
    decreases |chunks|
  {
    chunks != [] && (|chunks[0]| == room || (|chunks[0]| < room && Fills(chunks[1..], room - |chunks[0]|)))
  }

  /** No terminator lies wholly within the first `n` bytes. */
  ghost predicate Unended(stream: string, n: nat) {
    forall j: nat :: j + 4 <= n ==> !OccursAt(stream, TERMINATOR, j)
  }

  /** No NUL is among the first `n` bytes. */
  ghost predicate NulFree(stream: string, n: nat) {
    forall i :: 0 <= i < n && i < |stream| ==> stream[i] != NUL
  }

  /** The first `capacity` bytes hold no NUL and no terminator, and some chunk ends exactly behind them, when the
      chunks begin with `room` bytes still free. */
  ghost predicate Overruns(stream: string, chunks: seq<string>, room: nat, capacity: nat) {
    capacity <= |stream| && Fills(chunks, room) && NUL !in stream[..capacity] && Unended(stream, capacity)
  }

  /** What the search finds in a buffer that holds the first `n` bytes of the stream. */
  lemma SearchFinds(cfg: Config, stream: string, n: nat)
    requires n <= |stream| && n <= cfg.capacity
    ensures match StrStr(Collected(cfg, stream[..n]).buffer, TERMINATOR)
      case Found(e) => e + 4 <= n && OccursAt(stream, TERMINATOR, e)
      case Absent => NUL in stream[..n] || (n < cfg.capacity && Unended(stream, n))
      case Overrun => n == cfg.capacity && NUL !in stream[..n] && Unended(stream, n)
  {
    var acc := stream[..n];
    var buffer := Collected(cfg, acc).buffer;
    CollectedText(cfg, acc);
    var text := Text(buffer);
    assert |text| < n ==> acc[|text|] == NUL;
    assert n == cfg.capacity ==> buffer == acc;
    assert text == stream[..|text|];
    forall j: nat | j + 4 <= |text| ensures OccursAt(text, TERMINATOR, j) <==> OccursAt(stream, TERMINATOR, j) {
      assert text[j..j + 4] == stream[j..j + 4];
    }
  }

  lemma {:induction false} CollectIsNotBroken(cfg: Config, x: Context, chunks: seq<string>)
    requires WellFormed(cfg, x) && !x.inHeaders
    ensures !Collect(cfg, x, chunks).Broken?
    decreases |chunks|
  {
    if x.count < x.contentLength && chunks != [] && x.count + |chunks[0]| <= cfg.capacity {
      CollectIsNotBroken(cfg, Append(x, chunks[0]), chunks[1..]);
    }
  }

  lemma FoundStaysInBounds(cfg: Config, x: Context, mem: string)
    requires WellFormed(cfg, x) && x.inHeaders && cfg.capacity <= |mem| && StrStr(x.buffer, TERMINATOR).Found?
    ensures Headers(cfg, x, mem) != OutOfBounds && Headers(cfg, x, mem) != Incomplete
  {
    hide StrStr, Judge;
  }

  /** Once the terminator is found nothing runs past a buffer. */
  lemma FoundIsNotBroken(cfg: Config, x: Context, mem: string, chunks: seq<string>)
    requires WellFormed(cfg, x) && x.inHeaders && Fits(chunks, |mem|) && cfg.capacity <= |mem|
    requires StrStr(x.buffer, TERMINATOR).Found?
    ensures !HeaderPlan(cfg, x, mem, chunks).Broken?
  {
    hide Headers, StrStr, PlanOf, Collect;
    FoundStaysInBounds(cfg, x, mem);
    match Headers(cfg, x, mem)
    case Enter(x2) => if cfg.mode == WaitForCompleteBody { CollectIsNotBroken(cfg, x2, chunks); }
    case _ =>
  }

  lemma OverrunIsBroken(cfg: Config, x: Context, mem: string, chunks: seq<string>)
    requires WellFormed(cfg, x) && x.inHeaders && Fits(chunks, |mem|)
    requires StrStr(x.buffer, TERMINATOR) == Overrun
    ensures HeaderPlan(cfg, x, mem, chunks) == Broken
  {
  }

  lemma FullIsNotBroken(cfg: Config, x: Context, mem: string, chunks: seq<string>)
    requires WellFormed(cfg, x) && x.inHeaders && Fits(chunks, |mem|) && x.count == cfg.capacity
    ensures !PlanOf(cfg, x, mem, chunks).Broken?
  {
  }

  /** For every stream and every chunking, whatever it holds: something runs past a buffer if and only if the
      first `capacity` bytes hold neither a NUL nor a whole terminator and some chunk ends exactly there. */
  lemma BrokenIff(cfg: Config, mem: string, chunks: seq<string>)
    requires Fits(chunks, |mem|) && 0 < cfg.capacity <= |mem|
    ensures PlanOf(cfg, Cleared(cfg), mem, chunks).Broken? <==> Overruns(Flat(chunks), chunks, cfg.capacity, cfg.capacity)
  {
    hide PlanOf, Overruns, Flat;
    NothingCollected(cfg);
    assert [] + Flat(chunks) == Flat(chunks);
    BrokenFrom(cfg, [], mem, chunks, Flat(chunks), Cleared(cfg));
  }

  lemma {:induction false} BrokenFrom(cfg: Config, acc: string, mem: string, chunks: seq<string>, stream: string, x: Context)
    requires Fits(chunks, |mem|) && cfg.capacity <= |mem| && stream == acc + Flat(chunks)
    requires |acc| < cfg.capacity && x == Collected(cfg, acc) && WellFormed(cfg, x)
    ensures PlanOf(cfg, x, mem, chunks).Broken? <==> Overruns(stream, chunks, cfg.capacity - |acc|, cfg.capacity)
    decreases |chunks|
  {
    if chunks != [] && |acc| + |chunks[0]| <= cfg.capacity {
      hide PlanOf, HeaderPlan, Headers, StrStr, Unended, WellFormed;
      var acc', mem' := acc + chunks[0], Store(mem, chunks[0]);
      var x' := Collected(cfg, acc');
      assert stream == acc' + Flat(chunks[1..]);
      assert acc' == stream[..|acc'|];
      AppendCollected(cfg, acc, chunks[0]);
      CollectedWellFormed(cfg, acc');
      PlanOne(cfg, x, mem, chunks);
      SearchFinds(cfg, stream, |acc'|);
      match StrStr(x'.buffer, TERMINATOR)
      case Found(e) =>
        FoundIsNotBroken(cfg, x', mem', chunks[1..]);
        NotUnended(stream, e, cfg.capacity);
      case Absent =>
        HeadersIncomplete(cfg, x', mem', chunks[1..]);
        if |acc'| < cfg.capacity {
          BrokenFrom(cfg, acc', mem', chunks[1..], stream, x');
        } else {
          FullIsNotBroken(cfg, x', mem', chunks[1..]);
        }
      case Overrun =>
        OverrunIsBroken(cfg, x', mem', chunks[1..]);
    }
  }

  lemma NotUnended(stream: string, e: nat, n: nat)
    requires OccursAt(stream, TERMINATOR, e) && e + 4 <= n
    ensures !Unended(stream, n)
  {
  }

  lemma FlatOne(acc: string, chunks: seq<string>)
    requires chunks != []
    ensures acc + Flat(chunks) == (acc + chunks[0]) + Flat(chunks[1..])
  {
  }

  lemma OverflowIsRejected(cfg: Config, x: Context, mem: string, chunks: seq<string>)
    requires WellFormed(cfg, x) && x.inHeaders && Fits(chunks, |mem|)
    requires chunks != [] && x.count + |chunks[0]| > cfg.capacity
    ensures PlanOf(cfg, x, mem, chunks) == Rejected(BufferTooSmall)
  {
  }

  /** One chunk after which the search finds no terminator. */
  lemma ChunkSearched(cfg: Config, acc: string, mem: string, chunks: seq<string>, x: Context, acc': string, mem': string, rest: seq<string>)
    requires Fits(chunks, |mem|) && chunks != [] && acc' == acc + chunks[0] && |acc'| <= cfg.capacity
    requires mem' == Store(mem, chunks[0]) && rest == chunks[1..] && x == Collected(cfg, acc) && WellFormed(cfg, x)
    requires StrStr(Collected(cfg, acc').buffer, TERMINATOR) == if |acc'| < cfg.capacity then Absent else Overrun
    ensures Fits(rest, |mem'|) && WellFormed(cfg, Collected(cfg, acc')) && Collected(cfg, acc').inHeaders
    ensures PlanOf(cfg, x, mem, chunks) ==
      if |acc'| == cfg.capacity then Broken else PlanOf(cfg, Collected(cfg, acc'), mem', rest)
  {
    hide PlanOf, HeaderPlan, StrStr, WellFormed, Collected, Append;
    CollectedWellFormed(cfg, acc);
    CollectedWellFormed(cfg, acc');
    AppendCollected(cfg, acc, chunks[0]);
    PlanOne(cfg, x, mem, chunks);
    if |acc'| == cfg.capacity {
      OverrunIsBroken(cfg, Collected(cfg, acc'), mem', rest);
    } else {
      HeadersIncomplete(cfg, Collected(cfg, acc'), mem', rest);
    }
  }

  /** A stream whose header block does not end within the buffer, though it may end later: the search runs past
      the buffer if and only if some chunk makes it exactly full, and otherwise a longer stream is rejected. */
  lemma SearchOverrunsIff(cfg: Config, mem: string, chunks: seq<string>)
    requires Fits(chunks, |mem|) && 0 < cfg.capacity && Unended(Flat(chunks), cfg.capacity)
    requires NulFree(Flat(chunks), cfg.capacity)
    ensures PlanOf(cfg, Cleared(cfg), mem, chunks) ==
      if Fills(chunks, cfg.capacity) then Broken
      else if |Flat(chunks)| > cfg.capacity then Rejected(BufferTooSmall)
      else Waiting
  {
    NothingCollected(cfg);
    assert [] + Flat(chunks) == Flat(chunks);
    UnendedFrom(cfg, [], mem, chunks, Flat(chunks), Cleared(cfg));
  }

  lemma SearchUnended(cfg: Config, stream: string, k: nat)
    requires Unended(stream, cfg.capacity) && NulFree(stream, cfg.capacity) && k <= |stream| && k <= cfg.capacity
    ensures StrStr(Collected(cfg, stream[..k]).buffer, TERMINATOR) == if k < cfg.capacity then Absent else Overrun
  {
    hide StrStr;
    SearchFinds(cfg, stream, k);
    assert forall i :: 0 <= i < k ==> stream[..k][i] == stream[i];
  }

  lemma {:induction false} UnendedFrom(cfg: Config, acc: string, mem: string, chunks: seq<string>, stream: string, x: Context)
    requires Fits(chunks, |mem|) && stream == acc + Flat(chunks)
    requires NulFree(stream, cfg.capacity) && Unended(stream, cfg.capacity)
    requires |acc| < cfg.capacity && x == Collected(cfg, acc) && WellFormed(cfg, x)
    ensures PlanOf(cfg, x, mem, chunks) ==
      if Fills(chunks, cfg.capacity - |acc|) then Broken
      else if |stream| > cfg.capacity then Rejected(BufferTooSmall)
      else Waiting
    decreases |chunks|
  {
    hide PlanOf, WellFormed, Flat, StrStr, NulFree, Unended;
    if chunks == [] {
      NothingComes(cfg, acc, mem, x);
    } else {
      var acc', mem', rest := acc + chunks[0], Store(mem, chunks[0]), chunks[1..];
      FlatOne(acc, chunks);
      if |acc'| > cfg.capacity {
        OverflowIsRejected(cfg, x, mem, chunks);
      } else {
        assert acc' == stream[..|acc'|];
        SearchUnended(cfg, stream, |acc'|);
        ChunkSearched(cfg, acc, mem, chunks, x, acc', mem', rest);
        if |acc'| < cfg.capacity {
          UnendedFrom(cfg, acc', mem', rest, stream, Collected(cfg, acc'));
        }
      }
    }
  }

  lemma NothingComes(cfg: Config, acc: string, mem: string, x: Context)
    requires |acc| <= cfg.capacity && x == Collected(cfg, acc) && WellFormed(cfg, x)
    ensures PlanOf(cfg, x, mem, []) == Waiting && acc + Flat([]) == acc
  {
  }

  /** What becomes of every response whose header block ends at `e`, however long it is and however it is cut:
      if the chunk with its end still fits the buffer, the block is judged as a whole; if not, the search runs past
      the buffer when some chunk fills it exactly, and the response is rejected when none does. */
  lemma HeaderOutcome(cfg: Config, mem: string, chunks: seq<string>, e: nat)
    requires Fits(chunks, |mem|) && HeaderEnds(Flat(chunks), e) && 0 < cfg.capacity
    ensures var at := CompleteAt([], mem, chunks, e + 4);
      && at.arrived == Arrived(chunks, e + 4)
      && PlanOf(cfg, Cleared(cfg), mem, chunks) ==
           if at.arrived <= cfg.capacity then PlanAfter(cfg, Flat(chunks), e, at)
           else if Fills(chunks, cfg.capacity) then Broken
           else Rejected(BufferTooSmall)
  {
    hide PlanOf, PlanAfter, HeaderEnds, Fills, CompleteAt;
    EndsWithin(Flat(chunks), e);
    var at := CompleteAt([], mem, chunks, e + 4);
    ArrivedIs([], mem, chunks, e + 4);
    if at.arrived <= cfg.capacity {
      PlanOfResponse(cfg, mem, chunks, e, at);
    } else {
      NothingCollected(cfg);
      assert [] + Flat(chunks) == Flat(chunks);
      TooLongFrom(cfg, [], mem, chunks, Flat(chunks), e, Cleared(cfg));
    }
  }

  lemma NothingCollected(cfg: Config)
    ensures Collected(cfg, []) == Cleared(cfg) && WellFormed(cfg, Cleared(cfg))
  {
  }

  lemma EndsWithin(stream: string, e: nat)
    requires HeaderEnds(stream, e)
    ensures e + 4 <= |stream| && OccursAt(stream, TERMINATOR, e)
    ensures NulFree(stream, e + 4) && forall j: nat :: j < e ==> !OccursAt(stream, TERMINATOR, j)
  {
    assert forall i :: 0 <= i < e + 4 ==> stream[i] == stream[..e + 4][i];
  }

  lemma SearchBeforeEnd(cfg: Config, stream: string, e: nat, k: nat)
    requires HeaderEnds(stream, e) && k < e + 4 && k <= cfg.capacity && k <= |stream|
    ensures StrStr(Collected(cfg, stream[..k]).buffer, TERMINATOR) == if k < cfg.capacity then Absent else Overrun
  {
    hide StrStr, HeaderEnds;
    EndsWithin(stream, e);
    SearchFinds(cfg, stream, k);
    assert forall i :: 0 <= i < k ==> stream[..k][i] == stream[i];
  }

  lemma {:induction false} TooLongFrom(cfg: Config, acc: string, mem: string, chunks: seq<string>, stream: string, e: nat, x: Context)
    requires Fits(chunks, |mem|) && stream == acc + Flat(chunks) && HeaderEnds(stream, e)
    requires |acc| < cfg.capacity && |acc| < e + 4 && |acc| + Arrived(chunks, e + 4 - |acc|) > cfg.capacity
    requires x == Collected(cfg, acc) && WellFormed(cfg, x)
    ensures PlanOf(cfg, x, mem, chunks) == if Fills(chunks, cfg.capacity - |acc|) then Broken else Rejected(BufferTooSmall)
    decreases |chunks|
  {
    hide PlanOf, WellFormed, HeaderEnds, Flat, StrStr;
    if |acc| + |chunks[0]| > cfg.capacity {
      OverflowIsRejected(cfg, x, mem, chunks);
    } else {
      var acc', mem', rest := acc + chunks[0], Store(mem, chunks[0]), chunks[1..];
      FlatOne(acc, chunks);
      assert acc' == stream[..|acc'|];
      SearchBeforeEnd(cfg, stream, e, |acc'|);
      ChunkSearched(cfg, acc, mem, chunks, x, acc', mem', rest);
      if |acc'| < cfg.capacity {
        TooLongFrom(cfg, acc', mem', rest, stream, e, Collected(cfg, acc'));
      }
    }
  }
}
