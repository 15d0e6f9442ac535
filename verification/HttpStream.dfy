/** What the plan is: the result of the incremental processor in terms of the whole byte stream. */
module HttpStream {
  import opened Platform
  import opened CStrings
  import opened Tls
  import opened Http
  import opened HttpPlan
  import opened IapImage

  /** The chunks with the first `n` bytes of the stream cut off. */
  function Cut(chunks: seq<string>, n: nat): seq<string>
    decreases |chunks|
  {
    if chunks == [] || n == 0 then chunks
    else if n < |chunks[0]| then [chunks[0][n..]] + chunks[1..]
    else Cut(chunks[1..], n - |chunks[0]|)
  }

  lemma {:induction false} CutDropsPrefix(chunks: seq<string>, n: nat)
    requires n <= |Flat(chunks)|
    ensures Flat(Cut(chunks, n)) == Flat(chunks)[n..]
    decreases |chunks|
  {
    if chunks != [] && n > 0 {
      if n < |chunks[0]| {
        var cut := [chunks[0][n..]] + chunks[1..];
        assert cut[1..] == chunks[1..];
      } else {
        CutDropsPrefix(chunks[1..], n - |chunks[0]|);
      }
    }
  }

  /** A moment of the delivery: how many bytes there are by then, the TLS buffer,
      and the chunks still to come. */
  datatype Moment = Moment(arrived: nat, mem: string, rest: seq<string>)

  /** The context that has collected `acc` and found no terminator in it. */
  function Collected(cfg: Config, acc: string): Context
    requires |acc| <= cfg.capacity
  {
    Context(acc + Zeros(cfg.capacity - |acc|), |acc|, |acc| % WORD, 0, true)
  }

  /** `stream` begins with a NUL-free header block whose first terminator is at `e`. */
  ghost predicate HeaderEnds(stream: string, e: nat) {
    Find(stream, TERMINATOR) == Some(e) && NUL !in stream[..e + 4]
  }

  lemma {:induction false} NulEndsText(mem: string, i: nat)
    requires i < |mem| && mem[i] == NUL
    ensures |Text(mem)| <= i
  {
    if i > 0 {
      NulEndsText(mem[1..], i - 1);
    }
  }

  lemma {:induction false} TextCovers(mem: string, s: string)
    requires NUL !in s && |s| <= |mem| && mem[..|s|] == s
    ensures |s| <= |Text(mem)|
  {
    if s != [] {
      assert s[0] in s;
      TextCovers(mem[1..], s[1..]);
    }
  }

  lemma CollectedText(cfg: Config, acc: string)
    requires |acc| <= cfg.capacity
    ensures var buffer := Collected(cfg, acc).buffer; var n := |Text(buffer)|;
      n <= |acc| && Text(buffer) == acc[..n] && (n < |acc| ==> acc[n] == NUL) &&
      |buffer| == cfg.capacity && (|acc| < cfg.capacity ==> NUL in buffer)
  {
    var buffer := Collected(cfg, acc).buffer;
    var text := Text(buffer);
    if |acc| < cfg.capacity {
      NulEndsText(buffer, |acc|);
    }
    assert buffer[..|acc|] == acc;
    assert text == buffer[..|acc|][..|text|];
  }

  lemma PrefixSlice(s: string, prefix: string, a: nat, b: nat)
    requires prefix <= s && a <= b <= |prefix|
    ensures prefix[a..b] == s[a..b]
  {
  }

  lemma SearchInCollected(cfg: Config, stream: string, e: nat, k: nat)
    requires HeaderEnds(stream, e) && k <= |stream| && k <= cfg.capacity
    ensures k < e + 4 && k < cfg.capacity ==> StrStr(Collected(cfg, stream[..k]).buffer, TERMINATOR) == Absent
    ensures k >= e + 4 ==> StrStr(Collected(cfg, stream[..k]).buffer, TERMINATOR) == Found(e)
  {
    CollectedText(cfg, stream[..k]);
    var text := Text(Collected(cfg, stream[..k]).buffer);
    assert text <= stream;
    forall j: nat | OccursAt(text, TERMINATOR, j) ensures j >= e {
      PrefixSlice(stream, text, j, j + 4);
      assert OccursAt(stream, TERMINATOR, j);
    }
    if k >= e + 4 {
      TextCovers(Collected(cfg, stream[..k]).buffer, stream[..e + 4]);
      PrefixSlice(stream, text, e, e + 4);
      FindIs(text, TERMINATOR, e);
    }
  }

  lemma AppendCollected(cfg: Config, acc: string, chunk: string)
    requires |acc| + |chunk| <= cfg.capacity
    ensures Append(Collected(cfg, acc), chunk) == Collected(cfg, acc + chunk)
  {
    var x := Collected(cfg, acc);
    assert x.buffer[..|acc|] == acc;
    assert x.buffer[|acc| + |chunk|..] == Zeros(cfg.capacity - |acc| - |chunk|);
    assert acc + chunk + x.buffer[|acc| + |chunk|..] == (acc + chunk) + Zeros(cfg.capacity - |acc + chunk|);
  }

  /** The plan of a stream whose header block ends at `e`, when `at` is the moment it is complete: the
      headers are judged as one text, and the body begins with the bytes copied from `source`. */
  ghost function PlanAfter(cfg: Config, stream: string, e: nat, at: Moment): Plan
    requires e + 4 <= at.arrived <= |stream| && at.arrived <= cfg.capacity
  {
    match Judge(stream[..e])
    case BadHeaders(err) => Rejected(err)
    case NoLength => Unknown
    case Accept(contentLength) =>
      var buffer := Collected(cfg, stream[..at.arrived]).buffer[e := NUL];
      var source := if cfg.source == LatestChunk then at.mem else buffer;
      if at.arrived > e + 4 && |source| < at.arrived then Broken
      else BodyPlan(cfg, Entered(buffer, Slice(source, e + 4, at.arrived - e - 4), contentLength), at.rest)
  }

  lemma HeadersFound(cfg: Config, x: Context, mem: string, e: nat, text: string)
    requires WellFormed(cfg, x) && x.inHeaders && StrStr(x.buffer, TERMINATOR) == Found(e) && e + 4 <= x.count
    requires e < |x.buffer| && text == x.buffer[..e]
    ensures Headers(cfg, x, mem) ==
      match Judge(text)
      case BadHeaders(err) => Refused(err)
      case NoLength => Unsized
      case Accept(contentLength) =>
        var buffer := x.buffer[e := NUL];
        var source := if cfg.source == LatestChunk then mem else buffer;
        if x.count > e + 4 && |source| < x.count then OutOfBounds
        else Enter(Entered(buffer, Slice(source, e + 4, x.count - e - 4), contentLength))
  {
  }

  lemma CollectedWellFormed(cfg: Config, acc: string)
    requires |acc| <= cfg.capacity
    ensures WellFormed(cfg, Collected(cfg, acc))
    ensures Collected(cfg, acc).inHeaders && Collected(cfg, acc).count == |acc| && |Collected(cfg, acc).buffer| == cfg.capacity
  {
  }

  lemma FoundAtMoment(cfg: Config, stream: string, e: nat, k: nat, x: Context)
    requires HeaderEnds(stream, e) && e + 4 <= k <= |stream| && k <= cfg.capacity && x == Collected(cfg, stream[..k])
    ensures StrStr(x.buffer, TERMINATOR) == Found(e) && x.inHeaders && x.count == k && |x.buffer| == cfg.capacity
    ensures x.buffer[..e] == stream[..e]
  {
    SearchInCollected(cfg, stream, e, k);
  }

  lemma HeadersAtMoment(cfg: Config, stream: string, e: nat, at: Moment, x: Context)
    requires HeaderEnds(stream, e)
    requires e + 4 <= at.arrived <= |stream| && at.arrived <= cfg.capacity && Fits(at.rest, |at.mem|)
    requires x == Collected(cfg, stream[..at.arrived]) && WellFormed(cfg, x)
    ensures HeaderPlan(cfg, x, at.mem, at.rest) == PlanAfter(cfg, stream, e, at)
  {
    hide Judge, BodyPlan, Entered, Slice, StrStr, Headers, HeaderEnds, WellFormed;
    FoundAtMoment(cfg, stream, e, at.arrived, x);
    HeadersFound(cfg, x, at.mem, e, stream[..e]);
  }

  lemma HeadersIncomplete(cfg: Config, x: Context, mem: string, chunks: seq<string>)
    requires WellFormed(cfg, x) && x.inHeaders && Fits(chunks, |mem|)
    requires StrStr(x.buffer, TERMINATOR) == Absent
    ensures HeaderPlan(cfg, x, mem, chunks) == PlanOf(cfg, x, mem, chunks)
  {
  }

  /** The moment at which the stream `acc` + Flat(chunks) has its first `m` bytes, if `acc` is there already. */
  function CompleteAt(acc: string, mem: string, chunks: seq<string>, m: nat): (at: Moment)
    requires Fits(chunks, |mem|) && 0 < m <= |acc| + |Flat(chunks)|
    ensures m <= at.arrived <= |acc| + |Flat(chunks)| && |at.mem| == |mem| && Fits(at.rest, |mem|)
    decreases |chunks|
  {
    if m <= |acc| then Moment(|acc|, mem, chunks)
    else CompleteAt(acc + chunks[0], Store(mem, chunks[0]), chunks[1..], m)
  }

  /** However the stream is chunked, the processor gets to the moment at which the header block is
      complete, provided the data collected by then fits the response buffer. */
  lemma {:induction false} PlanOfStream(cfg: Config, acc: string, mem: string, chunks: seq<string>, stream: string, e: nat,
                                        x: Context, at: Moment)
    requires HeaderEnds(stream, e) && Fits(chunks, |mem|) && stream == acc + Flat(chunks) && |acc| < e + 4
    requires at == CompleteAt(acc, mem, chunks, e + 4) && at.arrived <= cfg.capacity
    requires |acc| <= cfg.capacity && x == Collected(cfg, acc) && WellFormed(cfg, x)
    ensures PlanOf(cfg, x, mem, chunks) == PlanAfter(cfg, stream, e, at)
    decreases |chunks|, 1
  {
    var acc' := acc + chunks[0];
    assert stream == acc' + Flat(chunks[1..]);
    ArrivedGrows(acc', Store(mem, chunks[0]), chunks[1..], e + 4);
    AppendCollected(cfg, acc, chunks[0]);
    CollectedWellFormed(cfg, acc');
    PlanOne(cfg, x, mem, chunks);
    PlanOfChunk(cfg, acc', Store(mem, chunks[0]), chunks[1..], stream, e, Collected(cfg, acc'), at);
  }

  lemma {:induction false} ArrivedGrows(acc: string, mem: string, chunks: seq<string>, m: nat)
    requires Fits(chunks, |mem|) && 0 < m <= |acc| + |Flat(chunks)|
    ensures |acc| <= CompleteAt(acc, mem, chunks, m).arrived
    decreases |chunks|
  {
    if m > |acc| {
      ArrivedGrows(acc + chunks[0], Store(mem, chunks[0]), chunks[1..], m);
    }
  }

  /** The same just after the last chunk of `acc` has been appended. */
  lemma {:induction false} PlanOfChunk(cfg: Config, acc: string, mem: string, rest: seq<string>, stream: string, e: nat,
                                       x: Context, at: Moment)
    requires HeaderEnds(stream, e) && Fits(rest, |mem|) && stream == acc + Flat(rest) && |acc| <= cfg.capacity
    requires at == CompleteAt(acc, mem, rest, e + 4) && at.arrived <= cfg.capacity
    requires x == Collected(cfg, acc) && WellFormed(cfg, x)
    ensures HeaderPlan(cfg, x, mem, rest) == PlanAfter(cfg, stream, e, at)
    decreases |rest|, 2
  {
    assert acc == stream[..|acc|];
    if e + 4 <= |acc| {
      HeadersAtMoment(cfg, stream, e, at, x);
    } else {
      SearchInCollected(cfg, stream, e, |acc|);
      ArrivedGrows(acc, mem, rest, e + 4);
      HeadersIncomplete(cfg, x, mem, rest);
      PlanOfStream(cfg, acc, mem, rest, stream, e, x, at);
    }
  }

  // ---------- Chunking independence ----------

  /** How many bytes have arrived when the first `m` are complete. */
  function Arrived(chunks: seq<string>, m: nat): nat
    decreases |chunks|
  {
    if chunks == [] then 0
    else |chunks[0]| + if m <= |chunks[0]| then 0 else Arrived(chunks[1..], m - |chunks[0]|)
  }

  lemma {:induction false} ArrivedIs(acc: string, mem: string, chunks: seq<string>, m: nat)
    requires Fits(chunks, |mem|) && |acc| < m <= |acc| + |Flat(chunks)|
    ensures CompleteAt(acc, mem, chunks, m).arrived == |acc| + Arrived(chunks, m - |acc|)
    decreases |chunks|
  {
    if m > |acc| + |chunks[0]| {
      ArrivedIs(acc + chunks[0], Store(mem, chunks[0]), chunks[1..], m);
    }
  }

  /** The leftover body bytes followed by the chunks still to come are the chunks without the headers. */
  lemma {:induction false} CutAtMoment(acc: string, mem: string, chunks: seq<string>, n: nat)
    requires Fits(chunks, |mem|) && |acc| < n <= |acc| + |Flat(chunks)|
    ensures var at := CompleteAt(acc, mem, chunks, n);
      var leftover := (acc + Flat(chunks))[n..at.arrived];
      Cut(chunks, n - |acc|) == (if leftover == [] then [] else [leftover]) + at.rest
    decreases |chunks|
  {
    var stream, acc' := acc + Flat(chunks), acc + chunks[0];
    assert stream == acc' + Flat(chunks[1..]);
    if n > |acc'| {
      CutAtMoment(acc', Store(mem, chunks[0]), chunks[1..], n);
    } else {
      assert stream[n..|acc'|] == acc'[n..] == chunks[0][n - |acc|..];
      assert Cut(chunks[1..], 0) == chunks[1..];
    }
  }

  /** The body bytes that came with the headers are copied from the right place. */
  predicate CopiesRight(cfg: Config, chunks: seq<string>, n: nat)
    requires chunks != []
  {
    cfg.source == Accumulated || n <= |chunks[0]| || Arrived(chunks, n) == n
  }

  /** The plan of a streamed response, from the stream and its chunking alone. */
  ghost function StreamPlan(stream: string, e: nat, chunks: seq<string>): Plan
    requires e <= |stream|
  {
    match Judge(stream[..e])
    case BadHeaders(err) => Rejected(err)
    case NoLength => Unknown
    case Accept(contentLength) => Streamed(contentLength, Cut(chunks, e + 4))
  }

  lemma LeftoverRight(cfg: Config, mem: string, chunks: seq<string>, e: nat, at: Moment)
    requires Fits(chunks, |mem|) && HeaderEnds(Flat(chunks), e) && CopiesRight(cfg, chunks, e + 4)
    requires at == CompleteAt([], mem, chunks, e + 4) && at.arrived == Arrived(chunks, e + 4) <= cfg.capacity
    ensures var buffer := Collected(cfg, Flat(chunks)[..at.arrived]).buffer[e := NUL];
      var source := if cfg.source == LatestChunk then at.mem else buffer;
      (at.arrived > e + 4 ==> |source| >= at.arrived) &&
      Slice(source, e + 4, at.arrived - e - 4) == Flat(chunks)[e + 4..at.arrived]
  {
    var stream, n := Flat(chunks), e + 4;
    if at.arrived > n {
      if cfg.source == LatestChunk {
        assert at == Moment(|chunks[0]|, Store(mem, chunks[0]), chunks[1..]);
        assert at.mem[n..at.arrived] == chunks[0][n..] == stream[n..at.arrived];
      } else {
        var buffer := Collected(cfg, stream[..at.arrived]).buffer[e := NUL];
        assert buffer[n..at.arrived] == stream[n..at.arrived];
      }
    }
  }
  lemma PlanOfResponse(cfg: Config, mem: string, chunks: seq<string>, e: nat, at: Moment)
    requires Fits(chunks, |mem|) && HeaderEnds(Flat(chunks), e) && Arrived(chunks, e + 4) <= cfg.capacity
    requires at == CompleteAt([], mem, chunks, e + 4)
    ensures at.arrived == Arrived(chunks, e + 4) && e + 4 <= at.arrived <= |Flat(chunks)|
    ensures PlanOf(cfg, Cleared(cfg), mem, chunks) == PlanAfter(cfg, Flat(chunks), e, at)
  {
    assert [] + Flat(chunks) == Flat(chunks);
    ArrivedIs([], mem, chunks, e + 4);
    assert Collected(cfg, []) == Cleared(cfg);
    PlanOfStream(cfg, [], mem, chunks, Flat(chunks), e, Cleared(cfg), at);
  }

  lemma PlanAfterStreams(cfg: Config, stream: string, e: nat, at: Moment, leftover: string)
    requires e + 4 <= at.arrived <= |stream| && at.arrived <= cfg.capacity && cfg.mode == StreamBody
    requires var buffer := Collected(cfg, stream[..at.arrived]).buffer[e := NUL];
      var source := if cfg.source == LatestChunk then at.mem else buffer;
      (at.arrived > e + 4 ==> |source| >= at.arrived) && leftover == Slice(source, e + 4, at.arrived - e - 4)
    ensures PlanAfter(cfg, stream, e, at) ==
      match Judge(stream[..e])
      case BadHeaders(err) => Rejected(err)
      case NoLength => Unknown
      case Accept(contentLength) =>
        Streamed(contentLength, (if leftover == [] then [] else [leftover]) + at.rest)
  {
    var buffer := Collected(cfg, stream[..at.arrived]).buffer[e := NUL];
    var x := Entered(buffer, leftover, 0);
    assert x.buffer[..x.count] == leftover;
  }

  /** Independence of the chunking: the end of the headers, the decision on them and the concatenation of
      the fragments (see CutDropsPrefix) are those of the whole stream, whatever the buffers held before. */
  lemma StreamingIsChunkingIndependent(cfg: Config, mem: string, chunks: seq<string>, e: nat)
    requires cfg.mode == StreamBody && Fits(chunks, |mem|) && HeaderEnds(Flat(chunks), e)
    requires Arrived(chunks, e + 4) <= cfg.capacity
    requires CopiesRight(cfg, chunks, e + 4)
    ensures PlanOf(cfg, Cleared(cfg), mem, chunks) == StreamPlan(Flat(chunks), e, chunks)
  {
    hide PlanOf, PlanAfter, Judge, CompleteAt;
    var at := CompleteAt([], mem, chunks, e + 4);
    PlanOfResponse(cfg, mem, chunks, e, at);
    assert [] + Flat(chunks) == Flat(chunks);
    CutAtMoment([], mem, chunks, e + 4);
    LeftoverRight(cfg, mem, chunks, e, at);
    PlanAfterStreams(cfg, Flat(chunks), e, at, Flat(chunks)[e + 4..at.arrived]);
  }

  // ---------- The copy from the wrong buffer ----------

  /** If the headers end after the first chunk, the last leftover position of the TLS buffer has not been
      written by any read of this request. */
  lemma {:induction false} LastByteIsStale(acc: string, mem: string, chunks: seq<string>, m: nat)
    requires Fits(chunks, |mem|) && 0 < m <= |acc| + |Flat(chunks)| && acc != []
    ensures var at := CompleteAt(acc, mem, chunks, m);
      at.arrived <= |mem| ==> at.mem[at.arrived - 1] == mem[at.arrived - 1]
    decreases |chunks|
  {
    if m > |acc| {
      var mem' := Store(mem, chunks[0]);
      LastByteIsStale(acc + chunks[0], mem', chunks[1..], m);
      ArrivedGrows(acc + chunks[0], mem', chunks[1..], m);
    }
  }

  lemma StaleByte(mem: string, chunks: seq<string>, m: nat, at: Moment)
    requires Fits(chunks, |mem|) && 0 < m <= |Flat(chunks)| && |chunks[0]| < m
    requires at == CompleteAt([], mem, chunks, m) && at.arrived <= |mem|
    ensures at.mem[at.arrived - 1] == mem[at.arrived - 1]
  {
    var mem' := Store(mem, chunks[0]);
    assert [] + chunks[0] == chunks[0];
    LastByteIsStale(chunks[0], mem', chunks[1..], m);
  }

  /** The response is handled as its stream and chunking demand. */
  ghost predicate Right(cfg: Config, mem: string, chunks: seq<string>, e: nat)
    requires Fits(chunks, |mem|) && e <= |Flat(chunks)|
  {
    PlanOf(cfg, Cleared(cfg), mem, chunks) == StreamPlan(Flat(chunks), e, chunks)
  }

  /** As written, a streamed response is right for every old contents of the TLS buffer exactly when the
      header block ends in the first chunk, or no body byte shares a chunk with its end. */
  lemma LatestChunkCopiesRightIff(cfg: Config, size: nat, chunks: seq<string>, e: nat)
    requires cfg.mode == StreamBody && cfg.source == LatestChunk && cfg.capacity <= size
    requires Fits(chunks, size) && HeaderEnds(Flat(chunks), e) && Arrived(chunks, e + 4) <= cfg.capacity
    requires Judge(Flat(chunks)[..e]).Accept?
    ensures (forall mem: string :: |mem| == size ==> Right(cfg, mem, chunks, e)) <==> CopiesRight(cfg, chunks, e + 4)
  {
    if CopiesRight(cfg, chunks, e + 4) {
      forall mem: string | |mem| == size ensures Right(cfg, mem, chunks, e) {
        StreamingIsChunkingIndependent(cfg, mem, chunks, e);
      }
    } else {
      ArrivedAtLeast(chunks, e + 4);
      ArrivedIs([], Zeros(size), chunks, e + 4);
      var mem := SomeStaleBuffer(cfg, size, chunks, e, Judge(Flat(chunks)[..e]).contentLength,
                                 Flat(chunks), Arrived(chunks, e + 4) - 1);
    }
  }

  lemma SomeStaleBuffer(cfg: Config, size: nat, chunks: seq<string>, e: nat, contentLength: nat, stream: string, last: nat)
    returns (mem: string)
    requires cfg.mode == StreamBody && cfg.source == LatestChunk && cfg.capacity <= size
    requires Fits(chunks, size) && stream == Flat(chunks) && HeaderEnds(stream, e) && |chunks[0]| < e + 4
    requires e + 4 < Arrived(chunks, e + 4) == last + 1 <= cfg.capacity && last < |stream|
    requires Judge(stream[..e]) == Accept(contentLength)
    ensures |mem| == size && !Right(cfg, mem, chunks, e)
  {
    hide Right, Judge, HeaderEnds, CompleteAt, PlanOf, Arrived;
    mem := Differing(size, stream, last);
    ArrivedIs([], mem, chunks, e + 4);
    StaleLeftoverIsWrong(cfg, mem, chunks, e, contentLength, CompleteAt([], mem, chunks, e + 4), last, stream);
  }

  lemma {:induction false} ArrivedAtLeast(chunks: seq<string>, m: nat)
    requires m <= |Flat(chunks)|
    ensures m <= Arrived(chunks, m)
    decreases |chunks|
  {
    if chunks != [] && m > |chunks[0]| {
      ArrivedAtLeast(chunks[1..], m - |chunks[0]|);
    }
  }

  /** A buffer that differs from the stream at one position. */
  lemma Differing(size: nat, stream: string, i: nat) returns (mem: string)
    requires i < size && i < |stream|
    ensures |mem| == size && mem[i] != stream[i]
  {
    mem := Zeros(size)[i := if stream[i] == NUL then 'x' else NUL];
  }

  /** The plan when the last leftover byte is a stale one. */
  lemma StaleLeftover(cfg: Config, mem: string, chunks: seq<string>, e: nat, contentLength: nat, at: Moment, last: nat, stream: string)
    returns (leftover: string)
    requires cfg.mode == StreamBody && cfg.source == LatestChunk && cfg.capacity <= |mem|
    requires Fits(chunks, |mem|) && stream == Flat(chunks) && HeaderEnds(stream, e) && Arrived(chunks, e + 4) <= cfg.capacity
    requires Judge(stream[..e]) == Accept(contentLength) && |chunks[0]| < e + 4
    requires at == CompleteAt([], mem, chunks, e + 4) && at.arrived == last + 1 > e + 4 && last < |stream| && last < |mem|
    requires mem[last] != stream[last]
    ensures PlanOf(cfg, Cleared(cfg), mem, chunks) == Streamed(contentLength, [leftover] + at.rest)
    ensures |leftover| == at.arrived - (e + 4) && leftover[|leftover| - 1] != stream[last]
    ensures StreamPlan(stream, e, chunks) == Streamed(contentLength, [Slice(stream, e + 4, |leftover|)] + at.rest)
    ensures Slice(stream, e + 4, |leftover|)[|leftover| - 1] == stream[last]
  {
    hide PlanOf, Judge, CompleteAt, HeaderEnds, StreamPlan, Arrived;
    var len := at.arrived - (e + 4);
    var right := Slice(stream, e + 4, len);
    leftover := Slice(at.mem, e + 4, len);
    LeftoversDiffer(mem, chunks, e + 4, at, last, leftover, right);
    SliceLast(stream, e + 4, len);
    PlansAsWritten(cfg, mem, chunks, e, at, leftover, right, contentLength);
  }

  lemma StaleLeftoverIsWrong(cfg: Config, mem: string, chunks: seq<string>, e: nat, contentLength: nat, at: Moment, last: nat, stream: string)
    requires cfg.mode == StreamBody && cfg.source == LatestChunk && cfg.capacity <= |mem|
    requires Fits(chunks, |mem|) && stream == Flat(chunks) && HeaderEnds(stream, e) && Arrived(chunks, e + 4) <= cfg.capacity
    requires Judge(stream[..e]) == Accept(contentLength) && |chunks[0]| < e + 4
    requires at == CompleteAt([], mem, chunks, e + 4) && at.arrived == last + 1 > e + 4 && last < |stream| && last < |mem|
    requires mem[last] != stream[last]
    ensures !Right(cfg, mem, chunks, e)
  {
    hide PlanOf, Judge, CompleteAt, HeaderEnds, StreamPlan, Arrived, Slice;
    var leftover := StaleLeftover(cfg, mem, chunks, e, contentLength, at, last, stream);
    PlansDiffer(contentLength, leftover, Slice(stream, e + 4, |leftover|), at.rest);
  }

  lemma PlansAsWritten(cfg: Config, mem: string, chunks: seq<string>, e: nat, at: Moment, leftover: string, right: string, contentLength: nat)
    requires cfg.mode == StreamBody && cfg.source == LatestChunk && cfg.capacity <= |mem|
    requires Fits(chunks, |mem|) && HeaderEnds(Flat(chunks), e) && Arrived(chunks, e + 4) <= cfg.capacity
    requires at == CompleteAt([], mem, chunks, e + 4) && e + 4 < at.arrived <= |Flat(chunks)| && at.arrived <= |mem|
    requires Judge(Flat(chunks)[..e]) == Accept(contentLength)
    requires leftover == Slice(at.mem, e + 4, at.arrived - e - 4) && right == Slice(Flat(chunks), e + 4, at.arrived - e - 4)
    ensures PlanOf(cfg, Cleared(cfg), mem, chunks) == Streamed(contentLength, [leftover] + at.rest)
    ensures StreamPlan(Flat(chunks), e, chunks) == Streamed(contentLength, [right] + at.rest)
  {
    PlanOfResponse(cfg, mem, chunks, e, at);
    PlanAfterStreams(cfg, Flat(chunks), e, at, leftover);
    CutAfterHeaders(mem, chunks, e + 4, at);
  }

  lemma LeftoversDiffer(mem: string, chunks: seq<string>, n: nat, at: Moment, last: nat, leftover: string, right: string)
    requires Fits(chunks, |mem|) && 0 < n <= |Flat(chunks)| && |chunks[0]| < n
    requires at == CompleteAt([], mem, chunks, n) && n < at.arrived == last + 1 <= |mem|
    requires mem[last] != Flat(chunks)[last]
    requires leftover == Slice(at.mem, n, at.arrived - n) && right == Slice(Flat(chunks), n, at.arrived - n)
    ensures |leftover| == |right| > 0 && leftover[|leftover| - 1] != right[|right| - 1]
  {
    StaleByte(mem, chunks, n, at);
    SliceLast(at.mem, n, at.arrived - n);
    SliceLast(Flat(chunks), n, at.arrived - n);
  }

  lemma SliceLast(source: string, start: nat, len: nat)
    requires 0 < len && start + len <= |source|
    ensures Slice(source, start, len)[len - 1] == source[start + len - 1]
  {
  }

  lemma CutAfterHeaders(mem: string, chunks: seq<string>, n: nat, at: Moment)
    requires Fits(chunks, |mem|) && 0 < n <= |Flat(chunks)|
    requires at == CompleteAt([], mem, chunks, n) && at.arrived > n
    ensures Cut(chunks, n) == [Slice(Flat(chunks), n, at.arrived - n)] + at.rest
  {
    var stream := [] + Flat(chunks);
    assert stream == Flat(chunks);
    CutAtMoment([], mem, chunks, n);
    assert stream[n..at.arrived] == Slice(Flat(chunks), n, at.arrived - n) != [];
  }

  lemma PlansDiffer(contentLength: nat, a: string, b: string, rest: seq<string>)
    requires |a| == |b| > 0 && a[|a| - 1] != b[|b| - 1]
    ensures Streamed(contentLength, [a] + rest) != Streamed(contentLength, [b] + rest)
  {
    assert ([a] + rest)[0] != ([b] + rest)[0];
  }
}
