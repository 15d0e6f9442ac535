/** Wait mode: what the body callback finds in the buffer. */
module HttpWait {
  import opened Platform
  import opened CStrings
  import opened Tls
  import opened Http
  import opened HttpPlan
  import opened IapImage
  import opened HttpStream

  // ---------- How much is collected ----------

  /** The number of body bytes in the buffer when `n` of them have arrived, or when no more come. */
  function Gathered(count: nat, chunks: seq<string>, n: nat): nat {
    count + if n <= count then 0 else Arrived(chunks, n - count)
  }

  lemma {:induction false} ArrivedWithin(chunks: seq<string>, m: nat)
    ensures Arrived(chunks, m) <= |Flat(chunks)|
    ensures m <= |Flat(chunks)| ==> m <= Arrived(chunks, m)
    ensures m >= |Flat(chunks)| ==> Arrived(chunks, m) == |Flat(chunks)|
    decreases |chunks|
  {
    if chunks != [] && m > |chunks[0]| { ArrivedWithin(chunks[1..], m - |chunks[0]|); }
  }

  lemma GatheredNext(count: nat, chunks: seq<string>, n: nat)
    requires chunks != [] && count < n
    ensures Gathered(count, chunks, n) == Gathered(count + |chunks[0]|, chunks[1..], n) >= count + |chunks[0]|
  {
  }

  /** The outcome of collecting, from the counts alone: the body callback gets bytes of the body, at least
      Content-Length of them, and the rest of the buffer as it was when the body began. */
  ghost function CollectPlan(cfg: Config, x: Context, data: string, k: nat): Plan
    requires WellFormed(cfg, x) && k <= |data|
  {
    if k > cfg.capacity then Rejected(BufferTooSmall)
    else if k < x.contentLength then Waiting
    else Whole(data[..k], x.buffer[k..])
  }

  lemma AppendedIs(cfg: Config, x: Context, chunk: string, rest: seq<string>, x': Context)
    requires WellFormed(cfg, x) && !x.inHeaders && x.count + |chunk| <= cfg.capacity && x' == Append(x, chunk)
    ensures WellFormed(cfg, x') && !x'.inHeaders && x'.contentLength == x.contentLength && x'.count == x.count + |chunk|
    ensures x'.buffer[..x'.count] == x.buffer[..x.count] + chunk
    ensures forall k :: x'.count <= k <= cfg.capacity ==> x'.buffer[k..] == x.buffer[k..]
    ensures x'.buffer[..x'.count] + Flat(rest) == x.buffer[..x.count] + Flat([chunk] + rest)
  {
    assert ([chunk] + rest)[1..] == rest;
    assert x'.buffer[..x'.count] == x.buffer[..x.count] + chunk;
  }

  lemma {:induction false} CollectedBody(cfg: Config, x: Context, chunks: seq<string>)
    requires WellFormed(cfg, x) && !x.inHeaders
    ensures var data, k := x.buffer[..x.count] + Flat(chunks), Gathered(x.count, chunks, x.contentLength);
      x.count <= k <= |data| && Collect(cfg, x, chunks) == CollectPlan(cfg, x, data, k)
    decreases |chunks|
  {
    ArrivedWithin(chunks, if x.contentLength <= x.count then 0 else x.contentLength - x.count);
    var data := x.buffer[..x.count] + Flat(chunks);
    assert data[..x.count] == x.buffer[..x.count];
    if x.count < x.contentLength && chunks != [] {
      GatheredNext(x.count, chunks, x.contentLength);
      if x.count + |chunks[0]| <= cfg.capacity {
        hide Append, Gathered, Arrived;
        var x' := Append(x, chunks[0]);
        AppendedIs(cfg, x, chunks[0], chunks[1..], x');
        assert [chunks[0]] + chunks[1..] == chunks;
        CollectedBody(cfg, x', chunks[1..]);
      }
    }
  }

  // ---------- What the buffer shows ----------

  /** The buffer when the body begins: the leftover, a NUL, and behind it what remains of the header block. */
  function AtBodyStart(capacity: nat, headers: string, e: nat, leftover: string): (mem: string)
    requires e < |headers| <= capacity && |leftover| < capacity
    ensures |mem| == capacity
  {
    MoveToFront((headers + Zeros(capacity - |headers|))[e := NUL], leftover)
  }

  /** Whether a NUL is left behind the `k` body bytes of the buffer: the one behind the leftover, the one at the end of
      the header text, or one that no data has reached. */
  predicate NulLeft(capacity: nat, arrived: nat, e: nat, k: nat) {
    k + e + 4 == arrived || k <= e || (arrived < capacity && k < capacity)
  }

  /** The text behind the body, up to the next NUL: what the body has not covered of the header chunk. */
  function Behind(headers: string, e: nat, k: nat): string {
    if k + e + 4 == |headers| || k >= |headers| then [] else if k <= e <= |headers| then headers[k..e] else headers[k..]
  }

  lemma BodyStartAt(capacity: nat, headers: string, e: nat, leftover: string, j: nat)
    requires e + 4 + |leftover| == |headers| <= capacity && |leftover| <= j < capacity
    ensures AtBodyStart(capacity, headers, e, leftover)[j] ==
      if j == |leftover| || j == e || j >= |headers| then NUL else headers[j]
  {
  }

  /** The body callback parses the buffer as a C string. It is one if and only if NulLeft holds, and then shows the
      `k` body bytes and, behind them, old header text. Without a NUL the first search for a missing key, or the
      conversion of a number at the end, runs past the buffer. */
  lemma TextBehindBody(capacity: nat, headers: string, e: nat, leftover: string, body: string)
    requires e + 4 + |leftover| == |headers| <= capacity && |leftover| <= |body| <= capacity
    requires NUL !in headers && NUL !in body
    ensures var seen := body + AtBodyStart(capacity, headers, e, leftover)[|body|..];
      && (NUL in seen <==> NulLeft(capacity, |headers|, e, |body|))
      && (NUL in seen ==> Text(seen) == body + Behind(headers, e, |body|))
      && (NUL !in seen ==> Text(seen) == seen)
  {
    hide AtBodyStart, Text;
    var k, mem := |body|, AtBodyStart(capacity, headers, e, leftover);
    var seen := body + mem[k..];
    forall j: nat | |leftover| <= j < capacity
      ensures mem[j] == if j == |leftover| || j == e || j >= |headers| then NUL else headers[j]
    {
      BodyStartAt(capacity, headers, e, leftover, j);
    }
    if NulLeft(capacity, |headers|, e, k) {
      var shown := body + Behind(headers, e, k);
      assert seen[|shown|] == mem[|shown|] == NUL;
      ShownIsSeen(seen, body, mem, headers, e, k);
      TextIs(seen, shown);
    } else {
      assert NUL !in seen;
      TextIs(seen, seen);
    }
  }

  lemma ShownIsSeen(seen: string, body: string, mem: string, headers: string, e: nat, k: nat)
    requires |body| == k <= |mem| && seen == body + mem[k..] && |headers| <= |mem| && e < |headers| && NUL !in headers && NUL !in body
    requires forall j :: k < j < |headers| && j != e ==> mem[j] == headers[j]
    requires k + e + 4 != |headers| && k < |headers| && k != e ==> mem[k] == headers[k]
    ensures var shown := body + Behind(headers, e, k);
      |shown| <= |seen| && shown == seen[..|shown|] && NUL !in shown
  {
  }

  /** When the body callback parses the buffer as a C string, it is one and shows exactly the `k` body bytes if and only
      if they do not fill it and no body byte arrived after the header chunk, or the body ends exactly where the
      header text ended, or it covers everything that was in the buffer. */
  lemma LookupConfinedIff(capacity: nat, headers: string, e: nat, leftover: string, body: string)
    requires e + 4 + |leftover| == |headers| <= capacity && |leftover| <= |body| <= capacity
    requires NUL !in headers && NUL !in body
    ensures var seen, k := body + AtBodyStart(capacity, headers, e, leftover)[|body|..], |body|;
      NUL in seen && Text(seen) == body <==> k < capacity && (k == |leftover| || k == e || k >= |headers|)
  {
    TextBehindBody(capacity, headers, e, leftover, body);
  }

  // ---------- A whole request ----------

  lemma PlanAfterCollects(cfg: Config, stream: string, e: nat, at: Moment, leftover: string, x: Context, contentLength: nat)
    requires e + 4 <= at.arrived <= |stream| && at.arrived <= cfg.capacity && cfg.mode == WaitForCompleteBody
    requires Judge(stream[..e]) == Accept(contentLength)
    requires var buffer := Collected(cfg, stream[..at.arrived]).buffer[e := NUL];
      var source := if cfg.source == LatestChunk then at.mem else buffer;
      (at.arrived > e + 4 ==> |source| >= at.arrived) && leftover == Slice(source, e + 4, at.arrived - e - 4)
      && x == Entered(buffer, leftover, contentLength)
    ensures PlanAfter(cfg, stream, e, at) == Collect(cfg, x, at.rest)
  {
  }

  /** What is still to come after the moment at which `n` bytes are complete, and when `m` will be. */
  lemma {:induction false} RestOfStream(acc: string, mem: string, chunks: seq<string>, n: nat, m: nat)
    requires Fits(chunks, |mem|) && |acc| < n <= |acc| + |Flat(chunks)| && n <= m
    ensures var at := CompleteAt(acc, mem, chunks, n);
      && acc + Flat(chunks) == (acc + Flat(chunks))[..at.arrived] + Flat(at.rest)
      && |acc| + Arrived(chunks, m - |acc|) == at.arrived + (if m <= at.arrived then 0 else Arrived(at.rest, m - at.arrived))
    decreases |chunks|
  {
    var acc' := acc + chunks[0];
    assert acc + Flat(chunks) == acc' + Flat(chunks[1..]);
    if n > |acc'| {
      RestOfStream(acc', Store(mem, chunks[0]), chunks[1..], n, m);
    } else {
      assert (acc' + Flat(chunks[1..]))[..|acc'|] == acc';
    }
  }

  /** The number of body bytes that have arrived when the first `n` of them have. */
  function Taken(chunks: seq<string>, e: nat, n: nat): int {
    Arrived(chunks, e + 4 + n) - e - 4
  }

  /** What a waiting request amounts to, from the stream and its chunking alone, if `leftover` is what has been copied
      as the body bytes that came with the end of the headers: `Whole` announces a prefix of the body with at least
      Content-Length bytes. */
  ghost function WaitPlan(cfg: Config, stream: string, e: nat, arrived: nat, k: int, contentLength: nat, leftover: string): Plan
    requires e + 4 + |leftover| == arrived <= |stream| && arrived <= cfg.capacity && |leftover| <= k <= |stream| - e - 4
  {
    if k > cfg.capacity then Rejected(BufferTooSmall)
    else if k < contentLength then Waiting
    else Whole((leftover + stream[arrived..])[..k], AtBodyStart(cfg.capacity, stream[..arrived], e, leftover)[k..])
  }

  /** What has been copied as the body bytes that came with the end of the headers. */
  ghost function Copied(cfg: Config, stream: string, e: nat, at: Moment): string
    requires e + 4 <= at.arrived <= |stream| && at.arrived <= cfg.capacity && at.arrived <= |at.mem|
  {
    Slice(if cfg.source == LatestChunk then at.mem else Collected(cfg, stream[..at.arrived]).buffer[e := NUL], e + 4, at.arrived - e - 4)
  }

  lemma TakenWithin(chunks: seq<string>, e: nat, n: nat)
    requires e + 4 <= |Flat(chunks)|
    ensures Arrived(chunks, e + 4) - e - 4 <= Taken(chunks, e, n) <= |Flat(chunks)| - e - 4
  {
    ArrivedWithin(chunks, e + 4);
    ArrivedWithin(chunks, e + 4 + n);
    ArrivedMonotone(chunks, e + 4, e + 4 + n);
  }

  lemma {:induction false} ArrivedMonotone(chunks: seq<string>, n: nat, m: nat)
    requires n <= m
    ensures Arrived(chunks, n) <= Arrived(chunks, m)
    decreases |chunks|
  {
    if chunks != [] && n > |chunks[0]| { ArrivedMonotone(chunks[1..], n - |chunks[0]|, m - |chunks[0]|); }
  }

  /** The outcome of every waiting request whose header chunk fits the buffer, whatever has been copied. */
  lemma WaitingCopied(cfg: Config, mem: string, chunks: seq<string>, e: nat, n: nat, at: Moment, leftover: string)
    requires cfg.mode == WaitForCompleteBody && Fits(chunks, |mem|) && HeaderEnds(Flat(chunks), e) && cfg.capacity <= |mem|
    requires Arrived(chunks, e + 4) <= cfg.capacity && Judge(Flat(chunks)[..e]) == Accept(n)
    requires at == CompleteAt([], mem, chunks, e + 4) && at.arrived == Arrived(chunks, e + 4)
    requires leftover == Copied(cfg, Flat(chunks), e, at)
    ensures Arrived(chunks, e + 4) - e - 4 <= Taken(chunks, e, n) <= |Flat(chunks)| - e - 4
    ensures PlanOf(cfg, Cleared(cfg), mem, chunks) ==
      WaitPlan(cfg, Flat(chunks), e, at.arrived, Taken(chunks, e, n), n, leftover)
  {
    hide PlanOf, PlanAfter, Judge, Collect, CompleteAt, HeaderEnds, Arrived, AtBodyStart, MoveToFront;
    var stream := Flat(chunks);
    PlanOfResponse(cfg, mem, chunks, e, at);
    assert [] + stream == stream;
    RestOfStream([], mem, chunks, e + 4, e + 4 + n);
    TakenWithin(chunks, e, n);
    var x := Entered(Collected(cfg, stream[..at.arrived]).buffer[e := NUL], leftover, n);
    PlanAfterCollects(cfg, stream, e, at, leftover, x, n);
    CollectedFrom(cfg, stream, e, at, leftover, x, Taken(chunks, e, n));
  }

  lemma CollectedFrom(cfg: Config, stream: string, e: nat, at: Moment, leftover: string, x: Context, k: int)
    requires e + 4 + |leftover| == at.arrived <= |stream| && at.arrived <= cfg.capacity
    requires stream == stream[..at.arrived] + Flat(at.rest)
    requires x == Entered(Collected(cfg, stream[..at.arrived]).buffer[e := NUL], leftover, x.contentLength)
    requires k == Gathered(|leftover|, at.rest, x.contentLength) <= |stream| - e - 4
    ensures WellFormed(cfg, x) && !x.inHeaders
    ensures Collect(cfg, x, at.rest) == WaitPlan(cfg, stream, e, at.arrived, k, x.contentLength, leftover)
  {
    CollectedBody(cfg, x, at.rest);
    assert stream[at.arrived..] == Flat(at.rest);
    assert x.buffer[..x.count] == leftover;
    assert x.buffer == AtBodyStart(cfg.capacity, stream[..at.arrived], e, leftover);
  }

  /** Right: what is announced is the prefix of the body that has arrived. */
  ghost predicate WaitsRight(cfg: Config, mem: string, chunks: seq<string>, e: nat, n: nat)
    requires Fits(chunks, |mem|) && e + 4 <= |Flat(chunks)| && e + 4 <= Arrived(chunks, e + 4) <= cfg.capacity
    requires Arrived(chunks, e + 4) <= |Flat(chunks)|
  {
    TakenWithin(chunks, e, n);
    var stream, arrived := Flat(chunks), Arrived(chunks, e + 4);
    PlanOf(cfg, Cleared(cfg), mem, chunks) == WaitPlan(cfg, stream, e, arrived, Taken(chunks, e, n), n, stream[e + 4..arrived])
  }

  lemma WaitingForBody(cfg: Config, mem: string, chunks: seq<string>, e: nat, n: nat)
    requires cfg.mode == WaitForCompleteBody && Fits(chunks, |mem|) && HeaderEnds(Flat(chunks), e) && cfg.capacity <= |mem|
    requires Arrived(chunks, e + 4) <= cfg.capacity && CopiesRight(cfg, chunks, e + 4)
    requires Judge(Flat(chunks)[..e]) == Accept(n)
    ensures e + 4 <= Arrived(chunks, e + 4) <= |Flat(chunks)| && WaitsRight(cfg, mem, chunks, e, n)
  {
    hide PlanOf, Judge, CompleteAt, Collected, WaitPlan;
    var at := CompleteAt([], mem, chunks, e + 4);
    ArrivedIs([], mem, chunks, e + 4);
    ArrivedWithin(chunks, e + 4);
    LeftoverRight(cfg, mem, chunks, e, at);
    WaitingCopied(cfg, mem, chunks, e, n, at, Copied(cfg, Flat(chunks), e, at));
  }

  // ---------- The copy from the wrong buffer, in wait mode ----------

  lemma WaitPlansDiffer(cfg: Config, stream: string, e: nat, arrived: nat, k: int, n: nat, a: string, b: string)
    requires e + 4 + |a| == arrived <= |stream| && |b| == |a| > 0 && a[|a| - 1] != b[|a| - 1]
    requires arrived <= cfg.capacity && |a| <= k <= |stream| - e - 4 && n <= k <= cfg.capacity
    ensures WaitPlan(cfg, stream, e, arrived, k, n, a) != WaitPlan(cfg, stream, e, arrived, k, n, b)
  {
    assert (a + stream[arrived..])[..k][|a| - 1] != (b + stream[arrived..])[..k][|a| - 1];
  }

  lemma CopiedIs(cfg: Config, stream: string, e: nat, at: Moment, leftover: string, right: string)
    requires e + 4 < at.arrived <= |stream| && at.arrived <= cfg.capacity && at.arrived <= |at.mem| && cfg.source == LatestChunk
    requires leftover == Copied(cfg, stream, e, at) && right == stream[e + 4..at.arrived]
    ensures leftover == Slice(at.mem, e + 4, at.arrived - (e + 4)) && right == Slice(stream, e + 4, at.arrived - (e + 4))
    ensures |leftover| == |right| == at.arrived - e - 4
  {
  }

  lemma StaleWaitIsWrong(cfg: Config, mem: string, chunks: seq<string>, e: nat, n: nat, at: Moment, last: nat, stream: string)
    requires cfg.mode == WaitForCompleteBody && cfg.source == LatestChunk && cfg.capacity <= |mem|
    requires Fits(chunks, |mem|) && stream == Flat(chunks) && HeaderEnds(stream, e) && Judge(stream[..e]) == Accept(n)
    requires Arrived(chunks, e + 4) == last + 1 <= cfg.capacity && |chunks[0]| < e + 4 <= last < |stream|
    requires at == CompleteAt([], mem, chunks, e + 4) && at.arrived == last + 1 && mem[last] != stream[last]
    requires n <= Taken(chunks, e, n) <= cfg.capacity
    ensures !WaitsRight(cfg, mem, chunks, e, n)
  {
    hide PlanOf, Judge, CompleteAt, Collected, WaitPlan, HeaderEnds, Flat, Arrived, Taken, Copied, Fits, Slice;
    var leftover, right := Copied(cfg, stream, e, at), stream[e + 4..last + 1];
    CopiedIs(cfg, stream, e, at, leftover, right);
    TakenWithin(chunks, e, n);
    LeftoversDiffer(mem, chunks, e + 4, at, last, leftover, right);
    WaitingCopied(cfg, mem, chunks, e, n, at, leftover);
    WaitPlansDiffer(cfg, stream, e, last + 1, Taken(chunks, e, n), n, leftover, right);
  }

  /** As written, a waiting request is handled right for every old contents of the TLS buffer exactly when the header
      block ends in the first chunk, or no body byte shares a chunk with its end, or the body is never announced,
      for want of data or of room. */
  lemma WaitCopiesRightIff(cfg: Config, size: nat, chunks: seq<string>, e: nat, n: nat)
    requires cfg.mode == WaitForCompleteBody && cfg.source == LatestChunk && cfg.capacity <= size
    requires Fits(chunks, size) && HeaderEnds(Flat(chunks), e) && Arrived(chunks, e + 4) <= cfg.capacity
    requires Judge(Flat(chunks)[..e]) == Accept(n)
    ensures e + 4 <= Arrived(chunks, e + 4) <= |Flat(chunks)|
    ensures (forall mem: string :: |mem| == size ==> WaitsRight(cfg, mem, chunks, e, n)) <==>
            CopiesRight(cfg, chunks, e + 4) || Taken(chunks, e, n) < n || Taken(chunks, e, n) > cfg.capacity
  {
    hide PlanOf, Judge, CompleteAt, Collected, HeaderEnds, WaitsRight, Arrived, Taken, Fits;
    HeaderEndsWithin(Flat(chunks), e);
    ArrivedWithin(chunks, e + 4);
    var k, stream, last := Taken(chunks, e, n), Flat(chunks), Arrived(chunks, e + 4) - 1;
    if CopiesRight(cfg, chunks, e + 4) {
      forall mem: string | |mem| == size ensures WaitsRight(cfg, mem, chunks, e, n) {
        WaitingForBody(cfg, mem, chunks, e, n);
      }
    } else if k < n || k > cfg.capacity {
      forall mem: string | |mem| == size ensures WaitsRight(cfg, mem, chunks, e, n) {
        NeverAnnounced(cfg, mem, chunks, e, n);
      }
    } else {
      var mem := Differing(size, stream, last);
      ArrivedIs([], mem, chunks, e + 4);
      StaleWaitIsWrong(cfg, mem, chunks, e, n, CompleteAt([], mem, chunks, e + 4), last, stream);
    }
  }

  lemma HeaderEndsWithin(stream: string, e: nat)
    requires HeaderEnds(stream, e)
    ensures e + 4 <= |stream|
  {
  }

  lemma NeverAnnounced(cfg: Config, mem: string, chunks: seq<string>, e: nat, n: nat)
    requires cfg.mode == WaitForCompleteBody && Fits(chunks, |mem|) && HeaderEnds(Flat(chunks), e) && cfg.capacity <= |mem|
    requires e + 4 <= Arrived(chunks, e + 4) <= cfg.capacity && Judge(Flat(chunks)[..e]) == Accept(n)
    requires Arrived(chunks, e + 4) <= |Flat(chunks)| && (Taken(chunks, e, n) < n || Taken(chunks, e, n) > cfg.capacity)
    ensures WaitsRight(cfg, mem, chunks, e, n)
  {
    hide PlanOf, Judge, CompleteAt, Collected, HeaderEnds;
    var at := CompleteAt([], mem, chunks, e + 4);
    ArrivedIs([], mem, chunks, e + 4);
    WaitingCopied(cfg, mem, chunks, e, n, at, Copied(cfg, Flat(chunks), e, at));
  }

  lemma NoNulIn(s: string, a: nat, b: nat)
    requires NUL !in s && a <= b <= |s|
    ensures NUL !in s[a..b]
  {
  }
}
