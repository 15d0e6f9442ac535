/** iap.c refines "append the bytes, then activate": the blocks that reach the flash depend only on
    the concatenation of everything written, not on how it was cut into calls. */
module IapImage {
  import opened Platform
  import opened Iap
  import opened IapProofs

  // ---------- The reference: cutting an image into pages ----------

  function Flat(parts: seq<string>): string {
    if parts == [] then [] else parts[0] + Flat(parts[1..])
  }

  lemma {:induction false} FlatAppend(a: seq<string>, b: seq<string>)
    ensures Flat(a + b) == Flat(a) + Flat(b)
  {
    if a == [] {
      assert a + b == b;
    } else {
      FlatAppend(a[1..], b);
      calc {
        Flat(a + b);
        { assert (a + b)[1..] == a[1..] + b; }
        a[0] + (Flat(a[1..]) + Flat(b));
        a[0] + Flat(a[1..]) + Flat(b);
        Flat(a) + Flat(b);
      }
    }
  }

  /** The full pages of `data`, and what is left over. */
  function Pages(data: string): seq<string> {
    if |data| < PAGE then [] else [data[..PAGE]] + Pages(data[PAGE..])
  }

  function Rest(data: string): string {
    if |data| < PAGE then data else Rest(data[PAGE..])
  }

  /** All blocks of the finished image. */
  function Image(data: string): seq<string> {
    Pages(data) + if Rest(data) == [] then [] else [Rest(data)]
  }

  ghost predicate Full(pages: seq<string>) {
    forall i :: 0 <= i < |pages| ==> |pages[i]| == PAGE
  }

  lemma {:induction false} PagesUnique(pages: seq<string>, rest: string)
    requires Full(pages) && |rest| < PAGE
    ensures Pages(Flat(pages) + rest) == pages && Rest(Flat(pages) + rest) == rest
  {
    if pages == [] {
      assert Flat(pages) + rest == rest;
    } else {
      var data := Flat(pages) + rest;
      assert data[..PAGE] == pages[0] && data[PAGE..] == Flat(pages[1..]) + rest;
      PagesUnique(pages[1..], rest);
    }
  }

  lemma {:induction false} PagesLength(data: string)
    ensures |Pages(data)| * PAGE + |Rest(data)| == |data| && |Rest(data)| < PAGE
    decreases |data|
  {
    if |data| >= PAGE {
      PagesLength(data[PAGE..]);
    }
  }

  lemma {:induction false} PagesAreFull(data: string)
    ensures Full(Pages(data)) && |Rest(data)| < PAGE && Flat(Pages(data)) + Rest(data) == data
    decreases |data|
  {
    if |data| >= PAGE {
      var first, later := data[..PAGE], data[PAGE..];
      PagesAreFull(later);
      assert first + (Flat(Pages(later)) + Rest(later)) == first + Flat(Pages(later)) + Rest(later);
      assert data == first + later;
    }
  }

  /** The blocks of an image spell out the image, and there are as few of them as 4096-byte writes allow. */
  lemma ImageIsData(data: string)
    ensures Flat(Image(data)) == data
    ensures |Image(data)| == (|data| + 4095) / 4096
  {
    PagesAreFull(data);
    PagesLength(data);
    var tail := if Rest(data) == [] then [] else [Rest(data)];
    FlatAppend(Pages(data), tail);
    assert Flat(tail) == Rest(data);
  }

  // ---------- An open session ----------

  function Blocks(part: Partition, blocks: seq<string>): seq<FlashOp> {
    seq(|blocks|, i requires 0 <= i < |blocks| => Wrote(part, blocks[i]))
  }

  /** The open session has written exactly `pages` since `base` and has accepted `data` in all. */
  ghost predicate Accepted(env: Env, s: State, base: seq<FlashOp>, pages: seq<string>, data: string) {
    && Inv(s) && s.open && BufferLive(s)
    && s.dev.ops == base + [Begun(s.target.value)] + Blocks(s.target.value, pages)
    && Full(pages) && Flat(pages) + s.pending == data
    && s.addr == (env.address(s.target.value) + PAGE * |pages|) % WORD
  }

  lemma BeginAccepts(env: Env, s: State)
    requires Inv(s) && Begin(env, s).1 == Ok
    ensures Accepted(env, Begin(env, s).0, s.dev.ops, [], []) && |Begin(env, s).0.pending| < PAGE
    ensures Begin(env, s).0.dev.boot == s.dev.boot && Begin(env, s).0.dev.fault == s.dev.fault
    ensures Begin(env, s).0.target == Next(s.dev.boot)
  {
    var s' := Begin(env, s).0;
    BeginKeeps(env, s);
    assert s'.dev.ops == s.dev.ops + [Begun(s'.target.value)] + Blocks(s'.target.value, []);
  }

  /** A successful flush of a full buffer turns the buffer into one more page. */
  lemma FlushAccepts(env: Env, s: State, base: seq<FlashOp>, pages: seq<string>, data: string)
    requires Accepted(env, s, base, pages, data) && |s.pending| == PAGE && WritePageBuffer(env, s).1 == Ok
    ensures Accepted(env, WritePageBuffer(env, s).0, base, pages + [s.pending], data)
  {
    var s', t := WritePageBuffer(env, s).0, s.target.value;
    FlushKeeps(env, s);
    FlatAppend(pages, [s.pending]);
    assert Flat([s.pending]) == s.pending;
    assert Blocks(t, pages + [s.pending]) == Blocks(t, pages) + [Wrote(t, s.pending)];
  }

  lemma CopyAccepts(env: Env, s: State, piece: string, base: seq<FlashOp>, pages: seq<string>, data: string)
    requires Accepted(env, s, base, pages, data) && |s.pending| + |piece| <= PAGE
    ensures Accepted(env, s.(pending := s.pending + piece), base, pages, data + piece)
  {
    assert Flat(pages) + (s.pending + piece) == Flat(pages) + s.pending + piece;
  }

  lemma CopyOnceAccepts(env: Env, s: State, bytes: string, base: seq<FlashOp>, pages: seq<string>, data: string)
    returns (n: nat, pages': seq<string>)
    requires Accepted(env, s, base, pages, data) && bytes != []
    ensures n == CopyOnce(env, s, bytes).2 <= |bytes| && pages <= pages'
    ensures var (s', err, _) := CopyOnce(env, s, bytes);
      && Accepted(env, s', base, pages', data + bytes[..n])
      && s'.target == s.target && s'.dev.boot == s.dev.boot && s'.dev.fault == s.dev.fault
      && (err != Ok ==> err == WriteFailed && |s'.pending| == PAGE)
  {
    n, pages' := CopyOnce(env, s, bytes).2, pages;
    CopyAccepts(env, s, bytes[..n], base, pages, data);
    var s1 := s.(pending := s.pending + bytes[..n]);
    if |s1.pending| == PAGE && WritePageBuffer(env, s1).1 == Ok {
      FlushAccepts(env, s1, base, pages, data + bytes[..n]);
      pages' := pages + [s1.pending];
    }
  }

  lemma PrefixJoin(data: string, bytes: string, n: nat, k: nat)
    requires n + k <= |bytes|
    ensures data + bytes[..n] + bytes[n..][..k] == data + bytes[..k + n]
  {
  }

  /** No byte is lost or reordered, even by a write that fails: the session accepts some prefix of the
      bytes, all of them if the write succeeds, and after a failure the buffer is full. */
  lemma {:induction false} FillAccepts(env: Env, s: State, bytes: string, base: seq<FlashOp>, pages: seq<string>, data: string)
    returns (k: nat, pages': seq<string>)
    requires Accepted(env, s, base, pages, data)
    ensures k <= |bytes| && pages <= pages'
    ensures var (s', err) := Fill(env, s, bytes);
      && Accepted(env, s', base, pages', data + bytes[..k])
      && s'.target == s.target && s'.dev.boot == s.dev.boot && s'.dev.fault == s.dev.fault
      && (err == Ok ==> k == |bytes| && (|s.pending| < PAGE ==> |s'.pending| < PAGE))
      && (err != Ok ==> err == WriteFailed && |s'.pending| == PAGE)
    decreases |bytes|, |s.pending|
  {
    k, pages' := 0, pages;
    if bytes == [] {
      assert data + bytes[..0] == data;
    } else {
      k, pages' := CopyOnceAccepts(env, s, bytes, base, pages, data);
      var (s', err, n) := CopyOnce(env, s, bytes);
      if err == Ok {
        k, pages' := FillAccepts(env, s', bytes[n..], base, pages', data + bytes[..n]);
        PrefixJoin(data, bytes, n, k);
        k := k + n;
      }
    }
  }

  // ---------- Whole sessions ----------

  /** The open session holds `data` in canonical form: all full pages are in flash, the rest is buffered. */
  ghost predicate Programmed(env: Env, s: State, base: seq<FlashOp>, data: string) {
    Accepted(env, s, base, Pages(data), data) && s.pending == Rest(data)
  }

  /** A successful write, of any length, leads from canonical form to canonical form. */
  lemma WriteProgram(env: Env, s: State, bytes: string, base: seq<FlashOp>, data: string)
    requires Programmed(env, s, base, data) && Write(env, s, bytes).1 == Ok
    ensures var s' := Write(env, s, bytes).0;
      && Programmed(env, s', base, data + bytes)
      && s'.target == s.target && s'.dev.boot == s.dev.boot && s'.dev.fault == s.dev.fault
  {
    PagesAreFull(data);
    var s' := Write(env, s, bytes).0;
    var k, pages := FillAccepts(env, s, bytes, base, Pages(data), data);
    assert bytes[..k] == bytes;
    PagesUnique(pages, s'.pending);
  }

  /** The calls iap_write(ws[0]), iap_write(ws[1]), …, and whether all of them returned OK. */
  ghost function WriteAll(env: Env, s: State, ws: seq<string>): (State, bool)
    requires Inv(s)
    decreases |ws|
  {
    if ws == [] then (s, true) else
      StepKeeps(env, s, OpWrite(ws[0]));
      var (s', err) := Write(env, s, ws[0]);
      if err == Ok then WriteAll(env, s', ws[1..]) else (s', false)
  }

  lemma {:induction false} WritesProgram(env: Env, s: State, ws: seq<string>, base: seq<FlashOp>, data: string)
    requires Programmed(env, s, base, data) && WriteAll(env, s, ws).1
    ensures var s' := WriteAll(env, s, ws).0;
      && Programmed(env, s', base, data + Flat(ws))
      && s'.target == s.target && s'.dev.boot == s.dev.boot && s'.dev.fault == s.dev.fault
    decreases |ws|
  {
    hide Accepted, Write, Pages, Rest;
    if ws == [] {
      assert data + Flat(ws) == data;
    } else {
      ProgrammedIs(env, s, base, data);
      WriteProgram(env, s, ws[0], base, data);
      WritesProgram(env, Write(env, s, ws[0]).0, ws[1..], base, data + ws[0]);
      assert data + ws[0] + Flat(ws[1..]) == data + Flat(ws);
    }
  }

  /** The flash history of a session of `target` that wrote `blocks` and was closed with success. */
  function Session(target: Partition, blocks: seq<string>): seq<FlashOp> {
    [Begun(target)] + Blocks(target, blocks) + [Ended(target), Activated(target)]
  }

  lemma {:induction false} ContentsOfBlocks(env: Env, base: seq<FlashOp>, p: Partition, blocks: seq<string>)
    ensures Contents(env, base + [Begun(p)] + Blocks(p, blocks), p) == blocks
  {
    var ops := base + [Begun(p)] + Blocks(p, blocks);
    if blocks == [] {
      assert ops == base + [Begun(p)] && ops[|ops| - 1] == Begun(p);
    } else {
      var init := blocks[..|blocks| - 1];
      ContentsOfBlocks(env, base, p, init);
      assert ops[..|ops| - 1] == base + [Begun(p)] + Blocks(p, init);
      assert ops[|ops| - 1] == Wrote(p, blocks[|blocks| - 1]);
    }
  }

  lemma ContentsOfSession(env: Env, base: seq<FlashOp>, p: Partition, blocks: seq<string>)
    ensures Contents(env, base + Session(p, blocks), p) == blocks
  {
    var open := base + [Begun(p)] + Blocks(p, blocks);
    ContentsOfBlocks(env, base, p, blocks);
    var ops := base + Session(p, blocks);
    assert ops[..|ops| - 1] == open + [Ended(p)];
    assert (open + [Ended(p)])[..|open|] == open;
  }

  /** Whether the final page write of a commit succeeds. The code drops this result. */
  predicate FlushSucceeds(env: Env, s: State) {
    WritePageBuffer(env, s).1 == Ok
  }

  lemma FinalFlush(env: Env, s: State, base: seq<FlashOp>, data: string)
    requires Programmed(env, s, base, data)
    ensures var s' := WritePageBuffer(env, s).0; var t := s.target.value;
      && Inv(s') && s'.open && s'.target == s.target && s'.dev.boot == s.dev.boot
      && s'.dev.ops == base + [Begun(t)] + Blocks(t, if FlushSucceeds(env, s) then Image(data) else Pages(data))
      && (FlushSucceeds(env, s) || s.pending != [])
  {
    var t := s.target.value;
    FlushKeeps(env, s);
    if FlushSucceeds(env, s) && s.pending != [] {
      assert Blocks(t, Image(data)) == Blocks(t, Pages(data)) + [Wrote(t, Rest(data))];
    } else if s.pending == [] {
      assert Image(data) == Pages(data);
    }
  }

  lemma FinishOps(env: Env, s: State)
    requires Inv(s) && Finish(env, s, true).1 == Ok
    ensures var s' := Finish(env, s, true).0; var t := s.target.value;
      s'.dev.ops == s.dev.ops + [Ended(t), Activated(t)] && s'.dev.boot == t
  {
  }

  lemma ProgrammedIs(env: Env, s: State, base: seq<FlashOp>, data: string)
    requires Programmed(env, s, base, data)
    ensures Inv(s) && s.open && s.target.Some? && s.pending == Rest(data)
  {
  }

  /** A commit that returns OK has activated the target, but the activated image is the data only if
      the final flush succeeded; otherwise the bytes after the last full page are missing. */
  lemma CommitActivates(env: Env, s: State, base: seq<FlashOp>, data: string)
    requires Programmed(env, s, base, data) && Commit(env, s).1 == Ok
    ensures var s' := Commit(env, s).0; var t := s.target.value;
      var blocks := if FlushSucceeds(env, s) then Image(data) else Pages(data);
      && s'.dev.ops == base + Session(t, blocks) && s'.dev.boot == t
      && Contents(env, s'.dev.ops, t) == blocks
      && (Flat(Contents(env, s'.dev.ops, t)) == data <==> FlushSucceeds(env, s))
  {
    hide Accepted, Blocks, Contents, WritePageBuffer, Finish, Pages, Rest, Flat;
    ProgrammedIs(env, s, base, data);
    var t := s.target.value;
    var blocks := if FlushSucceeds(env, s) then Image(data) else Pages(data);
    ImageIsData(data);
    PagesAreFull(data);
    FinalFlush(env, s, base, data);
    FinishOps(env, WritePageBuffer(env, s).0);
    assert base + Session(t, blocks) == base + [Begun(t)] + Blocks(t, blocks) + [Ended(t), Activated(t)];
    ContentsOfSession(env, base, t, blocks);
    assert s.pending != [] ==> |Flat(Pages(data))| < |data|;
  }

  /** iap_begin and then the writes `ws`; whether all of them returned OK. */
  ghost function Upload(env: Env, s: State, ws: seq<string>): (State, bool)
    requires Inv(s)
  {
    BeginKeeps(env, s);
    if Begin(env, s).1 == Ok then WriteAll(env, Begin(env, s).0, ws) else (Begin(env, s).0, false)
  }

  /** A whole update: however the image is cut into writes, if every call returns OK then the flash
      history of the update is exactly one session with the blocks of the concatenated image, written in
      order and activated once, at the end, if and only if the final flush succeeded. */
  lemma UpdateRefinesAppend(env: Env, s: State, ws: seq<string>)
    requires Inv(s) && Upload(env, s, ws).1
    requires Commit(env, Upload(env, s, ws).0).1 == Ok
    ensures var open := Upload(env, s, ws).0;
      var d, t := Commit(env, open).0.dev, Next(s.dev.boot).value;
      && (d.ops == s.dev.ops + Session(t, Image(Flat(ws))) <==> FlushSucceeds(env, open))
      && (Flat(Contents(env, d.ops, t)) == Flat(ws) <==> FlushSucceeds(env, open))
      && d.boot == t != s.dev.boot
  {
    BeginAccepts(env, s);
    var s0 := Begin(env, s).0;
    var open, t := Upload(env, s, ws).0, s0.target.value;
    WritesProgram(env, s0, ws, s.dev.ops, []);
    assert [] + Flat(ws) == Flat(ws);
    CommitActivates(env, open, s.dev.ops, Flat(ws));
    ContentsOfSession(env, s.dev.ops, t, Image(Flat(ws)));
    ImageIsData(Flat(ws));
  }
}
