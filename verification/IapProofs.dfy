/** What iap.c keeps over all call sequences and all failure patterns. */
module IapProofs {
  import opened Platform
  import opened Iap

  // ---------- One call ----------

  /** No operation of `ops` erases or programs `p`. */
  ghost predicate Spares(ops: seq<FlashOp>, p: Partition) {
    forall i :: 0 <= i < |ops| ==> ops[i].part == p ==> !ops[i].Begun? && !ops[i].Wrote?
  }

  /** The copy loop touches the page buffer, the write address and the flash only; it faults exactly
      when it has bytes to copy and the buffer is gone. */
  lemma {:induction false} FillKeeps(env: Env, s: State, bytes: string) returns (more: seq<FlashOp>)
    requires Inv(s) && s.open
    ensures var (s', err) := Fill(env, s, bytes);
      && Inv(s')
      && s' == s.(addr := s'.addr, pending := s'.pending, dev := s'.dev)
      && s'.dev.live == s.dev.live && s'.dev.boot == s.dev.boot
      && (s'.dev.fault <==> s.dev.fault || (bytes != [] && Hollow(s)))
      && s'.dev.ops == s.dev.ops + more && Spares(more, s.dev.boot)
    decreases |bytes|, |s.pending|
  {
    more := [];
    if bytes != [] && BufferLive(s) {
      var (s', err, n) := CopyOnce(env, s, bytes);
      if err == Ok {
        var rest := FillKeeps(env, s', bytes[n..]);
        more := s'.dev.ops[|s.dev.ops|..] + rest;
      }
    }
  }

  ghost predicate BadWrite(s: State, op: Op) {
    op.OpWrite? && op.bytes != [] && Hollow(s)
  }

  /** What the call `op`, from `s` to `s'` with result `err`, may do: it faults only by writing into a
      hollow session; it leaves the image the device boots from alone; it moves the boot partition only
      in a commit that returns OK, to the partition that follows the current one; and only a failed
      commit makes the session hollow, until a commit or an abort returns OK. */
  ghost predicate Allowed(s: State, op: Op, s': State, err: Err) {
    && Inv(s')
    && (s'.dev.fault <==> s.dev.fault || BadWrite(s, op))
    && s.dev.ops <= s'.dev.ops && Spares(s'.dev.ops[|s.dev.ops|..], s.dev.boot)
    && (if op == OpCommit && err == Ok then s.open && Some(s'.dev.boot) == Next(s.dev.boot)
        else s'.dev.boot == s.dev.boot)
    && (Hollow(s') <==> (op == OpCommit && err == Fail) ||
                        (Hollow(s) && !(op in {OpCommit, OpAbort} && err == Ok)))
  }

  lemma BeginKeeps(env: Env, s: State)
    requires Inv(s)
    ensures Allowed(s, OpBegin, Begin(env, s).0, Begin(env, s).1)
  {
  }

  lemma FlushKeeps(env: Env, s: State)
    requires Inv(s)
    ensures var s' := WritePageBuffer(env, s).0;
      && Inv(s') && s'.dev.fault == s.dev.fault
      && s' == s.(addr := s'.addr, pending := s'.pending, dev := s'.dev)
      && s'.dev.live == s.dev.live && s'.dev.boot == s.dev.boot
      && s.dev.ops <= s'.dev.ops && Spares(s'.dev.ops[|s.dev.ops|..], s.dev.boot)
  {
  }

  lemma FinishKeeps(env: Env, s: State, commit: bool)
    requires Inv(s)
    ensures Allowed(s, if commit then OpCommit else OpAbort, Finish(env, s, commit).0, Finish(env, s, commit).1)
  {
    if s.open {
      var (d, ended) := Call(env, Free(s.dev, s.page), s.handle, p => Ended(p));
      assert d == s.dev.(tick := d.tick, live := {}, ops := d.ops);
      assert d.ops == s.dev.ops + if ended then [Ended(s.handle.value)] else [];
    }
  }

  lemma StepKeeps(env: Env, s: State, op: Op)
    requires Inv(s)
    ensures Allowed(s, op, Step(env, s, op).0, Step(env, s, op).1)
  {
    match op
    case OpInit =>
    case OpBegin => BeginKeeps(env, s);
    case OpWrite(bytes) =>
      if s.initialized && s.open { var more := FillKeeps(env, s, bytes); }
    case OpCommit =>
      FlushKeeps(env, s);
      FinishKeeps(env, WritePageBuffer(env, s).0, true);
    case OpAbort => FinishKeeps(env, s, false);
  }

  // ---------- What every call answers ----------

  /** The answer of iap_begin on a closed session, by its three calls in order. */
  function BeginAnswer(env: Env, s: State): Err {
    var t := s.dev.tick;
    if !env.ok(t) then OutOfMemory
    else if !env.ok(t + 1) || s.dev.boot == Other then PartitionNotFound
    else if !env.ok(t + 2) then Fail
    else Ok
  }

  /** What iap_finish has cleared when it gets past its checks, and when it succeeds. */
  ghost predicate Finished(s: State, err: Err) {
    && s.page == Null && s.pending == [] && s.addr == 0
    && (err == Ok ==> !s.open && s.handle == None && s.target == None)
    && (err != Ok ==> s.open)
  }

  /** The result code of every call, and what goes with it. A refusal changes nothing. */
  ghost predicate Answers(env: Env, s: State, op: Op, s': State, err: Err) {
    match op
    case OpInit => if s.initialized then err == AlreadyInitialized && s' == s else err == Ok && s' == s.(initialized := true)
    case _ =>
      if !s.initialized then err == NotInitialized && s' == s
      else if op == OpBegin then
        if s.open then err == SessionAlreadyOpen && s' == s
        else err == BeginAnswer(env, s) && (s'.open <==> err == Ok) && s'.pending == []
      else if !s.open then err == NoSession && s' == s
      else
        match op
        case OpWrite(bytes) => s'.open && err in {Ok, WriteFailed} && (bytes == [] ==> err == Ok && s' == s)
        case OpCommit => err in {Ok, Fail} && Finished(s', err)
        case _ => err == Ok && Finished(s', err)
  }

  lemma StepAnswers(env: Env, s: State, op: Op)
    requires Inv(s)
    ensures Answers(env, s, op, Step(env, s, op).0, Step(env, s, op).1)
  {
    match op
    case OpInit =>
    case OpBegin =>
    case OpWrite(bytes) => if s.initialized && s.open { FillAnswers(env, s, bytes); }
    case OpCommit =>
      FlushKeeps(env, s);
      FinishAnswers(env, WritePageBuffer(env, s).0, true);
    case OpAbort => FinishAnswers(env, s, false);
  }

  lemma FinishAnswers(env: Env, s: State, commit: bool)
    requires Inv(s)
    ensures var (s', err) := Finish(env, s, commit);
      if !s.initialized then err == NotInitialized && s' == s
      else if !s.open then err == NoSession && s' == s
      else Finished(s', err) && err in {Ok, Fail} && (!commit ==> err == Ok)
  {
  }

  lemma {:induction false} FillAnswers(env: Env, s: State, bytes: string)
    requires Inv(s) && s.open
    ensures var (s', err) := Fill(env, s, bytes); s'.open && err in {Ok, WriteFailed} && (bytes == [] ==> err == Ok && s' == s)
    decreases |bytes|, |s.pending|
  {
    if bytes != [] && BufferLive(s) {
      var (s', err, n) := CopyOnce(env, s, bytes);
      if err == Ok {
        FillAnswers(env, s', bytes[n..]);
      }
    }
  }

  // ---------- All call sequences ----------

  ghost function Start(boot: Partition): State {
    Reset(Device(0, {}, false, boot, []))
  }

  /** The state after the calls `ops`, beginning with a zeroed module on a device that boots from `boot`. */
  ghost function After(env: Env, boot: Partition, ops: seq<Op>): (s: State)
    ensures Inv(s)
  {
    if ops == [] then Start(boot) else
      var before := After(env, boot, ops[..|ops| - 1]);
      StepKeeps(env, before, ops[|ops| - 1]);
      Step(env, before, ops[|ops| - 1]).0
  }

  /** The result code of the last call, which is what the caller gets to see. */
  ghost function Returned(env: Env, boot: Partition, ops: seq<Op>): Err
    requires ops != []
  {
    Step(env, After(env, boot, ops[..|ops| - 1]), ops[|ops| - 1]).1
  }

  /** A commit has failed and no commit or abort has returned OK since then. */
  ghost predicate CommitFailed(env: Env, boot: Partition, ops: seq<Op>) {
    ops != [] &&
    var last, err := ops[|ops| - 1], Returned(env, boot, ops);
    (last == OpCommit && err == Fail) ||
    (CommitFailed(env, boot, ops[..|ops| - 1]) && !(last in {OpCommit, OpAbort} && err == Ok))
  }

  lemma {:induction false} HollowAfterFailedCommit(env: Env, boot: Partition, ops: seq<Op>)
    ensures Hollow(After(env, boot, ops)) <==> CommitFailed(env, boot, ops)
  {
    if ops != [] {
      HollowAfterFailedCommit(env, boot, ops[..|ops| - 1]);
      StepKeeps(env, After(env, boot, ops[..|ops| - 1]), ops[|ops| - 1]);
    }
  }

  /** Some call writes bytes after a failed commit. */
  ghost predicate WritesAfterFailedCommit(env: Env, boot: Partition, ops: seq<Op>) {
    ops != [] &&
    (WritesAfterFailedCommit(env, boot, ops[..|ops| - 1]) ||
     (ops[|ops| - 1].OpWrite? && ops[|ops| - 1].bytes != [] && CommitFailed(env, boot, ops[..|ops| - 1])))
  }

  /** No call sequence frees a block twice or uses a dangling pointer, unless it writes after a failed
      commit, and then it always does: that write goes through the NULL buffer. At every moment the heap
      holds one page buffer if the session is open and no commit has failed in it, and nothing otherwise. */
  lemma {:induction false} HeapSafety(env: Env, boot: Partition, ops: seq<Op>)
    ensures var s := After(env, boot, ops);
      && (s.dev.fault <==> WritesAfterFailedCommit(env, boot, ops))
      && |s.dev.live| == (if s.open && !CommitFailed(env, boot, ops) then 1 else 0)
      && (s.open && !CommitFailed(env, boot, ops) ==> BufferLive(s))
  {
    HollowAfterFailedCommit(env, boot, ops);
    if ops != [] {
      var before := ops[..|ops| - 1];
      HeapSafety(env, boot, before);
      HollowAfterFailedCommit(env, boot, before);
      StepKeeps(env, After(env, boot, before), ops[|ops| - 1]);
    }
  }

  // ---------- Boot partition ----------

  /** The number of commits that returned OK. */
  ghost function Commits(env: Env, boot: Partition, ops: seq<Op>): nat {
    if ops == [] then 0 else
      Commits(env, boot, ops[..|ops| - 1]) +
      (if ops[|ops| - 1] == OpCommit && Returned(env, boot, ops) == Ok then 1 else 0)
  }

  /** The boot partition after `k` updates of a device that first booted from `boot`. */
  function Slot(boot: Partition, k: nat): Partition {
    if k == 0 then boot
    else if (k % 2 == 1) == (boot != Ota0) then Ota0
    else Ota1
  }

  lemma SlotZero(boot: Partition)
    ensures Slot(boot, 0) == boot
  {
  }

  lemma NextSlot(boot: Partition, k: nat)
    requires Next(Slot(boot, k)).Some?
    ensures Next(Slot(boot, k)) == Some(Slot(boot, k + 1))
  {
  }

  lemma StepMovesBoot(env: Env, s: State, op: Op)
    requires Inv(s)
    ensures var (s', err) := Step(env, s, op);
      Inv(s') && if op == OpCommit && err == Ok then Some(s'.dev.boot) == Next(s.dev.boot) else s'.dev.boot == s.dev.boot
  {
    StepKeeps(env, s, op);
  }

  lemma SlotStep(boot: Partition, k: nat, before: Partition, s: State, committed: bool)
    requires Inv(s) && before == Slot(boot, k)
    requires if committed then Some(s.dev.boot) == Next(before) else s.dev.boot == before
    ensures var k' := if committed then k + 1 else k;
      && s.dev.boot == Slot(boot, k')
      && (s.open ==> s.target == Some(Slot(boot, k' + 1)) && s.target != Some(s.dev.boot))
  {
    if committed { NextSlot(boot, k); }
    if s.open { NextSlot(boot, if committed then k + 1 else k); }
  }

  /** Successful commits alternate the two OTA slots, whatever else is called and whatever fails, and
      the partition being programmed is never the one the device boots from. */
  lemma {:induction false} BootAlternates(env: Env, boot: Partition, ops: seq<Op>)
    ensures After(env, boot, ops).dev.boot == Slot(boot, Commits(env, boot, ops))
    ensures After(env, boot, ops).open ==> After(env, boot, ops).target == Some(Slot(boot, Commits(env, boot, ops) + 1))
    ensures After(env, boot, ops).open ==> After(env, boot, ops).target != Some(After(env, boot, ops).dev.boot)
  {
    hide Step, Slot, Next;
    SlotZero(boot);
    var s, k := After(env, boot, ops), Commits(env, boot, ops);
    if ops == [] {
      SlotStep(boot, 0, boot, s, false);
    } else {
      var before, op := After(env, boot, ops[..|ops| - 1]), ops[|ops| - 1];
      var err := Returned(env, boot, ops);
      BootAlternates(env, boot, ops[..|ops| - 1]);
      StepMovesBoot(env, before, op);
      assert s == Step(env, before, op).0 && err == Step(env, before, op).1;
      var k0 := Commits(env, boot, ops[..|ops| - 1]);
      assert k == k0 + if op == OpCommit && err == Ok then 1 else 0;
      SlotStep(boot, k0, before.dev.boot, s, op == OpCommit && err == Ok);
    }
  }

  lemma {:induction false} SparedContents(env: Env, ops: seq<FlashOp>, more: seq<FlashOp>, p: Partition)
    requires Spares(more, p)
    ensures Contents(env, ops + more, p) == Contents(env, ops, p)
  {
    if more == [] {
      assert ops + more == ops;
    } else {
      var init := more[..|more| - 1];
      SparedContents(env, ops, init, p);
      assert (ops + more)[..|ops + more| - 1] == ops + init;
    }
  }

  /** The image the device boots from is never touched: between two successful commits the boot
      partition holds the same blocks after any calls and any failures. */
  lemma {:induction false} BootImageUntouched(env: Env, boot: Partition, ops: seq<Op>, n: nat)
    requires n <= |ops| && Commits(env, boot, ops[..n]) == Commits(env, boot, ops)
    ensures var s0, s := After(env, boot, ops[..n]), After(env, boot, ops);
      s.dev.boot == s0.dev.boot &&
      Contents(env, s.dev.ops, s.dev.boot) == Contents(env, s0.dev.ops, s0.dev.boot)
  {
    if n == |ops| {
      assert ops[..n] == ops;
    } else {
      var before := ops[..|ops| - 1];
      assert before[..n] == ops[..n];
      CommitsGrow(env, boot, before, n);
      BootImageUntouched(env, boot, before, n);
      var s := After(env, boot, before);
      StepKeeps(env, s, ops[|ops| - 1]);
      var s' := After(env, boot, ops);
      SparedContents(env, s.dev.ops, s'.dev.ops[|s.dev.ops|..], s.dev.boot);
      assert s'.dev.ops == s.dev.ops + s'.dev.ops[|s.dev.ops|..];
    }
  }

  lemma {:induction false} CommitsGrow(env: Env, boot: Partition, ops: seq<Op>, n: nat)
    requires n <= |ops|
    ensures Commits(env, boot, ops[..n]) <= Commits(env, boot, ops)
  {
    if n < |ops| {
      assert ops[..|ops| - 1][..n] == ops[..n];
      CommitsGrow(env, boot, ops[..|ops| - 1], n);
    } else {
      assert ops[..n] == ops;
    }
  }
}
