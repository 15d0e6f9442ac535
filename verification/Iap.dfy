/** The in-application programmer (main/iap.c) as a transition system on values. */
module Iap {
  import opened Platform

  const PAGE: nat := 4096

  datatype Err = Ok | Fail | AlreadyInitialized | NotInitialized | SessionAlreadyOpen
               | OutOfMemory | NoSession | PartitionNotFound | WriteFailed

  /** `pending` is page_buffer[0..page_buffer_ix]; `page` the pointer to that buffer. */
  datatype State = State(initialized: bool, open: bool, target: Option<Partition>, handle: Option<Partition>,
                         addr: nat, page: Pointer, pending: string, dev: Device)

  function Reset(dev: Device): State {
    State(false, false, None, None, 0, Null, [], dev)
  }

  function Init(s: State): (State, Err) {
    if s.initialized then (s, AlreadyInitialized) else (s.(initialized := true, open := false), Ok)
  }

  /** Where the next image goes, given the label of the current boot partition. */
  function Next(boot: Partition): Option<Partition> {
    match boot
    case Factory => Some(Ota0)
    case Ota0 => Some(Ota1)
    case Ota1 => Some(Ota0)
    case Other => None
  }

  /** The partition table lookup can come back empty. */
  function FindNextBootPartition(env: Env, d: Device): (Device, Option<Partition>) {
    (d.(tick := d.tick + 1), if env.ok(d.tick) then Next(d.boot) else None)
  }

  function Begin(env: Env, s: State): (State, Err) {
    if !s.initialized then (s, NotInitialized)
    else if s.open then (s, SessionAlreadyOpen)
    else
      var (d1, page) := Malloc(env, s.dev);
      var s1 := s.(pending := [], page := page, dev := d1);
      if page.Null? then (s1, OutOfMemory)
      else
        var (d2, target) := FindNextBootPartition(env, d1);
        if target.None? then (s1.(target := None, dev := Free(d2, page)), PartitionNotFound)
        else
          var (d3, ok) := Call(env, d2, target, p => Begun(p));
          var s3 := s1.(target := target, addr := env.address(target.value) % WORD, dev := d3);
          if !ok then (s3.(dev := Free(d3, page)), Fail)
          else (s3.(open := true, handle := target), Ok)
  }

  predicate BufferLive(s: State) {
    Allocated(s.dev, s.page)
  }

  function Faulted(s: State): State {
    s.(dev := s.dev.(fault := true))
  }

  function WritePageBuffer(env: Env, s: State): (State, Err) {
    if s.pending == [] then (s, Ok)
    else if !BufferLive(s) then (Faulted(s), WriteFailed)
    else
      var block := s.pending;
      var (d, ok) := Call(env, s.dev, s.handle, p => Wrote(p, block));
      if !ok then (s.(dev := d), WriteFailed)
      else (s.(dev := d, addr := (s.addr + |block|) % WORD, pending := []), Ok)
  }

  /** One round of the copy loop of iap_write: fill the page buffer, flush it if it is full. Returns the
      number of bytes copied. */
  function CopyOnce(env: Env, s: State, bytes: string): (r: (State, Err, nat))
    requires |s.pending| <= PAGE && bytes != []
    ensures r.1 == Ok ==> r.2 <= |bytes| && |r.0.pending| < PAGE
    ensures r.1 == Ok ==> 0 < r.2 || |r.0.pending| < |s.pending|
  {
    if !BufferLive(s) then (Faulted(s), WriteFailed, 0)
    else
      var space := PAGE - |s.pending|;
      var n := if space < |bytes| then space else |bytes|;
      var s1 := s.(pending := s.pending + bytes[..n]);
      if |s1.pending| == PAGE then
        var (s2, err) := WritePageBuffer(env, s1);
        (s2, if err == Ok then Ok else WriteFailed, n)
      else (s1, Ok, n)
  }

  /** The copy loop. It also terminates when entered with a full page buffer, which a failed write
      leaves behind: the first round then copies nothing and only retries the flush. */
  function Fill(env: Env, s: State, bytes: string): (State, Err)
    requires |s.pending| <= PAGE
    decreases |bytes|, |s.pending|
  {
    if bytes == [] then (s, Ok)
    else
      var (s', err, n) := CopyOnce(env, s, bytes);
      if err != Ok then (s', err) else Fill(env, s', bytes[n..])
  }

  function Write(env: Env, s: State, bytes: string): (State, Err)
    requires |s.pending| <= PAGE
  {
    if !s.initialized then (s, NotInitialized)
    else if !s.open then (s, NoSession)
    else Fill(env, s, bytes)
  }

  function Finish(env: Env, s: State, commit: bool): (State, Err) {
    if !s.initialized then (s, NotInitialized)
    else if !s.open then (s, NoSession)
    else
      var (d2, ended) := Call(env, Free(s.dev, s.page), s.handle, p => Ended(p));
      var s2 := s.(page := Null, pending := [], addr := 0, dev := d2);
      if commit && !ended then (s2, Fail)
      else
        var (d3, activated) := if commit then SetBoot(env, d2, s.target) else (d2, true);
        if !activated then (s2.(dev := d3), Fail)
        else (s2.(dev := d3, handle := None, target := None, open := false), Ok)
  }

  /** The result of the final page write is dropped. */
  function Commit(env: Env, s: State): (State, Err) {
    Finish(env, WritePageBuffer(env, s).0, true)
  }

  function Abort(env: Env, s: State): (State, Err) {
    Finish(env, s, false)
  }

  /** What every call keeps. The heap holds exactly the page buffer of the open session, so there
      is neither a leak nor a second buffer; the buffer pointer of a closed session may dangle. */
  ghost predicate Inv(s: State) {
    && (s.open ==> s.initialized)
    && (!s.open ==> s.pending == [])
    && |s.pending| <= PAGE
    && (forall id :: id in s.dev.live ==> id < s.dev.tick)
    && s.dev.live == (if s.open && s.page.Block? then {s.page.id} else {})
    && (s.open && s.page.Null? ==> s.pending == [])
    && (s.open ==> s.target.Some? && s.handle == s.target && s.target == Next(s.dev.boot))
  }

  /** The session is still open but its buffer is gone. */
  predicate Hollow(s: State) {
    s.open && s.page.Null?
  }

  datatype Op = OpInit | OpBegin | OpWrite(bytes: string) | OpCommit | OpAbort

  function Step(env: Env, s: State, op: Op): (State, Err)
    requires |s.pending| <= PAGE
  {
    match op
    case OpInit => Init(s)
    case OpBegin => Begin(env, s)
    case OpWrite(bytes) => Write(env, s, bytes)
    case OpCommit => Commit(env, s)
    case OpAbort => Abort(env, s)
  }
}
