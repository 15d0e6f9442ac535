/** The concurrent protocol of main/iap_https.c: the task loop, the one-shot timer and its callback, and
    manual checks from another task, interleaved step by step over two event bits. */
module Polling {

  datatype Timer = NoTimer | Dormant | Armed

  /** Where the task is: waiting for a bit; woken with a snapshot of the bits; checking (until the metadata
      has been dealt with); about to re-arm the timer; about to clear the check bit; downloading; about to
      clear the download bit. */
  datatype Task = Waiting | Woken(check: bool, download: bool) | Checking | Rearming | Clearing
                | Downloading | ClearingDownload

  /** iap_https_trigger_processing reads the bit and then sets it if it was not set. */
  datatype Caller = Idle | HasRead(wasSet: bool)

  /** `pending`: the timer has expired and its callback has not run yet. `reported` counts the checks that
      found a different version, `completed` the downloads. */
  datatype State = State(check: bool, download: bool, timer: Timer, pending: bool, interval: nat,
                         task: Task, caller: Caller, reported: nat, completed: nat)

  /** iap_https_prepare_timer; `created` and `started` are the results of the timer calls. */
  function PrepareTimer(timer: Timer, interval: nat, created: bool, started: bool): Timer {
    if interval > 0 then
      if timer == NoTimer && !created then NoTimer
      else if started then Armed
      else if timer == NoTimer then Dormant
      else timer
    else NoTimer
  }

  /** What a check comes back with: perhaps a new interval, perhaps the news of a different version. */
  datatype Findings = Findings(interval: nat, different: bool)

  datatype Event =
    | Wake | Act | Fetch(findings: Findings) | Rearm(created: bool, started: bool) | Clear
    | Finish | ClearDownload
    | Expire | Callback
    | ReadBit | SetBit

  ghost predicate Enabled(s: State, e: Event) {
    match e
    case Wake => s.task == Waiting && (s.check || s.download)
    case Act => s.task.Woken?
    case Fetch(_) => s.task == Checking
    case Rearm(_, _) => s.task == Rearming
    case Clear => s.task == Clearing
    case Finish => s.task == Downloading
    case ClearDownload => s.task == ClearingDownload
    case Expire => s.timer == Armed
    case Callback => s.pending
    case ReadBit => s.caller == Idle
    case SetBit => s.caller.HasRead?
  }

  function Next(s: State, e: Event): State {
    match e
    case Wake => s.(task := Woken(s.check, s.download))
    case Act =>
      // The download has priority over the check.
      if s.task.Woken? && s.task.download then s.(task := Downloading)
      else if s.task.Woken? && s.task.check then s.(task := Checking)
      else s.(task := Waiting)
    case Fetch(f) =>
      s.(task := Rearming, interval := f.interval, download := s.download || f.different,
         reported := s.reported + if f.different then 1 else 0)
    case Rearm(created, started) => s.(task := Clearing, timer := PrepareTimer(s.timer, s.interval, created, started))
    case Clear => s.(task := Waiting, check := false)
    case Finish => s.(task := ClearingDownload)
    case ClearDownload => s.(task := Waiting, download := false, completed := s.completed + 1)
    case Expire => s.(timer := Dormant, pending := true)
    case Callback => s.(check := true, pending := false)
    case ReadBit => s.(caller := HasRead(s.check))
    case SetBit => s.(caller := Idle, check := s.check || (s.caller.HasRead? && !s.caller.wasSet))
  }

  /** iap_https_init prepares the timer before it starts the task. */
  function Start(interval: nat, created: bool, started: bool): State {
    State(false, false, PrepareTimer(NoTimer, interval, created, started), false, interval, Waiting, Idle, 0, 0)
  }

  /** The state after the events, in this order. */
  function After(s: State, events: seq<Event>): State {
    if events == [] then s else Next(After(s, events[..|events| - 1]), events[|events| - 1])
  }

  ghost predicate Run(s: State, events: seq<Event>) {
    forall i :: 0 <= i < |events| ==> Enabled(After(s, events[..i]), events[i])
  }

  // ---------- Bits and snapshots ----------

  /** The task is the only one that clears bits. */
  ghost predicate Bits(s: State) {
    && (s.task.Woken? ==> (s.task.check ==> s.check) && (s.task.download ==> s.download) && (s.task.check || s.task.download))
    && (s.task.Woken? && !s.task.download ==> !s.download)
    && (s.task in {Checking, Rearming, Clearing} ==> s.check)
    && (s.task == Checking ==> !s.download)
    && (s.task in {Downloading, ClearingDownload} ==> s.download)
    && s.completed + (if s.download then 1 else 0) == s.reported
  }

  lemma BitsKept(s: State, e: Event)
    requires Bits(s) && Enabled(s, e)
    ensures Bits(Next(s, e))
  {
  }

  lemma RunPrefix(s: State, events: seq<Event>)
    requires Run(s, events) && events != []
    ensures Run(s, events[..|events| - 1])
    ensures Enabled(After(s, events[..|events| - 1]), events[|events| - 1])
  {
    var init := events[..|events| - 1];
    forall i | 0 <= i < |init| ensures Enabled(After(s, init[..i]), init[i]) {
      assert init[..i] == events[..i];
    }
  }

  /** In every interleaving: no wake-up acts on a bit that has been cleared meanwhile, and the completed
      downloads, plus one if a download is due, are exactly the checks that reported a different version. */
  lemma {:induction false} DownloadsConserved(interval: nat, created: bool, started: bool, events: seq<Event>)
    requires Run(Start(interval, created, started), events)
    ensures Bits(After(Start(interval, created, started), events))
  {
    if events != [] {
      RunPrefix(Start(interval, created, started), events);
      DownloadsConserved(interval, created, started, events[..|events| - 1]);
      BitsKept(After(Start(interval, created, started), events[..|events| - 1]), events[|events| - 1]);
    }
  }

  /** A check that has been requested stays requested until the task clears the bit after a check; in
      particular a request made during a download survives it. */
  lemma {:induction false} RequestSurvives(s: State, events: seq<Event>)
    requires s.check && Clear !in events
    ensures After(s, events).check
  {
    if events != [] {
      var init := events[..|events| - 1];
      assert forall e :: e in init ==> e in events;
      assert events[|events| - 1] in events;
      RequestSurvives(s, init);
    }
  }

  ghost predicate NoFetch(events: seq<Event>) {
    forall i :: 0 <= i < |events| ==> !events[i].Fetch?
  }

  /** A check requested while the task is downloading, or in any state in which it has not yet come back from a
      check, is not lost before the task has checked. */
  lemma {:induction false} RequestOutlivesDownload(s: State, events: seq<Event>)
    requires s.check && s.task !in {Rearming, Clearing} && Run(s, events) && NoFetch(events)
    ensures After(s, events).check && After(s, events).task !in {Rearming, Clearing}
  {
    if events != [] {
      RunPrefix(s, events);
      RequestOutlivesDownload(s, events[..|events| - 1]);
    }
  }

  // ---------- Manual requests ----------

  lemma {:induction false} AfterSplit(s: State, a: seq<Event>, b: seq<Event>)
    ensures After(s, a + b) == After(After(s, a), b)
  {
    if b == [] {
      assert a + b == a;
    } else {
      var init := b[..|b| - 1];
      assert (a + b)[..|a + b| - 1] == a + init;
      AfterSplit(s, a, init);
    }
  }

  /** The timer callback has run since the check bit was last cleared. */
  ghost predicate Renewed(events: seq<Event>) {
    events != [] && events[|events| - 1] != Clear &&
    (events[|events| - 1] == Callback || Renewed(events[..|events| - 1]))
  }

  ghost predicate Manual(e: Event) { e == ReadBit || e == SetBit }

  ghost predicate NoCaller(events: seq<Event>) {
    forall i :: 0 <= i < |events| ==> !Manual(events[i])
  }

  lemma {:induction false} BitAfter(s: State, events: seq<Event>)
    requires NoCaller(events)
    ensures After(s, events).check <==> (s.check && Clear !in events) || Renewed(events)
    ensures After(s, events).caller == s.caller
  {
    if events != [] {
      var init, e := events[..|events| - 1], events[|events| - 1];
      BitAfter(s, init);
      assert events == init + [e];
      assert NoCaller(events) && !Manual(e);
    }
  }

  /** A manual request, with any steps `mid` of the task and the timer between its two steps, leaves the bit set if
      and only if the bit was clear when it was read, or was not cleared in between, or has been set again by the
      timer since. */
  lemma RequestSetsBitIff(s: State, mid: seq<Event>)
    requires s.caller == Idle && NoCaller(mid)
    ensures After(s, [ReadBit] + mid + [SetBit]).check <==> !s.check || Clear !in mid || Renewed(mid)
  {
    var read := Next(s, ReadBit);
    assert After(s, [ReadBit]) == read by { assert [ReadBit][..0] == []; }
    AfterSplit(s, [ReadBit], mid);
    BitAfter(read, mid);
    assert ([ReadBit] + mid + [SetBit])[..|mid| + 1] == [ReadBit] + mid;
  }

  lemma RunSplit(s: State, a: seq<Event>, b: seq<Event>)
    requires Run(s, a + b)
    ensures Run(s, a) && Run(After(s, a), b)
  {
    hide Enabled;
    var all := a + b;
    forall i | 0 <= i < |a| ensures Enabled(After(s, a[..i]), a[i]) {
      assert all[..i] == a[..i] && all[i] == a[i];
    }
    forall i | 0 <= i < |b| ensures Enabled(After(After(s, a), b[..i]), b[i]) {
      assert all[..|a| + i] == a + b[..i] && all[|a| + i] == b[i];
      AfterSplit(s, a, b[..i]);
    }
  }

  /** A manual request has no effect: no check comes back after it began, and none is due when it is over. */
  ghost predicate Absorbed(s: State, mid: seq<Event>) {
    !After(s, [ReadBit] + mid + [SetBit]).check && NoFetch(mid)
  }

  /** Over every run: a manual request is absorbed if and only if it reads the bit, still set, when the check has come back
      but the bit has not been cleared, which then happens before the request is over, without the timer setting the
      bit again or another check coming back. */
  lemma RequestAbsorbedIff(s: State, mid: seq<Event>)
    requires Run(s, [ReadBit] + mid + [SetBit]) && NoCaller(mid)
    ensures Absorbed(s, mid) <==>
      s.check && s.task in {Rearming, Clearing} && Clear in mid && NoFetch(mid) && !Renewed(mid)
  {
    hide Run, Renewed;
    RunSplit(s, [ReadBit] + mid, [SetBit]);
    RunSplit(s, [ReadBit], mid);
    ReadIsNext(s, [ReadBit] + mid + [SetBit]);
    RequestSetsBitIff(s, mid);
    if NoFetch(mid) && s.check && s.task !in {Rearming, Clearing} {
      BitAfter(Next(s, ReadBit), mid);
      RequestOutlivesDownload(Next(s, ReadBit), mid);
    }
  }

  lemma ReadIsNext(s: State, events: seq<Event>)
    requires Run(s, events) && events != [] && events[0] == ReadBit
    ensures s.caller == Idle && After(s, [ReadBit]) == Next(s, ReadBit)
  {
    assert events[..0] == [] && [ReadBit][..0] == [];
    assert Enabled(After(s, events[..0]), events[0]);
  }

  // ---------- Polling ----------

  /** A periodic check will happen: it is due, or the timer will make it due. */
  ghost predicate Polled(s: State) {
    s.interval > 0 ==> s.check || s.timer == Armed || s.pending
  }

  /** The timer calls of the task work, and the re-armed timer does not expire before the bit is cleared. */
  ghost predicate WellTimed(s: State, events: seq<Event>) {
    forall i :: 0 <= i < |events| ==>
      (events[i].Rearm? ==> events[i].created && events[i].started) &&
      (events[i] == Expire ==> After(s, events[..i]).task != Clearing)
  }

  ghost predicate PollInv(s: State) {
    Polled(s) && (s.task == Clearing && s.interval > 0 ==> s.timer == Armed)
  }

  lemma WellTimedPrefix(s: State, events: seq<Event>)
    requires WellTimed(s, events) && events != []
    ensures WellTimed(s, events[..|events| - 1])
    ensures var e := events[|events| - 1];
      (e.Rearm? ==> e.created && e.started) && (e == Expire ==> After(s, events[..|events| - 1]).task != Clearing)
  {
    var init := events[..|events| - 1];
    forall i | 0 <= i < |init|
      ensures (init[i].Rearm? ==> init[i].created && init[i].started) && (init[i] == Expire ==> After(s, init[..i]).task != Clearing)
    {
      assert init[..i] == events[..i] && init[i] == events[i];
    }
  }

  /** Polling is never lost: in every reachable state of a well-timed run, with any manual checks and any
      changes of the interval between 0 and n, a positive interval means that a check is due or will be. */
  lemma {:induction false} PollingNeverLost(interval: nat, events: seq<Event>)
    requires Run(Start(interval, true, true), events) && WellTimed(Start(interval, true, true), events)
    ensures PollInv(After(Start(interval, true, true), events))
  {
    var s := Start(interval, true, true);
    if events != [] {
      RunPrefix(s, events);
      WellTimedPrefix(s, events);
      PollingNeverLost(interval, events[..|events| - 1]);
      DownloadsConserved(interval, true, true, events[..|events| - 1]);
    }
  }

  /** Clearing the bit when the timer has expired, or was not started, and its callback has run. */
  ghost predicate LosingClear(s: State, e: Event) {
    e == Clear && s.interval > 0 && s.timer != Armed && !s.pending
  }

  /** One step loses polling exactly if it is a losing one. */
  lemma StepLosesPollingIff(s: State, e: Event)
    requires Bits(s) && Polled(s) && Enabled(s, e)
    ensures !Polled(Next(s, e)) <==> LosingClear(s, e)
  {
  }

  /** In every state that the events pass through. */
  ghost predicate AlwaysPolled(s: State, events: seq<Event>) {
    Polled(After(s, events)) && (events == [] || AlwaysPolled(s, events[..|events| - 1]))
  }

  ghost predicate NeverLosing(s: State, events: seq<Event>) {
    events == [] ||
    var init := events[..|events| - 1];
    !LosingClear(After(s, init), events[|events| - 1]) && NeverLosing(s, init)
  }

  /** Over every run, also with timer calls that fail: polling is kept throughout unless a losing step is taken. */
  lemma {:induction false} KeptUnlessLosing(s: State, events: seq<Event>)
    requires Bits(s) && Polled(s) && Run(s, events)
    ensures AlwaysPolled(s, events) <==> NeverLosing(s, events)
    ensures Bits(After(s, events))
  {
    hide Bits, Next, Polled, LosingClear, Enabled, Run;
    if events != [] {
      var init, e := events[..|events| - 1], events[|events| - 1];
      RunPrefix(s, events);
      KeptUnlessLosing(s, init);
      BitsKept(After(s, init), e);
      if Polled(After(s, init)) { StepLosesPollingIff(After(s, init), e); }
    }
  }

  ghost predicate TimerWorks(events: seq<Event>) {
    forall i :: 0 <= i < |events| && events[i].Rearm? ==> events[i].created && events[i].started
  }

  /** Since the timer was last re-armed, it has expired. */
  ghost predicate Expired(events: seq<Event>) {
    events != [] && var e := events[|events| - 1];
    e == Expire || (!e.Rearm? && Expired(events[..|events| - 1]))
  }

  /** Since the timer was last re-armed, it has expired, and after that its callback has run. */
  ghost predicate Elapsed(events: seq<Event>) {
    events != [] && var e, init := events[|events| - 1], events[..|events| - 1];
    !e.Rearm? && (Elapsed(init) || (e == Callback && Expired(init)))
  }

  /** The timer as the schedule has left it, while the task is about to clear the bit. */
  ghost predicate Scheduled(s: State, events: seq<Event>) {
    s.task == Clearing && s.interval > 0 ==>
      && s.timer == (if Expired(events) then Dormant else Armed)
      && (Elapsed(events) ==> Expired(events) && !s.pending)
      && (Expired(events) && !Elapsed(events) ==> s.pending)
  }

  lemma {:induction false} ScheduleKept(s: State, events: seq<Event>)
    requires s.task != Clearing && Run(s, events) && TimerWorks(events)
    ensures Scheduled(After(s, events), events)
  {
    if events != [] {
      var init, e := events[..|events| - 1], events[|events| - 1];
      RunPrefix(s, events);
      assert forall i :: 0 <= i < |init| ==> init[i] == events[i];
      ScheduleKept(s, init);
    }
  }

  /** Clearing the bit with a positive interval loses polling if and only if, since the timer was re-armed, it has
      expired and its callback has run. */
  lemma ClearLosesPollingIff(s: State, events: seq<Event>)
    requires s.task != Clearing && Run(s, events) && TimerWorks(events) && After(s, events).task == Clearing
    ensures !Polled(Next(After(s, events), Clear)) <==> After(s, events).interval > 0 && Elapsed(events)
  {
    hide After, Run, Elapsed, Expired;
    ScheduleKept(s, events);
  }

  /** The bit is never cleared, with a positive interval, after the timer has elapsed. */
  ghost predicate NeverElapsed(s: State, events: seq<Event>) {
    events == [] ||
    var init := events[..|events| - 1];
    !(events[|events| - 1] == Clear && After(s, init).interval > 0 && Elapsed(init)) && NeverElapsed(s, init)
  }

  /** Over every run with working timer calls and timers of any length: polling is kept throughout if and only if the
      timer never expires, with its callback, between re-arming it and clearing the bit. */
  lemma PollingKeptIff(interval: nat, events: seq<Event>)
    requires Run(Start(interval, true, true), events) && TimerWorks(events)
    ensures AlwaysPolled(Start(interval, true, true), events) <==> NeverElapsed(Start(interval, true, true), events)
  {
    var s := Start(interval, true, true);
    KeptUnlessLosing(s, events);
    LosingIsElapsed(s, events);
  }

  lemma {:induction false} LosingIsElapsed(s: State, events: seq<Event>)
    requires s.task != Clearing && Run(s, events) && TimerWorks(events)
    ensures NeverLosing(s, events) <==> NeverElapsed(s, events)
  {
    if events != [] {
      var init, e := events[..|events| - 1], events[|events| - 1];
      RunPrefix(s, events);
      assert forall i :: 0 <= i < |init| ==> init[i] == events[i];
      LosingIsElapsed(s, init);
      if e == Clear { ScheduleKept(s, init); }
    }
  }

  // ---------- Polling switched off ----------

  /** What re-arming does to the timer: it is there afterwards exactly if polling is on and it could be had; it is armed
      exactly if it is there and could be started, or runs on because it could not be started anew. */
  lemma RearmIs(s: State, created: bool, started: bool)
    ensures var timer := Next(s, Rearm(created, started)).timer;
      && (timer != NoTimer <==> s.interval > 0 && (s.timer != NoTimer || created))
      && (timer == Armed <==> timer != NoTimer && (started || s.timer == Armed))
  {
  }

  /** No re-arming of the run happens with a positive interval. */
  ghost predicate RearmsOff(s: State, events: seq<Event>) {
    forall i :: 0 <= i < |events| && events[i].Rearm? ==> After(s, events[..i]).interval == 0
  }

  lemma RearmsOffPrefix(s: State, events: seq<Event>)
    requires RearmsOff(s, events) && events != []
    ensures RearmsOff(s, events[..|events| - 1])
    ensures events[|events| - 1].Rearm? ==> After(s, events[..|events| - 1]).interval == 0
  {
    var init := events[..|events| - 1];
    forall i | 0 <= i < |init| && init[i].Rearm? ensures After(s, init[..i]).interval == 0 {
      assert init[..i] == events[..i] && init[i] == events[i];
    }
  }

  lemma NoTimerStays(s: State, e: Event)
    requires s.timer == NoTimer && Enabled(s, e) && (e.Rearm? ==> s.interval == 0)
    ensures Next(s, e).timer == NoTimer && e != Expire
  {
  }

  /** Once there is no timer, none expires until it is re-armed with a positive interval. */
  lemma {:induction false} NoTimerNeverExpires(s: State, events: seq<Event>)
    requires s.timer == NoTimer && Run(s, events) && RearmsOff(s, events)
    ensures After(s, events).timer == NoTimer && Expire !in events
  {
    hide Next, Enabled, Run, RearmsOff;
    if events != [] {
      var init, e := events[..|events| - 1], events[|events| - 1];
      RunPrefix(s, events);
      RearmsOffPrefix(s, events);
      NoTimerNeverExpires(s, init);
      assert events == init + [e];
      NoTimerStays(After(s, init), e);
    }
  }

  /** So after re-arming with interval 0 the timer stays gone, over every run, until polling is switched on again. */
  lemma SwitchedOff(s: State, created: bool, started: bool, events: seq<Event>)
    requires s.interval == 0 && Run(Next(s, Rearm(created, started)), events) && RearmsOff(Next(s, Rearm(created, started)), events)
    ensures Next(s, Rearm(created, started)).timer == NoTimer && Expire !in events
  {
    NoTimerNeverExpires(Next(s, Rearm(created, started)), events);
  }

  /** Nothing is due: no bit, no timer, no callback. */
  ghost predicate Quiet(s: State) {
    !s.check && !s.download && s.timer == NoTimer && !s.pending && s.task == Waiting
  }

  lemma QuietStays(s: State, e: Event)
    requires Quiet(s) && Enabled(s, e) && e != SetBit
    ensures Quiet(Next(s, e)) && !e.Fetch?
  {
  }

  /** A device on which polling is off and nobody asks for a check never checks, over every run. */
  lemma {:induction false} OffNeverChecks(s: State, events: seq<Event>)
    requires Quiet(s) && Run(s, events) && SetBit !in events
    ensures Quiet(After(s, events)) && NoFetch(events)
  {
    hide Quiet, Next, Enabled, Run;
    if events != [] {
      var init, e := events[..|events| - 1], events[|events| - 1];
      RunPrefix(s, events);
      assert events == init + [e];
      OffNeverChecks(s, init);
      QuietStays(After(s, init), e);
    }
  }

  /** In particular one that starts with interval 0. */
  lemma StartsOff(created: bool, started: bool, events: seq<Event>)
    requires Run(Start(0, created, started), events) && SetBit !in events
    ensures NoFetch(events) && Quiet(Start(0, created, started))
  {
    OffNeverChecks(Start(0, created, started), events);
  }

  /** Without the timing hypothesis polling can be lost: a run in which the timer is so short that it expires,
      and its callback runs, between re-arming and clearing. */
  lemma PollingCanBeLost(interval: nat) returns (events: seq<Event>)
    requires interval > 0
    ensures Run(Start(interval, true, true), events) && !Polled(After(Start(interval, true, true), events))
    ensures After(Start(interval, true, true), events).task == Waiting && !After(Start(interval, true, true), events).download
  {
    var s := Start(interval, true, true);
    var dormant := s.(timer := Dormant, check := true);
    events := [];
    events := Extend(s, events, s, Expire);
    events := Extend(s, events, s.(timer := Dormant, pending := true), Callback);
    events := Extend(s, events, dormant, Wake);
    events := Extend(s, events, dormant.(task := Woken(true, false)), Act);
    events := Extend(s, events, dormant.(task := Checking), Fetch(Findings(interval, false)));
    events := Extend(s, events, dormant.(task := Rearming), Rearm(true, true));
    events := Extend(s, events, dormant.(task := Clearing, timer := Armed), Expire);
    events := Extend(s, events, dormant.(task := Clearing, pending := true), Callback);
    events := Extend(s, events, dormant.(task := Clearing), Clear);
  }

  lemma RunNothing(s: State)
    ensures Run(s, []) && After(s, []) == s
  {
  }

  lemma Extend(s: State, events: seq<Event>, now: State, e: Event) returns (more: seq<Event>)
    requires Run(s, events) && After(s, events) == now && Enabled(now, e)
    ensures more == events + [e] && Run(s, more) && After(s, more) == Next(now, e)
  {
    more := events + [e];
    assert more[..|more| - 1] == events;
    forall i | 0 <= i < |more| ensures Enabled(After(s, more[..i]), more[i]) {
      assert more[..i] == if i < |events| then events[..i] else events;
    }
  }

  lemma LostStays(s: State, e: Event)
    requires Bits(s) && !Polled(s) && Enabled(s, e) && e != SetBit
    ensures !Polled(Next(s, e)) && !e.Fetch?
  {
  }

  /** Once lost, polling stays lost: over every run in which nobody asks for a check, none is made. */
  lemma {:induction false} LostForGood(s: State, events: seq<Event>)
    requires Bits(s) && !Polled(s) && Run(s, events) && SetBit !in events
    ensures Bits(After(s, events)) && !Polled(After(s, events)) && NoFetch(events)
  {
    hide Bits, Polled, Next, Enabled, Run;
    if events != [] {
      var init, e := events[..|events| - 1], events[|events| - 1];
      RunPrefix(s, events);
      assert events == init + [e];
      LostForGood(s, init);
      BitsKept(After(s, init), e);
      LostStays(After(s, init), e);
    }
  }

  /** A manual request that finds the bit still set while the task is about to clear it has no effect. */
  lemma RequestCanBeAbsorbed(s: State)
    requires s.task == Clearing && s.check && s.caller == Idle
    ensures Run(s, [ReadBit, Clear, SetBit]) && After(s, [ReadBit, Clear, SetBit]) == s.(task := Waiting, check := false)
  {
    var read := s.(caller := HasRead(true));
    var events := Extend(s, [], s, ReadBit);
    events := Extend(s, events, read, Clear);
    events := Extend(s, events, read.(task := Waiting, check := false), SetBit);
    assert events == [ReadBit, Clear, SetBit];
  }
}
