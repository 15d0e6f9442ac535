/** One round of the updater task: the sequential part of the loop, and the steps of the concurrent protocol
    that it amounts to. */
module TaskRound {
  import opened Tls
  import Updater
  import UpdaterProofs
  import UpdateCheck
  import HttpPlan
  import MetadataMemory
  import Download
  import Iap
  import IapImage
  import Polling
  import opened Platform

  /** The coordinator with the check bit of the event group and the timer. */
  datatype State = State(u: Updater.State, check: bool, timer: Polling.Timer)

  /** What a round does that comes back; `created` and `started` are the results of the timer calls. */
  ghost function Round(env: Env, s: State, l: Link, net: Updater.Network, created: bool, started: bool): (State, Link)
    requires Updater.Proper(net)
  {
    if s.u.downloadBit then
      var (l', u', _) := Updater.DownloadImage(env, s.u, l, net);
      (s.(u := u'.(downloadBit := false)), l')
    else
      var (l', u', _) := Updater.CheckForUpdate(s.u, l, net);
      (State(u', false, Polling.PrepareTimer(s.timer, u'.interval, created, started)), l')
  }

  /** What the protocol sees of the task's state. */
  ghost predicate Seen(p: Polling.State, s: State) {
    p.check == s.check && p.download == s.u.downloadBit && p.timer == s.timer && p.interval == s.u.interval
  }

  /** A download changes nothing that the protocol sees. */
  lemma DownloadIsSilent(env: Env, u: Updater.State, l: Link, net: Updater.Network)
    requires Updater.Proper(net) && Iap.Inv(u.iap) && !u.iap.dev.fault
    ensures var u' := Updater.DownloadImage(env, u, l, net).1;
      u'.downloadBit == u.downloadBit && u'.interval == u.interval
  {
    hide Updater.DownloadImage, Download.Requested, Download.FirmwarePlan, Download.Happened, Iap.Inv;
    var outcome := Download.DownloadHappens(env, u, l, net);
    HappenedIsSilent(env, Download.Requested(u, l, net), u, Updater.DownloadImage(env, u, l, net).1, Download.FirmwarePlan(net), outcome);
  }

  lemma HappenedIsSilent(env: Env, requested: bool, u: Updater.State, u': Updater.State, plan: HttpPlan.Plan, outcome: Download.Outcome)
    requires Iap.Inv(u.iap) && Download.Happened(env, requested, u, u', plan, outcome)
    ensures u'.downloadBit == u.downloadBit && u'.interval == u.interval
  {
    hide UpdaterProofs.Prepared, UpdaterProofs.Reaches, IapImage.WriteAll, IapImage.Flat, Iap.Begin, Iap.Commit, Iap.Abort, Iap.Inv,
         Updater.ToInt32;
  }

  /** The steps of the protocol that a round takes. */
  ghost function Steps(env: Env, s: State, l: Link, net: Updater.Network, created: bool, started: bool): seq<Polling.Event>
    requires Updater.Proper(net)
  {
    if s.u.downloadBit then [Polling.Wake, Polling.Act, Polling.Finish, Polling.ClearDownload]
    else
      var u' := Updater.CheckForUpdate(s.u, l, net).1;
      [Polling.Wake, Polling.Act, Polling.Fetch(Polling.Findings(u'.interval, u'.downloadBit)),
       Polling.Rearm(created, started), Polling.Clear]
  }

  /** The code refines the protocol: a round that starts in a state the protocol describes takes enabled steps
      of the protocol, and ends in the state that the protocol predicts. */
  lemma RoundRefinesProtocol(env: Env, s: State, l: Link, net: Updater.Network, created: bool, started: bool, p: Polling.State)
    requires Updater.Proper(net) && Iap.Inv(s.u.iap) && !s.u.iap.dev.fault && (s.check || s.u.downloadBit)
    requires p.task == Polling.Waiting && Seen(p, s)
    ensures var (s', _), events := Round(env, s, l, net, created, started), Steps(env, s, l, net, created, started);
      Polling.Run(p, events) && Seen(Polling.After(p, events), s') && Polling.After(p, events).task == Polling.Waiting
  {
    if s.u.downloadBit {
      DownloadIsSilent(env, s.u, l, net);
      DownloadSteps(p);
    } else {
      CheckSteps(p, Updater.CheckForUpdate(s.u, l, net).1, created, started);
    }
  }

  lemma DownloadSteps(p: Polling.State)
    requires p.task == Polling.Waiting && p.download
    ensures var events := [Polling.Wake, Polling.Act, Polling.Finish, Polling.ClearDownload];
      Polling.Run(p, events) && Polling.After(p, events) == p.(download := false, completed := p.completed + 1)
  {
    hide Polling.After, Polling.Run;
    Polling.RunNothing(p);
    var e := Polling.Extend(p, [], p, Polling.Wake);
    e := Polling.Extend(p, e, p.(task := Polling.Woken(p.check, true)), Polling.Act);
    e := Polling.Extend(p, e, p.(task := Polling.Downloading), Polling.Finish);
    e := Polling.Extend(p, e, p.(task := Polling.ClearingDownload), Polling.ClearDownload);
    assert e == [Polling.Wake, Polling.Act, Polling.Finish, Polling.ClearDownload];
  }

  lemma CheckSteps(p: Polling.State, u': Updater.State, created: bool, started: bool)
    requires p.task == Polling.Waiting && !p.download && p.check
    ensures var f := Polling.Findings(u'.interval, u'.downloadBit);
      var events := [Polling.Wake, Polling.Act, Polling.Fetch(f), Polling.Rearm(created, started), Polling.Clear];
      Polling.Run(p, events) &&
      Polling.After(p, events) == p.(check := false, download := u'.downloadBit, interval := u'.interval,
        timer := Polling.PrepareTimer(p.timer, u'.interval, created, started),
        reported := p.reported + if u'.downloadBit then 1 else 0)
  {
    hide Polling.After, Polling.Run;
    Polling.RunNothing(p);
    var f := Polling.Findings(u'.interval, u'.downloadBit);
    var fetched := p.(interval := f.interval, download := f.different, reported := p.reported + if f.different then 1 else 0);
    var armed := fetched.(timer := Polling.PrepareTimer(p.timer, f.interval, created, started));
    var e := Polling.Extend(p, [], p, Polling.Wake);
    e := Polling.Extend(p, e, p.(task := Polling.Woken(true, false)), Polling.Act);
    e := Polling.Extend(p, e, p.(task := Polling.Checking), Polling.Fetch(f));
    e := Polling.Extend(p, e, fetched.(task := Polling.Rearming), Polling.Rearm(created, started));
    e := Polling.Extend(p, e, armed.(task := Polling.Clearing), Polling.Clear);
    assert e == [Polling.Wake, Polling.Act, Polling.Fetch(f), Polling.Rearm(created, started), Polling.Clear];
  }

  // ---------- The task, interleaved ----------

  /** The task with its whole data, the timer and a caller; `reported` and `completed` only count. */
  datatype Code = Code(u: Updater.State, l: Link, check: bool, timer: Polling.Timer, pending: bool,
                       task: Polling.Task, caller: Polling.Caller, reported: nat, completed: nat)

  /** A step of the task, with what the network and the timer calls decide; or a step of somebody else: the timer expires,
      its callback runs, or a caller reads or sets the bit. */
  datatype Step = Wake | Act | Check(net: Updater.Network) | Rearm(created: bool, started: bool) | Clear
                | Download(net: Updater.Network) | ClearDownload | Other(e: Polling.Event)

  function Abstract(c: Code): Polling.State {
    Polling.State(c.check, c.u.downloadBit, c.timer, c.pending, c.u.interval, c.task, c.caller, c.reported, c.completed)
  }

  predicate OfOthers(e: Polling.Event) {
    e in {Polling.Expire, Polling.Callback, Polling.ReadBit, Polling.SetBit}
  }

  /** Checks and downloads are steps only if they come back. */
  ghost predicate Can(env: Env, c: Code, step: Step) {
    match step
    case Wake => c.task == Polling.Waiting && (c.check || c.u.downloadBit)
    case Act => c.task.Woken?
    case Check(net) => c.task == Polling.Checking && Updater.Proper(net) && Updater.CheckForUpdate(c.u, c.l, net).2 !in {Blocked, Crashed}
    case Rearm(_, _) => c.task == Polling.Rearming
    case Clear => c.task == Polling.Clearing
    case Download(net) => c.task == Polling.Downloading && Updater.Proper(net) && Updater.DownloadImage(env, c.u, c.l, net).2 !in {Blocked, Crashed}
    case ClearDownload => c.task == Polling.ClearingDownload
    case Other(e) => OfOthers(e) && Polling.Enabled(Abstract(c), e)
  }

  ghost function Do(env: Env, c: Code, step: Step): Code {
    if !Can(env, c, step) then c else
    match step
    case Wake => c.(task := Polling.Woken(c.check, c.u.downloadBit))
    case Act => c.(task := if c.task.download then Polling.Downloading else if c.task.check then Polling.Checking else Polling.Waiting)
    case Check(net) =>
      var (l', u', _) := Updater.CheckForUpdate(c.u, c.l, net);
      c.(u := u', l := l', task := Polling.Rearming, reported := c.reported + if News(c.u, u') then 1 else 0)
    case Rearm(created, started) =>
      c.(timer := Polling.PrepareTimer(c.timer, c.u.interval, created, started), task := Polling.Clearing)
    case Clear => c.(check := false, task := Polling.Waiting)
    case Download(net) =>
      var (l', u', _) := Updater.DownloadImage(env, c.u, c.l, net);
      c.(u := u', l := l', task := Polling.ClearingDownload)
    case ClearDownload => c.(u := c.u.(downloadBit := false), task := Polling.Waiting, completed := c.completed + 1)
    case Other(e) =>
      var p := Polling.Next(Abstract(c), e);
      c.(check := p.check, timer := p.timer, pending := p.pending, caller := p.caller)
  }

  /** The check has found a different version. */
  predicate News(u: Updater.State, u': Updater.State) {
    u'.downloadBit && !u.downloadBit
  }

  /** The step of the protocol. */
  ghost function EventOf(c: Code, step: Step): Polling.Event {
    match step
    case Wake => Polling.Wake
    case Act => Polling.Act
    case Check(net) =>
      if !Updater.Proper(net) then Polling.Clear else
      var u' := Updater.CheckForUpdate(c.u, c.l, net).1;
      Polling.Fetch(Polling.Findings(u'.interval, News(c.u, u')))
    case Rearm(created, started) => Polling.Rearm(created, started)
    case Clear => Polling.Clear
    case Download(_) => Polling.Finish
    case ClearDownload => Polling.ClearDownload
    case Other(e) => e
  }

  ghost predicate Safe(c: Code) {
    Iap.Inv(c.u.iap) && !c.u.iap.dev.fault
  }

  lemma CheckStep(env: Env, c: Code, net: Updater.Network)
    requires Can(env, c, Check(net)) && Safe(c)
    ensures var c' := Do(env, c, Check(net));
      Safe(c') && Abstract(c') == Polling.Next(Abstract(c), EventOf(c, Check(net)))
  {
    hide Updater.CheckForUpdate, UpdateCheck.Shown, MetadataMemory.StaysInside, Iap.Inv;
    UpdateCheck.CheckTouchesOnly(c.u, c.l, net);
  }

  lemma DownloadStep(env: Env, c: Code, net: Updater.Network)
    requires Can(env, c, Download(net)) && Safe(c)
    ensures var c' := Do(env, c, Download(net));
      Safe(c') && Abstract(c') == Polling.Next(Abstract(c), EventOf(c, Download(net)))
  {
    hide Updater.DownloadImage, Iap.Inv;
    DownloadIsSilent(env, c.u, c.l, net);
    Download.DownloadIsSafe(env, c.u, c.l, net);
  }

  /** Every step of the code is an enabled step of the protocol. */
  lemma StepRefines(env: Env, c: Code, step: Step)
    requires Can(env, c, step) && Safe(c)
    ensures Polling.Enabled(Abstract(c), EventOf(c, step))
    ensures Abstract(Do(env, c, step)) == Polling.Next(Abstract(c), EventOf(c, step)) && Safe(Do(env, c, step))
  {
    hide Updater.CheckForUpdate, Updater.DownloadImage, Updater.Proper, Iap.Inv;
    match step
    case Check(net) => CheckStep(env, c, net);
    case Download(net) => DownloadStep(env, c, net);
    case _ =>
  }

  ghost function DoAll(env: Env, c: Code, steps: seq<Step>): Code {
    if steps == [] then c else Do(env, DoAll(env, c, steps[..|steps| - 1]), steps[|steps| - 1])
  }

  ghost predicate CodeRun(env: Env, c: Code, steps: seq<Step>) {
    steps == [] ||
    var init := steps[..|steps| - 1];
    CodeRun(env, c, init) && Can(env, DoAll(env, c, init), steps[|steps| - 1])
  }

  ghost function EventsOf(env: Env, c: Code, steps: seq<Step>): seq<Polling.Event> {
    if steps == [] then [] else
      var init := steps[..|steps| - 1];
      EventsOf(env, c, init) + [EventOf(DoAll(env, c, init), steps[|steps| - 1])]
  }

  /** The code refines the protocol, over every run and every interleaving: whatever the network, the timer and the callers
      do between any two steps of the task, the run is one of the protocol, and leaves the state the protocol predicts. */
  lemma {:induction false} CodeRefinesProtocol(env: Env, c: Code, steps: seq<Step>)
    requires CodeRun(env, c, steps) && Safe(c)
    ensures Polling.Run(Abstract(c), EventsOf(env, c, steps)) && Safe(DoAll(env, c, steps))
    ensures Abstract(DoAll(env, c, steps)) == Polling.After(Abstract(c), EventsOf(env, c, steps))
  {
    hide Do, Can, EventOf, Abstract, Safe, Polling.After, Polling.Run, Polling.Next, Polling.Enabled;
    if steps == [] {
      Polling.RunNothing(Abstract(c));
    } else {
      var init, step := steps[..|steps| - 1], steps[|steps| - 1];
      CodeRefinesProtocol(env, c, init);
      var now, events := DoAll(env, c, init), EventsOf(env, c, init);
      StepRefines(env, now, step);
      var more := Polling.Extend(Abstract(c), events, Abstract(now), EventOf(now, step));
    }
  }

  /** The code as iap_https_init leaves it. */
  ghost predicate Started(c: Code, created: bool, started: bool) {
    Safe(c) && Abstract(c) == Polling.Start(c.u.interval, created, started)
  }

  /** So in every run of the code the completed downloads, plus one if one is due, are the checks that found a different
      version, and polling is kept if the timer calls work and no timer expires between re-arming it and clearing the
      bit. */
  lemma CodeKeepsPolling(env: Env, c: Code, steps: seq<Step>, created: bool, started: bool)
    requires CodeRun(env, c, steps) && Started(c, created, started)
    ensures var c' := DoAll(env, c, steps);
      && c'.completed + (if c'.u.downloadBit then 1 else 0) == c'.reported
      && (created && started && Polling.WellTimed(Abstract(c), EventsOf(env, c, steps)) && c'.u.interval > 0 ==>
            c'.check || c'.timer == Polling.Armed || c'.pending)
  {
    hide DoAll, EventsOf, Polling.After, Polling.Run, Polling.WellTimed, Polling.Start;
    CodeRefinesProtocol(env, c, steps);
    Polling.DownloadsConserved(c.u.interval, created, started, EventsOf(env, c, steps));
    if created && started && Polling.WellTimed(Abstract(c), EventsOf(env, c, steps)) {
      Polling.PollingNeverLost(c.u.interval, EventsOf(env, c, steps));
    }
  }

  lemma {:induction false} EventOfStep(env: Env, c: Code, steps: seq<Step>, i: nat)
    requires i < |steps|
    ensures |EventsOf(env, c, steps)| == |steps|
    ensures EventsOf(env, c, steps)[i] == EventOf(DoAll(env, c, steps[..i]), steps[i])
  {
    var init := steps[..|steps| - 1];
    if i < |init| {
      EventOfStep(env, c, init, i);
      assert init[..i] == steps[..i];
    } else if init != [] {
      EventOfStep(env, c, init, 0);
    }
  }

  /** If nothing is due and there is no timer, and nobody asks for a check, the task never makes one, whatever else
      happens. */
  lemma CodeStaysOff(env: Env, c: Code, steps: seq<Step>)
    requires CodeRun(env, c, steps) && Safe(c) && Polling.Quiet(Abstract(c))
    requires Step.Other(Polling.SetBit) !in steps
    ensures forall i :: 0 <= i < |steps| ==> !steps[i].Check?
    ensures DoAll(env, c, steps).timer == Polling.NoTimer
  {
    hide DoAll, Polling.After, Polling.Run, CodeRun;
    var events := EventsOf(env, c, steps);
    CodeRefinesProtocol(env, c, steps);
    forall i | 0 <= i < |events| ensures |events| == |steps| && events[i] != Polling.SetBit && (steps[i].Check? ==> events[i].Fetch?) {
      SameLength(env, c, steps);
      EventOfStep(env, c, steps, i);
      CheckIsFetch(env, c, steps, i);
    }
    SameLength(env, c, steps);
    Polling.OffNeverChecks(Abstract(c), events);
  }

  /** In particular if the device starts with interval 0. */
  lemma CodeStartsOff(env: Env, c: Code, steps: seq<Step>, created: bool, started: bool)
    requires CodeRun(env, c, steps) && Started(c, created, started) && c.u.interval == 0
    requires Step.Other(Polling.SetBit) !in steps
    ensures forall i :: 0 <= i < |steps| ==> !steps[i].Check?
  {
    hide CodeRun;
    Polling.StartsOff(created, started, []);
    CodeStaysOff(env, c, steps);
  }

  /** And if a check comes back with interval 0 and without news, nothing is due after its round, and the timer is gone. */
  lemma RoundSwitchesOff(env: Env, s: State, l: Link, net: Updater.Network, created: bool, started: bool)
    requires Updater.Proper(net) && !s.u.downloadBit
    ensures var s' := Round(env, s, l, net, created, started).0;
      s'.u.interval == 0 ==> s'.timer == Polling.NoTimer && !s'.check
  {
    hide Updater.CheckForUpdate;
  }

  lemma {:induction false} SameLength(env: Env, c: Code, steps: seq<Step>)
    ensures |EventsOf(env, c, steps)| == |steps|
  {
    if steps != [] { SameLength(env, c, steps[..|steps| - 1]); }
  }

  lemma {:induction false} CanAt(env: Env, c: Code, steps: seq<Step>, i: nat)
    requires CodeRun(env, c, steps) && i < |steps|
    ensures Can(env, DoAll(env, c, steps[..i]), steps[i])
  {
    var init := steps[..|steps| - 1];
    if i < |init| {
      CanAt(env, c, init, i);
      assert init[..i] == steps[..i];
    }
  }

  lemma CheckIsFetch(env: Env, c: Code, steps: seq<Step>, i: nat)
    requires CodeRun(env, c, steps) && i < |steps|
    ensures var e := EventOf(DoAll(env, c, steps[..i]), steps[i]);
      (e.Fetch? <==> steps[i].Check?) && (e == Polling.SetBit <==> steps[i] == Step.Other(Polling.SetBit))
  {
    hide DoAll, CodeRun, Updater.CheckForUpdate;
    CanAt(env, c, steps, i);
  }

  lemma FiveSteps(env: Env, c: Code, a: Step, b: Step, d: Step, e: Step, f: Step)
    ensures DoAll(env, c, [a, b, d, e, f]) == Do(env, Do(env, Do(env, Do(env, Do(env, c, a), b), d), e), f)
    ensures DoAll(env, c, [a, b, d, e]) == Do(env, Do(env, Do(env, Do(env, c, a), b), d), e)
  {
    hide Do;
    assert [a, b, d, e, f][..4] == [a, b, d, e] && [a, b, d, e][..3] == [a, b, d];
    assert [a, b, d][..2] == [a, b] && [a, b][..1] == [a] && [a][..0] == [];
    assert DoAll(env, c, []) == c;
    assert DoAll(env, c, [a]) == Do(env, c, a);
    assert DoAll(env, c, [a, b]) == Do(env, Do(env, c, a), b);
    assert DoAll(env, c, [a, b, d]) == Do(env, Do(env, Do(env, c, a), b), d);
  }

  /** Without steps of others in between, the steps of the task are its round. */
  lemma StepsAreRound(env: Env, c: Code, net: Updater.Network, created: bool, started: bool)
    requires c.task == Polling.Waiting && (c.check || c.u.downloadBit) && Updater.Proper(net)
    requires (if c.u.downloadBit then Updater.DownloadImage(env, c.u, c.l, net).2 else Updater.CheckForUpdate(c.u, c.l, net).2)
      !in {Blocked, Crashed}
    ensures var steps := if c.u.downloadBit then [Wake, Act, Download(net), ClearDownload]
                         else [Wake, Act, Check(net), Rearm(created, started), Clear];
      var c' := DoAll(env, c, steps);
      (State(c'.u, c'.check, c'.timer), c'.l) == Round(env, State(c.u, c.check, c.timer), c.l, net, created, started)
  {
    hide Updater.CheckForUpdate, Updater.DownloadImage, DoAll;
    if c.u.downloadBit {
      FiveSteps(env, c, Wake, Act, Download(net), ClearDownload, Wake);
    } else {
      FiveSteps(env, c, Wake, Act, Check(net), Rearm(created, started), Clear);
    }
  }
}
