/** The bulk firmware-install job (internal/services/jobs/firmware_install.go): one worker per requested
    device, a semaphore, a shared results array, and a clock that only moves forward. */
module FirmwareInstall {
  import opened Wrappers

  /** How many installs run at once. */
  const CONCURRENCY := 5

  datatype Status = Pending | Skipped | Updating | Current | Error | Unknown

  predicate IsInstallTerminal(status: Status) {
    status.Current? || status.Error? || status.Unknown? || status.Skipped?
  }

  /** The moves a device's status may make, one at a time. */
  predicate MayMove(from: Status, to: Status) {
    || from == to
    || (from == Pending && (to == Error || to == Unknown || to == Updating))
    || (from == Updating && (to == Current || to == Unknown))
  }

  /** Durations of a job. The settings helpers keep the poll interval at a second or more. */
  datatype Config = Config(timeout: nat, quietPeriod: nat, pollInterval: nat)

  /** Where a worker stands in `installOne`. */
  datatype Phase =
    | Refused                  // the reservation was not granted: no worker
    | Queued                   // waiting for the semaphore
    | Begun                    // at the first shutdown check
    | Triggering               // the update RPC is under way
    | Quiet(until: nat)        // leaving the device alone
    | LoopTop                  // at the head of the polling loop
    | PollWait(until: nat)     // waiting out the poll interval
    | Probing                  // the version RPC is under way
    | Leaving                  // result written, semaphore still held
    | Finished

  datatype Worker = Worker(phase: Phase, status: Status, fromVer: string, toVer: string, deadline: nat)

  datatype Job = Job(workers: seq<Worker>, now: nat, shutdown: bool)

  datatype Action =
    | Enter(i: nat)                              // the semaphore is acquired
    | Begin(i: nat)
    | TriggerReturns(i: nat, triggered: bool)
    | QuietCut(i: nat)                           // shutdown during the quiet period
    | QuietOver(i: nat)
    | Head(i: nat)                               // the two checks at the head of the loop
    | WaitCut(i: nat)                            // shutdown during the poll interval
    | WaitOver(i: nat)
    | ProbeReturns(i: nat, version: Option<string>)
    | Leave(i: nat)                              // the semaphore is released
    | Tick(duration: nat)
    | Shutdown

  predicate InFlight(w: Worker) {
    !w.phase.Refused? && !w.phase.Queued? && !w.phase.Finished?
  }

  function CountInFlight(ws: seq<Worker>): nat {
    if ws == [] then 0 else CountInFlight(ws[1..]) + if InFlight(ws[0]) then 1 else 0
  }

  predicate Enabled(s: Job, a: Action) {
    if a.Tick? || a.Shutdown? then true
    else
      a.i < |s.workers| &&
      var p := s.workers[a.i].phase;
      match a
      case Enter(_) => p.Queued? && CountInFlight(s.workers) < CONCURRENCY
      case Begin(_) => p.Begun?
      case TriggerReturns(_, _) => p.Triggering?
      case QuietCut(_) => p.Quiet? && s.shutdown
      case QuietOver(_) => p.Quiet? && p.until <= s.now
      case Head(_) => p.LoopTop?
      case WaitCut(_) => p.PollWait? && s.shutdown
      case WaitOver(_) => p.PollWait? && p.until <= s.now
      case ProbeReturns(_, _) => p.Probing?
      case Leave(_) => p.Leaving?
      case _ => true
  }

  function After(c: Config, s: Job, w: Worker, a: Action): Worker {
    match a
    case Enter(_) => w.(phase := Begun)
    case Begin(_) => if s.shutdown then w.(status := Unknown, phase := Leaving) else w.(phase := Triggering)
    case TriggerReturns(_, triggered) =>
      if triggered
      then w.(status := Updating, deadline := s.now + c.timeout, phase := Quiet(s.now + c.quietPeriod))
      else w.(status := Error, phase := Leaving)
    case QuietCut(_) => w.(status := Unknown, phase := Leaving)
    case QuietOver(_) => w.(phase := LoopTop)
    case Head(_) =>
      if s.shutdown || s.now > w.deadline
      then w.(status := Unknown, phase := Leaving)
      else w.(phase := PollWait(s.now + c.pollInterval))
    case WaitCut(_) => w.(phase := LoopTop)
    case WaitOver(_) => w.(phase := Probing)
    case ProbeReturns(_, version) =>
      if Moved(w.fromVer, version)
      then w.(status := Current, toVer := version.value, phase := Leaving)
      else w.(phase := LoopTop)
    case Leave(_) => w.(phase := Finished)
    case Tick(_) => w
    case Shutdown => w
  }

  /** The probe answered with a version other than the one the device started from. */
  predicate Moved(fromVer: string, version: Option<string>) {
    version.Some? && version.value != "" && version.value != fromVer
  }

  function Step(c: Config, s: Job, a: Action): Job {
    if !Enabled(s, a) then s
    else
      match a
      case Tick(duration) => s.(now := s.now + duration)
      case Shutdown => s.(shutdown := true)
      case _ => s.(workers := s.workers[a.i := After(c, s, s.workers[a.i], a)])
  }

  function Run(c: Config, s: Job, actions: seq<Action>): Job {
    if actions == [] then s
    else Step(c, Run(c, s, actions[..|actions| - 1]), actions[|actions| - 1])
  }

  /** The devices of a job with the versions they report; `allowed` is the outcome of the reservation. */
  function Start(versions: seq<string>, targets: seq<string>, allowed: seq<bool>, now: nat): Job
    requires |versions| == |targets| == |allowed|
  {
    Job(seq(|versions|, i requires 0 <= i < |versions| =>
          if allowed[i] then Worker(Queued, Pending, versions[i], targets[i], 0)
          else Worker(Refused, Skipped, versions[i], targets[i], 0)), now, false)
  }

  // ----- What every step keeps -----

  predicate PhaseFits(w: Worker) {
    match w.phase
    case Refused => w.status == Skipped
    case Queued => w.status == Pending
    case Begun => w.status == Pending
    case Triggering => w.status == Pending
    case Leaving => w.status == Error || w.status == Unknown || w.status == Current
    case Finished => w.status == Error || w.status == Unknown || w.status == Current
    case _ => w.status == Updating
  }

  ghost predicate Invariant(s: Job) {
    && CountInFlight(s.workers) <= CONCURRENCY
    && forall i :: 0 <= i < |s.workers| ==> PhaseFits(s.workers[i])
  }

  lemma {:induction false} CountUpdate(ws: seq<Worker>, i: nat, w: Worker)
    requires i < |ws|
    ensures CountInFlight(ws[i := w]) ==
            CountInFlight(ws) - (if InFlight(ws[i]) then 1 else 0) + (if InFlight(w) then 1 else 0)
  {
    if i == 0 {
      assert ws[0 := w][1..] == ws[1..];
    } else {
      CountUpdate(ws[1..], i - 1, w);
      assert ws[i := w][1..] == ws[1..][i - 1 := w];
    }
  }

  lemma WorkerKeepsInvariant(c: Config, s: Job, a: Action)
    requires Enabled(s, a) && !a.Tick? && !a.Shutdown? && PhaseFits(s.workers[a.i])
    ensures var w := s.workers[a.i];
            var w' := After(c, s, w, a);
            PhaseFits(w') && MayMove(w.status, w'.status) && (a.Enter? || InFlight(w))
  {
  }

  lemma StepKeepsInvariant(c: Config, s: Job, a: Action)
    requires Invariant(s)
    ensures Invariant(Step(c, s, a))
    ensures |Step(c, s, a).workers| == |s.workers|
    ensures forall i :: 0 <= i < |s.workers| ==> MayMove(s.workers[i].status, Step(c, s, a).workers[i].status)
  {
    if Enabled(s, a) && !a.Tick? && !a.Shutdown? {
      WorkerKeepsInvariant(c, s, a);
      CountUpdate(s.workers, a.i, After(c, s, s.workers[a.i], a));
    }
  }

  lemma {:induction false} NobodyInFlight(ws: seq<Worker>)
    requires forall i :: 0 <= i < |ws| ==> !InFlight(ws[i])
    ensures CountInFlight(ws) == 0
  {
    if ws != [] {
      NobodyInFlight(ws[1..]);
    }
  }

  lemma {:induction false} RunKeepsInvariant(c: Config, s: Job, actions: seq<Action>)
    requires Invariant(s)
    ensures Invariant(Run(c, s, actions)) && |Run(c, s, actions).workers| == |s.workers|
  {
    if actions != [] {
      RunKeepsInvariant(c, s, actions[..|actions| - 1]);
      StepKeepsInvariant(c, Run(c, s, actions[..|actions| - 1]), actions[|actions| - 1]);
    }
  }

  lemma StartInvariant(versions: seq<string>, targets: seq<string>, allowed: seq<bool>, now: nat)
    requires |versions| == |targets| == |allowed|
    ensures Invariant(Start(versions, targets, allowed, now))
  {
    NobodyInFlight(Start(versions, targets, allowed, now).workers);
  }

  /** At every moment of every run of a job at most five installs are in flight. */
  lemma ConcurrencyBound(c: Config, versions: seq<string>, targets: seq<string>, allowed: seq<bool>, now: nat,
                         actions: seq<Action>)
    requires |versions| == |targets| == |allowed|
    ensures CountInFlight(Run(c, Start(versions, targets, allowed, now), actions).workers) <= 5
  {
    StartInvariant(versions, targets, allowed, now);
    RunKeepsInvariant(c, Start(versions, targets, allowed, now), actions);
  }

  /** And whoever waits for the semaphore waits because five are. */
  lemma WaitsExactlyWhenFull(s: Job, i: nat)
    requires Invariant(s) && i < |s.workers| && s.workers[i].phase.Queued?
    ensures !Enabled(s, Enter(i)) <==> CountInFlight(s.workers) == 5
  {
  }

  /** From any moment of a run on, a result that is final stays as it is, version and all. */
  lemma {:induction false} TerminalIsFinal(c: Config, s: Job, actions: seq<Action>, i: nat)
    requires Invariant(s) && i < |s.workers| && IsInstallTerminal(s.workers[i].status)
    ensures |Run(c, s, actions).workers| == |s.workers|
    ensures var w := Run(c, s, actions).workers[i];
            w.status == s.workers[i].status && w.toVer == s.workers[i].toVer
  {
    RunKeepsInvariant(c, s, actions);
    if actions != [] {
      var n := |actions| - 1;
      RunKeepsInvariant(c, s, actions[..n]);
      TerminalIsFinal(c, s, actions[..n], i);
      assert PhaseFits(Run(c, s, actions[..n]).workers[i]);
    }
  }

  /** `wg.Wait()` has returned. */
  predicate AllDone(s: Job) {
    forall i :: 0 <= i < |s.workers| ==> s.workers[i].phase.Finished? || s.workers[i].phase.Refused?
  }

  function CountTerminal(ws: seq<Worker>): nat {
    if ws == [] then 0 else CountTerminal(ws[1..]) + if IsInstallTerminal(ws[0].status) then 1 else 0
  }

  lemma {:induction false} AllTerminal(ws: seq<Worker>)
    requires forall i :: 0 <= i < |ws| ==> IsInstallTerminal(ws[i].status)
    ensures CountTerminal(ws) == |ws|
  {
    if ws != [] {
      AllTerminal(ws[1..]);
    }
  }

  /** When the job is completed as `len(final)` out of `len(final)`, that is the truth: no result is still
      open. */
  lemma CompletionIsTruthful(c: Config, versions: seq<string>, targets: seq<string>, allowed: seq<bool>, now: nat,
                             actions: seq<Action>)
    requires |versions| == |targets| == |allowed|
    requires AllDone(Run(c, Start(versions, targets, allowed, now), actions))
    ensures var final := Run(c, Start(versions, targets, allowed, now), actions).workers;
            && (forall i :: 0 <= i < |final| ==> IsInstallTerminal(final[i].status))
            && CountTerminal(final) == |final| == |versions|
  {
    StartInvariant(versions, targets, allowed, now);
    RunKeepsInvariant(c, Start(versions, targets, allowed, now), actions);
    var final := Run(c, Start(versions, targets, allowed, now), actions).workers;
    forall i | 0 <= i < |final|
      ensures IsInstallTerminal(final[i].status)
    {
      assert PhaseFits(final[i]);
    }
    AllTerminal(final);
  }

  // ----- Termination -----

  /** How many polls fit into `room`: one at once, and one more for every whole poll interval. */
  function Polls(room: int, pollInterval: nat): nat
    requires pollInterval > 0
    decreases if room < 0 then 0 else room + 1
  {
    if room < 0 then 0 else 1 + Polls(room - pollInterval, pollInterval)
  }

  /** How many more heads of the loop can find time left, the next one being no earlier than `at`. */
  function HeadsLeft(c: Config, w: Worker, at: nat): nat
    requires c.pollInterval > 0
  {
    Polls(w.deadline - at, c.pollInterval)
  }

  /** An upper bound on the actions a worker still has before it. */
  function Rank(c: Config, s: Job, w: Worker): nat
    requires c.pollInterval > 0
  {
    var most := 3 * Polls(c.timeout, c.pollInterval);
    match w.phase
    case Refused => 0
    case Queued => most + 6
    case Begun => most + 5
    case Triggering => most + 4
    case Quiet(until) => 3 * HeadsLeft(c, w, if until <= s.now then s.now else until) + 3
    case LoopTop => if s.shutdown then 2 else 3 * HeadsLeft(c, w, s.now) + 2
    case PollWait(until) => 3 * HeadsLeft(c, w, if until <= s.now then s.now else until) + 4
    case Probing => 3 * HeadsLeft(c, w, s.now) + 3
    case Leaving => 1
    case Finished => 0
  }

  lemma {:induction false} MoreRoomMorePolls(less: int, more: int, pollInterval: nat)
    requires pollInterval > 0 && less <= more
    ensures Polls(less, pollInterval) <= Polls(more, pollInterval)
    decreases if more < 0 then 0 else more + 1
  {
    if less >= 0 {
      MoreRoomMorePolls(less - pollInterval, more - pollInterval, pollInterval);
    }
  }

  /** The acting worker's bound drops. */
  lemma ActionLowersRank(c: Config, s: Job, a: Action)
    requires c.pollInterval > 0 && Enabled(s, a) && !a.Tick? && !a.Shutdown?
    ensures Rank(c, s, After(c, s, s.workers[a.i], a)) < Rank(c, s, s.workers[a.i])
  {
    var w := s.workers[a.i];
    match a
    case TriggerReturns(_, triggered) =>
      if triggered {
        var w' := After(c, s, w, a);
        MoreRoomMorePolls(c.timeout - c.quietPeriod, c.timeout, c.pollInterval);
      }
    case _ =>
  }

  /** Everybody else's does not rise, nor does anyone's when time passes or shutdown begins. */
  lemma RankNeverRises(c: Config, s: Job, a: Action, w: Worker)
    requires c.pollInterval > 0
    ensures Rank(c, Step(c, s, a), w) <= Rank(c, s, w)
  {
    var s' := Step(c, s, a);
    MoreRoomMorePolls(w.deadline - s'.now, w.deadline - s.now, c.pollInterval);
    if w.phase.Quiet? || w.phase.PollWait? {
      var u := w.phase.until;
      MoreRoomMorePolls(w.deadline - (if u <= s'.now then s'.now else u), w.deadline - (if u <= s.now then s.now else u), c.pollInterval);
    }
  }

  function TotalRank(c: Config, s: Job, ws: seq<Worker>): nat
    requires c.pollInterval > 0
  {
    if ws == [] then 0 else Rank(c, s, ws[0]) + TotalRank(c, s, ws[1..])
  }

  lemma {:induction false} TotalUpdate(c: Config, s: Job, ws: seq<Worker>, i: nat, w: Worker)
    requires c.pollInterval > 0 && i < |ws|
    ensures TotalRank(c, s, ws[i := w]) == TotalRank(c, s, ws) - Rank(c, s, ws[i]) + Rank(c, s, w)
  {
    if i == 0 {
      assert ws[0 := w][1..] == ws[1..];
    } else {
      TotalUpdate(c, s, ws[1..], i - 1, w);
      assert ws[i := w][1..] == ws[1..][i - 1 := w];
    }
  }

  lemma {:induction false} TotalNeverRises(c: Config, s: Job, a: Action, ws: seq<Worker>)
    requires c.pollInterval > 0
    ensures TotalRank(c, Step(c, s, a), ws) <= TotalRank(c, s, ws)
  {
    if ws != [] {
      RankNeverRises(c, s, a, ws[0]);
      TotalNeverRises(c, s, a, ws[1..]);
    }
  }

  lemma {:induction false} TotalBound(c: Config, s: Job, ws: seq<Worker>)
    requires c.pollInterval > 0 && forall i :: 0 <= i < |ws| ==> ws[i].phase.Queued? || ws[i].phase.Refused?
    ensures TotalRank(c, s, ws) <= |ws| * (3 * Polls(c.timeout, c.pollInterval) + 6)
  {
    if ws != [] {
      TotalBound(c, s, ws[1..]);
      var each := 3 * Polls(c.timeout, c.pollInterval) + 6;
      assert |ws| * each == |ws[1..]| * each + each;
    }
  }

  /** The actions of a run that the workers took. */
  function WorkerSteps(c: Config, s: Job, actions: seq<Action>): nat {
    if actions == [] then 0
    else
      var n := |actions| - 1;
      var a := actions[n];
      WorkerSteps(c, s, actions[..n]) + if Enabled(Run(c, s, actions[..n]), a) && !a.Tick? && !a.Shutdown? then 1 else 0
  }

  lemma {:induction false} StepsSpendRank(c: Config, s: Job, actions: seq<Action>)
    requires c.pollInterval > 0
    ensures var t := Run(c, s, actions);
            WorkerSteps(c, s, actions) + TotalRank(c, t, t.workers) <= TotalRank(c, s, s.workers)
  {
    if actions != [] {
      var n := |actions| - 1;
      StepsSpendRank(c, s, actions[..n]);
      var t, a := Run(c, s, actions[..n]), actions[n];
      var t' := Step(c, t, a);
      if Enabled(t, a) && !a.Tick? && !a.Shutdown? {
        ActionLowersRank(c, t, a);
        TotalUpdate(c, t, t.workers, a.i, t'.workers[a.i]);
        TotalNeverRises(c, t, a, t'.workers);
      } else {
        TotalNeverRises(c, t, a, t.workers);
      }
    }
  }

  /** However long a run and however the device answers, its workers together take at most a fixed number
      of steps: the polling loops cannot go on for ever. */
  lemma JobTerminates(c: Config, versions: seq<string>, targets: seq<string>, allowed: seq<bool>, now: nat, actions: seq<Action>)
    requires c.pollInterval > 0 && |versions| == |targets| == |allowed|
    ensures WorkerSteps(c, Start(versions, targets, allowed, now), actions) <=
            |versions| * (3 * Polls(c.timeout, c.pollInterval) + 6)
  {
    var s := Start(versions, targets, allowed, now);
    StepsSpendRank(c, s, actions);
    TotalBound(c, s, s.workers);
  }

  /** And they are never stuck short of the end: as long as some worker is not done, some worker can move,
      if need be after a while. With the bound above, the job completes. */
  lemma NeverStuck(c: Config, s: Job) returns (wait: nat, a: Action)
    requires !AllDone(s)
    ensures !a.Tick? && !a.Shutdown? && Enabled(Step(c, s, Tick(wait)), a)
  {
    wait := 0;
    if i: nat :| i < |s.workers| && InFlight(s.workers[i]) {
      match s.workers[i].phase
      case Begun => a := Begin(i);
      case Triggering => a := TriggerReturns(i, false);
      case Quiet(until) =>
        a := QuietOver(i);
        if until > s.now {
          wait := until - s.now;
        }
      case LoopTop => a := Head(i);
      case PollWait(until) =>
        a := WaitOver(i);
        if until > s.now {
          wait := until - s.now;
        }
      case Probing => a := ProbeReturns(i, None);
      case Leaving => a := Leave(i);
    } else {
      NobodyInFlight(s.workers);
      var i: nat :| i < |s.workers| && !s.workers[i].phase.Finished? && !s.workers[i].phase.Refused?;
      assert !InFlight(s.workers[i]);
      a := Enter(i);
    }
  }

  // ----- The polling loop of one worker, as it runs -----

  /** What the loop meets at its k-th head: the time, whether shutdown has begun, whether shutdown cuts the
      wait short, and what the probe answers. */
  datatype Environment = Environment(now: nat -> nat, down: nat -> bool, cut: nat -> bool, answer: nat -> Option<string>)

  ghost predicate Plausible(env: Environment, pollInterval: nat) {
    && (forall k: nat :: env.cut(k) ==> env.down(k + 1))
    && (forall k: nat :: !env.cut(k) ==> env.now(k + 1) >= env.now(k) + pollInterval)
  }

  datatype InstallResult = InstallResult(status: Status, toVer: string)

  /** The first k heads neither stopped the loop nor saw a moved version. */
  predicate Uneventful(env: Environment, deadline: nat, fromVer: string, k: nat) {
    forall j :: 0 <= j < k ==>
      !env.down(j) && env.now(j) <= deadline && (env.cut(j) || !Moved(fromVer, env.answer(j)))
  }

  /** The loop ends at its k-th head, with this change of the result: at the first head that finds shutdown or the
      deadline passed, or at the first probe that finds the version moved, whichever is earlier. */
  predicate Ends(env: Environment, deadline: nat, fromVer: string, k: nat, before: InstallResult, after: InstallResult) {
    && Uneventful(env, deadline, fromVer, k)
    && if env.down(k) || env.now(k) > deadline
       then after == before.(status := Unknown)
       else !env.cut(k) && Moved(fromVer, env.answer(k)) && after == InstallResult(Current, env.answer(k).value)
  }

  /** There is only one way to end. */
  lemma EndsOnce(env: Environment, deadline: nat, fromVer: string, k: nat, l: nat, before: InstallResult,
                 first: InstallResult, second: InstallResult)
    requires Ends(env, deadline, fromVer, k, before, first) && Ends(env, deadline, fromVer, l, before, second)
    ensures k == l && first == second
  {
  }

  /** Writes the result of device `i` when the loop ends. */
  method PollUntilMoved(results: array<InstallResult>, i: nat, env: Environment, deadline: nat, pollInterval: nat, fromVer: string)
    returns (ghost k: nat)
    requires i < results.Length && pollInterval > 0 && Plausible(env, pollInterval)
    modifies results
    ensures forall j :: 0 <= j < results.Length && j != i ==> results[j] == old(results[j])
    ensures Ends(env, deadline, fromVer, k, old(results[i]), results[i])
  {
    var head := 0;
    while true
      invariant Uneventful(env, deadline, fromVer, head)
      invariant forall j :: 0 <= j < results.Length ==> results[j] == old(results[j])
      decreases if env.down(head) then 0 else 1, deadline - env.now(head)
    {
      if env.down(head) {
        results[i] := results[i].(status := Unknown);
        return head;
      }
      if env.now(head) > deadline {
        results[i] := results[i].(status := Unknown);
        return head;
      }
      if !env.cut(head) {
        var version := env.answer(head);
        if version.Some? && version.value != "" && version.value != fromVer {
          results[i] := InstallResult(Current, version.value);
          return head;
        }
      }
      head := head + 1;
    }
  }
}
