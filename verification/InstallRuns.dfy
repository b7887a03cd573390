/** How an install comes out (internal/services/jobs/firmware_install.go), told from the actions of a run: the
    times are sums of ticks, and shutdown is an action that happened. */
module InstallRuns {
  import opened Wrappers
  import opened FirmwareInstall

  /** The time that passes during the actions. */
  function Elapsed(actions: seq<Action>): nat {
    if actions == [] then 0
    else
      var a := actions[|actions| - 1];
      Elapsed(actions[..|actions| - 1]) + if a.Tick? then a.duration else 0
  }

  /** The time just before the n-th action. */
  function Clock(s: Job, actions: seq<Action>, n: nat): nat
    requires n <= |actions|
  {
    s.now + Elapsed(actions[..n])
  }

  lemma {:induction false} RunLength(c: Config, s: Job, actions: seq<Action>)
    ensures |Run(c, s, actions).workers| == |s.workers|
  {
    if actions != [] {
      RunLength(c, s, actions[..|actions| - 1]);
    }
  }

  /** Worker `i` just before the n-th action. */
  function WorkerAt(c: Config, s: Job, actions: seq<Action>, n: nat, i: nat): Worker
    requires n <= |actions| && i < |s.workers|
  {
    RunLength(c, s, actions[..n]);
    Run(c, s, actions[..n]).workers[i]
  }

  /** A job nobody has begun to work on. */
  ghost predicate Unbegun(s: Job) {
    Invariant(s) && !s.shutdown && forall i :: 0 <= i < |s.workers| ==> s.workers[i].phase.Queued? || s.workers[i].phase.Refused?
  }

  lemma StartUnbegun(versions: seq<string>, targets: seq<string>, allowed: seq<bool>, now: nat)
    requires |versions| == |targets| == |allowed|
    ensures Unbegun(Start(versions, targets, allowed, now))
  {
    StartInvariant(versions, targets, allowed, now);
  }

  lemma {:induction false} ClockIs(c: Config, s: Job, actions: seq<Action>)
    ensures Run(c, s, actions).now == s.now + Elapsed(actions)
    ensures !s.shutdown ==> (Run(c, s, actions).shutdown <==> Shutdown in actions)
  {
    if actions != [] {
      var n := |actions| - 1;
      ClockIs(c, s, actions[..n]);
      assert actions == actions[..n] + [actions[n]];
    }
  }

  predicate Takes(s: Job, a: Action, i: nat) {
    !a.Tick? && !a.Shutdown? && a.i == i && Enabled(s, a)
  }

  /** Nothing but its own actions moves a worker. */
  lemma WorkerNext(c: Config, s: Job, actions: seq<Action>, n: nat, i: nat)
    requires n < |actions| && i < |s.workers|
    ensures var t := Run(c, s, actions[..n]);
            && |t.workers| == |s.workers| && WorkerAt(c, s, actions, n, i) == t.workers[i]
            && WorkerAt(c, s, actions, n + 1, i) ==
               if Takes(t, actions[n], i) then After(c, t, t.workers[i], actions[n]) else t.workers[i]
  {
    assert actions[..n + 1][..n] == actions[..n];
    RunLength(c, s, actions[..n]);
  }

  lemma WorkerFits(c: Config, s: Job, actions: seq<Action>, n: nat, i: nat)
    requires Invariant(s) && n <= |actions| && i < |s.workers|
    ensures PhaseFits(WorkerAt(c, s, actions, n, i))
  {
    RunKeepsInvariant(c, s, actions[..n]);
  }

  // ----- What happens to a worker -----

  predicate TriggeredAt(c: Config, s: Job, actions: seq<Action>, k: nat, i: nat, triggered: bool)
    requires k < |actions| && i < |s.workers|
  {
    actions[k] == TriggerReturns(i, triggered) && WorkerAt(c, s, actions, k, i).phase.Triggering?
  }

  /** A probe under way answers with a version other than the one the device started from. */
  predicate MovedAt(c: Config, s: Job, actions: seq<Action>, k: nat, i: nat, version: string)
    requires k < |actions| && i < |s.workers|
  {
    && actions[k] == ProbeReturns(i, Some(version)) && WorkerAt(c, s, actions, k, i).phase.Probing?
    && version != "" && version != s.workers[i].fromVer
  }

  /** The timeout has passed since the update was triggered. */
  ghost predicate LateAt(c: Config, s: Job, actions: seq<Action>, k: nat, i: nat)
    requires k <= |actions| && i < |s.workers|
  {
    exists j: nat :: j < k && TriggeredAt(c, s, actions, j, i, true) && Clock(s, actions, k) > Clock(s, actions, j) + c.timeout
  }

  /** The worker looks, at one of the three places where it does, and finds shutdown or the timeout. */
  ghost predicate GivesUpAt(c: Config, s: Job, actions: seq<Action>, k: nat, i: nat)
    requires k < |actions| && i < |s.workers|
  {
    var p := WorkerAt(c, s, actions, k, i).phase;
    || (actions[k] == Begin(i) && p.Begun? && Shutdown in actions[..k])
    || (actions[k] == QuietCut(i) && p.Quiet? && Shutdown in actions[..k])
    || (actions[k] == Head(i) && p.LoopTop? && (Shutdown in actions[..k] || LateAt(c, s, actions, k, i)))
  }

  ghost predicate EverTriggered(c: Config, s: Job, actions: seq<Action>, n: nat, i: nat, triggered: bool)
    requires n <= |actions| && i < |s.workers|
  {
    exists k: nat :: k < n && TriggeredAt(c, s, actions, k, i, triggered)
  }

  ghost predicate EverMoved(c: Config, s: Job, actions: seq<Action>, n: nat, i: nat, version: string)
    requires n <= |actions| && i < |s.workers|
  {
    exists k: nat :: k < n && MovedAt(c, s, actions, k, i, version)
  }

  ghost predicate EverGaveUp(c: Config, s: Job, actions: seq<Action>, n: nat, i: nat)
    requires n <= |actions| && i < |s.workers|
  {
    exists k: nat :: k < n && GivesUpAt(c, s, actions, k, i)
  }

  lemma OneMore(c: Config, s: Job, actions: seq<Action>, n: nat, i: nat, version: string)
    requires n < |actions| && i < |s.workers|
    ensures EverTriggered(c, s, actions, n + 1, i, true) <==> EverTriggered(c, s, actions, n, i, true) || TriggeredAt(c, s, actions, n, i, true)
    ensures EverTriggered(c, s, actions, n + 1, i, false) <==> EverTriggered(c, s, actions, n, i, false) || TriggeredAt(c, s, actions, n, i, false)
    ensures EverMoved(c, s, actions, n + 1, i, version) <==> EverMoved(c, s, actions, n, i, version) || MovedAt(c, s, actions, n, i, version)
    ensures EverGaveUp(c, s, actions, n + 1, i) <==> EverGaveUp(c, s, actions, n, i) || GivesUpAt(c, s, actions, n, i)
  {
  }

  // ----- The deadline -----

  /** The deadline counts from the trigger, which happens once and before everything that is under the status
      Updating. */
  lemma {:induction false} DeadlineIs(c: Config, s: Job, actions: seq<Action>, n: nat, i: nat)
    requires Unbegun(s) && n <= |actions| && i < |s.workers|
    ensures var w := WorkerAt(c, s, actions, n, i);
            && (w.status == Updating ==> EverTriggered(c, s, actions, n, i, true))
            && (forall j: nat :: j < n && TriggeredAt(c, s, actions, j, i, true) ==>
                  w.deadline == Clock(s, actions, j) + c.timeout && w.status != Pending)
  {
    if n == 0 {
      assert actions[..0] == [];
    } else {
      DeadlineIs(c, s, actions, n - 1, i);
      DeadlineNext(c, s, actions, n - 1, i);
      OneMore(c, s, actions, n - 1, i, "");
    }
  }

  lemma DeadlineNext(c: Config, s: Job, actions: seq<Action>, n: nat, i: nat)
    requires Unbegun(s) && n < |actions| && i < |s.workers|
    ensures var w, w' := WorkerAt(c, s, actions, n, i), WorkerAt(c, s, actions, n + 1, i);
            && (TriggeredAt(c, s, actions, n, i, true) ==>
                  w.status == Pending && w'.status == Updating && w'.deadline == Clock(s, actions, n) + c.timeout)
            && (!TriggeredAt(c, s, actions, n, i, true) ==>
                  w'.deadline == w.deadline && (w'.status == Updating ==> w.status == Updating))
            && (w.status != Pending ==> w'.status != Pending)
  {
    WorkerNext(c, s, actions, n, i);
    WorkerFits(c, s, actions, n, i);
    ClockIs(c, s, actions[..n]);
  }

  lemma LateExactly(c: Config, s: Job, actions: seq<Action>, k: nat, i: nat)
    requires Unbegun(s) && k <= |actions| && i < |s.workers| && WorkerAt(c, s, actions, k, i).status == Updating
    ensures LateAt(c, s, actions, k, i) <==> Run(c, s, actions[..k]).now > WorkerAt(c, s, actions, k, i).deadline
  {
    DeadlineIs(c, s, actions, k, i);
    ClockIs(c, s, actions[..k]);
  }

  // ----- How it comes out -----

  lemma StatusAfter(c: Config, t: Job, a: Action, i: nat, version: string)
    requires i < |t.workers| && PhaseFits(t.workers[i])
    ensures var w := t.workers[i];
            var w' := if Takes(t, a, i) then After(c, t, w, a) else w;
            && w'.fromVer == w.fromVer && (w'.status != Current ==> w'.toVer == w.toVer)
            && (w'.status == Skipped <==> w.status == Skipped)
            && (w'.status == Error <==> w.status == Error || (a == TriggerReturns(i, false) && w.phase.Triggering?))
            && (w'.status == Unknown <==>
                  || w.status == Unknown
                  || (a == Begin(i) && w.phase.Begun? && t.shutdown)
                  || (a == QuietCut(i) && w.phase.Quiet? && t.shutdown)
                  || (a == Head(i) && w.phase.LoopTop? && (t.shutdown || t.now > w.deadline)))
            && (w'.status == Current && w'.toVer == version <==>
                  || (w.status == Current && w.toVer == version)
                  || (a == ProbeReturns(i, Some(version)) && w.phase.Probing? && version != "" && version != w.fromVer))
  {
  }

  lemma StatusNext(c: Config, s: Job, actions: seq<Action>, n: nat, i: nat, version: string)
    requires Unbegun(s) && n < |actions| && i < |s.workers| && WorkerAt(c, s, actions, n, i).fromVer == s.workers[i].fromVer
    ensures var w, w' := WorkerAt(c, s, actions, n, i), WorkerAt(c, s, actions, n + 1, i);
            && w'.fromVer == s.workers[i].fromVer && (w'.status != Current ==> w.status != Current && w'.toVer == w.toVer)
            && (w'.status == Skipped <==> w.status == Skipped)
            && (w'.status == Error <==> w.status == Error || TriggeredAt(c, s, actions, n, i, false))
            && (w'.status == Unknown <==> w.status == Unknown || GivesUpAt(c, s, actions, n, i))
            && (w'.status == Current && w'.toVer == version <==>
                  (w.status == Current && w.toVer == version) || MovedAt(c, s, actions, n, i, version))
  {
    var t, a := Run(c, s, actions[..n]), actions[n];
    WorkerNext(c, s, actions, n, i);
    WorkerFits(c, s, actions, n, i);
    ClockIs(c, s, actions[..n]);
    StatusAfter(c, t, a, i, version);
    if t.workers[i].phase.LoopTop? {
      LateExactly(c, s, actions, n, i);
    }
  }

  lemma {:induction false} StatusExactly(c: Config, s: Job, actions: seq<Action>, n: nat, i: nat, version: string)
    requires Unbegun(s) && n <= |actions| && i < |s.workers|
    ensures var w := WorkerAt(c, s, actions, n, i);
            && w.fromVer == s.workers[i].fromVer && (w.status != Current ==> w.toVer == s.workers[i].toVer)
            && (w.status == Skipped <==> s.workers[i].status == Skipped)
            && (w.status == Error <==> EverTriggered(c, s, actions, n, i, false))
            && (w.status == Unknown <==> EverGaveUp(c, s, actions, n, i))
            && (w.status == Current && w.toVer == version <==> EverMoved(c, s, actions, n, i, version))
  {
    if n == 0 {
      assert actions[..0] == [];
      WorkerFits(c, s, actions, 0, i);
    } else {
      StatusExactly(c, s, actions, n - 1, i, version);
      StatusNext(c, s, actions, n - 1, i, version);
      OneMore(c, s, actions, n - 1, i, version);
    }
  }

  /** In every run of a job a result is skipped exactly when the reservation was not granted; it is current with a
      version exactly when a probe under way was answered with it and it is not the one the device started from;
      it is an error exactly when the trigger was refused; and it is unknown exactly when the worker looked and
      found shutdown or the timeout. */
  lemma InstallOutcome(c: Config, versions: seq<string>, targets: seq<string>, allowed: seq<bool>, now: nat,
                       actions: seq<Action>, i: nat, version: string)
    requires |versions| == |targets| == |allowed| && i < |versions|
    ensures var s, n := Start(versions, targets, allowed, now), |actions|;
            var w := WorkerAt(c, s, actions, n, i);
            && |Run(c, s, actions).workers| == |versions| && w == Run(c, s, actions).workers[i]
            && s.workers[i].fromVer == versions[i] && (w.status == Skipped <==> !allowed[i])
            && (w.status == Current && w.toVer == version <==> EverMoved(c, s, actions, n, i, version))
            && (w.status == Error <==> EverTriggered(c, s, actions, n, i, false))
            && (w.status == Unknown <==> EverGaveUp(c, s, actions, n, i))
  {
    var s := Start(versions, targets, allowed, now);
    StartUnbegun(versions, targets, allowed, now);
    RunLength(c, s, actions);
    assert actions[..|actions|] == actions;
    StatusExactly(c, s, actions, |actions|, i, version);
  }
}
