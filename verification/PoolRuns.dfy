/** Runs of the worker pool that reach its limits: when a row shows more done than in total, and when a refresh
    waits for ever (internal/services/jobs/scan.go, internal/services/jobs/recovery.go,
    internal/services/jobs/refresh.go). */
module PoolRuns {
  import opened ScanPool

  lemma RunMore(s: Job, actions: seq<Action>, a: Action)
    ensures Run(s, actions + [a]) == Step(Run(s, actions), a)
  {
    assert (actions + [a])[..|actions|] == actions;
  }

  // ----- Done and total -----

  predicate WithinTotal(s: Job) {
    s.row.done <= s.row.total
  }

  /** `k` addresses have been reported and all workers are waiting for more. */
  ghost predicate Swept(s: Job, k: nat) {
    && s.workers != [] && (forall w :: 0 <= w < |s.workers| ==> s.workers[w].Idle?)
    && s.next == k && s.row.done == k && s.row.status.Running?
    && !s.cancelled && !s.closed && s.stage.Pooling?
  }

  /** One address through the first worker. */
  lemma SweepOne(s: Job, k: nat)
    requires Swept(s, k) && k < s.addresses
    ensures var t := Step(Step(Step(Step(s, Send(0)), Check(0)), ProbeReturns(0, false)), Progress(0));
            Swept(t, k + 1) && t.addresses == s.addresses && t.mdns == s.mdns && t.row.total == s.row.total
            && |t.workers| == |s.workers|
  {
    var s1 := Step(s, Send(0));
    assert s1.workers[0] == Got(k);
    var s2 := Step(s1, Check(0));
    assert s2.workers[0] == Probing(k);
    var s3 := Step(s2, ProbeReturns(0, false));
    assert s3.workers[0] == Reporting(k);
  }

  lemma {:induction false} Sweep(s: Job, k: nat) returns (actions: seq<Action>)
    requires Swept(s, 0) && k <= s.addresses
    ensures var t := Run(s, actions);
            Swept(t, k) && t.addresses == s.addresses && t.mdns == s.mdns && t.row.total == s.row.total
            && |t.workers| == |s.workers|
  {
    actions := [];
    if k > 0 {
      var before := Sweep(s, k - 1);
      SweepOne(Run(s, before), k - 1);
      RunMore(s, before, Send(0));
      RunMore(s, before + [Send(0)], Check(0));
      RunMore(s, before + [Send(0)] + [Check(0)], ProbeReturns(0, false));
      RunMore(s, before + [Send(0)] + [Check(0)] + [ProbeReturns(0, false)], Progress(0));
      actions := before + [Send(0)] + [Check(0)] + [ProbeReturns(0, false)] + [Progress(0)];
    }
  }

  /** All addresses are reported, the channel is closed, and the first `k` workers have left. */
  ghost predicate Emptied(s: Job, k: nat) {
    && (forall w :: 0 <= w < |s.workers| ==> if w < k then s.workers[w].Gone? else s.workers[w].Idle?)
    && s.row.done == s.addresses && s.row.status.Running?
    && !s.cancelled && s.closed && s.stage.Pooling?
  }

  lemma {:induction false} Empty(s: Job, k: nat) returns (actions: seq<Action>)
    requires Emptied(s, 0) && k <= |s.workers|
    ensures var t := Run(s, actions);
            Emptied(t, k) && t.addresses == s.addresses && t.mdns == s.mdns && t.row.total == s.row.total
            && |t.workers| == |s.workers|
  {
    actions := [];
    if k > 0 {
      var before := Empty(s, k - 1);
      RunMore(s, before, Exit(k - 1));
      actions := before + [Exit(k - 1)];
    }
  }

  lemma {:induction false} RunThen(s: Job, a: seq<Action>, b: seq<Action>)
    ensures Run(s, a + b) == Run(Run(s, a), b)
  {
    if b == [] {
      assert a + b == a;
    } else {
      var n := |b| - 1;
      RunThen(s, a, b[..n]);
      assert (a + b)[..|a + b| - 1] == a + b[..n];
    }
  }

  /** A run that gets everything done reaches the full count. */
  lemma ReachWork(s: Job) returns (actions: seq<Action>)
    requires Swept(s, 0) && s.mdns
    ensures Run(s, actions).row.done == s.addresses + 1 && Run(s, actions).row.total == s.row.total
  {
    var sweep := Sweep(s, s.addresses);
    RunMore(s, sweep, Close);
    var closed := Run(s, sweep + [Close]);
    var leave := Empty(closed, |closed.workers|);
    RunThen(s, sweep + [Close], leave);
    var all := sweep + [Close] + leave;
    RunMore(s, all, PoolReturns);
    RunMore(s, all + [PoolReturns], DiscoveryReturns);
    actions := all + [PoolReturns] + [DiscoveryReturns];
  }

  ghost predicate NeverOver(s: Job) {
    forall actions :: WithinTotal(Run(s, actions))
  }

  /** The row of a scan never shows more done than in total if and only if its total covers the addresses and
      the discovery. */
  lemma DoneWithinTotalExactly(addresses: nat, mdns: bool, concurrency: int, total: nat)
    ensures NeverOver(Begin(addresses, mdns, concurrency, total)) <==> Work(addresses, mdns) <= total
  {
    var s := Begin(addresses, mdns, concurrency, total);
    BeginInvariant(addresses, mdns, concurrency, total);
    if Work(addresses, mdns) <= total {
      forall actions
        ensures WithinTotal(Run(s, actions))
      {
        RunKeepsInvariant(s, actions);
      }
    } else if total < addresses {
      var actions := Sweep(s, total + 1);
      assert !WithinTotal(Run(s, actions));
    } else {
      var actions := ReachWork(s);
      assert !WithinTotal(Run(s, actions));
    }
  }

  /** So the row of a scan from StartScan never does. */
  lemma DoneWithinTotal(addresses: nat, mdns: bool, concurrency: int, actions: seq<Action>)
    ensures WithinTotal(Run(Start(addresses, mdns, concurrency), actions))
  {
    DoneWithinTotalExactly(addresses, mdns, concurrency, Work(addresses, mdns));
  }

  // ----- A refresh that waits for ever -----

  function CountGone(ws: seq<Worker>): nat {
    if ws == [] then 0 else CountGone(ws[1..]) + if ws[0].Gone? then 1 else 0
  }

  lemma {:induction false} GoneUpdate(ws: seq<Worker>, w: nat, x: Worker)
    requires w < |ws|
    ensures CountGone(ws[w := x]) == CountGone(ws) - (if ws[w].Gone? then 1 else 0) + (if x.Gone? then 1 else 0)
  {
    if w == 0 {
      assert ws[0 := x][1..] == ws[1..];
    } else {
      GoneUpdate(ws[1..], w - 1, x);
      assert ws[w := x][1..] == ws[1..][w - 1 := x];
    }
  }

  lemma {:induction false} AllCounted(ws: seq<Worker>)
    ensures AllGone(ws) ==> CountGone(ws) == |ws|
    ensures (forall w :: 0 <= w < |ws| ==> ws[w].Idle?) ==> CountGone(ws) == 0
  {
    if ws != [] {
      AllCounted(ws[1..]);
    }
  }

  /** As long as the channel is open, each worker that has left has reported an address. */
  ghost predicate Paid(s: Job) {
    !s.closed ==> CountGone(s.workers) <= |s.log|
  }

  lemma StepKeepsPaid(s: Job, a: Action)
    requires Paid(s)
    ensures Paid(Step(s, a))
  {
    if Enabled(s, a) && OfWorker(a) {
      GoneUpdate(s.workers, a.w, Step(s, a).workers[a.w]);
    }
  }

  lemma {:induction false} RunKeepsPaid(s: Job, actions: seq<Action>)
    requires Paid(s)
    ensures Paid(Run(s, actions))
  {
    if actions != [] {
      RunKeepsPaid(s, actions[..|actions| - 1]);
      StepKeepsPaid(Run(s, actions[..|actions| - 1]), actions[|actions| - 1]);
    }
  }

  /** The refresh has been cancelled, and the first `k` workers have each taken one device and left. */
  ghost predicate Abandoned(s: Job, k: nat) {
    && (forall w :: 0 <= w < |s.workers| ==> if w < k then s.workers[w].Gone? else s.workers[w].Idle?)
    && s.next == k && s.cancelled && !s.drains && !s.closed && s.stage.Pooling?
  }

  lemma AbandonOne(s: Job, k: nat)
    requires Abandoned(s, k) && k < |s.workers| && k < s.addresses
    ensures var t := Step(Step(Step(s, Send(k)), Check(k)), Progress(k));
            Abandoned(t, k + 1) && t.addresses == s.addresses && |t.workers| == |s.workers|
  {
    var s1 := Step(s, Send(k));
    assert s1.workers[k] == Got(k);
    var s2 := Step(s1, Check(k));
    assert s2.workers[k] == Quitting(k);
  }

  lemma {:induction false} Abandon(s: Job, k: nat) returns (actions: seq<Action>)
    requires Abandoned(s, 0) && k <= |s.workers| && k <= s.addresses
    ensures var t := Run(s, actions); Abandoned(t, k) && t.addresses == s.addresses && |t.workers| == |s.workers|
  {
    actions := [];
    if k > 0 {
      var before := Abandon(s, k - 1);
      AbandonOne(Run(s, before), k - 1);
      RunMore(s, before, Send(k - 1));
      RunMore(s, before + [Send(k - 1)], Check(k - 1));
      RunMore(s, before + [Send(k - 1)] + [Check(k - 1)], Progress(k - 1));
      actions := before + [Send(k - 1)] + [Check(k - 1)] + [Progress(k - 1)];
    }
  }

  /** Some run gets the job to where no step is left although it has not ended. */
  ghost predicate CanGetStuck(s: Job) {
    exists actions :: !Run(s, actions).stage.Ended? && !CanMove(Run(s, actions))
  }

  /** A refresh can be left waiting for ever, by a cancellation, if and only if it has more devices than
      workers. */
  lemma RefreshStuckExactly(devices: nat, concurrency: int)
    ensures CanGetStuck(StartRefresh(devices, concurrency)) <==> devices > PoolSize(concurrency, devices)
  {
    var s := StartRefresh(devices, concurrency);
    if devices > PoolSize(concurrency, devices) {
      var actions := ManyDevicesStuck(s, devices, concurrency);
    } else {
      forall actions | !Run(s, actions).stage.Ended?
        ensures CanMove(Run(s, actions))
      {
        FewDevicesMove(s, actions, devices, concurrency);
      }
    }
  }

  lemma ManyDevicesStuck(s: Job, devices: nat, concurrency: int) returns (actions: seq<Action>)
    requires s == StartRefresh(devices, concurrency) && devices > PoolSize(concurrency, devices)
    ensures !Run(s, actions).stage.Ended? && !CanMove(Run(s, actions))
  {
    assert [] + [Cancel] == [Cancel];
    RunMore(s, [], Cancel);
    var leave := Abandon(Run(s, [Cancel]), |s.workers|);
    actions := [Cancel] + leave;
    RunThen(s, [Cancel], leave);
    var t := Run(s, actions);
    assert Deserted(t) && !t.stage.Ended? && t.workers != [];
    BeginInvariant(devices, false, concurrency, devices);
    RunKeepsInvariant(s, actions);
    StuckExactlyWhenDeserted(t);
  }

  lemma FewDevicesMove(s: Job, actions: seq<Action>, devices: nat, concurrency: int)
    requires s == StartRefresh(devices, concurrency) && devices <= PoolSize(concurrency, devices)
    requires !Run(s, actions).stage.Ended?
    ensures CanMove(Run(s, actions))
  {
    var t := Run(s, actions);
    BeginInvariant(devices, false, concurrency, devices);
    RunKeepsInvariant(s, actions);
    AllCounted(s.workers);
    RunKeepsPaid(s, actions);
    AllCounted(t.workers);
    StuckExactlyWhenDeserted(t);
  }
}
