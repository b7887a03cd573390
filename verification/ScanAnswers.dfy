/** What a scan finds (internal/core/scanner/scanner.go), told from the actions of a run alone. */
module ScanAnswers {
  import opened ScanPool

  /** The k-th action is the answer, or its absence, of the probe of address `i`. */
  predicate ProbedAt(s: Job, actions: seq<Action>, k: nat, i: nat)
    requires k < |actions|
  {
    var t, a := Run(s, actions[..k]), actions[k];
    a.ProbeReturns? && a.w < |t.workers| && t.workers[a.w] == Probing(i)
  }

  predicate AnsweredAt(s: Job, actions: seq<Action>, k: nat, i: nat)
    requires k < |actions|
  {
    ProbedAt(s, actions, k, i) && actions[k].answered
  }

  /** The worker that has address `i` finds, at the k-th action, that the scan was cancelled. */
  predicate SkippedAt(s: Job, actions: seq<Action>, k: nat, i: nat)
    requires k < |actions|
  {
    var t, a := Run(s, actions[..k]), actions[k];
    a.Check? && a.w < |t.workers| && t.workers[a.w] == Got(i) && Cancel in actions[..k]
  }

  predicate DealtAt(s: Job, actions: seq<Action>, k: nat, i: nat)
    requires k < |actions|
  {
    ProbedAt(s, actions, k, i) || SkippedAt(s, actions, k, i)
  }

  ghost predicate Answered(s: Job, actions: seq<Action>, i: nat, n: nat)
    requires n <= |actions|
  {
    exists k: nat :: k < n && AnsweredAt(s, actions, k, i)
  }

  /** The address was probed or skipped by the first `n` actions. */
  ghost predicate DoneWith(s: Job, actions: seq<Action>, i: nat, n: nat)
    requires n <= |actions|
  {
    exists k: nat :: k < n && DealtAt(s, actions, k, i)
  }

  lemma RunNext(s: Job, actions: seq<Action>, n: nat)
    requires n < |actions|
    ensures Run(s, actions[..n + 1]) == Step(Run(s, actions[..n]), actions[n])
  {
    assert actions[..n + 1][..n] == actions[..n];
  }

  // ----- Found means answered -----

  lemma FoundNext(s: Job, a: Action, i: nat)
    ensures i in Step(s, a).found <==>
            i in s.found || (a.ProbeReturns? && a.answered && a.w < |s.workers| && s.workers[a.w] == Probing(i))
  {
  }

  /** An address is among the results exactly when a probe of it was answered. */
  lemma {:induction false} FoundExactly(s: Job, actions: seq<Action>, n: nat, i: nat)
    requires s.found == [] && n <= |actions|
    ensures i in Run(s, actions[..n]).found <==> Answered(s, actions, i, n)
  {
    if n == 0 {
      assert actions[..0] == [];
    } else {
      FoundExactly(s, actions, n - 1, i);
      RunNext(s, actions, n - 1);
      FoundNext(Run(s, actions[..n - 1]), actions[n - 1], i);
      assert Answered(s, actions, i, n) <==> Answered(s, actions, i, n - 1) || AnsweredAt(s, actions, n - 1, i);
    }
  }

  // ----- Every address is dealt with once -----

  /** The address has been sent, and its worker is past the probe. */
  predicate Past(s: Job, i: nat)
    requires |s.owner| == s.next
  {
    i < s.next && s.owner[i] < |s.workers| && s.workers[s.owner[i]] != Got(i) && s.workers[s.owner[i]] != Probing(i)
  }

  /** What the action does to it. */
  predicate Deals(s: Job, a: Action, i: nat) {
    || (a.ProbeReturns? && a.w < |s.workers| && s.workers[a.w] == Probing(i))
    || (a.Check? && a.w < |s.workers| && s.workers[a.w] == Got(i) && s.cancelled)
  }

  lemma PastNext(s: Job, a: Action, i: nat)
    requires Delivered(s) && Delivered(Step(s, a))
    ensures Past(Step(s, a), i) <==> Past(s, i) || Deals(s, a, i)
    ensures Deals(s, a, i) ==> !Past(s, i)
  {
    if OfWorker(a) && Enabled(s, a) {
      var x := Step(s, a).workers[a.w];
      assert Step(s, a).workers == s.workers[a.w := x];
      assert Busy(s.workers[a.w]) ==> s.owner[s.workers[a.w].i] == a.w;
      assert i < s.next ==> Step(s, a).owner[i] == s.owner[i];
    } else {
      assert Step(s, a).workers == s.workers && Step(s, a).owner == s.owner;
    }
  }

  lemma {:induction false} CancelledExactly(s: Job, actions: seq<Action>)
    requires !s.cancelled
    ensures Run(s, actions).cancelled <==> Cancel in actions
  {
    if actions != [] {
      var n := |actions| - 1;
      CancelledExactly(s, actions[..n]);
      assert actions == actions[..n] + [actions[n]];
    }
  }

  lemma DealsExactly(s: Job, actions: seq<Action>, k: nat, i: nat)
    requires !s.cancelled && k < |actions|
    ensures Deals(Run(s, actions[..k]), actions[k], i) <==> DealtAt(s, actions, k, i)
  {
    CancelledExactly(s, actions[..k]);
  }

  lemma DoneWithMore(s: Job, actions: seq<Action>, n: nat, i: nat)
    requires 0 < n <= |actions|
    ensures DoneWith(s, actions, i, n) <==> DoneWith(s, actions, i, n - 1) || DealtAt(s, actions, n - 1, i)
  {
  }

  lemma DeliveredAt(s: Job, actions: seq<Action>, n: nat)
    requires Invariant(s) && n <= |actions|
    ensures Delivered(Run(s, actions[..n]))
  {
    RunKeepsInvariant(s, actions[..n]);
  }

  lemma PastOneMore(s: Job, actions: seq<Action>, n: nat, i: nat)
    requires Invariant(s) && !s.cancelled && n < |actions|
    ensures Delivered(Run(s, actions[..n])) && Delivered(Run(s, actions[..n + 1]))
    ensures Past(Run(s, actions[..n + 1]), i) <==> Past(Run(s, actions[..n]), i) || DealtAt(s, actions, n, i)
    ensures DealtAt(s, actions, n, i) ==> !Past(Run(s, actions[..n]), i)
  {
    DeliveredAt(s, actions, n);
    DeliveredAt(s, actions, n + 1);
    RunNext(s, actions, n);
    PastNext(Run(s, actions[..n]), actions[n], i);
    DealsExactly(s, actions, n, i);
  }

  lemma {:induction false} PastExactly(s: Job, actions: seq<Action>, n: nat, i: nat)
    requires Invariant(s) && s.next == 0 && !s.cancelled && n <= |actions|
    ensures Delivered(Run(s, actions[..n]))
    ensures Past(Run(s, actions[..n]), i) <==> DoneWith(s, actions, i, n)
  {
    DeliveredAt(s, actions, n);
    if n == 0 {
      assert actions[..0] == [];
    } else {
      PastExactly(s, actions, n - 1, i);
      PastOneMore(s, actions, n - 1, i);
      DoneWithMore(s, actions, n, i);
    }
  }

  /** No address is probed twice, nor skipped once it was probed. */
  lemma DealtOnce(s: Job, actions: seq<Action>, k: nat, l: nat, i: nat)
    requires Invariant(s) && s.next == 0 && !s.cancelled && k < l < |actions|
    requires DealtAt(s, actions, k, i)
    ensures !DealtAt(s, actions, l, i)
  {
    PastExactly(s, actions, l, i);
    PastOneMore(s, actions, l, i);
  }

  /** Results are addresses of the scan that are past their probe, none of them twice. */
  ghost predicate FoundOnce(s: Job)
    requires |s.owner| == s.next
  {
    && (forall k :: 0 <= k < |s.found| ==> Past(s, s.found[k]))
    && (forall k, l :: 0 <= k < l < |s.found| ==> s.found[k] != s.found[l])
  }

  lemma FoundOnceNext(s: Job, a: Action)
    requires Delivered(s) && Delivered(Step(s, a)) && FoundOnce(s)
    ensures FoundOnce(Step(s, a))
  {
    var t := Step(s, a);
    forall k | 0 <= k < |t.found|
      ensures Past(t, t.found[k]) && (k < |s.found| ==> Past(s, t.found[k]))
    {
      PastNext(s, a, t.found[k]);
    }
    if |t.found| > |s.found| {
      PastNext(s, a, t.found[|s.found|]);
    }
  }

  lemma {:induction false} FoundOnceRun(s: Job, actions: seq<Action>)
    requires Invariant(s) && s.found == []
    ensures Delivered(Run(s, actions)) && FoundOnce(Run(s, actions))
  {
    RunKeepsInvariant(s, actions);
    if actions != [] {
      var n := |actions| - 1;
      FoundOnceRun(s, actions[..n]);
      FoundOnceNext(Run(s, actions[..n]), actions[n]);
    }
  }

  // ----- Scans -----

  /** In every run of a scan the results so far are the addresses whose probe was answered, each of them once. */
  lemma ScanFinds(addresses: nat, mdns: bool, concurrency: int, actions: seq<Action>)
    ensures var s := Start(addresses, mdns, concurrency);
            var found := Run(s, actions).found;
            && (forall i: nat :: i in found <==> Answered(s, actions, i, |actions|))
            && (forall k, l :: 0 <= k < l < |found| ==> found[k] != found[l])
            && (forall k :: 0 <= k < |found| ==> found[k] < addresses)
  {
    var s := Start(addresses, mdns, concurrency);
    BeginInvariant(addresses, mdns, concurrency, Work(addresses, mdns));
    assert actions[..|actions|] == actions;
    forall i: nat
      ensures i in Run(s, actions).found <==> Answered(s, actions, i, |actions|)
    {
      FoundExactly(s, actions, |actions|, i);
    }
    FoundOnceRun(s, actions);
    RunKeepsInvariant(s, actions);
    forall k | 0 <= k < |Run(s, actions).found|
      ensures Run(s, actions).found[k] < addresses
    {
      assert Past(Run(s, actions), Run(s, actions).found[k]);
    }
  }

  /** Once the pool has returned, every address was probed, or skipped after the cancellation; whichever it was,
      it happened once. */
  lemma EveryAddressDealtWith(addresses: nat, mdns: bool, concurrency: int, actions: seq<Action>, i: nat) returns (k: nat)
    requires !Run(Start(addresses, mdns, concurrency), actions).stage.Pooling? && i < addresses
    ensures var s := Start(addresses, mdns, concurrency);
            && k < |actions| && DealtAt(s, actions, k, i)
            && forall l: nat :: l < |actions| && DealtAt(s, actions, l, i) ==> l == k
  {
    var s := Start(addresses, mdns, concurrency);
    BeginInvariant(addresses, mdns, concurrency, Work(addresses, mdns));
    RunKeepsInvariant(s, actions);
    assert actions[..|actions|] == actions;
    PastExactly(s, actions, |actions|, i);
    assert Past(Run(s, actions), i);
    k :| 0 <= k < |actions| && DealtAt(s, actions, k, i);
    forall l: nat | l < |actions| && DealtAt(s, actions, l, i)
      ensures l == k
    {
      if k < l {
        DealtOnce(s, actions, k, l, i);
      } else if l < k {
        DealtOnce(s, actions, l, k, i);
      }
    }
  }

  /** So the results of a scan that nobody cancelled are complete: every address was probed, and it is among
      them exactly when that probe was answered. */
  lemma ScanComplete(addresses: nat, mdns: bool, concurrency: int, actions: seq<Action>, i: nat) returns (k: nat)
    requires !Run(Start(addresses, mdns, concurrency), actions).stage.Pooling? && Cancel !in actions && i < addresses
    ensures var s := Start(addresses, mdns, concurrency);
            && k < |actions| && ProbedAt(s, actions, k, i)
            && (i in Run(s, actions).found <==> actions[k].answered)
  {
    var s := Start(addresses, mdns, concurrency);
    k := EveryAddressDealtWith(addresses, mdns, concurrency, actions, i);
    ScanFinds(addresses, mdns, concurrency, actions);
    assert i in Run(s, actions).found <==> Answered(s, actions, i, |actions|);
    if Answered(s, actions, i, |actions|) {
      var l: nat :| l < |actions| && AnsweredAt(s, actions, l, i);
      assert DealtAt(s, actions, l, i);
    }
    assert actions[k].answered ==> AnsweredAt(s, actions, k, i);
  }

  // ----- How the row ends -----

  ghost predicate FinishedAt(s: Job, actions: seq<Action>, k: nat)
    requires k < |actions|
  {
    actions[k].Finish? && Run(s, actions[..k]).stage.Finishing?
  }

  lemma EndedNext(s: Job, a: Action)
    ensures Step(s, a).stage.Ended? <==> s.stage.Ended? || (a.Finish? && s.stage.Finishing?)
    ensures s.stage.Ended? && !s.row.status.Running? ==> Step(s, a).row == s.row
    ensures a.Finish? && s.stage.Finishing? ==>
              if s.cancelled then Step(s, a).row == s.row.(status := Step(s, a).row.status) && !Step(s, a).row.status.Running?
                                  && (!s.row.status.Completed? ==> Step(s, a).row.status.Interrupted?)
              else Step(s, a).row == Row(Completed, s.row.total, s.row.total)
  {
  }

  /** A job of the pool that ended without a cancellation is completed, its work shown as done in full; one that was
      cancelled before it finished is interrupted, and the row keeps the number that was done. */
  lemma {:induction false} EndsAsCancelled(s: Job, actions: seq<Action>) returns (k: nat)
    requires Invariant(s) && s.stage.Pooling? && !s.cancelled && Run(s, actions).stage.Ended?
    ensures var row := Run(s, actions).row;
            && k < |actions| && FinishedAt(s, actions, k)
            && if Cancel in actions[..k] then row == Row(Interrupted, Run(s, actions[..k]).row.done, s.row.total)
               else row == Row(Completed, s.row.total, s.row.total)
  {
    var n := |actions| - 1;
    var t := Run(s, actions[..n]);
    EndedNext(t, actions[n]);
    RunKeepsInvariant(s, actions[..n]);
    if t.stage.Ended? {
      k := EndsAsCancelled(s, actions[..n]);
      assert actions[..n][..k] == actions[..k];
    } else {
      k := n;
      CancelledExactly(s, actions[..n]);
    }
  }

  /** Both kinds of job begin with the total of their work, the discovery counted in for a scan alone, and show at no
      moment more than that as done. */
  lemma RowWithinWork(addresses: nat, mdns: bool, concurrency: int, actions: seq<Action>)
    ensures var scan := Run(Start(addresses, mdns, concurrency), actions).row;
            scan.total == addresses + (if mdns then 1 else 0) && scan.done <= scan.total
    ensures var refresh := Run(StartRefresh(addresses, concurrency), actions).row;
            refresh.total == addresses && refresh.done <= addresses
  {
    BeginInvariant(addresses, mdns, concurrency, Work(addresses, mdns));
    RunKeepsInvariant(Start(addresses, mdns, concurrency), actions);
    BeginInvariant(addresses, false, concurrency, addresses);
    RunKeepsInvariant(StartRefresh(addresses, concurrency), actions);
  }
}
