/** How old the lease is (internal/services/runtimelock/runtimelock.go), told from the actions of a run: the times
    are sums of ticks. */
module LeaseTimes {
  import opened Wrappers
  import opened RuntimeLease

  /** The time that passes during the actions. */
  function Elapsed(actions: seq<Action>): nat {
    if actions == [] then 0
    else
      var a := actions[|actions| - 1];
      Elapsed(actions[..|actions| - 1]) + if a.Tick? then a.duration else 0
  }

  /** The time just before the n-th action. */
  function Clock(s: System, actions: seq<Action>, n: nat): nat
    requires n <= |actions|
  {
    s.now + Elapsed(actions[..n])
  }

  function At(owners: Owners, s: System, actions: seq<Action>, n: nat): System
    requires n <= |actions|
  {
    Run(owners, s, actions[..n])
  }

  lemma AtNext(owners: Owners, s: System, actions: seq<Action>, n: nat)
    requires n < |actions|
    ensures At(owners, s, actions, n + 1) == Step(owners, At(owners, s, actions, n), actions[n])
  {
    assert actions[..n + 1][..n] == actions[..n];
  }

  lemma {:induction false} ClockIs(owners: Owners, s: System, actions: seq<Action>, n: nat)
    requires n <= |actions|
    ensures At(owners, s, actions, n).now == Clock(s, actions, n)
  {
    if n == 0 {
      assert actions[..0] == [];
    } else {
      ClockIs(owners, s, actions, n - 1);
      AtNext(owners, s, actions, n - 1);
      assert actions[..n][..n - 1] == actions[..n - 1];
    }
  }

  // ----- Who wrote the row, and when -----

  predicate IsReading(s: System, i: string) {
    i in s.phase && s.phase[i].Reading?
  }

  /** The Acquire that claims at the k-th action read the row at the r-th. */
  ghost predicate ReadFor(owners: Owners, s: System, actions: seq<Action>, r: nat, k: nat, i: string)
    requires k <= |actions|
  {
    && r < k && actions[r] == Read(i) && Is(At(owners, s, actions, r), i, Idle)
    && forall m :: r < m <= k ==> IsReading(At(owners, s, actions, m), i)
  }

  /** The k-th action is a heartbeat of an active instance, or one that makes it active in one piece. */
  predicate Refreshes(owners: Owners, s: System, actions: seq<Action>, k: nat, i: string)
    requires k < |actions|
  {
    || (actions[k] == Heartbeat(i) && Active(At(owners, s, actions, k), i))
    || (actions[k] == Acquire(i) && !Active(At(owners, s, actions, k), i) && Active(At(owners, s, actions, k + 1), i))
  }

  /** The k-th action writes the row, for `i` and with the time `at`. */
  ghost predicate Writes(owners: Owners, s: System, actions: seq<Action>, k: nat, i: string, at: nat)
    requires k < |actions|
  {
    || (at == Clock(s, actions, k) && Refreshes(owners, s, actions, k, i))
    || (at == Clock(s, actions, k) && actions[k] == LateBeat(i) && Is(At(owners, s, actions, k), i, Idle))
    || (actions[k] == Claim(i) && exists r: nat :: ReadFor(owners, s, actions, r, k, i) && at == Clock(s, actions, r))
  }

  predicate Clears(owners: Owners, s: System, actions: seq<Action>, k: nat)
    requires k < |actions|
  {
    actions[k].FinishRelease? && Is(At(owners, s, actions, k), actions[k].id, Releasing)
  }

  ghost predicate Changes(owners: Owners, s: System, actions: seq<Action>, k: nat)
    requires k < |actions|
  {
    Clears(owners, s, actions, k) || exists i, at :: Writes(owners, s, actions, k, i, at)
  }

  lemma ReadingStep(owners: Owners, s: System, a: Action, i: string)
    requires IsReading(Step(owners, s, a), i)
    ensures if IsReading(s, i) then Step(owners, s, a).phase[i] == s.phase[i]
            else a == Read(i) && Is(s, i, Idle) && Step(owners, s, a).phase[i] == Reading(s.now)
  {
  }

  lemma {:induction false} ReadingSince(owners: Owners, s: System, actions: seq<Action>, k: nat, i: string)
    returns (r: nat)
    requires Start(s) && k <= |actions| && IsReading(At(owners, s, actions, k), i)
    ensures ReadFor(owners, s, actions, r, k, i)
    ensures At(owners, s, actions, k).phase[i].at == Clock(s, actions, r)
  {
    if k == 0 {
      assert false;
    } else {
      AtNext(owners, s, actions, k - 1);
      ReadingStep(owners, At(owners, s, actions, k - 1), actions[k - 1], i);
      if IsReading(At(owners, s, actions, k - 1), i) {
        r := ReadingSince(owners, s, actions, k - 1, i);
      } else {
        r := k - 1;
        ClockIs(owners, s, actions, r);
      }
    }
  }

  /** The row that `i` writes at a time: its own columns, and the whole second. */
  function Written(owners: Owners, i: string, at: nat): Row {
    Row(i, Some(at / 1_000_000_000), owners(i).pid, owners(i).hostname)
  }

  lemma ReadForAt(owners: Owners, s: System, actions: seq<Action>, r: nat, k: nat, i: string)
    requires k <= |actions| && ReadFor(owners, s, actions, r, k, i)
    ensures Is(At(owners, s, actions, k), i, Reading(Clock(s, actions, r)))
  {
    var p := Reading(At(owners, s, actions, r).now);
    ReadingNext(owners, s, actions, r, i);
    for m := r + 1 to k
      invariant Is(At(owners, s, actions, m), i, p)
    {
      ReadingNext(owners, s, actions, m, i);
    }
    ClockIs(owners, s, actions, r);
  }

  lemma ReadingNext(owners: Owners, s: System, actions: seq<Action>, n: nat, i: string)
    requires n < |actions| && IsReading(At(owners, s, actions, n + 1), i)
    ensures var t := At(owners, s, actions, n);
            if IsReading(t, i) then At(owners, s, actions, n + 1).phase[i] == t.phase[i]
            else Is(At(owners, s, actions, n + 1), i, Reading(t.now))
  {
    AtNext(owners, s, actions, n);
    ReadingStep(owners, At(owners, s, actions, n), actions[n], i);
  }

  lemma WrittenNext(owners: Owners, s: System, actions: seq<Action>, n: nat, i: string, at: nat)
    requires WellNamed(owners) && n < |actions| && Writes(owners, s, actions, n, i, at)
    ensures At(owners, s, actions, n + 1).row == Some(Written(owners, i, at))
  {
    AtNext(owners, s, actions, n);
    ClockIs(owners, s, actions, n);
    if actions[n].Claim? {
      var r: nat :| ReadFor(owners, s, actions, r, n, i) && at == Clock(s, actions, r);
      ReadForAt(owners, s, actions, r, n, i);
    }
  }

  lemma UnchangedNext(owners: Owners, s: System, actions: seq<Action>, n: nat)
    requires Start(s) && n < |actions| && !Changes(owners, s, actions, n)
    ensures At(owners, s, actions, n + 1).row == At(owners, s, actions, n).row
  {
    var t, a := At(owners, s, actions, n), actions[n];
    AtNext(owners, s, actions, n);
    match a
    case Acquire(id) => assert !Writes(owners, s, actions, n, id, Clock(s, actions, n));
    case Heartbeat(id) => assert !Writes(owners, s, actions, n, id, Clock(s, actions, n));
    case LateBeat(id) => assert !Writes(owners, s, actions, n, id, Clock(s, actions, n));
    case Claim(id) =>
      if IsReading(t, id) {
        var r := ReadingSince(owners, s, actions, n, id);
        assert Writes(owners, s, actions, n, id, Clock(s, actions, r));
      }
    case FinishRelease(_) =>
    case Read(_) =>
    case BeginRelease(_) =>
    case Crash(_) =>
    case Tick(_) =>
  }

  /** The last of the first `n` actions to change the row. */
  ghost predicate LastChange(owners: Owners, s: System, actions: seq<Action>, n: nat, k: nat)
    requires n <= |actions|
  {
    k < n && Changes(owners, s, actions, k) && forall j :: k < j < n ==> !Changes(owners, s, actions, j)
  }

  ghost predicate Leaves(owners: Owners, s: System, actions: seq<Action>, k: nat, row: Option<Row>)
    requires k < |actions|
  {
    || (row == None && Clears(owners, s, actions, k))
    || exists i, at :: Writes(owners, s, actions, k, i, at) && row == Some(Written(owners, i, at))
  }

  ghost predicate LeftBy(owners: Owners, s: System, actions: seq<Action>, n: nat, k: nat, row: Option<Row>)
    requires n <= |actions|
  {
    LastChange(owners, s, actions, n, k) && Leaves(owners, s, actions, k, row)
  }

  lemma ChangedNext(owners: Owners, s: System, actions: seq<Action>, n: nat)
    requires WellNamed(owners) && n < |actions| && Changes(owners, s, actions, n)
    ensures LeftBy(owners, s, actions, n + 1, n, At(owners, s, actions, n + 1).row)
  {
    if Clears(owners, s, actions, n) {
      AtNext(owners, s, actions, n);
    } else {
      var i, at :| Writes(owners, s, actions, n, i, at);
      WrittenNext(owners, s, actions, n, i, at);
    }
  }

  lemma KeptNext(owners: Owners, s: System, actions: seq<Action>, n: nat, k: nat, row: Option<Row>)
    requires n < |actions| && !Changes(owners, s, actions, n) && LeftBy(owners, s, actions, n, k, row)
    ensures LeftBy(owners, s, actions, n + 1, k, row)
  {
  }

  ghost predicate NeverChanged(owners: Owners, s: System, actions: seq<Action>, n: nat)
    requires n <= |actions|
  {
    forall k :: 0 <= k < n ==> !Changes(owners, s, actions, k)
  }

  /** The row at any moment of any run is what the last change to it left: nothing, or the columns of the instance
      that acquired or beat then, with the whole second of that time. */
  lemma {:induction false} RowIsLastChange(owners: Owners, s: System, actions: seq<Action>, n: nat)
    requires WellNamed(owners) && Start(s) && n <= |actions|
    ensures var row := At(owners, s, actions, n).row;
            if NeverChanged(owners, s, actions, n) then row == None
            else exists k: nat :: LeftBy(owners, s, actions, n, k, row)
  {
    if n == 0 {
      assert actions[..0] == [];
    } else if Changes(owners, s, actions, n - 1) {
      ChangedNext(owners, s, actions, n - 1);
    } else {
      RowIsLastChange(owners, s, actions, n - 1);
      UnchangedNext(owners, s, actions, n - 1);
      var row := At(owners, s, actions, n - 1).row;
      assert NeverChanged(owners, s, actions, n - 1) <==> NeverChanged(owners, s, actions, n);
      if !NeverChanged(owners, s, actions, n) {
        var k: nat :| LeftBy(owners, s, actions, n - 1, k, row);
        KeptNext(owners, s, actions, n - 1, k, row);
      }
    }
  }

  // ----- What a deployment can see to -----

  /** The last of the first `n` actions by which `i` acquired or beat. */
  ghost predicate LastRefresh(owners: Owners, s: System, actions: seq<Action>, n: nat, k: nat, i: string)
    requires n <= |actions|
  {
    k < n && Refreshes(owners, s, actions, k, i) && forall j :: k < j < n ==> !Refreshes(owners, s, actions, j, i)
  }

  /** An idle instance that acquires while another is active does so less than sixty seconds after the beginning of
      the second in which that other last acquired or beat. */
  ghost predicate TimelyStep(owners: Owners, s: System, actions: seq<Action>, n: nat)
    requires n < |actions|
  {
    var t := At(owners, s, actions, n);
    actions[n].Acquire? && Is(t, actions[n].id, Idle) ==>
      forall i, k: nat :: Active(t, i) && LastRefresh(owners, s, actions, n, k, i) ==>
        Clock(s, actions, n) < Clock(s, actions, k) - Clock(s, actions, k) % 1_000_000_000 + 60_000_000_000
  }

  ghost predicate Timely(owners: Owners, s: System, actions: seq<Action>, n: nat)
    requires n <= |actions|
  {
    forall k :: 0 <= k < n ==> TimelyStep(owners, s, actions, k)
  }

  /** The time of the last refresh is the age of an active instance's row. */
  lemma RefreshedSince(owners: Owners, s: System, actions: seq<Action>, n: nat, i: string) returns (k: nat)
    requires WellNamed(owners) && Start(s) && n <= |actions| && DeployedRun(owners, s, actions)
    requires Safe(owners, s, actions, n) && Active(At(owners, s, actions, n), i)
    ensures LastRefresh(owners, s, actions, n, k, i)
    ensures At(owners, s, actions, n).row == Some(Written(owners, i, Clock(s, actions, k)))
  {
    NoneLate(owners, s, actions);
    RowNamesHolder(owners, s, actions, n);
    RowIsLastChange(owners, s, actions, n);
    var row := At(owners, s, actions, n).row;
    k :| LeftBy(owners, s, actions, n, k, row);
    var j, at :| Writes(owners, s, actions, k, j, at) && row == Some(Written(owners, j, at));
    forall m: nat | k < m < n
      ensures !Refreshes(owners, s, actions, m, i)
    {
      RefreshChanges(owners, s, actions, m, i);
    }
  }

  lemma RefreshChanges(owners: Owners, s: System, actions: seq<Action>, k: nat, i: string)
    requires k < |actions|
    ensures Refreshes(owners, s, actions, k, i) ==> Changes(owners, s, actions, k)
  {
    assert Refreshes(owners, s, actions, k, i) ==> Writes(owners, s, actions, k, i, Clock(s, actions, k));
  }

  lemma NoneLate(owners: Owners, s: System, actions: seq<Action>)
    requires DeployedRun(owners, s, actions)
    ensures forall k :: 0 <= k < |actions| ==> !actions[k].LateBeat? && !actions[k].Claim?
  {
    forall k | 0 <= k < |actions|
      ensures !actions[k].LateBeat? && !actions[k].Claim?
    {
      assert Deployed(owners, Run(owners, s, actions[..k]), actions[k]);
    }
  }

  lemma OnlyLast(owners: Owners, s: System, actions: seq<Action>, n: nat, k: nat, l: nat, i: string)
    requires n <= |actions| && LastRefresh(owners, s, actions, n, k, i) && LastRefresh(owners, s, actions, n, l, i)
    ensures k == l
  {
  }

  lemma FreshIsTimely(owners: Owners, s: System, actions: seq<Action>, n: nat)
    requires WellNamed(owners) && Start(s) && n < |actions| && DeployedRun(owners, s, actions)
    requires Safe(owners, s, actions, n)
    ensures FreshStep(owners, s, actions, n) <==> TimelyStep(owners, s, actions, n)
  {
    var t := At(owners, s, actions, n);
    ClockIs(owners, s, actions, n);
    ExclusiveUpTo(owners, s, actions, n);
    assert OneActiveAt(owners, s, actions, n);
    if i :| Active(t, i) {
      var k := RefreshedSince(owners, s, actions, n, i);
      forall l: nat, j | Active(t, j) && LastRefresh(owners, s, actions, n, l, j)
        ensures j == i && l == k
      {
        OnlyLast(owners, s, actions, n, k, l, i);
      }
      StaleFrom(owners, i, Clock(s, actions, k), t.now);
    }
  }

  lemma StaleFrom(owners: Owners, i: string, at: nat, now: nat)
    ensures Stale(Written(owners, i, at), now) <==> now >= at - at % 1_000_000_000 + 60_000_000_000
  {
  }

  lemma TimelyMore(owners: Owners, s: System, actions: seq<Action>, n: nat)
    requires 0 < n <= |actions|
    ensures Timely(owners, s, actions, n) <==> Timely(owners, s, actions, n - 1) && TimelyStep(owners, s, actions, n - 1)
  {
  }

  lemma {:induction false} FreshTimely(owners: Owners, s: System, actions: seq<Action>, n: nat)
    requires WellNamed(owners) && Start(s) && n <= |actions| && DeployedRun(owners, s, actions)
    ensures Fresh(owners, s, actions, n) <==> Timely(owners, s, actions, n)
  {
    if n > 0 {
      FreshTimely(owners, s, actions, n - 1);
      OneMoreStep(owners, s, actions, n);
      TimelyMore(owners, s, actions, n);
      if Fresh(owners, s, actions, n - 1) {
        FreshUpTo(owners, s, actions, n - 1);
        FreshIsTimely(owners, s, actions, n - 1);
      }
    }
  }

  /** With own hosts, heartbeats that stop in time and Acquire in one piece, all that is left is the time: never are
      two instances active if and only if whoever starts while another is active does so less than sixty seconds
      after the whole second in which that other acquired or last beat. A holder may miss beats as it likes while
      nobody asks. */
  lemma DeploymentExactly(owners: Owners, s: System, actions: seq<Action>)
    requires WellNamed(owners) && Start(s)
    requires DeployedRun(owners, s, actions)
    ensures Exclusive(owners, s, actions, |actions|) <==> Timely(owners, s, actions, |actions|)
  {
    FreshRowExactly(owners, s, actions, |actions|);
    FreshTimely(owners, s, actions, |actions|);
  }

  /** Different hostnames throughout are one way to have own hosts. */
  lemma DistinctHostsSuffice(owners: Owners, s: System, actions: seq<Action>)
    requires WellNamed(owners) && Start(s)
    requires forall i, j :: i != j ==> owners(i).hostname != owners(j).hostname
    requires forall k :: 0 <= k < |actions| ==> !actions[k].LateBeat? && !actions[k].Claim?
    ensures Exclusive(owners, s, actions, |actions|) <==> Timely(owners, s, actions, |actions|)
  {
    DeploymentExactly(owners, s, actions);
  }
}
