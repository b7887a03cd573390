/** The single-instance lease (internal/services/runtimelock/runtimelock.go): one shared row, any number of
    instances, one clock. Times are nanoseconds; the row stores whole seconds, as RFC 3339 does. */
module RuntimeLease {
  import opened Wrappers

  const SECOND := 1_000_000_000
  const HEARTBEAT_INTERVAL := 60 * SECOND
  const STALE_AFTER := 60 * SECOND

  /** `acquiredAt` is None when the column does not parse as a time. */
  datatype Row = Row(instance: string, acquiredAt: Option<nat>, pid: nat, hostname: string)

  /** What an instance writes about itself. */
  datatype Owner = Owner(instance: string, pid: nat, hostname: string)

  function Stamp(now: nat): nat {
    now / SECOND
  }

  function RowOf(o: Owner, now: nat): Row {
    Row(o.instance, Some(Stamp(now)), o.pid, o.hostname)
  }

  function Age(now: nat, stamp: nat): int {
    now - stamp * SECOND
  }

  predicate Stale(r: Row, now: nat) {
    r.acquiredAt.None? || Age(now, r.acquiredAt.value) >= STALE_AFTER
  }

  /** The decision Acquire takes on the row it has read. */
  predicate MayClaim(row: Option<Row>, hostname: string, now: nat) {
    match row
    case None => true
    case Some(r) => r.instance == "" || (r.hostname == hostname && hostname != "") || Stale(r, now)
  }

  // ----- One instance -----

  /** The runtime_locks row with key "primary". */
  class Store {
    var row: Option<Row>

    constructor ()
      ensures row == None
    {
      row := None;
    }

    method Upsert(r: Row)
      modifies this
      ensures row == Some(r)
    {
      row := Some(r);
    }

    method Delete()
      modifies this
      ensures row == None
    {
      row := None;
    }
  }

  class Service {
    const store: Store
    const owner: Owner
    var held: bool
    var beating: bool

    constructor (store: Store, owner: Owner)
      ensures this.store == store && this.owner == owner && !held && !beating
    {
      this.store, this.owner := store, owner;
      held, beating := false, false;
    }

    method Acquire(now: nat) returns (acquired: bool)
      modifies this, store
      ensures acquired == held == (old(held) || MayClaim(old(store.row), owner.hostname, now))
      ensures store.row == if !old(held) && held then Some(RowOf(owner, now)) else old(store.row)
      ensures beating == old(beating)
    {
      if held {
        return true;
      }
      match store.row {
        case None =>
        case Some(existing) =>
          if existing.instance != "" {
            if existing.hostname == owner.hostname && owner.hostname != "" {
              // the same container after a restart
            } else if existing.acquiredAt.Some? && Age(now, existing.acquiredAt.value) < STALE_AFTER {
              return false;
            }
          }
      }
      store.Upsert(RowOf(owner, now));
      held := true;
      return true;
    }

    method StartHeartbeat()
      modifies this
      ensures held == old(held) && beating == (old(beating) || held)
    {
      if !held || beating {
        return;
      }
      beating := true;
    }

    /** One tick of the heartbeat goroutine: it looks at neither `held` nor the row. */
    method Beat(now: nat)
      modifies store
      ensures store.row == Some(RowOf(owner, now))
    {
      store.Upsert(RowOf(owner, now));
    }

    /** The first half of Release, under the mutex. */
    method BeginRelease() returns (wasHeld: bool)
      modifies this
      ensures wasHeld == old(held) && !held && beating == (old(beating) && !wasHeld)
    {
      wasHeld := held;
      if held {
        held, beating := false, false;
      }
    }

    /** The second half, after the wait for the heartbeat: whoever the row names, it goes. */
    method FinishRelease()
      modifies store
      ensures store.row == None
    {
      store.Delete();
    }
  }

  // ----- All instances -----

  datatype Phase = Idle | Reading(at: nat) | Held | Releasing | Crashed

  /** `phase` has an entry for every instance; `owner` gives what each writes about itself. */
  datatype System = System(row: Option<Row>, phase: map<string, Phase>, now: nat)

  datatype Action =
    | Acquire(id: string)        // read and claim in one step
    | Read(id: string)           // the read of Acquire alone
    | Claim(id: string)          // the write of Acquire alone, on the decision taken at the read
    | Heartbeat(id: string)      // by an instance that holds or is releasing
    | LateBeat(id: string)       // by a heartbeat that outlived the bounded wait in Release
    | BeginRelease(id: string)
    | FinishRelease(id: string)
    | Crash(id: string)
    | Tick(duration: nat)

  /** What instance `id` writes. */
  type Owners = string -> Owner

  ghost predicate WellNamed(owners: Owners) {
    forall id :: owners(id).instance == id
  }

  predicate Is(s: System, id: string, p: Phase) {
    id in s.phase && s.phase[id] == p
  }

  predicate Active(s: System, id: string) {
    Is(s, id, Held) || Is(s, id, Releasing)
  }

  function Step(owners: Owners, s: System, a: Action): System {
    match a
    case Acquire(id) =>
      if Is(s, id, Idle) && MayClaim(s.row, owners(id).hostname, s.now)
      then s.(row := Some(RowOf(owners(id), s.now)), phase := s.phase[id := Held])
      else s
    case Read(id) =>
      if Is(s, id, Idle) && MayClaim(s.row, owners(id).hostname, s.now) then s.(phase := s.phase[id := Reading(s.now)]) else s
    case Claim(id) =>
      if id in s.phase && s.phase[id].Reading?
      then s.(row := Some(RowOf(owners(id), s.phase[id].at)), phase := s.phase[id := Held])
      else s
    case Heartbeat(id) => if Active(s, id) then s.(row := Some(RowOf(owners(id), s.now))) else s
    case LateBeat(id) => if Is(s, id, Idle) then s.(row := Some(RowOf(owners(id), s.now))) else s
    case BeginRelease(id) => if Is(s, id, Held) then s.(phase := s.phase[id := Releasing]) else s
    case FinishRelease(id) => if Is(s, id, Releasing) then s.(row := None, phase := s.phase[id := Idle]) else s
    case Crash(id) => if id in s.phase then s.(phase := s.phase[id := Crashed]) else s
    case Tick(duration) => s.(now := s.now + duration)
  }

  function Run(owners: Owners, s: System, actions: seq<Action>): System {
    if actions == [] then s
    else Step(owners, Run(owners, s, actions[..|actions| - 1]), actions[|actions| - 1])
  }

  /** The object of an instance and the stored row are as the machine has them. */
  predicate Mirrors(service: Service, owners: Owners, s: System)
    reads service, service.store
  {
    && service.owner == owners(service.owner.instance)
    && service.store.row == s.row
    && service.held == Is(s, service.owner.instance, Held)
  }

  /** The calls that the objects have are the steps of the machine: from the same row, and whatever else goes on,
      both leave the same row and the same holding behind. */
  method Play(service: Service, owners: Owners, s: System, a: Action)
    requires Mirrors(service, owners, s) && !a.Tick? && a.id == service.owner.instance
    requires match a
             case Acquire(id) => Is(s, id, Idle) || Is(s, id, Held)
             case Heartbeat(id) => Active(s, id)
             case LateBeat(id) => Is(s, id, Idle)
             case BeginRelease(id) => Is(s, id, Idle) || Is(s, id, Held)
             case FinishRelease(id) => Is(s, id, Releasing)
             case _ => false
    modifies service, service.store
    ensures Mirrors(service, owners, Step(owners, s, a))
    ensures a.BeginRelease? && Is(s, a.id, Held) ==> Is(Step(owners, s, a), a.id, Releasing)
    ensures a.FinishRelease? ==> Is(Step(owners, s, a), a.id, Idle)
    ensures Step(owners, s, a).now == s.now
    ensures forall id :: id != a.id ==> (id in Step(owners, s, a).phase <==> id in s.phase)
    ensures forall id :: id != a.id && id in s.phase ==> Step(owners, s, a).phase[id] == s.phase[id]
  {
    match a
    case Acquire(_) => var acquired := service.Acquire(s.now);
    case Heartbeat(_) => service.Beat(s.now);
    case LateBeat(_) => service.Beat(s.now);
    case BeginRelease(_) => var wasHeld := service.BeginRelease();
    case FinishRelease(_) => service.FinishRelease();
  }

  /** The two phases of Acquire back to back are the one step. */
  lemma ReadThenClaim(owners: Owners, s: System, id: string)
    requires !(id in s.phase && s.phase[id].Reading?)
    ensures Step(owners, Step(owners, s, Read(id)), Claim(id)) == Step(owners, s, Acquire(id))
  {
    assert Is(s, id, Idle) ==> s.phase[id := Reading(s.now)][id := Held] == s.phase[id := Held];
  }

  ghost predicate AtMostOneActive(s: System) {
    forall i, j :: Active(s, i) && Active(s, j) ==> i == j
  }

  ghost predicate SomeActive(s: System) {
    exists i :: Active(s, i)
  }

  ghost predicate RowNames(owners: Owners, s: System) {
    forall i :: Active(s, i) ==> s.row.Some? && s.row.value.instance == i && s.row.value.hostname == owners(i).hostname
  }

  ghost predicate Start(s: System) {
    s.row == None && (forall id :: id in s.phase ==> s.phase[id] == Idle) && "" !in s.phase
  }

  // ----- Mutual exclusion -----

  /** What an action has to find: an idle instance that acquires while someone is active, a row it may not claim;
      a claim that comes some time after its read, nobody active. Everything else is free. */
  ghost predicate SafeAt(owners: Owners, s: System, a: Action) {
    match a
    case Acquire(id) =>
      Is(s, id, Idle) && SomeActive(s) ==> s.row.Some? && !MayClaim(s.row, owners(id).hostname, s.now)
    case Claim(id) => id in s.phase && s.phase[id].Reading? ==> !SomeActive(s)
    case _ => true
  }

  /** While someone is active the row stands, and under an instance's name. */
  ghost predicate RowStands(s: System) {
    && (SomeActive(s) ==> s.row.Some?)
    && (s.row.Some? ==> s.row.value.instance != "")
    && "" !in s.phase
  }

  lemma StepExactly(owners: Owners, s: System, a: Action)
    requires WellNamed(owners) && AtMostOneActive(s) && RowStands(s)
    ensures RowStands(Step(owners, s, a))
    ensures AtMostOneActive(Step(owners, s, a)) <==> SafeAt(owners, s, a)
  {
    var s' := Step(owners, s, a);
    match a
    case Acquire(id) => EnterExactly(s, s', id);
    case Claim(id) => EnterExactly(s, s', id);
    case FinishRelease(id) =>
      assert s' != s ==> Active(s, id);
      assert forall i :: Active(s', i) ==> Active(s, i);
    case Read(_) => assert forall i :: Active(s', i) ==> Active(s, i);
    case Heartbeat(_) => assert forall i :: Active(s', i) ==> Active(s, i);
    case LateBeat(_) => assert forall i :: Active(s', i) ==> Active(s, i);
    case BeginRelease(_) => assert forall i :: Active(s', i) ==> Active(s, i);
    case Crash(_) => assert forall i :: Active(s', i) ==> Active(s, i);
    case Tick(_) => assert forall i :: Active(s', i) ==> Active(s, i);
  }

  /** An instance that becomes active is the only one exactly when nobody was. */
  lemma EnterExactly(s: System, s': System, id: string)
    requires AtMostOneActive(s)
    requires s' == s || (!Active(s, id) && s'.phase == s.phase[id := Held])
    ensures AtMostOneActive(s') <==> s' == s || !SomeActive(s)
  {
    if s' != s {
      assert Active(s', id);
      assert forall i :: i != id ==> (Active(s', i) <==> Active(s, i));
      if i :| Active(s, i) {
        assert Active(s', i) && i != id;
      }
    }
  }

  ghost predicate OneActiveAt(owners: Owners, s: System, actions: seq<Action>, k: nat)
    requires k <= |actions|
  {
    AtMostOneActive(Run(owners, s, actions[..k]))
  }

  ghost predicate SafeStep(owners: Owners, s: System, actions: seq<Action>, k: nat)
    requires k < |actions|
  {
    SafeAt(owners, Run(owners, s, actions[..k]), actions[k])
  }

  /** In the first `n` states at most one instance is active. */
  ghost predicate Exclusive(owners: Owners, s: System, actions: seq<Action>, n: nat)
    requires n <= |actions|
  {
    forall k :: 0 <= k <= n ==> OneActiveAt(owners, s, actions, k)
  }

  /** The first `n` actions are safe where they happen. */
  ghost predicate Safe(owners: Owners, s: System, actions: seq<Action>, n: nat)
    requires n <= |actions|
  {
    forall k :: 0 <= k < n ==> SafeStep(owners, s, actions, k)
  }

  lemma {:induction false} ExclusiveUpTo(owners: Owners, s: System, actions: seq<Action>, n: nat)
    requires WellNamed(owners) && Start(s) && n <= |actions|
    ensures Exclusive(owners, s, actions, n) <==> Safe(owners, s, actions, n)
    ensures Exclusive(owners, s, actions, n) ==> RowStands(Run(owners, s, actions[..n]))
  {
    if n == 0 {
      assert actions[..0] == [];
    } else {
      ExclusiveUpTo(owners, s, actions, n - 1);
      assert Exclusive(owners, s, actions, n) <==>
        Exclusive(owners, s, actions, n - 1) && OneActiveAt(owners, s, actions, n);
      assert Safe(owners, s, actions, n) <==> Safe(owners, s, actions, n - 1) && SafeStep(owners, s, actions, n - 1);
      if Exclusive(owners, s, actions, n - 1) {
        assert OneActiveAt(owners, s, actions, n - 1);
        assert actions[..n][..n - 1] == actions[..n - 1];
        StepExactly(owners, Run(owners, s, actions[..n - 1]), actions[n - 1]);
      }
    }
  }

  /** Mutual exclusion, exactly: however the instances interleave, crash, come back under new names and release,
      and even if heartbeats outlive their release, never are two of them active if and only if every action is
      safe where it happens. */
  lemma MutualExclusion(owners: Owners, s: System, actions: seq<Action>)
    requires WellNamed(owners) && Start(s)
    ensures Exclusive(owners, s, actions, |actions|) <==> Safe(owners, s, actions, |actions|)
  {
    ExclusiveUpTo(owners, s, actions, |actions|);
  }

  lemma StepKeepsName(owners: Owners, s: System, a: Action)
    requires WellNamed(owners) && AtMostOneActive(s) && RowNames(owners, s) && SafeAt(owners, s, a) && !a.LateBeat?
    ensures RowNames(owners, Step(owners, s, a))
  {
    var s' := Step(owners, s, a);
    forall i | Active(s', i)
      ensures s'.row.Some? && s'.row.value.instance == i && s'.row.value.hostname == owners(i).hostname
    {
      match a
      case Acquire(id) => assert i != id ==> Active(s, i);
      case Claim(id) => assert i != id ==> Active(s, i);
      case Heartbeat(id) => assert Active(s, i) && (Active(s, id) ==> i == id);
      case FinishRelease(id) => assert Active(s, i) && (Active(s, id) ==> i == id);
      case Read(_) => assert Active(s, i);
      case LateBeat(_) =>
      case BeginRelease(_) => assert Active(s, i);
      case Crash(_) => assert Active(s, i);
      case Tick(_) => assert Active(s, i);
    }
  }

  /** Without late heartbeats the row of a safe run also names the one who is active. */
  lemma {:induction false} RowNamesHolder(owners: Owners, s: System, actions: seq<Action>, n: nat)
    requires WellNamed(owners) && Start(s) && n <= |actions|
    requires Safe(owners, s, actions, n) && forall k :: 0 <= k < n ==> !actions[k].LateBeat?
    ensures RowNames(owners, Run(owners, s, actions[..n])) && OneActiveAt(owners, s, actions, n)
  {
    ExclusiveUpTo(owners, s, actions, n);
    if n == 0 {
      assert actions[..0] == [];
    } else {
      RowNamesHolder(owners, s, actions, n - 1);
      assert actions[..n][..n - 1] == actions[..n - 1];
      assert SafeStep(owners, s, actions, n - 1);
      StepKeepsName(owners, Run(owners, s, actions[..n - 1]), actions[n - 1]);
    }
  }

  // ----- What a deployment can see to -----

  /** An instance that starts shares its hostname with none that is active, heartbeats end with their release, and
      no claim comes after its read. */
  ghost predicate Deployed(owners: Owners, s: System, a: Action) {
    && !a.LateBeat? && !a.Claim?
    && (a.Acquire? ==> forall i :: Active(s, i) && i != a.id ==> owners(i).hostname != owners(a.id).hostname)
  }

  /** An idle instance that acquires while someone is active finds a row younger than a minute. */
  ghost predicate FreshStep(owners: Owners, s: System, actions: seq<Action>, k: nat)
    requires k < |actions|
  {
    var t := Run(owners, s, actions[..k]);
    actions[k].Acquire? && Is(t, actions[k].id, Idle) && SomeActive(t) ==> t.row.Some? && !Stale(t.row.value, t.now)
  }

  ghost predicate Fresh(owners: Owners, s: System, actions: seq<Action>, n: nat)
    requires n <= |actions|
  {
    forall k :: 0 <= k < n ==> FreshStep(owners, s, actions, k)
  }

  ghost predicate DeployedRun(owners: Owners, s: System, actions: seq<Action>) {
    forall k :: 0 <= k < |actions| ==> Deployed(owners, Run(owners, s, actions[..k]), actions[k])
  }

  lemma OneMoreStep(owners: Owners, s: System, actions: seq<Action>, n: nat)
    requires 0 < n <= |actions|
    ensures Safe(owners, s, actions, n) <==> Safe(owners, s, actions, n - 1) && SafeStep(owners, s, actions, n - 1)
    ensures Fresh(owners, s, actions, n) <==> Fresh(owners, s, actions, n - 1) && FreshStep(owners, s, actions, n - 1)
  {
  }

  lemma {:induction false} FreshUpTo(owners: Owners, s: System, actions: seq<Action>, n: nat)
    requires WellNamed(owners) && Start(s) && n <= |actions| && DeployedRun(owners, s, actions)
    ensures Safe(owners, s, actions, n) <==> Fresh(owners, s, actions, n)
  {
    if n > 0 {
      FreshUpTo(owners, s, actions, n - 1);
      OneMoreStep(owners, s, actions, n);
      if Safe(owners, s, actions, n - 1) {
        NextSafeIsFresh(owners, s, actions, n - 1);
      }
    }
  }

  lemma NextSafeIsFresh(owners: Owners, s: System, actions: seq<Action>, k: nat)
    requires WellNamed(owners) && Start(s) && k < |actions| && DeployedRun(owners, s, actions)
    requires Safe(owners, s, actions, k)
    ensures SafeStep(owners, s, actions, k) <==> FreshStep(owners, s, actions, k)
  {
    forall i | 0 <= i < k
      ensures !actions[i].LateBeat?
    {
      assert Deployed(owners, Run(owners, s, actions[..i]), actions[i]);
    }
    RowNamesHolder(owners, s, actions, k);
    ExclusiveUpTo(owners, s, actions, k);
    SafeIsFresh(owners, Run(owners, s, actions[..k]), actions[k]);
  }

  lemma SafeIsFresh(owners: Owners, s: System, a: Action)
    requires Deployed(owners, s, a) && RowNames(owners, s) && RowStands(s)
    ensures SafeAt(owners, s, a) <==>
            (a.Acquire? && Is(s, a.id, Idle) && SomeActive(s) ==> s.row.Some? && !Stale(s.row.value, s.now))
  {
    if a.Acquire? && Is(s, a.id, Idle) && SomeActive(s) {
      var i :| Active(s, i);
      assert i != a.id && owners(i).hostname != owners(a.id).hostname;
    }
  }

  /** With own hosts, heartbeats that stop in time and Acquire in one piece, all that is left is the age of the row. */
  lemma FreshRowExactly(owners: Owners, s: System, actions: seq<Action>, n: nat)
    requires WellNamed(owners) && Start(s) && n <= |actions|
    requires DeployedRun(owners, s, actions)
    ensures Exclusive(owners, s, actions, n) <==> Fresh(owners, s, actions, n)
  {
    ExclusiveUpTo(owners, s, actions, n);
    FreshUpTo(owners, s, actions, n);
  }

  // ----- Where the conditions come from -----

  /** From a state in which the row names the only active instance, the one-step Acquire produces a second
      one exactly when the row is stale or bears the newcomer's own hostname. */
  lemma AcquireBreaksExactly(owners: Owners, s: System, holder: string, id: string)
    requires WellNamed(owners) && AtMostOneActive(s) && RowNames(owners, s)
    requires Active(s, holder) && Is(s, id, Idle) && holder != ""
    ensures !AtMostOneActive(Step(owners, s, Acquire(id))) <==>
            Stale(s.row.value, s.now) || (owners(holder).hostname == owners(id).hostname && owners(id).hostname != "")
  {
    var s' := Step(owners, s, Acquire(id));
    if MayClaim(s.row, owners(id).hostname, s.now) {
      assert Active(s', id) && Active(s', holder);
    }
  }

  /** A row written at `t` can be taken by another host from the start of the sixtieth second after the
      second it was written in, and not before. */
  lemma ClaimableFrom(o: Owner, t: nat, hostname: string, now: nat)
    requires o.instance != "" && o.hostname != hostname
    ensures MayClaim(Some(RowOf(o, t)), hostname, now) <==> now >= t - t % SECOND + STALE_AFTER
  {
  }

  /** The shipped constants do not meet the freshness condition: when the next heartbeat falls due the row
      is already stale, however punctual the ticker. */
  lemma HeartbeatDueTooLate(o: Owner, t: nat)
    ensures HEARTBEAT_INTERVAL == 60_000_000_000 && Stale(RowOf(o, t), t + HEARTBEAT_INTERVAL)
  {
  }

  lemma RunMore(owners: Owners, s: System, actions: seq<Action>, a: Action)
    ensures Run(owners, s, actions + [a]) == Step(owners, Run(owners, s, actions), a)
  {
    assert (actions + [a])[..|actions|] == actions;
  }

  /** So a second host that starts at the instant of the first heartbeat, just ahead of it, gets in. */
  lemma TwoHoldersAtHeartbeat(owners: Owners, s: System, a: string, b: string)
    requires WellNamed(owners) && Start(s) && a in s.phase && b in s.phase && a != b
    ensures !AtMostOneActive(Run(owners, s, [Acquire(a), Tick(HEARTBEAT_INTERVAL), Acquire(b)]))
  {
    var s1 := Step(owners, s, Acquire(a));
    var s2 := Step(owners, s1, Tick(HEARTBEAT_INTERVAL));
    var s3 := Step(owners, s2, Acquire(b));
    RunMore(owners, s, [], Acquire(a));
    RunMore(owners, s, [Acquire(a)], Tick(HEARTBEAT_INTERVAL));
    RunMore(owners, s, [Acquire(a), Tick(HEARTBEAT_INTERVAL)], Acquire(b));
    assert [] + [Acquire(a)] == [Acquire(a)];
    assert [Acquire(a)] + [Tick(HEARTBEAT_INTERVAL)] == [Acquire(a), Tick(HEARTBEAT_INTERVAL)];
    assert [Acquire(a), Tick(HEARTBEAT_INTERVAL)] + [Acquire(b)] == [Acquire(a), Tick(HEARTBEAT_INTERVAL), Acquire(b)];
    HeartbeatDueTooLate(owners(a), s.now);
    assert Active(s3, a) && Active(s3, b);
  }

  /** Torn apart, the read and the claim of two instances interleave to two holders of a row that was free. */
  lemma TwoHoldersByTornAcquire(owners: Owners, s: System, a: string, b: string)
    requires Start(s) && a in s.phase && b in s.phase && a != b
    ensures !AtMostOneActive(Step(owners, Step(owners, Step(owners, Step(owners, s, Read(a)), Read(b)), Claim(a)), Claim(b)))
  {
    var s1 := Step(owners, s, Read(a));
    var s2 := Step(owners, s1, Read(b));
    var s3 := Step(owners, s2, Claim(a));
    var s4 := Step(owners, s3, Claim(b));
    assert Active(s4, a) && Active(s4, b);
  }

  /** A torn claim produces a second holder exactly when someone else became active since the read. */
  lemma TornClaimBreaksExactly(owners: Owners, s: System, id: string)
    requires AtMostOneActive(s) && id in s.phase && s.phase[id].Reading?
    ensures !AtMostOneActive(Step(owners, s, Claim(id))) <==> SomeActive(s)
  {
    var s' := Step(owners, s, Claim(id));
    assert Active(s', id);
    if i :| Active(s, i) {
      assert Active(s', i);
    }
    assert forall i :: Active(s', i) && i != id ==> Active(s, i);
  }

  /** The lease is not lost with its holder: a minute after a crash any idle instance gets it, whatever
      its hostname, and is then the only one. */
  lemma TakeoverAfterCrash(owners: Owners, s: System, holder: string, id: string)
    requires WellNamed(owners) && AtMostOneActive(s) && RowNames(owners, s) && Active(s, holder) && Is(s, id, Idle)
    requires s.row.value.acquiredAt.Some? && s.row.value.acquiredAt.value * SECOND <= s.now
    ensures var s' := Step(owners, Step(owners, Step(owners, s, Crash(holder)), Tick(STALE_AFTER)), Acquire(id));
            Active(s', id) && AtMostOneActive(s') && RowNames(owners, s')
  {
    var s1 := Step(owners, s, Crash(holder));
    assert forall i :: !Active(s1, i) by {
      forall i ensures !Active(s1, i) { assert Active(s1, i) ==> Active(s, i); }
    }
    var s2 := Step(owners, s1, Tick(STALE_AFTER));
    var s' := Step(owners, s2, Acquire(id));
    assert forall i :: Active(s', i) ==> i == id by {
      forall i ensures Active(s', i) ==> i == id { assert Active(s', i) && i != id ==> Active(s1, i); }
    }
  }
}
