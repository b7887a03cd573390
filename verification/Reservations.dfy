/** The mutual exclusion of provisioning and firmware work per key (internal/services/app_jobs.go). The two maps
    hold `true` only, so they are sets here. A device may be known under more than one key. */
module Reservations {

  type Key = string

  /** The non-empty keys of a request that are (or are not) in `other`, in order. */
  function Picked(requested: seq<Key>, other: set<Key>, held: bool): seq<Key> {
    if requested == [] then []
    else
      var rest := Picked(requested[1..], other, held);
      if requested[0] != "" && (requested[0] in other) == held then [requested[0]] + rest else rest
  }

  function Elements(keys: seq<Key>): set<Key> {
    set k | k in keys
  }

  class Targets {
    var activeProvision: set<Key>
    var activeFirmware: set<Key>

    constructor ()
      ensures activeProvision == {} && activeFirmware == {}
    {
      activeProvision, activeFirmware := {}, {};
    }

    method ReserveProvision(requested: seq<Key>) returns (allowed: seq<Key>, skipped: seq<Key>)
      modifies this`activeProvision
      ensures allowed == Picked(requested, activeFirmware, false) && skipped == Picked(requested, activeFirmware, true)
      ensures activeProvision == old(activeProvision) + Elements(allowed)
    {
      allowed, skipped := [], [];
      for i := 0 to |requested|
        invariant allowed + Picked(requested[i..], activeFirmware, false) == Picked(requested, activeFirmware, false)
        invariant skipped + Picked(requested[i..], activeFirmware, true) == Picked(requested, activeFirmware, true)
        invariant forall k :: k in activeProvision <==> k in old(activeProvision) || k in allowed
      {
        var key := requested[i];
        PickedNext(requested, i, activeFirmware, allowed, skipped);
        if key != "" {
          if key in activeFirmware {
            skipped := skipped + [key];
          } else {
            activeProvision := activeProvision + {key};
            allowed := allowed + [key];
          }
        }
      }
    }

    method ReleaseProvision(keys: seq<Key>)
      modifies this`activeProvision
      ensures activeProvision == old(activeProvision) - Elements(keys)
    {
      for i := 0 to |keys|
        invariant forall k :: k in activeProvision <==> k in old(activeProvision) && k !in keys[..i]
      {
        assert keys[..i + 1] == keys[..i] + [keys[i]];
        activeProvision := activeProvision - {keys[i]};
      }
    }

    method ReserveFirmware(requested: seq<Key>) returns (allowed: seq<Key>, skipped: seq<Key>)
      modifies this`activeFirmware
      ensures allowed == Picked(requested, activeProvision, false) && skipped == Picked(requested, activeProvision, true)
      ensures activeFirmware == old(activeFirmware) + Elements(allowed)
    {
      allowed, skipped := [], [];
      for i := 0 to |requested|
        invariant allowed + Picked(requested[i..], activeProvision, false) == Picked(requested, activeProvision, false)
        invariant skipped + Picked(requested[i..], activeProvision, true) == Picked(requested, activeProvision, true)
        invariant forall k :: k in activeFirmware <==> k in old(activeFirmware) || k in allowed
      {
        var key := requested[i];
        PickedNext(requested, i, activeProvision, allowed, skipped);
        if key != "" {
          if key in activeProvision {
            skipped := skipped + [key];
          } else {
            activeFirmware := activeFirmware + {key};
            allowed := allowed + [key];
          }
        }
      }
    }

    method ReleaseFirmware(keys: seq<Key>)
      modifies this`activeFirmware
      ensures activeFirmware == old(activeFirmware) - Elements(keys)
    {
      for i := 0 to |keys|
        invariant forall k :: k in activeFirmware <==> k in old(activeFirmware) && k !in keys[..i]
      {
        assert keys[..i + 1] == keys[..i] + [keys[i]];
        activeFirmware := activeFirmware - {keys[i]};
      }
    }
  }

  lemma PickedNext(requested: seq<Key>, i: nat, other: set<Key>, allowed: seq<Key>, skipped: seq<Key>)
    requires i < |requested|
    ensures var key := requested[i];
            && allowed + Picked(requested[i..], other, false) ==
               (if key != "" && key !in other then allowed + [key] else allowed) + Picked(requested[i + 1..], other, false)
            && skipped + Picked(requested[i..], other, true) ==
               (if key != "" && key in other then skipped + [key] else skipped) + Picked(requested[i + 1..], other, true)
  {
    assert requested[i..][0] == requested[i] && requested[i..][1..] == requested[i + 1..];
  }

  // ----- What one request gets -----

  /** A key is granted exactly when the other kind does not hold it. */
  lemma {:induction false} PickedKeys(requested: seq<Key>, other: set<Key>, held: bool)
    ensures forall k :: k in Picked(requested, other, held) <==> k in requested && k != "" && (k in other) == held
  {
    if requested != [] {
      PickedKeys(requested[1..], other, held);
      assert requested == [requested[0]] + requested[1..];
    }
  }

  function Empties(requested: seq<Key>): nat {
    if requested == [] then 0 else Empties(requested[1..]) + if requested[0] == "" then 1 else 0
  }

  /** Nothing gets lost and nothing is granted twice: granted, skipped and empty keys make up the request. */
  lemma {:induction false} RequestSplits(requested: seq<Key>, other: set<Key>)
    ensures multiset(requested) ==
            multiset(Picked(requested, other, false)) + multiset(Picked(requested, other, true)) + multiset{}["" := Empties(requested)]
  {
    if requested != [] {
      var key, rest := requested[0], requested[1..];
      RequestSplits(rest, other);
      assert requested == [key] + rest;
      assert multiset(requested) == multiset{key} + multiset(rest);
      assert multiset([key] + Picked(rest, other, key in other)) == multiset{key} + multiset(Picked(rest, other, key in other));
    }
  }

  // ----- Runs -----

  datatype Kind = Provision | Firmware

  /** Work in progress: what a caller was granted and will release in the end. */
  datatype Holder = Holder(kind: Kind, keys: seq<Key>)

  datatype State = State(provision: set<Key>, firmware: set<Key>, holders: map<nat, Holder>)

  datatype Event =
    | Reserve(id: nat, kind: Kind, requested: seq<Key>)
    | Release(id: nat)

  const IDLE := State({}, {}, map[])

  function Active(s: State, kind: Kind): set<Key> {
    if kind.Provision? then s.provision else s.firmware
  }

  function Other(kind: Kind): Kind {
    if kind.Provision? then Firmware else Provision
  }

  function Granted(s: State, kind: Kind, requested: seq<Key>): seq<Key> {
    Picked(requested, Active(s, Other(kind)), false)
  }

  function WithActive(s: State, kind: Kind, keys: set<Key>): State {
    if kind.Provision? then s.(provision := keys) else s.(firmware := keys)
  }

  function Step(s: State, e: Event): State {
    match e
    case Reserve(id, kind, requested) =>
      if id in s.holders then s
      else
        var keys := Granted(s, kind, requested);
        WithActive(s, kind, Active(s, kind) + Elements(keys)).(holders := s.holders[id := Holder(kind, keys)])
    case Release(id) =>
      if id !in s.holders then s
      else
        var h := s.holders[id];
        WithActive(s, h.kind, Active(s, h.kind) - Elements(h.keys)).(holders := s.holders - {id})
  }

  function Run(events: seq<Event>): State {
    if events == [] then IDLE else Step(Run(events[..|events| - 1]), events[|events| - 1])
  }

  /** No key is ever active for both kinds, whoever overlaps with whom. */
  lemma {:induction false} NeverBothActive(events: seq<Event>)
    ensures Run(events).provision !! Run(events).firmware
  {
    if events != [] {
      var n := |events| - 1;
      NeverBothActive(events[..n]);
      StepKeepsDisjoint(Run(events[..n]), events[n]);
    }
  }

  lemma StepKeepsDisjoint(s: State, e: Event)
    requires s.provision !! s.firmware
    ensures Step(s, e).provision !! Step(s, e).firmware
  {
    match e
    case Reserve(id, kind, requested) => PickedKeys(requested, Active(s, Other(kind)), false);
    case Release(id) =>
  }

  /** Whoever holds a key has it marked as active. */
  ghost predicate Owned(s: State) {
    forall id :: id in s.holders ==> forall k :: k in s.holders[id].keys ==> k in Active(s, s.holders[id].kind)
  }

  /** Another holder of the same kind has a key of `id`. */
  ghost predicate Overlaps(s: State, id: nat)
    requires id in s.holders
  {
    exists other :: other in s.holders && other != id && s.holders[other].kind == s.holders[id].kind
      && exists k :: k in s.holders[other].keys && k in s.holders[id].keys
  }

  /** A step takes a key away from under its holder exactly when it releases a key that another holder of the
      same kind still has. */
  lemma StealsExactlyWhen(s: State, e: Event)
    requires Owned(s)
    ensures Owned(Step(s, e)) <==> !(e.Release? && e.id in s.holders && Overlaps(s, e.id))
  {
    match e
    case Reserve(id, kind, requested) => ReserveKeepsOwned(s, id, kind, requested);
    case Release(id) =>
      if id in s.holders {
        ReleaseSteals(s, id);
      }
  }

  lemma ReserveKeepsOwned(s: State, id: nat, kind: Kind, requested: seq<Key>)
    requires Owned(s)
    ensures Owned(Step(s, Reserve(id, kind, requested)))
  {
    var t := Step(s, Reserve(id, kind, requested));
    forall j, k | j in t.holders && k in t.holders[j].keys
      ensures k in Active(t, t.holders[j].kind)
    {
      if j in s.holders {
        assert t.holders[j] == s.holders[j];
        assert k in Active(s, s.holders[j].kind);
      }
    }
  }

  lemma ReleaseSteals(s: State, id: nat)
    requires Owned(s) && id in s.holders
    ensures Owned(Step(s, Release(id))) <==> !Overlaps(s, id)
  {
    var t := Step(s, Release(id));
    if Overlaps(s, id) {
      var other :| other in s.holders && other != id && s.holders[other].kind == s.holders[id].kind
        && exists k :: k in s.holders[other].keys && k in s.holders[id].keys;
      var k :| k in s.holders[other].keys && k in s.holders[id].keys;
      assert other in t.holders && t.holders[other] == s.holders[other];
      assert k !in Active(t, s.holders[id].kind);
    } else {
      forall j, k | j in t.holders && k in t.holders[j].keys
        ensures k in Active(t, t.holders[j].kind)
      {
        assert t.holders[j] == s.holders[j] && k in Active(s, s.holders[j].kind);
      }
    }
  }

  /** In the first `n` states every holder has its keys. */
  ghost predicate OwnedUpTo(events: seq<Event>, n: nat)
    requires n <= |events|
  {
    forall k :: 0 <= k <= n ==> OwnedAt(events, k)
  }

  ghost predicate OwnedAt(events: seq<Event>, k: nat)
    requires k <= |events|
  {
    Owned(Run(events[..k]))
  }

  /** None of the first `n` events releases a key that another holder of the same kind still has. */
  ghost predicate CleanUpTo(events: seq<Event>, n: nat)
    requires n <= |events|
  {
    forall k :: 0 <= k < n ==> CleanAt(events, k)
  }

  ghost predicate CleanAt(events: seq<Event>, k: nat)
    requires k < |events|
  {
    var s := Run(events[..k]);
    !(events[k].Release? && events[k].id in s.holders && Overlaps(s, events[k].id))
  }

  lemma {:induction false} OwnedExactlyUpTo(events: seq<Event>, n: nat)
    requires n <= |events|
    ensures OwnedUpTo(events, n) <==> CleanUpTo(events, n)
  {
    if n == 0 {
      assert events[..0] == [];
    } else {
      OwnedExactlyUpTo(events, n - 1);
      assert OwnedUpTo(events, n) <==> OwnedUpTo(events, n - 1) && OwnedAt(events, n);
      assert CleanUpTo(events, n) <==> CleanUpTo(events, n - 1) && CleanAt(events, n - 1);
      NextOwnedExactly(events, n - 1);
    }
  }

  lemma NextOwnedExactly(events: seq<Event>, k: nat)
    requires k < |events|
    ensures OwnedAt(events, k) ==> (OwnedAt(events, k + 1) <==> CleanAt(events, k))
  {
    assert events[..k + 1][..k] == events[..k];
    if OwnedAt(events, k) {
      StealsExactlyWhen(Run(events[..k]), events[k]);
    }
  }

  /** Over all runs: nobody ever loses a key while holding it if and only if nobody releases a key that another
      holder of the same kind still has. */
  lemma OwnedExactly(events: seq<Event>)
    ensures OwnedUpTo(events, |events|) <==> CleanUpTo(events, |events|)
  {
    OwnedExactlyUpTo(events, |events|);
  }

  /** No request is granted a key that a holder of the same kind has already. */
  ghost predicate Apart(events: seq<Event>) {
    forall n :: 0 <= n < |events| && events[n].Reserve? ==> NewTo(Run(events[..n]), events[n])
  }

  ghost predicate NewTo(s: State, e: Event)
    requires e.Reserve?
  {
    forall id, k :: id in s.holders && s.holders[id].kind == e.kind && k in s.holders[id].keys
      ==> k !in Granted(s, e.kind, e.requested)
  }

  ghost predicate HoldersApart(s: State) {
    forall i, j, k :: i in s.holders && j in s.holders && i != j && s.holders[i].kind == s.holders[j].kind
      && k in s.holders[i].keys
      ==> k !in s.holders[j].keys
  }

  lemma StepKeepsApart(s: State, e: Event)
    requires Owned(s) && HoldersApart(s) && (e.Reserve? ==> NewTo(s, e))
    ensures Owned(Step(s, e)) && HoldersApart(Step(s, e))
  {
    StealsExactlyWhen(s, e);
  }

  /** Then, between its reservation and its release, no work under a key ever meets work of the other
      kind under that key. */
  lemma {:induction false} NoOneInterferes(events: seq<Event>)
    requires Apart(events)
    ensures Owned(Run(events)) && HoldersApart(Run(events))
    ensures var s := Run(events);
            forall i, j, k :: i in s.holders && j in s.holders && s.holders[i].kind.Provision? && s.holders[j].kind.Firmware?
              && k in s.holders[i].keys
              ==> k !in s.holders[j].keys
  {
    NeverBothActive(events);
    if events != [] {
      var n := |events| - 1;
      var before := events[..n];
      assert forall m :: 0 <= m < n ==> before[..m] == events[..m];
      NoOneInterferes(before);
      StepKeepsApart(Run(before), events[n]);
    }
  }

  /** Without that condition it can happen: the second firmware job on a key loses it to provisioning when
      the first one ends. */
  lemma OverlapInterferes(key: Key)
    requires key != ""
    ensures var s := Run([Reserve(0, Firmware, [key]), Reserve(1, Firmware, [key]), Release(0), Reserve(2, Provision, [key])]);
            && 1 in s.holders && s.holders[1] == Holder(Firmware, [key])
            && 2 in s.holders && s.holders[2] == Holder(Provision, [key])
  {
    var a, b, c, d := Reserve(0, Firmware, [key]), Reserve(1, Firmware, [key]), Release(0), Reserve(2, Provision, [key]);
    assert [a, b, c] + [d] == [a, b, c, d];
    TwoThenOne(key);
    GrantOne(key);
    RunMore([a, b, c], d);
  }

  lemma GrantOne(key: Key)
    requires key != ""
    ensures Picked([key], {}, false) == [key] && Elements([key]) == {key}
  {
    assert Picked([], {}, false) == [] && [key][1..] == [];
  }

  lemma TwoThenOne(key: Key)
    requires key != ""
    ensures Run([Reserve(0, Firmware, [key]), Reserve(1, Firmware, [key]), Release(0)]) ==
            State({}, {}, map[1 := Holder(Firmware, [key])])
  {
    var a, b, c := Reserve(0, Firmware, [key]), Reserve(1, Firmware, [key]), Release(0);
    GrantOne(key);
    assert [] + [a] == [a] && [a] + [b] == [a, b] && [a, b] + [c] == [a, b, c];
    RunMore([], a);
    assert Run([a]) == State({}, {key}, map[0 := Holder(Firmware, [key])]);
    RunMore([a], b);
    RunMore([a, b], c);
  }

  lemma RunMore(events: seq<Event>, e: Event)
    ensures Run(events + [e]) == Step(Run(events), e)
  {
    assert (events + [e])[..|events|] == events;
  }
}
