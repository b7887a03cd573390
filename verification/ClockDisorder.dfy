/** The rate limiter when requests enter out of order: the clock is read before the lock is taken
    (internal/middleware/ratelimit.go), so a request can carry an earlier time than one that entered before. */
module ClockDisorder {
  import opened RateLimiter

  /** Every time is at least the largest earlier one minus `d`. */
  ghost predicate Late(requests: seq<Request>, d: int) {
    forall i, j :: 0 <= i < j < |requests| ==> requests[j].at >= requests[i].at - d
  }

  /** The requests the limiter has granted, by key. */
  function Grants(requests: seq<Request>, window: int, max: int): Entries {
    if requests == [] then map[]
    else
      var n := |requests| - 1;
      var grants, r := Grants(requests[..n], window, max), requests[n];
      if Admitted(Limit(requests[..n], window, max).0.entries, r.key, r.at, window, max) then Grown(grants, r.key, r.at)
      else grants
  }

  /** They are the requests that the limiter answered with yes. */
  lemma {:induction false} GrantsAreGranted(requests: seq<Request>, window: int, max: int, key: string)
    ensures |Limit(requests, window, max).1| == |requests|
    ensures Lookup(Grants(requests, window, max), key) == Granted(requests, Limit(requests, window, max).1, key)
  {
    if requests != [] {
      var n := |requests| - 1;
      GrantsAreGranted(requests[..n], window, max, key);
      assert Limit(requests, window, max).1[..n] == Limit(requests[..n], window, max).1;
    }
  }

  // ----- How far the bound reaches -----

  /** One request keeps the store and the limiter's own grants in agreement from the latest cutoff on. */
  lemma StepKeepsGrants(s: State, grants: Entries, r: Request, window: int, max: int, from: int)
    requires window <= EVICT_AGE && Agree(s.entries, grants, from) && r.at - window <= from
    ensures var grants' := if Admitted(s.entries, r.key, r.at, window, max) then Grown(grants, r.key, r.at) else grants;
            Agree(Next(s, r.key, r.at, window, max).entries, grants', from)
  {
    var low := r.at - window;
    var kept := Kept(s.entries, r.key, low);
    assert Agree(kept, grants, from) by {
      forall k, c | c >= from
        ensures After(Lookup(kept, k), c) == After(Lookup(grants, k), c)
      {
        AfterAfter(Lookup(s.entries, k), low, c);
      }
    }
    TidiedAgrees(kept, grants, GcDue(s.hits + 1), r.at, from);
    var grown, grants' := Grown(kept, r.key, r.at), Grown(grants, r.key, r.at);
    assert Agree(grown, grants', from) by {
      forall k, c | c >= from
        ensures After(Lookup(grown, k), c) == After(Lookup(grants', k), c)
      {
        assert After(Lookup(kept, k), c) == After(Lookup(grants, k), c);
      }
    }
    TidiedAgrees(grown, grants', GcDue(s.hits + 1) || |grown| > MAX_KEYS, r.at, from);
  }

  /** `latest` is at least every time of the run. */
  lemma {:induction false} StoreHasGrants(requests: seq<Request>, window: int, max: int, latest: int)
    requires window <= EVICT_AGE && forall i :: 0 <= i < |requests| ==> requests[i].at <= latest
    ensures Agree(Limit(requests, window, max).0.entries, Grants(requests, window, max), latest - window)
  {
    if requests != [] {
      var n := |requests| - 1;
      StoreHasGrants(requests[..n], window, max, latest);
      StepKeepsGrants(Limit(requests[..n], window, max).0, Grants(requests[..n], window, max), requests[n], window, max,
                      latest - window);
    }
  }

  lemma {:induction false} AfterSmaller(t: Times, c: int, d: int)
    requires c <= d
    ensures Size(After(t, d)) <= Size(After(t, c))
  {
    if t.Then? {
      AfterSmaller(t.earlier, c, d);
    }
  }

  /** With times at most `d` late no stretch up to `window - d` sees more than `max` grants of a key. */
  lemma {:induction false} ShortStretch(requests: seq<Request>, window: int, max: nat, d: nat, length: int, key: string, t: int)
    requires Late(requests, d) && d <= window <= EVICT_AGE && length <= window - d
    ensures Within(Lookup(Grants(requests, window, max), key), t - length, t) <= max
  {
    if requests != [] {
      var n := |requests| - 1;
      var before, r := requests[..n], requests[n];
      ShortStretch(before, window, max, d, length, key, t);
      var grants, entries := Grants(before, window, max), Limit(before, window, max).0.entries;
      if r.key == key && t - length < r.at <= t && Admitted(entries, key, r.at, window, max) {
        StoreHasGrants(before, window, max, r.at + d);
        var c := t - length;
        assert After(Lookup(entries, key), c) == After(Lookup(grants, key), c);
        WithinAfter(Lookup(grants, key), c, t, c);
        AfterSmaller(Lookup(entries, key), r.at - window, c);
      }
    }
  }

  // ----- And no farther -----

  const KEY := "k"

  function Burst(n: nat, at: int): seq<Request> {
    if n == 0 then [] else Burst(n - 1, at) + [Request(KEY, at)]
  }

  /** `t` with `n` more times `at`. */
  function Repeated(t: Times, at: int, n: nat): Times {
    if n == 0 then t else Then(Repeated(t, at, n - 1), at)
  }

  lemma {:induction false} AfterKeeps(t: Times, c: int, d: int)
    requires d <= c
    ensures After(After(t, c), d) == After(t, c)
  {
    if t.Then? {
      AfterKeeps(t.earlier, c, d);
    }
  }

  /** What a grant leaves under its key, tidied or not. */
  lemma GrantLeaves(s: State, at: int, window: int, max: int)
    requires 0 <= window <= EVICT_AGE && Admitted(s.entries, KEY, at, window, max)
    ensures Lookup(Next(s, KEY, at, window, max).entries, KEY) == Then(After(Lookup(s.entries, KEY), at - window), at)
  {
    AfterKeeps(Lookup(s.entries, KEY), at - window, at - EVICT_AGE);
  }

  lemma {:induction false} RepeatedAfter(t: Times, at: int, n: nat, c: int)
    ensures Size(Repeated(t, at, n)) == Size(t) + n
    ensures at > c ==> After(Repeated(t, at, n), c) == Repeated(After(t, c), at, n)
    ensures at <= c ==> After(Repeated(t, at, n), c) == After(t, c)
  {
    if n > 0 {
      RepeatedAfter(t, at, n - 1, c);
    }
  }

  /** What a run has left in the store and in the grants of the key. */
  ghost predicate Leaves(run: seq<Request>, window: int, max: int, stored: Times, granted: Times) {
    Lookup(Limit(run, window, max).0.entries, KEY) == stored && Lookup(Grants(run, window, max), KEY) == granted
  }

  /** One more request under the key, with room for it. */
  lemma OneGranted(base: seq<Request>, run: seq<Request>, at: int, window: int, max: int, t: Times, g: Times)
    requires 0 < window <= EVICT_AGE && run == base + [Request(KEY, at)]
    requires Leaves(base, window, max, t, g) && Size(After(t, at - window)) < max
    ensures Leaves(run, window, max, Then(After(t, at - window), at), Then(g, at))
  {
    assert run[..|base|] == base;
    GrantLeaves(Limit(base, window, max).0, at, window, max);
  }

  /** Requests at one time are granted while there is room. */
  lemma {:induction false} BurstGranted(base: seq<Request>, n: nat, at: int, window: int, max: int, t: Times, g: Times)
    requires 0 < window <= EVICT_AGE && Leaves(base, window, max, t, g)
    requires After(t, at - window) == t && Size(t) + n <= max
    ensures Leaves(base + Burst(n, at), window, max, Repeated(t, at, n), Repeated(g, at, n))
  {
    if n == 0 {
      assert base + Burst(n, at) == base;
    } else {
      BurstGranted(base, n - 1, at, window, max, t, g);
      OneMoreGranted(base, n, at, window, max, t, g);
    }
  }

  lemma OneMoreGranted(base: seq<Request>, n: nat, at: int, window: int, max: int, t: Times, g: Times)
    requires 0 < window <= EVICT_AGE && n > 0 && After(t, at - window) == t && Size(t) + n <= max
    requires Leaves(base + Burst(n - 1, at), window, max, Repeated(t, at, n - 1), Repeated(g, at, n - 1))
    ensures Leaves(base + Burst(n, at), window, max, Repeated(t, at, n), Repeated(g, at, n))
  {
    var before := base + Burst(n - 1, at);
    RepeatedAfter(t, at, n - 1, at - window);
    assert base + Burst(n, at) == before + [Request(KEY, at)];
    OneGranted(before, base + Burst(n, at), at, window, max, Repeated(t, at, n - 1), Repeated(g, at, n - 1));
  }

  /** `max` requests at 0 and one at `window`: the last one makes the limiter forget the first. */
  function Forgetful(window: int, max: nat): seq<Request> {
    Burst(max, 0) + [Request(KEY, window)]
  }

  lemma ForgetfulLeaves(window: int, max: nat)
    requires 0 < window <= EVICT_AGE && max > 0
    ensures Leaves(Forgetful(window, max), window, max, Then(Never, window), Then(Repeated(Never, 0, max), window))
  {
    var first := Burst(max, 0);
    BurstGranted([], max, 0, window, max, Never, Never);
    assert [] + first == first;
    RepeatedAfter(Never, 0, max, 0);
    OneGranted(first, Forgetful(window, max), window, window, max, Repeated(Never, 0, max), Repeated(Never, 0, max));
  }

  /** The run that exceeds every longer stretch. */
  function Overfull(window: int, max: nat, d: int): seq<Request>
    requires max > 0
  {
    Forgetful(window, max) + Burst(max - 1, window - d)
  }

  lemma {:induction false} BurstAll(n: nat, at: int)
    ensures |Burst(n, at)| == n && forall i :: 0 <= i < n ==> Burst(n, at)[i] == Request(KEY, at)
  {
    if n > 0 {
      BurstAll(n - 1, at);
    }
  }

  lemma OverfullLate(window: int, max: nat, d: nat)
    requires d <= window && max > 0
    ensures Late(Overfull(window, max, d), d) && Late(Forgetful(window, max), 0)
    ensures Late(Forgetful(window, max) + [Request(KEY, window - d)], d)
  {
    BurstAll(max, 0);
    BurstAll(max - 1, window - d);
  }

  lemma {:induction false} WithinRepeated(t: Times, at: int, n: nat, low: int, high: int)
    ensures Within(Repeated(t, at, n), low, high) == Within(t, low, high) + if low < at <= high then n else 0
  {
    if n > 0 {
      WithinRepeated(t, at, n - 1, low, high);
    }
  }

  lemma OverfullGrants(window: int, max: nat, d: nat, length: int)
    requires d <= window <= EVICT_AGE && 0 < window && max >= 2 && length > window - d
    ensures Within(Lookup(Grants(Overfull(window, max, d), window, max), KEY), window - d - length, window - d) > max
  {
    var low, high := window - d - length, window - d;
    var base, one := Forgetful(window, max), Then(Never, window);
    ForgetfulLeaves(window, max);
    assert After(one, high - window) == one && Size(one) == 1;
    BurstGranted(base, max - 1, high, window, max, one, Then(Repeated(Never, 0, max), window));
    CountOverfull(window, max, low, high);
  }

  lemma CountOverfull(window: int, max: nat, low: int, high: int)
    requires low < 0 <= high && max >= 2
    ensures Within(Repeated(Then(Repeated(Never, 0, max), window), high, max - 1), low, high) > max
  {
    WithinRepeated(Then(Repeated(Never, 0, max), window), high, max - 1, low, high);
    WithinRepeated(Never, 0, max, low, high);
  }

  /** The grants of a key in the stretch of `length` that ends at `t`. */
  function GrantsIn(requests: seq<Request>, window: int, max: int, key: string, length: int, t: int): nat {
    Within(Lookup(Grants(requests, window, max), key), t - length, t)
  }

  /** Whether in every run with times at most `d` late no stretch of `length` sees more than `max` grants of a key. */
  ghost predicate Holds(window: int, max: nat, d: nat, length: int) {
    forall requests, key, t :: Late(requests, d) ==> GrantsIn(requests, window, max, key, length, t) <= max
  }

  /** The disorder comes off the window, exactly. */
  lemma BoundExactly(window: int, max: nat, d: nat, length: int)
    requires d <= window <= EVICT_AGE && 0 < window && max >= 2
    ensures Holds(window, max, d, length) <==> length <= window - d
  {
    if length <= window - d {
      forall requests, key, t | Late(requests, d)
        ensures GrantsIn(requests, window, max, key, length, t) <= max
      {
        ShortStretch(requests, window, max, d, length, key, t);
      }
    } else {
      OverfullLate(window, max, d);
      OverfullGrants(window, max, d, length);
      assert GrantsIn(Overfull(window, max, d), window, max, KEY, length, window - d) > max;
    }
  }

  // ----- Agreement with the complete log -----

  /** After the forgetful run the late request is granted by the limiter and refused by the log. */
  lemma LateDiffers(window: int, max: nat, d: nat)
    requires 0 < d <= window <= EVICT_AGE && max >= 2
    ensures var run := Forgetful(window, max) + [Request(KEY, window - d)];
            Late(run, d) && Limit(run, window, max).1 != Naive(run, window, max).1
  {
    var base, r := Forgetful(window, max), Request(KEY, window - d);
    var run := base + [r];
    assert run[..|base|] == base;
    OverfullLate(window, max, d);
    ForgetfulLeaves(window, max);
    AgreesWithLog(base, window, max);
    LogIsGranted(base, window, max, KEY);
    GrantsAreGranted(base, window, max, KEY);
    var c: int := r.at - window;
    RepeatedAfter(Never, 0, max, c);
    assert Admitted(Limit(base, window, max).0.entries, KEY, r.at, window, max);
    assert !NaiveAllow(Naive(base, window, max).0, r, window, max);
    var n := |base|;
    GrantsAreGranted(run, window, max, KEY);
    LogIsGranted(run, window, max, KEY);
    assert Limit(run, window, max).1[n] != Naive(run, window, max).1[n];
  }

  ghost predicate AgreesAlways(window: int, max: nat, d: nat) {
    forall requests :: Late(requests, d) ==> Limit(requests, window, max).1 == Naive(requests, window, max).1
  }

  /** The limiter answers as the log that forgets nothing exactly while nothing is late at all. */
  lemma AgreesExactly(window: int, max: nat, d: nat)
    requires d <= window <= EVICT_AGE && max >= 2
    ensures AgreesAlways(window, max, d) <==> d == 0
  {
    if d == 0 {
      forall requests | Late(requests, d)
        ensures Limit(requests, window, max).1 == Naive(requests, window, max).1
      {
        AgreesWithLog(requests, window, max);
      }
    } else {
      LateDiffers(window, max, d);
    }
  }
}
