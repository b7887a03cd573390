/** The sliding-window rate limiter (internal/middleware/ratelimit.go). Times are nanoseconds. */
module RateLimiter {

  const SECOND := 1_000_000_000
  const EVICT_AGE := 600 * SECOND
  const MAX_KEYS := 4096

  /** The times of one key, latest last. */
  datatype Times = Never | Then(earlier: Times, at: int)

  function Size(t: Times): nat {
    if t.Never? then 0 else Size(t.earlier) + 1
  }

  /** The first `n` elements of a slice, as times. */
  function ListOf(s: seq<int>, n: nat): Times
    requires n <= |s|
  {
    if n == 0 then Never else Then(ListOf(s, n - 1), s[n - 1])
  }

  /** The times strictly after `cutoff`, in order. */
  function After(t: Times, cutoff: int): Times {
    match t
    case Never => Never
    case Then(earlier, at) => if at > cutoff then Then(After(earlier, cutoff), at) else After(earlier, cutoff)
  }

  type Entries = map<string, Times>

  datatype State = State(entries: Entries, hits: nat)

  const EMPTY := State(map[], 0)

  /** Every 128th hit tidies the store. */
  predicate GcDue(hits: nat) {
    hits % 128 == 0
  }

  function Lookup(entries: Entries, key: string): Times {
    if key in entries then entries[key] else Never
  }

  function Compact(entries: Entries, cutoff: int): Entries {
    map k | k in entries && After(entries[k], cutoff) != Never :: After(entries[k], cutoff)
  }

  /** `key` cut down to its times after `cutoff`. */
  function Kept(entries: Entries, key: string, cutoff: int): Entries {
    entries[key := After(Lookup(entries, key), cutoff)]
  }

  function Grown(entries: Entries, key: string, now: int): Entries {
    entries[key := Then(Lookup(entries, key), now)]
  }

  function Tidied(entries: Entries, due: bool, now: int): Entries {
    if due then Compact(entries, now - EVICT_AGE) else entries
  }

  predicate Admitted(entries: Entries, key: string, now: int, window: int, max: int) {
    Size(After(Lookup(entries, key), now - window)) < max
  }

  /** The entries once `key` is cut down to `len` times: refused or recorded, and tidied when that is due. */
  function Settled(kept: Entries, key: string, now: int, len: nat, max: int, gc: bool): Entries {
    var grown := Grown(kept, key, now);
    if len >= max then Tidied(kept, gc, now) else Tidied(grown, gc || |grown| > MAX_KEYS, now)
  }

  /** The state after a request. */
  function Next(s: State, key: string, now: int, window: int, max: int): State {
    var len := Size(After(Lookup(s.entries, key), now - window));
    State(Settled(Kept(s.entries, key, now - window), key, now, len, max, GcDue(s.hits + 1)), s.hits + 1)
  }

  lemma NextInHalves(s: State, kept: Entries, len: nat, key: string, now: int, window: int, max: int)
    requires kept == Kept(s.entries, key, now - window)
    requires len == Size(After(Lookup(s.entries, key), now - window))
    ensures Admitted(s.entries, key, now, window, max) == (len < max)
    ensures Next(s, key, now, window, max) == State(Settled(kept, key, now, len, max, (s.hits + 1) % 128 == 0), s.hits + 1)
  {
  }

  // ----- The store as the program keeps it -----

  /** A slice that starts at the beginning of its backing array. */
  datatype Slice = Slice(buf: array<int>, len: nat)

  lemma {:induction false} ListOfPrefix(s: seq<int>, t: seq<int>, n: nat)
    requires n <= |s| && n <= |t| && forall i :: 0 <= i < n ==> s[i] == t[i]
    ensures ListOf(s, n) == ListOf(t, n)
  {
    if n > 0 {
      ListOfPrefix(s, t, n - 1);
    }
  }

  lemma {:induction false} SizeOfList(s: seq<int>, n: nat)
    requires n <= |s|
    ensures Size(ListOf(s, n)) == n
  {
    if n > 0 {
      SizeOfList(s, n - 1);
    }
  }

  /** `kept := s[:0]`, then every element after the cutoff appended to it: the writes land in the array that
      is being read, behind the read position. */
  method FilterInPlace(s: Slice, cutoff: int) returns (kept: nat)
    requires s.len <= s.buf.Length
    modifies s.buf
    ensures kept <= s.len && ListOf(s.buf[..], kept) == After(ListOf(old(s.buf[..]), s.len), cutoff)
  {
    kept := 0;
    ghost var was := s.buf[..];
    for i := 0 to s.len
      invariant kept <= i
      invariant ListOf(s.buf[..], kept) == After(ListOf(was, i), cutoff)
      invariant forall j :: i <= j < s.len ==> s.buf[j] == was[j]
    {
      if s.buf[i] > cutoff {
        ghost var before := s.buf[..];
        s.buf[kept] := s.buf[i];
        ListOfPrefix(before, s.buf[..], kept);
        kept := kept + 1;
      }
    }
  }

  /** `append(s, x)`: in place while there is capacity, otherwise into a larger copy. */
  method Append(s: Slice, x: int) returns (r: Slice)
    requires s.len <= s.buf.Length
    modifies s.buf
    ensures r.len == s.len + 1 <= r.buf.Length && ListOf(r.buf[..], r.len) == Then(ListOf(old(s.buf[..]), s.len), x)
    ensures r.buf == s.buf || fresh(r.buf)
  {
    ghost var was := s.buf[..];
    if s.len < s.buf.Length {
      s.buf[s.len] := x;
      r := Slice(s.buf, s.len + 1);
    } else {
      var buf := new int[2 * s.len + 1];
      for i := 0 to s.len
        invariant forall j :: 0 <= j < i ==> buf[j] == was[j]
        invariant s.buf[..] == was
      {
        buf[i] := s.buf[i];
      }
      buf[s.len] := x;
      r := Slice(buf, s.len + 1);
    }
    ListOfPrefix(was, r.buf[..], s.len);
  }

  /** `entries` is what the store holds, as values; `owner` says which key each backing array serves. */
  class AttemptStore {
    var data: map<string, Slice>
    var hits: nat
    ghost var entries: Entries
    ghost var owner: map<array<int>, string>

    ghost predicate Holds(k: string)
      requires k in data
      reads `data, `entries, `owner, owner.Keys
    {
      var s := data[k];
      s.buf in owner && owner[s.buf] == k && s.len <= s.buf.Length && k in entries && entries[k] == ListOf(s.buf[..], s.len)
    }

    ghost predicate Valid()
      reads `data, `entries, `owner, owner.Keys
    {
      entries.Keys == data.Keys && forall k :: k in data ==> Holds(k)
    }

    ghost function Value(): State
      reads this
    {
      State(entries, hits)
    }

    constructor ()
      ensures Valid() && owner == map[] && Value() == EMPTY
    {
      data, hits, entries, owner := map[], 0, map[], map[];
    }

    /** Filters one key's slice in place. */
    method Shrink(key: string, cutoff: int)
      requires Valid() && key in data
      modifies this`data, this`entries, data[key].buf
      ensures Valid() && key in data
      ensures entries == old(entries)[key := After(old(entries[key]), cutoff)]
      ensures data[key].len == Size(entries[key])
    {
      assert Holds(key);
      var slice := data[key];
      var kept := FilterInPlace(slice, cutoff);
      data := data[key := Slice(slice.buf, kept)];
      entries := entries[key := ListOf(slice.buf[..], kept)];
      SizeOfList(slice.buf[..], kept);
      forall k | k in data
        ensures Holds(k)
      {
        if k != key {
          assert old(Holds(k));
        }
      }
    }

    /** Appends to one key's slice. */
    method Push(key: string, now: int)
      requires Valid() && key in data
      modifies this`data, this`entries, this`owner, data[key].buf
      ensures Valid()
      ensures forall b :: b in owner && b !in old(owner) ==> fresh(b)
      ensures entries == Grown(old(entries), key, now)
    {
      assert Holds(key);
      var grown := Append(data[key], now);
      data := data[key := grown];
      owner := owner[grown.buf := key];
      entries := entries[key := ListOf(grown.buf[..], grown.len)];
      forall k | k in data
        ensures Holds(k)
      {
        if k != key {
          assert old(Holds(k));
        }
      }
    }

    method Delete(key: string)
      requires Valid() && key in data
      modifies this`data, this`entries
      ensures Valid() && data == old(data) - {key} && entries == old(entries) - {key}
    {
      data, entries := data - {key}, entries - {key};
      forall k | k in data
        ensures Holds(k)
      {
        assert old(Holds(k));
      }
    }

    /** The first half of a request: the hit is counted and the slice of `key` filtered in place. A missing
        key reads as the empty slice. */
    method Arrive(key: string, cutoff: int) returns (len: nat)
      requires Valid()
      modifies this, owner.Keys
      ensures Valid() && key in data && hits == old(hits) + 1
      ensures forall b :: b in owner && b !in old(owner) ==> fresh(b)
      ensures entries == Kept(old(entries), key, cutoff)
      ensures len == Size(After(Lookup(old(entries), key), cutoff))
    {
      hits := hits + 1;
      if key in data {
        assert Holds(key);
        Shrink(key, cutoff);
        len := data[key].len;
      } else {
        AddKey(key);
        len := 0;
      }
    }

    method AddKey(key: string)
      requires Valid() && key !in data
      modifies this`data, this`entries, this`owner
      ensures Valid() && data.Keys == old(data.Keys) + {key}
      ensures forall b :: b in owner && b !in old(owner) ==> fresh(b)
      ensures entries == old(entries)[key := Never]
    {
      var none := new int[0];
      data := data[key := Slice(none, 0)];
      owner := owner[none := key];
      entries := entries[key := Never];
      assert Holds(key);
      forall k | k in data && k != key
        ensures Holds(k)
      {
        assert old(Holds(k));
      }
    }

    /** The second half of a request, `len` being what is left of the key's window. */
    method Settle(key: string, now: int, len: nat, max: int, gcNeeded: bool) returns (allowed: bool)
      requires Valid() && key in data
      modifies this`data, this`entries, this`owner, owner.Keys
      ensures Valid()
      ensures forall b :: b in owner && b !in old(owner) ==> fresh(b)
      ensures allowed == (len < max)
      ensures entries == Settled(old(entries), key, now, len, max, gcNeeded)
    {
      if len >= max {
        if gcNeeded {
          CompactStore(now);
        }
        return false;
      }
      assert Holds(key);
      Push(key, now);
      var size := |data.Keys|;
      assert size == |entries.Keys| == |entries|;
      if gcNeeded || size > MAX_KEYS {
        CompactStore(now);
      }
      return true;
    }

    method AllowRequest(now: int, key: string, window: int, max: int) returns (allowed: bool)
      requires Valid()
      modifies this, owner.Keys
      ensures Valid()
      ensures forall b :: b in owner && b !in old(owner) ==> fresh(b)
      ensures allowed == Admitted(old(entries), key, now, window, max)
      ensures Value() == Next(old(Value()), key, now, window, max)
    {
      var len := Arrive(key, now - window);
      NextInHalves(old(Value()), entries, len, key, now, window, max);
      allowed := Settle(key, now, len, max, hits % 128 == 0);
    }

    /** Filters every key in place and drops those left with nothing, in whatever order the keys come. */
    method CompactStore(now: int)
      requires Valid()
      modifies this`data, this`entries, owner.Keys
      ensures Valid()
      ensures entries == Compact(old(entries), now - EVICT_AGE)
    {
      var cutoff := now - EVICT_AGE;
      ghost var before := entries;
      var keys := data.Keys;
      CompactedAll(before, cutoff);
      while keys != {}
        invariant Valid() && keys <= data.Keys
        invariant owner == old(owner) && keys <= before.Keys
        invariant entries == Compacted(before, keys, cutoff)
        decreases keys
      {
        var key :| key in keys;
        CompactedStep(before, keys, key, cutoff);
        assert Holds(key);
        Shrink(key, cutoff);
        if data[key].len == 0 {
          Delete(key);
        }
        keys := keys - {key};
      }
    }
  }

  /** The entries with every key but those in `pending` compacted. */
  ghost function Compacted(entries: Entries, pending: set<string>, cutoff: int): Entries {
    map k | k in entries && (k in pending || After(entries[k], cutoff) != Never) ::
      if k in pending then entries[k] else After(entries[k], cutoff)
  }

  lemma CompactedAll(entries: Entries, cutoff: int)
    ensures Compacted(entries, entries.Keys, cutoff) == entries
    ensures Compacted(entries, {}, cutoff) == Compact(entries, cutoff)
  {
  }

  lemma CompactedStep(entries: Entries, pending: set<string>, key: string, cutoff: int)
    requires key in pending && key in entries
    ensures var now, kept := Compacted(entries, pending, cutoff), After(entries[key], cutoff);
            && key in now && now[key] == entries[key]
            && Compacted(entries, pending - {key}, cutoff) == if kept == Never then now[key := kept] - {key} else now[key := kept]
  {
  }

  // ----- The reference: a log that forgets nothing -----

  datatype Request = Request(key: string, at: int)

  predicate NaiveAllow(log: Entries, r: Request, window: int, max: int) {
    Size(After(Lookup(log, r.key), r.at - window)) < max
  }

  /** The log after a request: every admission ever granted stays. */
  function Logged(log: Entries, r: Request, window: int, max: int): Entries {
    if NaiveAllow(log, r, window, max) then Grown(log, r.key, r.at) else log
  }

  /** The limiter over a run of requests, from an empty store. */
  function Limit(requests: seq<Request>, window: int, max: int): (State, seq<bool>) {
    if requests == [] then (EMPTY, [])
    else
      var n := |requests| - 1;
      var (state, answers) := Limit(requests[..n], window, max);
      (Next(state, requests[n].key, requests[n].at, window, max),
       answers + [Admitted(state.entries, requests[n].key, requests[n].at, window, max)])
  }

  /** The log over the same run. */
  function Naive(requests: seq<Request>, window: int, max: int): (Entries, seq<bool>) {
    if requests == [] then (map[], [])
    else
      var n := |requests| - 1;
      var (log, answers) := Naive(requests[..n], window, max);
      (Logged(log, requests[n], window, max), answers + [NaiveAllow(log, requests[n], window, max)])
  }

  ghost predicate ClockOk(requests: seq<Request>) {
    forall i, j :: 0 <= i < j < |requests| ==> requests[i].at <= requests[j].at
  }

  lemma {:induction false} AfterAfter(t: Times, c: int, d: int)
    requires c <= d
    ensures After(After(t, c), d) == After(t, d)
  {
    if t.Then? {
      AfterAfter(t.earlier, c, d);
    }
  }

  /** From the cutoff `from` on, the store and the log hold the same. */
  ghost predicate Agree(entries: Entries, log: Entries, from: int) {
    forall k, c :: c >= from ==> After(Lookup(entries, k), c) == After(Lookup(log, k), c)
  }

  lemma TidiedAgrees(entries: Entries, log: Entries, due: bool, now: int, from: int)
    requires Agree(entries, log, from) && now - EVICT_AGE <= from
    ensures Agree(Tidied(entries, due, now), log, from)
  {
    var cutoff := now - EVICT_AGE;
    forall k, c | c >= from
      ensures After(Lookup(Compact(entries, cutoff), k), c) == After(Lookup(log, k), c)
    {
      AfterAfter(Lookup(entries, k), cutoff, c);
    }
  }

  lemma KeptAgrees(entries: Entries, log: Entries, key: string, from: int, low: int)
    requires Agree(entries, log, from) && from <= low
    ensures Agree(Kept(entries, key, low), log, low)
  {
    forall k, c | c >= low
      ensures After(Lookup(Kept(entries, key, low), k), c) == After(Lookup(log, k), c)
    {
      AfterAfter(Lookup(entries, k), low, c);
    }
  }

  lemma GrownAgrees(entries: Entries, log: Entries, key: string, at: int, low: int)
    requires Agree(entries, log, low)
    ensures Agree(Grown(entries, key, at), Grown(log, key, at), low)
  {
    forall k, c | c >= low
      ensures After(Lookup(Grown(entries, key, at), k), c) == After(Lookup(Grown(log, key, at), k), c)
    {
      assert After(Lookup(entries, k), c) == After(Lookup(log, k), c);
    }
  }

  lemma StepAgrees(s: State, log: Entries, r: Request, window: int, max: int, from: int)
    requires window <= EVICT_AGE && Agree(s.entries, log, from) && from <= r.at - window
    ensures Admitted(s.entries, r.key, r.at, window, max) == NaiveAllow(log, r, window, max)
    ensures Agree(Next(s, r.key, r.at, window, max).entries, Logged(log, r, window, max), r.at - window)
  {
    var low := r.at - window;
    var kept, gc := Kept(s.entries, r.key, low), GcDue(s.hits + 1);
    var grown := Grown(kept, r.key, r.at);
    KeptAgrees(s.entries, log, r.key, from, low);
    GrownAgrees(kept, log, r.key, r.at, low);
    TidiedAgrees(kept, log, gc, r.at, low);
    TidiedAgrees(grown, Grown(log, r.key, r.at), gc || |grown| > MAX_KEYS, r.at, low);
  }

  lemma {:induction false} SideBySide(requests: seq<Request>, window: int, max: int)
    requires ClockOk(requests) && window <= EVICT_AGE
    ensures Limit(requests, window, max).1 == Naive(requests, window, max).1
    ensures requests != [] ==>
      Agree(Limit(requests, window, max).0.entries, Naive(requests, window, max).0, requests[|requests| - 1].at - window)
  {
    if requests != [] {
      var n := |requests| - 1;
      SideBySide(requests[..n], window, max);
      var from := if n == 0 then requests[n].at - window else requests[n - 1].at - window;
      StepAgrees(Limit(requests[..n], window, max).0, Naive(requests[..n], window, max).0, requests[n], window, max, from);
    }
  }

  /** Filtering and evicting never change an answer: over every run the limiter says what the log that
      keeps all admissions says. */
  lemma AgreesWithLog(requests: seq<Request>, window: int, max: int)
    requires ClockOk(requests) && window <= EVICT_AGE
    ensures Limit(requests, window, max).1 == Naive(requests, window, max).1
  {
    SideBySide(requests, window, max);
  }

  /** The times of the requests of one key that were answered with yes, in order. */
  function Granted(requests: seq<Request>, answers: seq<bool>, key: string): Times
    requires |answers| == |requests|
  {
    if requests == [] then Never
    else
      var n := |requests| - 1;
      var earlier := Granted(requests[..n], answers[..n], key);
      if answers[n] && requests[n].key == key then Then(earlier, requests[n].at) else earlier
  }

  lemma {:induction false} LogIsGranted(requests: seq<Request>, window: int, max: int, key: string)
    ensures |Naive(requests, window, max).1| == |requests|
    ensures Lookup(Naive(requests, window, max).0, key) == Granted(requests, Naive(requests, window, max).1, key)
  {
    if requests != [] {
      var n := |requests| - 1;
      LogIsGranted(requests[..n], window, max, key);
      var answers := Naive(requests, window, max).1;
      assert answers[..n] == Naive(requests[..n], window, max).1;
    }
  }

  /** How many of the times lie in (low, high]. */
  function Within(t: Times, low: int, high: int): nat {
    match t
    case Never => 0
    case Then(earlier, at) => Within(earlier, low, high) + if low < at <= high then 1 else 0
  }

  lemma {:induction false} WithinAfter(t: Times, low: int, high: int, cutoff: int)
    requires cutoff <= low
    ensures Within(t, low, high) <= Size(After(t, cutoff))
  {
    if t.Then? {
      WithinAfter(t.earlier, low, high, cutoff);
    }
  }

  lemma {:induction false} LogBound(requests: seq<Request>, window: int, max: nat, key: string, t: int)
    requires ClockOk(requests)
    ensures Within(Lookup(Naive(requests, window, max).0, key), t - window, t) <= max
  {
    if requests != [] {
      var n := |requests| - 1;
      LogBound(requests[..n], window, max, key, t);
      var log, r := Naive(requests[..n], window, max).0, requests[n];
      if r.key == key && NaiveAllow(log, r, window, max) && r.at <= t {
        WithinAfter(Lookup(log, key), t - window, t, r.at - window);
      }
    }
  }

  /** No stretch of time as long as the window ever sees more than `max` granted requests of one key,
      wherever it is laid. */
  lemma WindowBound(requests: seq<Request>, window: int, max: nat, key: string, t: int)
    requires ClockOk(requests) && window <= EVICT_AGE
    ensures |Limit(requests, window, max).1| == |requests|
    ensures Within(Granted(requests, Limit(requests, window, max).1, key), t - window, t) <= max
  {
    AgreesWithLog(requests, window, max);
    LogIsGranted(requests, window, max, key);
    LogBound(requests, window, max, key, t);
  }

  /** A refusal means a full window: the next request after any run is refused exactly when `max` requests
      of its key were granted since its window opened. */
  lemma RefusedOnlyWhenFull(requests: seq<Request>, r: Request, window: int, max: int)
    requires ClockOk(requests + [r]) && window <= EVICT_AGE
    ensures |Limit(requests, window, max).1| == |requests|
    ensures Admitted(Limit(requests, window, max).0.entries, r.key, r.at, window, max) <==>
            Size(After(Granted(requests, Limit(requests, window, max).1, r.key), r.at - window)) < max
  {
    var n := |requests|;
    forall i, j | 0 <= i < j < n
      ensures requests[i].at <= requests[j].at
    {
      assert (requests + [r])[i].at <= (requests + [r])[j].at;
    }
    SideBySide(requests, window, max);
    LogIsGranted(requests, window, max, r.key);
    assert n > 0 ==> (requests + [r])[n - 1].at <= (requests + [r])[n].at;
    var from := if n == 0 then r.at - window else requests[n - 1].at - window;
    StepAgrees(Limit(requests, window, max).0, Naive(requests, window, max).0, r, window, max, from);
  }

  // ----- Memory -----

  predicate Has(t: Times, at: int) {
    t.Then? && (t.at == at || Has(t.earlier, at))
  }

  lemma {:induction false} AfterHas(t: Times, cutoff: int, at: int)
    ensures Has(After(t, cutoff), at) <==> Has(t, at) && at > cutoff
  {
    if t.Then? {
      AfterHas(t.earlier, cutoff, at);
    }
  }

  /** The key was admitted in the last ten minutes, and no older time of it is left. */
  ghost predicate Recent(t: Times, now: int) {
    t.Then? && forall at :: Has(t, at) ==> at > now - 600_000_000_000
  }

  /** When a tidying falls due: with every 128th hit, and when an admission leaves more than 4096 keys. */
  predicate Tidies(s: State, key: string, now: int, window: int, max: int) {
    (s.hits + 1) % 128 == 0 || (Admitted(s.entries, key, now, window, max) && |s.entries.Keys + {key}| > 4096)
  }

  /** A request that tidies leaves only keys of the last ten minutes behind, and no other request touches any key but
      its own. */
  lemma TidiesExactly(s: State, key: string, now: int, window: int, max: int)
    ensures var t := Next(s, key, now, window, max).entries;
            if Tidies(s, key, now, window, max) then forall k :: k in t ==> k in s.entries.Keys + {key} && Recent(t[k], now)
            else t.Keys == s.entries.Keys + {key} && forall k :: k in s.entries && k != key ==> t[k] == s.entries[k]
  {
    var kept := Kept(s.entries, key, now - window);
    var grown := Grown(kept, key, now);
    assert kept.Keys == s.entries.Keys + {key} && grown.Keys == s.entries.Keys + {key};
    assert |grown| == |grown.Keys|;
    CompactRecent(kept, now);
    CompactRecent(grown, now);
  }

  lemma CompactRecent(entries: Entries, now: int)
    ensures forall k :: k in Compact(entries, now - EVICT_AGE) ==> k in entries && Recent(Compact(entries, now - EVICT_AGE)[k], now)
  {
    var cutoff := now - EVICT_AGE;
    forall k | k in Compact(entries, cutoff)
      ensures Recent(Compact(entries, cutoff)[k], now)
    {
      forall at
        ensures Has(After(entries[k], cutoff), at) ==> at > cutoff
      {
        AfterHas(entries[k], cutoff, at);
      }
    }
  }
}
