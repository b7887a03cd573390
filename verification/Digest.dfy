/** Digest authentication of the device client (internal/core/shellyclient/client.go): parsing of challenge
    parameters, and the request counter. */
module Digest {
  import opened Text

  // ----- Challenge parameters -----

  predicate IsSep(c: char) {
    c == ' ' || c == ',' || c == '\t'
  }

  function SkipSep(s: string): (r: string)
    ensures |r| <= |s|
  {
    if s != "" && IsSep(s[0]) then SkipSep(s[1..]) else s
  }

  /** The index of the first `c`, or the length. */
  function Find(s: string, c: char): (n: nat)
    ensures n <= |s|
  {
    if s == "" || s[0] == c then 0 else 1 + Find(s[1..], c)
  }

  /** A value read from the front of a text, and what follows it. */
  datatype Read = Read(value: string, rest: string)

  /** The value of a parameter: quoted up to the next quote, or bare up to the next comma. */
  function ReadValue(s: string): (r: Read)
    ensures |r.rest| <= |s|
  {
    if s != "" && s[0] == '"' then
      var body := s[1..];
      var q := Find(body, '"');
      Read(body[..q], if q < |body| then body[q + 1..] else "")
    else
      var c := Find(s, ',');
      Read(Trim(s[..c]), s[c..])
  }

  function Parse(s: string, out: map<string, string>): map<string, string>
    decreases |s|
  {
    var t := SkipSep(s);
    var e := Find(t, '=');
    if e >= |t| then out
    else
      var key, v := Trim(t[..e]), ReadValue(t[e + 1..]);
      Parse(v.rest, if key != "" then out[key := v.value] else out)
  }

  method SkipSeparators(s: string, from: nat) returns (i: nat)
    requires from <= |s|
    ensures from <= i <= |s| && s[i..] == SkipSep(s[from..])
  {
    i := from;
    while i < |s| && IsSep(s[i])
      invariant from <= i <= |s| && SkipSep(s[i..]) == SkipSep(s[from..])
    {
      assert s[i..][1..] == s[i + 1..];
      i := i + 1;
    }
  }

  method FindFrom(s: string, from: nat, c: char) returns (i: nat)
    requires from <= |s|
    ensures i == from + Find(s[from..], c) && i <= |s|
  {
    i := from;
    while i < |s| && s[i] != c
      invariant from <= i <= |s| && i + Find(s[i..], c) == from + Find(s[from..], c)
    {
      assert s[i..][1..] == s[i + 1..];
      i := i + 1;
    }
  }

  lemma Slices(s: string, from: nat, to: nat)
    requires from <= to <= |s|
    ensures s[from..][..to - from] == s[from..to] && s[from..][to - from..] == s[to..]
  {
  }

  lemma QuotedAt(s: string, from: nat, q: nat)
    requires from < |s| && s[from] == '"' && q == from + 1 + Find(s[from + 1..], '"')
    ensures q <= |s|
    ensures ReadValue(s[from..]) == Read(s[from + 1..q], if q < |s| then s[q + 1..] else "")
  {
    Slices(s, from, from + 1);
    Slices(s, from + 1, q);
    if q < |s| {
      Slices(s, from + 1, q + 1);
    }
  }

  lemma BareAt(s: string, from: nat, c: nat)
    requires from <= |s| && (from == |s| || s[from] != '"') && c == from + Find(s[from..], ',')
    ensures c <= |s|
    ensures ReadValue(s[from..]) == Read(Trim(s[from..c]), s[c..])
  {
    Slices(s, from, c);
  }

  method ReadValueAt(s: string, from: nat) returns (value: string, i: nat)
    requires from <= |s|
    ensures from <= i <= |s| && Read(value, s[i..]) == ReadValue(s[from..])
  {
    if from < |s| && s[from] == '"' {
      i := FindFrom(s, from + 1, '"');
      QuotedAt(s, from, i);
      value := s[from + 1..i];
      if i < |s| {
        i := i + 1;
      }
    } else {
      i := FindFrom(s, from, ',');
      BareAt(s, from, i);
      value := Trim(s[from..i]);
    }
  }

  lemma ParseStops(s: string, t: string, out: map<string, string>)
    requires SkipSep(s) == t && Find(t, '=') >= |t|
    ensures Parse(s, out) == out
  {
  }

  /** One turn of the loop: `t` is what is left of `s` after separators. */
  lemma ParseTurn(s: string, t: string, e: nat, v: Read, out: map<string, string>)
    requires SkipSep(s) == t && Find(t, '=') == e < |t| && ReadValue(t[e + 1..]) == v
    ensures var key := Trim(t[..e]);
            Parse(s, out) == Parse(v.rest, if key != "" then out[key := v.value] else out)
  {
  }

  /** One turn of the loop: reads a parameter from position `i`, unless there is none left. */
  method ReadPair(s: string, i: nat, out: map<string, string>) returns (more: bool, next: nat, out': map<string, string>)
    requires i < |s|
    ensures i <= next <= |s| && (more ==> i < next)
    ensures more ==> Parse(s[i..], out) == Parse(s[next..], out')
    ensures !more ==> Parse(s[i..], out) == out == out'
  {
    more, next, out' := false, i, out;
    var keyStart := SkipSeparators(s, i);
    var keyEnd := FindFrom(s, keyStart, '=');
    var t := s[keyStart..];
    if keyEnd >= |s| {
      ParseStops(s[i..], t, out);
    } else {
      var key := Trim(t[..keyEnd - keyStart]);
      var value;
      value, next := ReadValueAt(s, keyEnd + 1);
      Slices(s, keyStart, keyEnd + 1);
      ParseTurn(s[i..], t, keyEnd - keyStart, Read(value, s[next..]), out);
      more := true;
      if key != "" {
        out' := out[key := value];
      }
    }
  }

  method SplitDigestPairs(s: string) returns (out: map<string, string>)
    ensures out == Parse(s, map[])
  {
    out := map[];
    var i, more := 0, true;
    assert s[0..] == s;
    while i < |s| && more
      invariant i <= |s|
      invariant if more then Parse(s[i..], out) == Parse(s, map[]) else out == Parse(s, map[])
      decreases |s| - i, more
    {
      more, i, out := ReadPair(s, i, out);
    }
  }

  // ----- Printing and reading back -----

  /** A parameter as a server sends it, quoted or bare. */
  datatype Param = Param(key: string, value: string, quoted: bool)

  predicate WellFormed(p: Param) {
    && p.key != "" && Trim(p.key) == p.key && p.key[0] != ',' && p.key[0] != ' ' && p.key[0] != '\t' && '=' !in p.key
    && if p.quoted then '"' !in p.value
       else Trim(p.value) == p.value && ',' !in p.value && (p.value == "" || p.value[0] != '"')
  }

  function Print(p: Param): string {
    p.key + "=" + if p.quoted then "\"" + p.value + "\"" else p.value
  }

  /** A comma and anything else that separates. */
  predicate Separates(sep: string) {
    sep != "" && sep[0] == ',' && forall i :: 0 <= i < |sep| ==> IsSep(sep[i])
  }

  function PrintAll(ps: seq<Param>, sep: string): string {
    if ps == [] then "" else Print(ps[0]) + if |ps| == 1 then "" else sep + PrintAll(ps[1..], sep)
  }

  /** The parameters as a map; of repeated keys the last one counts. */
  function Collect(ps: seq<Param>, out: map<string, string>): map<string, string> {
    if ps == [] then out else Collect(ps[1..], out[ps[0].key := ps[0].value])
  }

  lemma {:induction false} FindSkips(a: string, c: char, b: string)
    requires c !in a
    ensures Find(a + [c] + b, c) == |a|
    ensures Find(a, c) == |a|
  {
    if a != "" {
      FindSkips(a[1..], c, b);
      assert (a + [c] + b)[1..] == a[1..] + [c] + b;
    }
  }

  lemma {:induction false} SkipAll(sep: string, s: string)
    requires forall i :: 0 <= i < |sep| ==> IsSep(sep[i])
    requires s == "" || !IsSep(s[0])
    ensures SkipSep(sep + s) == s
  {
    if sep == "" {
      assert sep + s == s;
    } else {
      SkipAll(sep[1..], s);
      assert (sep + s)[1..] == sep[1..] + s;
    }
  }

  /** A value is read back whole, commas and equals signs and all, whatever follows it. */
  lemma ReadPrinted(p: Param, tail: string)
    requires WellFormed(p) && (tail == "" || tail[0] == ',')
    ensures ReadValue((if p.quoted then "\"" + p.value + "\"" else p.value) + tail) == Read(p.value, tail)
  {
    if p.quoted {
      var s := "\"" + p.value + "\"" + tail;
      FindSkips(p.value, '"', tail);
      assert s[1..] == p.value + ['"'] + tail;
      assert (p.value + ['"'] + tail)[|p.value| + 1..] == tail;
    } else {
      var s := p.value + tail;
      if tail == "" {
        FindSkips(p.value, ',', "");
        assert s == p.value;
      } else {
        FindSkips(p.value, ',', tail[1..]);
        assert s == p.value + [','] + tail[1..];
      }
      assert s[..|p.value|] == p.value && s[|p.value|..] == tail;
      assert s == "" || s[0] != '"';
    }
  }

  lemma ParsePrinted(sep: string, p: Param, tail: string, out: map<string, string>)
    requires forall i :: 0 <= i < |sep| ==> IsSep(sep[i])
    requires WellFormed(p) && (tail == "" || tail[0] == ',')
    ensures Parse(sep + (Print(p) + tail), out) == Parse(tail, out[p.key := p.value])
  {
    var value := (if p.quoted then "\"" + p.value + "\"" else p.value) + tail;
    var t := p.key + ['='] + value;
    assert Print(p) + tail == t;
    assert t[0] == p.key[0];
    SkipAll(sep, t);
    ReadPrinted(p, tail);
    ParseOne(sep + t, p.key, value, Read(p.value, tail), out);
  }

  /** One turn of the loop: `s` begins, after separators, with `key=` and a value. */
  lemma ParseOne(s: string, key: string, text: string, v: Read, out: map<string, string>)
    requires SkipSep(s) == key + ['='] + text && '=' !in key && ReadValue(text) == v
    ensures Parse(s, out) == Parse(v.rest, if Trim(key) != "" then out[Trim(key) := v.value] else out)
  {
    var t := key + ['='] + text;
    FindSkips(key, '=', text);
    assert t[..|key|] == key && t[|key| + 1..] == text;
    ParseTurn(s, t, |key|, v, out);
  }

  /** Reading what a server prints gives its parameters back. */
  lemma {:induction false} ParseAll(lead: string, ps: seq<Param>, sep: string, out: map<string, string>)
    requires forall i :: 0 <= i < |lead| ==> IsSep(lead[i])
    requires Separates(sep) && forall i :: 0 <= i < |ps| ==> WellFormed(ps[i])
    ensures ps != [] ==> Parse(lead + PrintAll(ps, sep), out) == Collect(ps, out)
    decreases |ps|
  {
    if ps != [] {
      var p, rest := ps[0], ps[1..];
      var tail := if |ps| == 1 then "" else sep + PrintAll(rest, sep);
      assert PrintAll(ps, sep) == Print(p) + tail;
      ParsePrinted(lead, p, tail, out);
      if |ps| > 1 {
        ParseAll(sep, rest, sep, out[p.key := p.value]);
      }
    }
  }

  lemma {:induction false} CollectDistinct(ps: seq<Param>, out: map<string, string>, i: nat)
    requires i < |ps|
    requires forall j, k :: 0 <= j < k < |ps| ==> ps[j].key != ps[k].key
    ensures ps[i].key in Collect(ps, out) && Collect(ps, out)[ps[i].key] == ps[i].value
  {
    if i > 0 {
      CollectDistinct(ps[1..], out[ps[0].key := ps[0].value], i - 1);
    } else {
      CollectKeeps(ps[1..], out[ps[0].key := ps[0].value], ps[0].key);
    }
  }

  lemma {:induction false} CollectKeeps(ps: seq<Param>, out: map<string, string>, key: string)
    requires forall k :: 0 <= k < |ps| ==> ps[k].key != key
    ensures key in Collect(ps, out) <==> key in out
    ensures key in out ==> Collect(ps, out)[key] == out[key]
  {
    if ps != [] {
      CollectKeeps(ps[1..], out[ps[0].key := ps[0].value], key);
    }
  }

  /** Printing a list of parameters with different keys and splitting it again loses and adds nothing. */
  lemma RoundTrip(ps: seq<Param>, sep: string)
    requires Separates(sep) && forall i :: 0 <= i < |ps| ==> WellFormed(ps[i])
    requires forall j, k :: 0 <= j < k < |ps| ==> ps[j].key != ps[k].key
    ensures var m := Parse(PrintAll(ps, sep), map[]);
            && (forall i :: 0 <= i < |ps| ==> ps[i].key in m && m[ps[i].key] == ps[i].value)
            && (forall key :: key in m ==> exists i :: 0 <= i < |ps| && ps[i].key == key)
  {
    var m := Collect(ps, map[]);
    assert "" + PrintAll(ps, sep) == PrintAll(ps, sep);
    ParseAll("", ps, sep, map[]);
    forall i | 0 <= i < |ps|
      ensures ps[i].key in m && m[ps[i].key] == ps[i].value
    {
      CollectDistinct(ps, map[], i);
    }
    forall key | key in m
      ensures exists i :: 0 <= i < |ps| && ps[i].key == key
    {
      if forall i :: 0 <= i < |ps| ==> ps[i].key != key {
        CollectKeeps(ps, map[], key);
        assert false;
      }
    }
  }

  // ----- The request counter -----

  /** The counter is an unsigned number of 32 bits. */
  function Wrap(n: nat): nat {
    n % 0x1_0000_0000
  }

  class Challenge {
    var nc: nat

    constructor ()
      ensures nc == 0
    {
      nc := 0;
    }

    /** The increment and the read, under one lock. */
    method Next() returns (n: nat)
      modifies this
      ensures n == nc == Wrap(old(nc) + 1)
    {
      nc := (nc + 1) % 0x1_0000_0000;
      n := nc;
    }
  }

  /** A request that is between the two locks of `attachAuth`: it has picked up a challenge. */
  datatype Use = Use(challenge: nat, nc: nat)

  /** A challenge is a counter and the nonce the server sent. */
  datatype State = State(counters: seq<nat>, nonces: seq<string>, picked: seq<nat>, used: seq<Use>)

  datatype Event =
    | Challenged(nonce: string)    // a 401 puts a fresh challenge in place
    | Pick                         // a request takes the current challenge
    | Count(i: nat)                // the request that picked i-th increments it and reads the count

  function Step(s: State, e: Event): State {
    match e
    case Challenged(nonce) => s.(counters := s.counters + [0], nonces := s.nonces + [nonce])
    case Pick => if s.counters == [] then s else s.(picked := s.picked + [|s.counters| - 1])
    case Count(i) =>
      if i >= |s.picked| || s.picked[i] >= |s.counters| then s
      else
        var c := s.picked[i];
        var n := Wrap(s.counters[c] + 1);
        s.(counters := s.counters[c := n], picked := s.picked[..i] + s.picked[i + 1..], used := s.used + [Use(c, n)])
  }

  function Run(events: seq<Event>): State {
    if events == [] then State([], [], [], []) else Step(Run(events[..|events| - 1]), events[|events| - 1])
  }

  /** How often a challenge was used among the first `n` uses. */
  function Uses(used: seq<Use>, n: nat, c: nat): nat
    requires n <= |used|
  {
    if n == 0 then 0 else Uses(used, n - 1, c) + if used[n - 1].challenge == c then 1 else 0
  }

  ghost predicate Counted(s: State) {
    CountedIn(s.counters, s.used)
  }

  lemma {:induction false} UsesPrefix(used: seq<Use>, u: Use, n: nat, c: nat)
    requires n <= |used|
    ensures Uses(used + [u], n, c) == Uses(used, n, c)
  {
    if n > 0 {
      UsesPrefix(used, u, n - 1, c);
    }
  }

  lemma {:induction false} NoUses(used: seq<Use>, n: nat, c: nat)
    requires n <= |used| && forall i :: 0 <= i < |used| ==> used[i].challenge != c
    ensures Uses(used, n, c) == 0
  {
    if n > 0 {
      NoUses(used, n - 1, c);
    }
  }

  lemma StepCounts(s: State, e: Event)
    requires Counted(s)
    ensures Counted(Step(s, e))
  {
    match e
    case Challenged(_) => NoUses(s.used, |s.used|, |s.counters|);
    case Pick =>
    case Count(i) =>
      if i < |s.picked| && s.picked[i] < |s.counters| {
        OneMoreUse(s.counters, s.used, s.picked[i]);
      }
  }

  ghost predicate CountedIn(counters: seq<nat>, used: seq<Use>) {
    && (forall c :: 0 <= c < |counters| ==> counters[c] == Wrap(Uses(used, |used|, c)))
    && (forall i :: 0 <= i < |used| ==>
          used[i].challenge < |counters| && used[i].nc == Wrap(Uses(used, i + 1, used[i].challenge)))
  }

  lemma WrapNext(n: nat)
    ensures Wrap(Wrap(n) + 1) == Wrap(n + 1)
  {
  }

  lemma OneMoreUse(counters: seq<nat>, used: seq<Use>, c: nat)
    requires CountedIn(counters, used) && c < |counters|
    ensures var n := Wrap(counters[c] + 1); CountedIn(counters[c := n], used + [Use(c, n)])
  {
    var u := Use(c, Wrap(counters[c] + 1));
    var more := used + [u];
    WrapNext(Uses(used, |used|, c));
    forall n: nat, d: nat | n <= |used|
      ensures Uses(more, n, d) == Uses(used, n, d)
    {
      UsesPrefix(used, u, n, d);
    }
    assert forall d: nat :: Uses(more, |more|, d) == Uses(used, |used|, d) + if d == c then 1 else 0;
    assert forall i :: 0 <= i < |used| ==> more[i] == used[i];
  }

  /** However requests interleave, the counts that go with one challenge are 1, 2, 3, ... in the order in which
      they were taken, modulo 2^32. */
  lemma {:induction false} CountsInOrder(events: seq<Event>)
    ensures Counted(Run(events))
  {
    if events != [] {
      CountsInOrder(events[..|events| - 1]);
      StepCounts(Run(events[..|events| - 1]), events[|events| - 1]);
    }
  }

  lemma {:induction false} UsesGrow(used: seq<Use>, i: nat, j: nat, c: nat)
    requires i <= j <= |used|
    ensures Uses(used, i, c) <= Uses(used, j, c)
    ensures i < j && used[j - 1].challenge == c ==> Uses(used, i, c) < Uses(used, j, c)
  {
    if i < j {
      UsesGrow(used, i, j - 1, c);
    }
  }

  /** So no count is used twice with a challenge before the challenge has been used 2^32 times. */
  lemma NoCountTwice(events: seq<Event>, i: nat, j: nat)
    requires i < j < |Run(events).used| && Run(events).used[i].challenge == Run(events).used[j].challenge
    requires Uses(Run(events).used, |Run(events).used|, Run(events).used[i].challenge) < 0x1_0000_0000
    ensures Run(events).used[i].nc != Run(events).used[j].nc
  {
    CountsInOrder(events);
    DifferentCounts(Run(events).used, i, j);
  }

  lemma DifferentCounts(used: seq<Use>, i: nat, j: nat)
    requires i < j < |used| && used[i].challenge == used[j].challenge
    requires Uses(used, |used|, used[i].challenge) < 0x1_0000_0000
    ensures Wrap(Uses(used, i + 1, used[i].challenge)) != Wrap(Uses(used, j + 1, used[j].challenge))
  {
    var c := used[i].challenge;
    UsesGrow(used, i + 1, j + 1, c);
    UsesGrow(used, j + 1, |used|, c);
    WrapSmall(Uses(used, i + 1, c));
    WrapSmall(Uses(used, j + 1, c));
  }

  lemma {:induction false} NoncesFit(events: seq<Event>)
    ensures |Run(events).nonces| == |Run(events).counters|
  {
    if events != [] {
      NoncesFit(events[..|events| - 1]);
    }
  }

  /** No nonce goes out with one count twice. */
  ghost predicate PairsDiffer(s: State)
    requires forall i :: 0 <= i < |s.used| ==> s.used[i].challenge < |s.nonces|
  {
    forall i, j :: 0 <= i < j < |s.used| ==>
      s.nonces[s.used[i].challenge] != s.nonces[s.used[j].challenge] || s.used[i].nc != s.used[j].nc
  }

  /** No two of the challenges that were used have one nonce. */
  ghost predicate NoncesDiffer(s: State)
    requires forall i :: 0 <= i < |s.used| ==> s.used[i].challenge < |s.nonces|
  {
    forall i, j :: 0 <= i < j < |s.used| && s.used[i].challenge != s.used[j].challenge ==>
      s.nonces[s.used[i].challenge] != s.nonces[s.used[j].challenge]
  }

  lemma {:induction false} FirstUse(used: seq<Use>, n: nat, c: nat) returns (i: nat)
    requires n <= |used| && Uses(used, n, c) > 0
    ensures i < n && used[i].challenge == c && Uses(used, i + 1, c) == 1
  {
    if Uses(used, n - 1, c) > 0 {
      i := FirstUse(used, n - 1, c);
    } else {
      i := n - 1;
    }
  }

  /** The count starts again with every challenge. So, while no challenge is used 2^32 times, a nonce goes out with
      every count once only, if and only if the server has repeated no nonce among the challenges that were used. */
  lemma PairsExactly(events: seq<Event>)
    requires forall c: nat :: Uses(Run(events).used, |Run(events).used|, c) < 0x1_0000_0000
    ensures forall i :: 0 <= i < |Run(events).used| ==> Run(events).used[i].challenge < |Run(events).nonces|
    ensures PairsDiffer(Run(events)) <==> NoncesDiffer(Run(events))
  {
    var s := Run(events);
    CountsInOrder(events);
    NoncesFit(events);
    if PairsDiffer(s) {
      forall i, j | 0 <= i < j < |s.used| && s.used[i].challenge != s.used[j].challenge
        ensures s.nonces[s.used[i].challenge] != s.nonces[s.used[j].challenge]
      {
        FirstsDiffer(s, i, j);
      }
    }
    if NoncesDiffer(s) {
      forall i, j | 0 <= i < j < |s.used|
        ensures s.nonces[s.used[i].challenge] != s.nonces[s.used[j].challenge] || s.used[i].nc != s.used[j].nc
      {
        if s.used[i].challenge == s.used[j].challenge {
          NoCountTwice(events, i, j);
        }
      }
    }
  }

  lemma FirstsDiffer(s: State, i: nat, j: nat)
    requires Counted(s) && |s.nonces| == |s.counters| && i < j < |s.used| && s.used[i].challenge != s.used[j].challenge
    requires PairsDiffer(s)
    ensures s.nonces[s.used[i].challenge] != s.nonces[s.used[j].challenge]
  {
    var c, d := s.used[i].challenge, s.used[j].challenge;
    var a := FirstOf(s, i);
    var b := FirstOf(s, j);
    assert a < b || b < a;
  }

  lemma FirstOf(s: State, i: nat) returns (a: nat)
    requires Counted(s) && i < |s.used|
    ensures a < |s.used| && s.used[a] == Use(s.used[i].challenge, 1)
  {
    var c := s.used[i].challenge;
    UsesGrow(s.used, i, i + 1, c);
    UsesGrow(s.used, i + 1, |s.used|, c);
    a := FirstUse(s.used, |s.used|, c);
    WrapSmall(1);
  }

  lemma WrapSmall(n: nat)
    requires n < 0x1_0000_0000
    ensures Wrap(n) == n
  {
  }

  // ----- Every request that takes a challenge goes out with it -----

  /** A request with no other in between goes out with the newest challenge and the next count of it, and leaves
      nothing picked up behind. */
  lemma PickThenCount(s: State)
    requires s.counters != []
    ensures var c, t := |s.counters| - 1, Step(Step(s, Pick), Count(|s.picked|));
            && t.used == s.used + [Use(c, Wrap(s.counters[c] + 1))] && t.picked == s.picked
            && t.counters == s.counters[c := Wrap(s.counters[c] + 1)] && t.nonces == s.nonces
  {
    var picked := s.picked + [|s.counters| - 1];
    assert picked[..|s.picked|] + picked[|s.picked| + 1..] == s.picked;
  }

  /** The requests that found a challenge to take. */
  ghost function Picks(events: seq<Event>): nat {
    if events == [] then 0
    else
      var n := |events| - 1;
      Picks(events[..n]) + if events[n].Pick? && exists nonce :: Challenged(nonce) in events[..n] then 1 else 0
  }

  lemma {:induction false} PickedFits(events: seq<Event>)
    ensures var s := Run(events);
            && (s.counters == [] <==> !exists nonce :: Challenged(nonce) in events)
            && forall i :: 0 <= i < |s.picked| ==> s.picked[i] < |s.counters|
  {
    if events != [] {
      var n := |events| - 1;
      PickedFits(events[..n]);
      assert events == events[..n] + [events[n]];
      if events[n].Challenged? {
        assert Challenged(events[n].nonce) in events;
      }
    }
  }

  /** None is lost and none goes out twice: those that took a challenge are the ones that went out and the ones that
      have yet to. */
  lemma {:induction false} PicksAddUp(events: seq<Event>)
    ensures |Run(events).used| + |Run(events).picked| == Picks(events)
  {
    if events != [] {
      var n := |events| - 1;
      PicksAddUp(events[..n]);
      PickedFits(events[..n]);
    }
  }
}
