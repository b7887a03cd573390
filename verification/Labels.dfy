/** The text under which a labelled counter is kept (internal/observability/metrics.go). */
module Labels {
  import opened Order

  // ----- Escaping -----

  /** Every `c` replaced by `to`. */
  function ReplaceAll(s: string, c: char, to: string): string {
    if s == "" then "" else (if s[0] == c then to else [s[0]]) + ReplaceAll(s[1..], c, to)
  }

  /** The three replacements, one after the other. */
  function EscapeInSteps(v: string): string {
    ReplaceAll(ReplaceAll(ReplaceAll(v, '\\', "\\\\"), '"', "\\\""), '\n', "\\n")
  }

  function EscapeChar(c: char): string {
    if c == '\\' then "\\\\" else if c == '"' then "\\\"" else if c == '\n' then "\\n" else [c]
  }

  function Escape(v: string): string {
    if v == "" then "" else EscapeChar(v[0]) + Escape(v[1..])
  }

  lemma {:induction false} ReplaceAppend(a: string, b: string, c: char, to: string)
    ensures ReplaceAll(a + b, c, to) == ReplaceAll(a, c, to) + ReplaceAll(b, c, to)
  {
    if a == "" {
      assert a + b == b;
    } else {
      ReplaceAppend(a[1..], b, c, to);
      assert (a + b)[1..] == a[1..] + b;
      var head := if a[0] == c then to else [a[0]];
      assert head + (ReplaceAll(a[1..], c, to) + ReplaceAll(b, c, to)) == (head + ReplaceAll(a[1..], c, to)) + ReplaceAll(b, c, to);
    }
  }

  /** A text of at most two characters, replaced. */
  lemma ReplaceShort(s: string, c: char, to: string)
    requires 1 <= |s| <= 2
    ensures ReplaceAll(s, c, to) ==
            if |s| == 1 then (if s[0] == c then to else [s[0]])
            else (if s[0] == c then to else [s[0]]) + (if s[1] == c then to else [s[1]])
  {
    var rest := s[1..];
    assert ReplaceAll(s, c, to) == (if s[0] == c then to else [s[0]]) + ReplaceAll(rest, c, to);
    if |s| == 2 {
      assert rest[1..] == "";
      assert ReplaceAll(rest, c, to) == (if s[1] == c then to else [s[1]]) + "";
    }
  }

  /** Because backslashes come first, the steps do not get in each other's way. */
  lemma {:induction false} StepsAreOnePass(v: string)
    ensures EscapeInSteps(v) == Escape(v)
  {
    if v != "" {
      var c, rest := v[0], v[1..];
      StepsAreOnePass(rest);
      var one := if c == '\\' then "\\\\" else [c];
      var r1 := ReplaceAll(rest, '\\', "\\\\");
      assert ReplaceAll(v, '\\', "\\\\") == one + r1;
      ReplaceAppend(one, r1, '"', "\\\"");
      var two := ReplaceAll(one, '"', "\\\"");
      ReplaceShort(one, '"', "\\\"");
      ReplaceAppend(two, ReplaceAll(r1, '"', "\\\""), '\n', "\\n");
      ReplaceShort(two, '\n', "\\n");
    }
  }

  /** A value read up to its closing quote, and what follows; the inverse of escaping. */
  datatype Read = Read(value: string, rest: string)

  function ReadEscaped(s: string): Read {
    if s == "" || s[0] == '"' then Read("", if s == "" then "" else s[1..])
    else if s[0] == '\\' && |s| >= 2 then
      var r := ReadEscaped(s[2..]);
      r.(value := [if s[1] == 'n' then '\n' else s[1]] + r.value)
    else
      var r := ReadEscaped(s[1..]);
      r.(value := [s[0]] + r.value)
  }

  lemma {:induction false} EscapedReadsBack(v: string, rest: string)
    ensures ReadEscaped(Escape(v) + "\"" + rest) == Read(v, rest)
  {
    var s := Escape(v) + "\"" + rest;
    if v == "" {
      assert s[1..] == rest;
    } else {
      var tail := Escape(v[1..]) + "\"" + rest;
      EscapedReadsBack(v[1..], rest);
      assert s == EscapeChar(v[0]) + tail;
      ReadOne(v[0], tail);
      assert v == [v[0]] + v[1..];
    }
  }

  lemma ReadOne(c: char, tail: string)
    ensures var r := ReadEscaped(tail); ReadEscaped(EscapeChar(c) + tail) == Read([c] + r.value, r.rest)
  {
    var e := EscapeChar(c);
    var s := e + tail;
    assert s[|e|..] == tail && s[0] == e[0];
    if |e| == 2 {
      assert s[1] == e[1];
    }
  }

  // ----- Pairs -----

  datatype Pair = Pair(key: string, value: string)

  /** The pairs joined by commas. */
  function Encode(ps: seq<Pair>): string {
    if ps == [] then ""
    else if |ps| == 1 then EncodeOne(ps[0])
    else EncodeOne(ps[0]) + "," + Encode(ps[1..])
  }

  function EncodeOne(p: Pair): string {
    p.key + "=\"" + EscapeInSteps(p.value) + "\""
  }

  function TailOf(ps: seq<Pair>): string
    requires ps != []
  {
    if |ps| == 1 then "" else "," + Encode(ps[1..])
  }

  /** Label names do not contain the equals sign. */
  predicate Named(ps: seq<Pair>) {
    forall i :: 0 <= i < |ps| ==> '=' !in ps[i].key
  }

  lemma EncodeHead(ps: seq<Pair>)
    requires ps != []
    ensures Encode(ps) == ps[0].key + (['='] + ("\"" + (Escape(ps[0].value) + "\"" + TailOf(ps))))
  {
    StepsAreOnePass(ps[0].value);
    Regroup(ps[0].key, Escape(ps[0].value), TailOf(ps));
  }

  lemma Regroup(key: string, value: string, tail: string)
    ensures key + "=\"" + value + "\"" + tail == key + (['='] + ("\"" + (value + "\"" + tail)))
  {
  }

  lemma UpToEquals(a: string, x: string, b: string, y: string)
    requires a + (['='] + x) == b + (['='] + y) && '=' !in a && '=' !in b
    ensures a == b && x == y
  {
    var u, v := a + (['='] + x), b + (['='] + y);
    assert u[|a|] == '=' && v[|b|] == '=';
    assert forall k :: 0 <= k < |a| ==> u[k] == a[k] && a[k] != '=';
    assert forall k :: 0 <= k < |b| ==> v[k] == b[k] && b[k] != '=';
    assert |a| == |b|;
    assert a == u[..|a|] && b == v[..|b|] && x == u[|a| + 1..] && y == v[|b| + 1..];
  }

  /** Different lists of pairs have different texts. */
  lemma {:induction false} EncodeInjective(ps: seq<Pair>, qs: seq<Pair>)
    requires Named(ps) && Named(qs) && Encode(ps) == Encode(qs)
    ensures ps == qs
    decreases |ps|
  {
    EncodeEmpty(ps);
    EncodeEmpty(qs);
    if ps != [] {
      SameHeads(ps, qs);
      if |ps| > 1 {
        EncodeInjective(ps[1..], qs[1..]);
      }
      assert ps == [ps[0]] + ps[1..] && qs == [qs[0]] + qs[1..];
    }
  }

  lemma EncodeEmpty(ps: seq<Pair>)
    ensures Encode(ps) == "" <==> ps == []
  {
    if ps != [] {
      EncodeHead(ps);
    }
  }

  lemma SameHeads(ps: seq<Pair>, qs: seq<Pair>)
    requires ps != [] && qs != [] && Named(ps) && Named(qs) && Encode(ps) == Encode(qs)
    ensures ps[0] == qs[0] && (|ps| > 1 <==> |qs| > 1)
    ensures |ps| > 1 ==> Encode(ps[1..]) == Encode(qs[1..])
  {
    EncodeHead(ps);
    EncodeHead(qs);
    var x, y := Escape(ps[0].value) + "\"" + TailOf(ps), Escape(qs[0].value) + "\"" + TailOf(qs);
    UpToEquals(ps[0].key, "\"" + x, qs[0].key, "\"" + y);
    assert ("\"" + x)[1..] == x && ("\"" + y)[1..] == y;
    EscapedReadsBack(ps[0].value, TailOf(ps));
    EscapedReadsBack(qs[0].value, TailOf(qs));
    assert TailOf(ps) == TailOf(qs);
    if |ps| > 1 && |qs| > 1 {
      assert TailOf(ps)[1..] == Encode(ps[1..]) && TailOf(qs)[1..] == Encode(qs[1..]);
    }
  }

  // ----- Maps -----

  /** The keys of a map in ascending order. */
  ghost predicate Sorted(keys: seq<string>, labels: map<string, string>) {
    && (forall i, j :: 0 <= i < j < |keys| ==> Before(keys[i], keys[j]))
    && (forall k :: k in keys <==> k in labels)
  }

  function PairsOf(keys: seq<string>, labels: map<string, string>): seq<Pair>
    requires forall k :: k in keys ==> k in labels
  {
    seq(|keys|, i requires 0 <= i < |keys| => Pair(keys[i], labels[keys[i]]))
  }

  lemma RestOf(a: seq<string>, k: string)
    requires a != [] && forall i, j :: 0 <= i < j < |a| ==> Before(a[i], a[j])
    ensures k in a[1..] <==> k in a && k != a[0]
  {
    BeforeTotal(k, k);
    assert a == [a[0]] + a[1..];
    if k in a[1..] {
      var i :| 0 <= i < |a[1..]| && a[1..][i] == k;
      assert Before(a[0], a[i + 1]);
    }
  }

  /** There is only one ascending order. */
  lemma {:induction false} SortedUnique(a: seq<string>, b: seq<string>)
    requires forall i, j :: 0 <= i < j < |a| ==> Before(a[i], a[j])
    requires forall i, j :: 0 <= i < j < |b| ==> Before(b[i], b[j])
    requires forall k :: k in a <==> k in b
    ensures a == b
    decreases |a|
  {
    assert a != [] ==> a[0] in b;
    assert b != [] ==> b[0] in a;
    if a != [] {
      BeforeTotal(a[0], b[0]);
      assert a[0] == b[0];
      forall k
        ensures k in a[1..] <==> k in b[1..]
      {
        RestOf(a, k);
        RestOf(b, k);
      }
      SortedUnique(a[1..], b[1..]);
      assert a == [a[0]] + a[1..] && b == [b[0]] + b[1..];
    }
  }

  /** Two sets of labels share a counter exactly when they are the same: one text for each, and no two of them
      alike. */
  lemma SameTextSameLabels(keys: seq<string>, labels: map<string, string>, keys': seq<string>, labels': map<string, string>)
    requires Sorted(keys, labels) && Sorted(keys', labels')
    requires forall k :: k in labels ==> '=' !in k
    requires forall k :: k in labels' ==> '=' !in k
    ensures Encode(PairsOf(keys, labels)) == Encode(PairsOf(keys', labels')) <==> labels == labels'
  {
    var ps, qs := PairsOf(keys, labels), PairsOf(keys', labels');
    if labels == labels' {
      SortedUnique(keys, keys');
    } else if Encode(ps) == Encode(qs) {
      EncodeInjective(ps, qs);
      SamePairs(keys, labels, keys', labels');
    }
  }

  lemma SamePairs(keys: seq<string>, labels: map<string, string>, keys': seq<string>, labels': map<string, string>)
    requires Sorted(keys, labels) && Sorted(keys', labels') && PairsOf(keys, labels) == PairsOf(keys', labels')
    ensures labels == labels'
  {
    var ps, qs := PairsOf(keys, labels), PairsOf(keys', labels');
    assert |keys| == |ps| == |qs| == |keys'|;
    forall i | 0 <= i < |keys|
      ensures keys[i] == keys'[i] && labels[keys[i]] == labels'[keys[i]]
    {
      assert ps[i] == qs[i];
    }
    assert keys == keys';
    forall k
      ensures k in labels <==> k in labels'
      ensures k in labels ==> labels[k] == labels'[k]
    {
      if k in labels {
        var i :| 0 <= i < |keys| && keys[i] == k;
      }
    }
  }
}
