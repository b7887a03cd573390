/** The hash-chained audit log (internal/db/auditlog.go).

    SHA-256 is a parameter `sha`. Nothing is assumed about collisions in general: where a theorem needs
    the hash to tell rows apart, it asks only about the rows of the tables at hand. */
module AuditLog {
  import opened Order

  /** The columns that feed the chain; the row id does not. */
  datatype Entry = Entry(ts: string, level: string, message: string, requestId: string, riskLevel: string, prevHash: string)

  datatype Row = Row(id: nat, entry: Entry)

  function Body(e: Entry): string {
    e.ts + "|" + e.level + "|" + e.message + "|" + e.requestId + "|" + e.riskLevel + "|" + e.prevHash
  }

  function ChainLink(sha: string -> string, e: Entry): string {
    sha(Body(e))
  }

  /** What every hex digest satisfies. */
  ghost predicate HexOutput(sha: string -> string) {
    forall s :: sha(s) != "" && '|' !in sha(s)
  }

  /** No two different entries of the two tables have the same link. */
  ghost predicate NoCollision(sha: string -> string, t: seq<Row>, u: seq<Row>) {
    forall i, j :: 0 <= i < |t| && 0 <= j < |u| && ChainLink(sha, t[i].entry) == ChainLink(sha, u[j].entry) ==>
      t[i].entry == u[j].entry
  }

  predicate CollidingAt(sha: string -> string, e: Entry, f: Entry) {
    Body(e) != Body(f) && sha(Body(e)) == sha(Body(f))
  }

  /** Some row of the one table and some row of the other are a hash collision. */
  ghost predicate Colliding(sha: string -> string, t: seq<Row>, u: seq<Row>) {
    exists i, j :: 0 <= i < |t| && 0 <= j < |u| && CollidingAt(sha, t[i].entry, u[j].entry)
  }

  /** The separator occurs in no column but the message. The chain column needs no such clause. */
  predicate PipeOnlyInMessage(e: Entry) {
    '|' !in e.ts && '|' !in e.level && '|' !in e.requestId && '|' !in e.riskLevel
  }

  // ----- The serialisation is unambiguous -----

  lemma FirstSeparator(a: string, b: string, x: string, y: string)
    requires a + "|" + x == b + "|" + y
    requires '|' !in a && '|' !in b
    ensures a == b && x == y
  {
    var s := a + "|" + x;
    assert s[|a|] == '|' && s[|b|] == '|';
    assert forall i :: 0 <= i < |a| ==> s[i] in a;
    assert forall i :: 0 <= i < |b| ==> s[i] in b;
    assert a == s[..|a|] == b;
    assert x == s[|a| + 1..] == y;
  }

  lemma LastSeparator(x: string, y: string, a: string, b: string)
    requires x + "|" + a == y + "|" + b
    requires '|' !in a && '|' !in b
    ensures a == b && x == y
  {
    var s := x + "|" + a;
    assert s[|x|] == '|' && s[|y|] == '|';
    assert forall i :: |x| < i < |s| ==> s[i] in a;
    assert forall i :: |y| < i < |s| ==> s[i] in b;
    assert x == s[..|x|] == y;
    assert a == s[|x| + 1..] == b;
  }

  /** Although nothing is escaped, a body determines its entry as long as only the message may hold
      a separator. */
  lemma BodyInjective(e: Entry, f: Entry)
    requires PipeOnlyInMessage(e) && '|' !in e.prevHash
    requires PipeOnlyInMessage(f) && '|' !in f.prevHash
    requires Body(e) == Body(f)
    ensures e == f
  {
    var m, n := e.level + "|" + e.message, f.level + "|" + f.message;
    var x, y := e.ts + "|" + e.level + "|" + e.message, f.ts + "|" + f.level + "|" + f.message;
    LastSeparator(x + "|" + e.requestId + "|" + e.riskLevel, y + "|" + f.requestId + "|" + f.riskLevel, e.prevHash, f.prevHash);
    LastSeparator(x + "|" + e.requestId, y + "|" + f.requestId, e.riskLevel, f.riskLevel);
    LastSeparator(x, y, e.requestId, f.requestId);
    assert x == e.ts + "|" + m && y == f.ts + "|" + n;
    FirstSeparator(e.ts, f.ts, m, n);
    FirstSeparator(e.level, f.level, e.message, f.message);
  }

  function Separators(s: string): nat {
    if s == "" then 0 else Separators(s[1..]) + if s[0] == '|' then 1 else 0
  }

  lemma {:induction false} SeparatorsAppend(a: string, b: string)
    ensures Separators(a + b) == Separators(a) + Separators(b)
  {
    if a == "" {
      assert a + b == b;
    } else {
      SeparatorsAppend(a[1..], b);
      assert (a + b)[1..] == a[1..] + b;
    }
  }

  lemma {:induction false} NoSeparators(s: string)
    ensures Separators(s) == 0 <==> '|' !in s
  {
    if s != "" {
      NoSeparators(s[1..]);
      assert s == [s[0]] + s[1..];
    }
  }

  lemma SeparatorsJoin(a: string, b: string)
    ensures Separators(a + "|" + b) == Separators(a) + 1 + Separators(b)
  {
    SeparatorsAppend(a, "|");
    SeparatorsAppend(a + "|", b);
    assert Separators("|") == 1;
  }

  /** A body has five separators, and those of its columns. */
  lemma BodySeparators(e: Entry)
    ensures Separators(Body(e)) == 5 + Separators(e.ts) + Separators(e.level) + Separators(e.message)
                                   + Separators(e.requestId) + Separators(e.riskLevel) + Separators(e.prevHash)
  {
    var two := e.ts + "|" + e.level;
    var three := two + "|" + e.message;
    var four := three + "|" + e.requestId;
    SeparatorsJoin(e.ts, e.level);
    SeparatorsJoin(two, e.message);
    SeparatorsJoin(three, e.requestId);
    SeparatorsJoin(four, e.riskLevel);
    SeparatorsJoin(four + "|" + e.riskLevel, e.prevHash);
  }

  ghost predicate FreeOfSeparators(e: Entry) {
    PipeOnlyInMessage(e) && '|' !in e.message && '|' !in e.prevHash
  }

  lemma FiveSeparators(e: Entry)
    ensures Separators(Body(e)) == 5 <==> FreeOfSeparators(e)
  {
    BodySeparators(e);
    NoSeparators(e.ts);
    NoSeparators(e.level);
    NoSeparators(e.message);
    NoSeparators(e.requestId);
    NoSeparators(e.riskLevel);
    NoSeparators(e.prevHash);
  }

  lemma CutAt(s: string) returns (x: string, y: string)
    requires '|' in s
    ensures s == x + "|" + y && x != s
  {
    var i :| 0 <= i < |s| && s[i] == '|';
    x, y := s[..i], s[i + 1..];
  }

  /** A column with a separator can be cut there, the rest going to its neighbour. */
  lemma Recut(e: Entry) returns (f: Entry)
    requires !FreeOfSeparators(e)
    ensures f != e && Body(f) == Body(e)
  {
    if '|' in e.ts {
      var x, y := CutAt(e.ts);
      f := e.(ts := x, level := y + "|" + e.level);
      assert f.ts + "|" + f.level == e.ts + "|" + e.level;
    } else if '|' in e.level {
      var x, y := CutAt(e.level);
      f := e.(level := x, message := y + "|" + e.message);
      assert e.ts + "|" + f.level + "|" + f.message == e.ts + "|" + e.level + "|" + e.message;
    } else if '|' in e.message {
      var x, y := CutAt(e.message);
      var before := e.ts + "|" + e.level + "|";
      f := e.(message := x, requestId := y + "|" + e.requestId);
      assert before + f.message + "|" + f.requestId == before + e.message + "|" + e.requestId;
    } else if '|' in e.requestId {
      var x, y := CutAt(e.requestId);
      var before := e.ts + "|" + e.level + "|" + e.message + "|";
      f := e.(requestId := x, riskLevel := y + "|" + e.riskLevel);
      assert before + f.requestId + "|" + f.riskLevel == before + e.requestId + "|" + e.riskLevel;
    } else if '|' in e.riskLevel {
      var x, y := CutAt(e.riskLevel);
      var before := e.ts + "|" + e.level + "|" + e.message + "|" + e.requestId + "|";
      f := e.(riskLevel := x, prevHash := y + "|" + e.prevHash);
      assert before + f.riskLevel + "|" + f.prevHash == before + e.riskLevel + "|" + e.prevHash;
    } else {
      var x, y := CutAt(e.prevHash);
      var before := e.ts + "|" + e.level + "|" + e.message + "|" + e.requestId + "|";
      f := e.(riskLevel := e.riskLevel + "|" + x, prevHash := y);
      assert before + f.riskLevel + "|" + f.prevHash == before + e.riskLevel + "|" + e.prevHash;
    }
  }

  /** Without knowing where separators may stand a body determines its entry exactly when it has no more than the
      five that join the columns; so some such knowledge, as BodyInjective asks for, is needed. */
  lemma BodyDeterminesExactly(e: Entry)
    ensures (forall f :: Body(f) == Body(e) ==> f == e) <==> Separators(Body(e)) == 5
  {
    FiveSeparators(e);
    if FreeOfSeparators(e) {
      forall f | Body(f) == Body(e)
        ensures f == e
      {
        FiveSeparators(f);
        BodyInjective(e, f);
      }
    } else {
      var f := Recut(e);
    }
  }

  // ----- Verification -----

  /** The anchor the verifier expects in front of row k. */
  function Expected(sha: string -> string, t: seq<Row>, k: nat): string
    requires k <= |t|
  {
    if k == 0 then "" else ChainLink(sha, t[k - 1].entry)
  }

  predicate LinkOk(sha: string -> string, t: seq<Row>, k: nat)
    requires k < |t|
  {
    t[k].entry.prevHash == Expected(sha, t, k)
  }

  ghost predicate Accepted(sha: string -> string, t: seq<Row>) {
    forall k :: 0 <= k < |t| ==> LinkOk(sha, t, k)
  }

  /** Row k is the first whose stored anchor disagrees. */
  ghost predicate FirstMismatch(sha: string -> string, t: seq<Row>, k: nat) {
    k < |t| && !LinkOk(sha, t, k) && Accepted(sha, t[..k])
  }

  lemma AcceptedPrefix(sha: string -> string, t: seq<Row>, k: nat)
    requires k <= |t|
    ensures Accepted(sha, t[..k]) <==> forall i :: 0 <= i < k ==> LinkOk(sha, t, i)
  {
    forall i | 0 <= i < k
      ensures LinkOk(sha, t[..k], i) <==> LinkOk(sha, t, i)
    {
    }
  }

  /** Two accepted tables whose last entries agree hold the same entries throughout, unless some row of
      one and some row of the other are a hash collision. No row can be changed, inserted or removed
      before the last one without that. */
  lemma {:induction false} TamperEvidence(sha: string -> string, t: seq<Row>, u: seq<Row>)
    requires HexOutput(sha)
    requires Accepted(sha, t) && Accepted(sha, u)
    requires forall i :: 0 <= i < |t| ==> PipeOnlyInMessage(t[i].entry)
    requires forall j :: 0 <= j < |u| ==> PipeOnlyInMessage(u[j].entry)
    requires t != [] && u != [] && t[|t| - 1].entry == u[|u| - 1].entry
    ensures (|t| == |u| && forall i :: 0 <= i < |t| ==> t[i].entry == u[i].entry)
         || Colliding(sha, t, u)
    decreases |t|
  {
    var n, m := |t| - 1, |u| - 1;
    assert LinkOk(sha, t, n) && LinkOk(sha, u, m);
    if n == 0 || m == 0 {
      assert Expected(sha, t, n) == "" ==> n == 0;
      assert Expected(sha, u, m) == "" ==> m == 0;
    } else {
      var e, f := t[n - 1].entry, u[m - 1].entry;
      assert Body(e) != Body(f) ==> CollidingAt(sha, e, f);
      if Body(e) == Body(f) {
        assert LinkOk(sha, t, n - 1) && LinkOk(sha, u, m - 1);
        BodyInjective(e, f);
        AcceptedPrefix(sha, t, n);
        AcceptedPrefix(sha, u, m);
        TamperEvidence(sha, t[..n], u[..m]);
        if Colliding(sha, t[..n], u[..m]) {
          var i, j :| 0 <= i < n && 0 <= j < m && CollidingAt(sha, t[..n][i].entry, u[..m][j].entry);
          assert CollidingAt(sha, t[i].entry, u[j].entry);
        } else {
          forall i | 0 <= i < |t|
            ensures t[i].entry == u[i].entry
          {
            if i < n {
              assert t[..n][i].entry == u[..m][i].entry;
            }
          }
        }
      }
    }
  }

  /** Rewriting the columns of one row of an accepted table is reported at the row after it. Only the
      newest row can be rewritten unnoticed. */
  lemma EditDetected(sha: string -> string, t: seq<Row>, k: nat, e: Entry)
    requires Accepted(sha, t) && k < |t|
    requires e != t[k].entry && e.prevHash == t[k].entry.prevHash
    requires PipeOnlyInMessage(e) && PipeOnlyInMessage(t[k].entry) && '|' !in e.prevHash
    requires !CollidingAt(sha, e, t[k].entry)
    ensures var u := t[k := t[k].(entry := e)];
            if k + 1 < |t| then FirstMismatch(sha, u, k + 1) else Accepted(sha, u)
  {
    var u := t[k := t[k].(entry := e)];
    forall i | 0 <= i < |u| && i != k + 1
      ensures LinkOk(sha, u, i)
    {
      assert LinkOk(sha, t, i);
    }
    if k + 1 < |t| {
      assert LinkOk(sha, t, k + 1);
      if Body(e) == Body(t[k].entry) {
        BodyInjective(e, t[k].entry);
      }
      AcceptedPrefix(sha, u, k + 1);
    }
  }

  // ----- Deletion -----

  /** Row numbers in increasing order. */
  predicate Increasing(idx: seq<nat>, bound: nat) {
    && (forall i :: 0 <= i < |idx| ==> idx[i] < bound)
    && (forall i, j :: 0 <= i < j < |idx| ==> idx[i] < idx[j])
  }

  /** The rows left when exactly those numbered in `idx` are kept. */
  function Select(t: seq<Row>, idx: seq<nat>): (s: seq<Row>)
    requires Increasing(idx, |t|)
    ensures |s| == |idx| && forall i :: 0 <= i < |s| ==> s[i] == t[idx[i]]
  {
    seq(|idx|, i requires 0 <= i < |idx| => t[idx[i]])
  }

  /** In an accepted chain no two rows hold the same entry. */
  lemma {:induction false} EntriesDistinct(sha: string -> string, t: seq<Row>, a: nat, b: nat)
    requires HexOutput(sha) && Accepted(sha, t) && NoCollision(sha, t, t)
    requires a < b < |t|
    ensures t[a].entry != t[b].entry
    decreases a
  {
    assert LinkOk(sha, t, a) && LinkOk(sha, t, b);
    if t[a].entry == t[b].entry && a > 0 {
      EntriesDistinct(sha, t, a - 1, b - 1);
    }
  }

  /** Removing rows from an accepted table goes unnoticed exactly when only rows at its end went:
      what is left is the table's own beginning. */
  lemma DeletionDetected(sha: string -> string, t: seq<Row>, idx: seq<nat>)
    requires HexOutput(sha) && Accepted(sha, t) && NoCollision(sha, t, t)
    requires Increasing(idx, |t|)
    ensures Accepted(sha, Select(t, idx)) <==> forall i :: 0 <= i < |idx| ==> idx[i] == i
  {
    var s := Select(t, idx);
    if forall i :: 0 <= i < |idx| ==> idx[i] == i {
      forall k | 0 <= k < |s|
        ensures LinkOk(sha, s, k)
      {
        assert idx[k] == k && (k > 0 ==> idx[k - 1] == k - 1);
        assert LinkOk(sha, t, k);
      }
    }
    if Accepted(sha, s) {
      forall i | 0 <= i < |idx|
        ensures idx[i] == i
      {
        SurvivorInPlace(sha, t, idx, i);
      }
    }
  }

  lemma {:induction false} SurvivorInPlace(sha: string -> string, t: seq<Row>, idx: seq<nat>, i: nat)
    requires HexOutput(sha) && Accepted(sha, t) && NoCollision(sha, t, t)
    requires Increasing(idx, |t|) && Accepted(sha, Select(t, idx)) && i < |idx|
    ensures idx[i] == i
  {
    var s, k := Select(t, idx), idx[i];
    assert LinkOk(sha, s, i) && LinkOk(sha, t, k);
    if i > 0 {
      SurvivorInPlace(sha, t, idx, i - 1);
      assert s[i - 1] == t[i - 1];
      assert idx[i - 1] < idx[i];
      assert t[k - 1].entry == t[i - 1].entry;
      if k - 1 != i - 1 {
        EntriesDistinct(sha, t, i - 1, k - 1);
      }
    }
  }

  // ----- The operations -----

  /** The table with AUTOINCREMENT's memory of the largest id ever handed out. */
  datatype Table = Table(rows: seq<Row>, lastId: nat)

  const EMPTY := Table([], 0)

  function AppendRow(sha: string -> string, t: Table, now: string, level: string, message: string,
                     requestId: string, riskLevel: string): Table
  {
    var e := Entry(now, level, message, requestId, riskLevel, Expected(sha, t.rows, |t.rows|));
    Table(t.rows + [Row(t.lastId + 1, e)], t.lastId + 1)
  }

  function Survivors(rows: seq<Row>, cutoff: string): seq<Row> {
    if rows == [] then []
    else if Before(rows[0].entry.ts, cutoff) then Survivors(rows[1..], cutoff)
    else [rows[0]] + Survivors(rows[1..], cutoff)
  }

  lemma SurvivorsNext(rows: seq<Row>, k: nat, cutoff: string, kept: seq<Row>)
    requires k < |rows|
    ensures kept + Survivors(rows[k..], cutoff) ==
            (if Before(rows[k].entry.ts, cutoff) then kept else kept + [rows[k]]) + Survivors(rows[k + 1..], cutoff)
  {
    assert rows[k..][0] == rows[k] && rows[k..][1..] == rows[k + 1..];
  }

  predicate IdsAscend(t: Table) {
    && (forall i :: 0 <= i < |t.rows| ==> 1 <= t.rows[i].id <= t.lastId)
    && (forall i, j :: 0 <= i < j < |t.rows| ==> t.rows[i].id < t.rows[j].id)
  }

  /** The audit_log table and the operations on it. */
  class AuditTable {
    var rows: seq<Row>
    var lastId: nat

    function Value(): Table
      reads this
    {
      Table(rows, lastId)
    }

    constructor ()
      ensures Value() == EMPTY
    {
      rows, lastId := [], 0;
    }

    method AddLogWithAttrs(sha: string -> string, now: string, level: string, message: string, requestId: string, riskLevel: string)
      modifies this
      ensures Value() == AppendRow(sha, old(Value()), now, level, message, requestId, riskLevel)
    {
      var anchor := "";
      if |rows| > 0 {
        anchor := ChainLink(sha, rows[|rows| - 1].entry);
      }
      lastId := lastId + 1;
      rows := rows + [Row(lastId, Entry(now, level, message, requestId, riskLevel, anchor))];
    }

    /** Zero means intact; otherwise the id of the first row whose stored anchor disagrees. */
    method VerifyAuditChain(sha: string -> string) returns (mismatch: nat)
      requires IdsAscend(Value())
      ensures mismatch == 0 <==> Accepted(sha, rows)
      ensures mismatch != 0 ==> exists k: nat :: FirstMismatch(sha, rows, k) && rows[k].id == mismatch
    {
      var expectedPrev := "";
      for k := 0 to |rows|
        invariant expectedPrev == Expected(sha, rows, k)
        invariant forall i :: 0 <= i < k ==> LinkOk(sha, rows, i)
      {
        if rows[k].entry.prevHash != expectedPrev {
          AcceptedPrefix(sha, rows, k);
          assert FirstMismatch(sha, rows, k);
          return rows[k].id;
        }
        expectedPrev := ChainLink(sha, rows[k].entry);
      }
      return 0;
    }

    method PruneOlderThan(cutoff: string) returns (removed: nat)
      modifies this
      ensures Value() == old(Value()).(rows := Survivors(old(rows), cutoff))
      ensures removed == |old(rows)| - |rows|
    {
      var kept, all := [], rows;
      assert all[0..] == all;
      for k := 0 to |all|
        invariant lastId == old(lastId)
        invariant |kept| <= k && kept + Survivors(all[k..], cutoff) == Survivors(all, cutoff)
      {
        SurvivorsNext(all, k, cutoff, kept);
        if !Before(all[k].entry.ts, cutoff) {
          kept := kept + [all[k]];
        }
      }
      assert kept + [] == kept;
      removed := |all| - |kept|;
      rows := kept;
    }

    method ClearLogs() returns (removed: nat)
      modifies this
      ensures Value() == old(Value()).(rows := [])
      ensures removed == |old(rows)|
    {
      removed := |rows|;
      rows := [];
    }
  }

  // ----- Whole runs -----

  datatype Op =
    | Append(now: string, level: string, message: string, requestId: string, riskLevel: string)
    | Prune(cutoff: string)
    | Clear

  /** `truncated`: a prune removed some rows and kept others, and the table has not been empty since. */
  datatype State = State(table: Table, truncated: bool)

  function Step(sha: string -> string, s: State, op: Op): State {
    match op
    case Append(now, level, message, requestId, riskLevel) =>
      s.(table := AppendRow(sha, s.table, now, level, message, requestId, riskLevel))
    case Prune(cutoff) =>
      var left := Survivors(s.table.rows, cutoff);
      State(s.table.(rows := left), left != [] && (s.truncated || |left| < |s.table.rows|))
    case Clear =>
      State(s.table.(rows := []), false)
  }

  function Run(sha: string -> string, ops: seq<Op>): State {
    if ops == [] then State(EMPTY, false) else Step(sha, Run(sha, ops[..|ops| - 1]), ops[|ops| - 1])
  }

  /** The clock never runs backwards over the appends. */
  ghost predicate ClockOk(ops: seq<Op>) {
    forall i, j :: 0 <= i < j < |ops| && ops[i].Append? && ops[j].Append? ==> !Before(ops[j].now, ops[i].now)
  }

  /** Every row follows from the one before it; the oldest may start with an anchor to a pruned row. */
  ghost predicate Linked(sha: string -> string, t: seq<Row>) {
    forall k :: 0 < k < |t| ==> LinkOk(sha, t, k)
  }

  ghost predicate TimesAscend(t: seq<Row>) {
    forall i, j :: 0 <= i < j < |t| ==> !Before(t[j].entry.ts, t[i].entry.ts)
  }

  ghost predicate Reached(sha: string -> string, s: State) {
    && Linked(sha, s.table.rows)
    && TimesAscend(s.table.rows)
    && IdsAscend(s.table)
    && (s.truncated <==> s.table.rows != [] && s.table.rows[0].entry.prevHash != "")
  }

  /** With ascending times a prune removes a beginning of the table and nothing else. */
  lemma {:induction false} PruneDropsPrefix(rows: seq<Row>, cutoff: string) returns (k: nat)
    requires TimesAscend(rows)
    ensures k <= |rows| && Survivors(rows, cutoff) == rows[k..]
    ensures forall i :: 0 <= i < |rows| ==> (i < k <==> Before(rows[i].entry.ts, cutoff))
  {
    if rows == [] {
      k := 0;
    } else {
      var rest := PruneDropsPrefix(rows[1..], cutoff);
      forall i | 0 < i < |rows|
        ensures i - 1 < rest <==> Before(rows[i].entry.ts, cutoff)
      {
        assert rows[1..][i - 1] == rows[i];
      }
      if Before(rows[0].entry.ts, cutoff) {
        k := rest + 1;
      } else {
        k := 0;
        if rest > 0 {
          BeforeTransitive(rows[0].entry.ts, rows[1].entry.ts, cutoff);
        }
      }
    }
  }

  /** A prune keeps, in their order, the rows whose time is not earlier than the cutoff: those that come before it
      at no place where the two part. */
  lemma {:induction false} PruneKeepsExactly(rows: seq<Row>, cutoff: string) returns (idx: seq<nat>)
    ensures Increasing(idx, |rows|) && Survivors(rows, cutoff) == Select(rows, idx)
    ensures forall k: nat :: k < |rows| ==> (k in idx <==> !exists p: nat :: PartsAt(rows[k].entry.ts, cutoff, p))
  {
    idx := [];
    assert rows[..0] == [];
    for n := 0 to |rows|
      invariant Increasing(idx, n) && Survivors(rows[..n], cutoff) == Select(rows, idx)
      invariant forall k: nat :: k < n ==> (k in idx <==> !Before(rows[k].entry.ts, cutoff))
    {
      SurvivorsMore(rows[..n], rows[n], cutoff);
      assert rows[..n + 1] == rows[..n] + [rows[n]];
      if !Before(rows[n].entry.ts, cutoff) {
        idx := idx + [n];
      }
    }
    assert rows[..|rows|] == rows;
    forall k: nat | k < |rows|
      ensures k in idx <==> !exists p: nat :: PartsAt(rows[k].entry.ts, cutoff, p)
    {
      BeforeExactly(rows[k].entry.ts, cutoff);
    }
  }

  lemma {:induction false} SurvivorsMore(rows: seq<Row>, r: Row, cutoff: string)
    ensures Survivors(rows + [r], cutoff) == Survivors(rows, cutoff) + if Before(r.entry.ts, cutoff) then [] else [r]
  {
    if rows == [] {
      assert rows + [r] == [r];
    } else {
      SurvivorsMore(rows[1..], r, cutoff);
      assert (rows + [r])[1..] == rows[1..] + [r];
    }
  }

  lemma LinkedSuffix(sha: string -> string, t: seq<Row>, k: nat)
    requires Linked(sha, t) && k <= |t|
    ensures Linked(sha, t[k..])
  {
    forall i | 0 < i < |t[k..]|
      ensures LinkOk(sha, t[k..], i)
    {
      assert LinkOk(sha, t, k + i);
    }
  }

  lemma StepKeepsReached(sha: string -> string, s: State, op: Op)
    requires HexOutput(sha) && Reached(sha, s)
    requires op.Append? ==> forall i :: 0 <= i < |s.table.rows| ==> !Before(op.now, s.table.rows[i].entry.ts)
    ensures Reached(sha, Step(sha, s, op))
  {
    match op
    case Append(_, _, _, _, _) => AppendKeepsReached(sha, s, op);
    case Prune(cutoff) => PruneKeepsReached(sha, s, cutoff);
    case Clear =>
  }

  lemma AppendKeepsReached(sha: string -> string, s: State, op: Op)
    requires HexOutput(sha) && Reached(sha, s) && op.Append?
    requires forall i :: 0 <= i < |s.table.rows| ==> !Before(op.now, s.table.rows[i].entry.ts)
    ensures Reached(sha, Step(sha, s, op))
  {
    var t, u := s.table.rows, Step(sha, s, op).table.rows;
    forall k | 0 < k < |u|
      ensures LinkOk(sha, u, k)
    {
      if k < |t| {
        assert LinkOk(sha, t, k);
      }
    }
  }

  lemma PruneKeepsReached(sha: string -> string, s: State, cutoff: string)
    requires HexOutput(sha) && Reached(sha, s)
    ensures Reached(sha, Step(sha, s, Prune(cutoff)))
  {
    var t := s.table.rows;
    var k := PruneDropsPrefix(t, cutoff);
    LinkedSuffix(sha, t, k);
    if 0 < k < |t| {
      assert LinkOk(sha, t, k);
      assert t[k..][0] == t[k];
    }
    assert k == 0 ==> t[k..] == t;
  }

  /** Every row's time was the time of some append of the run. */
  lemma {:induction false} TimesFromRun(sha: string -> string, ops: seq<Op>, i: nat) returns (j: nat)
    requires i < |Run(sha, ops).table.rows|
    ensures j < |ops| && ops[j].Append? && ops[j].now == Run(sha, ops).table.rows[i].entry.ts
    decreases |ops|
  {
    var init, op := ops[..|ops| - 1], ops[|ops| - 1];
    var t := Run(sha, init).table.rows;
    match op
    case Append(_, _, _, _, _) =>
      if i < |t| {
        j := TimesFromRun(sha, init, i);
      } else {
        j := |ops| - 1;
      }
    case Prune(cutoff) =>
      var at := SurvivorIsRow(t, cutoff, i);
      j := TimesFromRun(sha, init, at);
    case Clear =>
      assert false;
  }

  lemma {:induction false} SurvivorIsRow(rows: seq<Row>, cutoff: string, i: nat) returns (at: nat)
    requires i < |Survivors(rows, cutoff)|
    ensures at < |rows| && rows[at] == Survivors(rows, cutoff)[i]
    decreases |rows|
  {
    if !Before(rows[0].entry.ts, cutoff) && i == 0 {
      at := 0;
    } else {
      var rest := SurvivorIsRow(rows[1..], cutoff, if Before(rows[0].entry.ts, cutoff) then i else i - 1);
      at := rest + 1;
    }
  }

  lemma {:induction false} RunReached(sha: string -> string, ops: seq<Op>)
    requires HexOutput(sha) && ClockOk(ops)
    ensures Reached(sha, Run(sha, ops))
  {
    if ops != [] {
      var init, op := ops[..|ops| - 1], ops[|ops| - 1];
      RunReached(sha, init);
      var s := Run(sha, init);
      if op.Append? {
        forall i | 0 <= i < |s.table.rows|
          ensures !Before(op.now, s.table.rows[i].entry.ts)
        {
          var j := TimesFromRun(sha, init, i);
          assert ops[j] == init[j];
        }
      }
      StepKeepsReached(sha, s, op);
    }
  }

  /** After any run of appends, prunes and clears under a clock that never runs backwards, the verifier
      accepts exactly when no prune has cut the table short since it was last empty; otherwise it names
      the oldest survivor, every later row being linked to the one before it. */
  lemma RunVerdict(sha: string -> string, ops: seq<Op>)
    requires HexOutput(sha) && ClockOk(ops)
    ensures var s := Run(sha, ops);
            && (Accepted(sha, s.table.rows) <==> !s.truncated)
            && (s.truncated ==> FirstMismatch(sha, s.table.rows, 0))
            && Linked(sha, s.table.rows)
  {
    RunReached(sha, ops);
    var s := Run(sha, ops);
    var t := s.table.rows;
    if t != [] {
      assert LinkOk(sha, t, 0) <==> t[0].entry.prevHash == "";
    }
    if s.truncated {
      assert t[..0] == [];
    } else {
      forall k | 0 <= k < |t|
        ensures LinkOk(sha, t, k)
      {
      }
    }
  }

  /** Appends and clears alone never trip the verifier, whatever the clock does. */
  lemma {:induction false} AppendsAccepted(sha: string -> string, ops: seq<Op>)
    requires forall i :: 0 <= i < |ops| ==> !ops[i].Prune?
    ensures Accepted(sha, Run(sha, ops).table.rows)
  {
    if ops != [] {
      var init := ops[..|ops| - 1];
      AppendsAccepted(sha, init);
      var t, u := Run(sha, init).table.rows, Run(sha, ops).table.rows;
      forall k | 0 <= k < |u|
        ensures LinkOk(sha, u, k)
      {
        assert ops[|ops| - 1].Append?;
        if k < |t| {
          assert LinkOk(sha, t, k);
        }
      }
    }
  }

  /** Row k shows the append, numbered from one and anchored to the row before. */
  predicate Shows(sha: string -> string, rows: seq<Row>, k: nat, op: Op)
    requires k < |rows| && op.Append?
  {
    var anchor := if k == 0 then "" else sha(Body(rows[k - 1].entry));
    rows[k] == Row(k + 1, Entry(op.now, op.level, op.message, op.requestId, op.riskLevel, anchor))
  }

  /** What was appended is what the table then shows. */
  lemma {:induction false} LogReadsBack(sha: string -> string, ops: seq<Op>)
    requires forall i :: 0 <= i < |ops| ==> ops[i].Append?
    ensures var s := Run(sha, ops);
            && |s.table.rows| == s.table.lastId == |ops| && !s.truncated
            && forall k :: 0 <= k < |ops| ==> Shows(sha, s.table.rows, k, ops[k])
  {
    if ops != [] {
      var n := |ops| - 1;
      LogReadsBack(sha, ops[..n]);
      var t, u := Run(sha, ops[..n]).table.rows, Run(sha, ops).table.rows;
      forall k | 0 <= k < |ops|
        ensures Shows(sha, u, k, ops[k])
      {
        if k < n {
          assert Shows(sha, t, k, ops[..n][k]);
          assert u[k] == t[k] && (k > 0 ==> u[k - 1] == t[k - 1]);
        } else {
          assert k > 0 ==> u[k - 1] == t[k - 1];
        }
      }
    }
  }
}
