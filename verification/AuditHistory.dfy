/** What the verifier of the audit log says when the clock may step back, so that a prune can take rows out of the
    middle (internal/db/auditlog.go). */
module AuditHistory {
  import opened Order
  import opened AuditLog

  /** Every row ever appended, by id, with the id of the row it was appended after; 0 when there was none. */
  datatype Node = Node(entry: Entry, parent: nat)

  datatype Log = Log(state: State, history: seq<Node>)

  function Follow(sha: string -> string, l: Log, op: Op): Log {
    var next := Step(sha, l.state, op);
    var rows := l.state.table.rows;
    if op.Append?
    then Log(next, l.history + [Node(next.table.rows[|rows|].entry, if rows == [] then 0 else rows[|rows| - 1].id)])
    else Log(next, l.history)
  }

  function History(sha: string -> string, ops: seq<Op>): Log {
    if ops == [] then Log(State(EMPTY, false), [])
    else Follow(sha, History(sha, ops[..|ops| - 1]), ops[|ops| - 1])
  }

  lemma {:induction false} HistoryIsRun(sha: string -> string, ops: seq<Op>)
    ensures History(sha, ops).state == Run(sha, ops)
  {
    if ops != [] {
      HistoryIsRun(sha, ops[..|ops| - 1]);
    }
  }

  // ----- The chain of all rows -----

  /** Every row is anchored to the row it was appended after. */
  ghost predicate Anchored(sha: string -> string, h: seq<Node>) {
    forall i :: 0 <= i < |h| ==> AnchoredAt(sha, h, i)
  }

  ghost predicate AnchoredAt(sha: string -> string, h: seq<Node>, i: nat)
    requires i < |h|
  {
    h[i].parent <= i && h[i].entry.prevHash == Anchor(sha, h, h[i].parent)
  }

  function Anchor(sha: string -> string, h: seq<Node>, parent: nat): string
    requires parent <= |h|
  {
    if parent == 0 then "" else ChainLink(sha, h[parent - 1].entry)
  }

  predicate ParentsBefore(h: seq<Node>) {
    forall i :: 0 <= i < |h| ==> h[i].parent <= i
  }

  /** Row `q` was appended after row `p`, at one remove or more. */
  predicate Descends(h: seq<Node>, q: nat, p: nat)
    requires ParentsBefore(h) && 1 <= q <= |h|
  {
    var parent := h[q - 1].parent;
    parent != 0 && (parent == p || Descends(h, parent, p))
  }

  lemma {:induction false} DescendsUp(h: seq<Node>, q: nat, p: nat)
    requires ParentsBefore(h) && 1 <= q <= |h| && 1 <= p <= |h| && Descends(h, q, p) && h[p - 1].parent != 0
    ensures Descends(h, q, h[p - 1].parent)
  {
    if h[q - 1].parent != p {
      DescendsUp(h, h[q - 1].parent, p);
    }
  }

  lemma {:induction false} DescendsLater(h: seq<Node>, n: Node, q: nat, p: nat)
    requires ParentsBefore(h) && ParentsBefore(h + [n]) && 1 <= q <= |h|
    ensures Descends(h + [n], q, p) <==> Descends(h, q, p)
  {
    if h[q - 1].parent != 0 && h[q - 1].parent != p {
      DescendsLater(h, n, h[q - 1].parent, p);
    }
  }

  /** No two different rows ever appended have the same link. */
  ghost predicate LinksApart(sha: string -> string, h: seq<Node>) {
    forall i, j :: 0 <= i < |h| && 0 <= j < |h| && ChainLink(sha, h[i].entry) == ChainLink(sha, h[j].entry) ==>
      h[i].entry == h[j].entry
  }

  lemma AnchorOf(sha: string -> string, h: seq<Node>, q: nat)
    requires HexOutput(sha) && Anchored(sha, h) && 1 <= q <= |h|
    ensures var parent := h[q - 1].parent;
            parent < q && h[q - 1].entry.prevHash == Anchor(sha, h, parent)
    ensures h[q - 1].entry.prevHash == "" <==> h[q - 1].parent == 0
  {
    var i, parent := q - 1, h[q - 1].parent;
    assert AnchoredAt(sha, h, i);
    assert parent != 0 ==> ChainLink(sha, h[parent - 1].entry) == sha(Body(h[parent - 1].entry)) != "";
  }

  /** Along a line of descent no entry occurs twice. */
  lemma {:induction false} LineDistinct(sha: string -> string, h: seq<Node>, q: nat, p: nat)
    requires HexOutput(sha) && Anchored(sha, h) && LinksApart(sha, h)
    requires ParentsBefore(h) && 1 <= q <= |h| && 1 <= p <= |h| && Descends(h, q, p)
    ensures h[q - 1].entry != h[p - 1].entry
    decreases p
  {
    var x, y := h[q - 1].parent, h[p - 1].parent;
    AnchorOf(sha, h, q);
    AnchorOf(sha, h, p);
    if y != 0 && h[q - 1].entry == h[p - 1].entry {
      assert ChainLink(sha, h[x - 1].entry) == ChainLink(sha, h[y - 1].entry);
      assert h[x - 1].entry == h[y - 1].entry;
      if x != p {
        DescendsUp(h, x, p);
      }
      LineDistinct(sha, h, x, y);
    }
  }

  // ----- The table in it -----

  ghost predicate Recorded(sha: string -> string, l: Log) {
    && l.state.table.lastId == |l.history| && IdsAscend(l.state.table)
    && Anchored(sha, l.history) && ParentsBefore(l.history)
    && InHistory(l.state.table.rows, l.history)
  }

  /** The rows are rows of the history, each descending from those in front of it. */
  ghost predicate InHistory(rows: seq<Row>, h: seq<Node>)
    requires ParentsBefore(h)
  {
    && (forall k :: 0 <= k < |rows| ==> 1 <= rows[k].id <= |h| && rows[k].entry == h[rows[k].id - 1].entry)
    && (forall k, m :: 0 <= k < m < |rows| ==> Descends(h, rows[m].id, rows[k].id))
  }

  lemma InLonger(rows: seq<Row>, h: seq<Node>, n: Node)
    requires ParentsBefore(h) && InHistory(rows, h) && n.parent <= |h|
    ensures ParentsBefore(h + [n]) && InHistory(rows, h + [n])
  {
    forall k, m | 0 <= k < m < |rows|
      ensures Descends(h + [n], rows[m].id, rows[k].id)
    {
      DescendsLater(h, n, rows[m].id, rows[k].id);
    }
  }

  lemma RowMore(rows: seq<Row>, h: seq<Node>, r: Row)
    requires ParentsBefore(h) && InHistory(rows, h) && h != [] && r.id == |h| && r.entry == h[|h| - 1].entry
    requires h[|h| - 1].parent == if rows == [] then 0 else rows[|rows| - 1].id
    ensures InHistory(rows + [r], h)
  {
    var rows' := rows + [r];
    forall k, m | 0 <= k < m < |rows'|
      ensures Descends(h, rows'[m].id, rows'[k].id)
    {
      if m == |rows| && k < |rows| - 1 {
        assert Descends(h, rows[|rows| - 1].id, rows[k].id);
      }
    }
  }

  lemma AnchoredMore(sha: string -> string, h: seq<Node>, n: Node)
    requires Anchored(sha, h) && n.parent <= |h|
    requires n.entry.prevHash == Anchor(sha, h, n.parent)
    ensures Anchored(sha, h + [n])
  {
    forall i | 0 <= i < |h + [n]|
      ensures AnchoredAt(sha, h + [n], i)
    {
      assert i < |h| ==> AnchoredAt(sha, h, i);
    }
  }

  lemma AppendRecorded(sha: string -> string, l: Log, op: Op)
    requires Recorded(sha, l) && op.Append?
    ensures Recorded(sha, Follow(sha, l, op))
  {
    var l' := Follow(sha, l, op);
    var rows, h := l.state.table.rows, l.history;
    var r, n := l'.state.table.rows[|rows|], l'.history[|h|];
    assert rows != [] ==> 1 <= rows[|rows| - 1].id <= |h| && rows[|rows| - 1].entry == h[rows[|rows| - 1].id - 1].entry;
    AnchoredMore(sha, h, n);
    InLonger(rows, h, n);
    RowMore(rows, h + [n], r);
    assert l'.state.table.rows == rows + [r] && l'.history == h + [n];
  }

  /** Where the survivors of a prune stood. */
  lemma {:induction false} SurvivorsAt(rows: seq<Row>, cutoff: string) returns (at: seq<nat>)
    ensures var left := Survivors(rows, cutoff);
            && |at| == |left| && (forall k :: 0 <= k < |at| ==> at[k] < |rows| && left[k] == rows[at[k]])
            && (forall k, m :: 0 <= k < m < |at| ==> at[k] < at[m])
  {
    at := [];
    if rows != [] {
      var rest := SurvivorsAt(rows[1..], cutoff);
      var shifted := seq(|rest|, k requires 0 <= k < |rest| => rest[k] + 1);
      at := if Before(rows[0].entry.ts, cutoff) then shifted else [0] + shifted;
    }
  }

  lemma PruneRecorded(sha: string -> string, l: Log, cutoff: string)
    requires Recorded(sha, l)
    ensures Recorded(sha, Follow(sha, l, Prune(cutoff)))
  {
    KeptInHistory(l.state.table.rows, l.history, cutoff);
    KeptAscend(l.state.table, cutoff);
  }

  lemma KeptInHistory(rows: seq<Row>, h: seq<Node>, cutoff: string)
    requires ParentsBefore(h) && InHistory(rows, h)
    ensures InHistory(Survivors(rows, cutoff), h)
  {
    var at := SurvivorsAt(rows, cutoff);
  }

  lemma KeptAscend(t: Table, cutoff: string)
    requires IdsAscend(t)
    ensures IdsAscend(t.(rows := Survivors(t.rows, cutoff)))
  {
    var at := SurvivorsAt(t.rows, cutoff);
  }

  lemma {:induction false} AlwaysRecorded(sha: string -> string, ops: seq<Op>)
    ensures Recorded(sha, History(sha, ops))
  {
    if ops != [] {
      var l := History(sha, ops[..|ops| - 1]);
      AlwaysRecorded(sha, ops[..|ops| - 1]);
      match ops[|ops| - 1]
      case Append(_, _, _, _, _) => AppendRecorded(sha, l, ops[|ops| - 1]);
      case Prune(cutoff) => PruneRecorded(sha, l, cutoff);
      case Clear =>
    }
  }

  /** Row k stands directly behind the row it was appended after, or at the front if there was none. */
  predicate InPlace(l: Log, k: nat)
    requires k < |l.state.table.rows| && 1 <= l.state.table.rows[k].id <= |l.history|
  {
    var rows := l.state.table.rows;
    l.history[rows[k].id - 1].parent == if k == 0 then 0 else rows[k - 1].id
  }

  lemma LinkExactly(sha: string -> string, l: Log, k: nat)
    requires HexOutput(sha) && Recorded(sha, l) && LinksApart(sha, l.history) && k < |l.state.table.rows|
    ensures LinkOk(sha, l.state.table.rows, k) <==> InPlace(l, k)
  {
    var rows, h := l.state.table.rows, l.history;
    var parent := h[rows[k].id - 1].parent;
    assert rows[k].entry == h[rows[k].id - 1].entry;
    AnchorOf(sha, h, rows[k].id);
    if k > 0 {
      var before := rows[k - 1].id;
      assert Descends(h, rows[k].id, before);
      assert rows[k - 1].entry == h[before - 1].entry;
      if parent != before {
        LineDistinct(sha, h, parent, before);
      }
    }
  }

  /** The verdict after any run, under any clock: the verifier reports exactly the oldest row whose predecessor of
      the day has been pruned from in front of it, and accepts when there is none; unless two rows ever appended
      are a hash collision. */
  lemma VerdictExactly(sha: string -> string, ops: seq<Op>, k: nat)
    requires HexOutput(sha) && LinksApart(sha, History(sha, ops).history) && k < |Run(sha, ops).table.rows|
    ensures var l := History(sha, ops);
            var rows := Run(sha, ops).table.rows;
            && l.state.table.rows == rows && (forall i :: 0 <= i < |rows| ==> 1 <= rows[i].id <= |l.history|)
            && (Accepted(sha, rows) <==> forall i :: 0 <= i < |rows| ==> InPlace(l, i))
            && (FirstMismatch(sha, rows, k) <==> !InPlace(l, k) && forall i :: 0 <= i < k ==> InPlace(l, i))
  {
    var l := History(sha, ops);
    HistoryIsRun(sha, ops);
    AlwaysRecorded(sha, ops);
    var rows := l.state.table.rows;
    forall i | 0 <= i < |rows|
      ensures LinkOk(sha, rows, i) <==> InPlace(l, i)
    {
      LinkExactly(sha, l, i);
    }
    AcceptedPrefix(sha, rows, k);
  }
}
