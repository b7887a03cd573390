/** Logins that overlap: each reads the enrolment and writes it back in separate calls to the store
    (internal/services/totp/service.go). */
module CodeOverlap {
  import opened Wrappers
  import opened Arith
  import opened Text
  import opened Totp

  /** The enrolment, the places of the backup codes spent so far, and the copies that logins have read. */
  datatype System = System(row: Row, spent: seq<nat>, copies: map<nat, Row>)

  datatype Event =
    | Fetch(id: nat)
    | Answer(id: nat, code: string, unix: int)    // judges the copy and, if the code passes, writes it back

  ghost function Outcome(p: Primitives, s: System, e: Event): Outcome
    requires Lawful(p)
  {
    if e.Answer? && e.id in s.copies then Judge(p, s.copies[e.id], e.code, e.unix) else Invalid
  }

  /** The place of a backup code. */
  function Place(p: Primitives, row: Row, code: string): Option<nat> {
    LastMatch(row.hashes, p.hash(code), |row.hashes|)
  }

  ghost function Step(p: Primitives, s: System, e: Event): System
    requires Lawful(p)
  {
    match e
    case Fetch(id) => if id in s.copies then s else s.(copies := s.copies[id := s.row])
    case Answer(id, code, unix) =>
      if id !in s.copies then s
      else
        var copy := s.copies[id];
        match Judge(p, copy, code, unix)
        case NotEnrolled => s.(copies := s.copies - {id})
        case Invalid => s.(copies := s.copies - {id})
        case ByClock => System(copy, s.spent, s.copies - {id})
        case ByBackup => System(Advanced(p, copy, code, unix), s.spent + [Place(p, copy, code).value], s.copies - {id})
  }

  /** An enrolment with no more codes than the mask has places, none of them used. */
  predicate Fresh(row: Row) {
    row.used == 0 && |row.hashes| <= 64
  }

  ghost function Run(p: Primitives, row: Row, events: seq<Event>): System
    requires Lawful(p)
  {
    if events == [] then System(row, [], map[])
    else Step(p, Run(p, row, events[..|events| - 1]), events[|events| - 1])
  }

  /** No code is spent twice, and the mask says which are spent. */
  ghost predicate Sound(s: System) {
    && Distinct(s.spent)
    && (forall i: nat :: TestBit(s.row.used, i) <==> i in s.spent)
    && (forall i :: 0 <= i < |s.spent| ==> s.spent[i] < |s.row.hashes|)
  }

  /** All copies are of the one enrolment. */
  ghost predicate SameCodes(row: Row, s: System) {
    s.row.hashes == row.hashes && forall id :: id in s.copies ==> s.copies[id].hashes == row.hashes
  }

  lemma {:induction false} RunSameCodes(p: Primitives, row: Row, events: seq<Event>)
    requires Lawful(p)
    ensures SameCodes(row, Run(p, row, events))
  {
    if events != [] {
      RunSameCodes(p, row, events[..|events| - 1]);
    }
  }

  lemma {:induction false} SameBits(m: nat, n: nat)
    requires forall i: nat :: TestBit(m, i) <==> TestBit(n, i)
    ensures m == n
    decreases m + n
  {
    if m + n > 0 {
      assert TestBit(m, 0) <==> TestBit(n, 0);
      forall i: nat
        ensures TestBit(m / 2, i) <==> TestBit(n / 2, i)
      {
        assert TestBit(m, i + 1) <==> TestBit(n, i + 1);
      }
      SameBits(m / 2, n / 2);
    }
  }

  /** A write is harmless when no code has been spent since the copy was read. */
  ghost predicate Harmless(p: Primitives, s: System, e: Event)
    requires Lawful(p)
  {
    !Outcome(p, s, e).Invalid? ==> s.copies[e.id].used == s.row.used
  }

  lemma ClockExactly(s: System, copy: Row)
    requires Sound(s) && copy.hashes == s.row.hashes
    ensures Sound(System(copy, s.spent, map[])) <==> copy.used == s.row.used
  {
    if Sound(System(copy, s.spent, map[])) {
      SameBits(copy.used, s.row.used);
    }
  }

  lemma BackupExactly(s: System, copy: Row, place: nat, used: nat)
    requires Sound(s) && copy.hashes == s.row.hashes && place < |copy.hashes|
    requires !TestBit(copy.used, place) && forall i: nat :: TestBit(used, i) <==> i == place || TestBit(copy.used, i)
    ensures Sound(System(copy.(used := used), s.spent + [place], map[])) <==> copy.used == s.row.used
  {
    var t := System(copy.(used := used), s.spent + [place], map[]);
    assert forall i: nat :: i in t.spent <==> i in s.spent || i == place;
    assert Distinct(t.spent) <==> place !in s.spent by {
      assert t.spent[|s.spent|] == place;
      assert forall i :: 0 <= i < |s.spent| ==> t.spent[i] == s.spent[i];
    }
    if Sound(t) {
      forall i: nat
        ensures TestBit(copy.used, i) <==> TestBit(s.row.used, i)
      {
        assert TestBit(used, i) <==> i in t.spent;
      }
      SameBits(copy.used, s.row.used);
    }
  }

  lemma StepExactly(p: Primitives, row: Row, s: System, e: Event)
    requires Lawful(p) && |row.hashes| <= 64 && Sound(s) && SameCodes(row, s)
    ensures Sound(Step(p, s, e)) <==> Harmless(p, s, e)
  {
    if e.Answer? && e.id in s.copies {
      var copy := s.copies[e.id];
      match Judge(p, copy, e.code, e.unix)
      case NotEnrolled =>
      case Invalid =>
      case ByClock => ClockExactly(s, copy);
      case ByBackup =>
        var place := Place(p, copy, e.code).value;
        AndTests(copy.used, place);
        forall i: nat
          ensures TestBit(Or(copy.used, Pow2(place)), i) <==> i == place || TestBit(copy.used, i)
        {
          OrSets(copy.used, place, i);
        }
        BackupExactly(s, copy, place, Or(copy.used, Pow2(place)));
    }
  }

  ghost predicate SoundAt(p: Primitives, row: Row, events: seq<Event>, k: nat)
    requires Lawful(p) && k <= |events|
  {
    Sound(Run(p, row, events[..k]))
  }

  ghost predicate HarmlessAt(p: Primitives, row: Row, events: seq<Event>, k: nat)
    requires Lawful(p) && k < |events|
  {
    Harmless(p, Run(p, row, events[..k]), events[k])
  }

  lemma NextExactly(p: Primitives, row: Row, events: seq<Event>, k: nat)
    requires Lawful(p) && |row.hashes| <= 64 && k < |events|
    ensures SoundAt(p, row, events, k) ==> (SoundAt(p, row, events, k + 1) <==> HarmlessAt(p, row, events, k))
  {
    assert events[..k + 1][..k] == events[..k];
    RunSameCodes(p, row, events[..k]);
    if SoundAt(p, row, events, k) {
      StepExactly(p, row, Run(p, row, events[..k]), events[k]);
    }
  }

  lemma {:induction false} SoundUpTo(p: Primitives, row: Row, events: seq<Event>, n: nat)
    requires Lawful(p) && Fresh(row) && n <= |events|
    ensures (forall k :: 0 <= k <= n ==> SoundAt(p, row, events, k))
            <==> (forall k :: 0 <= k < n ==> HarmlessAt(p, row, events, k))
  {
    if n == 0 {
      assert events[..0] == [];
      forall i: nat
        ensures !TestBit(0, i)
      {
        NoBits(i);
      }
    } else {
      SoundUpTo(p, row, events, n - 1);
      NextExactly(p, row, events, n - 1);
    }
  }

  /** Over all runs of overlapping logins on one enrolment: no backup code is ever spent twice, and the mask always
      says which are, if and only if no login writes back a copy that another has overtaken. */
  lemma SoundExactly(p: Primitives, row: Row, events: seq<Event>)
    requires Lawful(p) && Fresh(row)
    ensures (forall k :: 0 <= k <= |events| ==> SoundAt(p, row, events, k))
            <==> (forall k :: 0 <= k < |events| ==> HarmlessAt(p, row, events, k))
  {
    SoundUpTo(p, row, events, |events|);
  }

  // ----- What it means -----

  function Bits(mask: nat, n: nat): set<nat> {
    set i: nat | i < n && TestBit(mask, i)
  }

  lemma {:induction false} CountBitsSize(mask: nat, n: nat)
    ensures CountBits(mask, n) == |Bits(mask, n)|
  {
    if n > 0 {
      CountBitsSize(mask, n - 1);
      assert Bits(mask, n) == Bits(mask, n - 1) + if TestBit(mask, n - 1) then {n - 1} else {};
    }
  }

  function Members(s: seq<nat>): set<nat> {
    set x | x in s
  }

  lemma {:induction false} DistinctSize(s: seq<nat>)
    requires Distinct(s)
    ensures |Members(s)| == |s|
  {
    if s != [] {
      var n := |s| - 1;
      DistinctSize(s[..n]);
      assert s == s[..n] + [s[n]] && s[n] !in s[..n];
      assert Members(s) == Members(s[..n]) + {s[n]};
    }
  }

  /** Codes spent and codes left then add up to the list. */
  lemma SoundAddsUp(s: System)
    requires Sound(s) && |s.row.hashes| <= BACKUP_CODES
    ensures |s.spent| + CodesLeft(s.row) == |s.row.hashes|
  {
    CountBitsSize(s.row.used, BACKUP_CODES);
    DistinctSize(s.spent);
    assert Bits(s.row.used, BACKUP_CODES) == Members(s.spent);
    CountAtMost(s.row.used, |s.row.hashes|, BACKUP_CODES);
  }

  /** A login without another in between is an attempt of the serial model. */
  lemma SerialIsARun(p: Primitives, s: System, id: nat, code: string, unix: int)
    requires Lawful(p) && id !in s.copies
    ensures var t := Step(p, Step(p, s, Fetch(id)), Answer(id, code, unix));
            t.row == Advanced(p, s.row, code, unix) && t.copies == s.copies
  {
  }

  /** Two logins that read before either writes spend one code twice. */
  lemma OneCodeTwice(p: Primitives, s: System, code: string, unix: int)
    requires Lawful(p) && 1 !in s.copies && 2 !in s.copies && Judge(p, s.row, code, unix).ByBackup?
    ensures var read := Step(p, Step(p, s, Fetch(1)), Fetch(2));
            var place := Place(p, s.row, code).value;
            Step(p, Step(p, read, Answer(1, code, unix)), Answer(2, code, unix)).spent == s.spent + [place] + [place]
  {
  }

  /** A login by the clock that was overtaken makes a spent code good again. */
  lemma SpentCodeReturns(p: Primitives, s: System, code: string, other: string, unix: int)
    requires Lawful(p) && 1 !in s.copies && 2 !in s.copies && |s.row.hashes| <= 64
    requires Judge(p, s.row, code, unix).ByBackup? && Judge(p, s.row, other, unix).ByClock?
    ensures var read := Step(p, Step(p, s, Fetch(1)), Fetch(2));
            Step(p, Step(p, read, Answer(1, code, unix)), Answer(2, other, unix)).row == s.row
  {
  }
}
