/** The automatic-update toggle, kept as jobs in a device's schedule (internal/core/firmware/autoupdate.go). */
module AutoUpdate {
  import opened Wrappers
  import opened Text

  datatype Call = Call(method_: string, origin: string, stage: string)

  datatype Job = Job(id: nat, enabled: bool, timespec: string, calls: seq<Call>)

  const ORIGIN := "shelly_service"

  const DAILY := "0 0 0 * * 0,1,2,3,4,5,6"

  datatype Mode = Off | Stable | Beta

  function LowerChar(c: char): char {
    if 'A' <= c <= 'Z' then c - 'A' + 'a' else c
  }

  /** `s` in lower case is `t`, which is ASCII. */
  predicate LowersTo(s: string, t: string) {
    |s| == |t| && forall i :: 0 <= i < |s| ==> LowerChar(s[i]) == t[i]
  }

  function ModeName(m: Mode): string {
    match m
    case Off => "off"
    case Stable => "stable"
    case Beta => "beta"
  }

  /** A call that the toggle itself has put into the schedule. */
  predicate IsOurs(c: Call) {
    LowersTo(c.method_, "shelly.update") && c.origin == ORIGIN
  }

  predicate Marked(j: Job) {
    exists k :: 0 <= k < |j.calls| && IsOurs(j.calls[k])
  }

  /** What one call says about the mode: off when nothing. */
  function Says(c: Call): Mode {
    if !IsOurs(c) then Off
    else if LowersTo(c.stage, "stable") then Stable
    else if LowersTo(c.stage, "beta") then Beta
    else Off
  }

  function FirstSaid(calls: seq<Call>, i: nat): Mode
    requires i <= |calls|
    decreases |calls| - i
  {
    if i == |calls| then Off else if Says(calls[i]) != Off then Says(calls[i]) else FirstSaid(calls, i + 1)
  }

  function JobSays(j: Job): Mode {
    if j.enabled then FirstSaid(j.calls, 0) else Off
  }

  /** The mode of a schedule: that of the first enabled job that says one. */
  function ModeOf(jobs: seq<Job>): Mode {
    if jobs == [] then Off else if JobSays(jobs[0]) != Off then JobSays(jobs[0]) else ModeOf(jobs[1..])
  }

  /** The jobs that are (or are not) the toggle's, in order. */
  function Filter(jobs: seq<Job>, marked: bool): seq<Job> {
    if jobs == [] then []
    else if Marked(jobs[0]) == marked then [jobs[0]] + Filter(jobs[1..], marked)
    else Filter(jobs[1..], marked)
  }

  function Unmarked(jobs: seq<Job>): seq<Job> {
    Filter(jobs, false)
  }

  predicate UniqueIds(jobs: seq<Job>) {
    forall i, j :: 0 <= i < j < |jobs| ==> jobs[i].id != jobs[j].id
  }

  function Without(jobs: seq<Job>, id: nat): seq<Job> {
    if jobs == [] then []
    else if jobs[0].id == id then Without(jobs[1..], id)
    else [jobs[0]] + Without(jobs[1..], id)
  }

  function NewJob(id: nat, mode: Mode): Job {
    Job(id, true, DAILY, [Call("Shelly.Update", ORIGIN, ModeName(mode))])
  }

  /** What becomes of a request: it is carried out, or refused, or carried out with the answer lost. */
  datatype Fate = Done | Refused | Lost

  class Device {
    var jobs: seq<Job>
    var nextId: nat

    ghost predicate Valid()
      reads this
    {
      UniqueIds(jobs) && forall i :: 0 <= i < |jobs| ==> jobs[i].id < nextId
    }

    constructor ()
      ensures Valid() && jobs == []
    {
      jobs, nextId := [], 0;
    }

    method Delete(id: nat, fate: Fate) returns (ok: bool)
      modifies this`jobs
      ensures ok == fate.Done?
      ensures jobs == if fate.Refused? then old(jobs) else Without(old(jobs), id)
    {
      if !fate.Refused? {
        jobs := Remove(jobs, id);
      }
      return fate.Done?;
    }

    method Create(mode: Mode, fate: Fate) returns (ok: bool)
      modifies this
      ensures ok == fate.Done?
      ensures jobs == if fate.Refused? then old(jobs) else old(jobs) + [NewJob(old(nextId), mode)]
      ensures nextId == if fate.Refused? then old(nextId) else old(nextId) + 1
    {
      if !fate.Refused? {
        jobs, nextId := jobs + [NewJob(nextId, mode)], nextId + 1;
      }
      return fate.Done?;
    }
  }

  method Remove(jobs: seq<Job>, id: nat) returns (r: seq<Job>)
    ensures r == Without(jobs, id)
  {
    r := [];
    for i := 0 to |jobs|
      invariant r + Without(jobs[i..], id) == Without(jobs, id)
    {
      assert jobs[i..][0] == jobs[i] && jobs[i..][1..] == jobs[i + 1..];
      if jobs[i].id != id {
        r := r + [jobs[i]];
      }
    }
  }

  // ----- Reading -----

  method ReadAutoUpdate(device: Device) returns (mode: Mode)
    ensures mode == ModeOf(device.jobs)
  {
    var jobs := device.jobs;
    for i := 0 to |jobs|
      invariant ModeOf(jobs[i..]) == ModeOf(jobs)
    {
      assert jobs[i..][0] == jobs[i] && jobs[i..][1..] == jobs[i + 1..];
      if !jobs[i].enabled {
        continue;
      }
      var calls := jobs[i].calls;
      for k := 0 to |calls|
        invariant FirstSaid(calls, k) == FirstSaid(calls, 0)
      {
        if !IsOurs(calls[k]) {
          continue;
        }
        if LowersTo(calls[k].stage, "stable") {
          return Stable;
        }
        if LowersTo(calls[k].stage, "beta") {
          return Beta;
        }
      }
    }
    return Off;
  }

  // ----- Setting -----

  /** The text of a request as a mode; blank means off. */
  function Requested(text: string): Option<Mode> {
    var t := Trim(text);
    if t == "" || LowersTo(t, "off") then Some(Off)
    else if LowersTo(t, "stable") then Some(Stable)
    else if LowersTo(t, "beta") then Some(Beta)
    else None
  }

  /** Every mode is asked for by its name, in either case and with any blanks around it; off also by a blank text. */
  predicate AsksFor(text: string, mode: Mode) {
    || LowersTo(Trim(text), match mode case Off => "off" case Stable => "stable" case Beta => "beta")
    || (mode == Off && Trim(text) == "")
  }

  datatype Outcome = Success | BadMode | NoList | DeleteFailed | CreateFailed

  /** The schedule when the first `n` of the listed jobs have been dealt with. */
  function Cleared(list: seq<Job>, n: nat): seq<Job>
    requires n <= |list|
  {
    Unmarked(list[..n]) + list[n..]
  }

  method DeleteMarked(device: Device, fates: nat -> Fate) returns (ok: bool)
    requires device.Valid()
    modifies device`jobs
    ensures ok ==> device.jobs == Unmarked(old(device.jobs))
    ensures Unmarked(device.jobs) == Unmarked(old(device.jobs))
    ensures exists n :: 0 <= n <= |old(device.jobs)| && device.jobs == Cleared(old(device.jobs), n)
  {
    var list := device.jobs;
    assert Cleared(list, 0) == list;
    for i := 0 to |list|
      invariant device.jobs == Cleared(list, i)
    {
      ClearNext(list, i);
      if Marked(list[i]) {
        ok := device.Delete(list[i].id, fates(i));
        if !ok {
          ClearedUnmarked(list, i);
          ClearedUnmarked(list, i + 1);
          return;
        }
      }
    }
    ClearedUnmarked(list, |list|);
    assert list[..|list|] == list && Cleared(list, |list|) == Unmarked(list);
    return true;
  }

  /** Aligns the device's schedule with the requested mode. `fates` says what becomes of the requests. */
  method SetAutoUpdate(device: Device, text: string, list: Fate, deletes: nat -> Fate, create: Fate) returns (r: Outcome)
    requires device.Valid()
    modifies device
    ensures device.Valid()
    ensures r.BadMode? <==> Requested(text).None?
    ensures r.Success? ==>
      Requested(text).Some? && device.jobs == Aligned(old(device.jobs), old(device.nextId), Requested(text).value)
    ensures Unmarked(device.jobs) == Unmarked(old(device.jobs))
    ensures r.BadMode? || r.NoList? ==> device.jobs == old(device.jobs)
    ensures r.DeleteFailed? ==>
      exists n :: 0 <= n <= |old(device.jobs)| && device.jobs == Cleared(old(device.jobs), n)
    ensures r.CreateFailed? ==>
      device.jobs == Unmarked(old(device.jobs))
      || (Requested(text).Some? && device.jobs == Unmarked(old(device.jobs)) + [NewJob(old(device.nextId), Requested(text).value)])
  {
    var mode := Requested(text);
    if mode.None? {
      return BadMode;
    }
    if !list.Done? {
      return NoList;
    }
    ghost var before := device.jobs;
    var ok := DeleteMarked(device, deletes);
    ghost var n :| 0 <= n <= |before| && device.jobs == Cleared(before, n);
    ClearedValid(before, n, device.nextId);
    if !ok {
      return DeleteFailed;
    }
    if mode.value.Off? {
      return Success;
    }
    NewJobMarked(device.nextId, mode.value);
    FilterTwice(before, false);
    FilterAppend(device.jobs, [NewJob(device.nextId, mode.value)], false);
    ok := device.Create(mode.value, create);
    return if ok then Success else CreateFailed;
  }

  lemma {:induction false} FilterAppend(a: seq<Job>, b: seq<Job>, marked: bool)
    ensures Filter(a + b, marked) == Filter(a, marked) + Filter(b, marked)
  {
    if a == [] {
      assert a + b == b;
    } else {
      FilterAppend(a[1..], b, marked);
      assert (a + b)[1..] == a[1..] + b;
      assert [a[0]] + (Filter(a[1..], marked) + Filter(b, marked)) == ([a[0]] + Filter(a[1..], marked)) + Filter(b, marked);
    }
  }

  lemma {:induction false} FilterTwice(jobs: seq<Job>, marked: bool)
    ensures Filter(Filter(jobs, marked), marked) == Filter(jobs, marked)
    ensures Filter(Filter(jobs, marked), !marked) == []
  {
    if jobs != [] {
      FilterTwice(jobs[1..], marked);
      if Marked(jobs[0]) == marked {
        assert Filter(jobs, marked)[1..] == Filter(jobs[1..], marked);
      }
    }
  }

  lemma ClearedUnmarked(list: seq<Job>, n: nat)
    requires n <= |list|
    ensures Unmarked(Cleared(list, n)) == Unmarked(list)
  {
    FilterAppend(Unmarked(list[..n]), list[n..], false);
    FilterTwice(list[..n], false);
    FilterAppend(list[..n], list[n..], false);
    assert list[..n] + list[n..] == list;
  }

  lemma {:induction false} WithoutAppend(a: seq<Job>, b: seq<Job>, id: nat)
    ensures Without(a + b, id) == Without(a, id) + Without(b, id)
  {
    if a == [] {
      assert a + b == b;
    } else {
      WithoutAppend(a[1..], b, id);
      assert (a + b)[1..] == a[1..] + b;
      assert [a[0]] + (Without(a[1..], id) + Without(b, id)) == ([a[0]] + Without(a[1..], id)) + Without(b, id);
    }
  }

  lemma {:induction false} WithoutAbsent(jobs: seq<Job>, id: nat)
    requires forall i :: 0 <= i < |jobs| ==> jobs[i].id != id
    ensures Without(jobs, id) == jobs
  {
    if jobs != [] {
      WithoutAbsent(jobs[1..], id);
      assert jobs == [jobs[0]] + jobs[1..];
    }
  }

  lemma {:induction false} FilterFrom(jobs: seq<Job>, marked: bool, j: Job)
    ensures j in Filter(jobs, marked) <==> j in jobs && Marked(j) == marked
  {
    if jobs != [] {
      FilterFrom(jobs[1..], marked, j);
      assert jobs == [jobs[0]] + jobs[1..];
    }
  }

  /** Deleting the next listed job, if it is marked, takes the schedule one step on. */
  lemma ClearNext(list: seq<Job>, n: nat)
    requires n < |list| && UniqueIds(list)
    ensures Cleared(list, n + 1) ==
            if Marked(list[n]) then Without(Cleared(list, n), list[n].id) else Cleared(list, n)
  {
    var j, before, after := list[n], Unmarked(list[..n]), list[n + 1..];
    assert list[n..] == [j] + after;
    UnmarkedNext(list, n);
    if Marked(j) {
      forall i | 0 <= i < |before|
        ensures before[i].id != j.id
      {
        FilterFrom(list[..n], false, before[i]);
      }
      SkipOne(before, j, after);
    } else {
      assert before + ([j] + after) == (before + [j]) + after;
    }
  }

  lemma UnmarkedNext(list: seq<Job>, n: nat)
    requires n < |list|
    ensures Unmarked(list[..n + 1]) == if Marked(list[n]) then Unmarked(list[..n]) else Unmarked(list[..n]) + [list[n]]
  {
    assert list[..n + 1] == list[..n] + [list[n]];
    FilterAppend(list[..n], [list[n]], false);
    assert Filter([], false) == [] && [list[n]][1..] == [];
  }

  lemma SkipOne(before: seq<Job>, j: Job, after: seq<Job>)
    requires forall i :: 0 <= i < |before| ==> before[i].id != j.id
    requires forall i :: 0 <= i < |after| ==> after[i].id != j.id
    ensures Without(before + ([j] + after), j.id) == before + after
  {
    WithoutAbsent(before, j.id);
    WithoutAbsent(after, j.id);
    WithoutAppend(before, [j] + after, j.id);
    assert ([j] + after)[1..] == after;
  }

  lemma {:induction false} UnmarkedIds(jobs: seq<Job>)
    requires UniqueIds(jobs)
    ensures UniqueIds(Unmarked(jobs))
  {
    if jobs != [] {
      UnmarkedIds(jobs[1..]);
      var rest := Unmarked(jobs[1..]);
      forall i | 0 <= i < |rest|
        ensures rest[i].id != jobs[0].id
      {
        FilterFrom(jobs[1..], false, rest[i]);
      }
    }
  }

  lemma ClearedValid(list: seq<Job>, n: nat, nextId: nat)
    requires n <= |list| && UniqueIds(list) && forall i :: 0 <= i < |list| ==> list[i].id < nextId
    ensures UniqueIds(Cleared(list, n)) && forall i :: 0 <= i < |Cleared(list, n)| ==> Cleared(list, n)[i].id < nextId
  {
    var before, after := Unmarked(list[..n]), list[n..];
    UnmarkedIds(list[..n]);
    forall i | 0 <= i < |before|
      ensures before[i] in list[..n]
    {
      FilterFrom(list[..n], false, before[i]);
    }
    forall i, k | 0 <= i < |before| && 0 <= k < |after|
      ensures before[i].id != after[k].id
    {
      assert before[i] in list[..n] && after[k] == list[n + k];
    }
  }

  lemma NewJobMarked(id: nat, mode: Mode)
    ensures Marked(NewJob(id, mode))
  {
    assert IsOurs(NewJob(id, mode).calls[0]);
  }

  // ----- What setting achieves -----

  lemma {:induction false} NothingSaid(calls: seq<Call>, i: nat)
    requires i <= |calls| && forall k :: 0 <= k < |calls| ==> !IsOurs(calls[k])
    ensures FirstSaid(calls, i) == Off
    decreases |calls| - i
  {
    if i < |calls| {
      NothingSaid(calls, i + 1);
    }
  }

  lemma {:induction false} ModeBehindUnmarked(jobs: seq<Job>, rest: seq<Job>)
    ensures ModeOf(Unmarked(jobs) + rest) == ModeOf(rest)
  {
    if jobs == [] {
      assert Unmarked(jobs) + rest == rest;
    } else {
      ModeBehindUnmarked(jobs[1..], rest);
      if Marked(jobs[0]) {
        assert Unmarked(jobs) == Unmarked(jobs[1..]);
      } else {
        NothingSaid(jobs[0].calls, 0);
        assert (Unmarked(jobs) + rest)[1..] == Unmarked(jobs[1..]) + rest;
      }
    }
  }

  /** The schedule that a successful setting leaves. */
  function Aligned(jobs: seq<Job>, id: nat, mode: Mode): seq<Job> {
    Unmarked(jobs) + if mode.Off? then [] else [NewJob(id, mode)]
  }

  /** Reading what was set gives the mode back; there is one marked job, a daily one, none for off; the other jobs are
      untouched; and setting the same again changes nothing but the number of the marked job. */
  lemma SetThenRead(jobs: seq<Job>, id: nat, mode: Mode, id': nat)
    ensures ModeOf(Aligned(jobs, id, mode)) == mode
    ensures Filter(Aligned(jobs, id, mode), true) == if mode.Off? then [] else [NewJob(id, mode)]
    ensures mode != Off ==> NewJob(id, mode).timespec == "0 0 0 * * 0,1,2,3,4,5,6"
    ensures Unmarked(Aligned(jobs, id, mode)) == Unmarked(jobs)
    ensures Aligned(Aligned(jobs, id, mode), id', mode) == Aligned(jobs, id', mode)
  {
    var rest := if mode.Off? then [] else [NewJob(id, mode)];
    NewJobMarked(id, mode);
    NewJobSays(id, mode);
    ModeBehindUnmarked(jobs, rest);
    FilterTwice(jobs, false);
    FilterAppend(Unmarked(jobs), rest, true);
    FilterAppend(Unmarked(jobs), rest, false);
    assert Filter([], true) == Filter([], false) == [] && [NewJob(id, mode)][1..] == [];
  }

  lemma NewJobSays(id: nat, mode: Mode)
    ensures !mode.Off? ==> ModeOf([NewJob(id, mode)]) == mode
  {
    NewJobMarked(id, mode);
    if !mode.Off? {
      assert Says(NewJob(id, mode).calls[0]) == mode;
    }
  }

  lemma RequestedExactly(text: string, mode: Mode)
    ensures Requested(text) == Some(mode) <==> AsksFor(text, mode)
    ensures AsksFor(ModeName(mode), mode)
  {
    var t := Trim(text);
    if LowersTo(t, ModeName(mode)) {
      LowersToOne(t, mode);
    }
    assert Trim(ModeName(mode)) == ModeName(mode);
  }

  lemma LowersToOne(t: string, mode: Mode)
    requires LowersTo(t, ModeName(mode))
    ensures forall other: Mode :: LowersTo(t, ModeName(other)) ==> other == mode
    ensures t != ""
  {
    assert LowerChar(t[0]) == ModeName(mode)[0];
    forall other: Mode | LowersTo(t, ModeName(other))
      ensures other == mode
    {
      assert LowerChar(t[0]) == ModeName(other)[0];
    }
  }

  /** So a successful setting is one that asked for a mode, and it leaves the device in the mode that was asked for. */
  lemma AskedThenRead(jobs: seq<Job>, id: nat, text: string)
    ensures Requested(text).None? <==> forall mode :: !AsksFor(text, mode)
    ensures Requested(text).Some? ==> forall mode :: AsksFor(text, mode) ==> ModeOf(Aligned(jobs, id, Requested(text).value)) == mode
  {
    forall mode: Mode
      ensures AsksFor(text, mode) <==> Requested(text) == Some(mode)
    {
      RequestedExactly(text, mode);
    }
    if Requested(text).Some? {
      assert AsksFor(text, Requested(text).value);
      SetThenRead(jobs, id, Requested(text).value, 0);
    }
  }

  // ----- What setting leaves alone -----

  /** A capital becomes the small letter at its place in the alphabet, and nothing else changes. */
  lemma LowerCharExactly(c: char)
    ensures if c < 'A' || c > 'Z' then LowerChar(c) == c else LowerChar(c) as int == 'a' as int + (c as int - 'A' as int)
  {
  }

  /** A call that the toggle takes for its own: of the update method, in either case, and with its mark. */
  predicate OwnCall(c: Call) {
    LowersTo(c.method_, "shelly.update") && c.origin == "shelly_service"
  }

  /** Setting removes exactly the jobs with such a call; jobs that somebody else put into the schedule stay, update
      jobs among them. */
  lemma OthersStay(jobs: seq<Job>, id: nat, mode: Mode, j: Job)
    requires j in jobs
    ensures if exists k :: 0 <= k < |j.calls| && OwnCall(j.calls[k])
            then j !in Unmarked(jobs)
            else j in Unmarked(jobs) && j in Aligned(jobs, id, mode)
  {
    FilterFrom(jobs, false, j);
    assert forall c: Call :: OwnCall(c) <==> IsOurs(c);
    if k :| 0 <= k < |j.calls| && OwnCall(j.calls[k]) {
      assert IsOurs(j.calls[k]);
    }
  }
}
