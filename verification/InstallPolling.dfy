/** The polling loop in the runs of a whole job (internal/services/jobs/firmware_install.go): a worker among all the
    others comes to the result that the loop comes to by itself. */
module InstallPolling {
  import opened Wrappers
  import opened FirmwareInstall
  import opened InstallRuns

  /** One turn of the loop, by the places of its actions in the run: the look at its head, and what ended the
      wait, if it got there: shutdown, or the probe after it. */
  datatype Turn = Turn(head: nat, over: Option<nat>)

  predicate IsOver(a: Action) {
    a.WaitCut? || a.ProbeReturns?
  }

  /** The turns that worker `i` has begun. */
  function Turns(c: Config, s: Job, actions: seq<Action>, n: nat, i: nat): seq<Turn>
    requires n <= |actions|
  {
    if n == 0 then []
    else
      var turns, a := Turns(c, s, actions, n - 1, i), actions[n - 1];
      if !Takes(Run(c, s, actions[..n - 1]), a, i) then turns
      else if a.Head? then turns + [Turn(n - 1, None)]
      else if IsOver(a) && turns != [] then turns[|turns| - 1 := turns[|turns| - 1].(over := Some(n - 1))]
      else turns
  }

  // ----- What a turn meets -----

  predicate Placed(actions: seq<Action>, n: nat, turn: Turn)
    requires n <= |actions|
  {
    turn.head < n && (turn.over.Some? ==> turn.head < turn.over.value < n && IsOver(actions[turn.over.value]))
  }

  predicate AllPlaced(actions: seq<Action>, n: nat, turns: seq<Turn>)
    requires n <= |actions|
  {
    forall j :: 0 <= j < |turns| ==> Placed(actions, n, turns[j])
  }

  predicate FoundDown(actions: seq<Action>, turn: Turn)
    requires Placed(actions, |actions|, turn)
  {
    Shutdown in actions[..turn.head]
  }

  predicate WasCut(actions: seq<Action>, turn: Turn)
    requires Placed(actions, |actions|, turn)
  {
    turn.over.Some? && actions[turn.over.value].WaitCut?
  }

  function AnswerOf(actions: seq<Action>, turn: Turn): Option<string>
    requires Placed(actions, |actions|, turn)
  {
    if turn.over.Some? && actions[turn.over.value].ProbeReturns? then actions[turn.over.value].version else None
  }

  predicate WentOn(s: Job, actions: seq<Action>, turn: Turn, deadline: nat)
    requires Placed(actions, |actions|, turn)
  {
    !FoundDown(actions, turn) && Clock(s, actions, turn.head) <= deadline
  }

  /** The turn is over and the loop not. */
  predicate Passed(s: Job, actions: seq<Action>, turn: Turn, deadline: nat, fromVer: string)
    requires Placed(actions, |actions|, turn)
  {
    WentOn(s, actions, turn, deadline) && turn.over.Some? && !Moved(fromVer, AnswerOf(actions, turn))
  }

  /** Between a turn that is over and a later moment lies a whole poll interval, unless shutdown cut it short. */
  predicate Spaced(c: Config, s: Job, actions: seq<Action>, turn: Turn, m: nat)
    requires Placed(actions, |actions|, turn) && m <= |actions|
  {
    && turn.over.Some? && turn.over.value < m
    && if WasCut(actions, turn) then Shutdown in actions[..m]
       else Clock(s, actions, m) >= Clock(s, actions, turn.head) + c.pollInterval
  }

  /** The first turns are over, and each begins a poll interval after the one before; the first does after the quiet
      period. */
  predicate AllPassed(c: Config, s: Job, actions: seq<Action>, turns: seq<Turn>, count: nat, w: Worker)
    requires count <= |turns| && AllPlaced(actions, |actions|, turns)
  {
    && (forall j :: 0 <= j < count ==> Passed(s, actions, turns[j], w.deadline, w.fromVer))
    && (forall j :: 0 < j < |turns| ==> Spaced(c, s, actions, turns[j - 1], turns[j].head))
    && (turns != [] ==> Clock(s, actions, turns[0].head) + c.timeout >= w.deadline + c.quietPeriod)
  }

  /** The last turn has begun its wait, the ones before it are over. */
  predicate InTurn(c: Config, s: Job, actions: seq<Action>, turns: seq<Turn>, w: Worker)
    requires AllPlaced(actions, |actions|, turns)
  {
    && turns != [] && AllPassed(c, s, actions, turns, |turns| - 1, w)
    && WentOn(s, actions, turns[|turns| - 1], w.deadline) && turns[|turns| - 1].over == None
  }

  /** The last turn has ended the loop, or there was none. */
  predicate AfterTurns(c: Config, s: Job, actions: seq<Action>, turns: seq<Turn>, w: Worker)
    requires AllPlaced(actions, |actions|, turns)
  {
    if turns == [] then w.status != Current
    else
      var last := turns[|turns| - 1];
      && AllPassed(c, s, actions, turns, |turns| - 1, w)
      && if WentOn(s, actions, last, w.deadline)
         then !WasCut(actions, last) && Moved(w.fromVer, AnswerOf(actions, last))
              && w.status == Current && w.toVer == AnswerOf(actions, last).value
         else w.status == Unknown
  }

  /** Where a worker with these turns behind it stands. */
  predicate Told(c: Config, s: Job, actions: seq<Action>, n: nat, w: Worker, turns: seq<Turn>)
    requires n <= |actions|
  {
    && AllPlaced(actions, n, turns)
    && match w.phase
       case Refused => turns == []
       case Queued => turns == []
       case Begun => turns == []
       case Triggering => turns == []
       case Quiet(until) => turns == [] && until + c.timeout == w.deadline + c.quietPeriod
       case LoopTop =>
         && AllPassed(c, s, actions, turns, |turns|, w)
         && if turns != [] then Spaced(c, s, actions, turns[|turns| - 1], n)
            else Clock(s, actions, n) + c.timeout >= w.deadline + c.quietPeriod
       case PollWait(until) =>
         InTurn(c, s, actions, turns, w) && until == Clock(s, actions, turns[|turns| - 1].head) + c.pollInterval
       case Probing =>
         && InTurn(c, s, actions, turns, w)
         && Clock(s, actions, n) >= Clock(s, actions, turns[|turns| - 1].head) + c.pollInterval
       case Leaving => AfterTurns(c, s, actions, turns, w)
       case Finished => AfterTurns(c, s, actions, turns, w)
  }

  lemma Onward(s: Job, actions: seq<Action>, n: nat)
    requires n < |actions|
    ensures Clock(s, actions, n) <= Clock(s, actions, n + 1)
    ensures Shutdown in actions[..n] ==> Shutdown in actions[..n + 1]
  {
    assert actions[..n + 1][..n] == actions[..n];
  }

  lemma StaysTold(c: Config, s: Job, actions: seq<Action>, n: nat, w: Worker, turns: seq<Turn>)
    requires n < |actions| && Told(c, s, actions, n, w, turns)
    ensures Told(c, s, actions, n + 1, w, turns)
  {
    Onward(s, actions, n);
  }

  /** The worker's own actions; `t` is the job at the n-th. */
  lemma OwnTold(c: Config, s: Job, actions: seq<Action>, n: nat, t: Job, i: nat, turns: seq<Turn>)
    requires n < |actions| && i < |t.workers| && Takes(t, actions[n], i) && PhaseFits(t.workers[i])
    requires t.now == Clock(s, actions, n) && (t.shutdown <==> Shutdown in actions[..n])
    requires Told(c, s, actions, n, t.workers[i], turns) && !actions[n].Head? && !IsOver(actions[n])
    ensures Told(c, s, actions, n + 1, After(c, t, t.workers[i], actions[n]), turns)
  {
    Onward(s, actions, n);
  }

  lemma HeadTold(c: Config, s: Job, actions: seq<Action>, n: nat, t: Job, i: nat, turns: seq<Turn>)
    requires n < |actions| && i < |t.workers| && Takes(t, actions[n], i) && PhaseFits(t.workers[i])
    requires t.now == Clock(s, actions, n) && (t.shutdown <==> Shutdown in actions[..n])
    requires Told(c, s, actions, n, t.workers[i], turns) && actions[n].Head?
    ensures Told(c, s, actions, n + 1, After(c, t, t.workers[i], actions[n]), turns + [Turn(n, None)])
  {
    Onward(s, actions, n);
  }

  lemma OverTold(c: Config, s: Job, actions: seq<Action>, n: nat, t: Job, i: nat, turns: seq<Turn>)
    requires n < |actions| && i < |t.workers| && Takes(t, actions[n], i) && PhaseFits(t.workers[i])
    requires t.now == Clock(s, actions, n) && (t.shutdown <==> Shutdown in actions[..n])
    requires Told(c, s, actions, n, t.workers[i], turns) && IsOver(actions[n])
    ensures turns != []
    ensures Told(c, s, actions, n + 1, After(c, t, t.workers[i], actions[n]),
                 turns[|turns| - 1 := turns[|turns| - 1].(over := Some(n))])
  {
    Onward(s, actions, n);
  }

  lemma NextTold(c: Config, s: Job, actions: seq<Action>, n: nat, i: nat)
    requires Unbegun(s) && n < |actions| && i < |s.workers|
    requires Told(c, s, actions, n, WorkerAt(c, s, actions, n, i), Turns(c, s, actions, n, i))
    ensures Told(c, s, actions, n + 1, WorkerAt(c, s, actions, n + 1, i), Turns(c, s, actions, n + 1, i))
  {
    var t, turns := Run(c, s, actions[..n]), Turns(c, s, actions, n, i);
    WorkerNext(c, s, actions, n, i);
    WorkerFits(c, s, actions, n, i);
    ClockIs(c, s, actions[..n]);
    if !Takes(t, actions[n], i) {
      StaysTold(c, s, actions, n, t.workers[i], turns);
    } else if actions[n].Head? {
      HeadTold(c, s, actions, n, t, i, turns);
    } else if IsOver(actions[n]) {
      OverTold(c, s, actions, n, t, i, turns);
    } else {
      OwnTold(c, s, actions, n, t, i, turns);
    }
  }

  lemma {:induction false} ToldAt(c: Config, s: Job, actions: seq<Action>, n: nat, i: nat)
    requires Unbegun(s) && n <= |actions| && i < |s.workers|
    ensures Told(c, s, actions, n, WorkerAt(c, s, actions, n, i), Turns(c, s, actions, n, i))
  {
    if n == 0 {
      assert actions[..0] == [];
    } else {
      ToldAt(c, s, actions, n - 1, i);
      NextTold(c, s, actions, n - 1, i);
    }
  }

  lemma {:induction false} TurnsOwn(c: Config, s: Job, actions: seq<Action>, n: nat, i: nat)
    requires n <= |actions|
    ensures AllPlaced(actions, n, Turns(c, s, actions, n, i))
    ensures forall j :: 0 <= j < |Turns(c, s, actions, n, i)| ==> OwnTurn(actions, i, Turns(c, s, actions, n, i)[j])
  {
    if n > 0 {
      TurnsOwn(c, s, actions, n - 1, i);
    }
  }

  lemma TurnsBegin(c: Config, s: Job, actions: seq<Action>, n: nat, i: nat)
    requires Unbegun(s) && n < |actions| && i < |s.workers|
    ensures Turns(c, s, actions, n + 1, i) != [] ==>
              Turns(c, s, actions, n, i) != [] || WorkerAt(c, s, actions, n, i).status == Updating
  {
    WorkerNext(c, s, actions, n, i);
    WorkerFits(c, s, actions, n, i);
  }

  /** The loop's deadline is the timeout after the trigger. */
  lemma TriggeredFirst(c: Config, s: Job, actions: seq<Action>, n: nat, i: nat)
    requires Unbegun(s) && n <= |actions| && i < |s.workers| && Turns(c, s, actions, n, i) != []
    ensures exists j: nat :: j < n && TriggeredAt(c, s, actions, j, i, true)
                             && WorkerAt(c, s, actions, n, i).deadline == Clock(s, actions, j) + c.timeout
  {
    EverTriggeredFirst(c, s, actions, n, i);
    var j: nat :| j < n && TriggeredAt(c, s, actions, j, i, true);
    DeadlineIs(c, s, actions, n, i);
  }

  lemma {:induction false} EverTriggeredFirst(c: Config, s: Job, actions: seq<Action>, n: nat, i: nat)
    requires Unbegun(s) && n <= |actions| && i < |s.workers| && Turns(c, s, actions, n, i) != []
    ensures EverTriggered(c, s, actions, n, i, true)
  {
    TurnsBegin(c, s, actions, n - 1, i);
    if Turns(c, s, actions, n - 1, i) != [] {
      EverTriggeredFirst(c, s, actions, n - 1, i);
    } else {
      DeadlineIs(c, s, actions, n - 1, i);
    }
  }

  /** The look and the end of the wait are the worker's own. */
  predicate OwnTurn(actions: seq<Action>, i: nat, turn: Turn)
    requires Placed(actions, |actions|, turn)
  {
    actions[turn.head] == Head(i) && (turn.over.Some? ==> actions[turn.over.value].i == i)
  }

  // ----- Waiting -----

  /** A worker leaves the quiet period when it has lasted since the trigger, and a wait when the poll interval has
      passed since the look before it; not earlier, and it need not be later. */
  lemma WaitsExactly(c: Config, s: Job, actions: seq<Action>, n: nat, i: nat, j: nat)
    requires Unbegun(s) && n <= |actions| && i < |s.workers| && j < n && TriggeredAt(c, s, actions, j, i, true)
    ensures var t, p := Run(c, s, actions[..n]), WorkerAt(c, s, actions, n, i).phase;
            var turns := Turns(c, s, actions, n, i);
            && (p.Quiet? ==> (Enabled(t, QuietOver(i)) <==> Clock(s, actions, n) >= Clock(s, actions, j) + c.quietPeriod))
            && (p.PollWait? ==>
                  && turns != [] && turns[|turns| - 1].head < n
                  && (Enabled(t, WaitOver(i)) <==> Clock(s, actions, n) >= Clock(s, actions, turns[|turns| - 1].head) + c.pollInterval))
  {
    ToldAt(c, s, actions, n, i);
    DeadlineIs(c, s, actions, n, i);
    ClockIs(c, s, actions[..n]);
    RunLength(c, s, actions[..n]);
  }

  lemma {:induction false} HeadsPaced(c: Config, s: Job, actions: seq<Action>, turns: seq<Turn>, w: Worker, j: nat)
    requires AllPlaced(actions, |actions|, turns) && InTurn(c, s, actions, turns, w) && j < |turns|
    ensures Clock(s, actions, turns[j].head) + c.timeout >= w.deadline + c.quietPeriod + j * c.pollInterval
  {
    if j > 0 {
      HeadsPaced(c, s, actions, turns, w, j - 1);
      assert Spaced(c, s, actions, turns[j - 1], turns[j].head);
      assert WentOn(s, actions, turns[j], w.deadline);
      assert j * c.pollInterval == (j - 1) * c.pollInterval + c.pollInterval;
    }
  }

  /** The device is left alone: its m-th probe comes back no earlier than the quiet period and m poll intervals after
      the trigger. */
  lemma ProbesPaced(c: Config, versions: seq<string>, targets: seq<string>, allowed: seq<bool>, now: nat,
                    actions: seq<Action>, i: nat, k: nat, j: nat)
    requires |versions| == |targets| == |allowed| && i < |versions| && j < k < |actions|
    requires var s := Start(versions, targets, allowed, now);
             && TriggeredAt(c, s, actions, j, i, true)
             && actions[k].ProbeReturns? && actions[k].i == i && WorkerAt(c, s, actions, k, i).phase.Probing?
    ensures var s := Start(versions, targets, allowed, now);
            Clock(s, actions, k) >= Clock(s, actions, j) + c.quietPeriod + |Turns(c, s, actions, k, i)| * c.pollInterval
  {
    var s := Start(versions, targets, allowed, now);
    var w, turns := WorkerAt(c, s, actions, k, i), Turns(c, s, actions, k, i);
    StartUnbegun(versions, targets, allowed, now);
    ToldAt(c, s, actions, k, i);
    DeadlineIs(c, s, actions, k, i);
    var m := |turns|;
    HeadsPaced(c, s, actions, turns, w, m - 1);
    assert m * c.pollInterval == (m - 1) * c.pollInterval + c.pollInterval;
  }

  // ----- The loop by itself -----

  function Later(time: nat, intervals: nat, interval: nat): (later: nat)
    ensures intervals == 0 ==> later == time
  {
    if intervals == 0 then time else Later(time, intervals - 1, interval) + interval
  }

  function MetAt(c: Config, s: Job, actions: seq<Action>, turns: seq<Turn>, j: nat): nat
    requires AllPlaced(actions, |actions|, turns) && turns != []
  {
    var last := |turns| - 1;
    if j <= last then Clock(s, actions, turns[j].head) else Later(Clock(s, actions, turns[last].head), j - last, c.pollInterval)
  }

  /** What the loop meets when it meets what the turns met, and shutdown after them. */
  function Met(c: Config, s: Job, actions: seq<Action>, turns: seq<Turn>): Environment
    requires AllPlaced(actions, |actions|, turns) && turns != []
  {
    var last := |turns| - 1;
    Environment(
      (j: nat) => MetAt(c, s, actions, turns, j),
      (j: nat) => j > last || FoundDown(actions, turns[j]),
      (j: nat) => j <= last && WasCut(actions, turns[j]),
      (j: nat) => if j <= last then AnswerOf(actions, turns[j]) else None)
  }

  lemma MetPlausible(c: Config, s: Job, actions: seq<Action>, turns: seq<Turn>, w: Worker)
    requires AllPlaced(actions, |actions|, turns) && turns != []
    requires AllPassed(c, s, actions, turns, |turns| - 1, w)
    ensures Plausible(Met(c, s, actions, turns), c.pollInterval)
  {
    var env, last := Met(c, s, actions, turns), |turns| - 1;
    forall k: nat
      ensures env.cut(k) ==> env.down(k + 1)
      ensures !env.cut(k) ==> env.now(k + 1) >= env.now(k) + c.pollInterval
    {
      if k < last {
        assert Spaced(c, s, actions, turns[k + 1 - 1], turns[k + 1].head);
      }
    }
  }

  lemma EndsAsTheLoop(c: Config, s: Job, actions: seq<Action>, turns: seq<Turn>, w: Worker, toVer: string)
    requires AllPlaced(actions, |actions|, turns) && turns != [] && AfterTurns(c, s, actions, turns, w)
    requires w.status != Current ==> w.toVer == toVer
    ensures var env := Met(c, s, actions, turns);
            && Plausible(env, c.pollInterval)
            && Ends(env, w.deadline, w.fromVer, |turns| - 1, InstallResult(Updating, toVer), InstallResult(w.status, w.toVer))
  {
    MetPlausible(c, s, actions, turns, w);
  }

  lemma TurnsEnd(c: Config, s: Job, actions: seq<Action>, n: nat, i: nat)
    requires Unbegun(s) && n <= |actions| && i < |s.workers|
    requires Turns(c, s, actions, n, i) != [] && IsInstallTerminal(WorkerAt(c, s, actions, n, i).status)
    ensures AllPlaced(actions, n, Turns(c, s, actions, n, i))
    ensures AfterTurns(c, s, actions, Turns(c, s, actions, n, i), WorkerAt(c, s, actions, n, i))
  {
    ToldAt(c, s, actions, n, i);
    WorkerFits(c, s, actions, n, i);
  }

  /** From a job that nobody has begun to work on, as Start gives it: a worker that went through the loop and is done
      has the result that the loop, run by itself, comes to when it meets what the worker met. That is the time
      and whether shutdown had begun at its heads, and the answer of the probe after its waits. */
  lemma PollsAsTheLoop(c: Config, s: Job, actions: seq<Action>, n: nat, i: nat)
    requires Unbegun(s) && n <= |actions| && i < |s.workers|
    requires Turns(c, s, actions, n, i) != [] && IsInstallTerminal(WorkerAt(c, s, actions, n, i).status)
    ensures var w, turns := WorkerAt(c, s, actions, n, i), Turns(c, s, actions, n, i);
            && AllPlaced(actions, n, turns)
            && var env := Met(c, s, actions, turns);
            && Plausible(env, c.pollInterval)
            && Ends(env, w.deadline, s.workers[i].fromVer, |turns| - 1,
                    InstallResult(Updating, s.workers[i].toVer), InstallResult(w.status, w.toVer))
            && (forall j :: 0 <= j < |turns| ==> OwnTurn(actions, i, turns[j]) && (j < |turns| - 1 ==> turns[j].over.Some?))
  {
    var w, turns := WorkerAt(c, s, actions, n, i), Turns(c, s, actions, n, i);
    StatusExactly(c, s, actions, n, i, "");
    TurnsEnd(c, s, actions, n, i);
    EndsAsTheLoop(c, s, actions, turns, w, s.workers[i].toVer);
    TurnsOwn(c, s, actions, n, i);
  }
}
