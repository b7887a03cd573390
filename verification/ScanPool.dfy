/** The scan job: the worker pool over one unbuffered channel (internal/core/scanner/scanner.go), the job row
    it reports to (internal/services/jobs/scan.go, internal/db/jobs.go), and the target count that the row
    starts from (internal/services/validation/validation.go). */
module ScanPool {
  import opened Wrappers
  import opened Arith
  import Cidr

  // ----- The machine -----

  /** What a worker is doing; the number is the index of its address. */
  datatype Worker =
    | Idle
    | Got(i: nat)          // received from the channel, cancellation not yet looked at
    | Probing(i: nat)
    | Reporting(i: nat)    // about to call the progress function
    | Quitting(i: nat)     // the same, and then to leave the pool
    | Gone

  datatype Report = Report(address: nat, worker: nat)

  datatype Status = Running | Interrupted | Completed

  datatype Row = Row(status: Status, done: nat, total: nat)

  /** Where the goroutine of the job stands. */
  datatype Stage = Pooling | Discovering | Finishing | Ended

  datatype Job = Job(
    addresses: nat,         // how many addresses the subnets expand to
    mdns: bool,
    drains: bool,           // workers go on receiving after cancellation; those of a refresh leave
    next: nat,              // the producer has sent the addresses before this one
    closed: bool,
    cancelled: bool,
    workers: seq<Worker>,
    owner: seq<nat>,        // who received each address sent so far
    log: seq<Report>,       // the calls of the progress function
    found: seq<nat>,        // the addresses that answered
    stage: Stage,
    row: Row)

  datatype Action =
    | Send(w: nat)
    | Check(w: nat)
    | ProbeReturns(w: nat, answered: bool)
    | Progress(w: nat)
    | Exit(w: nat)
    | Close
    | PoolReturns
    | DiscoveryReturns
    | Finish
    | Cancel
    | Interrupt             // another caller finds the job stalled

  predicate OfWorker(a: Action) {
    a.Send? || a.Check? || a.ProbeReturns? || a.Progress? || a.Exit?
  }

  predicate AllGone(ws: seq<Worker>) {
    forall w :: 0 <= w < |ws| ==> ws[w].Gone?
  }

  predicate Enabled(s: Job, a: Action) {
    (OfWorker(a) ==> a.w < |s.workers|) &&
    match a
    case Send(w) => s.workers[w].Idle? && s.next < s.addresses
    case Check(w) => s.workers[w].Got?
    case ProbeReturns(w, _) => s.workers[w].Probing?
    case Progress(w) => s.workers[w].Reporting? || s.workers[w].Quitting?
    case Exit(w) => s.workers[w].Idle? && s.closed
    case Close => s.next >= s.addresses && !s.closed
    case PoolReturns => s.stage.Pooling? && s.closed && AllGone(s.workers)
    case DiscoveryReturns => s.stage.Discovering?
    case Finish => s.stage.Finishing?
    case Cancel => !s.cancelled
    case Interrupt => s.row.status.Running?
  }

  /** The guarded `done = done + 1`. */
  function Increment(row: Row): Row {
    if row.status.Running? then row.(done := row.done + 1) else row
  }

  function Step(s: Job, a: Action): Job {
    if !Enabled(s, a) then s
    else
      match a
      case Send(w) => s.(workers := s.workers[w := Got(s.next)], owner := s.owner + [w], next := s.next + 1)
      case Check(w) =>
        var i := s.workers[w].i;
        s.(workers := s.workers[w := if !s.cancelled then Probing(i) else if s.drains then Reporting(i) else Quitting(i)])
      case ProbeReturns(w, answered) =>
        s.(workers := s.workers[w := Reporting(s.workers[w].i)],
           found := if answered then s.found + [s.workers[w].i] else s.found)
      case Progress(w) =>
        s.(workers := s.workers[w := if s.workers[w].Quitting? then Gone else Idle],
           log := s.log + [Report(s.workers[w].i, w)], row := Increment(s.row))
      case Exit(w) => s.(workers := s.workers[w := Gone])
      case Close => s.(closed := true)
      case PoolReturns => s.(stage := if s.mdns && !s.cancelled then Discovering else Finishing)
      case DiscoveryReturns => s.(row := Increment(s.row), stage := Finishing)
      case Finish =>
        if s.cancelled
        then s.(stage := Ended, row := if s.row.status.Running? then s.row.(status := Interrupted) else s.row)
        else s.(stage := Ended, row := Row(Completed, s.row.total, s.row.total))
      case Cancel => s.(cancelled := true)
      case Interrupt => s.(row := s.row.(status := Interrupted))
  }

  function Run(s: Job, actions: seq<Action>): Job {
    if actions == [] then s else Step(Run(s, actions[..|actions| - 1]), actions[|actions| - 1])
  }

  /** The number of workers: at most one per address, and at least one. */
  function PoolSize(concurrency: int, addresses: nat): (n: nat)
    ensures n >= 1 && (addresses > 0 ==> n <= addresses)
    ensures 1 < n < addresses ==> n == if concurrency <= 0 then 32 else concurrency
    ensures n == 1 ==> addresses <= 1 || concurrency == 1
  {
    var wanted := if concurrency <= 0 then 32 else concurrency;
    var capped := if wanted > addresses then addresses else wanted;
    if capped < 1 then 1 else capped
  }

  /** What there is to do: the addresses, and the discovery. */
  function Work(addresses: nat, mdns: bool): nat {
    addresses + if mdns then 1 else 0
  }

  /** A scan under a row with the given total. A scan that is restarted after an interruption gets the total of
      the interrupted one and the settings of the day. */
  function Begin(addresses: nat, mdns: bool, concurrency: int, total: nat): Job {
    Job(addresses, mdns, true, 0, false, false, seq(PoolSize(concurrency, addresses), _ => Idle), [], [], [], Pooling,
        Row(Running, 0, total))
  }

  /** A scan as StartScan begins it, its total counted from the same settings. */
  function Start(addresses: nat, mdns: bool, concurrency: int): Job {
    Begin(addresses, mdns, concurrency, Work(addresses, mdns))
  }

  /** A bulk refresh, whose workers leave when it is cancelled. */
  function StartRefresh(devices: nat, concurrency: int): Job {
    Begin(devices, false, concurrency, devices).(drains := false)
  }

  // ----- What every step keeps -----

  predicate Holds(w: Worker, i: nat) {
    Busy(w) && w.i == i
  }

  predicate Busy(w: Worker) {
    w.Got? || w.Probing? || w.Reporting? || w.Quitting?
  }

  function CountBusy(ws: seq<Worker>): nat {
    if ws == [] then 0 else CountBusy(ws[1..]) + if Busy(ws[0]) then 1 else 0
  }

  predicate Reported(log: seq<Report>, i: nat) {
    exists k :: 0 <= k < |log| && log[k].address == i
  }

  /** The part of the state that says who has which address. */
  ghost predicate Delivered(s: Job) {
    && |s.owner| == s.next <= s.addresses
    && (forall i :: 0 <= i < s.next ==> s.owner[i] < |s.workers|)
    && (forall k :: 0 <= k < |s.log| ==> s.log[k].address < s.next && s.owner[s.log[k].address] == s.log[k].worker)
    && (forall w :: 0 <= w < |s.workers| && Busy(s.workers[w]) ==>
          s.workers[w].i < s.next && s.owner[s.workers[w].i] == w && !Reported(s.log, s.workers[w].i))
    && (forall i :: 0 <= i < s.next ==> Reported(s.log, i) || Holds(s.workers[s.owner[i]], i))
  }

  ghost predicate ReportedOnce(log: seq<Report>) {
    forall k, l :: 0 <= k < l < |log| ==> log[k].address != log[l].address
  }

  /** The part that says what the counters are worth. */
  ghost predicate Counted(s: Job) {
    && |s.log| + CountBusy(s.workers) == s.next
    && (if s.row.status.Completed? then s.row.done == s.row.total else s.row.done <= Work(s.addresses, s.mdns))
    && (s.stage.Pooling? ==> s.row.done <= |s.log|)
    && (s.stage.Discovering? ==> s.mdns && s.row.done <= s.addresses)
    && (s.closed ==> s.next == s.addresses)
    && (!s.stage.Pooling? ==> s.closed && AllGone(s.workers))
    && (s.drains ==> forall w :: 0 <= w < |s.workers| ==> !s.workers[w].Quitting? && (s.workers[w].Gone? ==> s.closed))
    && (s.row.status.Completed? ==> s.stage.Ended?)
  }

  ghost predicate Invariant(s: Job) {
    Delivered(s) && ReportedOnce(s.log) && Counted(s)
  }

  lemma {:induction false} CountUpdate(ws: seq<Worker>, w: nat, x: Worker)
    requires w < |ws|
    ensures CountBusy(ws[w := x]) ==
            CountBusy(ws) - (if Busy(ws[w]) then 1 else 0) + (if Busy(x) then 1 else 0)
  {
    if w == 0 {
      assert ws[0 := x][1..] == ws[1..];
    } else {
      CountUpdate(ws[1..], w - 1, x);
      assert ws[w := x][1..] == ws[1..][w - 1 := x];
    }
  }

  lemma {:induction false} NobodyBusy(ws: seq<Worker>)
    requires forall w :: 0 <= w < |ws| ==> !Busy(ws[w])
    ensures CountBusy(ws) == 0
  {
    if ws != [] {
      NobodyBusy(ws[1..]);
    }
  }

  lemma ReportedMore(log: seq<Report>, r: Report, i: nat)
    ensures Reported(log + [r], i) <==> Reported(log, i) || r.address == i
  {
    var more := log + [r];
    if Reported(log, i) {
      var k :| 0 <= k < |log| && log[k].address == i;
      assert more[k].address == i;
    }
    assert more[|log|] == r;
  }

  lemma StepKeepsDelivered(s: Job, a: Action)
    requires Delivered(s) && ReportedOnce(s.log)
    ensures Delivered(Step(s, a)) && ReportedOnce(Step(s, a).log)
    ensures |Step(s, a).workers| == |s.workers|
  {
    if Enabled(s, a) {
      match a
      case Send(w) => SendDelivers(s, w);
      case Progress(w) => ProgressDelivers(s, w);
      case Check(w) => MoveDelivers(s, a);
      case ProbeReturns(w, answered) => MoveDelivers(s, a);
      case Exit(w) => MoveDelivers(s, a);
      case Close =>
      case PoolReturns =>
      case DiscoveryReturns =>
      case Finish =>
      case Cancel =>
      case Interrupt =>
    }
  }

  lemma MoveDelivers(s: Job, a: Action)
    requires Delivered(s) && Enabled(s, a) && (a.Check? || a.ProbeReturns? || a.Exit?)
    ensures Delivered(Step(s, a)) && Step(s, a).log == s.log
  {
    var t := Step(s, a);
    forall i | 0 <= i < t.next
      ensures Reported(t.log, i) || Holds(t.workers[t.owner[i]], i)
    {
      assert Reported(s.log, i) || Holds(s.workers[s.owner[i]], i);
    }
  }

  lemma SendDelivers(s: Job, w: nat)
    requires Delivered(s) && Enabled(s, Send(w))
    ensures Delivered(Step(s, Send(w)))
  {
    var t := Step(s, Send(w));
    forall i | 0 <= i < t.next
      ensures Reported(t.log, i) || Holds(t.workers[t.owner[i]], i)
    {
      if i < s.next {
        assert t.owner[i] == s.owner[i];
        assert Reported(s.log, i) || Holds(s.workers[s.owner[i]], i);
      }
    }
    assert !Reported(s.log, s.next);
  }

  lemma ProgressDelivers(s: Job, w: nat)
    requires Delivered(s) && ReportedOnce(s.log) && Enabled(s, Progress(w))
    ensures Delivered(Step(s, Progress(w))) && ReportedOnce(Step(s, Progress(w)).log)
  {
    var t := Step(s, Progress(w));
    var r := Report(s.workers[w].i, w);
    forall i: nat
      ensures Reported(t.log, i) <==> Reported(s.log, i) || r.address == i
    {
      ReportedMore(s.log, r, i);
    }
    forall i | 0 <= i < t.next
      ensures Reported(t.log, i) || Holds(t.workers[t.owner[i]], i)
    {
      assert Reported(s.log, i) || Holds(s.workers[s.owner[i]], i);
    }
    forall k | 0 <= k < |s.log|
      ensures s.log[k].address != r.address
    {
      assert !Reported(s.log, r.address);
    }
  }

  lemma StepKeepsCounted(s: Job, a: Action)
    requires Invariant(s)
    ensures Counted(Step(s, a))
  {
    if OfWorker(a) && Enabled(s, a) {
      WorkerStepCounted(s, a);
    }
  }

  lemma WorkerStepCounted(s: Job, a: Action)
    requires Counted(s) && s.next <= s.addresses && OfWorker(a) && Enabled(s, a)
    ensures Counted(Step(s, a))
  {
    CountUpdate(s.workers, a.w, Step(s, a).workers[a.w]);
  }

  lemma StepKeepsPlan(s: Job, a: Action)
    ensures var t := Step(s, a);
            && |t.workers| == |s.workers| && t.addresses == s.addresses && t.mdns == s.mdns && t.drains == s.drains
            && t.row.total == s.row.total
  {
  }

  lemma StepKeepsInvariant(s: Job, a: Action)
    requires Invariant(s)
    ensures Invariant(Step(s, a))
  {
    StepKeepsDelivered(s, a);
    StepKeepsCounted(s, a);
  }

  /** In every run of the job, whoever cancels or interrupts it and whenever, no address is in two hands, none
      is reported twice, and the row never shows more done than there is to do. */
  lemma {:induction false} RunKeepsInvariant(s: Job, actions: seq<Action>)
    requires Invariant(s)
    ensures Invariant(Run(s, actions)) && |Run(s, actions).workers| == |s.workers|
    ensures Run(s, actions).addresses == s.addresses && Run(s, actions).mdns == s.mdns && Run(s, actions).drains == s.drains
    ensures Run(s, actions).row.total == s.row.total
  {
    if actions != [] {
      var n := |actions| - 1;
      RunKeepsInvariant(s, actions[..n]);
      StepKeepsInvariant(Run(s, actions[..n]), actions[n]);
      StepKeepsPlan(Run(s, actions[..n]), actions[n]);
    }
  }

  lemma BeginInvariant(addresses: nat, mdns: bool, concurrency: int, total: nat)
    ensures Invariant(Begin(addresses, mdns, concurrency, total))
    ensures Invariant(Begin(addresses, mdns, concurrency, total).(drains := false))
  {
    NobodyBusy(Begin(addresses, mdns, concurrency, total).workers);
  }

  /** When the pool has returned, every address was handed to one worker, and that worker reported it, once;
      also when the scan was cancelled on the way. */
  lemma EachAddressOnce(addresses: nat, mdns: bool, concurrency: int, actions: seq<Action>)
    requires !Run(Start(addresses, mdns, concurrency), actions).stage.Pooling?
    ensures var t := Run(Start(addresses, mdns, concurrency), actions);
            && |t.owner| == |t.log| == addresses
            && (forall i: nat :: i < addresses ==> Reported(t.log, i))
            && (forall k, l :: 0 <= k < l < |t.log| ==> t.log[k].address != t.log[l].address)
            && (forall k :: 0 <= k < |t.log| ==> t.log[k].address < addresses && t.owner[t.log[k].address] == t.log[k].worker)
  {
    var t := Run(Start(addresses, mdns, concurrency), actions);
    BeginInvariant(addresses, mdns, concurrency, Work(addresses, mdns));
    RunKeepsInvariant(Start(addresses, mdns, concurrency), actions);
    NobodyBusy(t.workers);
  }

  // ----- Termination -----

  function WorkerRank(w: Worker): nat {
    match w
    case Idle => 1
    case Got(_) => 4
    case Probing(_) => 3
    case Reporting(_) => 2
    case Quitting(_) => 2
    case Gone => 0
  }

  function WorkersRank(ws: seq<Worker>): nat {
    if ws == [] then 0 else WorkerRank(ws[0]) + WorkersRank(ws[1..])
  }

  function StageRank(stage: Stage): nat {
    match stage
    case Pooling => 3
    case Discovering => 2
    case Finishing => 1
    case Ended => 0
  }

  /** An upper bound on the steps still to come. */
  function Rank(s: Job): nat {
    WorkersRank(s.workers)
    + (if s.next < s.addresses then 4 * (s.addresses - s.next) else 0)
    + (if s.closed then 0 else 1) + (if s.cancelled then 0 else 1)
    + (if s.row.status.Running? then 1 else 0)
    + StageRank(s.stage)
  }

  lemma {:induction false} RankUpdate(ws: seq<Worker>, w: nat, x: Worker)
    requires w < |ws|
    ensures WorkersRank(ws[w := x]) == WorkersRank(ws) - WorkerRank(ws[w]) + WorkerRank(x)
  {
    if w == 0 {
      assert ws[0 := x][1..] == ws[1..];
    } else {
      RankUpdate(ws[1..], w - 1, x);
      assert ws[w := x][1..] == ws[1..][w - 1 := x];
    }
  }

  lemma StepLowersRank(s: Job, a: Action)
    requires Enabled(s, a)
    ensures Rank(Step(s, a)) < Rank(s)
  {
    if OfWorker(a) {
      RankUpdate(s.workers, a.w, Step(s, a).workers[a.w]);
    }
  }

  /** The steps of a run that took place. */
  function StepsTaken(s: Job, actions: seq<Action>): nat {
    if actions == [] then 0
    else
      var n := |actions| - 1;
      StepsTaken(s, actions[..n]) + if Enabled(Run(s, actions[..n]), actions[n]) then 1 else 0
  }

  lemma {:induction false} StepsSpendRank(s: Job, actions: seq<Action>)
    ensures StepsTaken(s, actions) + Rank(Run(s, actions)) <= Rank(s)
  {
    if actions != [] {
      var n := |actions| - 1;
      StepsSpendRank(s, actions[..n]);
      if Enabled(Run(s, actions[..n]), actions[n]) {
        StepLowersRank(Run(s, actions[..n]), actions[n]);
      }
    }
  }

  lemma {:induction false} IdleRank(ws: seq<Worker>)
    requires forall w :: 0 <= w < |ws| ==> ws[w].Idle?
    ensures WorkersRank(ws) == |ws|
  {
    if ws != [] {
      IdleRank(ws[1..]);
    }
  }

  /** No run takes more than so many steps, whatever is cancelled or interrupted. */
  lemma JobTerminates(addresses: nat, mdns: bool, concurrency: int, actions: seq<Action>)
    ensures StepsTaken(Start(addresses, mdns, concurrency), actions)
            <= PoolSize(concurrency, addresses) + 4 * addresses + 6
  {
    var s := Start(addresses, mdns, concurrency);
    StepsSpendRank(s, actions);
    IdleRank(s.workers);
  }

  /** All workers have left the pool and the producer still has an address to send. */
  predicate Deserted(s: Job) {
    !s.drains && s.next < s.addresses && AllGone(s.workers)
  }

  ghost predicate CanMove(s: Job) {
    exists a :: Enabled(s, a) && !a.Cancel? && !a.Interrupt?
  }

  /** A job that has not ended can always take a step, without anybody having to cancel, except in a pool that
      all workers have left early. */
  lemma StuckExactlyWhenDeserted(s: Job)
    requires Invariant(s) && s.workers != [] && !s.stage.Ended?
    ensures CanMove(s) <==> !Deserted(s)
  {
    if !Deserted(s) {
      var a := NextMove(s);
    }
  }

  lemma NextMove(s: Job) returns (a: Action)
    requires Invariant(s) && s.workers != [] && !s.stage.Ended? && !Deserted(s)
    ensures Enabled(s, a) && !a.Cancel? && !a.Interrupt?
  {
    if w: nat :| w < |s.workers| && Busy(s.workers[w]) {
      match s.workers[w]
      case Got(_) => a := Check(w);
      case Probing(_) => a := ProbeReturns(w, false);
      case Reporting(_) => a := Progress(w);
      case Quitting(_) => a := Progress(w);
    } else if s.next < s.addresses {
      var w: nat :| w < |s.workers| && !s.workers[w].Gone?;
      a := Send(w);
    } else if !s.closed {
      a := Close;
    } else if w: nat :| w < |s.workers| && s.workers[w].Idle? {
      a := Exit(w);
    } else {
      match s.stage
      case Pooling =>
        assert AllGone(s.workers);
        a := PoolReturns;
      case Discovering => a := DiscoveryReturns;
      case Finishing => a := Finish;
    }
  }

  /** So a scan, whose workers drain the channel, never gets stuck. With the bound above it ends. */
  lemma ScanNeverStuck(addresses: nat, mdns: bool, concurrency: int, actions: seq<Action>)
    ensures var s := Run(Start(addresses, mdns, concurrency), actions);
            s.stage.Ended? || CanMove(s)
  {
    var start := Start(addresses, mdns, concurrency);
    BeginInvariant(addresses, mdns, concurrency, Work(addresses, mdns));
    RunKeepsInvariant(start, actions);
    if !Run(start, actions).stage.Ended? {
      StuckExactlyWhenDeserted(Run(start, actions));
    }
  }

  // ----- The target count -----

  const MAX_SUBNETS := 64

  const MAX_SCAN_TARGETS := 65534

  /** A configured subnet after parsing; `strict` as for Cidr.ExpandCIDR. */
  datatype Subnet = Malformed | Prefix(ip: Cidr.Ip, ones: nat, strict: bool)

  predicate WellFormed(subnet: Subnet) {
    subnet.Prefix? ==> (|subnet.ip| == 4 || |subnet.ip| == 16) && subnet.ones <= 8 * |subnet.ip|
  }

  /** How many addresses a subnet expands to; none when it is refused. */
  function Expands(subnet: Subnet): Option<nat>
    requires WellFormed(subnet)
  {
    if subnet.Malformed? then None
    else
      var h := Cidr.HostBits(subnet.ones, |subnet.ip|);
      if (subnet.strict && !Cidr.IsAllowedScanNetwork(Cidr.Base(subnet.ip, subnet.ones))) || h > 10 then None
      else Some(Cidr.HostsUpTo(Pow2(h), Pow2(h)))
  }

  predicate AllWellFormed(subnets: seq<Subnet>) {
    forall i :: 0 <= i < |subnets| ==> WellFormed(subnets[i])
  }

  function Sizes(subnets: seq<Subnet>): seq<Option<nat>>
    requires AllWellFormed(subnets)
  {
    seq(|subnets|, i requires 0 <= i < |subnets| => Expands(subnets[i]))
  }

  /** The sum of the first `i` sizes, if there are no gaps among them. */
  function Sum(sizes: seq<Option<nat>>, i: nat): Option<nat>
    requires i <= |sizes|
  {
    if i == 0 then Some(0)
    else
      var before, here := Sum(sizes, i - 1), sizes[i - 1];
      if before.None? || here.None? then None else Some(before.value + here.value)
  }

  datatype Settings = Settings(subnets: seq<Subnet>, concurrency: int, scanTimeout: real, refreshTimeout: real, mdns: bool)

  predicate InRange(s: Settings) {
    && |s.subnets| <= MAX_SUBNETS
    && 1 <= s.concurrency <= 256
    && 0.2 <= s.scanTimeout <= 30.0
    && 0.2 <= s.refreshTimeout <= 30.0
  }

  method CountHosts(subnet: Subnet) returns (count: Option<nat>)
    requires WellFormed(subnet)
    ensures count == Expands(subnet)
  {
    if subnet.Malformed? {
      return None;
    }
    var expansion := Cidr.ExpandCIDR(subnet.ip, subnet.ones, subnet.strict);
    count := if expansion.Hosts? then Some(|expansion.ips|) else None;
  }

  ghost predicate AreSizes(subnets: seq<Subnet>, sizes: seq<Option<nat>>)
    requires AllWellFormed(subnets)
  {
    |sizes| == |subnets| && forall i {:trigger Expands(subnets[i])} :: 0 <= i < |subnets| ==> sizes[i] == Expands(subnets[i])
  }

  method CountOne(subnets: seq<Subnet>, ghost sizes: seq<Option<nat>>, i: nat) returns (count: Option<nat>)
    requires AllWellFormed(subnets) && AreSizes(subnets, sizes) && i < |subnets|
    ensures count == sizes[i]
  {
    count := CountHosts(subnets[i]);
  }

  /** What the parameters of a settings row allow: the number of scan targets. */
  function TargetCount(s: Settings): Result<nat>
    requires AllWellFormed(s.subnets)
  {
    if InRange(s) then Total(Sum(Sizes(s.subnets), |s.subnets|), s.mdns) else Err
  }

  function Total(targets: Option<nat>, mdns: bool): Result<nat> {
    if targets.None? then Err
    else
      var total := targets.value + if mdns then 1 else 0;
      if total == 0 then Err else Ok(total)
  }

  method CountTargets(subnets: seq<Subnet>, ghost sizes: seq<Option<nat>>) returns (r: Option<nat>)
    requires AllWellFormed(subnets) && AreSizes(subnets, sizes)
    ensures r == Sum(sizes, |subnets|)
  {
    var total := 0;
    for i := 0 to |subnets|
      invariant Sum(sizes, i) == Some(total)
    {
      var count := CountOne(subnets, sizes, i);
      if count.None? {
        NoneSoFar(sizes, i + 1, |sizes|);
        return None;
      }
      total := total + count.value;
    }
    return Some(total);
  }

  method ScanParams(s: Settings) returns (r: Result<nat>)
    requires AllWellFormed(s.subnets)
    ensures r == TargetCount(s)
  {
    if |s.subnets| > MAX_SUBNETS || s.concurrency < 1 || s.concurrency > 256
       || s.scanTimeout < 0.2 || s.scanTimeout > 30.0 || s.refreshTimeout < 0.2 || s.refreshTimeout > 30.0 {
      return Err;
    }
    var targets := CountTargets(s.subnets, Sizes(s.subnets));
    if targets.None? {
      return Err;
    }
    TargetsBound(s.subnets);
    var total := targets.value + if s.mdns then 1 else 0;
    if total == 0 || total > MAX_SCAN_TARGETS {
      return Err;
    }
    return Ok(total);
  }

  lemma {:induction false} NoneSoFar(sizes: seq<Option<nat>>, i: nat, j: nat)
    requires i <= j <= |sizes| && Sum(sizes, i).None?
    ensures Sum(sizes, j).None?
  {
    if i < j {
      NoneSoFar(sizes, i, j - 1);
    }
  }

  lemma ExpandsBound(subnet: Subnet)
    requires WellFormed(subnet) && Expands(subnet).Some?
    ensures Expands(subnet).value <= 1022
  {
    PowMonotone(Cidr.HostBits(subnet.ones, |subnet.ip|), 10);
    Pow2Byte(2);
  }

  lemma {:induction false} SumBound(sizes: seq<Option<nat>>, i: nat)
    requires i <= |sizes| && forall k :: 0 <= k < |sizes| && sizes[k].Some? ==> sizes[k].value <= 1022
    ensures Sum(sizes, i).Some? ==> Sum(sizes, i).value <= 1022 * i
  {
    if i > 0 {
      SumBound(sizes, i - 1);
    }
  }

  lemma TargetsBound(subnets: seq<Subnet>)
    requires AllWellFormed(subnets)
    ensures var targets := Sum(Sizes(subnets), |subnets|);
            targets.Some? ==> targets.value <= 1022 * |subnets|
  {
    forall i | 0 <= i < |subnets| && Expands(subnets[i]).Some?
      ensures Expands(subnets[i]).value <= 1022
    {
      ExpandsBound(subnets[i]);
    }
    SumBound(Sizes(subnets), |subnets|);
  }

  /** 64 subnets of at most 1022 hosts and the discovery stay below the limit on targets: the check against
      it never refuses anything. */
  lemma LimitNeverReached(s: Settings)
    requires AllWellFormed(s.subnets) && TargetCount(s).Ok?
    ensures 1 <= TargetCount(s).value <= 64 * 1022 + 1 < 65534 == MAX_SCAN_TARGETS
  {
    TargetsBound(s.subnets);
  }

  /** Settings are accepted exactly when they are within the limits, every subnet can be expanded, and there is
      something to look for: an address in one of them, or the discovery. */
  lemma AcceptedExactly(s: Settings)
    requires AllWellFormed(s.subnets)
    ensures TargetCount(s).Ok? <==>
            && |s.subnets| <= 64 && 1 <= s.concurrency <= 256
            && 0.2 <= s.scanTimeout <= 30.0 && 0.2 <= s.refreshTimeout <= 30.0
            && (forall i :: 0 <= i < |s.subnets| ==> Expands(s.subnets[i]).Some?)
            && (s.mdns || exists i :: 0 <= i < |s.subnets| && Expands(s.subnets[i]).value > 0)
  {
    var sizes := Sizes(s.subnets);
    SumExactly(sizes, |sizes|);
    assert forall i :: 0 <= i < |s.subnets| ==> sizes[i] == Expands(s.subnets[i]);
  }

  lemma {:induction false} SumExactly(sizes: seq<Option<nat>>, n: nat)
    requires n <= |sizes|
    ensures Sum(sizes, n).Some? <==> forall i :: 0 <= i < n ==> sizes[i].Some?
    ensures Sum(sizes, n).Some? ==> (Sum(sizes, n).value > 0 <==> exists i :: 0 <= i < n && sizes[i].value > 0)
  {
    if n > 0 {
      SumExactly(sizes, n - 1);
    }
  }
}
