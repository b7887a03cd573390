/** Device rows: numbering by scans, and reachability as scans, refreshes and firmware checks record it
    (internal/db/devices.go, internal/services/jobs/refresh.go, internal/services/jobs/firmware_check.go). */
module Devices {
  import opened Wrappers

  /** What a scan probe does not read and a known row keeps. */
  datatype Cache = Cache(stable: string, beta: string, checkedAt: string, autoUpdate: string)

  datatype Device = Device(
    mac: string, ip: string, scheme: string,
    num: int, firstSeen: string, lastSeen: string,
    lastAttempt: string, lastOk: bool, lastError: string, misses: nat, online: bool,
    cache: Cache, allowInsecure: bool,
    authRequired: bool, authError: string, lockedUntil: string, certValid: Option<bool>,
    fw: string, batch: string, fwId: string,
    probe: string)                     // everything else a probe reads

  type Rows = map<string, Device>

  // ----- Scans: UpsertDevices -----

  ghost predicate IsMax(rows: Rows, n: int) {
    && n >= 0 && (forall m :: m in rows ==> rows[m].num <= n)
    && (n == 0 || exists m :: m in rows && rows[m].num == n)
  }

  ghost function MaxNum(rows: Rows): (n: int)
    ensures IsMax(rows, n)
    decreases |rows|
  {
    if rows == map[] then 0
    else
      var m :| m in rows;
      var rest := rows - {m};
      assert rows.Keys == rest.Keys + {m};
      var n := MaxNum(rest);
      if rows[m].num > n then rows[m].num else n
  }

  lemma OneMax(rows: Rows, a: int, b: int)
    requires IsMax(rows, a) && IsMax(rows, b)
    ensures a == b
  {
  }

  function WithScheme(d: Device): Device {
    if d.scheme == "" then d.(scheme := "http") else d
  }

  /** The row a scanned device gets. */
  function Found(d: Device, num: int, known: Rows, now: string): Device {
    var e :=
      if d.mac in known then
        var was := known[d.mac];
        d.(num := was.num, firstSeen := was.firstSeen, cache := was.cache, allowInsecure := was.allowInsecure)
      else d.(num := num, firstSeen := now);
    WithScheme(e.(lastSeen := now, lastAttempt := now, lastOk := true, lastError := "", misses := 0, online := true))
  }

  /** The row of a device that did not answer. */
  function Missed(d: Device, now: string): Device {
    var e := d.(lastAttempt := now, lastOk := false, lastError := "refresh timed out", misses := d.misses + 1);
    WithScheme(if e.misses >= 2 then e.(online := false) else e)
  }

  datatype Progress = Progress(rows: Rows, maxNum: int)

  /** The table after the first `i` scanned devices; `known` is the table before the scan throughout. */
  ghost function Scan(known: Rows, scanned: seq<Device>, i: nat, now: string): Progress
    requires i <= |scanned|
  {
    if i == 0 then Progress(known, MaxNum(known))
    else
      var p, d := Scan(known, scanned, i - 1, now), scanned[i - 1];
      var maxNum := if d.mac in known then p.maxNum else p.maxNum + 1;
      Progress(p.rows[d.mac := Found(d, maxNum, known, now)], maxNum)
  }

  function Macs(scanned: seq<Device>, i: nat): set<string>
    requires i <= |scanned|
  {
    if i == 0 then {} else Macs(scanned, i - 1) + {scanned[i - 1].mac}
  }

  /** `rows` with a miss for every known device that was not seen. */
  function WithMissed(rows: Rows, known: Rows, seen: set<string>, now: string): Rows {
    map m | m in rows :: if m in known && m !in seen then Missed(known[m], now) else rows[m]
  }

  lemma MissedOne(rows: Rows, known: Rows, seen: set<string>, todo: set<string>, m: string, now: string)
    requires m in todo && m in known && known.Keys <= rows.Keys
    ensures var before := WithMissed(rows, known, seen + todo, now);
            WithMissed(rows, known, seen + (todo - {m}), now) ==
            if m in seen then before else before[m := Missed(known[m], now)]
  {
  }

  ghost function Upserted(known: Rows, scanned: seq<Device>, now: string): Rows {
    WithMissed(Scan(known, scanned, |scanned|, now).rows, known, Macs(scanned, |scanned|), now)
  }

  function Forgotten(rows: Rows, target: string): Rows {
    map m | m in rows && m != target && rows[m].ip != target :: rows[m]
  }

  class Table {
    var rows: Rows

    constructor ()
      ensures rows == map[]
    {
      rows := map[];
    }

    method Highest() returns (maxNum: int)
      ensures maxNum == MaxNum(rows)
    {
      maxNum := 0;
      var todo := rows.Keys;
      while todo != {}
        invariant todo <= rows.Keys && maxNum >= 0
        invariant forall m :: m in rows && m !in todo ==> rows[m].num <= maxNum
        invariant maxNum == 0 || exists m :: m in rows && rows[m].num == maxNum
        decreases |todo|
      {
        var m :| m in todo;
        if rows[m].num > maxNum {
          maxNum := rows[m].num;
        }
        todo := todo - {m};
      }
      OneMax(rows, maxNum, MaxNum(rows));
    }

    method UpsertDevices(scanned: seq<Device>, now: string)
      modifies this
      ensures rows == Upserted(old(rows), scanned, now)
    {
      var existing := rows;
      var maxNum := Highest();
      var seen: set<string> := {};
      for i := 0 to |scanned|
        invariant Progress(rows, maxNum) == Scan(existing, scanned, i, now)
        invariant existing.Keys <= rows.Keys
        invariant seen == Macs(scanned, i)
      {
        var d := scanned[i];
        seen := seen + {d.mac};
        if d.mac !in existing {
          maxNum := maxNum + 1;
        }
        rows := rows[d.mac := Found(d, maxNum, existing, now)];
      }
      MissAll(existing, seen, now);
    }

    method MissAll(existing: Rows, seen: set<string>, now: string)
      requires existing.Keys <= rows.Keys
      modifies this
      ensures rows == WithMissed(old(rows), existing, seen, now)
    {
      ghost var before := rows;
      var todo := existing.Keys;
      while todo != {}
        invariant todo <= existing.Keys && existing.Keys <= before.Keys
        invariant rows == WithMissed(before, existing, seen + todo, now)
        decreases |todo|
      {
        var m :| m in todo;
        MissedOne(before, existing, seen, todo, m, now);
        if m !in seen {
          rows := rows[m := Missed(existing[m], now)];
        }
        todo := todo - {m};
      }
      assert seen + todo == seen;
    }

    method ForgetDevice(target: string)
      modifies this
      ensures rows == Forgotten(old(rows), target)
    {
      rows := map m | m in rows && m != target && rows[m].ip != target :: rows[m];
    }

    method UpsertDevice(d: Device)
      modifies this
      ensures rows == old(rows)[d.mac := WithScheme(d)]
    {
      rows := rows[d.mac := WithScheme(d)];
    }
  }

  // ----- Numbers -----

  ghost predicate Unique(rows: Rows) {
    forall a, b :: a in rows && b in rows && a != b ==> rows[a].num != rows[b].num
  }

  /** What a scan has done to the numbers after its first `i` devices. */
  ghost predicate Numbered(known: Rows, p: Progress) {
    && p.maxNum >= MaxNum(known)
    && (forall m :: m in known ==> m in p.rows && p.rows[m].num == known[m].num)
    && (forall m :: m in p.rows && m !in known ==> MaxNum(known) < p.rows[m].num <= p.maxNum)
    && (forall a, b :: a in p.rows && b in p.rows && a !in known && b !in known && a != b ==>
          p.rows[a].num != p.rows[b].num)
  }

  lemma {:induction false} ScanNumbers(known: Rows, scanned: seq<Device>, i: nat, now: string)
    requires i <= |scanned|
    ensures Numbered(known, Scan(known, scanned, i, now))
  {
    if i > 0 {
      ScanNumbers(known, scanned, i - 1, now);
      var d := scanned[i - 1];
      NumberOne(known, Scan(known, scanned, i - 1, now), d.mac, Found(d, Scan(known, scanned, i, now).maxNum, known, now));
    }
  }

  lemma NumberOne(known: Rows, p: Progress, mac: string, d: Device)
    requires Numbered(known, p)
    requires d.num == if mac in known then known[mac].num else p.maxNum + 1
    ensures Numbered(known, Progress(p.rows[mac := d], if mac in known then p.maxNum else p.maxNum + 1))
  {
  }

  /** A scan keeps every number it finds and gives new addresses new, different ones, also when an address
      occurs in it more than once. */
  lemma UpsertNumbers(known: Rows, scanned: seq<Device>, now: string)
    requires Unique(known)
    ensures var after := Upserted(known, scanned, now);
            && Unique(after)
            && (forall m :: m in known ==> m in after && after[m].num == known[m].num)
            && (forall m, k :: m in after && m !in known && k in known ==> after[m].num > known[k].num)
  {
    var p := Scan(known, scanned, |scanned|, now);
    ScanNumbers(known, scanned, |scanned|, now);
    NumberedUnique(known, p);
    MissesKeepNumbers(p.rows, known, Macs(scanned, |scanned|), now);
  }

  lemma NumberedUnique(known: Rows, p: Progress)
    requires Unique(known) && Numbered(known, p)
    ensures Unique(p.rows)
    ensures forall m, k :: m in p.rows && m !in known && k in known ==> p.rows[m].num > known[k].num
  {
    assert forall k :: k in known ==> known[k].num <= MaxNum(known);
  }

  lemma MissesKeepNumbers(rows: Rows, known: Rows, seen: set<string>, now: string)
    requires forall m :: m in known ==> m in rows && rows[m].num == known[m].num
    ensures WithMissed(rows, known, seen, now).Keys == rows.Keys
    ensures forall m :: m in rows ==> WithMissed(rows, known, seen, now)[m].num == rows[m].num
  {
  }

  datatype Change = Scanned(devices: seq<Device>, now: string) | Forget(target: string)

  ghost function Changed(rows: Rows, c: Change): Rows {
    match c
    case Scanned(devices, now) => Upserted(rows, devices, now)
    case Forget(target) => Forgotten(rows, target)
  }

  ghost function Run(rows: Rows, changes: seq<Change>): Rows {
    if changes == [] then rows else Changed(Run(rows, changes[..|changes| - 1]), changes[|changes| - 1])
  }

  /** In every run of scans and deletions, each of them done before the next begins, different devices have
      different numbers. */
  lemma {:induction false} NumbersUnique(rows: Rows, changes: seq<Change>)
    requires Unique(rows)
    ensures Unique(Run(rows, changes))
  {
    if changes != [] {
      var n := |changes| - 1;
      NumbersUnique(rows, changes[..n]);
      var before := Run(rows, changes[..n]);
      match changes[n]
      case Scanned(devices, now) => UpsertNumbers(before, devices, now);
      case Forget(target) =>
    }
  }

  /** A device is forgotten under its hardware address or its network address; every other row stays. */
  lemma ForgetExactly(rows: Rows, target: string, m: string)
    ensures m in Forgotten(rows, target) <==> m in rows && target != m && target != rows[m].ip
    ensures m in Forgotten(rows, target) ==> Forgotten(rows, target)[m] == rows[m]
  {
  }

  /** And in such a run a device that is never forgotten on the way keeps its number. */
  lemma {:induction false} NumbersStable(rows: Rows, changes: seq<Change>, mac: string)
    requires Unique(rows)
    requires forall n :: 0 <= n <= |changes| ==> mac in Run(rows, changes[..n])
    ensures mac in rows && mac in Run(rows, changes) && Run(rows, changes)[mac].num == rows[mac].num
  {
    assert changes[..0] == [] && changes[..|changes|] == changes;
    assert mac in Run(rows, changes[..0]);
    if changes != [] {
      var n := |changes| - 1;
      var before := changes[..n];
      forall k | 0 <= k <= n
        ensures mac in Run(rows, before[..k])
      {
        assert before[..k] == changes[..k];
      }
      NumbersStable(rows, before, mac);
      NumbersUnique(rows, before);
      match changes[n]
      case Scanned(devices, now) => UpsertNumbers(Run(rows, before), devices, now);
      case Forget(target) =>
    }
  }

  /** How many of the first `i` scanned devices get a number of their own. */
  function Added(known: Rows, scanned: seq<Device>, i: nat): nat
    requires i <= |scanned|
  {
    if i == 0 then 0 else Added(known, scanned, i - 1) + if scanned[i - 1].mac in known then 0 else 1
  }

  /** The number a scan gives a device: the one it has, or the next free one at its last occurrence. */
  ghost function NumberFor(known: Rows, scanned: seq<Device>, i: nat, mac: string): int
    requires i <= |scanned| && (mac in known || mac in Macs(scanned, i))
  {
    if mac in known then known[mac].num
    else if scanned[i - 1].mac == mac then MaxNum(known) + Added(known, scanned, i)
    else NumberFor(known, scanned, i - 1, mac)
  }

  /** The table `p` holds the known and the first `i` scanned devices under the numbers they are given. */
  ghost predicate GivesNumbers(known: Rows, scanned: seq<Device>, i: nat, rows: Rows)
    requires i <= |scanned|
  {
    && (forall m :: m in rows <==> m in known || m in Macs(scanned, i))
    && (forall m :: m in rows ==> rows[m].num == NumberFor(known, scanned, i, m))
  }

  lemma {:induction false} ScanNumberFor(known: Rows, scanned: seq<Device>, i: nat, now: string)
    requires i <= |scanned|
    ensures var p := Scan(known, scanned, i, now);
            p.maxNum == MaxNum(known) + Added(known, scanned, i) && GivesNumbers(known, scanned, i, p.rows)
  {
    if i > 0 {
      ScanNumberFor(known, scanned, i - 1, now);
      var before, after := Scan(known, scanned, i - 1, now), Scan(known, scanned, i, now);
      var d := Found(scanned[i - 1], after.maxNum, known, now);
      assert after.rows == before.rows[scanned[i - 1].mac := d];
      GivesOneMore(known, scanned, i, before.rows, after.rows, d);
    }
  }

  lemma GivesOneMore(known: Rows, scanned: seq<Device>, i: nat, rows: Rows, rows': Rows, d: Device)
    requires 0 < i <= |scanned| && GivesNumbers(known, scanned, i - 1, rows)
    requires rows' == rows[scanned[i - 1].mac := d]
    requires d.num == if scanned[i - 1].mac in known then known[scanned[i - 1].mac].num else MaxNum(known) + Added(known, scanned, i)
    ensures GivesNumbers(known, scanned, i, rows')
  {
  }

  lemma UpsertedNumberFor(known: Rows, scanned: seq<Device>, now: string)
    ensures GivesNumbers(known, scanned, |scanned|, Upserted(known, scanned, now))
  {
    ScanNumberFor(known, scanned, |scanned|, now);
    MissesKeepNumbers(Scan(known, scanned, |scanned|, now).rows, known, Macs(scanned, |scanned|), now);
  }

  /** The rows are listed before the transaction begins, so a scan may write from a list that is out of date. It
      keeps the numbers unique exactly when it gives no number that a row has which came in since, other than
      one of its own. */
  lemma OldListUnique(rows: Rows, list: Rows, scanned: seq<Device>, now: string)
    requires Unique(rows) && Unique(list)
    ensures Unique(rows + Upserted(list, scanned, now)) <==> NoneTaken(rows, list, scanned)
  {
    var written := Upserted(list, scanned, now);
    UpsertNumbers(list, scanned, now);
    UpsertedNumberFor(list, scanned, now);
    MergedUnique(rows, written);
    TakenInTable(rows, list, scanned, written);
  }

  /** No row that is neither on the old list nor scanned has a number that the scan gives. */
  ghost predicate NoneTaken(rows: Rows, list: Rows, scanned: seq<Device>) {
    forall m, k :: m in rows && !Concerned(list, scanned, m) && Concerned(list, scanned, k)
      ==> rows[m].num != NumberFor(list, scanned, |scanned|, k)
  }

  predicate Concerned(list: Rows, scanned: seq<Device>, mac: string) {
    mac in list || mac in Macs(scanned, |scanned|)
  }

  lemma TakenInTable(rows: Rows, list: Rows, scanned: seq<Device>, written: Rows)
    requires GivesNumbers(list, scanned, |scanned|, written)
    ensures NoneTaken(rows, list, scanned) <==>
            forall m, k :: m in rows && m !in written && k in written ==> rows[m].num != written[k].num
  {
    assert forall m :: m in written <==> Concerned(list, scanned, m);
    assert forall k :: k in written ==> written[k].num == NumberFor(list, scanned, |scanned|, k);
  }

  lemma MergedUnique(rows: Rows, written: Rows)
    requires Unique(rows) && Unique(written)
    ensures Unique(rows + written) <==>
            forall m, k :: m in rows && m !in written && k in written ==> rows[m].num != written[k].num
  {
    var merged := rows + written;
    if Unique(merged) {
      forall m, k | m in rows && m !in written && k in written
        ensures rows[m].num != written[k].num
      {
        assert merged[m].num != merged[k].num;
      }
    }
  }

  /** Two scans that both list the rows before either writes give one number to the new devices they bring. */
  lemma OverlappingScansClash(rows: Rows, d: Device, e: Device, now: string)
    requires d.mac != e.mac && d.mac !in rows && e.mac !in rows
    ensures var after := rows + Upserted(rows, [d], now) + Upserted(rows, [e], now);
            && d.mac in after && e.mac in after && after[d.mac].num == after[e.mac].num == MaxNum(rows) + 1
            && !Unique(after)
  {
    OneNew(rows, d, now);
    OneNew(rows, e, now);
    var after := rows + Upserted(rows, [d], now) + Upserted(rows, [e], now);
    assert after[d.mac].num == after[e.mac].num;
  }

  lemma OneNew(rows: Rows, d: Device, now: string)
    requires d.mac !in rows
    ensures var after := Upserted(rows, [d], now);
            d.mac in after && after[d.mac].num == MaxNum(rows) + 1 && forall m :: m in after <==> m in rows || m == d.mac
  {
    UpsertedNumberFor(rows, [d], now);
    assert Macs([d], 1) == {d.mac} by {
      assert Macs([d], 0) == {};
    }
    assert Added(rows, [d], 1) == 1 by {
      assert Added(rows, [d], 0) == 0;
    }
  }

  /** Writing a single row, as the refresh and the firmware check do with a copy they read earlier, keeps the
      numbers unique exactly when no other address has taken the copy's number in the meantime. */
  lemma SingleWriteUnique(rows: Rows, d: Device)
    requires Unique(rows)
    ensures Unique(rows[d.mac := WithScheme(d)]) <==> forall m :: m in rows && m != d.mac ==> rows[m].num != d.num
  {
    var after := rows[d.mac := WithScheme(d)];
    if m :| m in rows && m != d.mac && rows[m].num == d.num {
      assert after[m].num == after[d.mac].num;
    }
  }

  /** It can have been: the device with the highest number is forgotten, a new one scanned, and then the check
      that was under way writes the old row back. */
  lemma ForgottenComesBack(d: Device, e: Device, now: string)
    requires d.mac != e.mac && d.num == 1
    ensures var rows := map[d.mac := d];
            var after := Run(rows, [Forget(d.mac), Scanned([e], now)]);
            && Unique(after) && e.mac in after && after[e.mac].num == 1
            && !Unique(after[d.mac := WithScheme(d)])
  {
    var rows: Rows := map[d.mac := d];
    var changes := [Forget(d.mac), Scanned([e], now)];
    assert changes[..1] == [Forget(d.mac)] && [Forget(d.mac)][..0] == [];
    assert Run(rows, [Forget(d.mac)]) == map[];
    var p := Scan(map[], [e], 1, now);
    assert p == Progress(map[e.mac := Found(e, 1, map[], now)], 1) by {
      OneMax(map[], MaxNum(map[]), 0);
      assert Scan(map[], [e], 0, now) == Progress(map[], 0);
    }
    assert Macs([e], 1) == {e.mac} by {
      assert Macs([e], 0) == {};
    }
    var after := Run(rows, changes);
    assert after == Upserted(map[], [e], now);
    assert after[e.mac].num == 1;
    var back := after[d.mac := WithScheme(d)];
    assert back[e.mac].num == back[d.mac].num;
  }

  /** The last of the first `i` scanned devices with this address. */
  predicate LastSeenAt(scanned: seq<Device>, i: nat, k: nat, m: string) {
    k < i <= |scanned| && scanned[k].mac == m && forall j :: k < j < i ==> scanned[j].mac != m
  }

  /** The row shows what the probe read, as an answer of just now: online, no misses, no error. Of a known device the
      history and what a probe does not read are as they were. */
  predicate ShowsProbe(d: Device, probed: Device, known: Rows, now: string) {
    d == Device(
      probed.mac, probed.ip, if probed.scheme == "" then "http" else probed.scheme,
      d.num, if probed.mac in known then known[probed.mac].firstSeen else now, now,
      now, true, "", 0, true,
      if probed.mac in known then known[probed.mac].cache else probed.cache,
      if probed.mac in known then known[probed.mac].allowInsecure else probed.allowInsecure,
      probed.authRequired, probed.authError, probed.lockedUntil, probed.certValid,
      probed.fw, probed.batch, probed.fwId, probed.probe)
  }

  /** What a scan does to a row: a device it saw shows what was read, at its last occurrence if it came twice, and is
      online whatever the scanned row itself said, so also when a bulk refresh passes in a row it got no answer
      for. A device it did not see has one more miss, is offline from the second on, and is otherwise as it
      was. */
  lemma ScanOutcome(known: Rows, scanned: seq<Device>, now: string, m: string)
    requires m in Upserted(known, scanned, now)
    ensures var d := Upserted(known, scanned, now)[m];
            if m in Macs(scanned, |scanned|)
            then exists k: nat :: LastSeenAt(scanned, |scanned|, k, m) && ShowsProbe(d, scanned[k], known, now)
            else && m in known
                 && d == known[m].(lastAttempt := now, lastOk := false, lastError := "refresh timed out",
                                   misses := known[m].misses + 1, online := known[m].online && known[m].misses == 0,
                                   scheme := if known[m].scheme == "" then "http" else known[m].scheme)
  {
    ScanRow(known, scanned, |scanned|, now, m);
  }

  lemma {:induction false} ScanRow(known: Rows, scanned: seq<Device>, i: nat, now: string, m: string)
    requires i <= |scanned| && m in Scan(known, scanned, i, now).rows
    ensures var d := Scan(known, scanned, i, now).rows[m];
            if m in Macs(scanned, i)
            then exists k: nat :: LastSeenAt(scanned, i, k, m) && ShowsProbe(d, scanned[k], known, now)
            else m in known && d == known[m]
  {
    if i > 0 {
      if scanned[i - 1].mac == m {
        assert LastSeenAt(scanned, i, i - 1, m);
      } else {
        ScanRow(known, scanned, i - 1, now, m);
        if k: nat :| LastSeenAt(scanned, i - 1, k, m) && ShowsProbe(Scan(known, scanned, i, now).rows[m], scanned[k], known, now) {
          assert LastSeenAt(scanned, i, k, m);
        }
      }
    }
  }

  // ----- Refreshes and firmware checks -----

  /** What comes of asking a device for a refresh. */
  datatype Answer =
    | Silence(authRequired: Option<string>)             // no probe; perhaps the plain check is refused, and why
    | Probed(device: Device, fw: string, cache: Cache)  // with the capabilities read afterwards

  /** The probe found a Shelly device but could not read it. */
  predicate IsPartial(probed: Device) {
    probed.authRequired || probed.lockedUntil != "" || probed.certValid == Some(false)
  }

  function Refused(current: Device, reason: string, at: string): Device {
    current.(lastAttempt := at, lastOk := false, lastError := reason,
             authRequired := true, authError := reason, online := true, misses := 0)
  }

  function TimedOut(current: Device, at: string): Device {
    var d := current.(lastAttempt := at, lastOk := false, lastError := "refresh timed out", misses := current.misses + 1);
    if d.misses >= 2 then d.(online := false) else d
  }

  /** The row a refresh writes, from the row it read. */
  function Refreshed(current: Device, answer: Answer, at: string): Device {
    match answer
    case Silence(None) => TimedOut(current, at)
    case Silence(Some(reason)) => Refused(current, reason, at)
    case Probed(p, fw, cache) =>
      if IsPartial(p) then
        current.(lastAttempt := at, lastOk := false, lastError := p.authError,
                 authRequired := p.authRequired, authError := p.authError, online := true, misses := 0,
                 lockedUntil := if p.lockedUntil != "" then p.lockedUntil else current.lockedUntil,
                 certValid := if p.certValid.Some? then p.certValid else current.certValid)
      else
        p.(num := current.num, firstSeen := current.firstSeen, lastAttempt := at, lastOk := true, lastError := "",
           misses := 0, online := true, authRequired := false, authError := "", lockedUntil := "",
           allowInsecure := current.allowInsecure, fw := fw, cache := cache)
  }

  datatype Verdict = Failed(note: string, unreachable: bool) | NotApplicable | Checked(stable: string, beta: string, at: string)

  datatype Result = Result(verdict: Verdict, currentVer: string, batch: string, fwId: string)

  function Identified(d: Device, r: Result): Device {
    d.(fw := if r.currentVer != "" then r.currentVer else d.fw,
       batch := if r.batch != "" then r.batch else d.batch,
       fwId := if r.fwId != "" then r.fwId else d.fwId)
  }

  /** The row a firmware check writes, from the row it read. */
  function CheckedRow(device: Device, r: Result): Device {
    var d := Identified(device, r);
    match r.verdict
    case Failed(note, true) =>
      var e := d.(lastOk := false, lastError := note, misses := d.misses + 1);
      if e.misses >= 2 then e.(online := false) else e
    case Failed(note, false) => d.(lastOk := false, lastError := note, misses := 0, online := true)
    case NotApplicable => d
    case Checked(stable, beta, at) =>
      d.(cache := d.cache.(stable := stable, beta := beta, checkedAt := at),
         lastOk := true, lastError := "", misses := 0, online := true)
  }

  /** A refresh never touches the number, the history or the operator's opt-out, and one that did not get the
      whole snapshot keeps everything that an earlier one had read. */
  lemma RefreshKeeps(d: Device, answer: Answer, at: string)
    ensures var e := Refreshed(d, answer, at);
            && e.num == d.num && e.firstSeen == d.firstSeen && e.allowInsecure == d.allowInsecure && e.lastAttempt == at
            && (e.lastOk <==> answer.Probed? && !IsPartial(answer.device))
            && (e.misses == if answer == Silence(None) then d.misses + 1 else 0)
            && (e.online <==> answer != Silence(None) || (d.online && d.misses == 0))
            && (!e.lastOk ==> e.mac == d.mac && e.ip == d.ip && e.cache == d.cache && e.fw == d.fw && e.probe == d.probe)
  {
  }

  /** What a refresh has learnt is what the row then says: why it failed, what stands in the way, or the snapshot. */
  lemma RefreshShows(d: Device, answer: Answer, at: string)
    ensures var e := Refreshed(d, answer, at);
            match answer
            case Silence(None) => e.lastError == "refresh timed out" && e.authRequired == d.authRequired
            case Silence(Some(reason)) => e.lastError == reason && e.authError == reason && e.authRequired
            case Probed(p, fw, cache) =>
              if p.authRequired || p.lockedUntil != "" || p.certValid == Some(false) then
                && e.lastError == p.authError && e.authError == p.authError && e.authRequired == p.authRequired
                && (p.lockedUntil != "" ==> e.lockedUntil == p.lockedUntil)
                && (p.lockedUntil == "" ==> e.lockedUntil == d.lockedUntil)
                && (p.certValid.Some? ==> e.certValid == p.certValid)
                && (p.certValid.None? ==> e.certValid == d.certValid)
              else
                && e.mac == p.mac && e.ip == p.ip && e.scheme == p.scheme && e.probe == p.probe
                && e.fw == fw && e.cache == cache
                && e.lastError == "" && !e.authRequired && e.authError == "" && e.lockedUntil == ""
  {
  }

  /** A check that failed is not written as if it had succeeded: what was known of available firmware stays, and
      the row says that the check failed, and of silence that it was one more. A check that succeeded replaces both
      versions and the time, and nothing touches the number or the toggle. */
  lemma CheckShows(d: Device, r: Result)
    ensures var e := CheckedRow(d, r);
            && e.num == d.num && e.cache.autoUpdate == d.cache.autoUpdate
            && (r.currentVer != "" ==> e.fw == r.currentVer) && (r.currentVer == "" ==> e.fw == d.fw)
            && (r.batch != "" ==> e.batch == r.batch) && (r.batch == "" ==> e.batch == d.batch)
            && (r.fwId != "" ==> e.fwId == r.fwId) && (r.fwId == "" ==> e.fwId == d.fwId)
            && match r.verdict
               case Checked(stable, beta, at) =>
                 && e.cache.stable == stable && e.cache.beta == beta && e.cache.checkedAt == at
                 && e.lastOk && e.lastError == "" && e.misses == 0 && e.online
               case Failed(note, unreachable) =>
                 && e.cache == d.cache && !e.lastOk && e.lastError == note
                 && e.misses == (if unreachable then d.misses + 1 else 0)
                 && (e.online <==> !unreachable || (d.online && d.misses == 0))
               case NotApplicable =>
                 e == d.(fw := e.fw, batch := e.batch, fwId := e.fwId)
  {
  }

  /** A device row in memory, as the jobs hold it by reference. */
  class Copy {
    var row: Device

    constructor (d: Device)
      ensures row == d
    {
      row := d;
    }

    method Miss()
      modifies this
      ensures row.misses == old(row).misses + 1
      ensures row.online == (old(row).online && row.misses < 2)
      ensures row == old(row).(misses := row.misses, online := row.online)
    {
      row := row.(misses := row.misses + 1);
      if row.misses >= 2 {
        row := row.(online := false);
      }
    }

    method Identify(r: Result)
      modifies this
      ensures row == Identified(old(row), r)
    {
      if r.currentVer != "" {
        row := row.(fw := r.currentVer);
      }
      if r.batch != "" {
        row := row.(batch := r.batch);
      }
      if r.fwId != "" {
        row := row.(fwId := r.fwId);
      }
    }

    method ApplyCheckResult(r: Result)
      modifies this
      ensures row == CheckedRow(old(row), r)
    {
      Identify(r);
      match r.verdict {
        case Failed(note, unreachable) =>
          row := row.(lastOk := false, lastError := note);
          if unreachable {
            Miss();
          } else {
            row := row.(misses := 0, online := true);
          }
        case NotApplicable =>
        case Checked(stable, beta, at) =>
          row := row.(cache := row.cache.(stable := stable, beta := beta, checkedAt := at),
                      lastOk := true, lastError := "", misses := 0, online := true);
      }
    }

    /** The refresh of this copy and the write of what comes out. */
    method Refresh(table: Table, answer: Answer, at: string)
      modifies this, table
      ensures table.rows == old(table.rows)[Refreshed(old(row), answer, at).mac := WithScheme(Refreshed(old(row), answer, at))]
    {
      match answer {
        case Silence(authRequired) =>
          row := row.(lastAttempt := at, lastOk := false);
          if authRequired.Some? {
            row := row.(authRequired := true, authError := authRequired.value, lastError := authRequired.value);
            row := row.(online := true, misses := 0);
          } else {
            row := row.(lastError := "refresh timed out");
            Miss();
          }
          table.UpsertDevice(row);
        case Probed(probed, fw, cache) =>
          if IsPartial(probed) {
            row := row.(lastAttempt := at, lastOk := false, authRequired := probed.authRequired, authError := probed.authError);
            if probed.lockedUntil != "" {
              row := row.(lockedUntil := probed.lockedUntil);
            }
            if probed.certValid.Some? {
              row := row.(certValid := probed.certValid);
            }
            row := row.(lastError := probed.authError, online := true, misses := 0);
            table.UpsertDevice(row);
          } else {
            table.UpsertDevice(
              probed.(num := row.num, firstSeen := row.firstSeen, lastAttempt := at, lastOk := true, lastError := "",
                      misses := 0, online := true, authRequired := false, authError := "", lockedUntil := "",
                      allowInsecure := row.allowInsecure, fw := fw, cache := cache));
          }
      }
    }
  }

  // ----- Reachability over all runs -----

  /** Online means: fewer than two misses. */
  predicate Sound(d: Device) {
    d.online <==> d.misses < 2
  }

  ghost predicate AllSound(rows: Rows) {
    forall m :: m in rows ==> Sound(rows[m])
  }

  /** The table, the rows that jobs have read and not yet written, and the lists that scans have read. */
  datatype System = System(rows: Rows, copies: seq<Device>, lists: seq<Rows>)

  datatype Event =
    | ReadRow(mac: string)
    | WriteRefresh(copy: nat, answer: Answer, at: string)
    | WriteCheck(copy: nat, result: Result, autoUpdate: Option<string>)
    | ReadList
    | WriteScan(list: nat, scanned: seq<Device>, now: string)
    | Delete(target: string)

  function WithAutoUpdate(d: Device, autoUpdate: Option<string>): Device {
    if autoUpdate.Some? then d.(cache := d.cache.(autoUpdate := autoUpdate.value)) else d
  }

  ghost function Happen(s: System, e: Event): System {
    match e
    case ReadRow(mac) => if mac in s.rows then s.(copies := s.copies + [s.rows[mac]]) else s
    case WriteRefresh(i, answer, at) =>
      if i < |s.copies|
      then
        var d := Refreshed(s.copies[i], answer, at);
        s.(rows := s.rows[d.mac := WithScheme(d)])
      else s
    case WriteCheck(i, result, autoUpdate) =>
      if i < |s.copies|
      then
        var d := WithAutoUpdate(CheckedRow(s.copies[i], result), autoUpdate);
        s.(rows := s.rows[d.mac := WithScheme(d)])
      else s
    case ReadList => s.(lists := s.lists + [s.rows])
    case WriteScan(i, scanned, now) =>
      if i < |s.lists| then s.(rows := s.rows + Upserted(s.lists[i], scanned, now)) else s
    case Delete(target) => s.(rows := Forgotten(s.rows, target))
  }

  ghost function History(events: seq<Event>): System {
    if events == [] then System(map[], [], [])
    else Happen(History(events[..|events| - 1]), events[|events| - 1])
  }

  /** The clash of two overlapping scans is a run of this system from any state without the two devices. */
  lemma OverlapIsARun(s: System, d: Device, e: Device, now: string)
    requires d.mac != e.mac && d.mac !in s.rows && e.mac !in s.rows
    ensures var n := |s.lists|;
            var listed := Happen(Happen(s, ReadList), ReadList);
            var t := Happen(Happen(listed, WriteScan(n, [d], now)), WriteScan(n + 1, [e], now));
            d.mac in t.rows && e.mac in t.rows && t.rows[d.mac].num == t.rows[e.mac].num && !Unique(t.rows)
  {
    OverlappingScansClash(s.rows, d, e, now);
  }

  /** A scan with nothing between its list and its writes is the serial one, and so is a deletion. */
  lemma SerialHappens(s: System, devices: seq<Device>, now: string, target: string)
    ensures Happen(Happen(s, ReadList), WriteScan(|s.lists|, devices, now)).rows == Changed(s.rows, Scanned(devices, now))
    ensures Happen(s, Delete(target)).rows == Changed(s.rows, Forget(target))
  {
    UpsertedNumberFor(s.rows, devices, now);
    Replaced(s.rows, Upserted(s.rows, devices, now));
  }

  lemma Replaced(rows: Rows, written: Rows)
    requires rows.Keys <= written.Keys
    ensures rows + written == written
  {
  }

  /** A read changes no row, and nothing changes what was read. */
  lemma ReadsStay(s: System, e: Event)
    ensures e.ReadRow? || e.ReadList? ==> Happen(s, e).rows == s.rows
    ensures s.copies <= Happen(s, e).copies && s.lists <= Happen(s, e).lists
  {
  }

  /** A refresh or a check with nothing between its read and its write goes to the row that it read, as the refresh
      or the check of that row; the mode that the check has read goes with it. */
  lemma SerialWrite(s: System, mac: string, answer: Answer, at: string, result: Result, autoUpdate: Option<string>)
    requires mac in s.rows
    ensures var read, n := Happen(s, ReadRow(mac)), |s.copies|;
            var d, e := Refreshed(s.rows[mac], answer, at), CheckedRow(s.rows[mac], result);
            && Happen(read, WriteRefresh(n, answer, at)).rows == s.rows[d.mac := WithScheme(d)]
            && Happen(read, WriteCheck(n, result, None)).rows == s.rows[e.mac := WithScheme(e)]
            && (autoUpdate.Some? ==>
                  && var after := Happen(read, WriteCheck(n, result, autoUpdate)).rows;
                  && e.mac in after && after[e.mac].cache.autoUpdate == autoUpdate.value
                  && after == s.rows[e.mac := WithScheme(e.(cache := e.cache.(autoUpdate := autoUpdate.value)))])
  {
  }

  ghost predicate SystemSound(s: System) {
    && AllSound(s.rows)
    && (forall i :: 0 <= i < |s.copies| ==> Sound(s.copies[i]))
    && (forall i :: 0 <= i < |s.lists| ==> AllSound(s.lists[i]))
  }

  lemma {:induction false} ScanSound(known: Rows, scanned: seq<Device>, i: nat, now: string)
    requires AllSound(known) && i <= |scanned|
    ensures AllSound(Scan(known, scanned, i, now).rows)
  {
    if i > 0 {
      ScanSound(known, scanned, i - 1, now);
    }
  }

  lemma UpsertSound(rows: Rows, known: Rows, scanned: seq<Device>, now: string)
    requires AllSound(rows) && AllSound(known)
    ensures AllSound(rows + Upserted(known, scanned, now))
  {
    ScanSound(known, scanned, |scanned|, now);
  }

  lemma RefreshSound(d: Device, answer: Answer, at: string)
    requires Sound(d)
    ensures Sound(Refreshed(d, answer, at))
  {
  }

  lemma CheckSound(d: Device, r: Result)
    requires Sound(d)
    ensures Sound(CheckedRow(d, r))
  {
  }

  lemma PutSound(rows: Rows, d: Device)
    requires AllSound(rows) && Sound(d)
    ensures AllSound(rows[d.mac := WithScheme(d)]) && WithScheme(d).mac == d.mac
  {
  }

  lemma WriteSound(s: System, e: Event)
    requires SystemSound(s) && (e.WriteRefresh? || e.WriteCheck?)
    ensures SystemSound(Happen(s, e))
  {
    if e.copy < |s.copies| {
      var d := s.copies[e.copy];
      var d' := if e.WriteRefresh? then Refreshed(d, e.answer, e.at)
                else WithAutoUpdate(CheckedRow(d, e.result), e.autoUpdate);
      if e.WriteRefresh? {
        RefreshSound(d, e.answer, e.at);
      } else {
        CheckSound(d, e.result);
      }
      PutSound(s.rows, d');
    }
  }

  lemma HappenSound(s: System, e: Event)
    requires SystemSound(s)
    ensures SystemSound(Happen(s, e))
  {
    match e
    case ReadRow(mac) =>
    case WriteRefresh(_, _, _) => WriteSound(s, e);
    case WriteCheck(_, _, _) => WriteSound(s, e);
    case ReadList =>
    case WriteScan(i, scanned, now) =>
      if i < |s.lists| {
        UpsertSound(s.rows, s.lists[i], scanned, now);
      }
    case Delete(target) =>
  }

  /** Every row ever in the table is online exactly when it has fewer than two misses, however scans, refreshes
      and checks overtake each other with rows read earlier. */
  lemma {:induction false} OnlineMeansAnswering(events: seq<Event>)
    ensures SystemSound(History(events))
  {
    if events != [] {
      var n := |events| - 1;
      OnlineMeansAnswering(events[..n]);
      HappenSound(History(events[..n]), events[n]);
    }
  }

  // ----- What the misses count -----

  datatype Outcome = Answered | Silent | NoWord

  function OutcomeOf(r: Result): Outcome {
    match r.verdict
    case Failed(_, unreachable) => if unreachable then Silent else Answered
    case NotApplicable => NoWord
    case Checked(_, _, _) => Answered
  }

  function Checks(d: Device, results: seq<Result>): Device {
    if results == [] then d else CheckedRow(Checks(d, results[..|results| - 1]), results[|results| - 1])
  }

  /** The silences since the last answer; checks that say nothing about the device do not count. */
  function SilentSince(outcomes: seq<Result>, before: nat): nat {
    if outcomes == [] then before
    else
      var n := |outcomes| - 1;
      match OutcomeOf(outcomes[n])
      case Answered => 0
      case Silent => SilentSince(outcomes[..n], before) + 1
      case NoWord => SilentSince(outcomes[..n], before)
  }

  /** A device is offline exactly when the last two or more words from it were silence. */
  lemma {:induction false} MissesCountSilence(d: Device, results: seq<Result>)
    requires Sound(d)
    ensures var e := Checks(d, results);
            e.misses == SilentSince(results, d.misses) && (e.online <==> SilentSince(results, d.misses) < 2)
  {
    if results != [] {
      MissesCountSilence(d, results[..|results| - 1]);
    }
  }
}
