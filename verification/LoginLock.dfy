/** The account lockout (internal/services/loginlock/loginlock.go) as the login handler uses it
    (internal/api/handler_auth.go). Times are in nanoseconds; stored stamps are whole seconds. */
module LoginLock {
  import opened Wrappers

  const SECOND := 1_000_000_000
  const MAX_FAILURES := 20

  /** In seconds. */
  const LOCKOUT := 900

  function Stamp(t: nat): nat {
    t / SECOND
  }

  /** The stored row. */
  datatype Account = Account(failedCount: nat, lockedUntil: Option<nat>)

  const FRESH := Account(0, None)

  predicate Locked(a: Account, now: nat) {
    a.lockedUntil.Some? && now < a.lockedUntil.value * SECOND
  }

  /** The row that a failure makes of the row it has read. */
  function Failed(a: Account, now: nat): Account {
    var n := a.failedCount + 1;
    Account(n, if n >= MAX_FAILURES then Some(Stamp(now + LOCKOUT * SECOND)) else a.lockedUntil)
  }

  class LoginState {
    var account: Account

    constructor ()
      ensures account == FRESH
    {
      account := FRESH;
    }

    method IsLocked(now: nat) returns (locked: bool)
      ensures locked == Locked(account, now)
    {
      if account.lockedUntil.None? {
        return false;
      }
      return now < account.lockedUntil.value * SECOND;
    }

    /** The write of a failure, on the row as it was read before. */
    method WriteFailure(read: Account, now: nat)
      modifies this
      ensures account == Failed(read, now)
    {
      account := read.(failedCount := read.failedCount + 1);
      if account.failedCount >= MAX_FAILURES {
        account := account.(lockedUntil := Some(Stamp(now + LOCKOUT * SECOND)));
      }
    }

    /** Read and write with nothing in between. */
    method RecordFailure(now: nat)
      modifies this
      ensures account == Failed(old(account), now)
    {
      WriteFailure(account, now);
    }

    method RecordSuccess()
      modifies this
      ensures account == FRESH
    {
      account := FRESH;
    }
  }

  // ----- What the budget is -----

  /** The account, and the stamps of the failures recorded since the last success. */
  datatype History = History(account: Account, failures: seq<nat>)

  const NEW := History(FRESH, [])

  /** The counter counts the failures, the lock ends fifteen minutes after the last one once there are twenty,
      and from the twentieth on they are fifteen minutes apart. */
  ghost predicate Sound(h: History) {
    var n := |h.failures|;
    && h.account.failedCount == n
    && h.account.lockedUntil == (if n >= 20 then Some(h.failures[n - 1] + 900) else None)
    && Spaced(h.failures)
  }

  ghost predicate Spaced(failures: seq<nat>) {
    forall i :: 20 <= i < |failures| ==> failures[i] >= failures[i - 1] + 900
  }

  lemma {:induction false} Spacing(failures: seq<nat>, n: nat)
    requires 20 <= n <= |failures| && Spaced(failures)
    ensures failures[n - 1] >= failures[19] + 900 * (n - 20)
  {
    if n > 20 {
      Spacing(failures, n - 1);
    }
  }

  /** n failures in a row take at least n - 20 lockouts after the twentieth. */
  lemma Budget(h: History)
    requires Sound(h) && |h.failures| >= 20
    ensures var f, n := h.failures, |h.failures|;
            f[n - 1] >= f[19] && n <= 20 + (f[n - 1] - f[19]) / 900
  {
    Spacing(h.failures, |h.failures|);
  }

  lemma StampMoves(t: nat, until: nat)
    ensures Stamp(t + 900 * 1_000_000_000) == Stamp(t) + 900
    ensures t >= until * 1_000_000_000 <==> Stamp(t) >= until
  {
  }

  // ----- Attempts whose steps interleave -----

  /** Where a login attempt stands: past the look at the lock, or with the row read that it will count up. */
  datatype Phase = Checked | HasRead(row: Account)

  datatype System = System(history: History, attempts: map<nat, Phase>)

  datatype Event =
    | Check(id: nat, at: nat)        // looks at the lock and goes on when it is open
    | Read(id: nat)                  // a failed attempt reads the row
    | Write(id: nat, at: nat)        // and writes it back, counted up
    | Succeed(id: nat)

  const START := System(NEW, map[])

  predicate Is(s: System, id: nat, p: Phase) {
    id in s.attempts && s.attempts[id] == p
  }

  predicate Writing(s: System, e: Event) {
    e.Write? && e.id in s.attempts && s.attempts[e.id].HasRead?
  }

  /** The history with one more failure, written on the row that was read. */
  function Recorded(h: History, read: Account, at: nat): History {
    History(Failed(read, at), h.failures + [at / 1_000_000_000])
  }

  function Step(s: System, e: Event): System {
    match e
    case Check(id, at) =>
      if id in s.attempts || Locked(s.history.account, at) then s else s.(attempts := s.attempts[id := Checked])
    case Read(id) =>
      if Is(s, id, Checked) then s.(attempts := s.attempts[id := HasRead(s.history.account)]) else s
    case Write(id, at) =>
      if Writing(s, e) then System(Recorded(s.history, s.attempts[id].row, at), s.attempts - {id}) else s
    case Succeed(id) => if Is(s, id, Checked) then System(NEW, s.attempts - {id}) else s
  }

  function Run(events: seq<Event>): System {
    if events == [] then START else Step(Run(events[..|events| - 1]), events[|events| - 1])
  }

  /** A row has a lock exactly from twenty failures on, also one that is out of date. */
  predicate Coherent(a: Account) {
    a.lockedUntil.Some? <==> a.failedCount >= 20
  }

  ghost predicate AllCoherent(s: System) {
    Coherent(s.history.account) && forall id :: id in s.attempts && s.attempts[id].HasRead? ==> Coherent(s.attempts[id].row)
  }

  lemma {:induction false} RunCoherent(events: seq<Event>)
    ensures AllCoherent(Run(events))
  {
    if events != [] {
      RunCoherent(events[..|events| - 1]);
    }
  }

  /** What a write needs: no other attempt has been counted since the read, and the lock, if there is one, has
      run out by then. */
  predicate Harmless(h: History, read: Account, at: nat) {
    && read.failedCount == |h.failures|
    && (|h.failures| < 20 || (h.account.lockedUntil.Some? && Stamp(at) >= h.account.lockedUntil.value))
  }

  /** Recording a failure keeps the count and the spacing exactly when it is harmless. */
  lemma RecordKeepsExactly(h: History, read: Account, at: nat)
    requires Sound(h) && Coherent(read)
    ensures Sound(Recorded(h, read, at)) <==> Harmless(h, read, at)
  {
    StampMoves(at, 0);
    var n, f := |h.failures|, Recorded(h, read, at).failures;
    assert forall i :: 0 <= i < n ==> f[i] == h.failures[i];
    assert n > 0 ==> f[n - 1] == h.failures[n - 1];
    assert Spaced(f) <==> n < 20 || f[n] >= f[n - 1] + 900;
  }

  ghost predicate SoundAt(events: seq<Event>, k: nat)
    requires k <= |events|
  {
    Sound(Run(events[..k]).history)
  }

  /** The k-th step is not a harmful write. */
  ghost predicate HarmlessAt(events: seq<Event>, k: nat)
    requires k < |events|
  {
    var s := Run(events[..k]);
    Writing(s, events[k]) ==> Harmless(s.history, s.attempts[events[k].id].row, events[k].at)
  }

  lemma StepSoundExactly(s: System, e: Event)
    requires Sound(s.history) && AllCoherent(s)
    ensures Sound(Step(s, e).history) <==> (Writing(s, e) ==> Harmless(s.history, s.attempts[e.id].row, e.at))
  {
    if Writing(s, e) {
      RecordKeepsExactly(s.history, s.attempts[e.id].row, e.at);
    }
  }

  lemma NextSoundExactly(events: seq<Event>, k: nat)
    requires k < |events| && SoundAt(events, k)
    ensures SoundAt(events, k + 1) <==> HarmlessAt(events, k)
  {
    assert events[..k + 1][..k] == events[..k];
    RunCoherent(events[..k]);
    StepSoundExactly(Run(events[..k]), events[k]);
  }

  lemma {:induction false} SoundUpTo(events: seq<Event>, n: nat)
    requires n <= |events|
    ensures (forall k :: 0 <= k <= n ==> SoundAt(events, k)) <==> (forall k :: 0 <= k < n ==> HarmlessAt(events, k))
  {
    if n == 0 {
      assert events[..0] == [];
    } else {
      SoundUpTo(events, n - 1);
      if SoundAt(events, n - 1) {
        NextSoundExactly(events, n - 1);
      }
    }
  }

  /** Over all runs of any number of overlapping attempts: the failures are counted and spaced at every moment
      if and only if every single write is harmless. */
  lemma SoundExactly(events: seq<Event>)
    ensures (forall k :: 0 <= k <= |events| ==> SoundAt(events, k))
            <==> (forall k :: 0 <= k < |events| ==> HarmlessAt(events, k))
  {
    SoundUpTo(events, |events|);
  }

  // ----- One attempt after the other -----

  /** A login that nothing interrupts: the row is read some time after the lock was looked at. */
  datatype Attempt = Attempt(checked: nat, took: nat, success: bool)

  function After(h: History, a: Attempt): History {
    if Locked(h.account, a.checked) then h
    else if a.success then NEW
    else Recorded(h, h.account, a.checked + a.took)
  }

  function Serial(attempts: seq<Attempt>): History {
    if attempts == [] then NEW else After(Serial(attempts[..|attempts| - 1]), attempts[|attempts| - 1])
  }

  /** The steps of one attempt in the interleaved machine, without another step in between, are the serial one. */
  lemma SerialIsARun(s: System, id: nat, a: Attempt)
    requires id !in s.attempts
    ensures var looked := Step(s, Check(id, a.checked));
            var done := if a.success then Step(looked, Succeed(id))
                        else Step(Step(looked, Read(id)), Write(id, a.checked + a.took));
            done == System(After(s.history, a), s.attempts)
  {
    if !Locked(s.history.account, a.checked) {
      assert s.attempts[id := Checked] - {id} == s.attempts;
      assert s.attempts[id := Checked][id := HasRead(s.history.account)] - {id} == s.attempts;
    }
  }

  /** Attempts that come one after the other are all harmless. */
  lemma {:induction false} SerialSound(attempts: seq<Attempt>)
    ensures Sound(Serial(attempts))
  {
    if attempts != [] {
      var h, a := Serial(attempts[..|attempts| - 1]), attempts[|attempts| - 1];
      SerialSound(attempts[..|attempts| - 1]);
      if !Locked(h.account, a.checked) && !a.success {
        StampMoves(a.checked + a.took, if h.account.lockedUntil.Some? then h.account.lockedUntil.value else 0);
        RecordKeepsExactly(h, h.account, a.checked + a.took);
      }
    }
  }

  /** The account is locked exactly when there have been twenty failures in a row and the last one is less than
      fifteen minutes ago. */
  lemma LockedExactly(attempts: seq<Attempt>, now: nat)
    ensures var h := Serial(attempts);
            var n := |h.failures|;
            Locked(h.account, now) <==> n >= 20 && now < (h.failures[n - 1] + 900) * 1_000_000_000
  {
    SerialSound(attempts);
  }

  /** However serial attempts come, n failures in a row take at least n - 20 lockouts after the twentieth. */
  lemma FailureBudget(attempts: seq<Attempt>)
    ensures var f := Serial(attempts).failures;
            var n := |f|;
            n >= 20 ==> f[n - 1] >= f[19] && n <= 20 + (f[n - 1] - f[19]) / 900
  {
    SerialSound(attempts);
    if |Serial(attempts).failures| >= 20 {
      Budget(Serial(attempts));
    }
  }

  /** A lock that has run out does not wipe the slate: the next failure locks again at once. */
  lemma ExpiredLockRelocks(attempts: seq<Attempt>, a: Attempt, now: nat)
    requires var h := Serial(attempts); |h.failures| >= 20 && !Locked(h.account, a.checked)
    requires !a.success && now < (Stamp(a.checked + a.took) + 900) * 1_000_000_000
    ensures Locked(Serial(attempts + [a]).account, now)
  {
    assert (attempts + [a])[..|attempts|] == attempts;
    SerialSound(attempts);
    StampMoves(a.checked + a.took, 0);
  }

  // ----- Two attempts at once -----

  /** Two attempts that have both passed the look at the lock fail at one moment, each counted in full: that
      stays within the budget exactly below nineteen failures. */
  lemma TwoPassedExactly(h: History, at: nat)
    requires Sound(h) && !Locked(h.account, at)
    ensures var one := Recorded(h, h.account, at);
            Sound(Recorded(one, one.account, at)) <==> |h.failures| < 19
  {
    var one := Recorded(h, h.account, at);
    StampMoves(at, if h.account.lockedUntil.Some? then h.account.lockedUntil.value else 0);
    RecordKeepsExactly(h, h.account, at);
    RecordKeepsExactly(one, one.account, at);
  }

  /** If both read the row before either writes it, one failure is never counted. */
  lemma LostFailure(h: History, at: nat, later: nat)
    requires Sound(h)
    ensures var both := Recorded(Recorded(h, h.account, at), h.account, later);
            both.account.failedCount == |both.failures| - 1 && !Sound(both)
  {
  }
}
