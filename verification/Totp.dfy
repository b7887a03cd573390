/** One-time codes and backup codes (internal/services/totp/totp.go, internal/services/totp/service.go). The
    keyed hash, the secret's encoding and the hash of backup codes are given functions. */
module Totp {
  import opened Wrappers
  import opened Arith
  import opened Text

  const PERIOD := 30

  const SKEW_WINDOW := 1

  const DIGITS := 6

  const BACKUP_CODES := 10

  datatype Primitives = Primitives(
    hmac: (seq<Byte>, seq<Byte>) -> seq<Byte>,
    decode: string -> Option<seq<Byte>>,       // the key that a printed secret stands for
    hash: string -> string)                    // of a normalised backup code

  /** The keyed hash has twenty bytes. */
  ghost predicate Lawful(p: Primitives) {
    forall key, message :: |p.hmac(key, message)| == 20
  }

  // ----- Codes -----

  /** A 64-bit counter, the highest byte first. */
  function BigEndian(counter: nat, n: nat): (r: seq<Byte>)
    ensures |r| == n
  {
    if n == 0 then [] else BigEndian(counter / 256, n - 1) + [counter % 256]
  }

  /** Four bytes as the code puts them together, with shifts and ors; the highest bit is dropped. */
  function Truncated(b0: Byte, b1: Byte, b2: Byte, b3: Byte): nat {
    var x1: nat, x2: nat := b1, b2;
    Or(Or(Or(And(b0, 0x7f) * 0x100_0000, x1 * 0x1_0000), x2 * 0x100), b3)
  }

  /** `v` in decimal with `n` digits, leading zeros included. */
  function Decimal(v: nat, n: nat): (r: string)
    ensures |r| == n
  {
    if n == 0 then "" else Decimal(v / 10, n - 1) + [DigitChar(v % 10)]
  }

  function DigitChar(d: nat): char
    requires d < 10
  {
    '0' + d as char
  }

  /** The four bytes of the hash that its last nibble points at, put together. */
  function Value31(p: Primitives, key: seq<Byte>, counter: nat): nat
    requires Lawful(p)
  {
    var sum := p.hmac(key, BigEndian(counter, 8));
    var offset := sum[|sum| - 1] % 16;
    Truncated(sum[offset], sum[offset + 1], sum[offset + 2], sum[offset + 3])
  }

  function ComputeCode(p: Primitives, key: seq<Byte>, counter: nat): string
    requires Lawful(p)
  {
    Decimal(Value31(p, key, counter) % 1_000_000, DIGITS)
  }

  lemma Pow2Bytes()
    ensures Pow2(7) == 128 && Pow2(8) == 256 && Pow2(16) == 0x1_0000 && Pow2(24) == 0x100_0000
  {
    Pow2Byte(0);
    Pow2Byte(8);
    Pow2Byte(16);
    assert Pow2(8) == 2 * Pow2(7);
  }

  lemma LowPart(x: nat, n: nat, p: nat)
    requires p == Pow2(n) && x < 2 * p
    ensures And(x, p - 1) == if x < p then x else x - p
  {
    AndLow(x, n);
    ClearBlock(0, n);
    ClearWithin(0, p, n);
    if x < p {
      ClearWithin(0, x, n);
    } else {
      ClearWithin(p, x - p, n);
    }
  }

  lemma LowSeven(b: Byte)
    ensures And(b, 0x7f) == b % 128
  {
    Pow2Bytes();
    LowPart(b, 7, 128);
  }

  /** The dynamic truncation yields the low 31 bits of the four bytes, read as one number. */
  lemma TruncatedValue(b0: Byte, b1: Byte, b2: Byte, b3: Byte)
    ensures Truncated(b0, b1, b2, b3) == (b0 as nat % 128) * 0x100_0000 + b1 as nat * 0x1_0000 + b2 as nat * 0x100 + b3
    ensures Truncated(b0, b1, b2, b3) < 0x8000_0000
  {
    LowSeven(b0);
    OrChain(b0 % 128, b1, b2, b3);
  }

  lemma OrChain(x: nat, y1: nat, y2: nat, y3: nat)
    requires y1 < 256 && y2 < 256 && y3 < 256
    ensures Or(Or(Or(x * 0x100_0000, y1 * 0x1_0000), y2 * 0x100), y3)
            == x * 0x100_0000 + y1 * 0x1_0000 + y2 * 0x100 + y3
  {
    var a, b := x * 256 + y1, (x * 256 + y1) * 256 + y2;
    OrBytes(x, y1 * 0x1_0000);
    OrBytes(a, y2 * 0x100);
    OrBytes(b, y3);
  }

  lemma OrBytes(x: nat, y: nat)
    ensures y < 0x100_0000 ==> Or(x * 0x100_0000, y) == x * 0x100_0000 + y
    ensures y < 0x1_0000 ==> Or(x * 0x1_0000, y) == x * 0x1_0000 + y
    ensures y < 0x100 ==> Or(x * 0x100, y) == x * 0x100 + y
  {
    Pow2Bytes();
    if y < 0x100_0000 {
      OrDisjoint(x, y, 24);
    }
    if y < 0x1_0000 {
      OrDisjoint(x, y, 16);
    }
    if y < 0x100 {
      OrDisjoint(x, y, 8);
    }
  }

  function PowerOfTen(n: nat): (p: nat)
    ensures p > 0
  {
    if n == 0 then 1 else 10 * PowerOfTen(n - 1)
  }

  /** A numeral read back. */
  function ReadDecimal(s: string): int {
    if s == "" then 0 else 10 * ReadDecimal(s[..|s| - 1]) + (s[|s| - 1] as int - '0' as int)
  }

  /** The digits denote the number, if they suffice for it. */
  lemma {:induction false} DecimalDenotes(v: nat, n: nat)
    requires v < PowerOfTen(n)
    ensures ReadDecimal(Decimal(v, n)) == v
    ensures forall i :: 0 <= i < n ==> '0' <= Decimal(v, n)[i] <= '9'
  {
    if n > 0 {
      var rest := Decimal(v / 10, n - 1);
      DecimalDenotes(v / 10, n - 1);
      assert Decimal(v, n)[..n - 1] == rest && Decimal(v, n)[n - 1] == DigitChar(v % 10);
    }
  }

  /** Eight bytes read as one number, the highest first. */
  predicate Reads(message: seq<Byte>, v: nat) {
    && |message| == 8
    && v == message[0] as nat * 0x100_0000_0000_0000 + message[1] as nat * 0x1_0000_0000_0000
            + message[2] as nat * 0x100_0000_0000 + message[3] as nat * 0x1_0000_0000
            + message[4] as nat * 0x100_0000 + message[5] as nat * 0x1_0000
            + message[6] as nat * 0x100 + message[7] as nat
  }

  /** The message is the one that reads as the counter. */
  lemma MessageExactly(counter: nat, message: seq<Byte>)
    requires counter < 0x1_0000_0000_0000_0000
    ensures Reads(message, counter) <==> message == BigEndian(counter, 8)
  {
    BigEndianReads(counter);
    if Reads(message, counter) {
      OneMessage(message, BigEndian(counter, 8), counter);
    }
  }

  lemma BigEndianReads(counter: nat)
    requires counter < 0x1_0000_0000_0000_0000
    ensures Reads(BigEndian(counter, 8), counter)
  {
    var high, low := counter / 0x1_0000_0000, counter % 0x1_0000_0000;
    var m, front := BigEndian(counter, 8), BigEndian(high, 4);
    FourBytes(counter, 8);
    FourBytes(high, 4);
    assert front == m[..4];
    assert high % 0x1_0000_0000 == high;
    ReadsInHalves(m, high, low);
  }

  lemma ReadsInHalves(m: seq<Byte>, high: nat, low: nat)
    requires |m| == 8
    requires high == m[0] as nat * 0x100_0000 + m[1] as nat * 0x1_0000 + m[2] as nat * 0x100 + m[3] as nat
    requires low == m[4] as nat * 0x100_0000 + m[5] as nat * 0x1_0000 + m[6] as nat * 0x100 + m[7] as nat
    ensures Reads(m, high * 0x1_0000_0000 + low)
  {
  }

  /** The last four bytes have the low half, the ones before them the rest. */
  lemma FourBytes(counter: nat, n: nat)
    requires n >= 4
    ensures var m := BigEndian(counter, n);
            && m[..n - 4] == BigEndian(counter / 0x1_0000_0000, n - 4)
            && counter % 0x1_0000_0000 == m[n - 4] as nat * 0x100_0000 + m[n - 3] as nat * 0x1_0000
                                          + m[n - 2] as nat * 0x100 + m[n - 1] as nat
  {
    var m, front := BigEndian(counter, n), BigEndian(counter / 0x1_0000, n - 2);
    TwoBytes(counter, n);
    TwoBytes(counter / 0x1_0000, n - 2);
    assert front[..n - 4] == m[..n - 4];
    assert front[n - 4] == m[n - 4] && front[n - 3] == m[n - 3];
    Halves(counter);
  }

  lemma Halves(counter: nat)
    ensures counter / 0x1_0000 / 0x1_0000 == counter / 0x1_0000_0000
    ensures counter % 0x1_0000_0000 == counter / 0x1_0000 % 0x1_0000 * 0x1_0000 + counter % 0x1_0000
  {
  }

  lemma TwoBytes(counter: nat, n: nat)
    requires n >= 2
    ensures var m := BigEndian(counter, n);
            && m[..n - 2] == BigEndian(counter / 0x1_0000, n - 2)
            && counter % 0x1_0000 == m[n - 2] as nat * 0x100 + m[n - 1] as nat
  {
    var m, front := BigEndian(counter, n), BigEndian(counter / 0x100, n - 1);
    LastByte(counter, n);
    LastByte(counter / 0x100, n - 1);
    assert front[..n - 2] == m[..n - 2] && front[n - 2] == m[n - 2];
  }

  lemma LastByte(counter: nat, n: nat)
    requires n > 0
    ensures BigEndian(counter, n)[..n - 1] == BigEndian(counter / 256, n - 1)
    ensures BigEndian(counter, n)[n - 1] == counter % 256
  {
  }

  lemma OneMessage(a: seq<Byte>, b: seq<Byte>, v: nat)
    requires Reads(a, v) && Reads(b, v)
    ensures a == b
  {
    assert a[0] == b[0];
    assert a[1] == b[1];
    assert a[2] == b[2];
    assert a[3] == b[3];
    assert a[4] == b[4];
    assert a[5] == b[5];
    assert a[6] == b[6];
    assert a[7] == b[7];
  }

  /** The four bytes of a hash from `o` on, as one number without the highest bit, and of that the last six
      digits. */
  function SixOf(h: seq<Byte>, o: nat): nat
    requires o + 3 < |h|
  {
    ((h[o] as nat % 128) * 0x100_0000 + h[o + 1] as nat * 0x1_0000 + h[o + 2] as nat * 0x100 + h[o + 3] as nat) % 1_000_000
  }

  /** A code has six digits, and they denote what the hash of the counter, written as eight bytes with the
      highest first, has at the place its last byte points to. */
  lemma CodeMeans(p: Primitives, key: seq<Byte>, counter: nat, message: seq<Byte>)
    requires Lawful(p) && Reads(message, counter) && counter < 0x1_0000_0000_0000_0000
    ensures var code, h := ComputeCode(p, key, counter), p.hmac(key, message);
            && |code| == 6 && (forall i :: 0 <= i < 6 ==> '0' <= code[i] <= '9')
            && ReadDecimal(code) == SixOf(h, h[19] % 16)
            && Trim(code) == code
  {
    MessageExactly(counter, message);
    ValueOf(p, key, counter);
    SixDigits(Value31(p, key, counter) % 1_000_000);
  }

  lemma ValueOf(p: Primitives, key: seq<Byte>, counter: nat)
    requires Lawful(p)
    ensures var h := p.hmac(key, BigEndian(counter, 8));
            Value31(p, key, counter) % 1_000_000 == SixOf(h, h[19] % 16)
  {
    var h := p.hmac(key, BigEndian(counter, 8));
    TruncatedSix(h, h[19] % 16);
  }

  lemma TruncatedSix(h: seq<Byte>, o: nat)
    requires o + 3 < |h|
    ensures Truncated(h[o], h[o + 1], h[o + 2], h[o + 3]) % 1_000_000 == SixOf(h, o)
  {
    TruncatedValue(h[o], h[o + 1], h[o + 2], h[o + 3]);
  }

  /** What an authenticator shows at a time from 1970 on: the counter is the number of half minutes since. */
  lemma ShownCode(p: Primitives, secret: string, unix: nat, message: seq<Byte>)
    requires Lawful(p) && unix < 0x8000_0000_0000_0000 && Reads(message, unix / 30)
    ensures Generate(p, secret, unix).Some? <==> p.decode(secret).Some?
    ensures p.decode(secret).Some? ==>
              var code, h := Generate(p, secret, unix).value, p.hmac(p.decode(secret).value, message);
              |code| == 6 && ReadDecimal(code) == SixOf(h, h[19] % 16)
  {
    CounterOf(unix);
    if p.decode(secret).Some? {
      CodeMeans(p, p.decode(secret).value, unix / 30, message);
    }
  }

  lemma SixDigits(v: nat)
    requires v < 1_000_000
    ensures forall i :: 0 <= i < 6 ==> '0' <= Decimal(v, 6)[i] <= '9'
    ensures ReadDecimal(Decimal(v, 6)) == v && Trim(Decimal(v, 6)) == Decimal(v, 6)
  {
    assert PowerOfTen(3) == 1000;
    assert PowerOfTen(6) == 1_000_000;
    DecimalDenotes(v, 6);
    TrimDigits(Decimal(v, 6));
  }

  lemma TrimDigits(s: string)
    requires forall i :: 0 <= i < |s| ==> '0' <= s[i] <= '9'
    ensures Trim(s) == s
  {
  }

  // ----- Verification against the clock -----

  /** Division that rounds towards zero, and the conversion to an unsigned counter. */
  function Counter(unix: int): nat {
    (if unix >= 0 then unix / PERIOD else -(-unix / PERIOD)) % 0x1_0000_0000_0000_0000
  }

  function Generate(p: Primitives, secret: string, unix: int): Option<string>
    requires Lawful(p)
  {
    var key := p.decode(secret);
    if key.None? then None else Some(ComputeCode(p, key.value, Counter(unix)))
  }

  /** The steps from the current counter that are tried; there is none before counter 0. */
  predicate Tried(base: nat, delta: int) {
    -SKEW_WINDOW <= delta <= SKEW_WINDOW && !(delta < 0 && base < -delta)
  }

  function CounterAt(base: nat, delta: int): nat {
    (base + delta) % 0x1_0000_0000_0000_0000
  }

  ghost predicate Passes(p: Primitives, key: seq<Byte>, code: string, base: nat)
    requires Lawful(p)
  {
    exists delta :: Tried(base, delta) && ComputeCode(p, key, CounterAt(base, delta)) == code
  }

  ghost predicate Accepts(p: Primitives, secret: string, code: string, unix: int)
    requires Lawful(p)
  {
    |Trim(code)| == DIGITS && p.decode(secret).Some?
    && Passes(p, p.decode(secret).value, Trim(code), Counter(unix))
  }

  method Verify(p: Primitives, secret: string, code: string, unix: int) returns (ok: bool)
    requires Lawful(p)
    ensures ok <==> Accepts(p, secret, code, unix)
  {
    var trimmed := Trim(code);
    if |trimmed| != DIGITS {
      return false;
    }
    var key := p.decode(secret);
    if key.None? {
      return false;
    }
    ok := TryWindow(p, key.value, trimmed, Counter(unix));
  }

  method TryWindow(p: Primitives, key: seq<Byte>, code: string, base: nat) returns (ok: bool)
    requires Lawful(p)
    ensures ok <==> Passes(p, key, code, base)
  {
    for delta := -SKEW_WINDOW to SKEW_WINDOW + 1
      invariant forall d :: Tried(base, d) && d < delta ==> ComputeCode(p, key, CounterAt(base, d)) != code
    {
      var counter := CounterAt(base, delta);
      if delta < 0 && base < -delta {
        continue;
      }
      assert Tried(base, delta);
      if ComputeCode(p, key, counter) == code {
        return true;
      }
    }
    return false;
  }

  /** From 1970 on, the codes that pass are those of times in the same, the previous or the next period. */
  lemma AcceptsExactly(p: Primitives, secret: string, code: string, unix: nat)
    requires Lawful(p) && unix < 0x8000_0000_0000_0000
    ensures Accepts(p, secret, code, unix) <==>
            exists u: nat :: Neighbours(u, unix) && Generate(p, secret, u) == Some(Trim(code))
  {
    var key := p.decode(secret);
    if key.Some? {
      PassesExactly(p, key.value, Trim(code), unix);
    }
  }

  lemma PassesExactly(p: Primitives, key: seq<Byte>, code: string, unix: nat)
    requires Lawful(p) && unix < 0x8000_0000_0000_0000
    ensures Passes(p, key, code, Counter(unix)) <==>
            exists u: nat :: Neighbours(u, unix) && ComputeCode(p, key, Counter(u)) == code
  {
    var base := Counter(unix);
    if Passes(p, key, code, base) {
      var delta :| Tried(base, delta) && ComputeCode(p, key, CounterAt(base, delta)) == code;
      var u := StepTime(unix, delta);
      assert Neighbours(u, unix);
    }
    if u: nat :| Neighbours(u, unix) && ComputeCode(p, key, Counter(u)) == code {
      TimeStep(unix, u);
    }
  }

  lemma StepTime(unix: nat, delta: int) returns (u: nat)
    requires unix < 0x8000_0000_0000_0000 && Tried(Counter(unix), delta)
    ensures Neighbours(u, unix) && Counter(u) == CounterAt(Counter(unix), delta)
  {
    CounterOf(unix);
    u := (Counter(unix) + delta) * PERIOD;
    CounterOf(u);
  }

  lemma TimeStep(unix: nat, u: nat)
    requires unix < 0x8000_0000_0000_0000 && Neighbours(u, unix)
    ensures Tried(Counter(unix), Counter(u) - Counter(unix))
    ensures CounterAt(Counter(unix), Counter(u) - Counter(unix)) == Counter(u)
  {
    CounterOf(unix);
    CounterOf(u);
  }

  predicate Neighbours(u: nat, t: nat) {
    -1 <= u / PERIOD - t / PERIOD <= 1
  }

  lemma CounterOf(unix: nat)
    requires unix < 0x8000_0000_0000_0000 + 60
    ensures Counter(unix) == unix / 30 && Counter(unix) < 0x1000_0000_0000_0000
    ensures forall d :: Tried(Counter(unix), d) ==> CounterAt(Counter(unix), d) == Counter(unix) + d
  {
  }

  /** A code shown at one time is accepted at any time within thirty seconds of it, before or after. */
  lemma FreshCodePasses(p: Primitives, secret: string, shown: nat, unix: nat)
    requires Lawful(p) && p.decode(secret).Some?
    requires shown <= unix + 30 && unix <= shown + 30 && unix < 0x8000_0000_0000_0000
    ensures Generate(p, secret, shown).Some?
    ensures Accepts(p, secret, Generate(p, secret, shown).value, unix)
  {
    var code := Generate(p, secret, shown).value;
    MessageExactly(Counter(shown), BigEndian(Counter(shown), 8));
    CodeMeans(p, p.decode(secret).value, Counter(shown), BigEndian(Counter(shown), 8));
    assert Neighbours(shown, unix) && Generate(p, secret, shown) == Some(Trim(code));
    AcceptsExactly(p, secret, code, unix);
  }

  // ----- Backup codes -----

  /** Bit `i` of a mask: `mask & (1 << i) != 0`. */
  predicate TestBit(mask: nat, i: nat) {
    if i == 0 then mask % 2 == 1 else TestBit(mask / 2, i - 1)
  }

  /** `1 << i` in 64 bits. */
  function Shifted(i: nat): nat {
    if i < 64 then Pow2(i) else 0
  }

  lemma {:induction false} AndTests(mask: nat, i: nat)
    ensures And(mask, Pow2(i)) != 0 <==> TestBit(mask, i)
  {
    if i > 0 && mask > 0 {
      AndTests(mask / 2, i - 1);
    } else if i > 0 {
      NoBits(i);
    } else {
      assert mask > 0 ==> And(mask, 1) == 2 * And(mask / 2, 0) + mask % 2;
    }
  }

  lemma {:induction false} NoBits(i: nat)
    ensures !TestBit(0, i)
  {
    if i > 0 {
      NoBits(i - 1);
    }
  }

  lemma {:induction false} OrSets(mask: nat, i: nat, j: nat)
    ensures TestBit(Or(mask, Pow2(i)), j) <==> i == j || TestBit(mask, j)
  {
    if i == 0 {
      OrZero(mask / 2);
    } else if j > 0 {
      OrSets(mask / 2, i - 1, j - 1);
    }
  }

  /** The index of the last entry equal to `want`. */
  function LastMatch(hashes: seq<string>, want: string, n: nat): (r: Option<nat>)
    requires n <= |hashes|
    ensures r.None? <==> want !in hashes[..n]
    ensures r.Some? ==> r.value < n && hashes[r.value] == want && forall j :: r.value < j < n ==> hashes[j] != want
  {
    if n == 0 then None else if hashes[n - 1] == want then Some(n - 1) else LastMatch(hashes, want, n - 1)
  }

  method VerifyBackupCode(hashes: seq<string>, want: string) returns (r: Option<nat>)
    ensures r == LastMatch(hashes, want, |hashes|)
  {
    r := None;
    for i := 0 to |hashes|
      invariant r == LastMatch(hashes, want, i)
    {
      if hashes[i] == want {
        r := Some(i);
      }
    }
  }

  /** The bits set among the first `n`. */
  function CountBits(mask: nat, n: nat): nat {
    if n == 0 then 0 else CountBits(mask, n - 1) + if TestBit(mask, n - 1) then 1 else 0
  }

  method CountUsedBits(mask: nat) returns (n: nat)
    ensures n == CountBits(mask, BACKUP_CODES)
  {
    n := 0;
    for i := 0 to BACKUP_CODES
      invariant n == CountBits(mask, i)
    {
      AndTests(mask, i);
      if And(mask, Pow2(i)) != 0 {
        n := n + 1;
      }
    }
  }

  /** An enrolment, its sealed columns opened. */
  datatype Row = Row(secret: string, hashes: seq<string>, used: nat)

  datatype Outcome = NotEnrolled | Invalid | ByClock | ByBackup

  /** The branch a code takes on a row. */
  ghost function Judge(p: Primitives, row: Row, code: string, unix: int): Outcome
    requires Lawful(p)
  {
    if Accepts(p, row.secret, code, unix) then ByClock
    else
      var i := LastMatch(row.hashes, p.hash(code), |row.hashes|);
      if i.None? || And(row.used, Shifted(i.value)) != 0 then Invalid else ByBackup
  }

  ghost function Advanced(p: Primitives, row: Row, code: string, unix: int): Row
    requires Lawful(p)
  {
    if Judge(p, row, code, unix).ByBackup?
    then row.(used := Or(row.used, Shifted(LastMatch(row.hashes, p.hash(code), |row.hashes|).value)))
    else row
  }

  /** The last place in the list where the code's hash stands. */
  ghost predicate PlaceOf(p: Primitives, row: Row, code: string, i: nat) {
    i < |row.hashes| && row.hashes[i] == p.hash(code) && forall j :: i < j < |row.hashes| ==> row.hashes[j] != p.hash(code)
  }

  /** A code passes by the clock exactly when it is one of the moment, and else as a backup code exactly when it is on
      the list and the bit of its place is not set, as from place 64 on it never is. Passing as a backup code
      sets that bit and no other. */
  lemma JudgeExactly(p: Primitives, row: Row, code: string, unix: int)
    requires Lawful(p)
    ensures Judge(p, row, code, unix).ByClock? <==> Accepts(p, row.secret, code, unix)
    ensures Judge(p, row, code, unix).ByBackup? <==>
            !Accepts(p, row.secret, code, unix) && exists i: nat :: PlaceOf(p, row, code, i) && (i >= 64 || !TestBit(row.used, i))
    ensures Judge(p, row, code, unix) != NotEnrolled
    ensures Judge(p, row, code, unix).ByBackup? ==>
              forall i: nat, j: nat :: PlaceOf(p, row, code, i) ==>
                (TestBit(Advanced(p, row, code, unix).used, j) <==> TestBit(row.used, j) || (j == i && i < 64))
  {
    var place := LastMatch(row.hashes, p.hash(code), |row.hashes|);
    assert forall i: nat :: PlaceOf(p, row, code, i) ==> row.hashes[i] in row.hashes[..|row.hashes|];
    if place.Some? {
      var k := place.value;
      assert PlaceOf(p, row, code, k) && forall i: nat :: PlaceOf(p, row, code, i) ==> i == k;
      AndTests(row.used, k);
      AndNothing(row.used);
      forall j: nat
        ensures TestBit(Or(row.used, Shifted(k)), j) <==> TestBit(row.used, j) || (j == k && k < 64)
      {
        if k < 64 {
          OrSets(row.used, k, j);
        } else {
          OrZero(row.used);
        }
      }
    }
  }

  lemma {:induction false} AndNothing(x: nat)
    ensures And(x, 0) == 0
  {
    if x > 0 {
      AndNothing(x / 2);
    }
  }

  function CodesLeft(row: Row): nat {
    var left := |row.hashes| - CountBits(row.used, BACKUP_CODES);
    if left < 0 then 0 else left
  }

  class Enrolments {
    var rows: map<string, Row>

    constructor ()
      ensures rows == map[]
    {
      rows := map[];
    }

    method Complete(p: Primitives, user: string, secret: string, hashes: seq<string>, code: string, unix: int) returns (ok: bool)
      requires Lawful(p)
      modifies this
      ensures ok <==> Accepts(p, secret, code, unix)
      ensures rows == if ok then old(rows)[user := Row(secret, hashes, 0)] else old(rows)
    {
      ok := Verify(p, secret, code, unix);
      if ok {
        rows := rows[user := Row(secret, hashes, 0)];
      }
    }

    method VerifyAndAdvance(p: Primitives, user: string, code: string, unix: int) returns (r: Outcome)
      requires Lawful(p)
      modifies this
      ensures r == if user in old(rows) then Judge(p, old(rows)[user], code, unix) else NotEnrolled
      ensures rows == if user in old(rows) then old(rows)[user := Advanced(p, old(rows)[user], code, unix)] else old(rows)
    {
      if user !in rows {
        return NotEnrolled;
      }
      var row := rows[user];
      var ok := Verify(p, row.secret, code, unix);
      if ok {
        rows := rows[user := row];
        return ByClock;
      }
      var i := VerifyBackupCode(row.hashes, p.hash(code));
      if i.None? || And(row.used, Shifted(i.value)) != 0 {
        return Invalid;
      }
      rows := rows[user := row.(used := Or(row.used, Shifted(i.value)))];
      return ByBackup;
    }

    method Disable(p: Primitives, user: string, code: string, unix: int) returns (ok: bool)
      requires Lawful(p)
      modifies this
      ensures ok <==> user in old(rows) && !Judge(p, old(rows)[user], code, unix).Invalid?
      ensures rows == if ok then old(rows) - {user} else old(rows)
    {
      var before := rows;
      var r := VerifyAndAdvance(p, user, code, unix);
      ok := r.ByClock? || r.ByBackup?;
      if ok {
        rows := rows - {user};
      }
      assert !ok ==> rows == before;
    }

    method BackupCodesLeft(user: string) returns (left: Option<nat>)
      ensures left == if user in rows then Some(CodesLeft(rows[user])) else None
    {
      if user !in rows {
        return None;
      }
      var used := CountUsedBits(rows[user].used);
      var n := |rows[user].hashes| - used;
      return Some(if n < 0 then 0 else n);
    }
  }

  // ----- Runs of one enrolment, one attempt after the other; CodeOverlap has those that overlap -----

  datatype Attempt = Attempt(code: string, unix: int)

  ghost function After(p: Primitives, row: Row, attempts: seq<Attempt>): Row
    requires Lawful(p)
  {
    if attempts == [] then row
    else
      var n := |attempts| - 1;
      Advanced(p, After(p, row, attempts[..n]), attempts[n].code, attempts[n].unix)
  }

  /** What the i-th attempt came to. */
  ghost function Verdict(p: Primitives, row: Row, attempts: seq<Attempt>, i: nat): Outcome
    requires Lawful(p) && i < |attempts|
  {
    Judge(p, After(p, row, attempts[..i]), attempts[i].code, attempts[i].unix)
  }

  /** The attempts that spent a backup code. */
  ghost function Spent(p: Primitives, row: Row, attempts: seq<Attempt>): nat
    requires Lawful(p)
  {
    if attempts == [] then 0
    else
      var n := |attempts| - 1;
      Spent(p, row, attempts[..n]) + if Verdict(p, row, attempts, n).ByBackup? then 1 else 0
  }

  lemma {:induction false} CountMore(mask: nat, i: nat, n: nat)
    requires !TestBit(mask, i)
    ensures CountBits(Or(mask, Pow2(i)), n) == CountBits(mask, n) + if i < n then 1 else 0
  {
    if n > 0 {
      CountMore(mask, i, n - 1);
      OrSets(mask, i, n - 1);
    }
  }

  lemma {:induction false} CountAtMost(mask: nat, k: nat, n: nat)
    requires k <= n && forall i :: k <= i < n ==> !TestBit(mask, i)
    ensures CountBits(mask, n) <= k
  {
    if n > 0 {
      CountAtMost(mask, if k < n then k else n - 1, n - 1);
    }
  }

  /** The codes on a list are within the ten that are counted, and only their bits are set. */
  ghost predicate InList(row: Row) {
    |row.hashes| <= 10 && forall i :: |row.hashes| <= i < 10 ==> !TestBit(row.used, i)
  }

  /** A backup acceptance takes exactly one from the codes left; nothing else changes the row. */
  lemma AcceptanceCosts(p: Primitives, row: Row, code: string, unix: int)
    requires Lawful(p) && InList(row)
    ensures InList(Advanced(p, row, code, unix))
    ensures CodesLeft(Advanced(p, row, code, unix)) ==
            CodesLeft(row) - if Judge(p, row, code, unix).ByBackup? then 1 else 0
    ensures !Judge(p, row, code, unix).ByBackup? ==> Advanced(p, row, code, unix) == row
  {
    var next := Advanced(p, row, code, unix);
    if Judge(p, row, code, unix).ByBackup? {
      var i := LastMatch(row.hashes, p.hash(code), |row.hashes|).value;
      AndTests(row.used, i);
      CountMore(row.used, i, BACKUP_CODES);
      forall j | |row.hashes| <= j < BACKUP_CODES
        ensures !TestBit(next.used, j)
      {
        OrSets(row.used, i, j);
      }
    }
    CountAtMost(next.used, |row.hashes|, BACKUP_CODES);
  }

  /** The codes left and the codes spent add up to the list, so no more codes are ever spent than it has. */
  lemma {:induction false} SpentPlusLeft(p: Primitives, row: Row, attempts: seq<Attempt>)
    requires Lawful(p) && row.used == 0 && |row.hashes| <= 10
    ensures InList(After(p, row, attempts))
    ensures Spent(p, row, attempts) + CodesLeft(After(p, row, attempts)) == |row.hashes|
  {
    if attempts == [] {
      forall i: nat
        ensures !TestBit(0, i)
      {
        NoBits(i);
      }
      CountAtMost(0, 0, BACKUP_CODES);
    } else {
      var n := |attempts| - 1;
      SpentPlusLeft(p, row, attempts[..n]);
      AcceptanceCosts(p, After(p, row, attempts[..n]), attempts[n].code, attempts[n].unix);
    }
  }

  lemma BitStaysOnce(p: Primitives, row: Row, code: string, unix: int, i: nat)
    requires Lawful(p) && TestBit(row.used, i)
    ensures TestBit(Advanced(p, row, code, unix).used, i)
  {
    if Judge(p, row, code, unix).ByBackup? {
      var j := LastMatch(row.hashes, p.hash(code), |row.hashes|).value;
      if j < 64 {
        OrSets(row.used, j, i);
      } else {
        OrZero(row.used);
      }
    }
  }

  lemma BitStaysNext(p: Primitives, row: Row, attempts: seq<Attempt>, n: nat, i: nat)
    requires Lawful(p) && n < |attempts| && TestBit(After(p, row, attempts[..n]).used, i)
    ensures TestBit(After(p, row, attempts[..n + 1]).used, i)
  {
    var before, a := After(p, row, attempts[..n]), attempts[n];
    assert attempts[..n + 1][..n] == attempts[..n];
    assert After(p, row, attempts[..n + 1]) == Advanced(p, before, a.code, a.unix);
    BitStaysOnce(p, before, a.code, a.unix, i);
  }

  /** The bit of a spent code stays set. */
  lemma {:induction false} BitStays(p: Primitives, row: Row, attempts: seq<Attempt>, k: nat, i: nat)
    requires Lawful(p) && k <= |attempts| && TestBit(After(p, row, attempts[..k]).used, i)
    ensures TestBit(After(p, row, attempts).used, i)
    decreases |attempts| - k
  {
    if k < |attempts| {
      BitStaysNext(p, row, attempts, k, i);
      BitStays(p, row, attempts, k + 1, i);
    } else {
      assert attempts[..k] == attempts;
    }
  }

  lemma {:induction false} HashesStay(p: Primitives, row: Row, attempts: seq<Attempt>)
    requires Lawful(p)
    ensures After(p, row, attempts).hashes == row.hashes
  {
    if attempts != [] {
      HashesStay(p, row, attempts[..|attempts| - 1]);
    }
  }

  /** Among attempts one after the other a backup code, or any text that hashes like it, is accepted as a backup code
      at most once, provided its place in the list is below 64. */
  lemma BackupCodeOnce(p: Primitives, row: Row, attempts: seq<Attempt>, k: nat, l: nat)
    requires Lawful(p) && k < l < |attempts|
    requires Verdict(p, row, attempts, k).ByBackup? && p.hash(attempts[k].code) == p.hash(attempts[l].code)
    requires LastMatch(row.hashes, p.hash(attempts[k].code), |row.hashes|).Some?
          && LastMatch(row.hashes, p.hash(attempts[k].code), |row.hashes|).value < 64
    ensures !Verdict(p, row, attempts, l).ByBackup?
  {
    var i := LastMatch(row.hashes, p.hash(attempts[k].code), |row.hashes|).value;
    var before, upto := attempts[..k], attempts[..k + 1];
    HashesStay(p, row, before);
    assert upto[..k] == before && upto[k] == attempts[k];
    OrSets(After(p, row, before).used, i, i);
    assert TestBit(After(p, row, upto).used, i);
    assert attempts[..l][..k + 1] == upto;
    BitStays(p, row, attempts[..l], k + 1, i);
    HashesStay(p, row, attempts[..l]);
    AndTests(After(p, row, attempts[..l]).used, i);
  }

  /** A backup code that has just been accepted is accepted again at the same moment if and only if its place is
      64 or more: from there on the shift gives no bit, and the row does not even change. */
  lemma AcceptedAgainExactly(p: Primitives, row: Row, code: string, unix: int)
    requires Lawful(p) && Judge(p, row, code, unix).ByBackup?
    ensures var i := LastMatch(row.hashes, p.hash(code), |row.hashes|).value;
            && (Judge(p, Advanced(p, row, code, unix), code, unix).ByBackup? <==> i >= 64)
            && (i >= 64 ==> Advanced(p, row, code, unix) == row)
  {
    var i := LastMatch(row.hashes, p.hash(code), |row.hashes|).value;
    if i < 64 {
      OrSets(row.used, i, i);
      AndTests(Or(row.used, Pow2(i)), i);
    } else {
      OrZero(row.used);
    }
  }
}
