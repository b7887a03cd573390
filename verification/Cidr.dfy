/** Expansion of a scan subnet into its host addresses (internal/core/scanner/scanner.go). Addresses are
    byte strings of length 4 or 16, as the prefix parser hands them over. */
module Cidr {
  import opened Arith

  type Ip = seq<Byte>

  const MAX_SCAN_HOSTS := 1024

  // ----- Addresses as numbers -----

  /** The big-endian value. */
  function Value(ip: Ip): nat {
    if ip == [] then 0 else 256 * Value(ip[..|ip| - 1]) + ip[|ip| - 1]
  }

  lemma {:induction false} ValueInjective(a: Ip, b: Ip)
    requires |a| == |b| && Value(a) == Value(b)
    ensures a == b
  {
    if a != [] {
      var n := |a| - 1;
      assert a[n] == Value(a) % 256 == b[n];
      ValueInjective(a[..n], b[..n]);
      assert a == a[..n] + [a[n]] && b == b[..n] + [b[n]];
    }
  }

  // ----- The increment -----

  /** Plus one with carry, all 255s wrapping to zeros. */
  function Inc(ip: Ip): (r: Ip)
    ensures |r| == |ip|
  {
    if ip == [] then []
    else
      var n := |ip| - 1;
      if ip[n] == 255 then Inc(ip[..n]) + [0] else ip[..n] + [ip[n] + 1]
  }

  /** The increment adds one modulo the size of the address space. */
  lemma {:induction false} IncAddsOne(ip: Ip)
    ensures Value(ip) < Pow2(8 * |ip|)
    ensures Value(Inc(ip)) == if Value(ip) + 1 == Pow2(8 * |ip|) then 0 else Value(ip) + 1
  {
    if ip != [] {
      var n := |ip| - 1;
      Pow2Byte(8 * n);
      IncAddsOne(ip[..n]);
      var r := Inc(ip);
      assert r[..n] == if ip[n] == 255 then Inc(ip[..n]) else ip[..n];
    }
  }

  lemma IncLastByte(ip: Ip, i: nat)
    requires i < |ip|
    ensures Inc(ip[..i + 1]) == if ip[i] == 255 then Inc(ip[..i]) + [0] else ip[..i] + [ip[i] + 1]
  {
    assert ip[..i + 1][..i] == ip[..i];
  }

  method IncIP(ip: array<Byte>)
    modifies ip
    ensures ip[..] == Inc(old(ip[..]))
  {
    var i := ip.Length;
    ghost var was, tail: Ip := ip[..], [];
    assert was[..i] == was;
    while i > 0
      invariant 0 <= i <= ip.Length == |was|
      invariant ip[..] == was[..i] + tail
      invariant Inc(was) == Inc(was[..i]) + tail
    {
      i := i - 1;
      IncLastByte(was, i);
      assert ip[i] == was[i] && was[..i + 1] == was[..i] + [was[i]];
      ip[i] := if ip[i] == 255 then 0 else ip[i] + 1;
      tail := [ip[i]] + tail;
      assert ip[..] == was[..i] + tail;
      if ip[i] > 0 {
        return;
      }
    }
  }

  // ----- Masks -----

  /** How many of `n` bytes' bits a prefix of `ones` bits leaves free. */
  function HostBits(ones: nat, n: nat): nat {
    if ones >= 8 * n then 0 else 8 * n - ones
  }

  /** The free bits that fall into byte `i`. */
  function LowBits(ones: nat, i: nat): (k: nat)
    ensures k <= 8
  {
    if ones >= 8 * i + 8 then 0 else if ones <= 8 * i then 8 else 8 * i + 8 - ones
  }

  /** Byte `i` of the mask with `ones` leading ones. */
  function MaskByte(ones: nat, i: nat): Byte {
    Pow2Byte(0);
    PowMonotone(LowBits(ones, i), 8);
    256 - Pow2(LowBits(ones, i))
  }

  function Mask(ones: nat, n: nat): Ip {
    seq(n, i requires 0 <= i < n => MaskByte(ones, i))
  }

  function AndByte(x: Byte, y: Byte): Byte {
    AndBound(x, y);
    And(x, y)
  }

  function OrByte(x: Byte, y: Byte): Byte {
    Pow2Byte(0);
    OrBound(x, y, 8);
    Or(x, y)
  }

  function AndBytes(ip: Ip, mask: Ip): (r: Ip)
    requires |mask| == |ip|
    ensures |r| == |ip|
  {
    seq(|ip|, i requires 0 <= i < |ip| => AndByte(ip[i], mask[i]))
  }

  /** The address with every bit outside the mask set. */
  function OrNotBytes(ip: Ip, mask: Ip): (r: Ip)
    requires |mask| == |ip|
    ensures |r| == |ip|
  {
    seq(|ip|, i requires 0 <= i < |ip| => OrByte(ip[i], 255 - mask[i]))
  }

  predicate Contains(network: Ip, mask: Ip, ip: Ip)
    requires |mask| == |network| == |ip|
  {
    forall i :: 0 <= i < |ip| ==> AndByte(network[i], mask[i]) == AndByte(ip[i], mask[i])
  }

  predicate IsNetworkOrBroadcast(ip: Ip, network: Ip, mask: Ip)
    requires |mask| == |network| == |ip|
  {
    ip == AndBytes(network, mask) || ip == OrNotBytes(network, mask)
  }

  lemma ByteCleared(x: Byte, ones: nat, i: nat)
    ensures AndByte(x, MaskByte(ones, i)) == Clear(x, LowBits(ones, i))
  {
    Pow2Byte(0);
    AndMask(x, LowBits(ones, i), 8);
  }

  lemma ByteFilled(x: Byte, ones: nat, i: nat)
    requires Clear(x, LowBits(ones, i)) == x
    ensures OrByte(x, 255 - MaskByte(ones, i)) == x + Pow2(LowBits(ones, i)) - 1
  {
    OrLow(x, LowBits(ones, i));
  }

  /** Masking clears the host bits: it gives the start of the aligned block. */
  lemma {:induction false} MaskValue(ip: Ip, ones: nat)
    ensures Value(AndBytes(ip, Mask(ones, |ip|))) == Clear(Value(ip), HostBits(ones, |ip|))
  {
    if ip != [] {
      var n := |ip| - 1;
      var masked := AndBytes(ip, Mask(ones, |ip|));
      assert masked[..n] == AndBytes(ip[..n], Mask(ones, n));
      MaskValue(ip[..n], ones);
      ByteCleared(ip[n], ones, n);
      ClearDigits(Value(ip[..n]), ip[n], HostBits(ones, |ip|));
    }
  }

  /** Setting the host bits of the start of a block gives its last member. */
  lemma {:induction false} BroadcastValue(ip: Ip, ones: nat)
    requires Clear(Value(ip), HostBits(ones, |ip|)) == Value(ip)
    ensures Value(OrNotBytes(ip, Mask(ones, |ip|))) == Value(ip) + Pow2(HostBits(ones, |ip|)) - 1
  {
    if ip != [] {
      var n := |ip| - 1;
      var v, x := Value(ip[..n]), ip[n];
      assert Value(ip) == 256 * v + x;
      FilledDigits(v, x, ones, n);
      BroadcastValue(ip[..n], ones);
      ByteFilled(x, ones, n);
      OrNotSplit(ip, ones);
    }
  }

  lemma OrNotSplit(ip: Ip, ones: nat)
    requires ip != []
    ensures var n := |ip| - 1;
            Value(OrNotBytes(ip, Mask(ones, |ip|))) ==
            256 * Value(OrNotBytes(ip[..n], Mask(ones, n))) + OrByte(ip[n], 255 - MaskByte(ones, n))
  {
    var n := |ip| - 1;
    var last := OrNotBytes(ip, Mask(ones, |ip|));
    assert last[..n] == OrNotBytes(ip[..n], Mask(ones, n));
  }

  /** The host bits of n + 1 bytes are those of the first n followed by those of the last. */
  lemma FilledDigits(v: nat, x: Byte, ones: nat, n: nat)
    requires Clear(256 * v + x, HostBits(ones, n + 1)) == 256 * v + x
    ensures Clear(x, LowBits(ones, n)) == x && Clear(v, HostBits(ones, n)) == v
    ensures 256 * (Pow2(HostBits(ones, n)) - 1) + Pow2(LowBits(ones, n)) == Pow2(HostBits(ones, n + 1))
  {
    var h := HostBits(ones, n + 1);
    ClearDigits(v, x, h);
    if h >= 8 {
      Pow2Byte(h - 8);
    }
  }

  /** A network contains exactly the aligned block that starts at its address. */
  lemma Membership(network: Ip, ones: nat, ip: Ip)
    requires |ip| == |network|
    requires Clear(Value(network), HostBits(ones, |network|)) == Value(network)
    ensures Contains(network, Mask(ones, |ip|), ip)
        <==> Value(network) <= Value(ip) < Value(network) + Pow2(HostBits(ones, |network|))
  {
    var mask, h := Mask(ones, |ip|), HostBits(ones, |ip|);
    var a, b := AndBytes(network, mask), AndBytes(ip, mask);
    ContainsIsMasked(network, mask, ip);
    MaskValue(network, ones);
    MaskValue(ip, ones);
    if Value(a) == Value(b) {
      ValueInjective(a, b);
    }
    BlockOf(Value(network), Value(ip), h);
  }

  lemma ContainsIsMasked(network: Ip, mask: Ip, ip: Ip)
    requires |mask| == |network| == |ip|
    ensures Contains(network, mask, ip) <==> AndBytes(network, mask) == AndBytes(ip, mask)
  {
    var a, b := AndBytes(network, mask), AndBytes(ip, mask);
    assert forall i :: 0 <= i < |ip| ==> a[i] == AndByte(network[i], mask[i]) && b[i] == AndByte(ip[i], mask[i]);
  }

  lemma BlockOf(b: nat, x: nat, h: nat)
    requires Clear(b, h) == b
    ensures Clear(x, h) == b <==> b <= x < b + Pow2(h)
  {
    ClearBlock(x, h);
    if b <= x < b + Pow2(h) {
      ClearWithin(b, x - b, h);
    }
  }

  /** The two excluded addresses are the first and the last of the block. */
  lemma Ends(network: Ip, ones: nat, ip: Ip)
    requires |ip| == |network|
    requires Clear(Value(network), HostBits(ones, |network|)) == Value(network)
    ensures IsNetworkOrBroadcast(ip, network, Mask(ones, |ip|))
        <==> Value(ip) == Value(network) || Value(ip) == Value(network) + Pow2(HostBits(ones, |network|)) - 1
  {
    var mask := Mask(ones, |ip|);
    MaskValue(network, ones);
    BroadcastValue(network, ones);
    if Value(ip) == Value(AndBytes(network, mask)) {
      ValueInjective(ip, AndBytes(network, mask));
    } else if Value(ip) == Value(OrNotBytes(network, mask)) {
      ValueInjective(ip, OrNotBytes(network, mask));
    }
  }

  // ----- The allowed ranges; the library's bit tests on leading bits are written as divisions -----

  predicate IsPrivate(ip: Ip) {
    (|ip| == 4 &&
      (ip[0] == 10 || (ip[0] == 172 && ip[1] / 16 == 1) || (ip[0] == 192 && ip[1] == 168)))
    || (|ip| == 16 && ip[0] / 2 == 0x7e)
  }

  predicate IsLinkLocal(ip: Ip) {
    (|ip| == 4 && ip[0] == 169 && ip[1] == 254)
    || (|ip| == 16 && ip[0] == 0xfe && ip[1] / 64 == 2)
  }

  predicate IsUnspecified(ip: Ip) {
    forall i :: 0 <= i < |ip| ==> ip[i] == 0
  }

  predicate IsLoopback(ip: Ip) {
    (|ip| == 4 && ip[0] == 127)
    || (|ip| == 16 && (forall i :: 0 <= i < 15 ==> ip[i] == 0) && ip[15] == 1)
  }

  predicate IsMulticast(ip: Ip) {
    (|ip| == 4 && ip[0] / 16 == 14) || (|ip| == 16 && ip[0] == 0xff)
  }

  predicate IsAllowedScanNetwork(ip: Ip) {
    !IsLoopback(ip) && !IsMulticast(ip) && !IsUnspecified(ip) && (IsPrivate(ip) || IsLinkLocal(ip))
  }

  /** The IPv4 addresses from `a.b.0.0` to `c.d.255.255`. */
  predicate Between(ip: Ip, a: nat, b: nat, c: nat, d: nat) {
    (a * 256 + b) * 0x10000 <= Value(ip) <= (c * 256 + d) * 0x10000 + 0xffff
  }

  lemma FourByteValue(ip: Ip)
    requires |ip| == 4
    ensures Value(ip) == ((ip[0] as int * 256 + ip[1]) * 256 + ip[2]) * 256 + ip[3]
  {
    var a, b, c := ip[..3], ip[..2], ip[..1];
    assert a[..2] == b && b[..1] == c && c[..0] == [];
    assert Value(c) == 256 * Value([]) + ip[0];
    assert Value(b) == 256 * Value(c) + ip[1];
    assert Value(a) == 256 * Value(b) + ip[2];
    assert Value(ip) == 256 * Value(a) + ip[3];
  }

  /** For IPv4 the allowed addresses are the three blocks of section 3 of RFC 1918 and the block of section
      2.1 of RFC 3927, and nothing else. */
  lemma AllowedRanges(ip: Ip)
    requires |ip| == 4
    ensures IsAllowedScanNetwork(ip) <==>
      Between(ip, 10, 0, 10, 255) || Between(ip, 172, 16, 172, 31) || Between(ip, 192, 168, 192, 168)
      || Between(ip, 169, 254, 169, 254)
  {
    FourByteValue(ip);
    assert 0 <= ip[2] as int * 256 + ip[3] <= 0xffff;
  }

  lemma OneByteMore(lead: nat, v: nat, size: nat, b: Byte)
    requires lead * size <= v < (lead + 1) * size
    ensures lead * (256 * size) <= 256 * v + b < (lead + 1) * (256 * size)
  {
    assert lead * (256 * size) == 256 * (lead * size);
    assert (lead + 1) * (256 * size) == 256 * ((lead + 1) * size);
  }

  /** The leading bytes say in which multiple of the rest's size an address lies. */
  lemma {:induction false} LeadingBytes(ip: Ip, k: nat)
    requires k <= |ip|
    ensures Value(ip[..k]) * Pow2(8 * (|ip| - k)) <= Value(ip) < (Value(ip[..k]) + 1) * Pow2(8 * (|ip| - k))
  {
    if k == |ip| {
      assert ip[..k] == ip;
    } else {
      var n := |ip| - 1;
      LeadingBytes(ip[..n], k);
      assert ip[..n][..k] == ip[..k];
      Pow2Byte(8 * (n - k));
      OneByteMore(Value(ip[..k]), Value(ip[..n]), Pow2(8 * (n - k)), ip[n]);
    }
  }

  lemma TwoByteValue(ip: Ip)
    requires |ip| == 2
    ensures Value(ip) == 256 * ip[0] as int + ip[1]
  {
    assert ip[..1][..0] == [];
    assert Value(ip[..1]) == 256 * Value([]) + ip[0];
  }

  lemma Multiples(a: nat, v: nat, size: nat, lead: nat)
    requires lead * size <= v < (lead + 1) * size
    ensures a * size <= v <==> a <= lead
  {
    if a <= lead {
      assert a * size <= lead * size;
    } else {
      assert (lead + 1) * size <= a * size;
    }
  }

  lemma AllowedLead(ip: Ip, lead: nat)
    requires |ip| == 16 && lead == 256 * ip[0] as int + ip[1]
    ensures IsAllowedScanNetwork(ip) <==> 0xfc00 <= lead < 0xfe00 || 0xfe80 <= lead < 0xfec0
  {
  }

  /** For IPv6 they are fc00::/7 of section 3.1 of RFC 4193 and fe80::/10 of section 2.5.6 of RFC 4291. */
  lemma AllowedRangesLong(ip: Ip, unit: nat)
    requires |ip| == 16 && unit == Pow2(112)
    ensures IsAllowedScanNetwork(ip) <==>
            0xfc00 * unit <= Value(ip) < 0xfe00 * unit || 0xfe80 * unit <= Value(ip) < 0xfec0 * unit
  {
    var lead, v := Value(ip[..2]), Value(ip);
    LeadingBytes(ip, 2);
    TwoByteValue(ip[..2]);
    AllowedLead(ip, lead);
    Multiples(0xfc00, v, unit, lead);
    Multiples(0xfe00, v, unit, lead);
    Multiples(0xfe80, v, unit, lead);
    Multiples(0xfec0, v, unit, lead);
  }

  /** Whether an address is allowed depends on its first two bytes only. */
  lemma AllowedByPrefix(a: Ip, b: Ip)
    requires |a| == |b| && (|a| == 4 || |a| == 16) && a[0] == b[0] && a[1] == b[1]
    ensures IsAllowedScanNetwork(a) <==> IsAllowedScanNetwork(b)
  {
  }

  // ----- Expansion -----

  datatype Expansion = Hosts(ips: seq<Ip>) | OutsideAllowedRange | TooManyHosts

  predicate Fits(ip: Ip, ones: nat) {
    HostBits(ones, |ip|) <= 16 && Pow2(HostBits(ones, |ip|)) <= MAX_SCAN_HOSTS
  }

  lemma FitsIsTenBits(ip: Ip, ones: nat)
    ensures Fits(ip, ones) <==> HostBits(ones, |ip|) <= 10
  {
    var h := HostBits(ones, |ip|);
    Pow2Byte(2);
    if h <= 10 {
      PowMonotone(h, 10);
    } else {
      PowMonotone(11, h);
    }
  }

  lemma {:induction false} PowerStartsBlock(m: nat, h: nat)
    requires h <= m
    ensures Clear(Pow2(m), h) == Pow2(m)
  {
    if h > 0 {
      var p := Pow2(m - 1);
      PowerStartsBlock(m - 1, h - 1);
      assert (2 * p) / 2 == p;
    }
  }

  /** An aligned block of at most 1024 addresses ends with the address space at the latest. */
  lemma BlockFits(network: Ip, h: nat)
    requires (|network| == 4 || |network| == 16) && h <= 10 && Clear(Value(network), h) == Value(network)
    ensures Value(network) + Pow2(h) <= Pow2(8 * |network|) && Pow2(h) < Pow2(8 * |network|)
  {
    var m := 8 * |network|;
    IncAddsOne(network);
    PowMonotone(h, m);
    PowerStartsBlock(m, h);
    BlockOf(Value(network), Pow2(m), h);
  }

  /** Addresses of one small network share their first two bytes. */
  lemma SharedPrefix(network: Ip, ones: nat, ip: Ip)
    requires |ip| == |network| && (|ip| == 4 || |ip| == 16)
    requires HostBits(ones, |ip|) <= 10
    requires Contains(network, Mask(ones, |ip|), ip)
    ensures ip[0] == network[0] && ip[1] == network[1]
  {
    Pow2Byte(0);
    forall i | 0 <= i < 2
      ensures ip[i] == network[i]
    {
      assert Mask(ones, |ip|)[i] == 255;
      AndOnes(ip[i], 8);
      AndOnes(network[i], 8);
      assert AndByte(network[i], 255) == AndByte(ip[i], 255);
    }
  }

  /** The first address of the network `ip/ones`. */
  function Base(ip: Ip, ones: nat): (b: Ip)
    ensures |b| == |ip|
  {
    AndBytes(ip, Mask(ones, |ip|))
  }

  /** How many host addresses lie among the first `k` of a block of `size`. */
  function HostsUpTo(k: nat, size: nat): nat {
    if k == 0 || size <= 2 then 0 else if k < size then k - 1 else size - 2
  }

  /** The listed addresses: those that follow `base`, in order, without gaps. */
  predicate Consecutive(ips: seq<Ip>, base: Ip) {
    forall j :: 0 <= j < |ips| ==> |ips[j]| == |base| && Value(ips[j]) == Value(base) + 1 + j
  }

  /** The k-th address from `network` on, counting on from 0 where the space ends. */
  function Spot(network: Ip, k: nat): nat {
    if Value(network) + k == Pow2(8 * |network|) then 0 else Value(network) + k
  }

  /** The network is the start of an aligned block of at most 1024 addresses. */
  ghost predicate Small(network: Ip, ones: nat) {
    && (|network| == 4 || |network| == 16) && HostBits(ones, |network|) <= 10
    && Clear(Value(network), HostBits(ones, |network|)) == Value(network)
  }

  /** The cursor stands at base + k and the hosts before it are listed; they are allowed if the base is. */
  ghost predicate Progress(network: Ip, size: nat, cursor: Ip, out: seq<Ip>, k: nat) {
    && k <= size && |cursor| == |network| && Value(cursor) == Spot(network, k)
    && |out| == HostsUpTo(k, size) && Consecutive(out, network)
    && forall j :: 0 <= j < |out| ==> IsAllowedScanNetwork(out[j]) == IsAllowedScanNetwork(network)
  }

  /** One turn of the expansion loop: what the cursor is, and where the increment takes it. */
  lemma CursorStep(network: Ip, ones: nat, cursor: Ip, k: nat)
    requires Small(network, ones) && |cursor| == |network|
    requires k <= Pow2(HostBits(ones, |network|)) && Value(cursor) == Spot(network, k)
    ensures var size, mask := Pow2(HostBits(ones, |network|)), Mask(ones, |network|);
            if Contains(network, mask, cursor)
            then && k < size && Value(cursor) == Value(network) + k && Value(Inc(cursor)) == Spot(network, k + 1)
                 && (IsNetworkOrBroadcast(cursor, network, mask) <==> k == 0 || k == size - 1)
                 && IsAllowedScanNetwork(cursor) == IsAllowedScanNetwork(network)
            else k == size
  {
    BlockFits(network, HostBits(ones, |network|));
    Membership(network, ones, cursor);
    if Contains(network, Mask(ones, |network|), cursor) {
      Ends(network, ones, cursor);
      SharedPrefix(network, ones, cursor);
      AllowedByPrefix(network, cursor);
      IncAddsOne(cursor);
    }
  }

  /** The text is parsed twice. `strict` says whether the second parser takes it too: it refuses, for example,
      a prefix length with leading zeros, and then nobody looks at the range. So the expansion is refused
      exactly when the second parse finds the network outside the allowed ranges, or when it has more than ten
      host bits. Otherwise it lists base + 1, base + 2, ..., base + 2^h - 2, and those are allowed exactly when
      the base is. */
  method ExpandCIDR(ip: Ip, ones: nat, strict: bool) returns (r: Expansion)
    requires (|ip| == 4 || |ip| == 16) && ones <= 8 * |ip|
    ensures r.OutsideAllowedRange? <==> strict && !IsAllowedScanNetwork(Base(ip, ones))
    ensures r.TooManyHosts? <==> (strict ==> IsAllowedScanNetwork(Base(ip, ones))) && HostBits(ones, |ip|) > 10
    ensures r.Hosts? ==>
      var size := Pow2(HostBits(ones, |ip|));
      Value(Base(ip, ones)) == Clear(Value(ip), HostBits(ones, |ip|))
      && |r.ips| == HostsUpTo(size, size)
      && Consecutive(r.ips, Base(ip, ones))
    ensures r.Hosts? && HostBits(ones, |ip|) >= 2 ==>
      (AllAllowed(r.ips) <==> strict || IsAllowedScanNetwork(Base(ip, ones)))
    ensures r.Hosts? && !IsAllowedScanNetwork(Base(ip, ones)) ==>
      forall j :: 0 <= j < |r.ips| ==> !IsAllowedScanNetwork(r.ips[j])
  {
    var mask := Mask(ones, |ip|);
    var network := AndBytes(ip, mask);
    if strict {
      if !IsAllowedScanNetwork(network) {
        return OutsideAllowedRange;
      }
    }
    FitsIsTenBits(ip, ones);
    if !Fits(ip, ones) {
      return TooManyHosts;
    }
    BaseStartsBlock(ip, ones);
    var out := ListHosts(network, ones);
    AllOrNone(out, network, HostBits(ones, |ip|));
    return Hosts(out);
  }

  predicate AllAllowed(ips: seq<Ip>) {
    forall j :: 0 <= j < |ips| ==> IsAllowedScanNetwork(ips[j])
  }

  lemma AllOrNone(out: seq<Ip>, network: Ip, h: nat)
    requires |out| == HostsUpTo(Pow2(h), Pow2(h))
    requires forall j :: 0 <= j < |out| ==> IsAllowedScanNetwork(out[j]) == IsAllowedScanNetwork(network)
    ensures h >= 2 ==> (AllAllowed(out) <==> IsAllowedScanNetwork(network))
  {
    if h >= 2 {
      PowMonotone(2, h);
      assert IsAllowedScanNetwork(out[0]) == IsAllowedScanNetwork(network);
    }
  }

  /** The setting 8.8.8.0/024 passes the first parser only, and all its 254 public addresses are listed. */
  method PublicNetworkListed() returns (ips: seq<Ip>)
    ensures |ips| == 254 && Consecutive(ips, [8, 8, 8, 0])
    ensures forall j :: 0 <= j < |ips| ==> !IsAllowedScanNetwork(ips[j])
  {
    var ip: Ip := [8, 8, 8, 0];
    PublicBase();
    var r := ExpandCIDR(ip, 24, false);
    ips := r.ips;
  }

  lemma PublicBase()
    ensures Base([8, 8, 8, 0], 24) == [8, 8, 8, 0] && !IsAllowedScanNetwork([8, 8, 8, 0])
    ensures HostBits(24, 4) == 8 && Pow2(8) == 256 && HostsUpTo(256, 256) == 254
  {
    Pow2Byte(0);
    AndOnes(8, 8);
    var ip: Ip := [8, 8, 8, 0];
    var mask := Mask(24, 4);
    assert mask[0] == 255 && mask[1] == 255 && mask[2] == 255;
    assert AndByte(8, 255) == 8 && AndByte(0, mask[3]) == 0;
  }

  lemma Advance(network: Ip, ones: nat, cursor: Ip, out: seq<Ip>, k: nat)
    requires Small(network, ones)
    requires Progress(network, Pow2(HostBits(ones, |network|)), cursor, out, k)
    ensures var size, mask := Pow2(HostBits(ones, |network|)), Mask(ones, |network|);
            if Contains(network, mask, cursor)
            then k < size && Progress(network, size, Inc(cursor),
                   if IsNetworkOrBroadcast(cursor, network, mask) then out else out + [cursor], k + 1)
            else k == size
  {
    CursorStep(network, ones, cursor, k);
    if Contains(network, Mask(ones, |network|), cursor) {
      Extend(network, Pow2(HostBits(ones, |network|)), cursor, Inc(cursor), out, k,
             IsNetworkOrBroadcast(cursor, network, Mask(ones, |network|)));
    }
  }

  lemma Extend(network: Ip, size: nat, cursor: Ip, next: Ip, out: seq<Ip>, k: nat, skip: bool)
    requires Progress(network, size, cursor, out, k) && k < size
    requires Value(cursor) == Value(network) + k
    requires |next| == |cursor| && Value(next) == Spot(network, k + 1)
    requires skip <==> k == 0 || k == size - 1
    requires IsAllowedScanNetwork(cursor) == IsAllowedScanNetwork(network)
    ensures Progress(network, size, next, if skip then out else out + [cursor], k + 1)
  {
    assert |out| == HostsUpTo(k, size);
    var more := if skip then out else out + [cursor];
    assert |more| == HostsUpTo(k + 1, size);
    assert skip || (|out| == k - 1 && |cursor| == |network| && Value(cursor) == Value(network) + 1 + |out|);
  }

  method ListHosts(network: Ip, ones: nat) returns (out: seq<Ip>)
    requires Small(network, ones)
    ensures var size := Pow2(HostBits(ones, |network|)); |out| == HostsUpTo(size, size)
    ensures Consecutive(out, network)
    ensures forall j :: 0 <= j < |out| ==> IsAllowedScanNetwork(out[j]) == IsAllowedScanNetwork(network)
  {
    var mask := Mask(ones, |network|);
    ghost var size := Pow2(HostBits(ones, |network|));
    out := [];
    var cursor := new Byte[|network|](i requires 0 <= i < |network| => network[i]);
    ghost var here := cursor[..];
    assert here == network;
    BlockFits(network, HostBits(ones, |network|));
    ghost var k: nat := 0;
    while Contains(network, mask, cursor[..])
      invariant cursor.Length == |network| && here == cursor[..]
      invariant Progress(network, size, here, out, k)
      decreases size - k
    {
      Advance(network, ones, here, out, k);
      if !IsNetworkOrBroadcast(cursor[..], network, mask) {
        out := out + [cursor[..]];
      }
      IncIP(cursor);
      here := cursor[..];
      k := k + 1;
    }
    Advance(network, ones, here, out, k);
  }

  lemma BaseStartsBlock(ip: Ip, ones: nat)
    ensures Value(Base(ip, ones)) == Clear(Value(ip), HostBits(ones, |ip|))
    ensures Clear(Value(Base(ip, ones)), HostBits(ones, |ip|)) == Value(Base(ip, ones))
  {
    MaskValue(ip, ones);
    ClearTwice(Value(ip), HostBits(ones, |ip|));
  }

  /** Aligned blocks nest: the networks of two prefixes of one address family either lie one inside the
      other or have no address in common. */
  lemma BlocksNest(a: Ip, onesA: nat, b: Ip, onesB: nat, ip: Ip)
    requires |a| == |b| == |ip| && onesA <= onesB
    requires Contains(Base(a, onesA), Mask(onesA, |ip|), ip)
    requires Contains(Base(b, onesB), Mask(onesB, |ip|), ip)
    ensures forall c: Ip :: |c| == |ip| && Contains(Base(b, onesB), Mask(onesB, |c|), c)
              ==> Contains(Base(a, onesA), Mask(onesA, |c|), c)
  {
    forall c: Ip | |c| == |ip| && Contains(Base(b, onesB), Mask(onesB, |c|), c)
      ensures Contains(Base(a, onesA), Mask(onesA, |c|), c)
    {
      BaseStartsBlock(a, onesA);
      BaseStartsBlock(b, onesB);
      Membership(Base(a, onesA), onesA, ip);
      Membership(Base(b, onesB), onesB, ip);
      Membership(Base(b, onesB), onesB, c);
      Membership(Base(a, onesA), onesA, c);
      var h, g := HostBits(onesA, |ip|), HostBits(onesB, |ip|);
      BlockOf(Value(Base(b, onesB)), Value(c), g);
      BlockOf(Value(Base(b, onesB)), Value(ip), g);
      BlockOf(Value(Base(a, onesA)), Value(ip), h);
      ClearCoarser(Value(c), g, h);
      ClearCoarser(Value(ip), g, h);
      ClearBlock(Value(c), h);
    }
  }
}
