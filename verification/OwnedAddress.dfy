/** pkg/vif/owned_address.go: the address that a device claims for itself, counted down from the top of
    a Telepresence-owned range. Addresses are related to big-endian integers. */
module OwnedAddress {
  import opened Arithmetic
  import opened IpPrefix

  /** The bytes as a big-endian number. */
  ghost function Value(b: seq<Byte>): nat {
    if b == [] then 0 else b[0] * Power2(8 * (|b| - 1)) + Value(b[1..])
  }

  lemma Power2Byte(k: nat)
    ensures Power2(8 * (k + 1)) == 256 * Power2(8 * k)
  {
    Power2Sum(8, 8 * k);
    assert Power2(8) == 256;
  }

  lemma MulLeq(x: int, y: int, w: int)
    requires x <= y && 0 <= w
    ensures x * w <= y * w
  {
  }

  lemma {:induction false} ValueBound(b: seq<Byte>)
    ensures Value(b) < Power2(8 * |b|)
    decreases |b|
  {
    if b != [] {
      ValueBound(b[1..]);
      Power2Byte(|b| - 1);
      MulLeq(b[0], 255, Power2(8 * (|b| - 1)));
    }
  }

  // ---------- addrMinus ----------

  /** One byte of the subtraction: what is left to subtract weighs 256 times as much. */
  lemma SubtractByte(x: int, n: int, w: int, y: int, n': int)
    requires (y == x - n % 256 && n' == n / 256) || (y == x + 256 - n % 256 && n' == n / 256 + 1)
    ensures y * w - n' * (256 * w) == x * w - n * w
  {
    assert n == 256 * (n / 256) + n % 256;
    assert y - n' * 256 == x - n;
    assert y * w - n' * (256 * w) == (y - n' * 256) * w;
  }

  /** The bytes from `i` on are done, and `left` is still to be subtracted from those before. */
  ghost predicate Subtracted(a: Addr, b: Addr, n: nat, i: nat, left: nat) {
    && |b| == |a| && i <= |a| && b[..i] == a[..i]
    && Value(b[i..]) - left * Power2(8 * (|b| - i)) == Value(a[i..]) - n
  }

  lemma SubtractStep(a: Addr, b: Addr, n: nat, i: nat, left: nat, y: Byte, left': nat)
    requires i < |a| && Subtracted(a, b, n, i + 1, left)
    requires || (y == b[i] - left % 256 && left' == left / 256)
             || (y == b[i] + 256 - left % 256 && left' == left / 256 + 1)
    ensures Subtracted(a, b[i := y], n, i, left')
  {
    var r := b[i := y];
    var w := Power2(8 * (|b| - 1 - i));
    assert a[i] == a[..i + 1][i] == b[..i + 1][i] == b[i];
    SubtractByte(b[i], left, w, y, left');
    assert r[i + 1..] == b[i + 1..];
    assert r[..i] == b[..i + 1][..i] == a[..i];
    Power2Byte(|b| - 1 - i);
  }

  /** Subtract the low byte of `left` from the byte at `i`, with a borrow if needed. */
  method SubtractAt(a: Addr, b: Addr, ghost n: nat, i: nat, left: nat) returns (r: Addr, rest: nat)
    requires i < |a| && Subtracted(a, b, n, i + 1, left)
    ensures Subtracted(a, r, n, i, rest)
  {
    var x: int, d: int := b[i], left % 256;
    if x >= d {
      SubtractStep(a, b, n, i, left, x - d, left / 256);
      r := b[i := x - d];
      rest := left / 256;
    } else {
      SubtractStep(a, b, n, i, left, x + 256 - d, left / 256 + 1);
      r := b[i := x + 256 - d];
      rest := left / 256 + 1;
    }
  }

  /** `addrMinus`: subtraction modulo 2^(8 * len). */
  method AddrMinus(a: Addr, n: nat) returns (r: Addr)
    requires n < Power2(64)
    ensures |r| == |a| && Value(r) == (Value(a) - n) % Power2(8 * |a|)
  {
    r := a;
    var i, left := |r| - 1, n;
    while i >= 0 && left > 0
      invariant -1 <= i < |a| && 0 <= left
      invariant Subtracted(a, r, n, i + 1, left)
      decreases i
    {
      r, left := SubtractAt(a, r, n, i, left);
      i := i - 1;
    }
    SubtractionDone(a, r, n, i + 1, left);
  }

  lemma RemainderOf(x: int, m: int, k: int, v: int)
    requires 0 <= v < m && v - k * m == x
    ensures x % m == v
  {
    assert m * (-k) == -(k * m);
    DivModUnique(x, m, -k, v);
  }

  lemma WholeIsSubtracted(a: Addr, b: Addr, n: nat, i: nat, left: nat)
    requires Subtracted(a, b, n, i, left) && (i == 0 || left == 0)
    ensures Value(b) - left * Power2(8 * |a|) == Value(a) - n
  {
    if i == 0 {
      assert a[0..] == a && b[0..] == b;
    } else {
      NothingLeft(a, b, n, i);
    }
  }

  lemma NothingLeft(a: Addr, b: Addr, n: nat, i: nat)
    requires Subtracted(a, b, n, i, 0)
    ensures Value(b) == Value(a) - n
  {
    SamePrefix(a, b, i);
  }

  lemma SubtractionDone(a: Addr, b: Addr, n: nat, i: nat, left: nat)
    requires Subtracted(a, b, n, i, left) && (i == 0 || left == 0)
    ensures Value(b) == (Value(a) - n) % Power2(8 * |a|)
  {
    WholeIsSubtracted(a, b, n, i, left);
    ValueBound(b);
    RemainderOf(Value(a) - n, Power2(8 * |a|), left, Value(b));
  }

  /** Equal leading bytes contribute equally. */
  lemma {:induction false} SamePrefix(a: seq<Byte>, b: seq<Byte>, i: nat)
    requires |a| == |b| && i <= |a| && a[..i] == b[..i]
    ensures Value(a) - Value(a[i..]) == Value(b) - Value(b[i..])
    decreases i
  {
    if i > 0 {
      assert a[0] == a[..i][0] == b[0];
      assert a[1..][..i - 1] == a[..i][1..] && b[1..][..i - 1] == b[..i][1..];
      SamePrefix(a[1..], b[1..], i - 1);
      assert a[1..][i - 1..] == a[i..] && b[1..][i - 1..] == b[i..];
    } else {
      assert a[0..] == a && b[0..] == b;
    }
  }

  // ---------- Prefixes as ranges of numbers ----------

  /** `Masked` for any sequence of bytes. */
  ghost function MaskedBytes(b: seq<Byte>, bits: nat): seq<Byte> {
    if b == [] then []
    else [MaskByte(b[0], BitsInByte(bits, 0))] + MaskedBytes(b[1..], if bits < 8 then 0 else bits - 8)
  }

  lemma {:induction false} MaskedBytesAt(b: seq<Byte>, bits: nat, i: nat)
    requires i < |b|
    ensures |MaskedBytes(b, bits)| == |b|
    ensures MaskedBytes(b, bits)[i] == MaskByte(b[i], BitsInByte(bits, i))
    decreases |b|
  {
    if |b| > 1 {
      MaskedBytesAt(b[1..], if bits < 8 then 0 else bits - 8, if i > 0 then i - 1 else 0);
    }
  }

  lemma MaskedIsMaskedBytes(a: Addr, bits: nat)
    ensures Masked(a, bits) == MaskedBytes(a, bits)
  {
    if a != [] {
      MaskedBytesAt(a, bits, 0);
      forall i | 0 <= i < |a| ensures MaskedBytes(a, bits)[i] == Masked(a, bits)[i] {
        MaskedBytesAt(a, bits, i);
      }
    }
  }

  lemma SumOfMultiples(c: int, q: int, p: int, y: int)
    requires 0 < p && y % p == 0
    ensures (c * (p * q) + y) % p == 0
  {
    assert c * (p * q) + y == p * (c * q + y / p) + 0;
    DivModUnique(c * (p * q) + y, p, c * q + y / p, 0);
  }

  /** `v` is `x` rounded down to a multiple of `p`. */
  ghost predicate Rounded(v: int, x: int, p: int) {
    p > 0 && v % p == 0 && v <= x < v + p
  }

  /** Rounding the leading digit of `x * w + y` down to a multiple of `f`, and dropping `y`. */
  lemma RoundLeading(x: nat, y: nat, w: nat, f: nat)
    requires 0 < f && y < w
    ensures Rounded((x - x % f) * w, x * w + y, f * w)
  {
    var q, r := x / f, x % f;
    assert x == f * q + r;
    assert (x - r) * w == (f * w) * q + 0;
    DivModUnique((x - r) * w, f * w, q, 0);
    assert x * w == (x - r) * w + r * w;
    MulLeq(r, f - 1, w);
    assert (f - 1) * w == f * w - w;
  }

  /** Masking rounds the value down to a multiple of 2^h, where h is the number of host bits. */
  lemma {:induction false} MaskRoundsDown(b: seq<Byte>, bits: nat)
    requires bits <= 8 * |b|
    ensures Rounded(Value(MaskedBytes(b, bits)), Value(b), Power2(8 * |b| - bits))
    decreases |b|
  {
    if b != [] {
      if bits < 8 {
        RoundsInFirst(b, bits);
      } else {
        MaskRoundsDown(b[1..], bits - 8);
        RoundsBehind(b, bits);
      }
    }
  }

  lemma {:induction false} MaskedToNothing(b: seq<Byte>)
    ensures Value(MaskedBytes(b, 0)) == 0
  {
    if b != [] {
      MaskedValue(b, 0);
      MaskedToNothing(b[1..]);
    }
  }

  /** The host bits begin in the first byte. */
  lemma RoundsInFirst(b: seq<Byte>, bits: nat)
    requires b != [] && bits < 8
    ensures Rounded(Value(MaskedBytes(b, bits)), Value(b), Power2(8 * |b| - bits))
  {
    var x, y, w, f := b[0], Value(b[1..]), Power2(8 * (|b| - 1)), Power2(8 - bits);
    ValueBound(b[1..]);
    RoundLeading(x, y, w, f);
    FirstByteLeft(b, bits);
    SizeOfRest(8 - bits, |b| - 1);
  }

  lemma FirstByteLeft(b: seq<Byte>, bits: nat)
    requires b != [] && bits < 8
    ensures Value(MaskedBytes(b, bits)) == (b[0] - b[0] % Power2(8 - bits)) * Power2(8 * (|b| - 1))
  {
    MaskedValue(b, bits);
    MaskedToNothing(b[1..]);
    MaskByteIsFloor(b[0], bits);
  }

  lemma SizeOfRest(n: BitCount, k: nat)
    ensures Power2(n) * Power2(8 * k) == Power2(n + 8 * k)
  {
    Power2Sum(n, 8 * k);
  }

  /** The host bits begin behind the first byte. */
  lemma RoundsBehind(b: seq<Byte>, bits: nat)
    requires b != [] && 8 <= bits <= 8 * |b|
    requires Rounded(Value(MaskedBytes(b[1..], bits - 8)), Value(b[1..]), Power2(8 * |b[1..]| - (bits - 8)))
    ensures Rounded(Value(MaskedBytes(b, bits)), Value(b), Power2(8 * |b| - bits))
  {
    MaskedValue(b, bits);
    Power2Sum(8 * |b| - bits, bits - 8);
    SumOfMultiples(b[0], Power2(bits - 8), Power2(8 * |b| - bits), Value(MaskedBytes(b[1..], bits - 8)));
  }

  lemma MaskedValue(b: seq<Byte>, bits: nat)
    requires b != []
    ensures Value(MaskedBytes(b, bits))
         == MaskByte(b[0], BitsInByte(bits, 0)) * Power2(8 * (|b| - 1))
            + Value(MaskedBytes(b[1..], if bits < 8 then 0 else bits - 8))
  {
    var m := MaskedBytes(b, bits);
    var t := MaskedBytes(b[1..], if bits < 8 then 0 else bits - 8);
    assert m[0] == MaskByte(b[0], BitsInByte(bits, 0)) && m[1..] == t;
    MaskedBytesAt(b, bits, 0);
  }

  lemma {:induction false} ValueIsInjective(a: seq<Byte>, b: seq<Byte>)
    requires |a| == |b| && Value(a) == Value(b)
    ensures a == b
    decreases |a|
  {
    if a != [] {
      ValueBound(a[1..]);
      ValueBound(b[1..]);
      SameDigits(a[0], b[0], Power2(8 * (|a| - 1)), Value(a[1..]), Value(b[1..]));
      ValueIsInjective(a[1..], b[1..]);
      assert a == [a[0]] + a[1..] && b == [b[0]] + b[1..];
    }
  }

  lemma SameDigits(p: int, q: int, w: int, r: int, s: int)
    requires 0 <= r < w && 0 <= s < w && p * w + r == q * w + s
    ensures p == q && r == s
  {
    assert w * (p - q) == s - r;
    MulMono(w, p - q);
  }

  function HostBits(p: ValidPrefix): nat {
    BitLen(p.addr) - p.bits
  }

  /** The lowest address of the prefix, as a number. */
  ghost function Base(p: ValidPrefix): nat {
    Value(Masked(p.addr, p.bits))
  }

  /** A number lies in one only of the intervals of length `h` that start at multiples of `h`. */
  lemma SameFloor(v: int, x: int, y: int, h: int)
    requires 0 < h && x % h == 0 && y % h == 0 && x <= v < x + h && y <= v < y + h
    ensures x == y
  {
    assert v == h * (x / h) + (v - x);
    DivModUnique(v, h, x / h, v - x);
    assert v == h * (y / h) + (v - y);
    DivModUnique(v, h, y / h, v - y);
  }

  lemma MaskedInRange(a: Addr, bits: nat)
    requires bits <= BitLen(a)
    ensures var x := Value(Masked(a, bits)); var h := Power2(BitLen(a) - bits); x % h == 0 && x <= Value(a) < x + h
  {
    MaskedIsMaskedBytes(a, bits);
    MaskRoundsDown(a, bits);
  }

  lemma InRangeIsContained(p: ValidPrefix, a: Addr)
    requires |a| == |p.addr| && Base(p) <= Value(a) < Base(p) + Power2(HostBits(p))
    ensures Contains(p, a)
  {
    MaskedInRange(a, p.bits);
    MaskedInRange(p.addr, p.bits);
    SameFloor(Value(a), Value(Masked(a, p.bits)), Base(p), Power2(HostBits(p)));
    ValueIsInjective(Masked(a, p.bits), Masked(p.addr, p.bits));
  }

  /** A prefix contains exactly the addresses from its base up to, but excluding, base + 2^hostBits. */
  lemma ContainsMeansInRange(p: ValidPrefix, a: Addr)
    requires |a| == |p.addr|
    ensures Contains(p, a) <==> Base(p) <= Value(a) < Base(p) + Power2(HostBits(p))
  {
    if Contains(p, a) {
      MaskedInRange(a, p.bits);
    } else if Base(p) <= Value(a) < Base(p) + Power2(HostBits(p)) {
      InRangeIsContained(p, a);
    }
  }

  // ---------- broadcastAddr ----------

  /** `x | (0xff >> (8 - n))`: set the `n` low bits. */
  function SetLow(x: Byte, n: BitCount): Byte {
    MaskByte(x, 8 - n) + Power2(n) - 1
  }

  /** The bytes of `b` from `i` on have the low `done` bits set and are otherwise those of `m`. */
  ghost predicate Filled(m: Addr, b: Addr, i: nat, done: nat) {
    && |b| == |m| && i <= |m| && b[..i] == m[..i]
    && Value(b[i..]) == Value(m[i..]) + Power2(done) - 1
  }

  lemma FillStep(m: Addr, b: Addr, i: nat, n: nat)
    requires i < |m| && n <= 8 && Filled(m, b, i + 1, 8 * (|m| - 1 - i)) && MaskByte(m[i], 8 - n) == m[i]
    ensures Filled(m, b[i := SetLow(b[i], n)], i, 8 * (|m| - 1 - i) + n)
  {
    var r := b[i := SetLow(b[i], n)];
    assert b[i] == b[..i + 1][i] == m[i];
    assert r[i] == m[i] + Power2(n) - 1;
    assert r[i + 1..] == b[i + 1..];
    assert r[..i] == b[..i + 1][..i] == m[..i];
    FillValue(m, r, i, n);
  }

  lemma ValueFrom(b: seq<Byte>, i: nat)
    requires i < |b|
    ensures Value(b[i..]) == b[i] * Power2(8 * (|b| - 1 - i)) + Value(b[i + 1..])
  {
    assert b[i..][0] == b[i] && b[i..][1..] == b[i + 1..];
  }

  lemma FillValue(m: Addr, r: Addr, i: nat, n: nat)
    requires i < |m| == |r| && n <= 8 && r[i] == m[i] + Power2(n) - 1
    requires Value(r[i + 1..]) == Value(m[i + 1..]) + Power2(8 * (|m| - 1 - i)) - 1
    ensures Value(r[i..]) == Value(m[i..]) + Power2(8 * (|m| - 1 - i) + n) - 1
  {
    var w := 8 * (|m| - 1 - i);
    ValueFrom(r, i);
    ValueFrom(m, i);
    Power2Sum(w, n);
    FillByte(m[i], Power2(n), Power2(w), Value(m[i + 1..]), Value(r[i + 1..]), Power2(w + n));
  }

  lemma FillByte(x: int, f: int, w: int, before: int, after: int, whole: int)
    requires after == before + w - 1 && whole == w * f
    ensures (x + f - 1) * w + after == x * w + before + whole - 1
  {
  }

  /** The host bits of a masked address are zero. */
  lemma HostByte(p: ValidPrefix, i: nat, n: nat)
    requires i < |p.addr| && n <= 8 && BitsInByte(p.bits, i) == 8 - n
    ensures MaskByte(Masked(p.addr, p.bits)[i], 8 - n) == Masked(p.addr, p.bits)[i]
  {
    MaskByteIdempotent(p.addr[i], 8 - n);
  }

  /** How far the loop below has come: the host bits of the bytes behind `i` are set, and `hostBits` are left. */
  ghost predicate Filling(p: ValidPrefix, b: Addr, i: int, hostBits: int) {
    && -1 <= i < |p.addr| && |b| == |p.addr| && 0 <= hostBits <= HostBits(p)
    && (hostBits > 0 ==> hostBits == 8 * (i + 1) - p.bits)
    && Filled(Masked(p.addr, p.bits), b, i + 1, HostBits(p) - hostBits)
  }

  lemma FillingStarts(p: ValidPrefix)
    ensures Filling(p, Masked(p.addr, p.bits), |p.addr| - 1, HostBits(p))
  {
  }

  lemma FillingEnds(p: ValidPrefix, b: Addr, i: int)
    requires Filling(p, b, i, 0)
    ensures Value(b) == Base(p) + Power2(HostBits(p)) - 1
  {
    SamePrefix(b, Masked(p.addr, p.bits), i + 1);
  }

  method FillNext(p: ValidPrefix, b: Addr, i: nat, hostBits: nat) returns (r: Addr, left: nat)
    requires Filling(p, b, i, hostBits) && hostBits > 0
    ensures Filling(p, r, i - 1, left)
  {
    var n := if hostBits < 8 then hostBits else 8;
    HostByte(p, i, n);
    FillStep(Masked(p.addr, p.bits), b, i, n);
    r := b[i := SetLow(b[i], n)];
    left := hostBits - n;
  }

  /** `broadcastAddr`: the highest address of the prefix. */
  method BroadcastAddr(p: ValidPrefix) returns (b: Addr)
    ensures |b| == |p.addr| && Value(b) == Base(p) + Power2(HostBits(p)) - 1
  {
    b := Masked(p.addr, p.bits);
    var hostBits := 8 * |b| - p.bits;
    var i := |b| - 1;
    FillingStarts(p);
    while hostBits > 0 && i >= 0
      invariant Filling(p, b, i, hostBits)
      decreases i
    {
      b, hostBits := FillNext(p, b, i, hostBits);
      i := i - 1;
    }
    FillingEnds(p, b, i);
  }

  // ---------- ownedAddress ----------

  /** fd00:0:0:246::/64 */
  const TELEPRESENCE_ULA6 := Prefix([0xfd, 0, 0, 0, 0, 0, 2, 0x46, 0, 0, 0, 0, 0, 0, 0, 0], 64)

  /** The range that the owned address of a family comes from. */
  function OwnedRange(ipv4: bool, defaultSubnet: Prefix, virtualSubnet: Prefix): Prefix {
    if !ipv4 then TELEPRESENCE_ULA6
    else if IsValid(virtualSubnet) && Is4(virtualSubnet.addr) then virtualSubnet
    else defaultSubnet
  }

  /** The size of the upper half of a range with `h` host bits, capped at 2^62. */
  function UpperHalf(h: nat): (u: nat)
    requires h >= 2
    ensures 2 <= u <= Power2(h - 1) && u <= Power2(62)
  {
    Power2Grows(1, if h - 1 < 62 then h - 1 else 62);
    Power2Grows(if h - 1 < 62 then h - 1 else 62, h - 1);
    Power2Grows(if h - 1 < 62 then h - 1 else 62, 62);
    Power2(if h - 1 < 62 then h - 1 else 62)
  }

  /** How far below the broadcast address the device with the given index is. */
  function Offset(h: nat, ifaceIndex: nat): (o: nat)
    requires h >= 2
    ensures 1 <= o < UpperHalf(h) && o < Power2(64)
  {
    Power2Grows(62, 64);
    ifaceIndex % (UpperHalf(h) - 1) + 1
  }

  /** `owned` is what the device with the given interface index claims from the range: an address in
      the upper half, below the broadcast address, at a distance that depends on the index only. */
  ghost predicate OwnedFrom(rng: Prefix, ifaceIndex: nat, owned: Addr)
    requires IsValid(rng) && HostBits(rng) >= 2
  {
    var h := HostBits(rng);
    && |owned| == |rng.addr| && Contains(rng, owned)
    && Base(rng) + Power2(h - 1) <= Value(owned) < Base(rng) + Power2(h) - 1
    && Value(owned) == Base(rng) + Power2(h) - 1 - Offset(h, ifaceIndex)
  }

  /** `ownedAddress`. */
  method OwnedAddress(ipv4: bool, ifaceIndex: nat, defaultSubnet: Prefix, virtualSubnet: Prefix)
    returns (owned: Addr, ok: bool)
    requires ifaceIndex < 0x1_0000_0000
    ensures var rng := OwnedRange(ipv4, defaultSubnet, virtualSubnet);
            ok <==> IsValid(rng) && Is4(rng.addr) == ipv4 && HostBits(rng) >= 2
    ensures ok ==> OwnedFrom(OwnedRange(ipv4, defaultSubnet, virtualSubnet), ifaceIndex, owned)
    ensures ok && !ipv4 ==> Contains(TELEPRESENCE_ULA6, owned)
    ensures ok && ipv4 ==>
              var configured := IsValid(virtualSubnet) && |virtualSubnet.addr| == 4;
              Contains(if configured then virtualSubnet else defaultSubnet, owned)
    ensures !ok ==> owned == []
  {
    var rng := OwnedRange(ipv4, defaultSubnet, virtualSubnet);
    if !IsValid(rng) || Is4(rng.addr) != ipv4 {
      return [], false;
    }
    var hostBits := BitLen(rng.addr) - rng.bits;
    if hostBits < 2 {
      return [], false;
    }
    owned := CountDown(rng, ifaceIndex);
    ok := true;
  }

  method CountDown(rng: Prefix, ifaceIndex: nat) returns (owned: Addr)
    requires IsValid(rng) && HostBits(rng) >= 2
    ensures OwnedFrom(rng, ifaceIndex, owned)
  {
    var offset := Offset(HostBits(rng), ifaceIndex);
    var top := BroadcastAddr(rng);
    owned := AddrMinus(top, offset);
    CountedDown(rng, top, ifaceIndex, offset, owned);
  }

  lemma CountedDown(rng: Prefix, top: Addr, ifaceIndex: nat, offset: nat, owned: Addr)
    requires IsValid(rng) && HostBits(rng) >= 2 && |top| == |rng.addr| == |owned|
    requires Value(top) == Base(rng) + Power2(HostBits(rng)) - 1
    requires offset == Offset(HostBits(rng), ifaceIndex)
    requires Value(owned) == (Value(top) - offset) % Power2(8 * |top|)
    ensures OwnedFrom(rng, ifaceIndex, owned)
  {
    OffsetInHalf(HostBits(rng), ifaceIndex);
    ValueBound(top);
    DivModUnique(Value(top) - offset, Power2(8 * |top|), 0, Value(top) - offset);
    OwnedIsFrom(rng, ifaceIndex, owned);
  }

  lemma OwnedIsFrom(rng: Prefix, ifaceIndex: nat, owned: Addr)
    requires IsValid(rng) && HostBits(rng) >= 2 && |owned| == |rng.addr|
    requires Value(owned) == Base(rng) + Power2(HostBits(rng)) - 1 - Offset(HostBits(rng), ifaceIndex)
    ensures OwnedFrom(rng, ifaceIndex, owned)
  {
    OffsetInHalf(HostBits(rng), ifaceIndex);
    ContainsMeansInRange(rng, owned);
  }

  lemma OffsetInHalf(h: nat, ifaceIndex: nat)
    requires h >= 2
    ensures 1 <= Offset(h, ifaceIndex) < Power2(h - 1) && Power2(h) == 2 * Power2(h - 1)
  {
    Power2Grows(if h - 1 < 62 then h - 1 else 62, h - 1);
  }

  /** Devices whose interface indexes differ modulo upperHalf - 1 own different addresses. */
  lemma OwnedAddressesDiffer(rng: Prefix, i: nat, j: nat, a: Addr, b: Addr)
    requires IsValid(rng) && HostBits(rng) >= 2 && OwnedFrom(rng, i, a) && OwnedFrom(rng, j, b)
    ensures a == b <==> i % (UpperHalf(HostBits(rng)) - 1) == j % (UpperHalf(HostBits(rng)) - 1)
  {
    SameOffsetExactly(HostBits(rng), i, j);
    if Value(a) == Value(b) {
      ValueIsInjective(a, b);
    }
  }

  lemma SameOffsetExactly(h: nat, i: nat, j: nat)
    requires h >= 2
    ensures Offset(h, i) == Offset(h, j) <==> i % (UpperHalf(h) - 1) == j % (UpperHalf(h) - 1)
  {
  }

  // ---------- Which addresses are owned ----------

  lemma SmallIndex(h: nat, i: nat)
    requires h >= 2 && i < UpperHalf(h) - 1
    ensures Offset(h, i) == i + 1
  {
    DivModUnique(i, UpperHalf(h) - 1, 0, i);
  }

  /** The first device owns the address below the broadcast address, and each next one the address below, as long as
      the index does not wrap around. */
  lemma OwnedCountDown(rng: Prefix, i: nat, a: Addr)
    requires IsValid(rng) && HostBits(rng) >= 2 && OwnedFrom(rng, i, a)
    requires i + 1 < Power2(if HostBits(rng) < 63 then HostBits(rng) - 1 else 62)
    ensures Value(a) == Base(rng) + Power2(HostBits(rng)) - 2 - i
  {
    SmallIndex(HostBits(rng), i);
  }

  /** Up to 63 host bits every address of the upper half but the broadcast address is owned by some device. */
  lemma UpperHalfIsOwned(rng: Prefix, a: Addr) returns (i: nat)
    requires IsValid(rng) && 2 <= HostBits(rng) <= 63 && |a| == |rng.addr|
    requires Base(rng) + Power2(HostBits(rng) - 1) <= Value(a) < Base(rng) + Power2(HostBits(rng)) - 1
    ensures OwnedFrom(rng, i, a)
  {
    var h := HostBits(rng);
    i := Base(rng) + Power2(h) - 2 - Value(a);
    assert UpperHalf(h) == Power2(h - 1);
    SmallIndex(h, i);
    OwnedIsFrom(rng, i, a);
  }
}
