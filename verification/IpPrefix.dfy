/** IP addresses and prefixes as pkg/subnet and pkg/vif use them (netip.Addr and netip.Prefix), with the
    meaning of a prefix given by the set of addresses it contains: those that agree with it on its
    leading bits (prefix notation: section 3.1 of RFC 4632). */
module IpPrefix {
  import opened Arithmetic

  type Byte = b: int | 0 <= b < 256

  /** A number of bits of a byte, and the position of one. */
  type BitCount = n: int | 0 <= n <= 8

  type BitIndex = t: int | 0 <= t <= 7

  /** A zone-less address is its bytes: 4 for IPv4, 16 for IPv6, none for the zero Addr. */
  type Addr = a: seq<Byte> | |a| == 0 || |a| == 4 || |a| == 16 witness []

  /** `bits` is negative for an invalid prefix. */
  datatype Prefix = Prefix(addr: Addr, bits: int)

  function BitLen(a: Addr): nat {
    8 * |a|
  }

  predicate Is4(a: Addr) {
    |a| == 4
  }

  predicate IsValid(p: Prefix) {
    p.addr != [] && 0 <= p.bits <= BitLen(p.addr)
  }

  type ValidPrefix = p: Prefix | IsValid(p) witness Prefix([0, 0, 0, 0], 0)

  /** `netip.PrefixFrom`. */
  function PrefixFrom(a: Addr, bits: int): Prefix {
    if a != [] && 0 <= bits <= BitLen(a) then Prefix(a, bits) else Prefix(a, -1)
  }

  /** Keep the `n` leading bits of a byte. */
  function MaskByte(b: Byte, n: BitCount): Byte {
    match n
    case 0 => 0
    case 1 => b - b % 128
    case 2 => b - b % 64
    case 3 => b - b % 32
    case 4 => b - b % 16
    case 5 => b - b % 8
    case 6 => b - b % 4
    case 7 => b - b % 2
    case _ => b
  }

  /** How many of the `bits` leading bits of an address fall in byte `i`. */
  function BitsInByte(bits: nat, i: nat): BitCount {
    if bits <= 8 * i then 0 else if bits >= 8 * i + 8 then 8 else bits - 8 * i
  }

  /** Keep the `bits` leading bits of an address. */
  function Masked(a: Addr, bits: nat): (m: Addr)
    ensures |m| == |a|
    ensures forall i :: 0 <= i < |a| ==> m[i] == MaskByte(a[i], BitsInByte(bits, i))
  {
    seq(|a|, i requires 0 <= i < |a| => MaskByte(a[i], BitsInByte(bits, i)))
  }

  /** The addresses of a prefix; an invalid prefix has none. */
  predicate Contains(p: Prefix, a: Addr) {
    IsValid(p) && |a| == |p.addr| && Masked(a, p.bits) == Masked(p.addr, p.bits)
  }

  ghost predicate Within(inner: Prefix, outer: Prefix) {
    forall a: Addr :: Contains(inner, a) ==> Contains(outer, a)
  }

  /** `netip.Prefix.Overlaps`. */
  predicate Overlaps(p: Prefix, o: Prefix) {
    if !IsValid(p) || !IsValid(o) then false
    else if p == o then true
    else if |p.addr| != |o.addr| then false
    else
      var minBits := if p.bits < o.bits then p.bits else o.bits;
      minBits == 0 || Masked(p.addr, minBits) == Masked(o.addr, minBits)
  }

  /** `subnet.Covers`. */
  predicate Covers(a: Prefix, b: Prefix) {
    if !(IsValid(a) && IsValid(b)) then false
    else if a == b then true
    else if Is4(a.addr) != Is4(b.addr) then false
    else if a.bits > b.bits then false
    else if a.bits > 0 then Masked(a.addr, a.bits) == Masked(b.addr, a.bits)
    else a.addr == b.addr
  }

  // ---------- Masks ----------

  /** `MaskByte` in terms of a power of two. */
  lemma MaskByteIsFloor(b: Byte, n: BitCount)
    ensures MaskByte(b, n) == b - b % Power2(8 - n)
  {
    SmallPowers();
    match n {
      case 0 => assert b % 256 == b;
      case 1 =>
      case 2 =>
      case 3 =>
      case 4 =>
      case 5 =>
      case 6 =>
      case 7 =>
      case 8 =>
    }
  }

  lemma MaskByteIdempotent(b: Byte, n: BitCount)
    ensures MaskByte(MaskByte(b, n), n) == MaskByte(b, n)
  {
    MaskByteIsFloor(b, n);
    MaskByteIsFloor(MaskByte(b, n), n);
    FloorTwice(b, Power2(8 - n));
  }

  lemma MaskByteCoarserByOne(b: Byte, n: nat)
    requires 1 <= n <= 8
    ensures MaskByte(MaskByte(b, n), n - 1) == MaskByte(b, n - 1)
  {
    MaskByteIsFloor(b, n);
    MaskByteIsFloor(b, n - 1);
    MaskByteIsFloor(MaskByte(b, n), n - 1);
    FloorTwice(b, Power2(8 - n));
  }

  lemma {:induction false} MaskByteCoarser(b: Byte, m: nat, n: nat)
    requires m <= n <= 8
    ensures MaskByte(MaskByte(b, n), m) == MaskByte(b, m)
    decreases n - m
  {
    if m == n {
      MaskByteIdempotent(b, n);
    } else {
      var c := MaskByte(b, n);
      MaskByteCoarser(b, m + 1, n);
      MaskByteCoarserByOne(b, m + 1);
      MaskByteCoarserByOne(c, m + 1);
    }
  }

  lemma MaskedCoarser(a: Addr, m: nat, n: nat)
    requires m <= n
    ensures Masked(Masked(a, n), m) == Masked(a, m)
  {
    forall i | 0 <= i < |a|
      ensures Masked(Masked(a, n), m)[i] == Masked(a, m)[i]
    {
      MaskByteCoarser(a[i], BitsInByte(m, i), BitsInByte(n, i));
    }
  }

  /** Addresses that agree on some leading bits agree on any fewer. */
  lemma AgreeOnFewer(a: Addr, b: Addr, m: nat, n: nat)
    requires m <= n && Masked(a, n) == Masked(b, n)
    ensures Masked(a, m) == Masked(b, m)
  {
    MaskedCoarser(a, m, n);
    MaskedCoarser(b, m, n);
  }

  lemma AgreeOnNone(a: Addr, b: Addr)
    requires |a| == |b|
    ensures Masked(a, 0) == Masked(b, 0)
  {
    forall i | 0 <= i < |a|
      ensures Masked(a, 0)[i] == Masked(b, 0)[i]
    {
      assert a[i] % 256 == a[i] && b[i] % 256 == b[i];
    }
  }

  /** Some address agrees with `a` on `n` leading bits and on no more. */
  lemma DiffersAtBit(a: Addr, n: nat) returns (b: Addr)
    requires n < BitLen(a)
    ensures |b| == |a| && Masked(a, n) == Masked(b, n) && Masked(a, n + 1) != Masked(b, n + 1)
  {
    var i, k := n / 8, n % 8;
    b := a[i := Flipped(a[i], k)];
    assert BitsInByte(n, i) == k && BitsInByte(n + 1, i) == k + 1;
    FlippedByte(a[i], k);
    assert Masked(a, n + 1)[i] != Masked(b, n + 1)[i];
  }

  lemma FlippedByteInRange(x: Byte, k: BitIndex)
    ensures var flip := Power2(7 - k); 0 <= (if x / flip % 2 == 0 then x + flip else x - flip) < 256
  {
    SmallPowers();
    match k {
      case 0 =>
      case 1 =>
      case 2 =>
      case 3 =>
      case 4 =>
      case 5 =>
      case 6 =>
      case 7 =>
    }
  }

  /** The byte with bit `k`, counted from the left, inverted. */
  function Flipped(x: Byte, k: BitIndex): Byte {
    FlippedByteInRange(x, k);
    var flip := Power2(7 - k);
    if x / flip % 2 == 0 then x + flip else x - flip
  }

  lemma FlippedByte(x: Byte, k: BitIndex)
    ensures MaskByte(x, k) == MaskByte(Flipped(x, k), k) && MaskByte(x, k + 1) != MaskByte(Flipped(x, k), k + 1)
  {
    var c := Flipped(x, k);
    FlippedBit(x, Power2(7 - k));
    MaskByteIsFloor(x, k);
    MaskByteIsFloor(x, k + 1);
    MaskByteIsFloor(c, k);
    MaskByteIsFloor(c, k + 1);
  }

  // ---------- What the predicates mean ----------

  /** Two prefixes overlap exactly when they share an address. */
  lemma OverlapsMeansCommonAddress(p: Prefix, o: Prefix)
    ensures Overlaps(p, o) <==> exists a :: Contains(p, a) && Contains(o, a)
  {
    if Overlaps(p, o) {
      var wide, narrow := if p.bits < o.bits then p else o, if p.bits < o.bits then o else p;
      AgreeOnNone(wide.addr, narrow.addr);
      assert Contains(wide, narrow.addr) && Contains(narrow, narrow.addr);
    }
    if a :| Contains(p, a) && Contains(o, a) {
      var minBits := if p.bits < o.bits then p.bits else o.bits;
      AgreeOnFewer(a, p.addr, minBits, p.bits);
      AgreeOnFewer(a, o.addr, minBits, o.bits);
    }
  }

  /** A valid prefix lies within another exactly when it is no wider and agrees with it on its bits. */
  lemma WithinMeansAgree(inner: Prefix, outer: Prefix)
    requires IsValid(inner)
    ensures Within(inner, outer) <==>
              && IsValid(outer) && |inner.addr| == |outer.addr| && outer.bits <= inner.bits
              && Masked(inner.addr, outer.bits) == Masked(outer.addr, outer.bits)
  {
    assert Contains(inner, inner.addr);
    if IsValid(outer) && |inner.addr| == |outer.addr| && outer.bits <= inner.bits
       && Masked(inner.addr, outer.bits) == Masked(outer.addr, outer.bits) {
      forall a: Addr | Contains(inner, a) ensures Contains(outer, a) {
        AgreeOnFewer(a, inner.addr, outer.bits, inner.bits);
      }
    } else if Within(inner, outer) {
      assert Contains(outer, inner.addr);
      if outer.bits > inner.bits {
        var b := DiffersAtBit(inner.addr, inner.bits);
        assert Contains(inner, b) && Contains(outer, b);
        AgreeOnFewer(b, inner.addr, inner.bits + 1, outer.bits);
        assert false;
      }
    }
  }

  /** `Covers` says that `b` lies within `a`, except that a zero-bit `a` must have the address of `b`. */
  lemma CoversExactly(a: Prefix, b: Prefix)
    ensures Covers(a, b) <==> IsValid(a) && IsValid(b) && Within(b, a) && (a.bits > 0 || a.addr == b.addr)
  {
    if IsValid(b) {
      WithinMeansAgree(b, a);
    }
  }

  lemma CoversIsSound(a: Prefix, b: Prefix)
    requires Covers(a, b)
    ensures Within(b, a)
  {
    CoversExactly(a, b);
  }
}
