/** Bitfield256 of pkg/subnet: a set of bytes kept as four 64-bit words. A word is its sequence of
    bits, least significant first, so that `g&(1<<bit) != 0` is `g[bit]`. */
module Bitfield {
  import opened Arithmetic
  import opened IpPrefix

  type Word = w: seq<bool> | |w| == 64 witness seq(64, i => false)

  type Words = ws: seq<Word> | |ws| == 4 witness seq(4, i => seq(64, j => false))

  const EMPTY: Words := seq(4, i => seq(64, j => false))

  predicate Has(ws: Words, b: Byte) {
    ws[b / 64][b % 64]
  }

  /** The bytes that the bitfield represents. */
  ghost function Members(ws: Words): set<Byte> {
    set b: Byte | Has(ws, b)
  }

  function Put(ws: Words, b: Byte, on: bool): Words {
    ws[b / 64 := ws[b / 64][b % 64 := on]]
  }

  // ---------- Bits of a byte ----------

  predicate Bit(b: Byte, t: BitIndex) {
    b / Power2(t) % 2 == 1
  }

  /** One more leading bit. */
  lemma MaskByteNext(b: Byte, n: BitIndex)
    ensures MaskByte(b, n + 1) == MaskByte(b, n) + if Bit(b, 7 - n) then Power2(7 - n) else 0
  {
    MaskByteIsFloor(b, n);
    MaskByteIsFloor(b, n + 1);
    assert Power2(8 - n) == 2 * Power2(7 - n);
    FloorNext(b, Power2(7 - n));
  }

  /** `value` is the `n` leading bits of every byte of the set. */
  ghost predicate CommonMask(ms: set<Byte>, n: BitCount, value: Byte) {
    MaskByte(value, n) == value && forall b :: b in ms ==> MaskByte(b, n) == value
  }

  /** Two bytes of the set differ in their `n` leading bits. */
  ghost predicate Differ(ms: set<Byte>, n: BitCount) {
    exists b, c :: b in ms && c in ms && MaskByte(b, n) != MaskByte(c, n)
  }

  /** What `Mask` promises: `ones` leading bits are common to all members, and no more are. */
  ghost predicate IsMask(ms: set<Byte>, ones: nat, value: Byte) {
    ones <= 8 && CommonMask(ms, ones, value) && (ones < 8 ==> Differ(ms, ones + 1))
  }

  /** One round of `Mask`: do all members agree on bit `t`, and what is it? */
  method CommonBit(ws: Words, t: BitIndex) returns (same: bool, hasBit: bool)
    ensures same ==> forall b :: b in Members(ws) ==> Bit(b, t) == hasBit
    ensures same && Members(ws) == {} ==> !hasBit
    ensures !same ==> Disagreed(ws, t)
  {
    hasBit := false;
    var first := true;
    ghost var seen: Byte := 0;
    for i := 0 to 4
      invariant Agreed(ws, t, 64 * i, first, hasBit, seen)
    {
      if true in ws[i] {
        same, first, hasBit, seen := CommonInWord(ws, t, i, first, hasBit, seen);
        if !same {
          return;
        }
      } else {
        assert forall b: Byte :: 64 * i <= b < 64 * i + 64 ==> !Has(ws, b);
      }
    }
    assert !first ==> seen in Members(ws);
    same := true;
  }

  /** The members below `n` agree on the bit; `seen` is one of them, if there are any. */
  ghost predicate Agreed(ws: Words, t: BitIndex, n: int, first: bool, hasBit: bool, seen: Byte) {
    if first then !hasBit && forall b: Byte :: b < n ==> !Has(ws, b)
    else Has(ws, seen) && Bit(seen, t) == hasBit && forall b: Byte :: b < n && Has(ws, b) ==> Bit(b, t) == hasBit
  }

  ghost predicate Disagreed(ws: Words, t: BitIndex) {
    exists b, c :: b in Members(ws) && c in Members(ws) && Bit(b, t) != Bit(c, t)
  }

  /** The loop over one word. */
  method CommonInWord(ws: Words, t: nat, i: nat, first0: bool, hasBit0: bool, ghost seen0: Byte)
      returns (same: bool, first: bool, hasBit: bool, ghost seen: Byte)
    requires t <= 7 && i < 4 && Agreed(ws, t, 64 * i, first0, hasBit0, seen0)
    ensures if same then Agreed(ws, t, 64 * i + 64, first, hasBit, seen) else Disagreed(ws, t)
  {
    first, hasBit, seen := first0, hasBit0, seen0;
    for bit := 0 to 64
      invariant Agreed(ws, t, 64 * i + bit, first, hasBit, seen)
    {
      var bv: Byte := 64 * i + bit;
      if ws[i][bit] {
        if first {
          first := false;
          hasBit := Bit(bv, t);
          seen := bv;
        } else if hasBit != Bit(bv, t) {
          assert seen in Members(ws) && bv in Members(ws);
          same := false;
          return;
        }
      }
    }
    same := true;
  }

  /** `Bitfield256.Mask`. */
  method Mask(ws: Words) returns (ones: nat, value: Byte)
    ensures IsMask(Members(ws), ones, value)
    ensures Members(ws) == {} ==> ones == 8 && value == 0
  {
    value := 0;
    for n := 0 to 8
      invariant CommonMask(Members(ws), n, value)
      invariant Members(ws) == {} ==> value == 0
    {
      var same, hasBit := CommonBit(ws, 7 - n);
      if !same {
        DifferentBits(Members(ws), n, value);
        return n, value;
      }
      NextBitCommon(Members(ws), n, value, hasBit);
      if hasBit {
        value := value + Power2(7 - n);
      }
    }
    ones := 8;
  }

  /** Half a step up from a multiple of 2f, of which 256 has `m`. */
  lemma HalfStep(x: int, f: int, m: int)
    requires 0 < f && 2 * f * m == 256 && 0 <= x < 256 && x % (2 * f) == 0
    ensures x + f < 256 && x % f == 0 && (x + f) % f == 0
  {
    var q := x / (2 * f);
    assert x == 2 * f * q;
    assert 2 * f * (q - m + 1) == x - 256 + 2 * f;
    MulMono(2 * f, q - m + 1);
    DivModUnique(x, f, 2 * q, 0);
    DivModUnique(x + f, f, 2 * q + 1, 0);
  }

  /** Adding the next bit to a masked byte keeps it a masked byte. */
  lemma ExtendMask(value: Byte, n: nat)
    requires n <= 7 && MaskByte(value, n) == value
    ensures value + Power2(7 - n) < 256
    ensures MaskByte(value, n + 1) == value && MaskByte(value + Power2(7 - n), n + 1) == value + Power2(7 - n)
  {
    SmallPowers();
    match n {
      case 0 =>
      case 1 => HalfStep(value, 64, 2);
      case 2 => HalfStep(value, 32, 4);
      case 3 => HalfStep(value, 16, 8);
      case 4 => HalfStep(value, 8, 16);
      case 5 => HalfStep(value, 4, 32);
      case 6 => HalfStep(value, 2, 64);
      case 7 => HalfStep(value, 1, 128);
    }
  }

  lemma NextBitCommon(ms: set<Byte>, n: nat, value: Byte, hasBit: bool)
    requires n <= 7 && CommonMask(ms, n, value)
    requires forall b :: b in ms ==> Bit(b, 7 - n) == hasBit
    ensures var v := value + if hasBit then Power2(7 - n) else 0;
            0 <= v < 256 && CommonMask(ms, n + 1, v)
  {
    ExtendMask(value, n);
    forall b | b in ms ensures MaskByte(b, n + 1) == value + if hasBit then Power2(7 - n) else 0 {
      MaskByteNext(b, n);
    }
  }

  lemma DifferentBits(ms: set<Byte>, n: nat, value: Byte)
    requires n <= 7 && CommonMask(ms, n, value)
    requires exists b, c :: b in ms && c in ms && Bit(b, 7 - n) != Bit(c, 7 - n)
    ensures Differ(ms, n + 1)
  {
    var b, c :| b in ms && c in ms && Bit(b, 7 - n) != Bit(c, 7 - n);
    MaskByteNext(b, n);
    MaskByteNext(c, n);
    assert MaskByte(b, n + 1) != MaskByte(c, n + 1);
  }

  // ---------- The object ----------

  /** What a subnet key maps to in CoveringPrefixes: a reference to one Bitfield256 for IPv4 and to an array
      of seven for IPv6, one for each byte after the key except the last. */
  class ByteSets {
    var sets: seq<Words>

    constructor (count: nat)
      ensures |sets| == count && forall i :: 0 <= i < count ==> Members(sets[i]) == {}
    {
      sets := seq(count, i => EMPTY);
    }

    /** `SetBit` on each bitfield with the byte at the same position. */
    method SetBits(bytes: seq<Byte>)
      requires |bytes| == |sets|
      modifies this
      ensures |sets| == old(|sets|)
      ensures forall i :: 0 <= i < |sets| ==> Members(sets[i]) == old(Members(sets[i])) + {bytes[i]}
    {
      for i := 0 to |bytes|
        invariant |sets| == |bytes|
        invariant forall j :: 0 <= j < |sets| ==>
          Members(sets[j]) == if j < i then old(Members(sets[j])) + {bytes[j]} else old(Members(sets[j]))
      {
        sets := sets[i := Put(sets[i], bytes[i], true)];
      }
    }
  }
}
