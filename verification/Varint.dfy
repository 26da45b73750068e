/** The variable-length integers of Go's encoding/binary, which the tunnel handshake is made of: seven bits a
    byte, least significant first, the high bit set on all but the last. */
module Varint {
  import opened Arithmetic
  import opened IpPrefix
  import opened Wrappers

  const TWO_TO_THE_56: nat := 0x100_0000_0000_0000

  function Encoded(x: nat): (b: seq<Byte>)
    ensures |b| >= 1
  {
    if x < 128 then [x] else [128 + x % 128] + Encoded(x / 128)
  }

  /** How large a number `n` bytes can hold. */
  function Room(n: nat): (r: nat)
    ensures r >= 1
  {
    if n == 0 then 1 else 128 * Room(n - 1)
  }

  lemma {:induction false} LengthExactly(x: nat, n: nat)
    requires n >= 1
    ensures |Encoded(x)| <= n <==> x < Room(n)
    decreases n
  {
    if n > 1 {
      if x >= 128 {
        LengthExactly(x / 128, n - 1);
      }
    } else {
      assert Room(1) == 128 * Room(0);
    }
  }

  lemma RoomOf8()
    ensures Room(8) == TWO_TO_THE_56
    ensures Room(3) == 0x20_0000
  {
    assert Room(1) == 128;
    assert Room(2) == 0x4000;
    assert Room(4) == 0x1000_0000;
    assert Room(6) == 0x400_0000_0000;
  }

  /** `binary.PutUvarint`: the index runs out of a buffer that is too small, which is a panic. */
  method PutUvarint(buf: array<Byte>, value: nat) returns (r: Option<nat>)
    modifies buf
    ensures r.Some? <==> |Encoded(value)| <= buf.Length
    ensures r.Some? ==> r.value == |Encoded(value)| && buf[..r.value] == Encoded(value)
  {
    var i, x := 0, value;
    while x >= 128
      invariant 0 <= i <= buf.Length
      invariant buf[..i] + Encoded(x) == Encoded(value)
    {
      if i == buf.Length {
        return None;
      }
      ghost var before := buf[..i];
      buf[i] := 128 + x % 128;
      assert buf[..i + 1] == before + [128 + x % 128];
      i, x := i + 1, x / 128;
    }
    if i == buf.Length {
      return None;
    }
    ghost var before := buf[..i];
    buf[i] := x;
    assert buf[..i + 1] == before + [x];
    r := Some(i + 1);
  }

  /** `binary.Uvarint` from byte `i` on. The number of bytes is zero when the number is not complete, and
      negative when it does not fit in 64 bits. */
  function Decoded(b: seq<Byte>, i: nat): (r: (nat, int)) {
    if b == [] then (0, 0)
    else if i == 10 then (0, -11)
    else if b[0] < 128 then
      if i == 9 && b[0] > 1 then (0, -10) else (b[0], i + 1)
    else Shifted(b[0] - 128, 128, Decoded(b[1..], i + 1))
  }

  function Plus(x: nat, scale: nat, d: nat): nat {
    x + scale * d
  }

  function Shifted(x: nat, scale: nat, r: (nat, int)): (nat, int) {
    if r.1 <= 0 then (0, r.1) else (Plus(x, scale, r.0), r.1)
  }

  lemma ShiftedTwice(x: nat, scale: nat, low: nat, r: (nat, int))
    ensures Shifted(x, scale, Shifted(low, 128, r)) == Shifted(Plus(x, scale, low), 128 * scale, r)
  {
    assert scale * (low + 128 * r.0) == scale * low + 128 * scale * r.0;
  }

  /** The result is a prefix of the input's length and, from the first byte, at most ten bytes. */
  lemma {:induction false} DecodedLength(b: seq<Byte>, i: nat)
    requires i <= 10
    ensures Decoded(b, i).1 <= i + |b| && Decoded(b, i).1 <= 10
    decreases |b|
  {
    if b != [] && i < 10 {
      DecodedLength(b[1..], i + 1);
    }
  }

  lemma OneMoreByte(buf: seq<Byte>, i: nat, x: nat, scale: nat)
    requires i < |buf| && i < 10 && buf[i] >= 128
    ensures Shifted(x, scale, Decoded(buf[i..], i))
         == Shifted(Plus(x, scale, buf[i] - 128), 128 * scale, Decoded(buf[i + 1..], i + 1))
  {
    assert buf[i..][1..] == buf[i + 1..];
    ShiftedTwice(x, scale, buf[i] - 128, Decoded(buf[i + 1..], i + 1));
  }

  /** The loop keeps the bits of the bytes seen so far; `scale` is the next byte's weight. (A tenth byte with
      the high bit set would not fit in 64 bits, and what it is added to is then not returned.) */
  method Uvarint(buf: seq<Byte>) returns (v: nat, n: int)
    ensures (v, n) == Decoded(buf, 0)
  {
    var x: nat, scale: nat := 0, 1;
    assert buf[0..] == buf;
    for i := 0 to |buf|
      invariant i <= 10
      invariant Shifted(x, scale, Decoded(buf[i..], i)) == Decoded(buf, 0)
    {
      if i == 10 || buf[i] < 128 {
        if i == 10 {
          return 0, -11;
        }
        if i == 9 && buf[i] > 1 {
          return 0, -10;
        }
        return Plus(x, scale, buf[i]), i + 1;
      }
      OneMoreByte(buf, i, x, scale);
      x, scale := Plus(x, scale, buf[i] - 128), 128 * scale;
    }
    v, n := 0, 0;
  }

  /** What fits in 64 bits behind `i` bytes. */
  function Rest(i: nat): (r: nat)
    requires i <= 9
    ensures r >= 2
    decreases 9 - i
  {
    if i == 9 then 2 else 128 * Rest(i + 1)
  }

  lemma {:induction false} IsReadAt(x: nat, rest: seq<Byte>, i: nat)
    requires i <= 9 && x < Rest(i)
    ensures Decoded(Encoded(x) + rest, i) == (x, i + |Encoded(x)|)
    decreases x
  {
    var b := Encoded(x) + rest;
    if x >= 128 {
      IsReadAt(x / 128, rest, i + 1);
      assert b[1..] == Encoded(x / 128) + rest;
      assert b[0] == 128 + x % 128;
    }
  }

  /** Every 64-bit number is read back, whatever follows it. */
  lemma IsRead(x: nat, rest: seq<Byte>)
    requires x < TWO_TO_THE_64
    ensures Decoded(Encoded(x) + rest, 0) == (x, |Encoded(x)|)
  {
    IsReadAt(x, rest, 0);
  }

  lemma {:induction false} FitsAt(b: seq<Byte>, i: nat)
    requires i <= 9
    ensures Decoded(b, i).0 < Rest(i)
    decreases |b|
  {
    if b == [] {
    } else if b[0] < 128 {
      assert i < 9 ==> Rest(i) == 128 * Rest(i + 1);
    } else if i == 9 {
      assert Decoded(b, 9) == Shifted(b[0] - 128, 128, Decoded(b[1..], 10));
    } else {
      FitsAt(b[1..], i + 1);
    }
  }

  /** The result is a 64-bit number. */
  lemma Fits(b: seq<Byte>)
    ensures Decoded(b, 0).0 < TWO_TO_THE_64
  {
    FitsAt(b, 0);
  }

  /** A complete number is complete whatever follows. */
  lemma {:induction false} DecodedExtends(b: seq<Byte>, more: seq<Byte>, i: nat)
    requires Decoded(b, i).1 > 0
    ensures Decoded(b + more, i) == Decoded(b, i)
    decreases |b|
  {
    if b[0] >= 128 {
      assert (b + more)[1..] == b[1..] + more;
      DecodedExtends(b[1..], more, i + 1);
    }
  }
}
