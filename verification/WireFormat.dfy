/** The bytes that the tunnel puts on the wire, digit by digit: what another implementation has to write and read. */
module WireFormat {
  import opened Arithmetic
  import opened Handshake
  import opened IpPrefix
  import opened Varint

  // ---------- Numbers ----------

  lemma DivTwice(x: nat, d: nat)
    requires d > 0
    ensures x / 128 / d == x / (128 * d)
  {
    var q, r := x / 128 / d, x / 128 % d;
    assert x == 128 * (x / 128) + x % 128;
    assert x / 128 == d * q + r;
    assert 128 * (d * q + r) == (128 * d) * q + 128 * r;
    DivModUnique(x, 128 * d, q, 128 * r + x % 128);
  }

  /** Byte `i` of a number is its digit of weight 128^i, and all bytes but the last have the high bit set. */
  lemma {:induction false} DigitsExactly(x: nat, i: nat)
    requires i < |Encoded(x)|
    ensures Encoded(x)[i] == x / Room(i) % 128 + if i + 1 < |Encoded(x)| then 128 else 0
    decreases i
  {
    if i > 0 {
      DigitsExactly(x / 128, i - 1);
      DivTwice(x, Room(i - 1));
    }
  }

  /** The first byte without the high bit. */
  function LastByte(b: seq<Byte>): (n: nat)
    ensures n <= |b| && (n < |b| ==> b[n] < 128) && forall k :: 0 <= k < n ==> b[k] >= 128
  {
    if b == [] || b[0] < 128 then 0
    else
      var n := LastByte(b[1..]);
      assert forall k :: 0 < k < |b| ==> b[k] == b[1..][k - 1];
      n + 1
  }

  /** How many bytes a number takes, behind `i` others: up to and including the first one without the high bit. It
      is not complete when there is none, and too large when there are more than ten, or the tenth is more than 1. */
  lemma {:induction false} BytesTakenAt(b: seq<Byte>, i: nat)
    requires i <= 10
    ensures var n := LastByte(b);
            Decoded(b, i).1 == if n == |b| && i + n <= 10 then 0
                               else if i + n < 9 || (i + n == 9 && n < |b| && b[n] <= 1) then i + n + 1
                               else if i + n == 9 then -10
                               else -11
    decreases |b|
  {
    if b != [] && i < 10 && b[0] >= 128 {
      BytesTakenAt(b[1..], i + 1);
      assert LastByte(b) == LastByte(b[1..]) + 1;
      assert LastByte(b) < |b| ==> b[LastByte(b)] == b[1..][LastByte(b) - 1];
    }
  }

  lemma BytesTakenExactly(b: seq<Byte>)
    ensures var n := LastByte(b);
            Decoded(b, 0).1 == if n == |b| && n <= 10 then 0
                               else if n < 9 || (n == 9 && b[9] <= 1) then n + 1
                               else if n == 9 then -10
                               else -11
  {
    BytesTakenAt(b, 0);
  }

  // ---------- The opening message ----------

  lemma SmallNumber(x: nat)
    requires x < 128
    ensures Encoded(x) == [x]
  {
  }

  /** The code, the version, the latency, the time-out, and the id and the session with their lengths, here for
      numbers that take one byte. */
  lemma OpeningMessage(m: Info)
    requires m.version < 128 && 0 <= m.latency < 128 && 0 <= m.timeout < 128 && |m.id| < 128 && |m.session| < 128
    ensures [STREAM_INFO] + Payload(m)
         == [1, m.version, m.latency, m.timeout, |m.id|] + m.id + [|m.session|] + m.session
  {
    SmallNumber(m.version);
    SmallNumber(m.latency);
    SmallNumber(m.timeout);
    SmallNumber(|m.id|);
    SmallNumber(|m.session|);
    assert Head(m) == [m.version, m.latency, m.timeout];
    Regrouped(m.version, m.latency, m.timeout, |m.id|, m.id, |m.session|, m.session);
  }

  lemma Regrouped(v: Byte, l: Byte, t: Byte, i: Byte, id: seq<Byte>, s: Byte, session: seq<Byte>)
    ensures [1] + ([v, l, t] + (([i] + id) + ([s] + session))) == [1, v, l, t, i] + id + [s] + session
  {
  }
}
