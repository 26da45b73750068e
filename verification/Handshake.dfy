/** The stream handshake of pkg/tunnel: the STREAM_INFO message that opens a stream and the STREAM_OK that
    answers it. */
module Handshake {
  import opened Arithmetic
  import opened IpPrefix
  import opened Varint
  import opened Wrappers

  const STREAM_INFO: Byte := 1
  const STREAM_OK: Byte := 2

  /** A time.Duration: nanoseconds in a signed 64-bit integer. */
  type Duration = d: int | -0x8000_0000_0000_0000 <= d < 0x8000_0000_0000_0000

  type Version = v: int | 0 <= v < 65536

  /** The fields of a stream that the handshake sets. */
  datatype Info = Info(version: Version, latency: Duration, timeout: Duration, id: seq<Byte>, session: seq<Byte>)

  function ToUnsigned(d: Duration): nat {
    if d < 0 then d + TWO_TO_THE_64 else d
  }

  function ToSigned(v: nat): Duration
    requires v < TWO_TO_THE_64
  {
    if v < 0x8000_0000_0000_0000 then v else v - TWO_TO_THE_64
  }

  // ---------- Encoding ----------

  function Field(data: seq<Byte>): seq<Byte> {
    Encoded(|data|) + data
  }

  /** The numbers at the front. */
  function Head(m: Info): seq<Byte> {
    Encoded(m.version) + Encoded(ToUnsigned(m.latency)) + Encoded(ToUnsigned(m.timeout))
  }

  function Payload(m: Info): seq<Byte> {
    Head(m) + (Field(m.id) + Field(m.session))
  }

  /** Every number goes through a buffer of eight bytes. */
  predicate FitsBuffer(x: nat) {
    |Encoded(x)| <= 8
  }

  predicate Encodable(m: Info) {
    && FitsBuffer(m.version)
    && FitsBuffer(ToUnsigned(m.latency))
    && FitsBuffer(ToUnsigned(m.timeout))
    && FitsBuffer(|m.id|)
    && FitsBuffer(|m.session|)
  }

  /** Which messages can be encoded: the durations must not be negative, and nothing may need more than 56
      bits. */
  lemma EncodableExactly(m: Info)
    ensures Encodable(m) <==>
              0 <= m.latency < TWO_TO_THE_56 && 0 <= m.timeout < TWO_TO_THE_56 &&
              |m.id| < TWO_TO_THE_56 && |m.session| < TWO_TO_THE_56
  {
    RoomOf8();
    LengthExactly(m.version, 8);
    LengthExactly(ToUnsigned(m.latency), 8);
    LengthExactly(ToUnsigned(m.timeout), 8);
    LengthExactly(|m.id|, 8);
    LengthExactly(|m.session|, 8);
  }

  method Append(b: seq<Byte>, x: nat, buf: array<Byte>) returns (r: Option<seq<Byte>>)
    requires buf.Length == 8
    modifies buf
    ensures r == if FitsBuffer(x) then Some(b + Encoded(x)) else None
  {
    var n := PutUvarint(buf, x);
    if n == None {
      return None;
    }
    r := Some(b + buf[..n.value]);
  }

  method AppendField(b: seq<Byte>, data: seq<Byte>, buf: array<Byte>) returns (r: Option<seq<Byte>>)
    requires buf.Length == 8
    modifies buf
    ensures r == if FitsBuffer(|data|) then Some(b + Field(data)) else None
  {
    r := Append(b, |data|, buf);
    if r == None {
      return;
    }
    assert b + Encoded(|data|) + data == b + Field(data);
    r := Some(r.value + data);
  }

  method StreamInfoMessage(m: Info) returns (r: Option<seq<Byte>>)
    ensures r == if Encodable(m) then Some([STREAM_INFO] + Payload(m)) else None
  {
    var buf := new Byte[8];
    r := Append([STREAM_INFO], m.version, buf);
    if r == None {
      return;
    }
    r := Append(r.value, ToUnsigned(m.latency), buf);
    if r == None {
      return;
    }
    r := Append(r.value, ToUnsigned(m.timeout), buf);
    if r == None {
      return;
    }
    r := AppendField(r.value, m.id, buf);
    if r == None {
      return;
    }
    r := AppendField(r.value, m.session, buf);
    Grouped(m);
  }

  lemma Grouped(m: Info)
    ensures [STREAM_INFO] + Encoded(m.version) + Encoded(ToUnsigned(m.latency)) + Encoded(ToUnsigned(m.timeout)) +
            Field(m.id) + Field(m.session) == [STREAM_INFO] + Payload(m)
  {
  }

  // ---------- Decoding ----------

  /** The payload is a slice, and behind its `spare` capacity there can be more bytes, which slicing up to a
      length beyond the end uncovers. */
  datatype Outcome = Done | Malformed | Panicked

  datatype Number = Number(value: nat, rest: seq<Byte>) | NoNumber

  function TakeNumber(pl: seq<Byte>): (r: Number)
    ensures r.Number? ==> r.value < TWO_TO_THE_64
  {
    var d := Decoded(pl, 0);
    Fits(pl);
    DecodedLength(pl, 0);
    if d.1 <= 0 then NoNumber else Number(d.0, pl[d.1..])
  }

  datatype Chunk = Chunk(data: seq<Byte>, rest: seq<Byte>) | TooLong(length: nat, rest: seq<Byte>) | NoChunk

  /** A field: its length, compared with a payload that still includes the length itself, and its bytes. These
      can be missing, although the comparison succeeds. */
  function TakeField(pl: seq<Byte>): Chunk {
    match TakeNumber(pl)
    case NoNumber => NoChunk
    case Number(v, rest) =>
      if v > |pl| then NoChunk else if v > |rest| then TooLong(v, rest) else Chunk(rest[..v], rest[v..])
  }

  /** What `setConnectInfo` makes of the stream `s`: fields that were read before an error stay set. */
  function Parsed(pl: seq<Byte>, spare: seq<Byte>, s: Info): (Info, Outcome) {
    match TakeNumber(pl)
    case NoNumber => (s, Malformed)
    case Number(v, rest) => ParsedLatency(rest, spare, s.(version := v % 65536))
  }

  function ParsedLatency(pl: seq<Byte>, spare: seq<Byte>, s: Info): (Info, Outcome) {
    match TakeNumber(pl)
    case NoNumber => (s, Malformed)
    case Number(v, rest) => ParsedTimeout(rest, spare, s.(latency := ToSigned(v)))
  }

  function ParsedTimeout(pl: seq<Byte>, spare: seq<Byte>, s: Info): (Info, Outcome) {
    match TakeNumber(pl)
    case NoNumber => (s, Malformed)
    case Number(v, rest) => ParsedId(rest, spare, s.(timeout := ToSigned(v)))
  }

  /** An id that is too long is taken if the capacity allows it, but what follows it cannot be reached. */
  function ParsedId(pl: seq<Byte>, spare: seq<Byte>, s: Info): (Info, Outcome) {
    match TakeField(pl)
    case NoChunk => (s, Malformed)
    case TooLong(v, rest) => (if v <= |rest| + |spare| then s.(id := (rest + spare)[..v]) else s, Panicked)
    case Chunk(id, rest) => ParsedSession(rest, spare, s.(id := id))
  }

  /** Nothing follows the session, so one that is too long is accepted when the capacity allows it. */
  function ParsedSession(pl: seq<Byte>, spare: seq<Byte>, s: Info): (Info, Outcome) {
    match TakeField(pl)
    case NoChunk => (s, Malformed)
    case TooLong(v, rest) =>
      if v <= |rest| + |spare| then (s.(session := (rest + spare)[..v]), Done) else (s, Panicked)
    case Chunk(session, _) => (s.(session := session), Done)
  }

  method ReadNumber(pl: seq<Byte>) returns (r: Number)
    ensures r == TakeNumber(pl)
  {
    var v, n := Uvarint(pl);
    DecodedLength(pl, 0);
    if n <= 0 {
      return NoNumber;
    }
    r := Number(v, pl[n..]);
  }

  class Stream {
    var peerVersion: Version
    var roundtripLatency: Duration
    var dialTimeout: Duration
    var id: seq<Byte>
    var sessionID: seq<Byte>

    ghost function Fields(): Info
      reads this
    {
      Info(peerVersion, roundtripLatency, dialTimeout, id, sessionID)
    }

    method SetConnectInfo(payload: seq<Byte>, spare: seq<Byte>) returns (outcome: Outcome)
      modifies this
      ensures (Fields(), outcome) == Parsed(payload, spare, old(Fields()))
    {
      var v := ReadNumber(payload);
      if v.NoNumber? {
        return Malformed;
      }
      peerVersion := v.value % 65536;
      v := ReadNumber(v.rest);
      if v.NoNumber? {
        return Malformed;
      }
      roundtripLatency := ToSigned(v.value);
      v := ReadNumber(v.rest);
      if v.NoNumber? {
        return Malformed;
      }
      dialTimeout := ToSigned(v.value);
      outcome := SetId(v.rest, spare);
    }

    method SetId(payload: seq<Byte>, spare: seq<Byte>) returns (outcome: Outcome)
      modifies this
      ensures (Fields(), outcome) == ParsedId(payload, spare, old(Fields()))
    {
      var pl := payload;
      var v := ReadNumber(pl);
      if v.NoNumber? || v.value > |pl| {
        return Malformed;
      }
      pl := v.rest;
      if v.value > |pl| + |spare| {
        return Panicked;
      }
      id := (pl + spare)[..v.value];
      if v.value > |pl| {
        return Panicked;
      }
      assert id == pl[..v.value];
      outcome := SetSession(pl[v.value..], spare);
    }

    method SetSession(payload: seq<Byte>, spare: seq<Byte>) returns (outcome: Outcome)
      modifies this`sessionID
      ensures (Fields(), outcome) == ParsedSession(payload, spare, old(Fields()))
    {
      var pl := payload;
      var v := ReadNumber(pl);
      if v.NoNumber? || v.value > |pl| {
        return Malformed;
      }
      pl := v.rest;
      if v.value > |pl| + |spare| {
        return Panicked;
      }
      sessionID := (pl + spare)[..v.value];
      assert v.value <= |pl| ==> sessionID == pl[..v.value];
      outcome := Done;
    }
  }

  // ---------- Round trips ----------

  lemma NumberIsRead(x: nat, rest: seq<Byte>)
    requires x < TWO_TO_THE_64
    ensures TakeNumber(Encoded(x) + rest) == Number(x, rest)
  {
    IsRead(x, rest);
    assert (Encoded(x) + rest)[|Encoded(x)|..] == rest;
  }

  lemma FieldIsRead(data: seq<Byte>, rest: seq<Byte>)
    requires |data| < TWO_TO_THE_64
    ensures TakeField(Field(data) + rest) == Chunk(data, rest)
  {
    assert Field(data) + rest == Encoded(|data|) + (data + rest);
    NumberIsRead(|data|, data + rest);
    assert (data + rest)[..|data|] == data && (data + rest)[|data|..] == rest;
  }

  lemma FieldsAreRead(id: seq<Byte>, session: seq<Byte>, spare: seq<Byte>, s: Info)
    requires |id| < TWO_TO_THE_64 && |session| < TWO_TO_THE_64
    ensures ParsedId(Field(id) + Field(session), spare, s) == (s.(id := id, session := session), Done)
  {
    FieldIsRead(id, Field(session));
    FieldIsRead(session, []);
    assert Field(session) + [] == Field(session);
  }

  lemma TimeoutIsRead(timeout: Duration, rest: seq<Byte>, spare: seq<Byte>, s: Info)
    ensures ParsedTimeout(Encoded(ToUnsigned(timeout)) + rest, spare, s)
         == ParsedId(rest, spare, s.(timeout := timeout))
  {
    NumberIsRead(ToUnsigned(timeout), rest);
  }

  lemma LatencyIsRead(latency: Duration, rest: seq<Byte>, spare: seq<Byte>, s: Info)
    ensures ParsedLatency(Encoded(ToUnsigned(latency)) + rest, spare, s)
         == ParsedTimeout(rest, spare, s.(latency := latency))
  {
    NumberIsRead(ToUnsigned(latency), rest);
  }

  lemma VersionIsRead(version: Version, rest: seq<Byte>, spare: seq<Byte>, s: Info)
    ensures Parsed(Encoded(version) + rest, spare, s) == ParsedLatency(rest, spare, s.(version := version))
  {
    NumberIsRead(version, rest);
    assert version % 65536 == version;
  }

  /** What is read of a message before its id. */
  lemma HeadIsRead(m: Info, rest: seq<Byte>, spare: seq<Byte>, s: Info)
    ensures Parsed(Head(m) + rest, spare, s)
         == ParsedId(rest, spare, Info(m.version, m.latency, m.timeout, s.id, s.session))
  {
    var fromTimeout := Encoded(ToUnsigned(m.timeout)) + rest;
    var fromLatency := Encoded(ToUnsigned(m.latency)) + fromTimeout;
    assert Head(m) + rest == Encoded(m.version) + fromLatency;
    var s1 := s.(version := m.version);
    VersionIsRead(m.version, fromLatency, spare, s);
    LatencyIsRead(m.latency, fromTimeout, spare, s1);
    TimeoutIsRead(m.timeout, rest, spare, s1.(latency := m.latency));
  }

  /** Whatever the encoder can encode, the decoder reads back exactly, into any stream and whatever is behind
      the payload. */
  lemma HandshakeRoundTrip(m: Info, spare: seq<Byte>, s: Info)
    requires Encodable(m)
    ensures Parsed(Payload(m), spare, s) == (m, Done)
  {
    EncodableExactly(m);
    HeadIsRead(m, Field(m.id) + Field(m.session), spare, s);
    FieldsAreRead(m.id, m.session, spare, Info(m.version, m.latency, m.timeout, s.id, s.session));
  }

  /** So a message that arrives determines what was sent. */
  lemma MessagesDiffer(m: Info, n: Info)
    requires Encodable(m) && Encodable(n) && Payload(m) == Payload(n)
    ensures m == n
  {
    HandshakeRoundTrip(m, [], m);
    HandshakeRoundTrip(n, [], m);
  }

  // ---------- Truncated messages ----------

  lemma NumberExtends(pl: seq<Byte>, more: seq<Byte>)
    requires TakeNumber(pl).Number?
    ensures TakeNumber(pl + more) == Number(TakeNumber(pl).value, TakeNumber(pl).rest + more)
  {
    DecodedExtends(pl, more, 0);
    DecodedLength(pl, 0);
    var n := Decoded(pl, 0).1;
    assert (pl + more)[n..] == pl[n..] + more;
  }

  lemma FieldExtends(pl: seq<Byte>, more: seq<Byte>)
    requires TakeField(pl).Chunk?
    ensures TakeField(pl + more) == Chunk(TakeField(pl).data, TakeField(pl).rest + more)
  {
    NumberExtends(pl, more);
  }

  /** Where the cut is, when a number in front of it was complete. */
  lemma CutIsBehind(x: nat, after: seq<Byte>, pl: seq<Byte>, cut: seq<Byte>)
    requires x < TWO_TO_THE_64 && pl + cut == Encoded(x) + after
    requires TakeNumber(pl).Number?
    ensures TakeNumber(pl) == Number(x, TakeNumber(pl).rest) && TakeNumber(pl).rest + cut == after
  {
    NumberExtends(pl, cut);
    NumberIsRead(x, after);
  }

  /** A field that lost bytes at its end, but not its length: nothing is taken, or it is too long. */
  lemma CutField(data: seq<Byte>, have: seq<Byte>)
    requires |data| < TWO_TO_THE_64 && |have| < |data|
    ensures TakeField(Encoded(|data|) + have) ==
              if |data| - |have| <= |Encoded(|data|)| then TooLong(|data|, have) else NoChunk
  {
    NumberIsRead(|data|, have);
  }

  /** A cut that leaves the length of a field complete. */
  lemma CutInside(data: seq<Byte>, pl: seq<Byte>, cut: seq<Byte>)
    requires |data| < TWO_TO_THE_64 && pl + cut == Field(data) && |cut| <= |data|
    ensures pl == Encoded(|data|) + data[..|data| - |cut|]
  {
    CutSuffix(Encoded(|data|), data, pl, cut);
  }

  /** A cut that reaches into the length of a field leaves no number. */
  lemma CutInLength(data: seq<Byte>, pl: seq<Byte>, cut: seq<Byte>)
    requires |data| < TWO_TO_THE_64 && pl + cut == Field(data) && |cut| > |data|
    ensures TakeField(pl) == NoChunk
  {
    if TakeNumber(pl).Number? {
      CutIsBehind(|data|, data, pl, cut);
    }
  }

  /** What becomes of a session that was cut short. */
  lemma TruncatedSession(session: seq<Byte>, pl: seq<Byte>, cut: seq<Byte>, spare: seq<Byte>, s: Info)
    requires |session| < TWO_TO_THE_64 && pl + cut == Field(session) && cut != []
    ensures ParsedSession(pl, spare, s) ==
              if |cut| > |session| || |cut| > |Encoded(|session|)| then (s, Malformed)
              else if |cut| > |spare| then (s, Panicked)
              else (s.(session := session[..|session| - |cut|] + spare[..|cut|]), Done)
  {
    if |cut| > |session| {
      CutInLength(session, pl, cut);
    } else {
      CutInside(session, pl, cut);
      var have := session[..|session| - |cut|];
      CutField(session, have);
      if |cut| <= |spare| {
        assert (have + spare)[..|session|] == have + spare[..|cut|];
      }
    }
  }

  lemma CutSuffix(front: seq<Byte>, back: seq<Byte>, pl: seq<Byte>, cut: seq<Byte>)
    requires pl + cut == front + back && |cut| <= |back|
    ensures pl == front + back[..|back| - |cut|] && back[..|back| - |cut|] + cut == back
  {
    var n := |front| + |back| - |cut|;
    assert pl == (pl + cut)[..n] && cut == (pl + cut)[n..];
    assert (front + back)[..n] == front + back[..|back| - |cut|];
    assert (front + back)[n..] == back[|back| - |cut|..];
  }

  /** A cut in front of the session leaves nothing that could be accepted. */
  lemma TruncatedId(id: seq<Byte>, session: seq<Byte>, pl: seq<Byte>, cut: seq<Byte>, spare: seq<Byte>, s: Info)
    requires |id| < TWO_TO_THE_64 && |session| < TWO_TO_THE_64
    requires pl + cut == Field(id) + Field(session)
    ensures if |cut| <= |Field(session)| then
              && pl == Field(id) + Field(session)[..|Field(session)| - |cut|]
              && ParsedId(pl, spare, s)
              == ParsedSession(Field(session)[..|Field(session)| - |cut|], spare, s.(id := id))
            else ParsedId(pl, spare, s).1 != Done
  {
    if |cut| <= |Field(session)| {
      CutSuffix(Field(id), Field(session), pl, cut);
      FieldIsRead(id, Field(session)[..|Field(session)| - |cut|]);
    } else if TakeField(pl).Chunk? {
      FieldExtends(pl, cut);
      FieldIsRead(id, Field(session));
    }
  }

  /** A cut in the numbers at the front. */
  lemma TruncatedHead(m: Info, pl: seq<Byte>, cut: seq<Byte>, spare: seq<Byte>, s: Info)
    requires pl + cut == Head(m) && cut != []
    ensures Parsed(pl, spare, s).1 == Malformed
  {
    var latency, timeout := ToUnsigned(m.latency), ToUnsigned(m.timeout);
    assert Head(m) == Encoded(m.version) + (Encoded(latency) + Encoded(timeout));
    if TakeNumber(pl).Number? {
      CutIsBehind(m.version, Encoded(latency) + Encoded(timeout), pl, cut);
      var pl1 := TakeNumber(pl).rest;
      if TakeNumber(pl1).Number? {
        CutIsBehind(latency, Encoded(timeout), pl1, cut);
        var pl2 := TakeNumber(pl1).rest;
        assert Encoded(timeout) + [] == Encoded(timeout);
        if TakeNumber(pl2).Number? {
          CutIsBehind(timeout, [], pl2, cut);
        }
      }
    }
  }

  /** A message that was cut short is accepted exactly when the cut takes nothing but bytes of the session, not
      more of them than the encoding of its length has, and the slice has that many bytes of spare capacity,
      which then take their place. */
  lemma TruncatedExactly(m: Info, pl: seq<Byte>, cut: seq<Byte>, spare: seq<Byte>, s: Info)
    requires Encodable(m) && pl + cut == Payload(m) && cut != []
    ensures Parsed(pl, spare, s).1 == Done <==>
              |cut| <= |m.session| && |cut| <= |Encoded(|m.session|)| && |cut| <= |spare|
    ensures Parsed(pl, spare, s).1 == Done ==>
              Parsed(pl, spare, s).0 == m.(session := m.session[..|m.session| - |cut|] + spare[..|cut|])
  {
    EncodableExactly(m);
    var fields := Field(m.id) + Field(m.session);
    if |cut| <= |fields| {
      var left := fields[..|fields| - |cut|];
      CutSuffix(Head(m), fields, pl, cut);
      HeadIsRead(m, left, spare, s);
      TruncatedFields(m, left, cut, spare, Info(m.version, m.latency, m.timeout, s.id, s.session));
    } else {
      var gone := Head(m)[|pl|..];
      assert pl == Payload(m)[..|pl|] == Head(m)[..|pl|];
      assert pl + gone == Head(m);
      TruncatedHead(m, pl, gone, spare, s);
    }
  }

  lemma TruncatedFields(m: Info, pl: seq<Byte>, cut: seq<Byte>, spare: seq<Byte>, s: Info)
    requires |m.id| < TWO_TO_THE_64 && |m.session| < TWO_TO_THE_64
    requires pl + cut == Field(m.id) + Field(m.session) && cut != []
    ensures var r := ParsedId(pl, spare, s);
            && (r.1 == Done <==> |cut| <= |m.session| && |cut| <= |Encoded(|m.session|)| && |cut| <= |spare|)
            && (r.1 == Done ==> r.0 == s.(id := m.id, session := m.session[..|m.session| - |cut|] + spare[..|cut|]))
  {
    TruncatedId(m.id, m.session, pl, cut, spare, s);
    if |cut| <= |Field(m.session)| {
      CutSuffix(Field(m.id), Field(m.session), pl, cut);
      TruncatedSession(m.session, Field(m.session)[..|Field(m.session)| - |cut|], cut, spare, s.(id := m.id));
    }
  }

  /** The smallest case: a message without its last byte, and one other byte in the spare capacity. */
  lemma LastByteIsReplaced(m: Info, other: Byte, s: Info)
    requires Encodable(m) && m.session != []
    ensures var pl := Payload(m)[..|Payload(m)| - 1];
            Parsed(pl, [other], s) == (m.(session := m.session[..|m.session| - 1] + [other]), Done)
  {
    var n := |Payload(m)| - 1;
    var cut := [Payload(m)[n]];
    assert Payload(m)[..n] + cut == Payload(m);
    TruncatedExactly(m, Payload(m)[..n], cut, [other], s);
    assert [other][..1] == [other];
  }

  // ---------- The answer ----------

  /** The payload buffer of `StreamOKMessage` has four bytes. */
  method StreamOKMessage(version: Version) returns (r: Option<seq<Byte>>)
    ensures r == Some([STREAM_OK] + Encoded(version))
  {
    var payload := new Byte[4];
    var n := PutUvarint(payload, version);
    RoomOf8();
    LengthExactly(version, 3);
    r := Some([STREAM_OK] + payload[..n.value]);
  }

  method GetVersion(message: seq<Byte>) returns (version: Version)
    requires message != []
    ensures version == Decoded(message[1..], 0).0 % 65536
  {
    var v, _ := Uvarint(message[1..]);
    version := v % 65536;
  }

  /** The version that a peer answers with is the version that is read. */
  method AnswerRoundTrip(version: Version) returns (v: Version)
    ensures v == version
  {
    var m := StreamOKMessage(version);
    v := GetVersion(m.value);
    IsRead(version, []);
    assert m.value[1..] == Encoded(version) + [];
  }
}
