/** ConnID of pkg/tunnel: protocol, source and destination packed into a string of bytes. */
module ConnId {
  import opened IpPrefix
  import opened Wrappers

  type Port = p: int | 0 <= p < 65536

  datatype AddrPort = AddrPort(addr: Addr, port: Port)

  datatype Parts = Parts(proto: Byte, src: AddrPort, dst: AddrPort)

  // ---------- Addresses ----------

  const MAPPED_PREFIX: seq<Byte> := [0, 0, 0, 0, 0, 0, 0, 0, 0, 0, 255, 255]

  predicate Is6(a: Addr) {
    |a| == 16
  }

  /** An IPv4-mapped IPv6 address. */
  predicate Is4In6(a: Addr) {
    |a| == 16 && a[..12] == MAPPED_PREFIX
  }

  function Unmap(a: Addr): Addr {
    if Is4In6(a) then a[12..] else a
  }

  function As16(a: Addr): (r: Addr)
    requires a != []
    ensures |r| == 16
  {
    if Is4(a) then MAPPED_PREFIX + a else a
  }

  /** Both addresses in the family that they will be stored in: four bytes each when both are IPv4 in some
      form, otherwise 16 bytes each. */
  function Family(src: Addr, dst: Addr): (r: (Addr, Addr)) {
    if Is4(src) then
      if Is4In6(dst) then (src, Unmap(dst)) else if Is6(dst) then (As16(src), dst) else (src, dst)
    else if Is4In6(src) then
      if Is4(dst) then (Unmap(src), dst) else if Is4In6(dst) then (Unmap(src), Unmap(dst)) else (src, dst)
    else if Is4(dst) then (src, As16(dst))
    else (src, dst)
  }

  lemma FamilyIsOneFamily(src: Addr, dst: Addr)
    requires src != [] && dst != []
    ensures var (s, d) := Family(src, dst);
            Unmap(s) == Unmap(src) && Unmap(d) == Unmap(dst) &&
            if Is4(Unmap(src)) && Is4(Unmap(dst)) then Is4(s) && Is4(d)
            else s == As16(Unmap(src)) && d == As16(Unmap(dst))
  {
  }

  // ---------- The layout ----------

  function PortBytes(p: Port): (b: seq<Byte>)
    ensures |b| == 2
  {
    [p / 256, p % 256]
  }

  function PortOf(high: Byte, low: Byte): Port {
    var h: int := high;
    256 * h + low
  }

  function Layout(proto: Byte, src: Addr, srcPort: Port, dst: Addr, dstPort: Port): (id: seq<Byte>) {
    src + PortBytes(srcPort) + dst + PortBytes(dstPort) + [proto]
  }

  /** What NewConnID returns: nothing, a panic, for an invalid address. */
  function Encoded(p: Parts): Option<seq<Byte>> {
    var (s, d) := Family(p.src.addr, p.dst.addr);
    if s == [] || d == [] then None else Some(Layout(p.proto, s, p.src.port, d, p.dst.port))
  }

  /** The built-in `copy`. */
  method Copy(bs: array<Byte>, at: nat, data: seq<Byte>)
    requires at + |data| <= bs.Length
    modifies bs
    ensures bs[at..at + |data|] == data
    ensures bs[..at] == old(bs[..at])
  {
    for i := 0 to |data|
      invariant bs[at..at + i] == data[..i]
      invariant bs[..at] == old(bs[..at])
    {
      bs[at + i] := data[i];
      assert data[..i + 1] == data[..i] + [data[i]];
      assert bs[at..at + i + 1] == bs[at..at + i] + [bs[at + i]];
    }
  }

  /** Writes one more field behind the `at` bytes that are already there. */
  method Append(bs: array<Byte>, at: nat, data: seq<Byte>) returns (next: nat)
    requires at + |data| <= bs.Length
    modifies bs
    ensures next == at + |data|
    ensures bs[..next] == old(bs[..at]) + data
  {
    Copy(bs, at, data);
    next := at + |data|;
    assert bs[..next] == bs[..at] + bs[at..next];
  }

  method NewConnID(proto: Byte, src: AddrPort, dst: AddrPort) returns (id: Option<seq<Byte>>)
    ensures id == Encoded(Parts(proto, src, dst))
  {
    var (srcAddr, dstAddr) := Family(src.addr, dst.addr);
    if srcAddr == [] || dstAddr == [] {
      return None;
    }
    var bs := new Byte[|srcAddr| + |dstAddr| + 5];
    assert bs[..0] == [];
    var at := Append(bs, 0, srcAddr);
    assert bs[..at] == srcAddr;
    at := Append(bs, at, PortBytes(src.port));
    at := Append(bs, at, dstAddr);
    at := Append(bs, at, PortBytes(dst.port));
    at := Append(bs, at, [proto]);
    assert bs[..at] == bs[..];
    id := Some(bs[..]);
  }

  // ---------- Accessors ----------

  function SourceAddr(id: seq<Byte>): Addr
    requires |id| == 13 || |id| >= 16
  {
    if |id| == 13 then id[..4] else Unmap(id[..16])
  }

  function SourcePort(id: seq<Byte>): Port
    requires |id| == 13 || |id| >= 18
  {
    if |id| == 13 then PortOf(id[4], id[5]) else PortOf(id[16], id[17])
  }

  function DestinationAddr(id: seq<Byte>): Addr
    requires |id| == 13 || |id| >= 34
  {
    if |id| == 13 then id[6..10] else Unmap(id[18..34])
  }

  function DestinationPort(id: seq<Byte>): Port
    requires |id| == 13 || |id| >= 36
  {
    if |id| == 13 then PortOf(id[10], id[11]) else PortOf(id[34], id[35])
  }

  function Protocol(id: seq<Byte>): Byte
    requires id != []
  {
    id[|id| - 1]
  }

  /** Everything that can be read from an id. */
  function Decoded(id: seq<Byte>): Parts
    requires |id| == 13 || |id| >= 36
  {
    Parts(Protocol(id), AddrPort(SourceAddr(id), SourcePort(id)), AddrPort(DestinationAddr(id), DestinationPort(id)))
  }

  function Swapped(p: Parts): Parts {
    Parts(p.proto, p.dst, p.src)
  }

  function Unmapped(p: Parts): Parts {
    p.(src := AddrPort(Unmap(p.src.addr), p.src.port), dst := AddrPort(Unmap(p.dst.addr), p.dst.port))
  }

  predicate Valid(p: Parts) {
    p.src.addr != [] && p.dst.addr != []
  }

  /** `Reply`: a new id with source and destination exchanged. */
  function Reply(id: seq<Byte>): (r: seq<Byte>)
    requires |id| == 13 || |id| >= 36
    ensures Encoded(Swapped(Decoded(id))) == Some(r)
    ensures |r| == 13 || |r| == 37
  {
    var encoded := Encoded(Swapped(Decoded(id)));
    FamilyIsOneFamily(DestinationAddr(id), SourceAddr(id));
    encoded.value
  }

  // ---------- Round trips ----------

  /** Where the fields are. */
  lemma LayoutParts(proto: Byte, src: Addr, srcPort: Port, dst: Addr, dstPort: Port)
    ensures var id, n, m := Layout(proto, src, srcPort, dst, dstPort), |src|, |src| + 2 + |dst|;
            && |id| == m + 3 && id[..n] == src && id[n + 2..m] == dst && id[m + 2] == proto
            && id[n] == PortBytes(srcPort)[0] && id[n + 1] == PortBytes(srcPort)[1]
            && id[m] == PortBytes(dstPort)[0] && id[m + 1] == PortBytes(dstPort)[1]
  {
    var id, sp, dp := Layout(proto, src, srcPort, dst, dstPort), PortBytes(srcPort), PortBytes(dstPort);
    assert id == src + sp + (dst + dp + [proto]);
    assert id == (src + sp) + dst + (dp + [proto]);
  }

  lemma LayoutIsRead(proto: Byte, src: Addr, srcPort: Port, dst: Addr, dstPort: Port)
    requires |src| == |dst| && src != []
    ensures var id := Layout(proto, src, srcPort, dst, dstPort);
            |id| == 2 * |src| + 5 &&
            Decoded(id) == Parts(proto, AddrPort(Unmap(src), srcPort), AddrPort(Unmap(dst), dstPort))
  {
    LayoutParts(proto, src, srcPort, dst, dstPort);
  }

  /** An id exists exactly for valid addresses; it has 13 bytes exactly when both are IPv4 and 37 otherwise,
      and the accessors return what it was made of, unmapped. */
  lemma IdRoundTrip(p: Parts)
    ensures Encoded(p).Some? <==> Valid(p)
    ensures Valid(p) ==>
              var id := Encoded(p).value;
              |id| == (if Is4(Unmap(p.src.addr)) && Is4(Unmap(p.dst.addr)) then 13 else 37) &&
              Decoded(id) == Unmapped(p)
  {
    if Valid(p) {
      FamilyIsOneFamily(p.src.addr, p.dst.addr);
      var (s, d) := Family(p.src.addr, p.dst.addr);
      LayoutIsRead(p.proto, s, p.src.port, d, p.dst.port);
    }
  }

  lemma SameWhenUnmapped(p: Parts)
    requires Valid(p)
    ensures Encoded(p) == Encoded(Unmapped(p))
  {
    FamilyIsOneFamily(p.src.addr, p.dst.addr);
    var u := Unmapped(p);
    FamilyIsOneFamily(u.src.addr, u.dst.addr);
  }

  /** Usable as a map key: two ids are equal exactly when they describe the same connection, where an IPv4
      address and its mapped form are the same address. */
  lemma IdsAreKeys(p: Parts, q: Parts)
    requires Valid(p) && Valid(q)
    ensures Encoded(p) == Encoded(q) <==> Unmapped(p) == Unmapped(q)
  {
    IdRoundTrip(p);
    IdRoundTrip(q);
    SameWhenUnmapped(p);
    SameWhenUnmapped(q);
  }

  /** The ids that NewConnID makes. */
  predicate Canonical(id: seq<Byte>) {
    |id| == 13 || (|id| == 37 && !(Is4In6(id[..16]) && Is4In6(id[18..34])))
  }

  lemma As16OfUnmap(a: Addr)
    requires Is6(a)
    ensures As16(Unmap(a)) == a
  {
  }

  lemma Relaid(id: seq<Byte>, n: nat)
    requires n == 4 || n == 16
    requires |id| == 2 * n + 5
    ensures Layout(id[2 * n + 4], id[..n], PortOf(id[n], id[n + 1]), id[n + 2..2 * n + 2],
                   PortOf(id[2 * n + 2], id[2 * n + 3])) == id
  {
    assert id == id[..n] + id[n..n + 2] + id[n + 2..2 * n + 2] + id[2 * n + 2..2 * n + 4] + [id[2 * n + 4]];
  }

  /** A canonical id is the id of its own parts. */
  lemma CanonicalIsReencoded(id: seq<Byte>)
    requires Canonical(id)
    ensures Encoded(Decoded(id)) == Some(id)
  {
    var p := Decoded(id);
    FamilyIsOneFamily(p.src.addr, p.dst.addr);
    if |id| == 13 {
      Relaid(id, 4);
    } else {
      As16OfUnmap(id[..16]);
      As16OfUnmap(id[18..34]);
      Relaid(id, 16);
    }
  }

  /** The canonical ids are exactly the ids of valid parts. */
  lemma CanonicalExactly(id: seq<Byte>)
    ensures Canonical(id) <==> exists p :: Valid(p) && Encoded(p) == Some(id)
  {
    if Canonical(id) {
      CanonicalIsReencoded(id);
      IdRoundTrip(Decoded(id));
    }
    if p :| Valid(p) && Encoded(p) == Some(id) {
      EncodedIsCanonical(p);
    }
  }

  lemma EncodedIsCanonical(p: Parts)
    requires Valid(p)
    ensures Canonical(Encoded(p).value)
  {
    IdRoundTrip(p);
  }

  // ---------- Replies ----------

  /** The reply of a connection is the connection seen from the other side. */
  lemma ReplyIsSwapped(p: Parts)
    requires Valid(p)
    ensures IdRoundTripHolds(p) && Some(Reply(Encoded(p).value)) == Encoded(Swapped(p))
  {
    IdRoundTrip(p);
    SameWhenUnmapped(Swapped(p));
    assert Swapped(Unmapped(p)) == Unmapped(Swapped(p));
  }

  ghost predicate IdRoundTripHolds(p: Parts) {
    Encoded(p).Some? && (|Encoded(p).value| == 13 || |Encoded(p).value| == 37)
  }

  /** The reply to a reply is the id itself exactly for canonical ids. An id that was received from a peer can
      be another one. */
  lemma ReplyTwiceExactly(id: seq<Byte>)
    requires |id| == 13 || |id| >= 36
    ensures Reply(Reply(id)) == id <==> Canonical(id)
  {
    var there := Swapped(Decoded(id));
    EncodedIsCanonical(there);
    if Canonical(id) {
      ReplyIsSwapped(Decoded(id));
      ReplyIsSwapped(there);
      CanonicalIsReencoded(id);
      assert Swapped(there) == Decoded(id);
    } else {
      ReplyIsSwapped(there);
      EncodedIsCanonical(Swapped(there));
    }
  }
}
