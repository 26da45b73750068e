/** The search of pkg/subnet for a private IPv4 subnet that overlaps nothing in use. */
module FreeSubnet {
  import opened IpPrefix
  import opened Subnets
  import opened Wrappers

  datatype SearchResult = Found(subnet: Prefix) | InterfaceError | NoFreeSubnet

  type Addr4 = a: Addr | |a| == 4 witness [0, 0, 0, 0]

  /** The first three bytes of an address as a number. The search steps through these. */
  function Block(a: Addr4): (n: nat)
    ensures n < 0x100_0000
  {
    var a0: int, a1: int, a2: int := a[0], a[1], a[2];
    65536 * a0 + 256 * a1 + a2
  }

  /** The address in block `n` with the given last byte. */
  function BlockAddr(n: nat, last: Byte): (a: Addr4)
    requires n < 0x100_0000
    ensures Block(a) == n && a[3] == last
  {
    [n / 65536, n / 256 % 256, n % 256, last]
  }

  /** `netip.Addr.Less` on IPv4 addresses. */
  predicate Less(a: Addr4, b: Addr4) {
    var a3: int, b3: int := a[3], b[3];
    256 * Block(a) + a3 < 256 * Block(b) + b3
  }

  lemma BlockIsInjective(a: Addr4, b: Addr4)
    requires Block(a) == Block(b)
    ensures a[..3] == b[..3]
  {
  }

  /** `incIP4`: the first address of the next block, or the zero Addr at or beyond `end`. The very
      last block has no successor and is returned unchanged. */
  method IncIP4(ip: Addr4, end: Addr4) returns (r: Addr)
    ensures Block(ip) == 0xff_ffff ==> r == ip
    ensures Block(ip) < 0xff_ffff ==>
              r == if Less(BlockAddr(Block(ip) + 1, 0), end) then BlockAddr(Block(ip) + 1, 0) else []
  {
    var ipc: Addr4 := ip[3 := 0];
    r := ip;
    var i := 2;
    while i >= 0
      invariant -1 <= i <= 2 && |ipc| == 4 && ipc[3] == 0 && r == ip
      invariant forall j :: 0 <= j <= i ==> ipc[j] == ip[j]
      invariant forall j :: i < j <= 2 ==> ip[j] == 255 && ipc[j] == 0
    {
      if ipc[i] < 255 {
        ipc := ipc[i := ipc[i] + 1];
        assert ipc == BlockAddr(Block(ip) + 1, 0) by {
          assert Block(ipc) == Block(ip) + 1;
          BlockIsInjective(ipc, BlockAddr(Block(ip) + 1, 0));
        }
        r := ipc;
        if !Less(ipc, end) {
          r := [];
        }
        break;
      } else {
        ipc := ipc[i := 0];
      }
      i := i - 1;
    }
  }

  // ---------- Private ranges and candidates ----------

  /** A half-open range of blocks, and the private network of section 3 of RFC 1918 that it spans. */
  datatype Range = Range(from: Addr4, end: Addr4, net: Prefix)

  /** In the order of the search: class C, class B, class A. */
  function Ranges(): seq<Range> {
    [ Range([192, 168, 0, 0], [192, 169, 0, 0], Prefix([192, 168, 0, 0], 16)),
      Range([172, 16, 0, 0], [172, 32, 0, 0], Prefix([172, 16, 0, 0], 12)),
      Range([10, 0, 0, 0], [11, 0, 0, 0], Prefix([10, 0, 0, 0], 8)) ]
  }

  predicate InRange(n: nat, r: Range) {
    Block(r.from) <= n < Block(r.end)
  }

  /** The subnet that the search tries in block `n`. */
  function Candidate(n: nat, bits: int): Prefix
    requires n < 0x100_0000
  {
    PrefixFrom(BlockAddr(n, 1), bits)
  }

  ghost predicate Blocked(p: Prefix, avoid: seq<Prefix>) {
    exists i :: 0 <= i < |avoid| && Overlaps(avoid[i], p)
  }

  /** Every candidate of the range in a block below `n` is blocked. */
  ghost predicate BlockedBelow(r: Range, n: nat, bits: int, avoid: seq<Prefix>) {
    forall m :: 0 <= m < n && m < 0x100_0000 && InRange(m, r) ==> Blocked(Candidate(m, bits), avoid)
  }

  ghost predicate AllBlocked(r: Range, bits: int, avoid: seq<Prefix>) {
    BlockedBelow(r, 0x100_0000, bits, avoid)
  }

  lemma AgreesWithClassC(n: nat)
    requires n < 0x100_0000 && InRange(n, Ranges()[0])
    ensures Masked(BlockAddr(n, 1), 16) == Masked([192, 168, 0, 0], 16)
  {
  }

  lemma AgreesWithClassB(n: nat)
    requires n < 0x100_0000 && InRange(n, Ranges()[1])
    ensures Masked(BlockAddr(n, 1), 12) == Masked([172, 16, 0, 0], 12)
  {
  }

  lemma AgreesWithClassA(n: nat)
    requires n < 0x100_0000 && InRange(n, Ranges()[2])
    ensures Masked(BlockAddr(n, 1), 8) == Masked([10, 0, 0, 0], 8)
  {
  }

  lemma CandidateAgreesWithRange(k: nat, n: nat)
    requires k < 3 && n < 0x100_0000 && InRange(n, Ranges()[k])
    ensures var net := Ranges()[k].net; Masked(BlockAddr(n, 1), net.bits) == Masked(net.addr, net.bits)
  {
    match k {
      case 0 => AgreesWithClassC(n);
      case 1 => AgreesWithClassB(n);
      case 2 => AgreesWithClassA(n);
    }
  }

  /** A candidate lies in the private network of its range exactly when it has at least as many bits. */
  lemma CandidateIsPrivateExactly(k: nat, n: nat, bits: nat)
    requires k < 3 && n < 0x100_0000 && InRange(n, Ranges()[k]) && bits <= 32
    ensures Within(Candidate(n, bits), Ranges()[k].net) <==> bits >= Ranges()[k].net.bits
  {
    CandidateAgreesWithRange(k, n);
    WithinMeansAgree(Candidate(n, bits), Ranges()[k].net);
  }

  /** Checking the prefixes that `Unique` keeps is as good as checking all of them. */
  lemma KeptBlockSame(p: Prefix, kept: seq<Prefix>, input: seq<Prefix>)
    requires Keeps(kept, input)
    ensures Blocked(p, kept) <==> Blocked(p, input)
  {
    if Blocked(p, kept) {
      var i :| 0 <= i < |kept| && Overlaps(kept[i], p);
      assert kept[i] in multiset(kept) && kept[i] in multiset(input);
      var j :| 0 <= j < |input| && input[j] == kept[i];
    }
    if Blocked(p, input) {
      var i :| 0 <= i < |input| && Overlaps(input[i], p);
      OverlapsMeansCommonAddress(input[i], p);
      var a :| Contains(input[i], a) && Contains(p, a);
      assert input[i] in input;
      var j :| 0 <= j < |kept| && Within(input[i], kept[j]);
      OverlapsMeansCommonAddress(kept[j], p);
    }
  }

  // ---------- The search ----------

  lemma StartOfBlock(ip: Addr4)
    requires ip[3] == 0
    ensures ip == BlockAddr(Block(ip), 0) && ip[3 := 1] == BlockAddr(Block(ip), 1)
  {
    BlockIsInjective(ip, BlockAddr(Block(ip), 0));
    BlockIsInjective(ip[3 := 1], BlockAddr(Block(ip), 1));
  }

  lemma RangeShape(k: nat)
    requires k < 3
    ensures var r := Ranges()[k]; Block(r.from) < Block(r.end) && r.from[3] == 0 && r.end[3] == 0
  {
  }

  /** `slices.ContainsFunc(avoid, ... Overlaps ...)`. */
  method IsBlocked(p: Prefix, avoid: seq<Prefix>) returns (b: bool)
    ensures b <==> Blocked(p, avoid)
  {
    for i := 0 to |avoid|
      invariant forall j :: 0 <= j < i ==> !Overlaps(avoid[j], p)
    {
      if Overlaps(avoid[i], p) {
        return true;
      }
    }
    return false;
  }

  /** Try every block of one range. */
  method SearchRange(r: Range, bits: int, avoid: seq<Prefix>) returns (found: Option<nat>)
    requires Block(r.from) < Block(r.end) && r.from[3] == 0 && r.end[3] == 0
    ensures found.None? ==> AllBlocked(r, bits, avoid)
    ensures found.Some? ==>
              && found.value < 0x100_0000 && InRange(found.value, r)
              && !Blocked(Candidate(found.value, bits), avoid)
              && BlockedBelow(r, found.value, bits, avoid)
  {
    var ip := r.from;
    while true
      invariant |ip| == 4 && InRange(Block(ip), r) && ip[3] == 0
      invariant BlockedBelow(r, Block(ip), bits, avoid)
      decreases Block(r.end) - Block(ip)
    {
      var sn := PrefixFrom(ip[3 := 1], bits);
      StartOfBlock(ip);
      var blocked := IsBlocked(sn, avoid);
      if !blocked {
        return Some(Block(ip));
      }
      ghost var n := Block(ip);
      assert BlockedBelow(r, n + 1, bits, avoid);
      var next := IncIP4(ip, r.end);
      if next == [] {
        return None;
      }
      ip := next;
    }
  }

  /** The first host of a block of 256 private addresses. */
  predicate IsPrivate(a: Addr) {
    && |a| == 4 && a[3] == 1
    && (|| (a[0] == 192 && a[1] == 168)
        || (a[0] == 172 && 16 <= a[1] <= 31)
        || a[0] == 10)
  }

  lemma CandidateIsPrivate(k: nat, n: nat, bits: int)
    requires k < 3 && n < 0x100_0000 && InRange(n, Ranges()[k])
    ensures IsPrivate(Candidate(n, bits).addr) && (0 <= bits <= 32 ==> Candidate(n, bits).bits == bits)
  {
    match k {
      case 0 =>
      case 1 =>
      case 2 =>
    }
  }

  /** `RandomIPv4Prefix`, given the prefixes of the interfaces (`None` when they cannot be listed). The
      result is the first free candidate in the order of the ranges and of the blocks in a range. */
  method RandomIPv4Prefix(bits: int, interfaces: Option<seq<Prefix>>, avoid: seq<Prefix>) returns (r: SearchResult)
    ensures r.InterfaceError? <==> interfaces.None?
    ensures r.NoFreeSubnet? ==>
              forall k :: 0 <= k < 3 ==> AllBlocked(Ranges()[k], bits, interfaces.value + avoid)
    ensures r.Found? ==>
              exists k, n :: FirstFree(k, n, bits, interfaces.value + avoid) && r.subnet == Candidate(n, bits)
    ensures r.Found? ==> IsPrivate(r.subnet.addr) && (0 <= bits <= 32 ==> r.subnet.bits == bits)
  {
    if interfaces.None? {
      return InterfaceError;
    }
    var all := interfaces.value + avoid;
    var a := new Prefix[|all|](i requires 0 <= i < |all| => all[i]);
    assert a[..] == all;
    var ln := Unique(a);
    var kept := a[..ln];
    forall p ensures Blocked(p, kept) <==> Blocked(p, all) {
      KeptBlockSame(p, kept, all);
    }
    for k := 0 to 3
      invariant forall j :: 0 <= j < k ==> AllBlocked(Ranges()[j], bits, all)
    {
      RangeShape(k);
      var found := SearchRange(Ranges()[k], bits, kept);
      if found.Some? {
        assert FirstFree(k, found.value, bits, all);
        CandidateIsPrivate(k, found.value, bits);
        return Found(Candidate(found.value, bits));
      }
    }
    return NoFreeSubnet;
  }

  /** Block `n` of range `k` holds a free candidate, and every candidate tried before it is blocked. */
  ghost predicate FirstFree(k: int, n: int, bits: int, avoid: seq<Prefix>) {
    && 0 <= k < 3 && 0 <= n < 0x100_0000 && InRange(n, Ranges()[k])
    && !Blocked(Candidate(n, bits), avoid)
    && BlockedBelow(Ranges()[k], n, bits, avoid)
    && forall j :: 0 <= j < k ==> AllBlocked(Ranges()[j], bits, avoid)
  }

  /** With 16 to 32 bits a found subnet is private and shares no address with anything in use. */
  lemma FoundSubnetIsFree(k: nat, n: nat, bits: nat, avoid: seq<Prefix>, i: nat, a: Addr)
    requires FirstFree(k, n, bits, avoid) && 16 <= bits <= 32 && i < |avoid|
    ensures IsValid(Candidate(n, bits)) && Within(Candidate(n, bits), Ranges()[k].net)
    ensures !(Contains(Candidate(n, bits), a) && Contains(avoid[i], a))
  {
    CandidateIsPrivateExactly(k, n, bits);
    OverlapsMeansCommonAddress(avoid[i], Candidate(n, bits));
  }
}
