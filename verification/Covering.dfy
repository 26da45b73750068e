/** CoveringPrefixes of pkg/subnet: the tightest prefixes, one for each /16 (IPv4) or /64 (IPv6), that
    cover a list of addresses. */
module Covering {
  import opened IpPrefix
  import opened Bitfield

  /** A subnet key: the leading 2 bytes of an IPv4 address or 8 bytes of an IPv6 address. */
  type Key = k: seq<Byte> | |k| == 2 || |k| == 8 witness [0, 0]

  /** The length of the addresses that a key is for. */
  function Size(k: Key): nat {
    2 * |k|
  }

  function KeyOf(a: Addr): Key
    requires a != []
  {
    a[..|a| / 2]
  }

  /** The valid addresses of the list that have the given key. */
  ghost predicate InGroup(addrs: seq<Addr>, k: Key, a: Addr) {
    a in addrs && a != [] && KeyOf(a) == k
  }

  ghost function BytesAt(addrs: seq<Addr>, k: Key, pos: nat): set<Byte>
    requires pos < |k|
  {
    set a | a in addrs && InGroup(addrs, k, a) :: a[|k| + pos]
  }

  /** The keys of the addresses with the given length. */
  ghost function Keys(addrs: seq<Addr>, size: nat): set<Key> {
    set a | a in addrs && a != [] && |a| == size :: KeyOf(a)
  }

  /** The longest prefix that covers a group may have. */
  function Limit(k: Key): nat {
    8 * (Size(k) - 1)
  }

  /** `p` covers the whole group of `k`, and no prefix with more bits, up to the limit, does so. */
  ghost predicate Tight(p: Prefix, addrs: seq<Addr>, k: Key) {
    IsFor(p, k) && ContainsGroup(p, addrs, k) && (p.bits < Limit(k) ==> Disagree(addrs, k, p.bits + 1))
  }

  ghost predicate IsFor(p: Prefix, k: Key) {
    && IsValid(p) && |p.addr| == Size(k) && KeyOf(p.addr) == k && Masked(p.addr, p.bits) == p.addr
    && 8 * |k| <= p.bits <= Limit(k)
  }

  ghost predicate ContainsGroup(p: Prefix, addrs: seq<Addr>, k: Key) {
    forall a :: InGroup(addrs, k, a) ==> Contains(p, a)
  }

  // ---------- Collecting the bytes ----------

  ghost predicate Separate(m: map<Key, ByteSets>) {
    forall k, l :: k in m && l in m && k != l ==> m[k] != m[l]
  }

  /** For each of its keys the map holds the bytes that the addresses have at each position. */
  ghost predicate Holds(m: map<Key, ByteSets>, addrs: seq<Addr>)
    reads m.Values
  {
    forall k :: k in m ==> HoldsFor(m[k], addrs, k)
  }

  ghost predicate HoldsFor(s: ByteSets, addrs: seq<Addr>, k: Key)
    reads s
  {
    |s.sets| == |k| - 1 && forall i :: 0 <= i < |k| - 1 ==> Members(s.sets[i]) == BytesAt(addrs, k, i)
  }

  ghost predicate Collected(m: map<Key, ByteSets>, addrs: seq<Addr>, size: nat)
    reads m.Values
  {
    m.Keys == Keys(addrs, size) && Holds(m, addrs)
  }

  lemma BytesAtSnoc(addrs: seq<Addr>, a: Addr, k: Key, pos: nat)
    requires pos < |k|
    ensures BytesAt(addrs + [a], k, pos)
         == BytesAt(addrs, k, pos) + if a != [] && KeyOf(a) == k then {a[|k| + pos]} else {}
  {
    var left := BytesAt(addrs + [a], k, pos);
    var right := BytesAt(addrs, k, pos) + if a != [] && KeyOf(a) == k then {a[|k| + pos]} else {};
    forall x | x in left ensures x in right {
      var b :| b in addrs + [a] && InGroup(addrs + [a], k, b) && b[|k| + pos] == x;
      assert b in addrs ==> InGroup(addrs, k, b);
    }
    forall x | x in right ensures x in left {
      if x in BytesAt(addrs, k, pos) {
        var b :| b in addrs && InGroup(addrs, k, b) && b[|k| + pos] == x;
        assert InGroup(addrs + [a], k, b);
      } else {
        assert InGroup(addrs + [a], k, a);
      }
    }
  }

  /** An address with another key changes nothing. */
  lemma OtherKey(s: ByteSets, addrs: seq<Addr>, a: Addr, k: Key)
    requires HoldsFor(s, addrs, k) && (a == [] || KeyOf(a) != k)
    ensures HoldsFor(s, addrs + [a], k)
  {
    forall i | 0 <= i < |k| - 1 ensures BytesAt(addrs + [a], k, i) == BytesAt(addrs, k, i) {
      BytesAtSnoc(addrs, a, k, i);
    }
  }

  /** An address of another length, or the zero Addr, changes nothing. */
  lemma OtherAddress(m: map<Key, ByteSets>, addrs: seq<Addr>, a: Addr, size: nat)
    requires Collected(m, addrs, size) && |a| != size
    ensures Collected(m, addrs + [a], size)
  {
    forall k | k in m ensures HoldsFor(m[k], addrs + [a], k) {
      OtherKey(m[k], addrs, a, k);
    }
  }

  /** Mark the bytes of `a` in the sets of its key. */
  method Mark(s: ByteSets, a: Addr, ghost addrs: seq<Addr>)
    requires a != [] && HoldsFor(s, addrs, KeyOf(a))
    modifies s
    ensures HoldsFor(s, addrs + [a], KeyOf(a))
  {
    ghost var k := KeyOf(a);
    s.SetBits(a[|a| / 2..|a| - 1]);
    forall i | 0 <= i < |k| - 1 ensures Members(s.sets[i]) == BytesAt(addrs + [a], k, i) {
      BytesAtSnoc(addrs, a, k, i);
    }
  }

  /** The sets for a key that was not seen before. */
  method FirstMark(a: Addr, ghost addrs: seq<Addr>) returns (s: ByteSets)
    requires a != [] && BytesAtEmpty(addrs, KeyOf(a))
    ensures fresh(s) && HoldsFor(s, addrs + [a], KeyOf(a))
  {
    s := new ByteSets(|a| / 2 - 1);
    Mark(s, a, addrs);
  }

  /** The loop body for an address of the map's family. */
  method Record(m: map<Key, ByteSets>, a: Addr, ghost addrs: seq<Addr>) returns (r: map<Key, ByteSets>)
    requires a != [] && Separate(m) && Collected(m, addrs, |a|)
    modifies m.Values
    ensures Separate(r) && Collected(r, addrs + [a], |a|)
    ensures forall k :: k in r ==> r[k] in m.Values || fresh(r[k])
  {
    if KeyOf(a) in m {
      r := m;
      RecordKnown(m, a, addrs);
      assert m.Keys == Keys(addrs + [a], |a|);
    } else {
      var sets := RecordNew(m, a, addrs);
      r := m[KeyOf(a) := sets];
      assert r.Keys == Keys(addrs + [a], |a|);
    }
  }

  lemma OthersHold(m: map<Key, ByteSets>, a: Addr, addrs: seq<Addr>)
    requires a != [] && Holds(m, addrs)
    ensures forall k :: k in m && k != KeyOf(a) ==> HoldsFor(m[k], addrs + [a], k)
  {
    forall k | k in m && k != KeyOf(a) ensures HoldsFor(m[k], addrs + [a], k) {
      OtherKey(m[k], addrs, a, k);
    }
  }

  method RecordKnown(m: map<Key, ByteSets>, a: Addr, ghost addrs: seq<Addr>)
    requires a != [] && Separate(m) && Holds(m, addrs) && KeyOf(a) in m
    modifies m[KeyOf(a)]
    ensures Holds(m, addrs + [a])
  {
    OthersHold(m, a, addrs);
    Mark(m[KeyOf(a)], a, addrs);
  }

  method RecordNew(m: map<Key, ByteSets>, a: Addr, ghost addrs: seq<Addr>) returns (sets: ByteSets)
    requires a != [] && Holds(m, addrs) && m.Keys == Keys(addrs, |a|) && KeyOf(a) !in m
    ensures fresh(sets) && HoldsFor(sets, addrs + [a], KeyOf(a))
    ensures forall k :: k in m ==> HoldsFor(m[k], addrs + [a], k)
  {
    OthersHold(m, a, addrs);
    NoBytesWithoutKey(addrs, KeyOf(a));
    sets := FirstMark(a, addrs);
  }

  ghost predicate BytesAtEmpty(addrs: seq<Addr>, k: Key) {
    forall i :: 0 <= i < |k| ==> BytesAt(addrs, k, i) == {}
  }

  lemma NoBytesWithoutKey(addrs: seq<Addr>, k: Key)
    requires k !in Keys(addrs, Size(k))
    ensures BytesAtEmpty(addrs, k)
  {
    forall a | a in addrs ensures !InGroup(addrs, k, a) {
    }
  }

  /** The first loop of CoveringPrefixes: IPv4 addresses on one side, IPv6 on the other. */
  method Collect(addrs: seq<Addr>) returns (v4: map<Key, ByteSets>, v6: map<Key, ByteSets>)
    ensures Collected(v4, addrs, 4) && Collected(v6, addrs, 16)
  {
    v4, v6 := map[], map[];
    for i := 0 to |addrs|
      invariant Separate(v4) && Separate(v6) && v4.Values !! v6.Values
      invariant fresh(v4.Values) && fresh(v6.Values)
      invariant Collected(v4, addrs[..i], 4) && Collected(v6, addrs[..i], 16)
    {
      assert addrs[..i + 1] == addrs[..i] + [addrs[i]];
      if |addrs[i]| == 4 {
        v4 := RecordInOne(v4, v6, addrs[i], addrs[..i], 16);
      } else if |addrs[i]| == 16 {
        v6 := RecordInOne(v6, v4, addrs[i], addrs[..i], 4);
      } else {
        OtherAddress(v4, addrs[..i], addrs[i], 4);
        OtherAddress(v6, addrs[..i], addrs[i], 16);
      }
    }
    assert addrs[..|addrs|] == addrs;
  }

  /** The address goes into the map of its family and leaves the other one alone. */
  method RecordInOne(m: map<Key, ByteSets>, ghost other: map<Key, ByteSets>, a: Addr, ghost addrs: seq<Addr>,
                     ghost size: nat)
    returns (r: map<Key, ByteSets>)
    requires a != [] && |a| != size && Separate(m) && Collected(m, addrs, |a|)
    requires Collected(other, addrs, size) && m.Values !! other.Values
    modifies m.Values
    ensures Separate(r) && Collected(r, addrs + [a], |a|) && Collected(other, addrs + [a], size)
    ensures r.Values !! other.Values && forall k :: k in r ==> r[k] in m.Values || fresh(r[k])
  {
    OtherAddress(other, addrs, a, size);
    r := Record(m, a, addrs);
  }

  // ---------- The tightest prefix of one group ----------

  /** The byte sets of a group, as values. */
  ghost predicate GroupSets(sets: seq<Words>, addrs: seq<Addr>, k: Key) {
    |sets| == |k| - 1 && forall i :: 0 <= i < |k| - 1 ==> Members(sets[i]) == BytesAt(addrs, k, i)
  }

  /** The key, the bytes found so far, and zeroes. */
  ghost predicate Padded(ip: Addr, k: Key, found: nat) {
    && |ip| == Size(k) && ip[..|k|] == k
    && forall j :: |k| + found <= j < |ip| ==> ip[j] == 0
  }

  /** All addresses of the group have the bytes of `ip` at the first `found` positions after the key. */
  ghost predicate Common(ip: Addr, addrs: seq<Addr>, k: Key, found: nat)
    requires |ip| == Size(k) && found <= |k|
  {
    forall a, j :: InGroup(addrs, k, a) && |k| <= j < |k| + found ==> a[j] == ip[j]
  }

  lemma MaskedGroup(a: Addr, ip: Addr, k: Key, pos: nat, ones: nat)
    requires pos < |k| - 1 && ones <= 8 && |a| == |ip| == Size(k) && KeyOf(a) == k && Padded(ip, k, pos + 1)
    requires forall j :: |k| <= j < |k| + pos ==> a[j] == ip[j]
    requires MaskByte(a[|k| + pos], ones) == ip[|k| + pos]
    ensures Masked(a, 8 * (|k| + pos) + ones) == ip
  {
    var bits := 8 * (|k| + pos) + ones;
    forall i | 0 <= i < |a| ensures Masked(a, bits)[i] == ip[i] {
      if i < |k| {
        assert a[i] == KeyOf(a)[i] == k[i] == ip[i];
      }
    }
  }

  /** Two addresses of the group disagree within one more bit. */
  ghost predicate Disagree(addrs: seq<Addr>, k: Key, bits: nat) {
    exists a: Addr, b: Addr :: InGroup(addrs, k, a) && InGroup(addrs, k, b) && Masked(a, bits) != Masked(b, bits)
  }

  /** The prefix with `ones` bits of the byte at `pos` is tight when those are all the common bits. */
  lemma TightAt(addrs: seq<Addr>, k: Key, ip: Addr, pos: nat, ones: nat, bits: nat)
    requires pos < |k| - 1 && Padded(ip, k, pos + 1) && Common(ip, addrs, k, pos)
    requires IsMask(BytesAt(addrs, k, pos), ones, ip[|k| + pos]) && (ones < 8 || pos == |k| - 2)
    requires bits == 8 * (|k| + pos) + ones
    ensures Tight(PrefixFrom(ip, bits), addrs, k)
  {
    WellPlaced(ip, k, pos, ones, bits);
    CoversAll(addrs, k, ip, pos, ones, bits);
  }

  lemma WellPlaced(ip: Addr, k: Key, pos: nat, ones: nat, bits: nat)
    requires pos < |k| - 1 && ones <= 8 && Padded(ip, k, pos + 1) && bits == 8 * (|k| + pos) + ones
    requires MaskByte(ip[|k| + pos], ones) == ip[|k| + pos]
    ensures IsFor(PrefixFrom(ip, bits), k) && PrefixFrom(ip, bits).bits == bits
  {
    MaskedGroup(ip, ip, k, pos, ones);
  }

  lemma CoversAll(addrs: seq<Addr>, k: Key, ip: Addr, pos: nat, ones: nat, bits: nat)
    requires pos < |k| - 1 && ones <= 8 && Padded(ip, k, pos + 1) && Common(ip, addrs, k, pos)
    requires CommonMask(BytesAt(addrs, k, pos), ones, ip[|k| + pos]) && bits == 8 * (|k| + pos) + ones
    ensures ContainsGroup(PrefixFrom(ip, bits), addrs, k)
  {
    MaskedGroup(ip, ip, k, pos, ones);
    forall a | InGroup(addrs, k, a) ensures Contains(PrefixFrom(ip, bits), a) {
      MaskedGroup(a, ip, k, pos, ones);
    }
  }

  /** Put the common bits of the byte sets at `pos` into the address. */
  method NextByte(k: Key, words: Words, ip: Addr, pos: nat, ghost addrs: seq<Addr>) returns (r: Addr, ones: nat)
    requires pos < |k| - 1 && Members(words) == BytesAt(addrs, k, pos)
    requires Padded(ip, k, pos) && Common(ip, addrs, k, pos)
    ensures Padded(r, k, pos + 1) && Common(r, addrs, k, pos)
    ensures IsMask(BytesAt(addrs, k, pos), ones, r[|k| + pos])
    ensures ones == 8 ==> Common(r, addrs, k, pos + 1)
  {
    var nByte;
    ones, nByte := Mask(words);
    r := ip[|k| + pos := nByte];
    if ones == 8 {
      AllBitsCommon(addrs, k, pos, nByte);
    }
  }

  method ZeroPadded(k: Key) returns (ip: Addr)
    ensures Padded(ip, k, 0)
  {
    ip := k + seq(|k|, i => 0);
  }

  /** The second loop of CoveringPrefixes, for one group. */
  method TightPrefix(k: Key, sets: seq<Words>, ghost addrs: seq<Addr>) returns (p: Prefix)
    requires GroupSets(sets, addrs, k)
    ensures Tight(p, addrs, k)
  {
    var ip := ZeroPadded(k);
    var maskOnes := 8 * |k|;
    var bi := 0;
    while true
      invariant 0 <= bi < |sets| && maskOnes == 8 * (|k| + bi)
      invariant Padded(ip, k, bi) && Common(ip, addrs, k, bi)
      decreases |sets| - bi
    {
      var ones;
      ip, ones := NextByte(k, sets[bi], ip, bi, addrs);
      maskOnes := maskOnes + ones;
      if ones != 8 || bi == |sets| - 1 {
        TightAt(addrs, k, ip, bi, ones, maskOnes);
        return PrefixFrom(ip, maskOnes);
      }
      bi := bi + 1;
    }
  }

  lemma AllBitsCommon(addrs: seq<Addr>, k: Key, pos: nat, value: Byte)
    requires pos < |k| && IsMask(BytesAt(addrs, k, pos), 8, value)
    ensures forall a :: InGroup(addrs, k, a) ==> a[|k| + pos] == value
  {
    forall a | InGroup(addrs, k, a) ensures a[|k| + pos] == value {
      assert a[|k| + pos] in BytesAt(addrs, k, pos);
    }
  }

  // ---------- Ordering the result ----------

  predicate LexLeq(a: seq<Byte>, b: seq<Byte>) {
    a == [] || (b != [] && (a[0] < b[0] || (a[0] == b[0] && LexLeq(a[1..], b[1..]))))
  }

  /** `!b.Less(a)`: shorter addresses first, then byte by byte. */
  predicate AddrLeq(a: Addr, b: Addr) {
    |a| < |b| || (|a| == |b| && LexLeq(a, b))
  }

  lemma {:induction false} LexIsTotalOrder(a: seq<Byte>, b: seq<Byte>, c: seq<Byte>)
    ensures LexLeq(a, b) || LexLeq(b, a)
    ensures LexLeq(a, b) && LexLeq(b, c) ==> LexLeq(a, c)
    ensures LexLeq(a, b) && LexLeq(b, a) ==> a == b
    decreases |a|
  {
    if a != [] && b != [] {
      LexIsTotalOrder(a[1..], b[1..], if c == [] then [] else c[1..]);
      assert a == [a[0]] + a[1..] && b == [b[0]] + b[1..];
    }
  }

  /** One address is before another of the family if it is smaller where they first differ. */
  lemma {:induction false} BeforeExactly(a: Addr, b: Addr, i: nat)
    requires |a| == |b| && i < |a| && a[..i] == b[..i] && a[i] != b[i]
    ensures AddrLeq(a, b) <==> a[i] < b[i]
  {
    LexAtDifference(a, b, i);
  }

  lemma {:induction false} LexAtDifference(a: seq<Byte>, b: seq<Byte>, i: nat)
    requires |a| == |b| && i < |a| && a[..i] == b[..i] && a[i] != b[i]
    ensures LexLeq(a, b) <==> a[i] < b[i]
    decreases i
  {
    if i > 0 {
      assert a[0] == a[..i][0] == b[..i][0] == b[0];
      assert a[1..][..i - 1] == a[..i][1..] == b[..i][1..] == b[1..][..i - 1];
      LexAtDifference(a[1..], b[1..], i - 1);
    }
  }

  ghost predicate Sorted(ps: seq<Prefix>) {
    forall i, j :: 0 <= i < j < |ps| ==> AddrLeq(ps[i].addr, ps[j].addr)
  }

  /** Insert a prefix into a sorted list; `sort.Slice` is modelled as repeated insertion. */
  method Insert(ps: seq<Prefix>, p: Prefix) returns (r: seq<Prefix>, at: nat)
    requires Sorted(ps)
    ensures at <= |ps| && r == InsertAt(ps, at, p) && Sorted(r)
  {
    at := |ps|;
    while at > 0 && !AddrLeq(ps[at - 1].addr, p.addr)
      invariant 0 <= at <= |ps|
      invariant forall j :: at <= j < |ps| ==> AddrLeq(p.addr, ps[j].addr)
    {
      LexIsTotalOrder(ps[at - 1].addr, p.addr, []);
      at := at - 1;
    }
    forall j | 0 <= j < at ensures AddrLeq(ps[j].addr, p.addr) {
      LexIsTotalOrder(ps[j].addr, ps[at - 1].addr, p.addr);
    }
    r := InsertAt(ps, at, p);
  }

  // ---------- CoveringPrefixes ----------

  /** The list is in order and has one tight prefix for each of the keys; `ks` says which is for which. */
  ghost predicate OnePerKey(ps: seq<Prefix>, ks: seq<Key>, addrs: seq<Addr>, keys: set<Key>) {
    && Sorted(ps) && |ks| == |ps|
    && (forall i :: 0 <= i < |ps| ==> Tight(ps[i], addrs, ks[i]))
    && multiset(ks) == multiset(keys)
  }

  function InsertAt<T>(s: seq<T>, at: nat, x: T): seq<T>
    requires at <= |s|
  {
    s[..at] + [x] + s[at..]
  }

  lemma InsertCounts<T>(s: seq<T>, at: nat, x: T)
    requires at <= |s|
    ensures multiset(InsertAt(s, at, x)) == multiset(s) + multiset{x}
  {
    assert s == s[..at] + s[at..];
  }

  lemma InsertKeepsTight(ps: seq<Prefix>, ks: seq<Key>, addrs: seq<Addr>, p: Prefix, k: Key, at: nat)
    requires |ks| == |ps| && at <= |ps| && Tight(p, addrs, k)
    requires forall i :: 0 <= i < |ps| ==> Tight(ps[i], addrs, ks[i])
    ensures forall i :: 0 <= i < |ps| + 1 ==> Tight(InsertAt(ps, at, p)[i], addrs, InsertAt(ks, at, k)[i])
  {
  }

  lemma InsertKeepsOnePerKey(ps: seq<Prefix>, ks: seq<Key>, addrs: seq<Addr>, keys: set<Key>, p: Prefix, k: Key,
                             at: nat)
    requires OnePerKey(ps, ks, addrs, keys) && k !in keys && Tight(p, addrs, k)
    requires at <= |ps| && Sorted(InsertAt(ps, at, p))
    ensures OnePerKey(InsertAt(ps, at, p), InsertAt(ks, at, k), addrs, keys + {k})
  {
    InsertKeepsTight(ps, ks, addrs, p, k, at);
    InsertCounts(ks, at, k);
  }

  /** Compute the tight prefix of one key and put it in its place. */
  method AppendOne(k: Key, sets: seq<Words>, ps: seq<Prefix>, ghost ks: seq<Key>, ghost addrs: seq<Addr>,
                   ghost keys: set<Key>)
    returns (r: seq<Prefix>, ghost rks: seq<Key>)
    requires GroupSets(sets, addrs, k) && k !in keys && OnePerKey(ps, ks, addrs, keys)
    ensures OnePerKey(r, rks, addrs, keys + {k})
  {
    var p := TightPrefix(k, sets, addrs);
    var at;
    r, at := Insert(ps, p);
    rks := InsertAt(ks, at, k);
    InsertKeepsOnePerKey(ps, ks, addrs, keys, p, k, at);
  }

  /** One of the two loops over a map of subnets. */
  method AppendAll(m: map<Key, ByteSets>, ps: seq<Prefix>, ghost ks: seq<Key>, ghost addrs: seq<Addr>,
                   ghost keys: set<Key>)
    returns (r: seq<Prefix>, ghost rks: seq<Key>)
    requires Holds(m, addrs) && keys !! m.Keys && OnePerKey(ps, ks, addrs, keys)
    ensures OnePerKey(r, rks, addrs, keys + m.Keys)
  {
    r, rks := ps, ks;
    var todo := m.Keys;
    ghost var done := keys;
    while todo != {}
      invariant todo <= m.Keys && done !! todo && done + todo == keys + m.Keys
      invariant OnePerKey(r, rks, addrs, done)
      decreases |todo|
    {
      var k :| k in todo;
      r, rks := AppendOne(k, m[k].sets, r, rks, addrs, done);
      todo, done := todo - {k}, done + {k};
    }
    assert done == keys + m.Keys;
  }

  /** One tight prefix for each group, in order. */
  method TightPrefixes(addrs: seq<Addr>) returns (subnets: seq<Prefix>, ghost ks: seq<Key>)
    ensures OnePerKey(subnets, ks, addrs, Keys(addrs, 4) + Keys(addrs, 16))
  {
    var v4, v6 := Collect(addrs);
    FamiliesDiffer(addrs);
    assert {} + v4.Keys == Keys(addrs, 4);
    subnets, ks := AppendAll(v4, [], [], addrs, {});
    subnets, ks := AppendAll(v6, subnets, ks, addrs, Keys(addrs, 4));
  }

  lemma FamiliesDiffer(addrs: seq<Addr>)
    ensures Keys(addrs, 4) !! Keys(addrs, 16)
  {
  }

  // ---------- What that means ----------

  lemma KeysAreDistinct(ks: seq<Key>, keys: set<Key>, i: nat, j: nat)
    requires multiset(ks) == multiset(keys) && i < j < |ks|
    ensures ks[i] != ks[j]
  {
    assert ks[..j][i] == ks[i];
    assert multiset(ks[..j])[ks[i]] >= 1;
    assert ks == ks[..j] + [ks[j]] + ks[j + 1..];
    assert multiset(ks) == multiset(ks[..j]) + multiset{ks[j]} + multiset(ks[j + 1..]);
    assert multiset(keys)[ks[i]] <= 1;
  }

  /** No address lies in two of the prefixes. */
  lemma PrefixesAreDisjoint(ps: seq<Prefix>, ks: seq<Key>, addrs: seq<Addr>, keys: set<Key>, i: nat, j: nat, a: Addr)
    requires OnePerKey(ps, ks, addrs, keys) && i < j < |ps|
    ensures !(Contains(ps[i], a) && Contains(ps[j], a))
  {
    if Contains(ps[i], a) && Contains(ps[j], a) {
      KeysAreDistinct(ks, keys, i, j);
      assert false;
    }
  }

  /** Every valid input address lies in one of the prefixes, and by `PrefixesAreDisjoint` in no other. */
  lemma EveryAddressIsCovered(ps: seq<Prefix>, ks: seq<Key>, addrs: seq<Addr>, a: Addr) returns (i: nat)
    requires OnePerKey(ps, ks, addrs, Keys(addrs, 4) + Keys(addrs, 16)) && a in addrs && a != []
    ensures i < |ps| && Contains(ps[i], a)
  {
    var k := KeyOf(a);
    assert k in Keys(addrs, |a|);
    assert k in multiset(ks);
    i :| 0 <= i < |ks| && ks[i] == k;
    assert Tight(ps[i], addrs, k) && InGroup(addrs, k, a);
  }

  /** Every prefix is there for some input address. */
  lemma EveryPrefixIsNeeded(ps: seq<Prefix>, ks: seq<Key>, addrs: seq<Addr>, i: nat) returns (a: Addr)
    requires OnePerKey(ps, ks, addrs, Keys(addrs, 4) + Keys(addrs, 16)) && i < |ps|
    ensures a in addrs && Contains(ps[i], a)
  {
    var k := ks[i];
    assert k in multiset(ks) && k in Keys(addrs, 4) + Keys(addrs, 16);
    a :| a in addrs && a != [] && KeyOf(a) == k;
    assert Tight(ps[i], addrs, k) && InGroup(addrs, k, a);
  }

  /** A longer prefix, up to /24 for IPv4 and /120 for IPv6, misses an address of the group. */
  lemma LengthIsGreatest(p: Prefix, addrs: seq<Addr>, k: Key, q: Prefix) returns (a: Addr)
    requires Tight(p, addrs, k) && p.bits < q.bits <= Limit(k)
    ensures InGroup(addrs, k, a) && !Contains(q, a)
  {
    var x: Addr, y: Addr :|
      InGroup(addrs, k, x) && InGroup(addrs, k, y) && Masked(x, p.bits + 1) != Masked(y, p.bits + 1);
    if Contains(q, x) {
      a := y;
      if Contains(q, y) {
        AgreeOnFewer(x, y, p.bits + 1, q.bits);
        assert false;
      }
    } else {
      a := x;
    }
  }

  ghost predicate InExactlyOne(ps: seq<Prefix>, a: Addr) {
    exists i :: 0 <= i < |ps| && Contains(ps[i], a) && forall j :: 0 <= j < |ps| && j != i ==> !Contains(ps[j], a)
  }

  /** The prefix covers a group that is not empty, and no longer one does. */
  ghost predicate TightForSome(p: Prefix, addrs: seq<Addr>) {
    exists k :: k in Keys(addrs, 4) + Keys(addrs, 16) && Tight(p, addrs, k)
  }

  lemma CoveredOnce(ps: seq<Prefix>, ks: seq<Key>, addrs: seq<Addr>, a: Addr)
    requires OnePerKey(ps, ks, addrs, Keys(addrs, 4) + Keys(addrs, 16)) && a in addrs && a != []
    ensures InExactlyOne(ps, a)
  {
    var i := EveryAddressIsCovered(ps, ks, addrs, a);
    forall j | 0 <= j < |ps| && j != i
      ensures !Contains(ps[j], a)
    {
      var m, n := if i < j then i else j, if i < j then j else i;
      PrefixesAreDisjoint(ps, ks, addrs, Keys(addrs, 4) + Keys(addrs, 16), m, n, a);
    }
  }

  lemma TightForItsKey(ps: seq<Prefix>, ks: seq<Key>, addrs: seq<Addr>, i: nat)
    requires OnePerKey(ps, ks, addrs, Keys(addrs, 4) + Keys(addrs, 16)) && i < |ps|
    ensures TightForSome(ps[i], addrs)
  {
    assert ks[i] in multiset(ks);
    assert ks[i] in Keys(addrs, 4) + Keys(addrs, 16) && Tight(ps[i], addrs, ks[i]);
  }

  /** `CoveringPrefixes`. */
  method CoveringPrefixes(addrs: seq<Addr>) returns (subnets: seq<Prefix>)
    ensures Sorted(subnets)
    ensures forall a :: a in addrs && a != [] ==> InExactlyOne(subnets, a)
    ensures forall i :: 0 <= i < |subnets| ==> TightForSome(subnets[i], addrs)
    ensures forall i :: 0 <= i < |subnets| ==> IsTight(subnets[i], addrs)
  {
    ghost var ks;
    subnets, ks := TightPrefixes(addrs);
    forall a | a in addrs && a != []
      ensures InExactlyOne(subnets, a)
    {
      CoveredOnce(subnets, ks, addrs, a);
    }
    forall i | 0 <= i < |subnets|
      ensures TightForSome(subnets[i], addrs)
    {
      TightForItsKey(subnets, ks, addrs, i);
    }
    forall i | 0 <= i < |subnets|
      ensures IsTight(subnets[i], addrs)
    {
      TightMeans(subnets[i], addrs);
    }
  }

  /** Without keys: a prefix of 16 to 24 bits, or 64 to 120 for IPv6, that is masked and contains an input. It contains
      exactly those that agree with that one in the first half, and it cannot be longer: at the limit, or some two of
      these differ in the next bit. */
  ghost predicate IsTight(p: Prefix, addrs: seq<Addr>) {
    && IsValid(p) && Masked(p.addr, p.bits) == p.addr
    && (if |p.addr| == 4 then 16 <= p.bits <= 24 else |p.addr| == 16 && 64 <= p.bits <= 120)
    && (exists a :: a in addrs && Contains(p, a))
    && (forall a, b :: a in addrs && b in addrs && Contains(p, a) && b != [] ==>
          (Contains(p, b) <==> AgreeInHalf(a, b)))
    && (p.bits == (if |p.addr| == 4 then 24 else 120) || SomeDiffer(p, addrs))
  }

  predicate AgreeInHalf(a: Addr, b: Addr) {
    |a| == |b| && a[..|a| / 2] == b[..|a| / 2]
  }

  ghost predicate SomeDiffer(p: Prefix, addrs: seq<Addr>) {
    exists a, b :: a in addrs && b in addrs && Contains(p, a) && Contains(p, b) &&
      Masked(a, p.bits + 1) != Masked(b, p.bits + 1)
  }

  lemma GroupMember(addrs: seq<Addr>, k: Key) returns (a: Addr)
    requires k in Keys(addrs, 4) + Keys(addrs, 16)
    ensures InGroup(addrs, k, a)
  {
    a :| a in addrs && a != [] && KeyOf(a) == k;
  }

  /** Whatever the prefix contains has the key. */
  lemma ContainedHasKey(p: Prefix, k: Key, a: Addr)
    requires IsFor(p, k) && Contains(p, a)
    ensures a != [] && KeyOf(a) == k
  {
    var n := |k|;
    forall i | 0 <= i < n
      ensures a[i] == p.addr[i]
    {
      assert BitsInByte(p.bits, i) == 8;
      assert Masked(a, p.bits)[i] == Masked(p.addr, p.bits)[i];
    }
    assert a[..n] == p.addr[..n];
  }

  lemma ContainsHalf(p: Prefix, addrs: seq<Addr>, k: Key, a: Addr, b: Addr)
    requires Tight(p, addrs, k) && a in addrs && b in addrs && Contains(p, a) && b != []
    ensures Contains(p, b) <==> AgreeInHalf(a, b)
  {
    ContainedHasKey(p, k, a);
    if Contains(p, b) {
      ContainedHasKey(p, k, b);
    }
    if AgreeInHalf(a, b) {
      assert InGroup(addrs, k, b);
    }
  }

  lemma TightDiffers(p: Prefix, addrs: seq<Addr>, k: Key)
    requires Tight(p, addrs, k) && p.bits < Limit(k)
    ensures SomeDiffer(p, addrs)
  {
    var x: Addr, y: Addr :|
      InGroup(addrs, k, x) && InGroup(addrs, k, y) && Masked(x, p.bits + 1) != Masked(y, p.bits + 1);
    assert Contains(p, x) && Contains(p, y);
  }

  lemma TightMeans(p: Prefix, addrs: seq<Addr>)
    requires TightForSome(p, addrs)
    ensures IsTight(p, addrs)
  {
    var k :| k in Keys(addrs, 4) + Keys(addrs, 16) && Tight(p, addrs, k);
    var a := GroupMember(addrs, k);
    assert a in addrs && Contains(p, a);
    forall a, b | a in addrs && b in addrs && Contains(p, a) && b != []
      ensures Contains(p, b) <==> AgreeInHalf(a, b)
    {
      ContainsHalf(p, addrs, k, a, b);
    }
    if p.bits < Limit(k) {
      TightDiffers(p, addrs, k);
    }
  }
}
