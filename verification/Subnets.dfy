/** pkg/subnet: dropping covered subnets in place. */
module Subnets {
  import opened IpPrefix

  // ---------- Unique ----------

  /** Some prefix of the sequence contains every address of `p`. */
  ghost predicate InsideSome(p: Prefix, ps: seq<Prefix>) {
    exists j :: 0 <= j < |ps| && Within(p, ps[j])
  }

  /** What is left when the last element takes the place of element `i`. */
  ghost function Without(ps: seq<Prefix>, i: nat): seq<Prefix>
    requires i < |ps|
  {
    ps[i := ps[|ps| - 1]][..|ps| - 1]
  }

  lemma WithoutIsSmaller(ps: seq<Prefix>, i: nat)
    requires i < |ps|
    ensures multiset(Without(ps, i)) <= multiset(ps)
  {
    var n := |ps| - 1;
    assert ps == ps[..n] + [ps[n]];
    if i < n {
      assert Without(ps, i) == ps[..i] + [ps[n]] + ps[i + 1..n];
      assert ps[..n] == ps[..i] + [ps[i]] + ps[i + 1..n];
    }
  }

  /** Dropping an element that another one covers loses no address. */
  lemma WithoutKeepsInside(p: Prefix, ps: seq<Prefix>, i: nat, r: nat)
    requires i < |ps| && r < |ps| && r != i && Within(ps[i], ps[r])
    requires InsideSome(p, ps)
    ensures InsideSome(p, Without(ps, i))
  {
    var j :| 0 <= j < |ps| && Within(p, ps[j]);
    var k := if j == i then r else j;
    var ws := Without(ps, i);
    var k' := if k == |ps| - 1 then i else k;
    assert ws[k'] == ps[k];
  }

  /** The inner loop of `Unique`: a position other than `i` whose prefix covers that at `i`, or `ln`. */
  method FindCover(subnets: array<Prefix>, ln: nat, i: nat) returns (r: nat)
    requires i < ln <= subnets.Length
    ensures r <= ln
    ensures r < ln ==> r != i && Covers(subnets[r], subnets[i])
    ensures r == ln ==> forall j :: 0 <= j < ln && j != i ==> !Covers(subnets[j], subnets[i])
  {
    r := 0;
    while r < ln
      invariant r <= ln
      invariant forall j :: 0 <= j < r && j != i ==> !Covers(subnets[j], subnets[i])
    {
      if r != i && Covers(subnets[r], subnets[i]) {
        return;
      }
      r := r + 1;
    }
  }

  /** What `Unique` promises about the prefixes it keeps. */
  ghost predicate Keeps(kept: seq<Prefix>, input: seq<Prefix>) {
    && multiset(kept) <= multiset(input)
    && forall p :: p in input ==> InsideSome(p, kept)
  }

  /** None of the first `i` prefixes is covered by a prefix at another position. */
  ghost predicate Uncovered(ps: seq<Prefix>, i: int) {
    forall k, j :: 0 <= k < i && k < |ps| && 0 <= j < |ps| && k != j ==> !Covers(ps[j], ps[k])
  }

  /** Dropping a covered element keeps the promises. */
  lemma DropKeeps(kept: seq<Prefix>, i: nat, r: nat, input: seq<Prefix>)
    requires i < |kept| && r < |kept| && r != i && Covers(kept[r], kept[i])
    requires Keeps(kept, input) && Uncovered(kept, i)
    ensures Keeps(Without(kept, i), input) && Uncovered(Without(kept, i), i)
  {
    WithoutIsSmaller(kept, i);
    CoversIsSound(kept[r], kept[i]);
    forall p | p in input ensures InsideSome(p, Without(kept, i)) {
      WithoutKeepsInside(p, kept, i, r);
    }
  }

  /** Drop element `i` of the first `ln` by moving the last of them into its place. */
  method DropAt(subnets: array<Prefix>, ln: nat, i: nat)
    requires i < ln <= subnets.Length
    modifies subnets
    ensures subnets[..ln - 1] == Without(old(subnets[..ln]), i)
  {
    if i < ln - 1 {
      subnets[i] := subnets[ln - 1];
    }
  }

  /** The same when element `r` covers it: nothing is lost. */
  method DropCovered(subnets: array<Prefix>, ln: nat, i: nat, ghost r: nat, ghost input: seq<Prefix>)
    requires i < ln <= subnets.Length && r < ln && r != i && Covers(subnets[r], subnets[i])
    requires Keeps(subnets[..ln], input) && Uncovered(subnets[..ln], i)
    modifies subnets
    ensures Keeps(subnets[..ln - 1], input) && Uncovered(subnets[..ln - 1], i)
  {
    DropKeeps(subnets[..ln], i, r, input);
    DropAt(subnets, ln, i);
  }

  /** `Unique`. The result is the first `ln` elements of the altered array. */
  method Unique(subnets: array<Prefix>) returns (ln: nat)
    modifies subnets
    ensures ln <= subnets.Length
    ensures Keeps(subnets[..ln], old(subnets[..])) && Uncovered(subnets[..ln], ln)
  {
    ln := subnets.Length;
    ghost var input := subnets[..];
    assert subnets[..ln] == input;
    var i := 0;
    while i < ln
      invariant 0 <= i <= ln <= subnets.Length
      invariant Keeps(subnets[..ln], input) && Uncovered(subnets[..ln], i)
      decreases 2 * ln - i
    {
      var r := FindCover(subnets, ln, i);
      if r < ln {
        DropCovered(subnets, ln, i, r, input);
        ln := ln - 1;
      } else {
        i := i + 1;
      }
    }
  }
}
