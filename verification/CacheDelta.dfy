/** The deltas that pkg/cache sends to subscribers: how a client applies one, and how an unread
    one is merged with its successor. */
module CacheDelta {

  type Key(==, !new)
  type Value(!new)

  datatype Delta = Delta(upserts: map<Key, Value>, removals: map<Key, Value>)

  /** No key is both upserted and removed. Every delta that a Map produces has this shape. */
  ghost predicate Disjoint(d: Delta) {
    d.upserts.Keys !! d.removals.Keys
  }

  /** What a client map becomes when it stores the upserts and then deletes the removals. */
  ghost function Apply(m: map<Key, Value>, d: Delta): map<Key, Value> {
    (m + d.upserts) - d.removals.Keys
  }

  /** The value that `Merge` computes: an empty side is replaced, a non-empty one is updated. */
  ghost function Merged(delta: Delta, other: Delta): Delta {
    Delta(
      if delta.upserts == map[] then other.upserts else (delta.upserts + other.upserts) - other.removals.Keys,
      if delta.removals == map[] then other.removals else (delta.removals + other.removals) - other.upserts.Keys)
  }

  /** Store every entry of `extra` into `m`, one key at a time. */
  method StoreAll(m: map<Key, Value>, extra: map<Key, Value>) returns (r: map<Key, Value>)
    ensures r == m + extra
  {
    r := m;
    var todo := extra.Keys;
    while todo != {}
      invariant todo <= extra.Keys
      invariant r == m + (extra - todo)
      decreases |todo|
    {
      var k :| k in todo;
      StoreOne(m, extra, todo, k);
      r := r[k := extra[k]];
      todo := todo - {k};
    }
    NothingLeft(m, extra);
  }

  lemma NothingLeft(m: map<Key, Value>, extra: map<Key, Value>)
    ensures m + (extra - {}) == m + extra
  {
    assert extra - {} == extra;
  }

  lemma StoreOne(m: map<Key, Value>, extra: map<Key, Value>, todo: set<Key>, k: Key)
    requires k in todo && todo <= extra.Keys
    ensures (m + (extra - todo))[k := extra[k]] == m + (extra - (todo - {k}))
  {
  }

  /** Delete every key of `gone` from `m`, one key at a time. */
  method DeleteAll(m: map<Key, Value>, gone: set<Key>) returns (r: map<Key, Value>)
    ensures r == m - gone
  {
    r := m;
    var todo := gone;
    while todo != {}
      invariant todo <= gone
      invariant r == m - (gone - todo)
      decreases |todo|
    {
      var k :| k in todo;
      r := r - {k};
      todo := todo - {k};
    }
  }

  /** `Delta.Merge`. */
  method Merge(delta: Delta, other: Delta) returns (merged: Delta)
    ensures merged == Merged(delta, other)
  {
    var upserts, removals := delta.upserts, delta.removals;
    assert |upserts| == 0 <==> upserts == map[];
    assert |removals| == 0 <==> removals == map[];
    if |upserts| == 0 {
      upserts := other.upserts;
    } else {
      upserts := StoreAll(upserts, other.upserts);
      upserts := DeleteAll(upserts, other.removals.Keys);
    }
    if |removals| == 0 {
      removals := other.removals;
    } else {
      removals := StoreAll(removals, other.removals);
      removals := DeleteAll(removals, other.upserts.Keys);
    }
    merged := Delta(upserts, removals);
  }

  /** Applying a merged delta is the same as applying the two deltas in turn. */
  lemma MergeIsComposition(m: map<Key, Value>, d1: Delta, d2: Delta)
    requires Disjoint(d2) || d1.removals == map[]
    ensures Apply(m, Merged(d1, d2)) == Apply(Apply(m, d1), d2)
  {
    var left, right := Apply(m, Merged(d1, d2)), Apply(Apply(m, d1), d2);
    forall k
      ensures k in left <==> k in right
      ensures k in left && k in right ==> left[k] == right[k]
    {
      assert k in Merged(d1, d2).removals <==>
          k in d2.removals || (k in d1.removals && k !in d2.upserts);
    }
    assert left.Keys == right.Keys;
  }

  /** The condition of `MergeIsComposition` is exact: without it some client map is left wrong. */
  lemma MergeComposesExactly(d1: Delta, d2: Delta)
    ensures (forall m :: Apply(m, Merged(d1, d2)) == Apply(Apply(m, d1), d2))
            <==> Disjoint(d2) || d1.removals == map[]
  {
    if Disjoint(d2) || d1.removals == map[] {
      forall m ensures Apply(m, Merged(d1, d2)) == Apply(Apply(m, d1), d2) {
        MergeIsComposition(m, d1, d2);
      }
    } else {
      var k :| k in d2.upserts && k in d2.removals;
      var m := map[k := d2.upserts[k]];
      assert k in Apply(m, Merged(d1, d2)) && k !in Apply(Apply(m, d1), d2);
    }
  }

  lemma MergeKeepsDisjoint(d1: Delta, d2: Delta)
    requires Disjoint(d1) && Disjoint(d2)
    ensures Disjoint(Merged(d1, d2))
  {
    MergedUniformly(d1, d2);
  }

  /** A disjoint second delta makes the empty-map shortcuts agree with the general case. */
  lemma MergedUniformly(d1: Delta, d2: Delta)
    requires Disjoint(d2)
    ensures Merged(d1, d2).upserts == (d1.upserts + d2.upserts) - d2.removals.Keys
    ensures Merged(d1, d2).removals == (d1.removals + d2.removals) - d2.upserts.Keys
  {
  }

  /** Merging is associative; only the two later deltas have to be disjoint. */
  lemma MergeIsAssociative(d1: Delta, d2: Delta, d3: Delta)
    requires Disjoint(d2) && Disjoint(d3)
    ensures Merged(Merged(d1, d2), d3) == Merged(d1, Merged(d2, d3))
  {
    MergeKeepsDisjoint(d2, d3);
    MergedUniformly(d1, d2);
    MergedUniformly(d2, d3);
    MergedUniformly(Merged(d1, d2), d3);
    MergedUniformly(d1, Merged(d2, d3));
    SidesAssociate(d1.upserts, d2.upserts, d3.upserts, d2.removals, d3.removals);
    SidesAssociate(d1.removals, d2.removals, d3.removals, d2.upserts, d3.upserts);
  }

  /** One side of the associativity law: `x` the maps being accumulated, `y` the opposite sides. */
  lemma SidesAssociate(x1: map<Key, Value>, x2: map<Key, Value>, x3: map<Key, Value>,
                       y2: map<Key, Value>, y3: map<Key, Value>)
    requires x2.Keys !! y2.Keys && x3.Keys !! y3.Keys
    ensures (((x1 + x2) - y2.Keys) + x3) - y3.Keys
         == (x1 + ((x2 + x3) - y3.Keys)) - ((y2 + y3) - x3.Keys).Keys
  {
    var left := (((x1 + x2) - y2.Keys) + x3) - y3.Keys;
    var right := (x1 + ((x2 + x3) - y3.Keys)) - ((y2 + y3) - x3.Keys).Keys;
    assert left.Keys == right.Keys;
    forall k | k in left
      ensures left[k] == right[k]
    {
      if k in x3 {
      } else if k in x2 {
      }
    }
  }
}
