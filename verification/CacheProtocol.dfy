/** The snapshot/delta protocol of pkg/cache as a step system. A `Server` is the state of a Map with
    its subscriptions; each subscription also has the replica that its client keeps. `Compute`,
    `Subscribe`, `Notify` and a client's `Receive` are atomic steps and a run is any sequence of them. */
module CacheProtocol {
  import opened CacheDelta
  import opened Wrappers

  /** A subscriber's filter; `None` is the nil filter that includes everything. */
  type Filter = Option<(Key, Value) -> bool>

  /** `equal` compares values; `zero` is the Value that Go hands to a filter for a missing entry. */
  datatype Config = Config(equal: (Value, Value) -> bool, zero: Value)

  /** What the function passed to Compute asks for. */
  datatype ComputeOp = CancelOp | UpdateOp(value: Value) | DeleteOp

  datatype Subscriber = Subscriber(filter: Filter, initialized: bool, mark: bool, channel: Option<Delta>)

  datatype Server = Server(entries: map<Key, Value>, snapshot: map<Key, Value>, subscribers: seq<Subscriber>)

  /** A server and, for each of its subscribers, the map of the client that reads its channel. */
  datatype State = State(server: Server, replicas: seq<map<Key, Value>>)

  datatype Action =
    | Compute(key: Key, f: Option<Value> -> ComputeOp)
    | Subscribe(done: bool, filter: Filter)
    | Notify
    | Receive(client: nat)

  predicate Includes(filter: Filter, k: Key, v: Value) {
    filter.None? || filter.value(k, v)
  }

  ghost predicate KeyOnly(filter: Filter) {
    forall k, v, w :: Includes(filter, k, v) == Includes(filter, k, w)
  }

  ghost function Filtered(filter: Filter, m: map<Key, Value>): map<Key, Value> {
    m - (set k | k in m && !Includes(filter, k, m[k]))
  }

  ghost predicate Equivalence(equal: (Value, Value) -> bool) {
    && (forall a :: equal(a, a))
    && (forall a, b :: equal(a, b) ==> equal(b, a))
    && (forall a, b, c :: equal(a, b) && equal(b, c) ==> equal(a, c))
  }

  /** Same keys, and the values are equal as far as the map's `equal` can tell. */
  ghost predicate Agree(cfg: Config, a: map<Key, Value>, b: map<Key, Value>) {
    a.Keys == b.Keys && forall k :: k in a && k in b ==> cfg.equal(a[k], b[k])
  }

  // ---------- Compute ----------

  ghost function Lookup(m: map<Key, Value>, k: Key): Option<Value> {
    if k in m then Some(m[k]) else None
  }

  /** An update to an equal value is turned into a cancel. */
  ghost function Effective(cfg: Config, current: Option<Value>, op: ComputeOp): ComputeOp {
    if op.UpdateOp? && current.Some? && cfg.equal(op.value, current.value) then CancelOp else op
  }

  ghost function Marked(s: Subscriber, k: Key, v: Value): Subscriber {
    if !s.mark && Includes(s.filter, k, v) then s.(mark := true) else s
  }

  ghost function MarkAll(ss: seq<Subscriber>, k: Key, v: Value): (r: seq<Subscriber>)
    ensures |r| == |ss| && forall i :: 0 <= i < |ss| ==> r[i] == Marked(ss[i], k, v)
  {
    seq(|ss|, i requires 0 <= i < |ss| => Marked(ss[i], k, v))
  }

  ghost function Computed(cfg: Config, s: Server, key: Key, f: Option<Value> -> ComputeOp): Server {
    var current := Lookup(s.entries, key);
    match Effective(cfg, current, f(current))
    case CancelOp => s
    case UpdateOp(v) =>
      s.(entries := s.entries[key := v], subscribers := MarkAll(s.subscribers, key, v))
    case DeleteOp =>
      var v := if current.Some? then current.value else cfg.zero;
      s.(entries := s.entries - {key}, subscribers := MarkAll(s.subscribers, key, v))
  }

  // ---------- Notify ----------

  ghost predicate Changed(cfg: Config, previous: map<Key, Value>, k: Key, v: Value) {
    !(k in previous && cfg.equal(previous[k], v))
  }

  /** The difference between two snapshots. */
  ghost function Diff(cfg: Config, previous: map<Key, Value>, current: map<Key, Value>): Delta {
    Delta(current - (set k | k in current && !Changed(cfg, previous, k, current[k])), previous - current.Keys)
  }

  ghost function FilteredDelta(filter: Filter, d: Delta): Delta {
    Delta(Filtered(filter, d.upserts), Filtered(filter, d.removals))
  }

  /** What one subscriber becomes when a marked subscription is served. */
  ghost function Sent(s: Subscriber, current: map<Key, Value>, diff: Delta): Subscriber {
    var fd := FilteredDelta(s.filter, if s.initialized then diff else Delta(current, map[]));
    var s' := s.(mark := false, initialized := true);
    if s.initialized && fd == Delta(map[], map[]) then s'
    else s'.(channel := Some(if s.channel.Some? then Merged(s.channel.value, fd) else fd))
  }

  ghost function Served(s: Subscriber, current: map<Key, Value>, diff: Delta): Subscriber {
    if s.mark then Sent(s, current, diff) else s
  }

  ghost function ServeAll(ss: seq<Subscriber>, current: map<Key, Value>, diff: Delta): (r: seq<Subscriber>)
    ensures |r| == |ss| && forall i :: 0 <= i < |ss| ==> r[i] == Served(ss[i], current, diff)
  {
    seq(|ss|, i requires 0 <= i < |ss| => Served(ss[i], current, diff))
  }

  ghost function Notified(cfg: Config, s: Server): Server {
    Server(s.entries, s.entries,
           ServeAll(s.subscribers, s.entries, Diff(cfg, s.snapshot, s.entries)))
  }

  // ---------- Subscribe ----------

  ghost function NewSubscriber(filter: Filter): Subscriber {
    Subscriber(filter, false, true, None)
  }

  ghost function Subscribed(cfg: Config, s: Server, filter: Filter): Server {
    Notified(cfg, s.(subscribers := s.subscribers + [NewSubscriber(filter)]))
  }

  // ---------- Runs ----------

  ghost const INITIAL: State := State(Server(map[], map[], []), [])

  ghost predicate Paired(s: State) {
    |s.replicas| == |s.server.subscribers|
  }

  /** The client of `s` takes the pending delta, if any, and applies it. */
  ghost function Received(s: State, client: nat): State {
    if Paired(s) && client < |s.replicas| && s.server.subscribers[client].channel.Some? then
      var sub := s.server.subscribers[client];
      State(s.server.(subscribers := s.server.subscribers[client := sub.(channel := None)]),
            s.replicas[client := Apply(s.replicas[client], sub.channel.value)])
    else s
  }

  ghost function Step(cfg: Config, s: State, a: Action): State {
    match a
    case Compute(key, f) => s.(server := Computed(cfg, s.server, key, f))
    case Subscribe(done, filter) =>
      if done then s
      else State(Subscribed(cfg, s.server, filter), s.replicas + [map[]])
    case Notify => s.(server := Notified(cfg, s.server))
    case Receive(client) => Received(s, client)
  }

  ghost function Run(cfg: Config, s: State, actions: seq<Action>): State
    decreases |actions|
  {
    if actions == [] then s else Run(cfg, Step(cfg, s, actions[0]), actions[1..])
  }

  /** The map the client holds once it has drained its channel. */
  ghost function Drained(s: State, i: nat): map<Key, Value>
    requires Paired(s) && i < |s.replicas|
  {
    var channel := s.server.subscribers[i].channel;
    if channel.Some? then Apply(s.replicas[i], channel.value) else s.replicas[i]
  }

  // ---------- The invariant ----------

  /** What holds for subscriber `i`, whatever the filters of the other subscribers are. */
  ghost predicate Consistent(cfg: Config, s: State, i: nat)
    requires Paired(s) && i < |s.replicas|
  {
    var sub := s.server.subscribers[i];
    && (sub.channel.Some? ==> Disjoint(sub.channel.value))
    && (sub.initialized ==> Agree(cfg, Drained(s, i), Filtered(sub.filter, s.server.snapshot)))
    && (!sub.initialized ==> sub.channel.None? && s.replicas[i] == map[])
    && (!sub.mark ==> sub.initialized)
    && (!sub.mark ==> Agree(cfg, Filtered(sub.filter, s.server.entries), Filtered(sub.filter, s.server.snapshot)))
  }

  lemma StepKeepsPaired(cfg: Config, s: State, a: Action)
    requires Paired(s)
    ensures Paired(Step(cfg, s, a))
    ensures |Step(cfg, s, a).replicas| >= |s.replicas|
    ensures forall i :: 0 <= i < |s.replicas| ==>
              Step(cfg, s, a).server.subscribers[i].filter == s.server.subscribers[i].filter
  {
  }

  lemma AgreeIsTransitive(cfg: Config, a: map<Key, Value>, b: map<Key, Value>, c: map<Key, Value>)
    requires Equivalence(cfg.equal)
    requires Agree(cfg, a, b) && Agree(cfg, b, c)
    ensures Agree(cfg, a, c) && Agree(cfg, c, a)
  {
  }

  lemma ComputeKeepsConsistent(cfg: Config, s: State, key: Key, f: Option<Value> -> ComputeOp, i: nat)
    requires Equivalence(cfg.equal) && Paired(s) && i < |s.replicas|
    requires KeyOnly(s.server.subscribers[i].filter) && Consistent(cfg, s, i)
    ensures Consistent(cfg, Step(cfg, s, Compute(key, f)), i)
  {
    var s' := Step(cfg, s, Compute(key, f));
    var sub := s.server.subscribers[i];
    if !s'.server.subscribers[i].mark && s'.server.entries != s.server.entries {
      assert forall v :: !Includes(sub.filter, key, v);
      assert Filtered(sub.filter, s'.server.entries) == Filtered(sub.filter, s.server.entries);
    }
  }

  /** Replaying the filtered difference turns a copy of one snapshot into a copy of the next. */
  lemma DiffAdvances(cfg: Config, filter: Filter, replica: map<Key, Value>,
                     previous: map<Key, Value>, current: map<Key, Value>)
    requires Equivalence(cfg.equal) && KeyOnly(filter)
    requires Agree(cfg, replica, Filtered(filter, previous))
    ensures var fd := FilteredDelta(filter, Diff(cfg, previous, current));
            && Disjoint(fd)
            && Agree(cfg, Apply(replica, fd), Filtered(filter, current))
  {
    var fd := FilteredDelta(filter, Diff(cfg, previous, current));
    var next := Apply(replica, fd);
    var want := Filtered(filter, current);
    forall k ensures k in next <==> k in want {
      if k in previous && k in current {
        assert Includes(filter, k, previous[k]) == Includes(filter, k, current[k]);
      }
    }
    forall k | k in next && k in want ensures cfg.equal(next[k], want[k]) {
      if k !in fd.upserts {
        assert k in previous && cfg.equal(previous[k], current[k]);
      }
    }
  }

  lemma NotifyKeepsConsistent(cfg: Config, s: State, i: nat)
    requires Equivalence(cfg.equal) && Paired(s) && i < |s.replicas|
    requires KeyOnly(s.server.subscribers[i].filter) && Consistent(cfg, s, i)
    ensures var s' := Step(cfg, s, Notify);
            Consistent(cfg, s', i) && s'.server.subscribers[i].initialized && !s'.server.subscribers[i].mark
  {
    var s' := Step(cfg, s, Notify);
    var sub, sub' := s.server.subscribers[i], s'.server.subscribers[i];
    var previous, current := s.server.snapshot, s.server.entries;
    if !sub.mark {
      AgreeIsTransitive(cfg, Drained(s, i), Filtered(sub.filter, previous), Filtered(sub.filter, current));
    } else if sub.initialized {
      DiffAdvances(cfg, sub.filter, Drained(s, i), previous, current);
      var fd := FilteredDelta(sub.filter, Diff(cfg, previous, current));
      if sub.channel.Some? {
        MergeIsComposition(s.replicas[i], sub.channel.value, fd);
        MergeKeepsDisjoint(sub.channel.value, fd);
      }
      assert fd == Delta(map[], map[]) ==> Apply(Drained(s, i), fd) == Drained(s, i);
    } else {
      assert Filtered(sub.filter, map[]) == map[];
      assert Drained(s', i) == Filtered(sub.filter, current);
    }
  }

  lemma StepKeepsConsistent(cfg: Config, s: State, a: Action, i: nat)
    requires Equivalence(cfg.equal) && Paired(s) && i < |s.replicas|
    requires KeyOnly(s.server.subscribers[i].filter) && Consistent(cfg, s, i)
    ensures Paired(Step(cfg, s, a)) && i < |Step(cfg, s, a).replicas|
    ensures Consistent(cfg, Step(cfg, s, a), i)
  {
    StepKeepsPaired(cfg, s, a);
    match a
    case Compute(key, f) => ComputeKeepsConsistent(cfg, s, key, f, i);
    case Subscribe(done, filter) =>
      if !done {
        NotifyKeepsConsistent(cfg, Enlisted(s, filter), i);
      }
    case Notify => NotifyKeepsConsistent(cfg, s, i);
    case Receive(client) =>
  }

  /** The state inside Subscribe, after the new subscription is stored and before it is served. */
  ghost function Enlisted(s: State, filter: Filter): State {
    State(s.server.(subscribers := s.server.subscribers + [NewSubscriber(filter)]), s.replicas + [map[]])
  }

  lemma SubscribeEstablishesConsistent(cfg: Config, s: State, filter: Filter)
    requires Equivalence(cfg.equal) && Paired(s) && KeyOnly(filter)
    ensures var s' := Step(cfg, s, Subscribe(false, filter));
            Paired(s') && |s.replicas| < |s'.replicas| && Consistent(cfg, s', |s.replicas|)
  {
    StepKeepsPaired(cfg, s, Subscribe(false, filter));
    NotifyKeepsConsistent(cfg, Enlisted(s, filter), |s.replicas|);
  }

  lemma {:induction false} RunKeepsConsistent(cfg: Config, s: State, actions: seq<Action>, i: nat)
    requires Equivalence(cfg.equal) && Paired(s) && i < |s.replicas|
    requires KeyOnly(s.server.subscribers[i].filter) && Consistent(cfg, s, i)
    ensures var t := Run(cfg, s, actions);
            && Paired(t) && i < |t.replicas| && Consistent(cfg, t, i)
            && t.server.subscribers[i].filter == s.server.subscribers[i].filter
    decreases |actions|
  {
    if actions != [] {
      StepKeepsPaired(cfg, s, actions[0]);
      StepKeepsConsistent(cfg, s, actions[0], i);
      RunKeepsConsistent(cfg, Step(cfg, s, actions[0]), actions[1..], i);
    }
  }

  lemma {:induction false} RunKeepsPaired(cfg: Config, s: State, actions: seq<Action>)
    requires Paired(s)
    ensures Paired(Run(cfg, s, actions))
    ensures |Run(cfg, s, actions).replicas| >= |s.replicas|
    decreases |actions|
  {
    if actions != [] {
      StepKeepsPaired(cfg, s, actions[0]);
      RunKeepsPaired(cfg, Step(cfg, s, actions[0]), actions[1..]);
    }
  }

  // ---------- Convergence ----------

  /** Subscribe with `filter` after the run `before`, go on with the run `after`, and then let the
      notifier fire and the client drain its channel: the client holds the filtered server map. */
  ghost predicate Converges(cfg: Config, filter: Filter, before: seq<Action>, after: seq<Action>) {
    var s := Run(cfg, INITIAL, before);
    var i := |s.replicas|;
    var t := Run(cfg, Step(cfg, s, Subscribe(false, filter)), after);
    var u := Received(Step(cfg, t, Notify), i);
    && Paired(u) && i < |u.replicas|
    && u.server.subscribers[i].channel.None?
    && Agree(cfg, u.replicas[i], Filtered(filter, u.server.entries))
    && u.server.entries == t.server.entries
  }

  /** With a filter that looks at keys only, every run converges. */
  lemma EveryRunConverges(cfg: Config, filter: Filter, before: seq<Action>, after: seq<Action>)
    requires Equivalence(cfg.equal) && KeyOnly(filter)
    ensures Converges(cfg, filter, before, after)
  {
    RunKeepsPaired(cfg, INITIAL, before);
    var s := Run(cfg, INITIAL, before);
    var i := |s.replicas|;
    SubscribeEstablishesConsistent(cfg, s, filter);
    var s1 := Step(cfg, s, Subscribe(false, filter));
    RunKeepsConsistent(cfg, s1, after, i);
    var t := Run(cfg, s1, after);
    NotifyKeepsConsistent(cfg, t, i);
    var n := Step(cfg, t, Notify);
    assert Received(n, i).replicas[i] == Drained(n, i);
    assert n.server.snapshot == n.server.entries;
  }

  ghost function Put(k: Key, v: Value): Action {
    Compute(k, (current: Option<Value>) => UpdateOp(v))
  }

  ghost function Drop(k: Key): Action {
    Compute(k, (current: Option<Value>) => DeleteOp)
  }

  lemma RunOne(cfg: Config, s: State, a: Action)
    ensures Run(cfg, s, [a]) == Step(cfg, s, a)
  {
    assert [a][1..] == [];
    assert Run(cfg, Step(cfg, s, a), []) == Step(cfg, s, a);
  }

  lemma RunTwo(cfg: Config, s: State, a: Action, b: Action)
    ensures Run(cfg, s, [a, b]) == Step(cfg, Step(cfg, s, a), b)
  {
    assert [a, b][1..] == [b];
    RunOne(cfg, Step(cfg, s, a), b);
  }

  /** The state after storing `v` in an empty map and subscribing with a filter that includes it. */
  lemma SubscribeAfterPut(cfg: Config, filter: Filter, k: Key, v: Value)
    requires Includes(filter, k, v)
    ensures Run(cfg, INITIAL, [Put(k, v)]) == State(Server(map[k := v], map[], []), [])
    ensures Step(cfg, Run(cfg, INITIAL, [Put(k, v)]), Subscribe(false, filter))
         == State(Server(map[k := v], map[k := v],
                         [Subscriber(filter, true, false, Some(Delta(map[k := v], map[])))]), [map[]])
  {
    RunOne(cfg, INITIAL, Put(k, v));
    var s := Run(cfg, INITIAL, [Put(k, v)]);
    assert s.server.entries == map[k := v];
    assert s == State(Server(map[k := v], map[], []), []);
    var sub := NewSubscriber(filter);
    var s' := Step(cfg, s, Subscribe(false, filter));
    assert Filtered(filter, map[k := v]) == map[k := v];
    assert Filtered(filter, map[]) == map[];
    assert s'.server.subscribers == [Sent(sub, map[k := v], Diff(cfg, map[], map[k := v]))];
    assert s'.replicas == [map[]];
  }

  /** A value that leaves the filter is not reported: the client keeps the old one. */
  lemma LeavingTheFilterDiverges(cfg: Config, filter: Filter, k: Key, v: Value, w: Value)
    requires Includes(filter, k, v) && !Includes(filter, k, w) && !cfg.equal(w, v)
    ensures !Converges(cfg, filter, [Put(k, v)], [Put(k, w)])
  {
    SubscribeAfterPut(cfg, filter, k, v);
    var s1 := Step(cfg, Run(cfg, INITIAL, [Put(k, v)]), Subscribe(false, filter));
    RunOne(cfg, s1, Put(k, w));
    var t := Run(cfg, s1, [Put(k, w)]);
    assert t.server.entries == map[k := w];
    assert t.server.subscribers[0] == s1.server.subscribers[0];
    var n := Step(cfg, t, Notify);
    assert n.server.subscribers[0] == s1.server.subscribers[0];
    assert k in Received(n, 0).replicas[0];
    assert k !in Filtered(filter, n.server.entries);
  }

  /** The same with two values that `equal` cannot tell apart, through a delete and a new store. */
  lemma EqualValuesDiverge(cfg: Config, filter: Filter, k: Key, v: Value, w: Value)
    requires Includes(filter, k, v) && !Includes(filter, k, w) && cfg.equal(v, w)
    ensures !Converges(cfg, filter, [Put(k, v)], [Drop(k), Put(k, w)])
  {
    SubscribeAfterPut(cfg, filter, k, v);
    var s1 := Step(cfg, Run(cfg, INITIAL, [Put(k, v)]), Subscribe(false, filter));
    RunTwo(cfg, s1, Drop(k), Put(k, w));
    var s2 := Step(cfg, s1, Drop(k));
    assert s2.server.entries == map[];
    assert s2.server.subscribers == [s1.server.subscribers[0].(mark := true)];
    var t := Step(cfg, s2, Put(k, w));
    assert t.server.entries == map[k := w];
    assert t.server.subscribers == s2.server.subscribers;
    var diff := Diff(cfg, map[k := v], map[k := w]);
    assert diff == Delta(map[], map[]);
    assert FilteredDelta(filter, diff) == Delta(map[], map[]);
    var n := Step(cfg, t, Notify);
    assert n.server.subscribers[0].channel == Some(Delta(map[k := v], map[]));
    assert k in Received(n, 0).replicas[0];
    assert k !in Filtered(filter, n.server.entries);
  }

  /** The protocol converges in every run exactly for the filters that look at keys only. */
  lemma ConvergesExactlyForKeyFilters(cfg: Config, filter: Filter)
    requires Equivalence(cfg.equal)
    ensures (forall before, after :: Converges(cfg, filter, before, after)) <==> KeyOnly(filter)
  {
    if KeyOnly(filter) {
      forall before, after ensures Converges(cfg, filter, before, after) {
        EveryRunConverges(cfg, filter, before, after);
      }
    } else {
      var k, v, w :| Includes(filter, k, v) != Includes(filter, k, w);
      var a, b := if Includes(filter, k, v) then v else w, if Includes(filter, k, v) then w else v;
      if cfg.equal(b, a) {
        EqualValuesDiverge(cfg, filter, k, a, b);
      } else {
        LeavingTheFilterDiverges(cfg, filter, k, a, b);
      }
    }
  }
}
