/** What the steps of the protocol do, in terms of the entries, the filters and the values alone. */
module CacheEffects {
  import opened CacheDelta
  import opened CacheProtocol
  import opened Wrappers

  /** The function decides on what the map holds for the key at that moment: the entry is deleted, replaced
      by a value that is not equal to it, or everything stays as it is. */
  lemma ComputeExactly(cfg: Config, s: State, key: Key, f: Option<Value> -> ComputeOp)
    ensures var entries, t := s.server.entries, Step(cfg, s, Compute(key, f));
            var current := if key in entries then Some(entries[key]) else None;
            match f(current)
            case DeleteOp => t.server.entries == entries - {key}
            case UpdateOp(w) =>
              if key in entries && cfg.equal(w, entries[key]) then t == s else t.server.entries == entries[key := w]
            case CancelOp => t == s
  {
  }

  /** The value that a change shows to the filters: the new one, or the one that is deleted. */
  ghost function Shown(cfg: Config, entries: map<Key, Value>, key: Key, op: ComputeOp): Value {
    if op.UpdateOp? then op.value else if key in entries then entries[key] else cfg.zero
  }

  /** A change marks the subscribers whose filter includes it, and nothing else happens to them. */
  lemma ComputeMarksExactly(cfg: Config, s: State, key: Key, f: Option<Value> -> ComputeOp, i: nat)
    requires i < |s.server.subscribers|
    ensures var entries, t := s.server.entries, Step(cfg, s, Compute(key, f));
            var op := f(if key in entries then Some(entries[key]) else None);
            var changes := op.DeleteOp? || (op.UpdateOp? && !(key in entries && cfg.equal(op.value, entries[key])));
            var sub := s.server.subscribers[i];
            var sees := sub.filter.None? || sub.filter.value(key, Shown(cfg, entries, key, op));
            && |t.server.subscribers| == |s.server.subscribers|
            && t.server.subscribers[i] == sub.(mark := sub.mark || (changes && sees))
            && t.server.snapshot == s.server.snapshot && t.replicas == s.replicas
  {
  }

  /** `m` holds those entries of `all` that `wanted` admits. */
  ghost predicate Part(m: map<Key, Value>, all: map<Key, Value>, wanted: (Key, Value) -> bool) {
    forall k :: (k in m <==> k in all && wanted(k, all[k])) && (k in m ==> m[k] == all[k])
  }

  ghost predicate Sees(filter: Filter, k: Key, v: Value) {
    filter.None? || filter.value(k, v)
  }

  /** Subscribing sends the entries that the filter includes, even if there are none. */
  lemma SubscribeSendsAll(cfg: Config, s: State, filter: Filter)
    ensures var t := Step(cfg, s, Subscribe(false, filter));
            && |t.server.subscribers| == |s.server.subscribers| + 1 && t.replicas == s.replicas + [map[]]
            && t.server.entries == s.server.entries
            && var sub := t.server.subscribers[|s.server.subscribers|];
               && sub.filter == filter && sub.channel.Some? && sub.channel.value.removals == map[]
               && Part(sub.channel.value.upserts, s.server.entries, (k, v) => Sees(filter, k, v))
  {
    assert Filtered(filter, map[]) == map[];
  }

  /** The entries that are new, or not equal to those of the snapshot. */
  ghost predicate IsNews(cfg: Config, snapshot: map<Key, Value>, k: Key, v: Value) {
    k !in snapshot || !cfg.equal(snapshot[k], v)
  }

  /** To a marked subscriber that has read everything so far, Notify sends the included entries that are new or
      changed and the included ones that are gone, or nothing if there are none. */
  lemma NotifySendsTheChanges(cfg: Config, s: State, i: nat)
    requires i < |s.server.subscribers|
    requires var sub := s.server.subscribers[i]; sub.mark && sub.initialized && sub.channel.None?
    ensures var t := Step(cfg, s, Notify); var filter := s.server.subscribers[i].filter;
            var entries, snapshot := s.server.entries, s.server.snapshot;
            exists upserts, removals ::
              && Part(upserts, entries, (k, v) => Sees(filter, k, v) && IsNews(cfg, snapshot, k, v))
              && Part(removals, snapshot, (k, v) => Sees(filter, k, v) && k !in entries)
              && |t.server.subscribers| == |s.server.subscribers|
              && t.server.subscribers[i].channel
                 == if upserts == map[] && removals == map[] then None else Some(Delta(upserts, removals))
  {
    var filter := s.server.subscribers[i].filter;
    var entries, snapshot := s.server.entries, s.server.snapshot;
    var d := FilteredDelta(filter, Diff(cfg, snapshot, entries));
    assert Part(d.upserts, entries, (k, v) => Sees(filter, k, v) && IsNews(cfg, snapshot, k, v));
    assert Part(d.removals, snapshot, (k, v) => Sees(filter, k, v) && k !in entries);
  }

  /** A subscriber that is not marked is left alone, and Notify changes neither entries nor clients. */
  lemma NotifyLeavesAlone(cfg: Config, s: State, i: nat)
    requires i < |s.server.subscribers|
    ensures var t := Step(cfg, s, Notify);
            && t.server.entries == t.server.snapshot == s.server.entries && t.replicas == s.replicas
            && |t.server.subscribers| == |s.server.subscribers| && !t.server.subscribers[i].mark
            && (!s.server.subscribers[i].mark ==> t.server.subscribers[i] == s.server.subscribers[i])
  {
  }
}
