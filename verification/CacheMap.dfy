/** The objects of pkg/cache: the server's Map with its subscriptions, and the client's ClientMap.
    Every method is proved against the matching step of CacheProtocol. */
module CacheMap {
  import opened CacheDelta
  import opened CacheProtocol
  import opened Wrappers

  class Subscription {
    const filter: Filter
    var initialized: bool
    var mark: bool
    /** The one-slot channel: `Some` while the subscriber has not read the last delta. */
    var channel: Option<Delta>

    constructor (filter: Filter)
      ensures this.filter == filter && View() == NewSubscriber(filter)
    {
      this.filter := filter;
      initialized, mark, channel := false, true, None;
    }

    ghost function View(): Subscriber
      reads this
    {
      Subscriber(filter, initialized, mark, channel)
    }
  }

  /** The three maps that makeDelta hands to notify. */
  datatype AllDelta = AllDelta(snapshot: map<Key, Value>, upserts: map<Key, Value>, removals: map<Key, Value>)

  /** `filteredMap`. */
  method FilteredMap(m: map<Key, Value>, filter: Filter) returns (fm: map<Key, Value>)
    ensures fm == Filtered(filter, m)
  {
    if filter.None? {
      return m;
    }
    fm := map[];
    var todo := m.Keys;
    while todo != {}
      invariant todo <= m.Keys
      invariant fm == Filtered(filter, m) - todo
      decreases |todo|
    {
      var k :| k in todo;
      RestoreOne(Filtered(filter, m), todo, k);
      if filter.value(k, m[k]) {
        fm := fm[k := m[k]];
      }
      todo := todo - {k};
    }
  }

  /** `allDelta.filteredDelta`. */
  method MakeFilteredDelta(ad: AllDelta, initialized: bool, filter: Filter) returns (fd: Delta)
    ensures var all := if initialized then Delta(ad.upserts, ad.removals) else Delta(ad.snapshot, map[]);
            fd == FilteredDelta(filter, all)
  {
    var upserts, removals := ad.snapshot, map[];
    if initialized {
      upserts, removals := ad.upserts, ad.removals;
    }
    upserts := FilteredMap(upserts, filter);
    removals := FilteredMap(removals, filter);
    fd := Delta(upserts, removals);
  }

  /** `allDelta.send`, for a subscriber that is not done. */
  method Send(ad: AllDelta, sb: Subscription)
    modifies sb`initialized, sb`channel
    ensures sb.View() == Sent(old(sb.View()), ad.snapshot, Delta(ad.upserts, ad.removals)).(mark := old(sb.mark))
  {
    var initialized := sb.initialized;
    sb.initialized := true;
    var fd := MakeFilteredDelta(ad, initialized, sb.filter);
    assert |fd.upserts| == 0 <==> fd.upserts == map[];
    assert |fd.removals| == 0 <==> fd.removals == map[];
    if initialized && |fd.upserts| == 0 && |fd.removals| == 0 {
      return;
    }
    if sb.channel.Some? {
      var merged := Merge(sb.channel.value, fd);
      sb.channel := Some(merged);
    } else {
      sb.channel := Some(fd);
    }
  }

  /** The entries of `current` that `previous` lacks or holds with a different value. */
  method FindUpserts(cfg: Config, previous: map<Key, Value>, current: map<Key, Value>)
    returns (upserts: map<Key, Value>)
    ensures upserts == Diff(cfg, previous, current).upserts
  {
    upserts := map[];
    ghost var all := Diff(cfg, previous, current).upserts;
    var todo := current.Keys;
    while todo != {}
      invariant todo <= current.Keys
      invariant upserts == all - todo
      decreases |todo|
    {
      var k :| k in todo;
      RestoreOne(all, todo, k);
      var v := current[k];
      if !(k in previous && cfg.equal(previous[k], v)) {
        upserts := upserts[k := v];
      }
      todo := todo - {k};
    }
  }

  /** The entries of `previous` whose key is gone from `current`. */
  method FindRemovals(previous: map<Key, Value>, current: map<Key, Value>) returns (removals: map<Key, Value>)
    ensures removals == previous - current.Keys
  {
    removals := map[];
    var todo := previous.Keys;
    while todo != {}
      invariant todo <= previous.Keys
      invariant removals == previous - current.Keys - todo
      decreases |todo|
    {
      var k :| k in todo;
      RestoreOne(previous - current.Keys, todo, k);
      if k !in current {
        removals := removals[k := previous[k]];
      }
      todo := todo - {k};
    }
  }

  /** Taking one key less away from a map. */
  lemma RestoreOne(m: map<Key, Value>, todo: set<Key>, k: Key)
    requires k in todo
    ensures m - (todo - {k}) == if k in m then (m - todo)[k := m[k]] else m - todo
  {
  }

  class Map {
    const cfg: Config
    var entries: map<Key, Value>
    var snapshot: map<Key, Value>
    var subscribers: seq<Subscription>

    constructor (cfg: Config)
      ensures Valid() && this.cfg == cfg && View() == INITIAL.server && subscribers == []
    {
      this.cfg := cfg;
      entries, snapshot, subscribers := map[], map[], [];
    }

    ghost predicate Valid()
      reads this
    {
      forall i, j :: 0 <= i < j < |subscribers| ==> subscribers[i] != subscribers[j]
    }

    ghost function Views(): (vs: seq<Subscriber>)
      reads this, subscribers
      ensures |vs| == |subscribers| && forall i :: 0 <= i < |vs| ==> vs[i] == subscribers[i].View()
    {
      seq(|subscribers|, i requires 0 <= i < |subscribers| reads this, subscribers => subscribers[i].View())
    }

    ghost function View(): Server
      reads this, subscribers
    {
      Server(entries, snapshot, Views())
    }

    /** `markSubscribers`. */
    method MarkSubscribers(key: Key, value: Value)
      requires Valid()
      modifies subscribers
      ensures View() == old(View()).(subscribers := MarkAll(old(Views()), key, value))
    {
      for i := 0 to |subscribers|
        invariant forall j :: 0 <= j < |subscribers| ==>
          subscribers[j].View() ==
            if j < i then Marked(old(subscribers[j].View()), key, value) else old(subscribers[j].View())
      {
        var sb := subscribers[i];
        if !sb.mark && Includes(sb.filter, key, value) {
          sb.mark := true;
        }
      }
    }

    /** `Compute`. The result is the entry that the map holds for the key afterwards. */
    method Compute(key: Key, f: Option<Value> -> ComputeOp) returns (actual: Option<Value>)
      requires Valid()
      modifies this`entries, subscribers
      ensures Valid()
      ensures View() == Computed(cfg, old(View()), key, f)
      ensures actual == if key in entries then Some(entries[key]) else None
      ensures var before := old(entries);
              match f(if key in before then Some(before[key]) else None)
              case DeleteOp => entries == before - {key}
              case UpdateOp(w) =>
                if key in before && cfg.equal(w, before[key]) then View() == old(View())
                else entries == before[key := w]
              case CancelOp => View() == old(View())
    {
      var current := if key in entries then Some(entries[key]) else None;
      match f(current) {
        case CancelOp =>
          actual := current;
        case UpdateOp(v) =>
          if current.Some? && cfg.equal(v, current.value) {
            actual := current;
          } else {
            MarkSubscribers(key, v);
            entries := entries[key := v];
            actual := Some(v);
          }
        case DeleteOp =>
          MarkSubscribers(key, if current.Some? then current.value else cfg.zero);
          entries := entries - {key};
          actual := None;
      }
    }

    /** `CompareAndSwap`. A swap for a value that is equal to the current one changes nothing. */
    method CompareAndSwap(key: Key, oldValue: Value, newValue: Value) returns (swapped: bool)
      requires Valid()
      modifies this`entries, subscribers
      ensures Valid()
      ensures swapped <==> key in old(entries) && cfg.equal(old(entries)[key], oldValue)
      ensures entries == if swapped && !cfg.equal(newValue, old(entries)[key]) then old(entries)[key := newValue]
                         else old(entries)
    {
      swapped := key in entries && cfg.equal(entries[key], oldValue);
      var _ := Compute(key, (current: Option<Value>) =>
        if current.Some? && cfg.equal(current.value, oldValue) then UpdateOp(newValue) else CancelOp);
    }

    /** `LoadAndDelete`, and `Delete`, which drops the result. */
    method LoadAndDelete(key: Key) returns (previous: Option<Value>)
      requires Valid()
      modifies this`entries, subscribers
      ensures Valid() && entries == old(entries) - {key}
      ensures previous == if key in old(entries) then Some(old(entries)[key]) else None
      ensures previous.None? ==> View() == old(View())
    {
      previous := if key in entries then Some(entries[key]) else None;
      var _ := Compute(key, (current: Option<Value>) => if current.Some? then DeleteOp else CancelOp);
    }

    /** `LoadAndStore`, and `Store`, which drops the result. An equal value is not replaced. */
    method LoadAndStore(key: Key, value: Value) returns (existing: Option<Value>)
      requires Valid()
      modifies this`entries, subscribers
      ensures Valid()
      ensures existing == if key in old(entries) then Some(old(entries)[key]) else None
      ensures entries == if key in old(entries) && cfg.equal(value, old(entries)[key]) then old(entries)
                         else old(entries)[key := value]
    {
      existing := if key in entries then Some(entries[key]) else None;
      var _ := Compute(key, (current: Option<Value>) => UpdateOp(value));
    }

    /** `LoadOrStore`, and `LoadOrCompute` with the value that its function returns. */
    method LoadOrStore(key: Key, value: Value) returns (actual: Value, loaded: bool)
      requires Valid()
      modifies this`entries, subscribers
      ensures Valid() && (loaded <==> key in old(entries))
      ensures entries == (if loaded then old(entries) else old(entries)[key := value]) && actual == entries[key]
    {
      loaded := key in entries;
      var a := Compute(key, (current: Option<Value>) => if current.Some? then CancelOp else UpdateOp(value));
      actual := a.value;
    }

    /** `makeDelta`. */
    method MakeDelta() returns (ad: AllDelta)
      modifies this`snapshot
      ensures snapshot == entries && ad.snapshot == entries
      ensures Delta(ad.upserts, ad.removals) == Diff(cfg, old(snapshot), entries)
    {
      var previous, current := snapshot, entries;
      snapshot := current;
      var upserts := FindUpserts(cfg, previous, current);
      var removals := FindRemovals(previous, current);
      ad := AllDelta(current, upserts, removals);
    }

    /** `notify`: keep sweeping the subscribers until a sweep finds no mark. */
    method Notify()
      requires Valid()
      modifies this`snapshot, subscribers
      ensures Valid()
      ensures View() == Notified(cfg, old(View()))
    {
      var ad := MakeDelta();
      ghost var diff := Delta(ad.upserts, ad.removals);
      ghost var before := old(Views());
      ghost var sweeps := 2;
      var didSend := true;
      while didSend
        invariant forall j :: 0 <= j < |subscribers| ==>
          subscribers[j].View() == if sweeps == 2 then before[j] else Served(before[j], entries, diff)
        invariant snapshot == entries
        invariant 0 <= sweeps <= 2 && (didSend ==> sweeps > 0) && (!didSend ==> sweeps < 2)
        decreases sweeps
      {
        didSend := false;
        for i := 0 to |subscribers|
          invariant snapshot == entries
          invariant sweeps < 2 ==> !didSend
          invariant forall j :: 0 <= j < |subscribers| ==>
            subscribers[j].View() == if sweeps == 2 && j >= i then before[j] else Served(before[j], entries, diff)
        {
          var sb := subscribers[i];
          if sb.mark {
            sb.mark := false;
            Send(ad, sb);
            didSend := true;
          }
        }
        sweeps := sweeps - 1;
      }
      assert Views() == ServeAll(before, entries, diff);
    }

    /** `Subscribe`. A subscriber that is done already gets a closed channel and is not registered. */
    method Subscribe(done: bool, filter: Filter) returns (sb: Subscription?)
      requires Valid()
      modifies this`snapshot, this`subscribers, subscribers
      ensures Valid()
      ensures done ==> sb == null && View() == old(View())
      ensures !done ==> sb != null && fresh(sb) && subscribers == old(subscribers) + [sb]
                        && View() == Subscribed(cfg, old(View()), filter)
    {
      if done {
        return null;
      }
      ghost var views := Views();
      sb := new Subscription(filter);
      subscribers := subscribers + [sb];
      assert Views() == views + [NewSubscriber(filter)];
      Notify();
    }
  }

  class ClientMap {
    var entries: map<Key, Value>

    constructor ()
      ensures entries == map[]
    {
      entries := map[];
    }

    /** One round of `Watch`: take the pending delta, if there is one, and apply it. */
    method Receive(sb: Subscription) returns (received: bool)
      modifies this, sb`channel
      ensures received == old(sb.channel).Some?
      ensures received ==> sb.View() == old(sb.View()).(channel := None)
                           && entries == Apply(old(entries), old(sb.channel).value)
      ensures !received ==> sb.View() == old(sb.View()) && entries == old(entries)
    {
      received := sb.channel.Some?;
      if received {
        var delta := sb.channel.value;
        sb.channel := None;
        entries := StoreAll(entries, delta.upserts);
        entries := DeleteAll(entries, delta.removals.Keys);
      }
    }
  }
}
