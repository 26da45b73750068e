/** streamConn of pkg/tunnel: a net.Conn that reads bytes from a stream of messages. */
module StreamConn {
  import opened IpPrefix
  import opened Wrappers

  type Bytes = seq<Byte>

  /** Why `readMore` stops waiting. The receive itself runs in a goroutine of its own. */
  datatype Wake =
    | Arrived       // the goroutine delivers a message, or an error when the stream has no more
    | Failed        // the goroutine delivers an error
    | Expired       // the deadline had passed before the receive started
    | Cancelled     // the context or the deadline ends the wait, and the goroutine is left behind

  /** `queue` holds the payloads that the stream will still deliver, and `orphans` counts the goroutines that
      were left behind in a receive. */
  datatype State = State(offset: nat, last: Option<Bytes>, queue: seq<Bytes>, orphans: nat)

  datatype Result = Result(state: State, data: Bytes, failed: bool)

  // ---------- One call ----------

  function Waited(s: State, w: Wake): Result {
    var s1 := s.(offset := 0);
    match w
    case Arrived =>
      if s.queue == [] then Result(s1.(last := None), [], true)
      else Result(s1.(last := Some(s.queue[0]), queue := s.queue[1..]), [], false)
    case Failed => Result(s1.(last := None), [], true)
    case Expired => Result(s1, [], true)
    case Cancelled => Result(s1.(orphans := s.orphans + 1), [], true)
  }

  function Copied(s: State, size: nat): (r: Result)
    requires s.last.Some? && s.offset <= |s.last.value|
  {
    var pl := s.last.value;
    var n := if size < |pl| - s.offset then size else |pl| - s.offset;
    var offset := s.offset + n;
    Result(s.(offset := offset, last := if offset == |pl| then None else s.last), pl[s.offset..offset], false)
  }

  function Refilled(s: State, size: nat, w: Wake): Result
    requires s.last.Some?
  {
    if |s.last.value| - s.offset <= 0 then
      var more := Waited(s, w);
      if more.failed then more else Copied(more.state, size)
    else Copied(s, size)
  }

  /** `Read` into a buffer of `size` bytes, when the first and the second `readMore` end as given. */
  function Reading(s: State, size: nat, w1: Wake, w2: Wake): Result {
    if s.last == None then
      var more := Waited(s, w1);
      if more.failed then more else Refilled(more.state, size, w2)
    else Refilled(s, size, w2)
  }

  // ---------- The object ----------

  class MessageStream {
    var queue: seq<Bytes>
    var orphans: nat
  }

  class Conn {
    const stream: MessageStream
    var offset: nat
    var lastIncoming: Option<Bytes>

    constructor (s: MessageStream)
      ensures stream == s
      ensures Abs() == State(0, None, s.queue, s.orphans)
    {
      stream, offset, lastIncoming := s, 0, None;
    }

    ghost function Abs(): State
      reads this, stream
    {
      State(offset, lastIncoming, stream.queue, stream.orphans)
    }

    method ReadMore(w: Wake) returns (failed: bool)
      modifies this, stream
      ensures Result(Abs(), [], failed) == Waited(old(Abs()), w)
    {
      offset := 0;
      match w
      case Expired =>
        failed := true;
      case Cancelled =>
        stream.orphans := stream.orphans + 1;
        failed := true;
      case Failed =>
        lastIncoming := None;
        failed := true;
      case Arrived =>
        if stream.queue == [] {
          lastIncoming := None;
          failed := true;
        } else {
          lastIncoming := Some(stream.queue[0]);
          stream.queue := stream.queue[1..];
          failed := false;
        }
    }

    method Read(data: array<Byte>, w1: Wake, w2: Wake) returns (bytesRead: nat, failed: bool)
      modifies this, stream, data
      ensures bytesRead <= data.Length && data[bytesRead..] == old(data[bytesRead..])
      ensures Result(Abs(), data[..bytesRead], failed) == Reading(old(Abs()), data.Length, w1, w2)
    {
      bytesRead, failed := 0, false;
      if lastIncoming == None {
        failed := ReadMore(w1);
        if failed {
          return;
        }
      }
      bytesRead, failed := ReadPayload(data, w2);
    }

    method ReadPayload(data: array<Byte>, w: Wake) returns (bytesRead: nat, failed: bool)
      requires lastIncoming.Some?
      modifies this, stream, data
      ensures bytesRead <= data.Length && data[bytesRead..] == old(data[bytesRead..])
      ensures Result(Abs(), data[..bytesRead], failed) == Refilled(old(Abs()), data.Length, w)
    {
      bytesRead, failed := 0, false;
      if |lastIncoming.value| - offset <= 0 {
        failed := ReadMore(w);
        if failed {
          return;
        }
      }
      bytesRead := CopyPayload(data);
    }

    method CopyPayload(data: array<Byte>) returns (bytesRead: nat)
      requires lastIncoming.Some? && offset <= |lastIncoming.value|
      modifies this, data
      ensures bytesRead <= data.Length && data[bytesRead..] == old(data[bytesRead..])
      ensures Result(Abs(), data[..bytesRead], false) == Copied(old(Abs()), data.Length)
    {
      var pl := lastIncoming.value;
      bytesRead := if data.Length < |pl| - offset then data.Length else |pl| - offset;
      forall i | 0 <= i < bytesRead {
        data[i] := pl[offset + i];
      }
      assert data[..bytesRead] == pl[offset..offset + bytesRead];
      offset := offset + bytesRead;
      if offset == |pl| {
        lastIncoming := None;
      }
    }
  }

  // ---------- No byte is lost, repeated or reordered ----------

  function Concat(q: seq<Bytes>): Bytes {
    if q == [] then [] else q[0] + Concat(q[1..])
  }

  /** A message is kept only while some of it is unread. Otherwise the reset of `offset` in a `readMore` that
      fails would make its bytes appear again. */
  predicate Inv(s: State) {
    s.last.Some? ==> s.offset < |s.last.value| || s.last.value == []
  }

  function Pending(s: State): Bytes {
    if s.last.Some? && s.offset <= |s.last.value| then s.last.value[s.offset..] else []
  }

  /** Everything that can still be read. */
  function Unread(s: State): Bytes {
    Pending(s) + Concat(s.queue)
  }

  lemma CopiedKeeps(s: State, size: nat)
    requires Inv(s) && s.last.Some? && s.offset <= |s.last.value|
    ensures Inv(Copied(s, size).state) && Copied(s, size).data + Unread(Copied(s, size).state) == Unread(s)
  {
    var r := Copied(s, size);
    assert r.data + Pending(r.state) == Pending(s);
    assert r.data + (Pending(r.state) + Concat(s.queue)) == (r.data + Pending(r.state)) + Concat(s.queue);
  }

  lemma RefilledKeeps(s: State, size: nat, w: Wake)
    requires Inv(s) && s.last.Some?
    ensures Inv(Refilled(s, size, w).state)
    ensures Refilled(s, size, w).data + Unread(Refilled(s, size, w).state) == Unread(s)
  {
    if |s.last.value| - s.offset <= 0 {
      var more := Waited(s, w);
      if more.failed {
        assert [] + Unread(more.state) == Unread(s);
      } else {
        CopiedKeeps(more.state, size);
      }
    } else {
      CopiedKeeps(s, size);
    }
  }

  /** What `Read` returns is exactly what disappears from the front of the unread bytes, however it ends. */
  lemma ReadKeeps(s: State, size: nat, w1: Wake, w2: Wake)
    requires Inv(s)
    ensures Inv(Reading(s, size, w1, w2).state)
    ensures Reading(s, size, w1, w2).data + Unread(Reading(s, size, w1, w2).state) == Unread(s)
  {
    if s.last == None {
      var more := Waited(s, w1);
      if more.failed {
        assert [] + Unread(more.state) == Unread(s);
      } else {
        RefilledKeeps(more.state, size, w2);
      }
    } else {
      RefilledKeeps(s, size, w2);
    }
  }

  // ---------- Whole runs ----------

  /** A goroutine that was left behind can still receive a message, which then goes nowhere. */
  datatype Event = Call(size: nat, w1: Wake, w2: Wake) | Swallow

  type CallEvent = e: Event | e.Call? witness Call(0, Arrived, Arrived)

  /** After a run: the state, all bytes that were returned, and the payloads that were swallowed. */
  datatype Outcome = Outcome(state: State, output: Bytes, swallowed: seq<Bytes>)

  function Step(s: State, e: Event): Outcome {
    match e
    case Call(size, w1, w2) =>
      var r := Reading(s, size, w1, w2);
      Outcome(r.state, r.data, [])
    case Swallow =>
      if s.orphans == 0 || s.queue == [] then Outcome(s, [], [])
      else Outcome(s.(queue := s.queue[1..], orphans := s.orphans - 1), [], [s.queue[0]])
  }

  function Run(s: State, es: seq<Event>): Outcome
    decreases |es|
  {
    if es == [] then Outcome(s, [], [])
    else
      var first := Step(s, es[0]);
      var rest := Run(first.state, es[1..]);
      Outcome(rest.state, first.output + rest.output, first.swallowed + rest.swallowed)
  }

  lemma StepConserves(s: State, e: Event)
    requires Inv(s)
    ensures var r := Step(s, e);
            Inv(r.state) && |r.output| + |Concat(r.swallowed)| + |Unread(r.state)| == |Unread(s)| &&
            (Concat(r.swallowed) == [] ==> r.output + Unread(r.state) == Unread(s))
  {
    match e
    case Call(size, w1, w2) =>
      ReadKeeps(s, size, w1, w2);
    case Swallow =>
      if s.orphans > 0 && s.queue != [] {
        var q := [s.queue[0]];
        assert Concat(q) == q[0] + Concat(q[1..]) == s.queue[0];
      }
  }

  lemma {:induction false} ConcatAppend(p: seq<Bytes>, q: seq<Bytes>)
    ensures Concat(p + q) == Concat(p) + Concat(q)
  {
    if p == [] {
      assert p + q == q;
    } else {
      assert (p + q)[1..] == p[1..] + q;
      ConcatAppend(p[1..], q);
    }
  }

  lemma {:induction false} RunConserves(s: State, es: seq<Event>)
    requires Inv(s)
    ensures var r := Run(s, es);
            Inv(r.state) && |r.output| + |Concat(r.swallowed)| + |Unread(r.state)| == |Unread(s)| &&
            (Concat(r.swallowed) == [] ==> r.output + Unread(r.state) == Unread(s))
    decreases |es|
  {
    if es == [] {
      assert [] + Unread(s) == Unread(s);
    } else {
      var first := Step(s, es[0]);
      StepConserves(s, es[0]);
      RunConserves(first.state, es[1..]);
      var rest := Run(first.state, es[1..]);
      ConcatAppend(first.swallowed, rest.swallowed);
      Regroup(first.output, rest.output, Unread(rest.state));
    }
  }

  lemma Regroup(a: Bytes, b: Bytes, c: Bytes)
    ensures a + b + c == a + (b + c)
  {
  }

  ghost predicate NeverCancelled(calls: seq<CallEvent>) {
    forall i :: 0 <= i < |calls| ==> calls[i].w1 != Cancelled && calls[i].w2 != Cancelled
  }

  /** A cancelled call followed by the next message: the connection goes on without its bytes. */
  lemma CancelledReadLosesAMessage(payload: Bytes, later: seq<Bytes>)
    requires payload != []
    ensures var s := State(0, None, [payload] + later, 0);
            var es := [Call(1, Cancelled, Arrived), Swallow];
            Run(s, es) == Outcome(State(0, None, later, 0), [], [payload])
  {
    var s := State(0, None, [payload] + later, 0);
    var es := [Call(1, Cancelled, Arrived), Swallow];
    assert ([payload] + later)[1..] == later;
    var s1 := s.(orphans := 1);
    assert Step(s, es[0]) == Outcome(s1, [], []);
    assert es[1..] == [Swallow] && es[1..][1..] == [];
    assert Run(s1, [Swallow]) == Outcome(State(0, None, later, 0), [], [payload]);
  }

  // ---------- When messages can be lost ----------

  /** The calls among the events of a run. What lies between them is up to the abandoned goroutines. */
  function CallsOf(es: seq<Event>): seq<CallEvent> {
    if es == [] then [] else (if es[0].Call? then [es[0]] else []) + CallsOf(es[1..])
  }

  /** The state after a call that nothing interferes with. */
  function Next(s: State, e: CallEvent): State {
    Reading(s, e.size, e.w1, e.w2).state
  }

  /** The abandoned goroutines can get at the first messages of the queue only, and these are empty. */
  ghost predicate OutOfReach(s: State) {
    forall i :: 0 <= i < |s.queue| && i < s.orphans ==> s.queue[i] == []
  }

  /** At no point of the undisturbed calls does a message with a payload come within reach. */
  ghost predicate Safe(s: State, calls: seq<CallEvent>)
    decreases |calls|
  {
    OutOfReach(s) && (calls != [] ==> Safe(Next(s, calls[0]), calls[1..]))
  }

  ghost predicate AllEmpty(q: seq<Bytes>) {
    forall i :: 0 <= i < |q| ==> q[i] == []
  }

  /** A run `b` in which goroutines took `n` more messages than in the undisturbed run `a`: it lacks that many
      empty messages and at least as many goroutines. */
  ghost predicate Behind(a: State, b: State, n: nat) {
    && n <= |a.queue| && b.queue == a.queue[n..] && b.orphans + n <= a.orphans
    && b.last == a.last && b.offset == a.offset
  }

  /** Or it has nothing left that could be lost. */
  ghost predicate Follows(a: State, b: State, n: nat) {
    AllEmpty(b.queue) || Behind(a, b, n)
  }

  lemma WaitKeepsEmpty(s: State, w: Wake)
    requires AllEmpty(s.queue)
    ensures AllEmpty(Waited(s, w).state.queue)
  {
  }

  lemma EmptyStays(s: State, e: CallEvent)
    requires AllEmpty(s.queue)
    ensures AllEmpty(Next(s, e).queue)
  {
    WaitKeepsEmpty(s, e.w1);
    WaitKeepsEmpty(s, e.w2);
    WaitKeepsEmpty(Waited(s, e.w1).state, e.w2);
  }

  /** Abandoned goroutines make no difference to a call. */
  lemma WaitIgnoresOrphans(s: State, orphans: nat, w: Wake)
    ensures var r, r' := Waited(s, w), Waited(s.(orphans := orphans), w);
            r' == r.(state := r.state.(orphans := r.state.orphans - s.orphans + orphans))
  {
  }

  lemma RefillIgnoresOrphans(s: State, orphans: nat, size: nat, w: Wake)
    requires s.last.Some?
    ensures var r, r' := Refilled(s, size, w), Refilled(s.(orphans := orphans), size, w);
            r' == r.(state := r.state.(orphans := r.state.orphans - s.orphans + orphans))
  {
    WaitIgnoresOrphans(s, orphans, w);
  }

  /** The same state, with `more` abandoned goroutines. */
  predicate SameWith(s: State, more: int, t: State) {
    t.offset == s.offset && t.last == s.last && t.queue == s.queue && t.orphans == s.orphans + more
  }

  lemma CallIgnoresOrphans(s: State, orphans: nat, e: CallEvent)
    ensures SameWith(Next(s, e), orphans - s.orphans, Next(s.(orphans := orphans), e))
  {
    WaitIgnoresOrphans(s, orphans, e.w1);
    if s.last.Some? {
      RefillIgnoresOrphans(s, orphans, e.size, e.w2);
    } else if !Waited(s, e.w1).failed {
      var s1 := Waited(s, e.w1).state;
      RefillIgnoresOrphans(s1, s1.orphans - s.orphans + orphans, e.size, e.w2);
    }
  }

  /** The same queue and the same message in hand: the calls do the same. */
  lemma LevelFollows(a: State, b: State, e: CallEvent)
    requires Behind(a, b, 0)
    ensures Behind(Next(a, e), Next(b, e), 0)
  {
    assert a.queue[0..] == a.queue;
    assert b == a.(orphans := b.orphans);
    CallIgnoresOrphans(a, b.orphans, e);
  }

  /** The message in hand is used up, or was empty: one wait. */
  lemma UsedUpFollows(a: State, b: State, n: nat, e: CallEvent)
    requires n > 0 && Behind(a, b, n) && OutOfReach(a) && OutOfReach(Next(a, e)) && a.last.Some?
    ensures Follows(Next(a, e), Next(b, e), n)
  {
    if |a.last.value| - a.offset <= 0 && e.w2 == Arrived && n < |a.queue| {
      assert a.queue[0] == [];
      assert Next(a, e).queue == a.queue[1..] && a.queue[1..][n - 1] == a.queue[n];
      assert b.queue[0] == a.queue[n] == [];
    }
  }

  /** An empty message, and the wait for the next one does not get it. */
  lemma EmptyThenNothing(a: State, b: State, n: nat, e: CallEvent)
    requires n > 0 && Behind(a, b, n) && OutOfReach(a) && OutOfReach(Next(a, e))
    requires a.last == None && e.w1 == Arrived && e.w2 != Arrived && n < |a.queue|
    ensures Behind(Next(a, e), Next(b, e), n)
  {
    assert a.queue[0] == [];
    assert Next(a, e).queue == a.queue[1..] && a.queue[1..][n - 1] == a.queue[n];
    assert b.queue[0] == a.queue[n] == [];
  }

  /** Two empty messages. */
  lemma EmptyThenEmpty(a: State, b: State, n: nat, e: CallEvent)
    requires n > 1 && Behind(a, b, n) && OutOfReach(a) && OutOfReach(Next(a, e))
    requires a.last == None && e.w1 == Arrived && e.w2 == Arrived && n < |a.queue|
    ensures Follows(Next(a, e), Next(b, e), n)
  {
    var q, q2 := a.queue, a.queue[2..];
    assert q[0] == [] && q[1] == [];
    assert Next(a, e).queue == q2 && q2[n - 2] == q[n];
    assert b.queue[0] == q[n] == [];
    if n + 1 < |q| {
      assert q2[n - 1] == q[n + 1] == b.queue[1];
    }
  }

  /** One empty message was taken by a goroutine; the call gets another one, or the run catches up. */
  lemma EmptyThenAny(a: State, b: State, e: CallEvent) returns (n: nat)
    requires Behind(a, b, 1) && OutOfReach(a) && OutOfReach(Next(a, e))
    requires a.last == None && e.w1 == Arrived && e.w2 == Arrived && 1 < |a.queue|
    ensures Follows(Next(a, e), Next(b, e), n)
  {
    var q := a.queue;
    assert q[0] == [] && b.queue[0] == q[1] && Next(a, e).queue == q[2..];
    if q[1] != [] {
      n := 0;
    } else {
      n := 1;
      if 2 < |q| {
        assert q[2..][0] == q[2] == b.queue[1];
      }
    }
  }

  lemma CallFollows(a: State, b: State, n: nat, e: CallEvent) returns (n': nat)
    requires Follows(a, b, n) && OutOfReach(a) && OutOfReach(Next(a, e))
    ensures Follows(Next(a, e), Next(b, e), n')
  {
    n' := n;
    if AllEmpty(b.queue) {
      EmptyStays(b, e);
    } else if n == 0 {
      LevelFollows(a, b, e);
    } else if a.last.Some? {
      UsedUpFollows(a, b, n, e);
    } else if e.w1 == Arrived {
      if e.w2 != Arrived {
        EmptyThenNothing(a, b, n, e);
      } else if n > 1 {
        EmptyThenEmpty(a, b, n, e);
      } else {
        n' := EmptyThenAny(a, b, e);
      }
    }
  }

  /** In a run whose calls are safe, whatever the goroutines take is empty. */
  lemma {:induction false} SafeLosesNothing(a: State, b: State, n: nat, es: seq<Event>)
    requires Safe(a, CallsOf(es)) && Follows(a, b, n)
    ensures Concat(Run(b, es).swallowed) == []
    decreases |es|
  {
    if es != [] {
      var first := Step(b, es[0]);
      if es[0].Call? {
        assert CallsOf(es)[0] == es[0] && CallsOf(es)[1..] == CallsOf(es[1..]);
        var n' := CallFollows(a, b, n, es[0]);
        SafeLosesNothing(Next(a, es[0]), first.state, n', es[1..]);
        assert [] + Run(first.state, es[1..]).swallowed == Run(first.state, es[1..]).swallowed;
      } else {
        assert CallsOf(es) == CallsOf(es[1..]);
        SwallowLosesNothing(a, b, n);
        SafeLosesNothing(a, first.state, if first.swallowed == [] then n else n + 1, es[1..]);
        ConcatAppend(first.swallowed, Run(first.state, es[1..]).swallowed);
      }
    }
  }

  lemma SwallowLosesNothing(a: State, b: State, n: nat)
    requires OutOfReach(a) && Follows(a, b, n)
    ensures var r := Step(b, Swallow);
            Concat(r.swallowed) == [] && Follows(a, r.state, if r.swallowed == [] then n else n + 1)
  {
    if b.orphans > 0 && b.queue != [] {
      assert Concat([b.queue[0]]) == b.queue[0] + Concat([b.queue[0]][1..]);
    }
  }

  // ---------- And when they are ----------

  function Swallows(n: nat): seq<Event> {
    if n == 0 then [] else [Swallow] + Swallows(n - 1)
  }

  lemma {:induction false} CallsOfCalls(calls: seq<CallEvent>)
    ensures CallsOf(calls) == calls
  {
    if calls != [] {
      CallsOfCalls(calls[1..]);
      assert calls == [calls[0]] + calls[1..];
    }
  }

  /** The goroutines take messages up to the first one with a payload. */
  lemma {:induction false} ReachLoses(s: State, i: nat, calls: seq<CallEvent>)
    requires i < |s.queue| && i < s.orphans && s.queue[i] != []
    ensures CallsOf(Swallows(i + 1) + calls) == calls
    ensures Concat(Run(s, Swallows(i + 1) + calls).swallowed) != []
    decreases i
  {
    var es := Swallows(i + 1) + calls;
    var first := Step(s, Swallow);
    assert es[0] == Swallow && es[1..] == Swallows(i) + calls;
    assert first.swallowed == [s.queue[0]];
    var rest := Run(first.state, es[1..]);
    ConcatAppend(first.swallowed, rest.swallowed);
    assert Concat([s.queue[0]]) == s.queue[0] + Concat([s.queue[0]][1..]);
    if i == 0 {
      assert es[1..] == calls;
      CallsOfCalls(calls);
    } else {
      ReachLoses(first.state, i - 1, calls);
    }
  }

  /** Calls that are not safe have a run that loses a payload. */
  lemma {:induction false} UnsafeLoses(s: State, calls: seq<CallEvent>) returns (es: seq<Event>)
    requires !Safe(s, calls)
    ensures CallsOf(es) == calls && Concat(Run(s, es).swallowed) != []
    decreases |calls|
  {
    if !OutOfReach(s) {
      var i :| 0 <= i < |s.queue| && i < s.orphans && s.queue[i] != [];
      es := Swallows(i + 1) + calls;
      ReachLoses(s, i, calls);
    } else {
      var rest := UnsafeLoses(Next(s, calls[0]), calls[1..]);
      es := [calls[0]] + rest;
      assert es[1..] == rest && calls == [calls[0]] + calls[1..];
      assert [] + Run(Next(s, calls[0]), rest).swallowed == Run(Next(s, calls[0]), rest).swallowed;
    }
  }

  /** What was returned is a prefix of what was there, and the rest is still there. */
  ghost predicate Delivers(s: State, es: seq<Event>) {
    Run(s, es).output + Unread(Run(s, es).state) == Unread(s)
  }

  lemma DeliversExactly(s: State, es: seq<Event>)
    requires Inv(s)
    ensures Delivers(s, es) <==> Concat(Run(s, es).swallowed) == []
  {
    RunConserves(s, es);
  }

  /** Whatever the goroutines of cancelled calls do, every byte is delivered in order or still there, for any
      buffer sizes, empty messages, errors and deadlines, if and only if the calls are safe: at no point of the
      undisturbed calls is a message with a payload among the first of the queue, as many as there are abandoned
      goroutines. */
  lemma DeliveredExactly(s: State, calls: seq<CallEvent>)
    requires Inv(s)
    ensures (forall es :: CallsOf(es) == calls ==> Delivers(s, es)) <==> Safe(s, calls)
  {
    if Safe(s, calls) {
      forall es | CallsOf(es) == calls
        ensures Delivers(s, es)
      {
        assert Behind(s, s, 0);
        SafeLosesNothing(s, s, 0, es);
        DeliversExactly(s, es);
      }
    } else {
      var es := UnsafeLoses(s, calls);
      DeliversExactly(s, es);
    }
  }

  lemma NoOrphanWithoutCancel(s: State, e: CallEvent)
    requires s.orphans == 0 && e.w1 != Cancelled && e.w2 != Cancelled
    ensures Next(s, e).orphans == 0
  {
  }

  /** Calls that are not cancelled are safe. */
  lemma {:induction false} NeverCancelledIsSafe(s: State, calls: seq<CallEvent>)
    requires s.orphans == 0
    requires NeverCancelled(calls)
    ensures Safe(s, calls)
    decreases |calls|
  {
    if calls != [] {
      NoOrphanWithoutCancel(s, calls[0]);
      assert forall i :: 0 <= i < |calls[1..]| ==> calls[1..][i] == calls[i + 1];
      NeverCancelledIsSafe(Next(s, calls[0]), calls[1..]);
    }
  }

  // ---------- Everything arrives ----------

  function Weight(q: seq<Bytes>): nat {
    if q == [] then 0 else |q[0]| + 1 + Weight(q[1..])
  }

  /** What is left to do: bytes and messages. */
  function Remaining(s: State): nat {
    |Pending(s)| + Weight(s.queue)
  }

  lemma WaitedProgresses(s: State)
    requires Inv(s) && Pending(s) == []
    ensures var s' := Waited(s, Arrived).state;
            Inv(s') && Remaining(s') == if s.queue == [] then 0 else Remaining(s) - 1
  {
  }

  lemma CopiedProgresses(s: State, size: nat)
    requires Inv(s) && s.last.Some? && s.offset <= |s.last.value| && size > 0
    ensures var s' := Copied(s, size).state;
            Inv(s') && Remaining(s') <= Remaining(s) && (Pending(s) != [] ==> Remaining(s') < Remaining(s))
  {
    CopiedKeeps(s, size);
    var r := Copied(s, size);
    assert r.data + Pending(r.state) == Pending(s);
  }

  lemma RefilledProgresses(s: State, size: nat)
    requires Inv(s) && s.last.Some? && size > 0
    ensures var s' := Refilled(s, size, Arrived).state;
            Inv(s') && (Remaining(s') < Remaining(s) || Remaining(s') == 0)
  {
    if |s.last.value| - s.offset <= 0 {
      WaitedProgresses(s);
      var more := Waited(s, Arrived);
      if !more.failed {
        CopiedProgresses(more.state, size);
      }
    } else {
      CopiedProgresses(s, size);
    }
  }

  lemma ReadProgresses(s: State, size: nat)
    requires Inv(s) && size > 0
    ensures var s' := Reading(s, size, Arrived, Arrived).state;
            Inv(s') && (Remaining(s') < Remaining(s) || Remaining(s') == 0)
  {
    if s.last == None {
      WaitedProgresses(s);
      var more := Waited(s, Arrived);
      if !more.failed {
        RefilledProgresses(more.state, size);
      }
    } else {
      RefilledProgresses(s, size);
    }
  }

  function Calls(sizes: seq<nat>): seq<CallEvent> {
    if sizes == [] then [] else [Call(sizes[0], Arrived, Arrived)] + Calls(sizes[1..])
  }

  lemma NothingRemains(s: State)
    requires Inv(s) && Remaining(s) == 0
    ensures Unread(s) == []
  {
  }

  lemma {:induction false} CallsFinish(s: State, sizes: seq<nat>)
    requires Inv(s) && |sizes| >= Remaining(s)
    requires forall i :: 0 <= i < |sizes| ==> sizes[i] > 0
    ensures Inv(Run(s, Calls(sizes)).state) && Unread(Run(s, Calls(sizes)).state) == []
    decreases |sizes|
  {
    if sizes == [] {
      NothingRemains(s);
    } else {
      var s1 := Reading(s, sizes[0], Arrived, Arrived).state;
      ReadProgresses(s, sizes[0]);
      CallsFinish(s1, sizes[1..]);
      assert Calls(sizes)[1..] == Calls(sizes[1..]);
    }
  }

  /** A reader that keeps calling, with any buffers that are not empty, gets the whole stream. */
  lemma EverythingIsRead(s: State, sizes: seq<nat>)
    requires Inv(s) && s.orphans == 0 && |sizes| >= Remaining(s)
    requires forall i :: 0 <= i < |sizes| ==> sizes[i] > 0
    ensures Run(s, Calls(sizes)).output == Unread(s)
  {
    CallsFinish(s, sizes);
    CallsNeverCancel(sizes);
    NeverCancelledIsSafe(s, Calls(sizes));
    CallsOfCalls(Calls(sizes));
    DeliveredExactly(s, Calls(sizes));
    assert Delivers(s, Calls(sizes));
  }

  lemma {:induction false} CallsNeverCancel(sizes: seq<nat>)
    ensures NeverCancelled(Calls(sizes))
  {
    if sizes != [] {
      CallsNeverCancel(sizes[1..]);
      var rest := Calls(sizes[1..]);
      forall i | 0 < i < |Calls(sizes)|
        ensures Calls(sizes)[i] == rest[i - 1]
      {
      }
    }
  }
}
