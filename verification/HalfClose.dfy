/** The disconnect protocol of pkg/tunnel/dialer.go. Any number of goroutines disconnect the reading
    side, the writing side, or both (Stop); every compare-and-swap and every close call is a step of
    its own, so is the store that makes the dialer connected, and the steps interleave freely. */
module HalfClose {

  datatype Conn = NotConnected | Connecting | Connected | ReadClosed | WriteClosed

  datatype Side = Reader | Writer

  datatype Call = Disconnect(side: Side) | Stop

  /** What a goroutine does next: its first or second compare-and-swap, the close it has claimed, or the cancel
      at the end of Stop. */
  datatype Pc = First(side: Side) | Second(side: Side) | Closing(side: Side) | Cancelling | Done

  datatype Thread = Thread(call: Call, pc: Pc)

  /** `claims` and `closes` count, for each side, the successful swaps and the close calls made; `cancels` counts
      the calls of the dialer's cancel function. */
  datatype State = State(halfCloser: bool, conn: Conn, threads: seq<Thread>,
                         readerClaims: nat, writerClaims: nat, readerCloses: nat, writerCloses: nat, cancels: nat)

  datatype Action = Start(call: Call) | Run(thread: nat) | Connect

  function Entry(call: Call): Pc {
    match call
    case Disconnect(side) => First(side)
    case Stop => First(Reader)
  }

  /** Stop disconnects the reader and then the writer, and cancels. */
  function After(call: Call, side: Side): Pc {
    if call.Disconnect? then Done else if side.Reader? then First(Writer) else Cancelling
  }

  /** The state that the first swap of a side installs, when it finds `Connected`. */
  function Half(halfCloser: bool, side: Side): Conn {
    if !halfCloser then NotConnected else if side.Reader? then ReadClosed else WriteClosed
  }

  /** The state in which the other side is closed already. */
  function OtherHalf(side: Side): Conn {
    if side.Reader? then WriteClosed else ReadClosed
  }

  function Claimed(s: State, i: nat, side: Side, conn: Conn): State
    requires i < |s.threads|
  {
    var t := s.(conn := conn, threads := s.threads[i := s.threads[i].(pc := Closing(side))]);
    if side.Reader? then t.(readerClaims := s.readerClaims + 1) else t.(writerClaims := s.writerClaims + 1)
  }

  function Moved(s: State, i: nat, pc: Pc): State
    requires i < |s.threads|
  {
    s.(threads := s.threads[i := s.threads[i].(pc := pc)])
  }

  /** One step of thread `i`. Without half-close there is one swap only. */
  function Step(s: State, i: nat): State
    requires i < |s.threads|
  {
    var t := s.threads[i];
    match t.pc
    case First(side) =>
      if s.conn == Connected then Claimed(s, i, side, Half(s.halfCloser, side))
      else if s.halfCloser then Moved(s, i, Second(side))
      else Moved(s, i, After(t.call, side))
    case Second(side) =>
      if s.conn == OtherHalf(side) then Claimed(s, i, side, NotConnected)
      else Moved(s, i, After(t.call, side))
    case Closing(side) =>
      var u := Moved(s, i, After(t.call, side));
      if side.Reader? then u.(readerCloses := s.readerCloses + 1) else u.(writerCloses := s.writerCloses + 1)
    case Cancelling => Moved(s, i, Done).(cancels := s.cancels + 1)
    case Done => s
  }

  function Act(s: State, a: Action): State {
    match a
    case Start(call) => s.(threads := s.threads + [Thread(call, Entry(call))])
    case Run(i) => if i < |s.threads| then Step(s, i) else s
    case Connect => if s.conn == Connecting then s.(conn := Connected) else s
  }

  function Execute(s: State, actions: seq<Action>): State
    decreases |actions|
  {
    if actions == [] then s else Execute(Act(s, actions[0]), actions[1..])
  }

  function Initial(halfCloser: bool, conn: Conn): State {
    State(halfCloser, conn, [], 0, 0, 0, 0, 0)
  }

  // ---------- The invariant ----------

  /** How many threads are about to close the given side. */
  function Pending(threads: seq<Thread>, side: Side): nat {
    if threads == [] then 0
    else Pending(threads[..|threads| - 1], side) + if threads[|threads| - 1].pc == Closing(side) then 1 else 0
  }

  lemma {:induction false} PendingUpdate(threads: seq<Thread>, i: nat, t: Thread, side: Side)
    requires i < |threads|
    ensures Pending(threads[i := t], side) + (if threads[i].pc == Closing(side) then 1 else 0)
         == Pending(threads, side) + (if t.pc == Closing(side) then 1 else 0)
    decreases |threads|
  {
    var n := |threads| - 1;
    if i < n {
      PendingUpdate(threads[..n], i, t, side);
      assert threads[i := t][..n] == threads[..n][i := t];
    } else {
      assert threads[i := t][..n] == threads[..n];
    }
  }

  /** Has this side been claimed, judging by the connection state? */
  ghost predicate SideClosed(s: State, side: Side) {
    if s.halfCloser then s.conn == NotConnected || s.conn == Half(true, side) else s.conn == NotConnected
  }

  /** The thread is past its dealings with the side. */
  ghost predicate Through(t: Thread, side: Side) {
    match t.call
    case Disconnect(d) => d == side && (t.pc.Closing? || t.pc.Done?)
    case Stop =>
      if side.Reader? then t.pc == Closing(Reader) || t.pc.Cancelling? || t.pc.Done? || t.pc.side.Writer?
      else t.pc == Closing(Writer) || t.pc.Cancelling? || t.pc.Done?
  }

  /** A thread works on the sides of its call only. */
  ghost predicate OnTrack(t: Thread) {
    t.call.Disconnect? && !t.pc.Done? ==> !t.pc.Cancelling? && t.pc.side == t.call.side
  }

  /** What the connection state says of a thread, once there is a connection. */
  ghost predicate Agrees(s: State, t: Thread) {
    && OnTrack(t)
    && (t.pc.Second? ==> s.halfCloser && s.conn != Connected)
    && (Through(t, Reader) ==> SideClosed(s, Reader))
    && (Through(t, Writer) ==> SideClosed(s, Writer))
  }

  /** Each side is claimed once at most, and the connection state says which are. Without half-close the
      connection as a whole is. */
  ghost predicate ClaimsAgree(s: State) {
    if s.halfCloser then
      && s.readerClaims == (if SideClosed(s, Reader) then 1 else 0)
      && s.writerClaims == (if SideClosed(s, Writer) then 1 else 0)
    else
      && s.conn in {Connecting, Connected, NotConnected}
      && s.readerClaims + s.writerClaims == (if s.conn == NotConnected then 1 else 0)
  }

  ghost predicate ClosesAgree(s: State) {
    && s.readerCloses + Pending(s.threads, Reader) == s.readerClaims
    && s.writerCloses + Pending(s.threads, Writer) == s.writerClaims
  }

  /** A second swap is tried with half-close only. */
  ghost predicate SecondsAgree(s: State) {
    forall i :: 0 <= i < |s.threads| && s.threads[i].pc.Second? ==> s.halfCloser
  }

  ghost predicate Inv(s: State) {
    ClaimsAgree(s) && ClosesAgree(s) && SecondsAgree(s)
  }

  lemma StepKeepsCloses(s: State, i: nat)
    requires i < |s.threads| && ClosesAgree(s)
    ensures ClosesAgree(Step(s, i))
  {
    var s' := Step(s, i);
    StepMovesOne(s, i);
    PendingUpdate(s.threads, i, s'.threads[i], Reader);
    PendingUpdate(s.threads, i, s'.threads[i], Writer);
  }

  lemma StepMovesOne(s: State, i: nat)
    requires i < |s.threads|
    ensures |Step(s, i).threads| == |s.threads| && Step(s, i).threads == s.threads[i := Step(s, i).threads[i]]
    ensures Step(s, i).threads[i].call == s.threads[i].call
  {
  }

  /** A side once closed stays closed, and the connection never comes back. */
  lemma StepOnlyCloses(s: State, i: nat)
    requires i < |s.threads| && ClaimsAgree(s)
    ensures forall side :: SideClosed(s, side) ==> SideClosed(Step(s, i), side)
    ensures s.conn != Connected ==> Step(s, i).conn != Connected
    ensures Step(s, i).conn == Connecting <==> s.conn == Connecting
    ensures ClaimsAgree(Step(s, i))
  {
  }

  lemma StepKeepsInv(s: State, i: nat)
    requires i < |s.threads| && Inv(s)
    ensures Inv(Step(s, i))
  {
    StepKeepsCloses(s, i);
    StepOnlyCloses(s, i);
    StepMovesOne(s, i);
  }

  lemma ConnectKeepsInv(s: State)
    requires Inv(s)
    ensures Inv(Act(s, Connect))
  {
  }

  lemma StartKeepsInv(s: State, call: Call)
    requires Inv(s)
    ensures Inv(Act(s, Start(call)))
  {
  }

  lemma ActKeepsInv(s: State, a: Action)
    requires Inv(s)
    ensures Inv(Act(s, a)) && Act(s, a).halfCloser == s.halfCloser
    ensures s.conn != Connecting ==> Act(s, a).conn != Connecting
  {
    match a
    case Start(call) => StartKeepsInv(s, call);
    case Connect => ConnectKeepsInv(s);
    case Run(i) =>
      if i < |s.threads| {
        StepKeepsInv(s, i);
        StepOnlyCloses(s, i);
      }
  }

  lemma {:induction false} ExecuteKeepsInv(s: State, actions: seq<Action>)
    requires Inv(s)
    ensures Inv(Execute(s, actions)) && Execute(s, actions).halfCloser == s.halfCloser
    decreases |actions|
  {
    if actions != [] {
      ActKeepsInv(s, actions[0]);
      ExecuteKeepsInv(Act(s, actions[0]), actions[1..]);
    }
  }

  /** A thread that has not started yet agrees. */
  ghost predicate AgreesAt(s: State, i: nat) {
    i < |s.threads| ==> Agrees(s, s.threads[i])
  }

  lemma StepKeepsAgreement(s: State, j: nat, i: nat)
    requires j < |s.threads| && Inv(s) && s.conn != Connecting && AgreesAt(s, i)
    ensures AgreesAt(Step(s, j), i)
  {
    StepOnlyCloses(s, j);
    StepMovesOne(s, j);
    if i != j && i < |s.threads| {
      assert Step(s, j).threads[i] == s.threads[i];
    }
  }

  lemma StartKeepsAgreement(s: State, call: Call, i: nat)
    requires AgreesAt(s, i)
    ensures AgreesAt(Act(s, Start(call)), i)
  {
    assert Agrees(s, Thread(call, Entry(call)));
  }

  lemma ActKeepsAgreement(s: State, a: Action, i: nat)
    requires Inv(s) && s.conn != Connecting && AgreesAt(s, i)
    ensures AgreesAt(Act(s, a), i)
  {
    match a
    case Start(call) => StartKeepsAgreement(s, call, i);
    case Connect =>
    case Run(j) =>
      if j < |s.threads| {
        StepKeepsAgreement(s, j, i);
      }
  }

  /** Once there is a connection a thread that agrees with the state stays so, in every interleaving. */
  lemma {:induction false} AgreementStays(s: State, actions: seq<Action>, i: nat)
    requires Inv(s) && s.conn != Connecting && AgreesAt(s, i)
    ensures AgreesAt(Execute(s, actions), i) && Execute(s, actions).conn != Connecting
    decreases |actions|
  {
    if actions != [] {
      ActKeepsInv(s, actions[0]);
      ActKeepsAgreement(s, actions[0], i);
      AgreementStays(Act(s, actions[0]), actions[1..], i);
    }
  }

  // ---------- The theorems ----------

  /** Each side is claimed and closed once at most, and the state says which sides are claimed. */
  ghost predicate OnceEach(s: State) {
    && s.readerClaims <= 1 && s.writerClaims <= 1
    && s.readerCloses <= s.readerClaims && s.writerCloses <= s.writerClaims
    && (s.conn == NotConnected <==> s.readerClaims == 1 && s.writerClaims == 1)
    && (s.conn in {Connecting, Connected} <==> s.readerClaims == 0 && s.writerClaims == 0)
    && (s.conn == ReadClosed <==> s.readerClaims == 1 && s.writerClaims == 0)
  }

  /** The connection is claimed and closed once at most, by whichever side. */
  ghost predicate OnceTogether(s: State) {
    && s.readerCloses + s.writerCloses <= s.readerClaims + s.writerClaims <= 1
    && (s.conn == NotConnected <==> s.readerClaims + s.writerClaims == 1)
  }

  lemma InvMeansOnce(s: State)
    requires Inv(s)
    ensures if s.halfCloser then OnceEach(s) else OnceTogether(s)
  {
  }

  /** A dialer that is connected, or is going to be. */
  predicate Open(conn: Conn) {
    conn == Connecting || conn == Connected
  }

  /** In every interleaving, with and without half-close, wherever the dialer becomes connected. */
  lemma {:induction false} ClosedOnceAtMost(halfCloser: bool, conn: Conn, actions: seq<Action>)
    requires Open(conn)
    ensures var s := Execute(Initial(halfCloser, conn), actions);
            if halfCloser then OnceEach(s) else OnceTogether(s)
  {
    ExecuteKeepsInv(Initial(halfCloser, conn), actions);
    InvMeansOnce(Execute(Initial(halfCloser, conn), actions));
  }

  /** Once every call has returned, each claimed side has been closed. */
  lemma {:induction false} ClaimsAreHonoured(halfCloser: bool, conn: Conn, actions: seq<Action>)
    requires Open(conn)
    requires forall i :: 0 <= i < |Execute(Initial(halfCloser, conn), actions).threads| ==>
               Execute(Initial(halfCloser, conn), actions).threads[i].pc.Done?
    ensures var s := Execute(Initial(halfCloser, conn), actions);
            s.readerCloses == s.readerClaims && s.writerCloses == s.writerClaims
  {
    ExecuteKeepsInv(Initial(halfCloser, conn), actions);
    NonePending(Execute(Initial(halfCloser, conn), actions).threads);
  }

  lemma {:induction false} NonePending(threads: seq<Thread>)
    requires forall i :: 0 <= i < |threads| ==> threads[i].pc.Done?
    ensures Pending(threads, Reader) == 0 && Pending(threads, Writer) == 0
    decreases |threads|
  {
    if threads != [] {
      NonePending(threads[..|threads| - 1]);
    }
  }

  // ---------- When Stop disconnects ----------

  ghost predicate StopReturned(s: State, i: nat) {
    i < |s.threads| && s.threads[i] == Thread(Stop, Done)
  }

  lemma StoppedThread(s: State, i: nat)
    requires AgreesAt(s, i) && StopReturned(s, i)
    ensures s.conn == NotConnected
  {
    assert Through(s.threads[i], Reader) && Through(s.threads[i], Writer);
  }

  /** Once there is a connection, a Stop that is started disconnects: when it has returned the dialer is not
      connected, whatever else is going on. */
  lemma StopDisconnects(s: State, actions: seq<Action>, i: nat)
    requires Inv(s) && s.conn != Connecting && i >= |s.threads|
    requires StopReturned(Execute(s, actions), i)
    ensures Execute(s, actions).conn == NotConnected
  {
    AgreementStays(s, actions, i);
    StoppedThread(Execute(s, actions), i);
  }

  /** The Stop has a swap ahead that starts from `Connected` and, by itself or with the one that follows,
      leads to `NotConnected`. */
  predicate InTime(halfCloser: bool, pc: Pc) {
    pc == First(Reader) || (!halfCloser && pc == First(Writer))
  }

  /** Whatever happens from here on, the dialer is not connected when the Stop has returned. */
  ghost predicate WillDisconnect(s: State, i: nat) {
    forall actions :: StopReturned(Execute(s, actions), i) ==> Execute(s, actions).conn == NotConnected
  }

  /** Without half-close the swap of the writer is as good as that of the reader. */
  ghost predicate LastSwapAhead(s: State, i: nat) {
    i < |s.threads| && (s.conn == NotConnected || s.threads[i] == Thread(Stop, First(Writer)))
  }

  lemma {:induction false} LastSwapStays(s: State, actions: seq<Action>, i: nat)
    requires Inv(s) && !s.halfCloser && s.conn != Connecting && LastSwapAhead(s, i)
    ensures LastSwapAhead(Execute(s, actions), i)
    decreases |actions|
  {
    if actions != [] {
      ActKeepsInv(s, actions[0]);
      LastSwapStays(Act(s, actions[0]), actions[1..], i);
    }
  }

  lemma InTimeDisconnects(s: State, actions: seq<Action>, i: nat)
    requires Inv(s) && s.conn == Connected && i < |s.threads| && s.threads[i].call == Stop
    requires InTime(s.halfCloser, s.threads[i].pc) && StopReturned(Execute(s, actions), i)
    ensures Execute(s, actions).conn == NotConnected
  {
    if s.threads[i].pc == First(Reader) {
      AgreementStays(s, actions, i);
      StoppedThread(Execute(s, actions), i);
    } else {
      LastSwapStays(s, actions, i);
    }
  }

  lemma ExecuteFirst(s: State, a: Action, rest: seq<Action>)
    ensures Execute(s, [a] + rest) == Execute(Act(s, a), rest)
  {
    assert ([a] + rest)[1..] == rest;
  }

  /** The Stop goes on by itself: four steps are enough from anywhere behind its first swap. */
  lemma LateStopReturns(s: State, i: nat) returns (actions: seq<Action>)
    requires Inv(s) && s.conn == Connected && i < |s.threads| && s.threads[i].call == Stop
    requires s.threads[i].pc != Closing(Reader) && s.threads[i].pc != Closing(Writer)
    requires !InTime(s.halfCloser, s.threads[i].pc)
    ensures StopReturned(Execute(s, actions), i) && Execute(s, actions).conn != NotConnected
  {
    actions := [Run(i)] + ([Run(i)] + ([Run(i)] + ([Run(i)] + [])));
    var s1 := Act(s, Run(i));
    var s2 := Act(s1, Run(i));
    var s3 := Act(s2, Run(i));
    ExecuteFirst(s, Run(i), [Run(i)] + ([Run(i)] + ([Run(i)] + [])));
    ExecuteFirst(s1, Run(i), [Run(i)] + ([Run(i)] + []));
    ExecuteFirst(s2, Run(i), [Run(i)] + []);
    ExecuteFirst(s3, Run(i), []);
  }

  lemma {:induction false} NobodyCloses(threads: seq<Thread>, side: Side, i: nat)
    requires i < |threads| && Pending(threads, side) == 0
    ensures threads[i].pc != Closing(side)
    decreases |threads|
  {
    if i < |threads| - 1 {
      NobodyCloses(threads[..|threads| - 1], side, i);
    }
  }

  lemma NobodyClosesYet(s: State, i: nat)
    requires Inv(s) && s.conn == Connecting && i < |s.threads|
    ensures s.threads[i].pc != Closing(Reader) && s.threads[i].pc != Closing(Writer)
  {
    assert Pending(s.threads, Reader) == 0 && Pending(s.threads, Writer) == 0;
    NobodyCloses(s.threads, Reader, i);
    NobodyCloses(s.threads, Writer, i);
  }

  /** The dialer becomes connected in the middle of a Stop: the Stop disconnects it in every interleaving that
      follows, if and only if it has not gone past the first swap of the reader, or of the writer without
      half-close. */
  lemma StopInTimeExactly(s: State, i: nat)
    requires Inv(s) && s.conn == Connecting && i < |s.threads| && s.threads[i].call == Stop
    ensures WillDisconnect(Act(s, Connect), i) <==> InTime(s.halfCloser, s.threads[i].pc)
  {
    var t := Act(s, Connect);
    ConnectKeepsInv(s);
    if InTime(s.halfCloser, s.threads[i].pc) {
      forall actions | StopReturned(Execute(t, actions), i)
        ensures Execute(t, actions).conn == NotConnected
      {
        InTimeDisconnects(t, actions, i);
      }
    } else {
      NobodyClosesYet(s, i);
      var actions := LateStopReturns(t, i);
    }
  }

  /** The reader's half of a Stop, the store, the writer's half. */
  function Straddling(): seq<Action> {
    [Start(Stop)] + ([Run(0)] + ([Run(0)] + ([Connect] + ([Run(0)] + ([Run(0)] + ([Run(0)] + []))))))
  }

  /** Such a Stop returns and leaves the connection half closed: it has called CloseRead only. */
  lemma StraddlingStopClosesHalf()
    ensures var s := Execute(Initial(true, Connecting), Straddling());
            StopReturned(s, 0) && s.conn == WriteClosed && s.readerCloses == 0 && s.writerCloses == 1
  {
    var s1 := Act(Initial(true, Connecting), Start(Stop));
    var s3 := Act(Act(s1, Run(0)), Run(0));
    assert s3.threads == [Thread(Stop, First(Writer))];
    var s4 := Act(s3, Connect);
    var s6 := Act(Act(s4, Run(0)), Run(0));
    assert s6.threads == [Thread(Stop, Cancelling)];
    StraddlingRun(Initial(true, Connecting));
  }

  lemma StraddlingRun(s: State)
    ensures var s3 := Act(Act(Act(s, Start(Stop)), Run(0)), Run(0));
            Execute(s, Straddling()) == Act(Act(Act(Act(s3, Connect), Run(0)), Run(0)), Run(0))
  {
    var s1 := Act(s, Start(Stop));
    var s2 := Act(s1, Run(0));
    var s3 := Act(s2, Run(0));
    var s4 := Act(s3, Connect);
    var s5 := Act(s4, Run(0));
    var s6 := Act(s5, Run(0));
    var three := [Run(0)] + ([Run(0)] + ([Run(0)] + []));
    ExecuteFirst(s, Start(Stop), [Run(0)] + ([Run(0)] + ([Connect] + three)));
    ExecuteFirst(s1, Run(0), [Run(0)] + ([Connect] + three));
    ExecuteFirst(s2, Run(0), [Connect] + three);
    ExecuteFirst(s3, Connect, three);
    ExecuteFirst(s4, Run(0), [Run(0)] + ([Run(0)] + []));
    ExecuteFirst(s5, Run(0), [Run(0)] + []);
    ExecuteFirst(s6, Run(0), []);
  }

  /** How many Stop calls have returned. */
  function Stopped(threads: seq<Thread>): nat {
    if threads == [] then 0
    else Stopped(threads[..|threads| - 1]) + if threads[|threads| - 1] == Thread(Stop, Done) then 1 else 0
  }

  lemma {:induction false} StoppedUpdate(threads: seq<Thread>, i: nat, t: Thread)
    requires i < |threads|
    ensures Stopped(threads[i := t]) + (if threads[i] == Thread(Stop, Done) then 1 else 0)
         == Stopped(threads) + (if t == Thread(Stop, Done) then 1 else 0)
    decreases |threads|
  {
    var n := |threads| - 1;
    if i < n {
      StoppedUpdate(threads[..n], i, t);
      assert threads[i := t][..n] == threads[..n][i := t];
    } else {
      assert threads[i := t][..n] == threads[..n];
    }
  }

  lemma StepCancels(s: State, i: nat)
    requires i < |s.threads| && s.cancels == Stopped(s.threads)
    requires s.threads[i].call.Disconnect? ==> !s.threads[i].pc.Cancelling?
    ensures Step(s, i).cancels == Stopped(Step(s, i).threads)
    ensures s.threads[i].call.Disconnect? ==> !Step(s, i).threads[i].pc.Cancelling?
  {
    StepMovesOne(s, i);
    StoppedUpdate(s.threads, i, Step(s, i).threads[i]);
  }

  /** Only a Stop cancels. */
  ghost predicate OnlyStops(s: State) {
    forall i :: 0 <= i < |s.threads| && s.threads[i].call.Disconnect? ==> !s.threads[i].pc.Cancelling?
  }

  lemma StartCancels(s: State, call: Call)
    requires s.cancels == Stopped(s.threads) && OnlyStops(s)
    ensures Act(s, Start(call)).cancels == Stopped(Act(s, Start(call)).threads) && OnlyStops(Act(s, Start(call)))
  {
    assert Act(s, Start(call)).threads[..|s.threads|] == s.threads;
  }

  lemma ActCancels(s: State, a: Action)
    requires s.cancels == Stopped(s.threads) && OnlyStops(s)
    ensures Act(s, a).cancels == Stopped(Act(s, a).threads) && OnlyStops(Act(s, a))
  {
    match a
    case Start(call) => StartCancels(s, call);
    case Connect =>
    case Run(i) =>
      if i < |s.threads| {
        StepCancels(s, i);
        StepMovesOne(s, i);
      }
  }

  /** In every interleaving, from every state, the cancel function has been called once for each Stop that has
      returned, whatever became of the connection. */
  lemma {:induction false} EveryStopCancels(s: State, actions: seq<Action>)
    requires s.cancels == Stopped(s.threads) && OnlyStops(s)
    ensures Execute(s, actions).cancels == Stopped(Execute(s, actions).threads)
    decreases |actions|
  {
    if actions != [] {
      ActCancels(s, actions[0]);
      EveryStopCancels(Act(s, actions[0]), actions[1..]);
    }
  }

  /** As long as the dialer is connecting it ignores every disconnect: Stop returns and nothing is closed. */
  lemma {:induction false} ConnectingIgnoresStop(s: State, actions: seq<Action>)
    requires s.conn == Connecting && Connect !in actions
    requires forall i :: 0 <= i < |s.threads| ==> !s.threads[i].pc.Closing?
    ensures var t := Execute(s, actions);
            && t.conn == Connecting && t.readerClaims == s.readerClaims && t.writerClaims == s.writerClaims
            && t.readerCloses == s.readerCloses && t.writerCloses == s.writerCloses
    decreases |actions|
  {
    if actions != [] {
      ConnectingIgnoresStop(Act(s, actions[0]), actions[1..]);
    }
  }

  // ---------- One goroutine by itself ----------

  /** What a disconnect that nobody interferes with makes of the connection state. */
  function Disconnected(halfCloser: bool, conn: Conn, side: Side): Conn {
    if conn == Connected then Half(halfCloser, side)
    else if halfCloser && conn == OtherHalf(side) then NotConnected
    else conn
  }

  /** Three undisturbed steps complete a disconnect. */
  lemma SoloDisconnect(s: State, i: nat, side: Side)
    requires i < |s.threads| && s.threads[i] == Thread(Disconnect(side), First(side))
    ensures var t := Step(Step(Step(s, i), i), i);
            t.conn == Disconnected(s.halfCloser, s.conn, side) && t.threads[i].pc == Done
  {
  }

  class Dialer {
    const halfCloser: bool
    var connected: Conn
    var closeWrites: nat
    var closeReads: nat
    var closes: nat
    var cancels: nat

    constructor (halfCloser: bool, conn: Conn)
      ensures this.halfCloser == halfCloser && connected == conn && closeWrites == closeReads == closes == cancels == 0
    {
      this.halfCloser := halfCloser;
      connected, closeWrites, closeReads, closes, cancels := conn, 0, 0, 0, 0;
    }

    /** `atomic.CompareAndSwapInt32(&h.connected, from, to)`. */
    method CompareAndSwap(from: Conn, to: Conn) returns (swapped: bool)
      modifies this`connected
      ensures swapped <==> old(connected) == from
      ensures connected == if swapped then to else old(connected)
    {
      swapped := connected == from;
      if swapped {
        connected := to;
      }
    }

    /** `startReaderDisconnect`. */
    method StartReaderDisconnect()
      requires halfCloser
      modifies this`connected, this`closeWrites
      ensures connected == Disconnected(true, old(connected), Reader)
      ensures closeWrites == old(closeWrites) + if connected != old(connected) then 1 else 0
    {
      var claimed := CompareAndSwap(Connected, ReadClosed);
      if !claimed {
        claimed := CompareAndSwap(WriteClosed, NotConnected);
      }
      if claimed {
        closeWrites := closeWrites + 1;
      }
    }

    /** `startWriterDisconnect`. */
    method StartWriterDisconnect()
      requires halfCloser
      modifies this`connected, this`closeReads
      ensures connected == Disconnected(true, old(connected), Writer)
      ensures closeReads == old(closeReads) + if connected != old(connected) then 1 else 0
    {
      var claimed := CompareAndSwap(Connected, WriteClosed);
      if !claimed {
        claimed := CompareAndSwap(ReadClosed, NotConnected);
      }
      if claimed {
        closeReads := closeReads + 1;
      }
    }

    /** `startDisconnect`. */
    method StartDisconnect(isReader: bool)
      modifies this`connected, this`closeWrites, this`closeReads, this`closes
      ensures connected == Disconnected(halfCloser, old(connected), if isReader then Reader else Writer)
      ensures var made := if connected != old(connected) then 1 else 0;
              && closeWrites == old(closeWrites) + (if halfCloser && isReader then made else 0)
              && closeReads == old(closeReads) + (if halfCloser && !isReader then made else 0)
              && closes == old(closes) + (if halfCloser then 0 else made)
    {
      if halfCloser {
        if isReader {
          StartReaderDisconnect();
        } else {
          StartWriterDisconnect();
        }
      } else {
        var claimed := CompareAndSwap(Connected, NotConnected);
        if claimed {
          closes := closes + 1;
        }
      }
    }

    /** `Stop`: by itself it ends in `NotConnected` from every state but `Connecting` (the half-closed
        states exist with half-close only), and it always cancels. */
    method Stop()
      modifies this
      ensures cancels == old(cancels) + 1
      ensures connected == NotConnected <==>
              old(connected) in {Connected, NotConnected} || (halfCloser && old(connected) in {ReadClosed, WriteClosed})
      ensures old(connected) == Connecting ==> connected == Connecting
      ensures halfCloser && old(connected) == Connected ==>
                closeWrites == old(closeWrites) + 1 && closeReads == old(closeReads) + 1 && closes == old(closes)
      ensures !halfCloser && old(connected) == Connected ==>
                closes == old(closes) + 1 && closeWrites == old(closeWrites) && closeReads == old(closeReads)
      ensures old(connected) in {NotConnected, Connecting} ==>
                closes == old(closes) && closeWrites == old(closeWrites) && closeReads == old(closeReads)
    {
      StartDisconnect(true);
      StartDisconnect(false);
      cancels := cancels + 1;
    }
  }
}
