/** What one `Read` of a streamConn returns, by what is in hand, what is queued and how its waits end. */
module StreamReads {
  import opened StreamConn
  import opened Wrappers

  /** As much of the message as the buffer takes. */
  function Front(m: Bytes, size: nat): Bytes {
    if size < |m| then m[..size] else m
  }

  /** Bytes in hand are returned without a wait, as many as the buffer takes. */
  lemma ReadInHand(s: State, size: nat, w1: Wake, w2: Wake)
    requires s.last.Some? && s.offset < |s.last.value|
    ensures var r := Reading(s, size, w1, w2);
            && r.data == Front(s.last.value[s.offset..], size) && !r.failed
            && r.state.queue == s.queue && r.state.orphans == s.orphans
  {
  }

  /** With nothing in hand the next message is waited for. If it does not come, nothing is returned but an error, and
      only a cancelled wait leaves a goroutine behind. */
  lemma ReadNothing(s: State, size: nat, w1: Wake, w2: Wake)
    requires s.last.None? && (w1 != Arrived || s.queue == [])
    ensures var r := Reading(s, size, w1, w2);
            && r.data == [] && r.failed && r.state.queue == s.queue
            && r.state.orphans == s.orphans + if w1 == Cancelled then 1 else 0
  {
  }

  lemma ReadNext(s: State, size: nat, w1: Wake, w2: Wake)
    requires s.last.None? && w1 == Arrived && s.queue != [] && s.queue[0] != []
    ensures var r := Reading(s, size, w1, w2);
            && r.data == Front(s.queue[0], size) && !r.failed
            && r.state.queue == s.queue[1..] && r.state.orphans == s.orphans
  {
  }

  /** A message without a payload is skipped, once: the one behind it is returned even if it has none either. */
  lemma ReadBehindEmpty(s: State, size: nat, w1: Wake, w2: Wake)
    requires s.last.None? && w1 == Arrived && s.queue != [] && s.queue[0] == []
    ensures var r, rest := Reading(s, size, w1, w2), s.queue[1..];
            if w2 == Arrived && rest != []
            then r.data == Front(rest[0], size) && !r.failed && r.state.queue == rest[1..]
                 && r.state.orphans == s.orphans
            else r.data == [] && r.failed && r.state.queue == rest
                 && r.state.orphans == s.orphans + if w2 == Cancelled then 1 else 0
  {
  }
}
