/** The replaying attacker: it records the first advertisement it overhears, verbatim,
    and rebroadcasts that same text on a fixed period for ever after. */
module Attacker {
  import opened Uint
  import opened Options
  import opened Address
  import opened Scanner
  import opened Wire
  import opened Node
  import opened Properties

  /** Size of `captured_payload`, NUL terminator included. */
  const CAPTURE_BUFFER: nat := 256
  /** REPLAY_DELAY and REPLAY_PERIOD, in seconds of the abstract clock. */
  const REPLAY_DELAY: nat := 12
  const REPLAY_PERIOD: nat := 10

  /** The attacker's globals. `timer` is the replay etimer: `None` before it is first set,
      otherwise the time it fires. */
  datatype AttackerState = AttackerState(captured: string, hasCaptured: bool, timer: Option<nat>)

  datatype AttackerReaction = AttackerReaction(attacker: AttackerState, sent: seq<Packet>)

  /** The attacker process right after it starts. */
  const INITIAL: AttackerState := AttackerState("", false, None)

  /** Whether the replay etimer counts as expired at `now`; a timer never set does. */
  predicate TimerExpired(a: AttackerState, now: nat) {
    a.timer.None? || a.timer.value <= now
  }

  /** `handle_dio_sniff`: a datagram overheard on the DIO port at time `now`. */
  function Sniff(a: AttackerState, data: string, now: nat): (r: AttackerState)
    ensures a.hasCaptured || data == [] ==> r == a
    ensures !a.hasCaptured && data != [] ==>
      && r.hasCaptured
      && r.captured == CString(data, CAPTURE_BUFFER)
      && r.timer == Some(now + REPLAY_DELAY)
  {
    if !a.hasCaptured && |data| > 0 then
      AttackerState(CString(data, CAPTURE_BUFFER), true, Some(now + REPLAY_DELAY))
    else a
  }

  /** `replay_captured`: rebroadcast the captured text, if there is any, and re-arm. */
  function Replay(a: AttackerState, now: nat): (r: AttackerReaction)
    ensures !a.hasCaptured || a.captured == [] <==> r == AttackerReaction(a, [])
    ensures a.hasCaptured && a.captured != [] ==>
      && r.sent == [Packet(DIO_PORT, AllNodes, a.captured)]
      && r.attacker == a.(timer := Some(now + REPLAY_PERIOD))
  {
    if !a.hasCaptured || a.captured == [] then AttackerReaction(a, [])
    else AttackerReaction(a.(timer := Some(now + REPLAY_PERIOD)), [Packet(DIO_PORT, AllNodes, a.captured)])
  }

  /** One pass of the attacker process loop at time `now`. */
  function AttackerWake(a: AttackerState, now: nat): (r: AttackerReaction)
    ensures r.attacker.captured == a.captured && r.attacker.hasCaptured == a.hasCaptured
    ensures |r.sent| <= 1
    ensures r.sent != [] <==> TimerExpired(a, now) && a.hasCaptured && a.captured != []
    ensures r.sent != [] ==> r.sent[0].payload == a.captured && r.attacker.timer == Some(now + REPLAY_PERIOD)
    ensures r.sent == [] ==> r.attacker == a
  {
    if TimerExpired(a, now) then Replay(a, now) else AttackerReaction(a, [])
  }

  /** Once something has been captured, nothing the attacker overhears changes what it replays. */
  lemma {:induction false} CapturesOnce(a: AttackerState, ds: seq<string>, times: seq<nat>)
    requires a.hasCaptured && |ds| == |times|
    ensures SniffAll(a, ds, times) == a
    decreases |ds|
  {
    if ds != [] {
      CapturesOnce(Sniff(a, ds[0], times[0]), ds[1..], times[1..]);
    }
  }

  /** Overhearing a sequence of datagrams, one at each of `times`. */
  function SniffAll(a: AttackerState, ds: seq<string>, times: seq<nat>): AttackerState
    requires |ds| == |times|
    decreases |ds|
  {
    if ds == [] then a else SniffAll(Sniff(a, ds[0], times[0]), ds[1..], times[1..])
  }

  /** An overheard advertisement is replayed byte for byte, `REPLAY_DELAY` after it was
      captured and every `REPLAY_PERIOD` after each replay, and is silent in between. */
  lemma ReplayIsVerbatim(d: Dio, t: nat, later: nat)
    requires t <= later < t + REPLAY_DELAY
    ensures var a := Sniff(INITIAL, EncodeDio(d), t);
      && a.captured == EncodeDio(d)
      && AttackerWake(a, later).sent == []
      && var r := AttackerWake(a, t + REPLAY_DELAY);
      && r.sent == [Packet(DIO_PORT, AllNodes, EncodeDio(d))]
      && r.attacker.timer == Some(t + REPLAY_DELAY + REPLAY_PERIOD)
  {
    CStringOfShort(EncodeDio(d), CAPTURE_BUFFER);
  }

  /** What a node does with the replayed copy of `d` depends only on its own table row:
      once the node has accepted a later counter from that sender the replay changes
      nothing; while the row still holds `d`'s own counter and the replay offers a better
      rank, the node takes the attacker's address as its parent. */
  lemma ReplayVerdict(s: NodeState, d: Dio, t: nat, attacker: Addr, now: nat)
    requires WellFormed(s)
    ensures var r := AttackerWake(Sniff(INITIAL, EncodeDio(d), t), t + REPLAY_DELAY);
      && |r.sent| == 1
      && var v := OnDio(s, attacker, r.sent[0].payload, now);
      && (d.counter < s.lastSeen[SenderIndex(d.senderId)] ==> v == Reaction(s, []))
      && (d.senderId != s.id && !s.blacklisted[SenderIndex(d.senderId)] &&
          s.lastSeen[SenderIndex(d.senderId)] == d.counter != 0 &&
          !s.isRoot && AddWrap(d.rank, RANK_INCREMENT) < s.rank ==>
            v.node.parentAddr == attacker && v.node.lastSeen == s.lastSeen)
  {
    ReplayIsVerbatim(d, t, t + 1);
    DioRoundTrip(d);
    if d.counter < s.lastSeen[SenderIndex(d.senderId)] {
      assert ProcessDio(s, attacker, d, now) == Reaction(s, []);
    }
    if d.senderId != s.id && !s.blacklisted[SenderIndex(d.senderId)] &&
       s.lastSeen[SenderIndex(d.senderId)] == d.counter != 0 &&
       !s.isRoot && AddWrap(d.rank, RANK_INCREMENT) < s.rank {
      EqualCounterRefreshesParent(s, attacker, d, now);
    }
  }
}
