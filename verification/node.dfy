/** The secure node: its own routing state, the per-sender trust table, the pool of pending
    challenges, and one pure transition for each event the firmware reacts to. */
module Node {
  import opened Uint
  import opened Options
  import opened Address
  import opened Wire
  import opened Challenge

  /** Rows of `last_seen_counter` and `blacklisted`. */
  const TABLE_SIZE: nat := 256
  const DEFAULT_RANK: U32 := 1000000
  const RANK_INCREMENT: U32 := 10
  const DIO_PORT: nat := 30000
  const AUTH_PORT: nat := 30001
  /** `my_parent_id` while no parent has been chosen. */
  const NO_PARENT: int := -1
  /** `my_version`, fixed at 1. */
  const VERSION: U32 := 1

  datatype Dest = AllNodes | Unicast(to: Addr)

  /** A datagram the node hands to the transport. */
  datatype Packet = Packet(port: nat, dest: Dest, payload: string)

  datatype NodeState = NodeState(
    id: U32,
    isRoot: bool,
    version: U32,
    rank: U32,
    counter: U32,
    parentId: int,
    parentAddr: Addr,
    hasParentAddr: bool,
    nextNonce: U32,
    pending: seq<Slot>,
    lastSeen: seq<U32>,
    blacklisted: seq<bool>)

  /** The state after an event and the datagrams sent while handling it. */
  datatype Reaction = Reaction(node: NodeState, sent: seq<Packet>)

  /** The tables have their fixed sizes. */
  predicate WellFormed(s: NodeState) {
    && |s.pending| == MAX_PENDING_AUTH
    && |s.lastSeen| == TABLE_SIZE
    && |s.blacklisted| == TABLE_SIZE
  }

  predicate Inv(s: NodeState) {
    WellFormed(s) && PoolInv(s.pending, s.nextNonce)
  }

  /** The trust-table row of a sender: ids equal modulo 256 share a row. */
  function SenderIndex(id: U32): (k: nat)
    ensures k < TABLE_SIZE
    ensures id < TABLE_SIZE ==> k == id
    ensures (id - k) % TABLE_SIZE == 0
  {
    id % TABLE_SIZE
  }

  /** Rank, parent id and parent address. */
  predicate SameTopology(a: NodeState, b: NodeState) {
    a.rank == b.rank && a.parentId == b.parentId && a.parentAddr == b.parentAddr && a.hasParentAddr == b.hasParentAddr
  }

  /** Everything except rank, parent id and parent address. */
  predicate SameExceptTopology(a: NodeState, b: NodeState) {
    a.(rank := b.rank, parentId := b.parentId, parentAddr := b.parentAddr, hasParentAddr := b.hasParentAddr) == b
  }

  /** What no event changes: identity and role; and the rank, which never rises, and the
      parent of a root, which never moves. */
  predicate KeepsRole(s: NodeState, r: NodeState) {
    && r.id == s.id && r.isRoot == s.isRoot && r.version == s.version
    && r.rank <= s.rank
    && (s.isRoot ==> SameTopology(r, s))
  }

  /** An event issues at most one nonce. */
  predicate IssuesAtMostOneNonce(s: NodeState, r: NodeState) {
    r.nextNonce == s.nextNonce || r.nextNonce == AddWrap(s.nextNonce, 1)
  }

  // Startup

  /** The node id: the platform's, else the one in the global address, else 1. */
  function DeriveId(nodeId: U32, globalAddr: Option<Addr>): (id: U32)
    ensures id != 0
    ensures nodeId != 0 ==> id == nodeId
    ensures nodeId == 0 && globalAddr.Some? && NodeIdFromAddr(globalAddr.value) != 0 ==> id == NodeIdFromAddr(globalAddr.value)
    ensures nodeId == 0 && (globalAddr.None? || NodeIdFromAddr(globalAddr.value) == 0) ==> id == 1
  {
    if nodeId != 0 then nodeId
    else if globalAddr.Some? && NodeIdFromAddr(globalAddr.value) != 0 then NodeIdFromAddr(globalAddr.value)
    else 1
  }

  function Startup(nodeId: U32, globalAddr: Option<Addr>): (s: NodeState)
    ensures Inv(s)
    ensures s.id == DeriveId(nodeId, globalAddr) && s.version == VERSION
    ensures s.isRoot <==> s.id == 1
    ensures s.rank == if s.isRoot then 0 else DEFAULT_RANK
    ensures s.counter == 0 && s.nextNonce == 1
    ensures s.parentId == NO_PARENT && !s.hasParentAddr
    ensures forall k :: 0 <= k < TABLE_SIZE ==> s.lastSeen[k] == 0 && !s.blacklisted[k]
    ensures forall i :: 0 <= i < MAX_PENDING_AUTH ==> !s.pending[i].inUse
  {
    var id := DeriveId(nodeId, globalAddr);
    var root := id == 1;
    NodeState(
      id, root, VERSION, if root then 0 else DEFAULT_RANK, 0,
      NO_PARENT, UNSPECIFIED, false,
      1, seq(MAX_PENDING_AUTH, _ => EMPTY_SLOT),
      seq(TABLE_SIZE, _ => 0), seq(TABLE_SIZE, _ => false))
  }

  // Parent selection

  /** The greedy rule: a non-root node adopts the advertiser when the advertised rank plus
      RANK_INCREMENT, computed in uint32, is strictly below its own rank. */
  function SelectParent(s: NodeState, sender: U32, advertised: U32, from: Addr): (r: NodeState)
    ensures SameExceptTopology(s, r)
    ensures r.rank <= s.rank
    ensures r == s <==> s.isRoot || AddWrap(advertised, RANK_INCREMENT) >= s.rank
    ensures r != s ==>
      && r.rank == AddWrap(advertised, RANK_INCREMENT) < s.rank
      && r.parentId == ToInt32(sender)
      && r.parentAddr == from
      && r.hasParentAddr
  {
    var candidate := AddWrap(advertised, RANK_INCREMENT);
    if !s.isRoot && candidate < s.rank then
      s.(rank := candidate, parentId := ToInt32(sender), parentAddr := from, hasParentAddr := true)
    else s
  }

  // Receiving a DIO

  /** `send_auth_req`: the unicast to `to` on the authentication port that its receiver
      reads as a challenge for `nonce`. */
  function ChallengeTo(to: Addr, nonce: U32): (p: Packet)
    ensures p.port == AUTH_PORT && p.dest == Unicast(to)
    ensures |p.payload| < AUTH_SEND_BUFFER
  {
    Packet(AUTH_PORT, Unicast(to), EncodeAuth(AuthReq(nonce)))
  }

  /** A challenge arrives as a challenge for the nonce it was sent with. */
  lemma ChallengeDecodes(to: Addr, nonce: U32)
    ensures ReceiveAuth(ChallengeTo(to, nonce).payload) == Some(AuthReq(nonce))
  {
    AuthRoundTrip(AuthReq(nonce));
  }

  /** A repeated advertisement from an address already challenged: only the claimed fields
      of its slot are replaced; the nonce and the deadline stay. */
  function Refresh(s: NodeState, i: nat, d: Dio): (r: NodeState)
    requires WellFormed(s) && i < MAX_PENDING_AUTH
    ensures WellFormed(r)
    ensures r.(pending := s.pending) == s
    ensures r.pending[i].Claim() == d && SameChallenge(r.pending[i], s.pending[i])
    ensures forall j :: 0 <= j < MAX_PENDING_AUTH && j != i ==> r.pending[j] == s.pending[j]
  {
    var slot := s.pending[i].(senderId := d.senderId, version := d.version, rank := d.rank, counter := d.counter);
    s.(pending := s.pending[i := slot])
  }

  /** A challenge opened in slot `i`: the next nonce is issued and the timer armed. */
  function Open(s: NodeState, i: nat, from: Addr, d: Dio, now: nat): (r: Reaction)
    requires WellFormed(s) && i < MAX_PENDING_AUTH
    ensures WellFormed(r.node)
    ensures r.node.(pending := s.pending, nextNonce := s.nextNonce) == s
    ensures Holds(r.node.pending[i], from) && r.node.pending[i].Claim() == d
    ensures r.node.pending[i].nonce == s.nextNonce && r.node.pending[i].deadline == now + AUTH_TIMEOUT
    ensures forall j :: 0 <= j < MAX_PENDING_AUTH && j != i ==> r.node.pending[j] == s.pending[j]
    ensures r.node.nextNonce == AddWrap(s.nextNonce, 1)
    ensures r.sent == [ChallengeTo(from, s.nextNonce)]
  {
    var slot := Slot(true, from, d.senderId, d.version, d.rank, d.counter, s.nextNonce, now + AUTH_TIMEOUT);
    Reaction(s.(pending := s.pending[i := slot], nextNonce := AddWrap(s.nextNonce, 1)), [ChallengeTo(from, s.nextNonce)])
  }

  /** An advertisement from a sender with no accepted counter yet: refresh the challenge
      outstanding for its address, or open one in the first free slot, or drop it. */
  function FirstContact(s: NodeState, from: Addr, d: Dio, now: nat): (r: Reaction)
    requires WellFormed(s)
    ensures WellFormed(r.node)
    ensures r.node.(pending := s.pending, nextNonce := s.nextNonce) == s
    ensures FindPending(s.pending, from).Some? ==>
      r == Reaction(Refresh(s, FindPending(s.pending, from).value, d), [])
    ensures FindPending(s.pending, from).None? && FirstFree(s.pending).Some? ==>
      r == Open(s, FirstFree(s.pending).value, from, d, now)
    ensures FindPending(s.pending, from).None? && FirstFree(s.pending).None? ==> r == Reaction(s, [])
  {
    match FindPending(s.pending, from)
    case Some(i) => Reaction(Refresh(s, i, d), [])
    case None =>
      match FirstFree(s.pending)
      case None => Reaction(s, [])
      case Some(i) => Open(s, i, from, d, now)
  }

  /** `handle_dio_recv` after the payload has been parsed. */
  function ProcessDio(s: NodeState, from: Addr, d: Dio, now: nat): (r: Reaction)
    requires WellFormed(s)
    ensures WellFormed(r.node)
    ensures KeepsRole(s, r.node)
    ensures IssuesAtMostOneNonce(s, r.node)
    ensures r.node.blacklisted == s.blacklisted
    ensures d.senderId == s.id ==> r == Reaction(s, [])
    ensures s.blacklisted[SenderIndex(d.senderId)] ==> r == Reaction(s, [])
    ensures s.lastSeen[SenderIndex(d.senderId)] == 0 ==>
      && r.node.lastSeen == s.lastSeen
      && r.node.counter == s.counter
      && SameTopology(r.node, s)
    ensures d.counter < s.lastSeen[SenderIndex(d.senderId)] ==> r == Reaction(s, [])
    ensures d.senderId != s.id && !s.blacklisted[SenderIndex(d.senderId)] && s.lastSeen[SenderIndex(d.senderId)] == 0 ==>
      r == FirstContact(s, from, d, now)
    ensures d.senderId != s.id && !s.blacklisted[SenderIndex(d.senderId)] &&
            0 != s.lastSeen[SenderIndex(d.senderId)] <= d.counter ==>
      && r.sent == []
      && r.node == SelectParent(s.(lastSeen := s.lastSeen[SenderIndex(d.senderId) := d.counter]), d.senderId, d.rank, from)
  {
    var idx := SenderIndex(d.senderId);
    if d.senderId == s.id then Reaction(s, [])
    else if s.blacklisted[idx] then Reaction(s, [])
    else if s.lastSeen[idx] == 0 && !s.blacklisted[idx] then FirstContact(s, from, d, now)
    else if d.counter < s.lastSeen[idx] then Reaction(s, [])
    else
      var trusted := s.(lastSeen := s.lastSeen[idx := d.counter]);
      Reaction(SelectParent(trusted, d.senderId, d.rank, from), [])
  }

  /** `handle_dio_recv`: a datagram on the DIO port from `from` at time `now`. */
  function OnDio(s: NodeState, from: Addr, data: string, now: nat): (r: Reaction)
    requires WellFormed(s)
    ensures WellFormed(r.node)
    ensures KeepsRole(s, r.node)
    ensures IssuesAtMostOneNonce(s, r.node)
    ensures ReceiveDio(data).None? ==> r == Reaction(s, [])
    ensures ReceiveDio(data).Some? ==> r == ProcessDio(s, from, ReceiveDio(data).value, now)
  {
    match ReceiveDio(data)
    case None => Reaction(s, [])
    case Some(d) => ProcessDio(s, from, d, now)
  }

  // Receiving an authentication message

  /** `send_auth_resp`: the unicast to `to` on the authentication port that its receiver
      reads as a response to `nonce` whose tag passes the check. */
  function Response(to: Addr, nonce: U32): (p: Packet)
    ensures p.port == AUTH_PORT && p.dest == Unicast(to)
    ensures |p.payload| < AUTH_SEND_BUFFER
  {
    Packet(AUTH_PORT, Unicast(to), EncodeAuth(AuthResp(nonce, Sign(nonce))))
  }

  /** A response arrives as a response to the nonce it answers, with a tag that passes
      the check. */
  lemma ResponseDecodes(to: Addr, nonce: U32)
    ensures var m := ReceiveAuth(Response(to, nonce).payload);
      && m.Some? && m.value.AuthResp? && m.value.nonce == nonce && Verify(nonce, m.value.sig)
  {
    AuthRoundTrip(AuthResp(nonce, Sign(nonce)));
  }

  /** Whether slot `i` is the challenge a response from `from` is checked against and the
      response passes: the first in-use slot for that address, with the same nonce and the
      right tag. */
  predicate Answers(pool: seq<Slot>, i: nat, from: Addr, nonce: U32, sig: U32) {
    && i < |pool|
    && Holds(pool[i], from)
    && (forall j :: 0 <= j < i ==> !Holds(pool[j], from))
    && pool[i].nonce == nonce
    && Verify(nonce, sig)
  }

  /** The slot a response from `from` is accepted against, if any: the first challenge
      outstanding for that address, when nonce and tag both match. */
  function Accepted(pool: seq<Slot>, from: Addr, nonce: U32, sig: U32): (r: Option<nat>)
    ensures r.Some? ==> Answers(pool, r.value, from, nonce, sig)
    ensures r.None? <==> forall i :: !Answers(pool, i, from, nonce, sig)
  {
    match FindPending(pool, from)
    case None => None
    case Some(i) =>
      assert forall j :: Answers(pool, j, from, nonce, sig) ==> j == i;
      if pool[i].nonce == nonce && Verify(nonce, sig) then
        assert Answers(pool, i, from, nonce, sig);
        Some(i)
      else None
  }

  /** The state once the response that slot `i` waited for has been accepted: the claimed
      counter is committed, the slot released, and the claimed rank offered to the parent rule. */
  function Authenticated(s: NodeState, i: nat, from: Addr): (r: NodeState)
    requires WellFormed(s) && i < MAX_PENDING_AUTH
    ensures WellFormed(r)
    ensures KeepsRole(s, r)
    ensures r.lastSeen == s.lastSeen[SenderIndex(s.pending[i].senderId) := s.pending[i].counter]
    ensures r.pending == s.pending[i := Free(s.pending[i])]
    ensures r.blacklisted == s.blacklisted && r.nextNonce == s.nextNonce && r.counter == s.counter
    ensures SameTopology(r, SelectParent(s, s.pending[i].senderId, s.pending[i].rank, from))
  {
    var slot := s.pending[i];
    var committed := s.(lastSeen := s.lastSeen[SenderIndex(slot.senderId) := slot.counter]);
    SelectParent(committed, slot.senderId, slot.rank, from).(pending := s.pending[i := Free(slot)])
  }

  /** `handle_auth_recv` after the payload has been parsed. */
  function ProcessAuth(s: NodeState, from: Addr, m: AuthMsg): (r: Reaction)
    requires WellFormed(s)
    ensures WellFormed(r.node)
    ensures KeepsRole(s, r.node)
    ensures IssuesAtMostOneNonce(s, r.node)
    ensures m.AuthReq? ==> r == Reaction(s, [Response(from, m.nonce)])
    ensures m.AuthResp? ==> r.sent == []
    ensures m.AuthResp? && Accepted(s.pending, from, m.nonce, m.sig).Some? ==>
      r.node == Authenticated(s, Accepted(s.pending, from, m.nonce, m.sig).value, from)
    ensures m.AuthResp? && Accepted(s.pending, from, m.nonce, m.sig).None? ==> r.node == s
  {
    match m
    case AuthReq(n) => Reaction(s, [Response(from, n)])
    case AuthResp(n, sig) =>
      match FindPending(s.pending, from)
      case None => Reaction(s, [])
      case Some(i) =>
        if s.pending[i].nonce == n && Verify(n, sig) then Reaction(Authenticated(s, i, from), [])
        else Reaction(s, [])
  }

  /** `handle_auth_recv`: a datagram on the authentication port from `from`. */
  function OnAuth(s: NodeState, from: Addr, data: string): (r: Reaction)
    requires WellFormed(s)
    ensures WellFormed(r.node)
    ensures KeepsRole(s, r.node)
    ensures IssuesAtMostOneNonce(s, r.node)
    ensures ReceiveAuth(data).None? ==> r == Reaction(s, [])
    ensures ReceiveAuth(data).Some? ==> r == ProcessAuth(s, from, ReceiveAuth(data).value)
  {
    match ReceiveAuth(data)
    case None => Reaction(s, [])
    case Some(m) => ProcessAuth(s, from, m)
  }

  // Timeouts

  /** A challenge whose timer has fired and that is still outstanding. */
  predicate Expired(slot: Slot, now: nat) {
    slot.inUse && slot.deadline <= now
  }

  /** Some slot from index `lo` on expired for a sender in row `k`. */
  predicate ExpiresRow(pool: seq<Slot>, now: nat, lo: nat, k: nat) {
    exists j :: lo <= j < |pool| && Expired(pool[j], now) && SenderIndex(pool[j].senderId) == k
  }

  /** One turn of the sweep: an expired slot blacklists its sender's row, pins its counter
      to UINT32_MAX, and is released. */
  function ExpireSlot(s: NodeState, now: nat, i: nat): (r: NodeState)
    requires WellFormed(s) && i < MAX_PENDING_AUTH
    ensures WellFormed(r)
    ensures !Expired(s.pending[i], now) ==> r == s
    ensures Expired(s.pending[i], now) ==>
      var k := SenderIndex(s.pending[i].senderId);
      && r.blacklisted == s.blacklisted[k := true]
      && r.lastSeen == s.lastSeen[k := U32_MAX]
      && r.pending == s.pending[i := Free(s.pending[i])]
      && r.(pending := s.pending, blacklisted := s.blacklisted, lastSeen := s.lastSeen) == s
  {
    var slot := s.pending[i];
    if Expired(slot, now) then
      var idx := SenderIndex(slot.senderId);
      s.(blacklisted := s.blacklisted[idx := true],
         lastSeen := s.lastSeen[idx := U32_MAX],
         pending := s.pending[i := Free(slot)])
    else s
  }

  /** `r` is `s` once the sweep has handled slots `i` to the end: exactly the expired
      ones among them are released, exactly their senders' rows are blacklisted and pinned
      to UINT32_MAX, and nothing else changes. */
  predicate SweptFrom(s: NodeState, r: NodeState, now: nat, i: nat)
    requires WellFormed(s) && WellFormed(r)
  {
    && r.(pending := s.pending, blacklisted := s.blacklisted, lastSeen := s.lastSeen) == s
    && (forall j :: 0 <= j < i && j < MAX_PENDING_AUTH ==> r.pending[j] == s.pending[j])
    && (forall j :: i <= j < MAX_PENDING_AUTH ==>
         r.pending[j] == if Expired(s.pending[j], now) then Free(s.pending[j]) else s.pending[j])
    && (forall k :: 0 <= k < TABLE_SIZE ==>
         r.blacklisted[k] == (s.blacklisted[k] || ExpiresRow(s.pending, now, i, k)))
    && (forall k :: 0 <= k < TABLE_SIZE ==>
         r.lastSeen[k] == if ExpiresRow(s.pending, now, i, k) then U32_MAX else s.lastSeen[k])
  }

  /** The sweep over slots `i` to the end, in order. */
  function SweepFrom(s: NodeState, now: nat, i: nat): (r: NodeState)
    requires WellFormed(s) && i <= MAX_PENDING_AUTH
    ensures WellFormed(r) && SweptFrom(s, r, now, i)
    decreases MAX_PENDING_AUTH - i
  {
    if i == MAX_PENDING_AUTH then s
    else
      var next := ExpireSlot(s, now, i);
      assert forall j :: i < j < MAX_PENDING_AUTH ==> next.pending[j] == s.pending[j];
      assert forall k :: ExpiresRow(s.pending, now, i, k) <==>
        (Expired(s.pending[i], now) && SenderIndex(s.pending[i].senderId) == k) || ExpiresRow(next.pending, now, i + 1, k);
      SweepFrom(next, now, i + 1)
  }

  /** `check_auth_timeouts`: every expired challenge blacklists its sender's row and pins
      that row's counter to UINT32_MAX; its slot is released; nothing else changes. */
  function CheckAuthTimeouts(s: NodeState, now: nat): (r: NodeState)
    requires WellFormed(s)
    ensures WellFormed(r) && SweptFrom(s, r, now, 0)
  {
    SweepFrom(s, now, 0)
  }

  // Sending a DIO

  /** `send_dio`: bump the counter, then advertise id, version, rank and the new counter. */
  function SendDio(s: NodeState): (r: Reaction)
    ensures r.node.(counter := s.counter) == s
    ensures s.counter < U32_MAX ==> r.node.counter == s.counter + 1
    ensures s.counter == U32_MAX ==> r.node.counter == 0
    ensures |r.sent| == 1 && r.sent[0].port == DIO_PORT && r.sent[0].dest == AllNodes
    ensures r.sent[0].payload == EncodeDio(Dio(s.id, s.version, s.rank, r.node.counter))
    ensures ReceiveDio(r.sent[0].payload) == Some(Dio(s.id, s.version, s.rank, r.node.counter))
  {
    var counter := AddWrap(s.counter, 1);
    var d := Dio(s.id, s.version, s.rank, counter);
    DioRoundTrip(d);
    Reaction(s.(counter := counter), [Packet(DIO_PORT, AllNodes, EncodeDio(d))])
  }

  // Events

  datatype Event =
    | DioArrived(from: Addr, data: string, now: nat)
    | AuthArrived(from: Addr, data: string)
      /** The node's process wakes at `now`; `dioDue` says whether its DIO timer has fired. */
    | Wake(now: nat, dioDue: bool)

  /** One pass of the process loop: sweep the timeouts, then send a DIO if one is due. */
  function OnWake(s: NodeState, now: nat, dioDue: bool): (r: Reaction)
    requires WellFormed(s)
    ensures WellFormed(r.node)
    ensures KeepsRole(s, r.node)
    ensures IssuesAtMostOneNonce(s, r.node)
    ensures r.node.(counter := s.counter, pending := s.pending, blacklisted := s.blacklisted, lastSeen := s.lastSeen) == s
    ensures forall k :: 0 <= k < TABLE_SIZE && s.blacklisted[k] ==> r.node.blacklisted[k]
    ensures r.node.(counter := s.counter) == CheckAuthTimeouts(s, now)
    ensures r.node.counter == if dioDue then AddWrap(s.counter, 1) else s.counter
    ensures !dioDue ==> r.sent == []
    ensures dioDue ==>
      && |r.sent| == 1 && r.sent[0].port == DIO_PORT && r.sent[0].dest == AllNodes
      && r.sent[0].payload == EncodeDio(Dio(s.id, s.version, s.rank, r.node.counter))
      && ReceiveDio(r.sent[0].payload) == Some(Dio(s.id, s.version, s.rank, r.node.counter))
  {
    var swept := CheckAuthTimeouts(s, now);
    if dioDue then SendDio(swept) else Reaction(swept, [])
  }

  function Step(s: NodeState, e: Event): (r: Reaction)
    requires WellFormed(s)
    ensures WellFormed(r.node)
    ensures KeepsRole(s, r.node)
    ensures IssuesAtMostOneNonce(s, r.node)
    ensures forall k :: 0 <= k < TABLE_SIZE && s.blacklisted[k] ==> r.node.blacklisted[k]
  {
    match e
    case DioArrived(from, data, now) => OnDio(s, from, data, now)
    case AuthArrived(from, data) => OnAuth(s, from, data)
    case Wake(now, dioDue) => OnWake(s, now, dioDue)
  }

  /** The state after handling `es` in order: over any run no blacklist bit is cleared, the
      rank never rises, a root keeps its rank and parent, and identity and role stay. */
  function Run(s: NodeState, es: seq<Event>): (r: NodeState)
    requires WellFormed(s)
    ensures WellFormed(r)
    ensures KeepsRole(s, r)
    ensures forall k :: 0 <= k < TABLE_SIZE && s.blacklisted[k] ==> r.blacklisted[k]
    decreases |es|
  {
    if es == [] then s else Run(Step(s, es[0]).node, es[1..])
  }
}
