/** What the node's transitions guarantee, over single events and over whole runs. */
module Properties {
  import opened Uint
  import opened Options
  import opened Address
  import opened Wire
  import opened Challenge
  import opened Node

  // The pending pool

  lemma RefreshPreservesInv(s: NodeState, i: nat, d: Dio)
    requires Inv(s) && i < MAX_PENDING_AUTH
    ensures Inv(Refresh(s, i, d))
  {
    RetainPreservesInv(s.pending, Refresh(s, i, d).pending, s.nextNonce);
  }

  /** Opening a challenge for an address with none outstanding keeps the pool invariants,
      and the nonce it issues is above every nonce still outstanding. */
  lemma OpenPreservesInv(s: NodeState, i: nat, from: Addr, d: Dio, now: nat)
    requires Inv(s) && s.nextNonce < U32_MAX
    requires i < MAX_PENDING_AUTH && !s.pending[i].inUse
    requires forall j :: 0 <= j < MAX_PENDING_AUTH ==> !Holds(s.pending[j], from)
    ensures Inv(Open(s, i, from, d, now).node)
    ensures forall j :: 0 <= j < MAX_PENDING_AUTH && s.pending[j].inUse ==>
      s.pending[j].nonce < Open(s, i, from, d, now).node.pending[i].nonce
  {
    var r := Open(s, i, from, d, now).node;
    OpenPreservesPoolInv(s.pending, s.nextNonce, i, r.pending[i]);
    assert r.pending == s.pending[i := r.pending[i]];
  }

  lemma FirstContactPreservesInv(s: NodeState, from: Addr, d: Dio, now: nat)
    requires Inv(s) && s.nextNonce < U32_MAX
    ensures Inv(FirstContact(s, from, d, now).node)
  {
    match FindPending(s.pending, from) {
      case Some(i) => RefreshPreservesInv(s, i, d);
      case None =>
        if FirstFree(s.pending).Some? {
          OpenPreservesInv(s, FirstFree(s.pending).value, from, d, now);
        }
    }
  }

  lemma AuthenticatedPreservesInv(s: NodeState, i: nat, from: Addr)
    requires Inv(s) && i < MAX_PENDING_AUTH
    ensures Inv(Authenticated(s, i, from))
  {
    RetainPreservesInv(s.pending, Authenticated(s, i, from).pending, s.nextNonce);
  }

  lemma SweepPreservesInv(s: NodeState, now: nat)
    requires Inv(s)
    ensures Inv(CheckAuthTimeouts(s, now))
  {
    var r := CheckAuthTimeouts(s, now);
    SweepRetains(s, r, now);
    RetainPreservesInv(s.pending, r.pending, s.nextNonce);
  }

  /** The sweep only releases slots. */
  lemma SweepRetains(s: NodeState, r: NodeState, now: nat)
    requires WellFormed(s) && WellFormed(r) && SweptFrom(s, r, now, 0)
    ensures r.nextNonce == s.nextNonce && Retains(s.pending, r.pending)
  {
    assert r.nextNonce == r.(pending := s.pending, blacklisted := s.blacklisted, lastSeen := s.lastSeen).nextNonce;
    forall j | 0 <= j < |r.pending| && r.pending[j].inUse
      ensures s.pending[j].inUse && r.pending[j].src == s.pending[j].src && r.pending[j].nonce == s.pending[j].nonce
    {
      assert r.pending[j] == if Expired(s.pending[j], now) then Free(s.pending[j]) else s.pending[j];
    }
  }

  lemma ProcessDioPreservesInv(s: NodeState, from: Addr, d: Dio, now: nat)
    requires Inv(s) && s.nextNonce < U32_MAX
    ensures Inv(ProcessDio(s, from, d, now).node)
  {
    var idx := SenderIndex(d.senderId);
    if d.senderId != s.id && !s.blacklisted[idx] && s.lastSeen[idx] == 0 {
      FirstContactPreservesInv(s, from, d, now);
    } else {
      var r := ProcessDio(s, from, d, now).node;
      if d.senderId != s.id && !s.blacklisted[idx] && d.counter >= s.lastSeen[idx] {
        assert r == SelectParent(s.(lastSeen := s.lastSeen[idx := d.counter]), d.senderId, d.rank, from);
      }
      assert r.pending == s.pending && r.nextNonce == s.nextNonce;
    }
  }

  lemma DioPreservesInv(s: NodeState, from: Addr, data: string, now: nat)
    requires Inv(s) && s.nextNonce < U32_MAX
    ensures Inv(OnDio(s, from, data, now).node)
  {
    if ReceiveDio(data).Some? {
      ProcessDioPreservesInv(s, from, ReceiveDio(data).value, now);
    }
  }

  lemma AuthPreservesInv(s: NodeState, from: Addr, data: string)
    requires Inv(s)
    ensures Inv(OnAuth(s, from, data).node)
  {
    if ReceiveAuth(data).Some? {
      var m := ReceiveAuth(data).value;
      if m.AuthResp? && Accepted(s.pending, from, m.nonce, m.sig).Some? {
        AuthenticatedPreservesInv(s, Accepted(s.pending, from, m.nonce, m.sig).value, from);
      }
    }
  }

  lemma WakePreservesInv(s: NodeState, now: nat, dioDue: bool)
    requires Inv(s)
    ensures Inv(OnWake(s, now, dioDue).node)
  {
    SweepPreservesInv(s, now);
  }

  /** Every event keeps at most one outstanding challenge per address, and keeps every
      outstanding nonce distinct and below the next one to be issued. */
  lemma StepPreservesInv(s: NodeState, e: Event)
    requires Inv(s) && s.nextNonce < U32_MAX
    ensures Inv(Step(s, e).node)
  {
    match e {
      case DioArrived(from, data, now) => DioPreservesInv(s, from, data, now);
      case AuthArrived(from, data) => AuthPreservesInv(s, from, data);
      case Wake(now, dioDue) => WakePreservesInv(s, now, dioDue);
    }
  }

  /** A first contact from an address with no challenge outstanding is dropped, with no
      challenge sent, exactly when all MAX_PENDING_AUTH slots are in use. */
  lemma FirstContactDroppedIffFull(s: NodeState, from: Addr, d: Dio, now: nat)
    requires WellFormed(s) && FindPending(s.pending, from).None?
    ensures FirstContact(s, from, d, now) == Reaction(s, []) <==> InUse(s.pending) == MAX_PENDING_AUTH
  {
    PoolFullIff(s.pending);
  }

  /** Ids equal modulo 256 share a trust-table row, and only they do. */
  lemma SameRowIff(a: U32, b: U32)
    ensures SenderIndex(a) == SenderIndex(b) <==> (a - b) % TABLE_SIZE == 0
  {
    var ka, kb := SenderIndex(a), SenderIndex(b);
    assert a == ka + TABLE_SIZE * (a / TABLE_SIZE);
    assert b == kb + TABLE_SIZE * (b / TABLE_SIZE);
  }

  // Parent selection

  /** The parent moves only to the sender of the advertisement or response being handled,
      and only on a strict improvement of the rank; a root's never moves, and a wake-up
      never moves it. */
  predicate MovesParentTo(s: NodeState, r: NodeState, from: Addr) {
    SameTopology(r, s) || (!s.isRoot && r.rank < s.rank && r.parentAddr == from && r.hasParentAddr)
  }

  lemma ParentMovesOnlyOnImprovement(s: NodeState, e: Event)
    requires WellFormed(s)
    ensures e.Wake? ==> SameTopology(Step(s, e).node, s)
    ensures !e.Wake? ==> MovesParentTo(s, Step(s, e).node, e.from)
  {
    match e {
      case DioArrived(from, data, now) =>
        if ReceiveDio(data).Some? {
          DioMovesParent(s, from, ReceiveDio(data).value, now);
        }
      case AuthArrived(from, data) =>
        if ReceiveAuth(data).Some? {
          AuthMovesParent(s, from, ReceiveAuth(data).value);
        }
      case Wake(now, dioDue) =>
    }
  }

  lemma DioMovesParent(s: NodeState, from: Addr, d: Dio, now: nat)
    requires WellFormed(s)
    ensures MovesParentTo(s, ProcessDio(s, from, d, now).node, from)
  {
    var idx := SenderIndex(d.senderId);
    if d.senderId != s.id && !s.blacklisted[idx] && 0 != s.lastSeen[idx] <= d.counter {
      var trusted := s.(lastSeen := s.lastSeen[idx := d.counter]);
      assert SameTopology(trusted, s);
    }
  }

  lemma AuthMovesParent(s: NodeState, from: Addr, m: AuthMsg)
    requires WellFormed(s)
    ensures MovesParentTo(s, ProcessAuth(s, from, m).node, from)
  {
    if m.AuthResp? && Accepted(s.pending, from, m.nonce, m.sig).Some? {
      var i := Accepted(s.pending, from, m.nonce, m.sig).value;
      var p := SelectParent(s, s.pending[i].senderId, s.pending[i].rank, from);
      assert p == s || (p.rank < s.rank && p.parentAddr == from && p.hasParentAddr);
    }
  }

  // Authentication

  /** A response is accepted exactly when a challenge is outstanding for its source address
      with the same nonce and the tag is the nonce XOR the key; acceptance commits the
      claimed counter and releases the slot, and a rejected response changes nothing. */
  lemma ResponseAcceptedIff(s: NodeState, from: Addr, n: U32, sig: U32)
    requires WellFormed(s) && OneSlotPerAddress(s.pending)
    ensures var r := OnAuth(s, from, EncodeAuth(AuthResp(n, sig)));
      && r.sent == []
      && ((exists i :: 0 <= i < MAX_PENDING_AUTH && Holds(s.pending[i], from) && s.pending[i].nonce == n && sig == Sign(n))
          <==> r.node != s)
    ensures forall i :: 0 <= i < MAX_PENDING_AUTH && Holds(s.pending[i], from) && s.pending[i].nonce == n && sig == Sign(n) ==>
      OnAuth(s, from, EncodeAuth(AuthResp(n, sig))).node == Authenticated(s, i, from)
  {
    ResponseReceived(s, from, n, sig);
    ResponseProcessedIff(s, from, n, sig);
  }

  /** `ResponseAcceptedIff`, for the response as decoded. */
  lemma ResponseProcessedIff(s: NodeState, from: Addr, n: U32, sig: U32)
    requires WellFormed(s) && OneSlotPerAddress(s.pending)
    ensures var r := ProcessAuth(s, from, AuthResp(n, sig));
      && r.sent == []
      && ((exists i :: 0 <= i < MAX_PENDING_AUTH && Holds(s.pending[i], from) && s.pending[i].nonce == n && sig == Sign(n))
          <==> r.node != s)
    ensures forall i :: 0 <= i < MAX_PENDING_AUTH && Holds(s.pending[i], from) && s.pending[i].nonce == n && sig == Sign(n) ==>
      ProcessAuth(s, from, AuthResp(n, sig)).node == Authenticated(s, i, from)
  {
    var r := ProcessAuth(s, from, AuthResp(n, sig));
    forall i | 0 <= i < MAX_PENDING_AUTH && Holds(s.pending[i], from) && s.pending[i].nonce == n && sig == Sign(n)
      ensures r.node == Authenticated(s, i, from) && r.node != s
    {
      assert Answers(s.pending, i, from, n, sig);
      var k := Accepted(s.pending, from, n, sig).value;
      assert k == i;
      assert !r.node.pending[i].inUse;
    }
    if r.node != s {
      var k := Accepted(s.pending, from, n, sig).value;
      assert Answers(s.pending, k, from, n, sig);
    }
  }

  /** A response that arrives off the air is handled as the message that was sent. */
  lemma ResponseReceived(s: NodeState, from: Addr, n: U32, sig: U32)
    requires WellFormed(s)
    ensures OnAuth(s, from, EncodeAuth(AuthResp(n, sig))) == ProcessAuth(s, from, AuthResp(n, sig))
  {
    AuthRoundTrip(AuthResp(n, sig));
  }

  /** The tag a peer computes always passes the check, and it is the only tag that does. */
  lemma SignedNonceVerifies(n: U32, sig: U32)
    ensures Verify(n, Sign(n))
    ensures Verify(n, sig) <==> sig == Sign(n)
  {
  }

  /** The full handshake with a first-contact sender: the node challenges the advertiser's
      address, any peer holding the key answers, and the answer commits the advertised
      counter and releases the challenge. */
  lemma HandshakeCommitsClaim(t: NodeState, a: Addr, d: Dio, now: nat, peer: NodeState, b: Addr)
    requires WellFormed(t) && WellFormed(peer)
    requires d.senderId != t.id
    requires !t.blacklisted[SenderIndex(d.senderId)] && t.lastSeen[SenderIndex(d.senderId)] == 0
    requires forall j :: 0 <= j < MAX_PENDING_AUTH ==> !Holds(t.pending[j], a)
    requires exists j :: 0 <= j < MAX_PENDING_AUTH && !t.pending[j].inUse
    ensures
      var r1 := OnDio(t, a, EncodeDio(d), now);
      && r1.sent == [ChallengeTo(a, t.nextNonce)]
      && var r2 := OnAuth(peer, b, r1.sent[0].payload);
      && r2 == Reaction(peer, [Response(b, t.nextNonce)])
      && var r3 := OnAuth(r1.node, a, r2.sent[0].payload);
      && r3.node.lastSeen[SenderIndex(d.senderId)] == d.counter
      && (forall j :: 0 <= j < MAX_PENDING_AUTH ==> !Holds(r3.node.pending[j], a))
  {
    var n := t.nextNonce;
    var i := AdvertisementChallenged(t, a, d, now);
    var r1 := OnDio(t, a, EncodeDio(d), now);
    ChallengeAnswered(peer, b, n);
    OnResponseCommits(r1.node, i, a, n);
  }

  /** A first advertisement received off the air opens a challenge. */
  lemma AdvertisementChallenged(t: NodeState, a: Addr, d: Dio, now: nat) returns (i: nat)
    requires WellFormed(t)
    requires d.senderId != t.id
    requires !t.blacklisted[SenderIndex(d.senderId)] && t.lastSeen[SenderIndex(d.senderId)] == 0
    requires forall j :: 0 <= j < MAX_PENDING_AUTH ==> !Holds(t.pending[j], a)
    requires exists j :: 0 <= j < MAX_PENDING_AUTH && !t.pending[j].inUse
    ensures i < MAX_PENDING_AUTH
    ensures var r := OnDio(t, a, EncodeDio(d), now);
      && r == Open(t, i, a, d, now)
      && Holds(r.node.pending[i], a) && r.node.pending[i].nonce == t.nextNonce
      && r.node.pending[i].Claim() == d
      && (forall j :: 0 <= j < MAX_PENDING_AUTH && j != i ==> !Holds(r.node.pending[j], a))
  {
    DioRoundTrip(d);
    i := FirstContactOpens(t, a, d, now);
  }

  /** Any node answers a challenge received off the air with the signed nonce. */
  lemma ChallengeAnswered(peer: NodeState, b: Addr, n: U32)
    requires WellFormed(peer)
    ensures OnAuth(peer, b, EncodeAuth(AuthReq(n))) == Reaction(peer, [Response(b, n)])
  {
    AuthRoundTrip(AuthReq(n));
  }

  /** The signed answer, received off the air, commits the claim it answers. */
  lemma OnResponseCommits(u: NodeState, i: nat, a: Addr, n: U32)
    requires WellFormed(u) && i < MAX_PENDING_AUTH
    requires Holds(u.pending[i], a) && u.pending[i].nonce == n
    requires forall j :: 0 <= j < MAX_PENDING_AUTH && j != i ==> !Holds(u.pending[j], a)
    ensures var r := OnAuth(u, a, EncodeAuth(AuthResp(n, Sign(n))));
      && r.node.lastSeen[SenderIndex(u.pending[i].senderId)] == u.pending[i].counter
      && (forall j :: 0 <= j < MAX_PENDING_AUTH ==> !Holds(r.node.pending[j], a))
  {
    var p := ProcessAuth(u, a, AuthResp(n, Sign(n))).node;
    AnsweredChallengeCommits(u, i, a, n);
    assert p.lastSeen[SenderIndex(u.pending[i].senderId)] == u.pending[i].counter;
    ResponseReceived(u, a, n, Sign(n));
  }

  /** A first advertisement from an address with no challenge outstanding, while a slot is
      free, opens a challenge in the first free slot. */
  lemma FirstContactOpens(t: NodeState, a: Addr, d: Dio, now: nat) returns (i: nat)
    requires WellFormed(t)
    requires d.senderId != t.id
    requires !t.blacklisted[SenderIndex(d.senderId)] && t.lastSeen[SenderIndex(d.senderId)] == 0
    requires forall j :: 0 <= j < MAX_PENDING_AUTH ==> !Holds(t.pending[j], a)
    requires exists j :: 0 <= j < MAX_PENDING_AUTH && !t.pending[j].inUse
    ensures i < MAX_PENDING_AUTH && !t.pending[i].inUse
    ensures ProcessDio(t, a, d, now) == Open(t, i, a, d, now)
  {
    i := FirstFree(t.pending).value;
    ChallengeOpensAt(t, a, d, now, i);
  }

  /** The same, for a known first free slot `i`. */
  lemma ChallengeOpensAt(t: NodeState, a: Addr, d: Dio, now: nat, i: nat)
    requires WellFormed(t)
    requires d.senderId != t.id
    requires !t.blacklisted[SenderIndex(d.senderId)] && t.lastSeen[SenderIndex(d.senderId)] == 0
    requires forall j :: 0 <= j < MAX_PENDING_AUTH ==> !Holds(t.pending[j], a)
    requires i < MAX_PENDING_AUTH && !t.pending[i].inUse
    requires forall j :: 0 <= j < i ==> t.pending[j].inUse
    ensures ProcessDio(t, a, d, now) == Open(t, i, a, d, now)
  {
    assert FirstFree(t.pending) == Some(i);
  }

  /** The signed answer to the only challenge outstanding for `a` commits the claim it held
      and releases it. */
  lemma AnsweredChallengeCommits(u: NodeState, i: nat, a: Addr, n: U32)
    requires WellFormed(u) && i < MAX_PENDING_AUTH
    requires Holds(u.pending[i], a) && u.pending[i].nonce == n
    requires forall j :: 0 <= j < MAX_PENDING_AUTH && j != i ==> !Holds(u.pending[j], a)
    ensures var r := ProcessAuth(u, a, AuthResp(n, Sign(n)));
      && r.node.lastSeen == u.lastSeen[SenderIndex(u.pending[i].senderId) := u.pending[i].counter]
      && r.node.pending == u.pending[i := Free(u.pending[i])]
      && (forall j :: 0 <= j < MAX_PENDING_AUTH ==> !Holds(r.node.pending[j], a))
  {
    assert Answers(u.pending, i, a, n, Sign(n));
    var k := Accepted(u.pending, a, n, Sign(n)).value;
    assert k == i;
  }

  // Freshness

  /** An advertisement older than the last accepted one from its sender's row is dropped:
      whatever its rank, it changes nothing. */
  lemma StaleAdvertisementIgnored(s: NodeState, from: Addr, d: Dio, now: nat)
    requires WellFormed(s)
    requires d.counter < s.lastSeen[SenderIndex(d.senderId)]
    ensures OnDio(s, from, EncodeDio(d), now) == Reaction(s, [])
  {
    DioRoundTrip(d);
  }

  /** The stale check is strict: a copy carrying the last accepted counter is accepted again,
      and can make whoever sent the copy the node's parent. */
  lemma EqualCounterAccepted(s: NodeState, from: Addr, d: Dio, now: nat)
    requires WellFormed(s)
    requires d.senderId != s.id && !s.blacklisted[SenderIndex(d.senderId)]
    requires s.lastSeen[SenderIndex(d.senderId)] == d.counter != 0
    requires !s.isRoot && AddWrap(d.rank, RANK_INCREMENT) < s.rank
    ensures var r := OnDio(s, from, EncodeDio(d), now);
      && r.node.lastSeen == s.lastSeen
      && r.node.parentAddr == from
      && r.node.rank < s.rank
  {
    DioRoundTrip(d);
    EqualCounterRefreshesParent(s, from, d, now);
  }

  lemma EqualCounterRefreshesParent(s: NodeState, from: Addr, d: Dio, now: nat)
    requires WellFormed(s)
    requires d.senderId != s.id && !s.blacklisted[SenderIndex(d.senderId)]
    requires s.lastSeen[SenderIndex(d.senderId)] == d.counter != 0
    requires !s.isRoot && AddWrap(d.rank, RANK_INCREMENT) < s.rank
    ensures var r := ProcessDio(s, from, d, now);
      && r.node.lastSeen == s.lastSeen
      && r.node.parentAddr == from
      && r.node.rank < s.rank
  {
    var trusted := s.(lastSeen := s.lastSeen[SenderIndex(d.senderId) := d.counter]);
    assert trusted == s;
  }

  /** "Trusted" means a non-zero counter: a sender authenticated with claimed counter 0 is
      still a first contact, so its next advertisement is not acted upon. */
  lemma ZeroCounterStaysUntrusted(s: NodeState, i: nat, from: Addr, d: Dio, later: Addr, now: nat)
    requires WellFormed(s) && i < MAX_PENDING_AUTH
    requires s.pending[i].counter == 0
    requires SenderIndex(d.senderId) == SenderIndex(s.pending[i].senderId)
    ensures var t := Authenticated(s, i, from);
      && t.lastSeen[SenderIndex(d.senderId)] == 0
      && var r := ProcessDio(t, later, d, now);
      && r.node.lastSeen == t.lastSeen
      && SameTopology(r.node, t)
  {
  }

  /** Own advertisements that come back are ignored. */
  lemma EchoIgnored(s: NodeState, from: Addr, now: nat)
    requires WellFormed(s)
    ensures var r := SendDio(s);
      OnDio(r.node, from, r.sent[0].payload, now) == Reaction(r.node, [])
  {
  }

  /** A node as startup leaves it: no row trusted or blacklisted, no challenge outstanding,
      and the first nonce still to be issued. */
  predicate Fresh(s: NodeState) {
    && WellFormed(s)
    && s.nextNonce == 1
    && (forall k :: 0 <= k < TABLE_SIZE ==> s.lastSeen[k] == 0 && !s.blacklisted[k])
    && (forall i :: 0 <= i < MAX_PENDING_AUTH ==> !s.pending[i].inUse)
  }

  /** The per-row counter is not monotonic: a successful response overwrites the row with
      the claimed counter, so two senders sharing a row can pull it back. Here sender 5
      claims counter 100 and sender 261, in the same row, claims 3; both answer. */
  lemma CounterCanDecrease(s0: NodeState, a: Addr, b: Addr)
    requires Fresh(s0) && s0.id != 5 && s0.id != 261
    requires a != b
    ensures
      var s1 := ProcessDio(s0, a, Dio(5, 1, 500, 100), 0).node;
      var s2 := ProcessDio(s1, b, Dio(261, 1, 500, 3), 0).node;
      var s3 := ProcessAuth(s2, a, AuthResp(1, Sign(1))).node;
      var s4 := ProcessAuth(s3, b, AuthResp(2, Sign(2))).node;
      s3.lastSeen[5] == 100 && s4.lastSeen[5] == 3
  {
    var s2 := TwoChallenges(s0, a, b, Dio(5, 1, 500, 100), Dio(261, 1, 500, 3));
    BothAnswer(s2, a, b);
  }

  /** Both challenges answered, in order: each commits the claim its slot held. */
  lemma BothAnswer(s2: NodeState, a: Addr, b: Addr)
    requires WellFormed(s2) && a != b
    requires Holds(s2.pending[0], a) && s2.pending[0].nonce == 1
    requires Holds(s2.pending[1], b) && s2.pending[1].nonce == 2
    requires forall j :: 2 <= j < MAX_PENDING_AUTH ==> !s2.pending[j].inUse
    ensures
      var s3 := ProcessAuth(s2, a, AuthResp(1, Sign(1))).node;
      var s4 := ProcessAuth(s3, b, AuthResp(2, Sign(2))).node;
      && s3.lastSeen[SenderIndex(s2.pending[0].senderId)] == s2.pending[0].counter
      && s4.lastSeen[SenderIndex(s2.pending[1].senderId)] == s2.pending[1].counter
  {
    AnsweredChallengeCommits(s2, 0, a, 1);
    var s3 := ProcessAuth(s2, a, AuthResp(1, Sign(1))).node;
    assert s3.pending[1] == s2.pending[1];
    AnsweredChallengeCommits(s3, 1, b, 2);
  }

  /** A fresh node hearing first contacts from two addresses opens one challenge for each,
      in the first two slots, with nonces 1 and 2. */
  lemma TwoChallenges(s0: NodeState, a: Addr, b: Addr, d1: Dio, d2: Dio) returns (s2: NodeState)
    requires Fresh(s0) && a != b && d1.senderId != s0.id && d2.senderId != s0.id
    ensures var s1 := ProcessDio(s0, a, d1, 0).node;
      s2 == ProcessDio(s1, b, d2, 0).node
    ensures WellFormed(s2) && s2.lastSeen == s0.lastSeen
    ensures Holds(s2.pending[0], a) && s2.pending[0].nonce == 1 && s2.pending[0].Claim() == d1
    ensures Holds(s2.pending[1], b) && s2.pending[1].nonce == 2 && s2.pending[1].Claim() == d2
    ensures forall j :: 2 <= j < MAX_PENDING_AUTH ==> !s2.pending[j].inUse
  {
    ChallengeOpensAt(s0, a, d1, 0, 0);
    var s1 := ProcessDio(s0, a, d1, 0).node;
    assert s1.lastSeen == s0.lastSeen && s1.blacklisted == s0.blacklisted;
    ChallengeOpensAt(s1, b, d2, 0, 1);
    s2 := ProcessDio(s1, b, d2, 0).node;
  }

  // Runs

  /** Over any run that issues fewer nonces than remain before wrap-around, the pool
      invariants hold throughout. */
  lemma {:induction false} RunPreservesInv(s: NodeState, es: seq<Event>)
    requires Inv(s)
    requires s.nextNonce + |es| < U32_MAX
    ensures Inv(Run(s, es))
    decreases |es|
  {
    if es != [] {
      StepPreservesInv(s, es[0]);
      var t := Step(s, es[0]).node;
      assert t.nextNonce <= s.nextNonce + 1;
      RunPreservesInv(t, es[1..]);
    }
  }

  /** A sender whose challenge timed out is shut out for good: after the sweep, and after
      any events that follow, every advertisement naming its row is dropped. */
  lemma TimedOutSenderIgnoredForever(s: NodeState, now: nat, i: nat, es: seq<Event>, from: Addr, data: string, later: nat)
    requires WellFormed(s) && i < MAX_PENDING_AUTH && Expired(s.pending[i], now)
    requires ReceiveDio(data).Some? ==> SenderIndex(ReceiveDio(data).value.senderId) == SenderIndex(s.pending[i].senderId)
    ensures var t := Run(CheckAuthTimeouts(s, now), es);
      OnDio(t, from, data, later) == Reaction(t, [])
  {
    var k := SenderIndex(s.pending[i].senderId);
    assert ExpiresRow(s.pending, now, 0, k);
  }
}
