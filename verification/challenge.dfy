/** The challenge-response authenticator: the XOR "signature" and the fixed pool of
    pending challenges, one per unverified source address. */
module Challenge {
  import opened Uint
  import opened Options
  import opened Address
  import opened Wire

  const SHARED_KEY: U32 := 0xA5A5A5A5
  const MAX_PENDING_AUTH: nat := 10

  /** AUTH_TIMEOUT, in seconds of the abstract clock. */
  const AUTH_TIMEOUT: nat := 10

  /** The response tag for a nonce: the nonce XOR the shared key, bit by bit. */
  function Sign(nonce: U32): (tag: U32)
    ensures Xor(tag, SHARED_KEY) == nonce
  {
    XorTwice(nonce, SHARED_KEY);
    Xor(nonce, SHARED_KEY)
  }

  /** Signing is its own inverse, so distinct nonces never share a tag. */
  lemma SignIsInvolution(a: U32, b: U32)
    ensures Sign(Sign(a)) == a
    ensures Sign(a) == Sign(b) ==> a == b
  {
    XorTwice(a, SHARED_KEY);
    XorTwice(b, SHARED_KEY);
  }

  /** The check a responder's tag must pass: unmasking the tag with the key gives back
      the nonce. */
  function Verify(nonce: U32, sig: U32): (ok: bool)
    ensures ok <==> Xor(sig, SHARED_KEY) == nonce
  {
    XorTwice(nonce, SHARED_KEY);
    XorTwice(sig, SHARED_KEY);
    sig == Xor(nonce, SHARED_KEY)
  }

  /** One pending challenge: the address it was sent to, the fields the advertisement
      claimed, the nonce it carries and the time its timer fires. */
  datatype Slot = Slot(
    inUse: bool,
    src: Addr,
    senderId: U32,
    version: U32,
    rank: U32,
    counter: U32,
    nonce: U32,
    deadline: nat)
  {
    /** The advertisement this challenge holds back until its sender answers. */
    function Claim(): Dio {
      Dio(senderId, version, rank, counter)
    }
  }

  /** A zero-filled slot, as `memset` leaves the pool at startup. */
  const EMPTY_SLOT: Slot := Slot(false, UNSPECIFIED, 0, 0, 0, 0, 0, 0)

  predicate Holds(slot: Slot, a: Addr) {
    slot.inUse && slot.src == a
  }

  /** Releasing a slot clears only its in-use flag. */
  function Free(slot: Slot): (r: Slot)
    ensures !r.inUse && r.(inUse := slot.inUse) == slot
  {
    slot.(inUse := false)
  }

  /** The first in-use slot whose address is `a`, scanning from slot 0. */
  function FindPending(pool: seq<Slot>, a: Addr): (r: Option<nat>)
    ensures r.Some? ==> r.value < |pool| && Holds(pool[r.value], a)
    ensures r.Some? ==> forall j :: 0 <= j < r.value ==> !Holds(pool[j], a)
    ensures r.None? <==> forall j :: 0 <= j < |pool| ==> !Holds(pool[j], a)
  {
    FindFrom(pool, a, 0)
  }

  function FindFrom(pool: seq<Slot>, a: Addr, i: nat): (r: Option<nat>)
    requires i <= |pool|
    ensures r.Some? ==> i <= r.value < |pool| && Holds(pool[r.value], a)
    ensures r.Some? ==> forall j :: i <= j < r.value ==> !Holds(pool[j], a)
    ensures r.None? <==> forall j :: i <= j < |pool| ==> !Holds(pool[j], a)
    decreases |pool| - i
  {
    if i == |pool| then None
    else if Holds(pool[i], a) then Some(i)
    else FindFrom(pool, a, i + 1)
  }

  /** The first slot not in use, scanning from slot 0. */
  function FirstFree(pool: seq<Slot>): (r: Option<nat>)
    ensures r.Some? ==> r.value < |pool| && !pool[r.value].inUse
    ensures r.Some? ==> forall j :: 0 <= j < r.value ==> pool[j].inUse
    ensures r.None? <==> forall j :: 0 <= j < |pool| ==> pool[j].inUse
  {
    FreeFrom(pool, 0)
  }

  function FreeFrom(pool: seq<Slot>, i: nat): (r: Option<nat>)
    requires i <= |pool|
    ensures r.Some? ==> i <= r.value < |pool| && !pool[r.value].inUse
    ensures r.Some? ==> forall j :: i <= j < r.value ==> pool[j].inUse
    ensures r.None? <==> forall j :: i <= j < |pool| ==> pool[j].inUse
    decreases |pool| - i
  {
    if i == |pool| then None
    else if !pool[i].inUse then Some(i)
    else FreeFrom(pool, i + 1)
  }

  // The pool invariants every event keeps.

  /** No two in-use slots challenge the same address. */
  predicate OneSlotPerAddress(pool: seq<Slot>) {
    forall i, j :: 0 <= i < j < |pool| && pool[i].inUse && pool[j].inUse ==> pool[i].src != pool[j].src
  }

  /** Every outstanding nonce was issued before the next one, which the counter holds. */
  predicate NoncesIssued(pool: seq<Slot>, nextNonce: U32) {
    forall i :: 0 <= i < |pool| && pool[i].inUse ==> 1 <= pool[i].nonce < nextNonce
  }

  /** No two outstanding challenges carry the same nonce. */
  predicate DistinctNonces(pool: seq<Slot>) {
    forall i, j :: 0 <= i < j < |pool| && pool[i].inUse && pool[j].inUse ==> pool[i].nonce != pool[j].nonce
  }

  predicate PoolInv(pool: seq<Slot>, nextNonce: U32) {
    && |pool| == MAX_PENDING_AUTH
    && nextNonce >= 1
    && OneSlotPerAddress(pool)
    && NoncesIssued(pool, nextNonce)
    && DistinctNonces(pool)
  }

  /** The handshake part of a slot: whether it is in use, its address, nonce and deadline. */
  predicate SameChallenge(a: Slot, b: Slot) {
    a.inUse == b.inUse && a.src == b.src && a.nonce == b.nonce && a.deadline == b.deadline
  }

  /** `after` keeps only challenges `before` had, with the same address and nonce. */
  predicate Retains(before: seq<Slot>, after: seq<Slot>) {
    && |after| == |before|
    && forall j :: 0 <= j < |after| && after[j].inUse ==>
         before[j].inUse && after[j].src == before[j].src && after[j].nonce == before[j].nonce
  }

  /** Refreshing claims, releasing slots and sweeping only retain challenges, which keeps
      the pool invariants. */
  lemma RetainPreservesInv(before: seq<Slot>, after: seq<Slot>, nextNonce: U32)
    requires PoolInv(before, nextNonce) && Retains(before, after)
    ensures PoolInv(after, nextNonce)
  {
    forall i, j | 0 <= i < j < |after| && after[i].inUse && after[j].inUse
      ensures after[i].src != after[j].src && after[i].nonce != after[j].nonce
    {
      assert before[i].inUse && before[j].inUse;
    }
    forall i | 0 <= i < |after| && after[i].inUse
      ensures 1 <= after[i].nonce < nextNonce
    {
      assert before[i].inUse;
    }
  }

  /** Opening a challenge in a free slot, for an address with none outstanding, with the
      next nonce, keeps the pool invariants once the nonce counter moves on; the new nonce
      is above every outstanding one. */
  lemma OpenPreservesPoolInv(pool: seq<Slot>, nextNonce: U32, i: nat, slot: Slot)
    requires PoolInv(pool, nextNonce) && nextNonce < U32_MAX
    requires i < |pool| && !pool[i].inUse
    requires slot.inUse && slot.nonce == nextNonce
    requires forall j :: 0 <= j < |pool| ==> !Holds(pool[j], slot.src)
    ensures PoolInv(pool[i := slot], AddWrap(nextNonce, 1))
    ensures forall j :: 0 <= j < |pool| && pool[j].inUse ==> pool[j].nonce < slot.nonce
  {
    OpenKeepsNoncesIssued(pool, nextNonce, i, slot);
    OpenKeepsDistinct(pool, nextNonce, i, slot);
  }

  lemma OpenKeepsNoncesIssued(pool: seq<Slot>, nextNonce: U32, i: nat, slot: Slot)
    requires NoncesIssued(pool, nextNonce) && 1 <= nextNonce < U32_MAX
    requires i < |pool| && slot.nonce == nextNonce
    ensures NoncesIssued(pool[i := slot], AddWrap(nextNonce, 1))
  {
    var after := pool[i := slot];
    forall j | 0 <= j < |after| && after[j].inUse
      ensures 1 <= after[j].nonce < nextNonce + 1
    {
      if j != i {
        assert after[j] == pool[j];
      } else {
        assert after[j].nonce == nextNonce;
      }
    }
  }

  lemma OpenKeepsDistinct(pool: seq<Slot>, nextNonce: U32, i: nat, slot: Slot)
    requires NoncesIssued(pool, nextNonce) && DistinctNonces(pool) && OneSlotPerAddress(pool)
    requires i < |pool| && slot.nonce == nextNonce
    requires forall j :: 0 <= j < |pool| ==> !Holds(pool[j], slot.src)
    ensures DistinctNonces(pool[i := slot]) && OneSlotPerAddress(pool[i := slot])
  {
    var after := pool[i := slot];
    forall j, k | 0 <= j < k < |after| && after[j].inUse && after[k].inUse
      ensures after[j].src != after[k].src && after[j].nonce != after[k].nonce
    {
      if j == i {
        assert after[k] == pool[k];
        assert !Holds(pool[k], slot.src);
      } else if k == i {
        assert after[j] == pool[j];
        assert !Holds(pool[j], slot.src);
      } else {
        assert after[j] == pool[j] && after[k] == pool[k];
      }
    }
  }

  /** The number of slots in use. */
  function InUse(pool: seq<Slot>): (n: nat)
    ensures n <= |pool|
  {
    if pool == [] then 0 else (if pool[0].inUse then 1 else 0) + InUse(pool[1..])
  }

  /** Every slot is in use exactly when the count of slots in use is the pool size. */
  lemma {:induction false} AllInUse(pool: seq<Slot>)
    ensures InUse(pool) == |pool| <==> forall j :: 0 <= j < |pool| ==> pool[j].inUse
    decreases |pool|
  {
    if pool != [] {
      AllInUse(pool[1..]);
      assert forall j :: 1 <= j < |pool| ==> pool[1..][j - 1] == pool[j];
    }
  }

  /** No slot is free exactly when all MAX_PENDING_AUTH slots are in use. */
  lemma PoolFullIff(pool: seq<Slot>)
    requires |pool| == MAX_PENDING_AUTH
    ensures FirstFree(pool).None? <==> InUse(pool) == MAX_PENDING_AUTH
  {
    AllInUse(pool);
  }
}
