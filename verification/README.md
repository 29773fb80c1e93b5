# Replay-resistant RPL node, modelled in Dafny

This project models the control plane of `rpl-replay-demo.c`. The source is a Contiki-NG demo in which every node sends periodic DIO (DODAG Information Object) advertisements, `"<id> <version> <rank> <counter>"`. A receiving node trusts a sender only after a challenge–response handshake, and then accepts its advertisements only while their counter does not fall behind the last one it accepted. A separate attacker build records one advertisement and broadcasts the same bytes again later.

What the model covers:

- **Trust table:** `last_seen_counter[256]` and `blacklisted[256]`, indexed by `sender_id % 256`.
- **Pending-challenge pool:** ten slots. Each holds the challenged address, the fields the advertisement claimed, the nonce issued and the time its timer fires.
- **Node state:** id, root flag, version, rank, counter, parent id and address, and `next_nonce`.

Each event the firmware reacts to is a pure function from the state to a `Reaction`: the new state plus the datagrams sent. The events are:

- an advertisement received (`handle_dio_recv`);
- a challenge or response received (`handle_auth_recv`);
- the timeout sweep (`check_auth_timeouts`);
- the node's own advertisement (`send_dio`);
- startup.

The attacker's `handle_dio_sniff` and `replay_captured` form a second, smaller state machine.

The code works on text payloads. The model therefore includes:

- the `%u` decimal encoding;
- a model of the `sscanf` conversions the handlers use (`%u`, `%15s` and a literal prefix);
- the C-string view of a receive buffer: at most 127 bytes, cut at the first NUL.

The senders format with `snprintf` into fixed buffers: 128 bytes for an advertisement, 64 for a challenge or response. Every payload the model encodes is proved shorter than its buffer, so the encoders leave out `snprintf`'s truncation. The decoders are characterised in both directions: what they return is exactly the values of the numerals they read from the text.

All `uint32_t` arithmetic the handlers do is written out with explicit wrap-around: the counter increment, `next_nonce++`, and the candidate rank `rank + RANK_INCREMENT`. So is the `(int)` cast of a sender id.

Modules:

- `Uint`: 32-bit wrap-around, the `(int)` cast, bitwise XOR.
- `Options`: the `Option` type.
- `Address`: 16-byte IPv6 addresses and the node id in their last two bytes.
- `Decimal`: `%u` printing.
- `Scanner`: C strings and `%u`/`%s` scanning.
- `Wire`: the three payload formats.
- `Challenge`: the XOR tag and the pending pool with its invariants.
- `Node`: state and handlers.
- `Properties`: lemmas over single events and over runs.
- `Attacker`: the replaying attacker.

Time is an abstract clock in seconds: `AUTH_TIMEOUT` is 10, `REPLAY_DELAY` 12 and `REPLAY_PERIOD` 10. An etimer has expired once the clock reaches its deadline. A timer that was never set also counts as expired, as Contiki's `etimer_expired` reports for an inactive timer.

Two behaviours of the handlers deserve a note, because the model keeps them:

- **Equal counters pass the freshness check.** The stale check at line 244 drops only `counter < last_seen_counter[idx]`, so a copy carrying the last accepted counter passes it. If that copy offers a better rank, it also moves the parent to whichever address sent it (`EqualCounterAccepted`, `ReplayVerdict`).
- **The last accepted counter can decrease.** A successful response overwrites the row with the claimed counter outright (line 294), and ids equal modulo 256 share a row, so a later commit can store a smaller value. `CounterCanDecrease` exhibits a run in which row 5 goes from 100 to 3.

## Model

| member | source | states |
|---|---|---|
| Uint.AddWrap | rpl-replay-demo.c:253 | `uint32_t` addition: the exact sum when it fits, otherwise the sum minus 2^32 |
| Uint.ToInt32 | rpl-replay-demo.c:256 | `(int)sender_id` is the id itself below 2^31 and negative above it, in the 32-bit `int` range |
| Challenge.Sign | rpl-replay-demo.c:96-98 | unmasking a tag with the shared key gives back the nonce it signs |
| Challenge.SignIsInvolution | rpl-replay-demo.c:96-98 | XOR with the shared key undoes itself, so distinct nonces never share a tag |
| Challenge.Verify | rpl-replay-demo.c:100-102 | a tag passes exactly when unmasking it with the shared key gives back the nonce |
| Address.NodeIdFromAddr | rpl-replay-demo.c:104-106 | the id is byte 14 times 256 plus byte 15 of the address, below 65536 |
| Decimal.ToDecimal | rpl-replay-demo.c:181-182 | `%u` prints a non-empty digit string with no leading zero whose decimal value is the number |
| Decimal.DecimalLengthU32 | rpl-replay-demo.c:177-182 | a `uint32_t` prints in at most ten digits |
| Scanner.CString | rpl-replay-demo.c:203-205 | the handler sees a prefix of the datagram, shorter than the buffer, holding no NUL, and cut only at the buffer size or at a NUL |
| Scanner.ScanToken | rpl-replay-demo.c:280 | `%15s` yields the first white-space-delimited word of the text, cut to 15 characters, and fails exactly when the text is all white space |
| Scanner.ScanU32 | rpl-replay-demo.c:207-208 | one `%u` conversion skips white space and reads the longest digit run after it, returning its value and the text that follows, which does not start with a digit; it fails exactly when no digit follows the white space or the value does not fit in 32 bits |
| Scanner.ScanU32Split | rpl-replay-demo.c:207-208 | whatever one `%u` conversion returns was read from the text: white space, then a non-empty digit run of that value, then a rest that does not start with a digit |
| Scanner.ScanU32OfNumeral | rpl-replay-demo.c:207-208 | conversely, white space followed by a digit run whose value fits in 32 bits, and then by a non-digit or the end, is read by `%u` as that value and that rest |
| Scanner.ScanDecimal | rpl-replay-demo.c:207-208 | `%u` after any white space reads back exactly the number `%u` printed and leaves the text after it |
| Scanner.ScanWord | rpl-replay-demo.c:280 | `%s` reads back a token that white space or the end of the text follows |
| Wire.EncodeDio | rpl-replay-demo.c:176-182 | an encoded advertisement is at least seven characters, is shorter than the 128-byte `payload` buffer it is formatted into, so `snprintf` never cuts it, and holds no NUL |
| Wire.DecodeDio | rpl-replay-demo.c:207-210 | text holding no digit at all is rejected |
| Wire.DecodedDioIsFourNumerals | rpl-replay-demo.c:207-210 | a decoded advertisement is four numerals read from the text in order, each after optional white space, carrying the sender id, version, rank and counter |
| Wire.FourNumeralsDecode | rpl-replay-demo.c:207-210 | conversely, any four such numerals that fit in 32 bits decode as the advertisement of their values, whatever follows the fourth |
| Wire.DecodeDioIgnoresTrailing | rpl-replay-demo.c:207-208 | the four `%u` conversions read an encoded advertisement back even when text not starting with a digit follows it |
| Wire.ReceiveDio | rpl-replay-demo.c:198-210 | a datagram shorter than the buffer and holding no NUL is decoded as it is; one starting with NUL is rejected |
| Wire.DioRoundTrip | rpl-replay-demo.c:198-208 | every advertisement payload a node builds is read back by a receiver as the same four numbers |
| Wire.EncodeAuth | rpl-replay-demo.c:157-170 | challenge and response payloads are shorter than the 64-byte `msg` buffer they are formatted into, so `snprintf` never cuts them, and they hold no NUL |
| Wire.ReqText | rpl-replay-demo.c:157-159 | `AUTH-REQ` and a nonce fit the 64-byte `msg` buffer with room for the NUL, and hold no NUL |
| Wire.RespText | rpl-replay-demo.c:166-169 | `AUTH-RESP`, a nonce and its signature fit the 64-byte `msg` buffer with room for the NUL, and hold no NUL |
| Wire.DecodeEncodeAuth | rpl-replay-demo.c:157-170 | the parser of lines 280-290 reads every formatted challenge and response back as the same message |
| Wire.DecodeAuth | rpl-replay-demo.c:280-290 | a decoded challenge starts with `AUTH-REQ` and a decoded response with `AUTH-RESP` |
| Wire.DecodedReqIsTagAndNumeral | rpl-replay-demo.c:280-285 | a decoded challenge is `AUTH-REQ`, then white space, then the numeral of its nonce |
| Wire.DecodedRespIsTagAndNumerals | rpl-replay-demo.c:280-290 | a decoded response is `AUTH-RESP`, then white space and the numeral of its nonce, then optional white space and the numeral of its tag |
| Wire.TagAndNumeralDecode | rpl-replay-demo.c:280-285 | conversely, `AUTH-REQ`, white space and a numeral that fits in 32 bits decode as the challenge of that nonce |
| Wire.TagAndNumeralsDecode | rpl-replay-demo.c:280-290 | conversely, `AUTH-RESP`, white space and two numerals that fit in 32 bits decode as the response carrying them |
| Wire.TagFollowedBySpace | rpl-replay-demo.c:280-283 | because `%15s` must read exactly the tag, a numeral cannot follow the tag without white space between them |
| Wire.ReceiveAuth | rpl-replay-demo.c:272-290 | a datagram shorter than the buffer and holding no NUL is decoded as it is; one starting with NUL is rejected |
| Wire.AuthRoundTrip | rpl-replay-demo.c:272-290 | every challenge and response payload is read back as the same message: tag, nonce and signature |
| Challenge.FindPending | rpl-replay-demo.c:112-121 | the first in-use slot for the address, or none exactly when no in-use slot holds it |
| Challenge.FirstFree | rpl-replay-demo.c:123-132 | the first free slot, or none exactly when all ten are in use |
| Challenge.Free | rpl-replay-demo.c:134-139 | freeing a slot clears only its in-use flag |
| Challenge.RetainPreservesInv | rpl-replay-demo.c:112-139 | releasing slots or overwriting their claims keeps at most one challenge per address, distinct nonces, and every nonce below `next_nonce` |
| Challenge.OpenPreservesPoolInv | rpl-replay-demo.c:230-238 | while `next_nonce < UINT32_MAX`, a challenge opened for an unchallenged address with `next_nonce` keeps the pool invariants, and its nonce exceeds every outstanding one |
| Challenge.PoolFullIff | rpl-replay-demo.c:123-132 | no slot is free exactly when all `MAX_PENDING_AUTH` slots are in use |
| Node.SenderIndex | rpl-replay-demo.c:108-110 | the table row is below 256, ids below 256 have their own row, and the row differs from the id by a multiple of 256 |
| Node.DeriveId | rpl-replay-demo.c:355-364 | the id is never 0: the platform id when set, else the id in the global address when that is non-zero, else 1 (also when there is no global address) |
| Node.Startup | rpl-replay-demo.c:355-379 | a node starts with its derived id and version 1, is root exactly when the id is 1, and starts at rank 0 if root or `DEFAULT_RANK` otherwise; counters, table rows and blacklist bits are zero, no challenge is outstanding, and the invariants hold |
| Node.SelectParent | rpl-replay-demo.c:252-262 | the state changes exactly when the node is not root and the wrapped candidate rank is strictly below its own; then rank, parent id and parent address change together, and nothing else changes |
| Node.Refresh | rpl-replay-demo.c:222-227 | a repeated first contact overwrites only the claimed fields of its slot; address, nonce and deadline stay |
| Node.ChallengeTo | rpl-replay-demo.c:157-163 | a challenge goes to the advertiser alone, on the auth port, and fits the 64-byte `msg` buffer |
| Node.ChallengeDecodes | rpl-replay-demo.c:157-163 | the receiver of a challenge reads back `AUTH-REQ` with the same nonce |
| Node.Response | rpl-replay-demo.c:165-174 | a response goes to the challenger alone, on the auth port, and fits the 64-byte `msg` buffer |
| Node.ResponseDecodes | rpl-replay-demo.c:165-174 | the challenger reads back `AUTH-RESP` with the same nonce and a signature that verifies for it |
| Node.Open | rpl-replay-demo.c:230-240 | a new challenge takes `next_nonce`, arms its timer `AUTH_TIMEOUT` ahead, increments `next_nonce`, and sends one `AUTH-REQ` to the advertiser |
| Node.FirstContact | rpl-replay-demo.c:220-241 | refresh the address's slot if it has one, else open a challenge in the first free slot, else change nothing; counter and topology are untouched |
| Node.ProcessDio | rpl-replay-demo.c:212-262 | an echo of the node's own id or a blacklisted row changes nothing, and so does a stale counter; a first contact goes through the challenge path without touching counters or topology; otherwise the counter is stored and the parent rule applied |
| Node.OnDio | rpl-replay-demo.c:191-263 | a payload that is not four `%u` numbers changes nothing; otherwise the decoded advertisement is processed; the rank never rises and a root keeps its parent |
| Node.Accepted | rpl-replay-demo.c:291-292 | a response is checked against the first challenge outstanding for its address, and no slot answers it exactly when that check fails |
| Node.Authenticated | rpl-replay-demo.c:293-311 | an accepted response stores the claimed counter in the claimed sender's row, frees the slot, and leaves rank, parent id and parent address exactly as the parent rule sets them for the claimed rank and the responder's address |
| Node.ProcessAuth | rpl-replay-demo.c:280-314 | an `AUTH-REQ` is answered with the signed nonce and changes nothing; an `AUTH-RESP` sends nothing and changes the state only through an accepted challenge |
| Node.OnAuth | rpl-replay-demo.c:265-315 | an unparsable payload changes nothing; otherwise the decoded message is processed |
| Node.ExpireSlot | rpl-replay-demo.c:144-152 | an unexpired slot changes nothing; an expired one blacklists its sender's row, pins that row to `UINT32_MAX` and frees the slot, and nothing else changes |
| Node.SweepFrom | rpl-replay-demo.c:141-155 | from slot `i` on, every expired slot is freed, and its sender's row is blacklisted and pinned to `UINT32_MAX`; other slots and rows are untouched |
| Node.CheckAuthTimeouts | rpl-replay-demo.c:141-155 | the same over the whole pool: exactly the expired slots are released and exactly their rows are blacklisted |
| Node.SendDio | rpl-replay-demo.c:176-189 | the counter goes up by one, wrapping to 0 past `UINT32_MAX`, and nothing else changes; exactly one multicast on the DIO port is sent, its payload is the encoding of the node's id, version, rank and new counter, and a receiver decodes it as those four numbers |
| Node.OnWake | rpl-replay-demo.c:397-403 | each pass of the process loop leaves the state the sweep leaves, except the counter, which goes up by one (with wrap-around) exactly when the DIO timer has fired; then exactly one multicast on the DIO port carries the id, version, rank and new counter, and otherwise nothing is sent |
| Node.Step | rpl-replay-demo.c:385-403 | no event clears a blacklist bit, raises the rank, moves a root's parent, or issues more than one nonce |
| Node.Run | rpl-replay-demo.c:385-403 | over any sequence of events no blacklist bit is cleared, the rank never rises, a root keeps rank and parent, and id and role never change |
| Properties.RefreshPreservesInv | rpl-replay-demo.c:222-227 | refreshing a slot keeps the pool invariants |
| Properties.OpenPreservesInv | rpl-replay-demo.c:230-239 | while `next_nonce < UINT32_MAX`, opening a challenge keeps the pool invariants and issues a nonce above every outstanding one |
| Properties.FirstContactPreservesInv | rpl-replay-demo.c:220-241 | while `next_nonce < UINT32_MAX`, the first-contact path keeps the pool invariants |
| Properties.AuthenticatedPreservesInv | rpl-replay-demo.c:291-311 | accepting a response keeps the pool invariants |
| Properties.SweepPreservesInv | rpl-replay-demo.c:141-155 | the timeout sweep keeps the pool invariants |
| Properties.SweepRetains | rpl-replay-demo.c:141-155 | a sweep only frees slots: every slot still in use afterwards was in use before with the same address and nonce, and `next_nonce` does not move |
| Properties.ProcessDioPreservesInv | rpl-replay-demo.c:212-262 | while `next_nonce < UINT32_MAX`, every outcome of a decoded advertisement keeps the pool invariants |
| Properties.DioPreservesInv | rpl-replay-demo.c:191-263 | while `next_nonce < UINT32_MAX`, a received advertisement keeps the pool invariants |
| Properties.AuthPreservesInv | rpl-replay-demo.c:265-315 | a received challenge or response keeps the pool invariants |
| Properties.WakePreservesInv | rpl-replay-demo.c:397-403 | a pass of the process loop keeps the pool invariants |
| Properties.StepPreservesInv | rpl-replay-demo.c:385-403 | while `next_nonce < UINT32_MAX`, every event keeps at most one challenge per address, distinct nonces, and every nonce below `next_nonce` |
| Properties.FirstContactDroppedIffFull | rpl-replay-demo.c:230-231 | a first contact from an address with no challenge is dropped, sending nothing and changing nothing, exactly when all `MAX_PENDING_AUTH` slots are in use |
| Properties.ResponseAcceptedIff | rpl-replay-demo.c:290-312 | for any pool holding at most one challenge per address, a response changes the state exactly when a challenge for its address carries its nonce and its tag is nonce XOR key; then it is that challenge that is committed and released |
| Properties.ResponseProcessedIff | rpl-replay-demo.c:290-312 | the same for the response as decoded |
| Properties.ResponseReceived | rpl-replay-demo.c:276-290 | a response received off the air is handled as the message that was sent |
| Properties.SignedNonceVerifies | rpl-replay-demo.c:96-102 | the tag `sign_nonce` computes always verifies, and it is the only one that does |
| Properties.HandshakeCommitsClaim | rpl-replay-demo.c:220-311 | a first advertisement draws a challenge with `next_nonce`, any peer answers it, and the answer commits the advertised counter and leaves no challenge for the address |
| Properties.AdvertisementChallenged | rpl-replay-demo.c:220-241 | a first advertisement from an unchallenged address, with a slot free, opens a challenge for it holding the advertised fields |
| Properties.ChallengeAnswered | rpl-replay-demo.c:282-285 | any node answers a received `AUTH-REQ` with the signed nonce, to the sender, without changing its own state |
| Properties.OnResponseCommits | rpl-replay-demo.c:290-311 | the signed answer to the one challenge outstanding for an address commits the claimed counter and clears the address from the pool |
| Properties.FirstContactOpens | rpl-replay-demo.c:230-240 | with no challenge for the address and a slot free, first contact opens a challenge in a free slot |
| Properties.ChallengeOpensAt | rpl-replay-demo.c:123-132 | the challenge goes in the lowest-numbered free slot |
| Properties.AnsweredChallengeCommits | rpl-replay-demo.c:291-311 | accepting the answer rewrites exactly the claimed row, frees exactly that slot, and leaves no challenge for the address |
| Properties.StaleAdvertisementIgnored | rpl-replay-demo.c:244-248 | an advertisement with a counter below its row's last accepted one changes nothing and sends nothing |
| Properties.EqualCounterAccepted | rpl-replay-demo.c:244-262 | an advertisement repeating the row's last accepted counter passes, and with a better rank makes its sender's address the parent |
| Properties.EqualCounterRefreshesParent | rpl-replay-demo.c:250-258 | the same for an advertisement already decoded |
| Properties.ZeroCounterStaysUntrusted | rpl-replay-demo.c:220 | a sender authenticated with claimed counter 0 is still treated as a first contact, so its next advertisement leaves counters and topology alone |
| Properties.EchoIgnored | rpl-replay-demo.c:212 | a node's own advertisement that comes back to it changes nothing |
| Properties.CounterCanDecrease | rpl-replay-demo.c:294 | two senders sharing row 5 both authenticate; the row goes from 100 back to 3 |
| Properties.BothAnswer | rpl-replay-demo.c:291-294 | two outstanding challenges answered in turn each commit their own claim |
| Properties.TwoChallenges | rpl-replay-demo.c:230-240 | a fresh node hearing two new addresses issues nonces 1 and 2 in slots 0 and 1 |
| Properties.SameRowIff | rpl-replay-demo.c:108-110 | two ids share a table row exactly when they differ by a multiple of 256 |
| Properties.ParentMovesOnlyOnImprovement | rpl-replay-demo.c:252-307 | a wake-up never touches rank or parent; an advertisement or a response moves them only on a non-root node, only to a strictly lower rank, and only to the address it came from |
| Properties.RunPreservesInv | rpl-replay-demo.c:112-315 | over any sequence of events that does not exhaust the nonce space, the pool invariants hold throughout |
| Properties.TimedOutSenderIgnoredForever | rpl-replay-demo.c:141-218 | once a challenge times out, every later advertisement naming its row is dropped, whatever happens in between |
| Attacker.Sniff | rpl-replay-demo.c:447-469 | the first non-empty datagram overheard is stored as a C string of at most 255 bytes and arms the replay timer `REPLAY_DELAY` ahead; later ones change nothing |
| Attacker.Replay | rpl-replay-demo.c:433-445 | with something captured, the stored text is multicast on the DIO port and the timer re-armed `REPLAY_PERIOD` ahead; otherwise nothing happens |
| Attacker.AttackerWake | rpl-replay-demo.c:485-489 | the attacker sends at most one datagram per wake-up, exactly when the timer has expired and a non-empty capture exists, never alters what it captured, and a wake-up that sends nothing changes nothing |
| Attacker.CapturesOnce | rpl-replay-demo.c:454 | once a capture exists, no sequence of overheard datagrams changes the attacker's state |
| Attacker.ReplayIsVerbatim | rpl-replay-demo.c:433-467 | a captured advertisement is sent again byte for byte `REPLAY_DELAY` after capture and at no instant from the capture until then, with the next replay `REPLAY_PERIOD` later |
| Attacker.ReplayVerdict | rpl-replay-demo.c:244-262 | a node that has accepted a later counter from the sender ignores the replay; one still holding the replayed counter accepts it, and with a better rank adopts the attacker as parent |

## Left out

- UDP sockets, multicast address creation and logging. Sends are recorded as `Packet`s in each `Reaction`. `send_auth_req` and `send_auth_resp` appear only as the payloads they format.
- The Contiki process loop, the DIO timer and its random jitter, and the app timer. A wake-up is an event, and whether the DIO timer has fired is one of its inputs. The event order is an input of `Run`.
- App traffic to the root and the `NETSTACK_ROUTING` calls: they belong to the routing stack, not to this code.
- `handle_data_recv`: a relay over the chosen parent address, outside the freshness and authentication logic.
- `project-conf.h`: build and stack configuration only.
- `CLOCK_SECOND` and clock wrap-around: the clock is unbounded whole seconds.
- Bytes are modelled as characters. Payload text is `string`, and NUL is the character `'\0'`.
- Scanner.ScanU32: it does not accept a leading sign, and it rejects values of 2^32 and above. C's `%u` accepts a sign and converts out-of-range values to an unspecified result. The encoders never produce either.
- Challenge.OpenPreservesPoolInv: requires `next_nonce < UINT32_MAX`. After `next_nonce++` wraps to 0, an issued nonce could repeat, so the invariant is stated only before the nonce space is exhausted.
- Properties.OpenPreservesInv: requires `next_nonce < UINT32_MAX`, for the same reason.
- Properties.FirstContactPreservesInv: requires `next_nonce < UINT32_MAX`, for the same reason.
- Properties.ProcessDioPreservesInv: requires `next_nonce < UINT32_MAX`, for the same reason.
- Properties.DioPreservesInv: requires `next_nonce < UINT32_MAX`, for the same reason.
- Properties.StepPreservesInv: requires `next_nonce < UINT32_MAX`. After `next_nonce++` wraps to 0, a nonce could repeat, so the invariant is stated only before the nonce space is exhausted.
- Properties.RunPreservesInv: requires that the run issue fewer nonces than remain before the wrap, for the same reason.
- Monotonicity of `last_seen_counter` is not proved, because the code does not have it (see `CounterCanDecrease`).
- The attacker's wake-up is an explicit event at a given time. Which Contiki events wake its process is not modelled.
