# SecureSync in Dafny

SecureSync is an encrypted peer-to-peer file-sync engine. This project models its four hardest parts and
proves what they promise, over every input, every interleaving and every run.

**The replay-protected session layer.** `ReplayWindow` is the sliding bitmask window as a class over a byte
array; `WindowRuns` states what it does over whole delivery sequences. `Frames` and `Packets` are the wire
formats. `Sessions` and `SessionCaps` describe the session registry with its caps and eviction order,
`SessionPolicy` what expiry, eviction and put do in the records' own fields; `SessionStore` is the store itself,
two dictionaries and the eviction loops. `ChannelSpec` and `SecureChannel`
are sealing and the ordered receive pipeline; `SessionFlood` says what new sessions can do to confirmed ones;
`ChannelProperties`, `Delivery` and `HonestDelivery` hold the results about nonces, about what an arbitrary
network can make a receiver accept, and about what gets through.

**The four-message handshake (v3).** `HandshakeMessages` is the strict binary codec, `Transcripts` the
length-prefixed strings that are hashed, signed, MACed or fed to the key schedule. `HandshakeSpec` gives both
machines over symbolic terms. `HandshakeRuns` proves agreement against an adversary who controls the network;
`HandshakeDiscipline` covers the trust store and the half-open count. `Handshake` holds the exchange objects
with their state, pins and half-open slots, each method proved to take every world its object is part of through
the step of that name, so that those results are about these objects. `HandshakeSessions` follows a completed
handshake into the session layer: what the two devices record are two ends of one session, and the first frame
confirms the responder's.

**Chunk, diff, push, reassemble.** `Chunking` is the buffered splitter against the obvious split, and the
manifest. `PushSpec` says what one pushed message does, `PushReceiver` is the receiving object over partial
files, `PushTransfer` follows one push from end to end, `PullTransfer` one pull, `PushRuns` the receiver
over whole runs, and `PushVersions` the versions it records.

**Policies and ordering.** `RateLimits` (token bucket and per-source window) and `Admission` (exactly when they
refuse), `Debounce`, `VersionVectors` and `SyncDirection` (exactly when each decision arises).

Objects whose fields the program updates are classes here. Each of their methods is proved against a function on
plain values, and the results about runs are lemmas about those functions. `Wire`, `Lists` and `Results` hold
byte strings, list selection, and option and result types.

Cryptography is idealized in two ways. In the channel the cipher is a parameter: `SealedFrameOpens` asks that
decryption undo encryption, `InjectiveDelivery` that whatever decrypts under a secret key was enciphered by a
device under that key, and `HonestFramesAreUnforged` shows that of honest frames for a cipher that commits to its
inputs (`CommittingCipherExists` meets all these hypotheses at once). In the handshake a hash, signature, MAC or
derived key is the term that names what it was computed from, Diffie-Hellman is an unordered pair, and an adversary can send any term except signatures and MACs
under keys it does not hold. `Transcripts` shows for the byte strings behind these terms that those of one shape
determine their parts, that the responder's three MAC inputs, the two signed strings and the two key inputs never
coincide, and that the first transcript's string is no later one's, except that over an arbitrary message 3 this
rests on no digest beginning with the protocol label (`FirstTranscriptBehindLabel`). A chunk digest is identified
with the bytes it is the digest of.

## Where the program and its own description disagree

The model follows the code.

- `session_store.py:44-46` says a flood of hellos can never displace a confirmed session. One hello can, through
  the per-peer cap or the global cap (`HelloDisplacesConfirmed`); `PutDisplacesExactly` gives the exact condition,
  and `FloodLeavesConfirmed` exactly how many a flood leaves while the confirmed ones fit under the global cap.
- `sync_direction.py:10-12` says concurrent versions are a CONFLICT. The code falls through to a content diff;
  `ConflictExactly` gives the exact condition and `ConcurrentMayPush` an example.
- Version vectors arrive with any counters. Comparison and merging are lawful on canonical vectors; each law has
  its exact condition on all of them: antisymmetry in `MutualOrderExactly`, transitivity in `TransitiveExactly`,
  least upper bounds in `MergeIsLeastExactly`, and commuting and associating merges in `MergeCommutesExactly` and
  `MergeAssociatesExactly`. `MirrorExactly` says exactly when both peers decide to pull.
- The per-source limiter reads the wall clock by default, and one backward step of it, however small, lets one
  attempt too many through (`BackwardStepExactly`).
- A push does not always reproduce the sender's file: digests are matched by content and not by place, the
  announced count is the number of distinct digests, and nothing is ever truncated. `EveryOrderYieldsExactly` gives
  the condition a sender can check beforehand; `SharedDigestCommitsEarly`, `LongerOldFileStays` and
  `MovedChunkIsMissed` show that each part of it matters.
- A pinned key can be replaced. `PinReplacedExactly` says exactly when: an initiator exchange confirms with a key
  other than the one pinned by then. That takes another exchange of the device overlapping it, initiator
  (`OverlapReplacesPin`, `OverlapIsReachable`) or responder (`ResponderOverlapReplacesPin`); without overlapping
  exchanges a pin never changes (`PinsNeverChange`).
- The store refuses a session id that is live, but not one that has been removed. Delivery stays injective while no
  end of a session (device, id, peer, direction and key) is recorded twice, so an id may come back with another
  peer, role or key; `RecordedTwiceOpensTwice` shows that this is the exact condition and `ReplayRun` the run that
  breaks it. Likewise for nonces: `NoNonceRepeatsInRuns`, `NonceRepeatsExactly`.

## Model

| member | source | states |
|---|---|---|
| `ReplayWindow.AntiReplayWindow.constructor` | src/securesync/infrastructure/networking/replay_protection.py:420-438 | a fresh window has accepted nothing, whatever its size |
| `ReplayWindow.AntiReplayWindow.WouldAccept` | src/securesync/infrastructure/networking/replay_protection.py:454-470 | the bitmask answers as the unbounded set of accepted counters does: counter positive, within one window of the highest on either side, never accepted before |
| `ReplayWindow.AntiReplayWindow.Accept` | src/securesync/infrastructure/networking/replay_protection.py:472-486 | accepts exactly when that set would, adds exactly that counter and raises the highest; a refusal leaves every bit alone |
| `ReplayWindow.AntiReplayWindow.Slide` | src/securesync/infrastructure/networking/replay_protection.py:488-510 | after sliding, each slot still says whether its counter was accepted; the byte array keeps its length |
| `WindowRuns.RemembersExactly` | src/securesync/infrastructure/networking/replay_protection.py:454-510 | after any sequence of deliveries the window stands for exactly the counters whose delivery it accepted |
| `WindowRuns.NeverTwice` | src/securesync/infrastructure/networking/replay_protection.py:454-486 | no counter is accepted twice, whatever is delivered in between and however far the window slides |
| `WindowRuns.AcceptedExactly` | src/securesync/infrastructure/networking/replay_protection.py:454-486 | in any sequence of deliveries one is accepted exactly when its counter is positive, within one window of the largest counter accepted so far on either side, and carried by no accepted delivery before it |
| `WindowRuns.LateFirstIsLost` | src/securesync/infrastructure/networking/replay_protection.py:454-486 | for any displacement of more than half the window there is a delivery order with that displacement that loses a counter |
| `WindowRuns.ReorderingTolerance` | src/securesync/infrastructure/networking/replay_protection.py:454-486 | every delivery order of 1..n with displacement at most d is accepted in full if and only if 2d is at most the window size |
| `Frames.SplitInvertsEncode` | src/securesync/infrastructure/networking/replay_protection.py:175-240 | splitting undoes encoding for every frame whose header integers fit a byte |
| `Frames.EncodeInvertsSplit` | src/securesync/infrastructure/networking/replay_protection.py:175-240 | a byte string splits exactly when it has the minimum size, and encoding the parts gives it back byte for byte |
| `Frames.FrameLayout` | src/securesync/infrastructure/networking/replay_protection.py:175-240 | a frame can be encoded exactly when session id, nonce and tag have 8, 12 and 16 bytes; each field stands at its fixed offset |
| `Frames.DirectionsAreFixed` | src/securesync/infrastructure/networking/replay_protection.py:246-281 | an initiator sends with direction 0 and expects 1, a responder the reverse |
| `Frames.DeriveNonce` | src/securesync/infrastructure/networking/replay_protection.py:287-309 | a nonce is 12 bytes, and exists exactly for the two directions and counters from 1 to 2^64 - 1 |
| `Frames.NonceCarriesCounter` | src/securesync/infrastructure/networking/replay_protection.py:287-309 | the counter and the direction can be read back from the nonce |
| `Frames.NonceLayout` | src/securesync/infrastructure/networking/replay_protection.py:287-309 | the nonce is the direction byte, the counter big-endian in eight bytes and three zeros |
| `Frames.NonceInjective` | src/securesync/infrastructure/networking/replay_protection.py:287-309 | two nonces coincide only for one direction and one counter |
| `Frames.AadInjective` | src/securesync/infrastructure/networking/replay_protection.py:315-353 | the associated data determines the header, the sender and the receiver |
| `Frames.AadLayout` | src/securesync/infrastructure/networking/replay_protection.py:315-353 | associated data exists exactly while both ids fit a two-byte length, and is header, sender and receiver in that order |
| `Wire.MostSignificantFirst` | src/securesync/infrastructure/networking/replay_protection.py:287-318 | integers on the wire are big-endian: cut anywhere, the front counts in units of what the back can hold |
| `Packets.UnpackInvertsPack` | src/securesync/core/protocol.py:76-115 | unpacking a packed packet header gives the header back, for every header whose fields fit |
| `Packets.PackInvertsUnpack` | src/securesync/core/protocol.py:76-115 | packing an unpacked header gives the bytes back: the encoding is canonical |
| `Packets.HeaderLayout` | src/securesync/core/protocol.py:44-115 | a packet header can be packed exactly when its type is one of the ten known and every field fits its width; each field stands at its fixed offset behind the magic |
| `Packets.DecodeInvertsEncode` | src/securesync/core/protocol.py:124-171 | decoding an encoded packet returns its payload and its header with length and checksum filled in, for any lawful payload codec |
| `Packets.EncodesExactly` | src/securesync/core/protocol.py:124-142 | a packet can be encoded exactly when its fields and the real length of its payload fit; payload and recomputed length and checksum go out |
| `Packets.DecodesExactly` | src/securesync/core/protocol.py:145-171 | a byte string decodes to a packet exactly when it is that packet's packed header, a payload as long as announced with its checksum, and anything behind it |
| `SessionStore.PeerSession.constructor` | src/securesync/infrastructure/networking/session_store.py:87-121 | a new session starts at counter 1 with an empty window |
| `SessionStore.PeerSession.AllocateCounter` | src/securesync/infrastructure/networking/session_store.py:127-151 | hands out the next counter and advances, or refuses and changes nothing once the key is used up |
| `SessionStore.PeerSession.CanSend` | src/securesync/infrastructure/networking/session_store.py:153-159 | confirmed, within the key lifetime, and a counter left |
| `Sessions.Pick` | src/securesync/infrastructure/networking/session_store.py:265-293 | the victim is a member of the candidates with the wanted confirmation and minimal age; none is found only when no candidate has it |
| `Sessions.ShrinkIsFair` | src/securesync/infrastructure/networking/session_store.py:235-263 | an eviction loop ends below its cap or with nothing left in scope, only removes, and removes a confirmed session only when every session left in scope is confirmed |
| `Sessions.DropUnconfirmedIsFair` | src/securesync/infrastructure/networking/session_store.py:235-252 | the unconfirmed-cap loop removes only unconfirmed sessions of that peer and ends below the cap |
| `SessionPolicy.EvictionInOrder` | src/securesync/infrastructure/networking/session_store.py:265-293 | of two sessions in scope of which an eviction loop removes one and keeps the other: the removed one is unconfirmed or both are confirmed; of two confirmed ones it was used no later, of two unconfirmed ones created no later |
| `SessionPolicy.DroppingInOrder` | src/securesync/infrastructure/networking/session_store.py:235-252 | what the unconfirmed-cap loop removes is that peer's, unconfirmed, and created no later than any unconfirmed one of that peer it keeps |
| `SessionPolicy.PickIsFirst` | src/securesync/infrastructure/networking/session_store.py:265-293 | among candidates of equal age the first in the list is the victim |
| `SessionPolicy.ShrinkKeepsExactly` | src/securesync/infrastructure/networking/session_store.py:246-263 | an eviction loop leaves exactly the smaller of what was in scope and one fewer than its cap, so nothing goes without need |
| `SessionPolicy.DropKeepsExactly` | src/securesync/infrastructure/networking/session_store.py:235-252 | so does the unconfirmed-cap loop with that peer's unconfirmed sessions |
| `Sessions.UnindexAgrees` | src/securesync/infrastructure/networking/session_store.py:295-303 | removing a session from the per-peer lists gives the lists of the remaining sessions, with no empty list left behind |
| `Sessions.PeerMembers` | src/securesync/infrastructure/networking/session_store.py:227-233 | a peer's list holds exactly that peer's sessions |
| `SessionStore.Store.constructor` | src/securesync/infrastructure/networking/session_store.py:165-195 | the store starts empty with both indexes in agreement |
| `SessionStore.Store.Put` | src/securesync/infrastructure/networking/session_store.py:199-228 | rejects a wrong-sized or colliding id without change; otherwise prunes, enforces the caps in order and records; both indexes agree afterwards |
| `SessionPolicy.PutRefusesExactly` | src/securesync/infrastructure/networking/session_store.py:199-228 | wrong length, collision and nothing-to-evict arise each exactly when they should; the first two change nothing |
| `SessionPolicy.PutRecords` | src/securesync/infrastructure/networking/session_store.py:199-228 | a put that is not refused records the session as it is, behind all others; every other session left was within key lifetime and idle timeout, and is as it was |
| `SessionPolicy.PutEvictsOnlyForRoom` | src/securesync/infrastructure/networking/session_store.py:199-263 | with room under all three caps a put removes exactly what has expired |
| `SessionStore.Store.EnforcePeerCaps` | src/securesync/infrastructure/networking/session_store.py:235-252 | the two per-peer loops together give the fair shrinking of that peer's sessions, unconfirmed first |
| `SessionStore.Store.EnforceGlobalCap` | src/securesync/infrastructure/networking/session_store.py:254-263 | shrinks the whole store fairly; fails exactly when the cap still is not met |
| `SessionStore.Store.Evict` | src/securesync/infrastructure/networking/session_store.py:265-293 | evicts exactly the chosen victim and reports whether there was one |
| `SessionStore.Store.EvictOne` | src/securesync/infrastructure/networking/session_store.py:246-263 | evicts an unconfirmed candidate if there is one, otherwise the least recently used confirmed one |
| `SessionStore.Store.Remove` | src/securesync/infrastructure/networking/session_store.py:295-303 | removes the session from both indexes; an unknown id changes nothing |
| `SessionStore.Store.GetBySessionId` | src/securesync/infrastructure/networking/session_store.py:307-309 | finds a session exactly when its id is recorded |
| `SessionStore.Store.GetSendSession` | src/securesync/infrastructure/networking/session_store.py:323-338 | the most recently used of the peer's sendable sessions, none exactly when there is none; the one returned can always allocate a counter |
| `SessionStore.Store.Confirm` | src/securesync/infrastructure/networking/session_store.py:340-344 | marks that one session confirmed and changes nothing else |
| `SessionStore.Store.RemoveByPeer` | src/securesync/infrastructure/networking/session_store.py:352-364 | removes the peer's sessions and returns how many there were |
| `SessionStore.Store.PruneExpired` | src/securesync/infrastructure/networking/session_store.py:366-384 | keeps exactly the sessions whose key is no older than its lifetime and whose last activity is no longer ago than the idle timeout of their confirmation, and counts the others |
| `SessionPolicy.PruningKeepsExactly` | src/securesync/infrastructure/networking/session_store.py:366-384 | the same of the registry: created at most a key lifetime ago, and last active at most the confirmed or the unconfirmed idle timeout ago |
| `SessionCaps.RoomIsMade` | src/securesync/infrastructure/networking/session_store.py:223-263 | after pruning and the caps there is room for one more under every positive cap, and every session left is within its key lifetime and its idle timeout |
| `SessionCaps.ConfirmedGoesLast` | src/securesync/infrastructure/networking/session_store.py:235-293 | a live confirmed session is evicted only if no unconfirmed one survives in its scope |
| `SessionCaps.ConfirmedDisplacedExactly` | src/securesync/infrastructure/networking/session_store.py:235-293 | one cap's eviction loop displaces a confirmed session exactly when confirmed sessions alone already fill that cap |
| `SessionFlood.RoomSparesExactly` | src/securesync/infrastructure/networking/session_store.py:223-263 | making room spares every live confirmed session exactly when the peer's live confirmed sessions number fewer than its cap and all of them fewer than the global cap |
| `SessionFlood.PutDisplacesExactly` | src/securesync/infrastructure/networking/session_store.py:199-228 | the same of put as a whole: the exact condition under which a new session displaces a live confirmed one, which refutes the comment at lines 44-46 |
| `SessionFlood.HelloDisplacesConfirmed` | src/securesync/infrastructure/networking/session_store.py:199-263 | from the empty store, under any positive caps of the usual kind, a peer with its full number of confirmed sessions loses a live one to a single unconfirmed put |
| `SessionFlood.ShrinkLeavesExactly` | src/securesync/infrastructure/networking/session_store.py:246-263 | an eviction loop leaves exactly the smaller of the confirmed sessions in scope and one fewer than the cap |
| `SessionFlood.PutLeavesExactly` | src/securesync/infrastructure/networking/session_store.py:199-263 | while the live confirmed sessions leave room under the global cap, an unconfirmed put leaves the peer exactly the smaller of its live confirmed sessions and one fewer than its cap, and every other peer all of its own |
| `SessionFlood.FloodLeavesConfirmed` | src/securesync/infrastructure/networking/session_store.py:42-47 | over any flood of unconfirmed puts from any peers, however full the store gets: a peer keeps all its unexpired confirmed sessions until a put of its own succeeds, and from then on exactly as many, or one fewer than its cap: what is true of the comment |
| `SessionCaps.EvictionErrorExactly` | src/securesync/infrastructure/networking/session_store.py:254-263 | "no session to evict" is raised exactly when the global cap is not positive, so never for positive caps |
| `SessionCaps.PutKeepsCaps` | src/securesync/infrastructure/networking/session_store.py:199-228 | put preserves all three caps |
| `SessionCaps.CapsAlwaysHold` | src/securesync/infrastructure/networking/session_store.py:199-376 | in every state reachable by put, use, confirmation, pruning and untrusting, every peer is within both its caps and the store within the global cap |
| `SessionCaps.UntrustIsExact` | src/securesync/infrastructure/networking/session_store.py:352-364 | untrusting a peer removes all of its sessions and none of any other peer's |
| `SessionCaps.IndexInserted` | src/securesync/infrastructure/networking/session_store.py:227-233 | indexing a new session gives exactly the grouping of the enlarged store by peer |
| `SessionCaps.UpdateKeepsIndex` | src/securesync/infrastructure/networking/session_store.py:227-233 | changing a session's record in place leaves the grouping by peer as it was |
| `SecureChannel.Channel.Seal` | src/securesync/infrastructure/networking/secure_channel.py:85-127 | sealing computes the channel specification: counter, inner packet, nonce, associated data, frame; a counter is spent even when a later step fails |
| `SecureChannel.Channel.Open` | src/securesync/infrastructure/networking/secure_channel.py:129-213 | opening computes the receive pipeline over all sessions; a failing open leaves every session, window and bit unchanged |
| `SecureChannel.Channel.Check` | src/securesync/infrastructure/networking/secure_channel.py:163-205 | all checks before the window's final word, in the program's order, without any state change |
| `SecureChannel.Admit` | src/securesync/infrastructure/networking/secure_channel.py:206-213 | window, confirmation and activity change together or not at all |
| `SecureChannel.Channel.Commit` | src/securesync/infrastructure/networking/secure_channel.py:206-213 | admits under one session, leaves every other session and window alone; the second replay rejection (lines 207-208) cannot occur |
| `ChannelProperties.SealedFrameOpens` | src/securesync/infrastructure/networking/secure_channel.py:85-213 | what one end seals the other end opens, with type, counter and payload, whenever its window has room for the counter and the clocks agree |
| `ChannelProperties.OpenSucceedsExactly` | src/securesync/infrastructure/networking/secure_channel.py:129-213 | a frame opens exactly when it passes every condition, in no particular order; its counter is then its inner message id, remembered as accepted, and only its own session changes; a frame that does not open changes no session |
| `ChannelProperties.OpenChangesExactly` | src/securesync/infrastructure/networking/secure_channel.py:206-213 | a frame that opens leaves its session confirmed exactly if it was or its role is responder, active now, with the highest counter raised as the window says, and every other field and session as it was; one that does not open changes nothing |
| `ChannelProperties.OpeningLetsResponderSend` | src/securesync/infrastructure/networking/secure_channel.py:206-213 | after a responder has opened a frame its session can send exactly while within the key lifetime and with counters left |
| `ChannelProperties.OpenReportsFirstFault` | src/securesync/infrastructure/networking/secure_channel.py:129-205 | which error each refused frame gets: that of the first check it fails, in the order of the receive pipeline |
| `ChannelProperties.PreFiltersPrecedeCipher` | src/securesync/infrastructure/networking/secure_channel.py:129-186 | what version, session, direction or window refuses is refused alike whatever the cipher would say |
| `ChannelProperties.SealChangesExactly` | src/securesync/infrastructure/networking/secure_channel.py:85-127 | sealing spends a counter exactly when one is left, marks activity when a frame could be built, and changes nothing else |
| `ChannelProperties.SealedFrameLayout` | src/securesync/infrastructure/networking/secure_channel.py:85-127 | a sealed frame shows version 2, the sender's direction, its type and session id, and a nonce with the counter it spent |
| `ChannelProperties.RecordedAgainOpensAgain` | src/securesync/infrastructure/networking/secure_channel.py:129-213 | recording one session id twice lets an old frame open again, exactly while its counter lies in the fresh window: why delivery is claimed for ids recorded once |
| `ChannelProperties.CountersAreConsecutive` | src/securesync/infrastructure/networking/session_store.py:127-151 | attempt k on a fresh session yields counter k + 1, up to 2^32 messages and never after |
| `ChannelProperties.NoncesNeverRepeat` | src/securesync/infrastructure/networking/replay_protection.py:287-309 | over any two runs of sends, two 12-byte nonces coincide exactly for one direction and one attempt |
| `Delivery.AcceptedWasSealed` | src/securesync/infrastructure/networking/secure_channel.py:129-213 | a frame that passes every check carries the direction, counter, type and payload its sender sealed |
| `Delivery.AlwaysInv` | src/securesync/infrastructure/networking/secure_channel.py:85-213 | every opened frame under a secret key has a matching seal, and every seal says what it enciphered, after every sequence of recordings, drops, sends and arbitrary arrivals |
| `Delivery.OpenedWasSealed` | src/securesync/infrastructure/networking/secure_channel.py:129-213 | in every run, ids used again or not, what is opened under a secret key was sealed by the peer, with equal session, direction, counter, type and payload |
| `Delivery.OpenedAtMostOnce` | src/securesync/infrastructure/networking/secure_channel.py:129-213 | no sealed frame is opened twice in a run that records no receiving end (device, id, peer, direction, key) twice |
| `Delivery.OpenedFromOneSeal` | src/securesync/infrastructure/networking/secure_channel.py:85-127 | an opened frame comes from one seal only in a run that records no sending end twice |
| `Delivery.InjectiveDelivery` | src/securesync/infrastructure/networking/secure_channel.py:85-213 | in every run that records no end twice, with the network reordering, duplicating, dropping or inventing frames, what is opened under secret keys maps one-to-one into what the peers sealed; an id may be used again with another peer, role or key |
| `HonestDelivery.HonestFramesAreUnforged` | src/securesync/infrastructure/networking/secure_channel.py:85-127 | every frame a run has sealed satisfies the hypothesis on arriving frames at every later point, under a committing cipher |
| `HonestDelivery.HonestFrameIsDelivered` | src/securesync/infrastructure/networking/secure_channel.py:85-213 | such a frame, arriving at the other end with room in the window and clocks that agree, adds exactly one opened frame, which matches what was sealed |
| `HonestDelivery.NoNonceRepeatsInRuns` | src/securesync/infrastructure/networking/secure_channel.py:85-127 | in every run in which no send key is recorded twice for one direction, no two frames are sealed under one key with one nonce |
| `HonestDelivery.NonceRepeatsExactly` | src/securesync/infrastructure/networking/secure_channel.py:85-127 | two sessions recorded in an empty network: their first frames share key and nonce exactly when the sessions share send key and role |
| `HonestDelivery.RecordedTwiceOpensTwice` | src/securesync/infrastructure/networking/session_store.py:218-228 | after a frame was opened, its session dropped and its id recorded again, the frame opens to the same event once more exactly when the same end was recorded and the counter lies in the fresh window |
| `HonestDelivery.ReplayRun` | src/securesync/infrastructure/networking/session_store.py:218-228 | the run from the empty network: record both ends, send, arrive, drop, record the same end again, arrive; the frame is opened twice |
| `HandshakeMessages.HelloRoundTrip` | src/securesync/infrastructure/networking/handshake_messages.py:249-277 | a HELLO decodes to the fields it was encoded from, unless its ephemeral key is of low order |
| `HandshakeMessages.HelloCanonical` | src/securesync/infrastructure/networking/handshake_messages.py:368-402 | every accepted HELLO is the encoding of its fields |
| `HandshakeMessages.ReplyRoundTrip` | src/securesync/infrastructure/networking/handshake_messages.py:280-335 | a REPLY decodes to its fields and its body is byte for byte what the responder hashed |
| `HandshakeMessages.ReplyCanonical` | src/securesync/infrastructure/networking/handshake_messages.py:405-447 | every accepted REPLY is the encoding of its fields, and so is its body |
| `HandshakeMessages.ConfirmBijection` | src/securesync/infrastructure/networking/handshake_messages.py:338-348 | encoding and decoding of CONFIRM are mutual inverses |
| `HandshakeMessages.FinalBijection` | src/securesync/infrastructure/networking/handshake_messages.py:351-362 | encoding and decoding of FINAL are mutual inverses |
| `HandshakeMessages.OneDecoderAtMost` | src/securesync/infrastructure/networking/handshake_messages.py:368-475 | no byte string is accepted by two decoders |
| `HandshakeMessages.IntroLayout` | src/securesync/infrastructure/networking/handshake_messages.py:249-308 | HELLO and the REPLY body can be encoded exactly with version 3, 32-byte keys and nonce, ports from 1 to 65535 and an id of 1 to 64 bytes; each field stands at its place |
| `HandshakeMessages.HelloAcceptedExactly` | src/securesync/infrastructure/networking/handshake_messages.py:368-402 | the HELLO decoder accepts exactly the encodings of HELLOs whose ephemeral key is not of low order |
| `HandshakeMessages.ReplyAcceptedExactly` | src/securesync/infrastructure/networking/handshake_messages.py:405-447 | the REPLY decoder accepts exactly the encodings of such REPLYs: body, then signature, then MAC |
| `HandshakeMessages.ConfirmAndFinalExactly` | src/securesync/infrastructure/networking/handshake_messages.py:450-475 | CONFIRM and FINAL are accepted exactly at 98 and 35 bytes with their header and, for FINAL, a status of 0 or 1 |
| `Transcripts.Absorb` | src/securesync/infrastructure/networking/handshake_messages.py:481-486 | the hash loop absorbs the prefix and every part behind its length, and fails exactly on a part too long to prefix |
| `Transcripts.FieldsInjective` | src/securesync/infrastructure/networking/session_keys.py:53-67 | a list of length-prefixed fields can be read back in only one way |
| `Transcripts.PreimageInjective` | src/securesync/infrastructure/networking/handshake_messages.py:481-521 | two hash inputs behind prefixes of one length coincide only if every part does |
| `Transcripts.T2Injective` | src/securesync/infrastructure/networking/handshake_messages.py:489-491 | the first transcript determines both messages it covers |
| `Transcripts.FirstTranscriptSeparate` | src/securesync/infrastructure/networking/handshake_messages.py:489-516 | the first transcript's string is longer than any later one over a signature, a MAC or the accept label |
| `Transcripts.FirstTranscriptBehindLabel` | src/securesync/infrastructure/networking/handshake_messages.py:489-521 | over other parts, an arbitrary message 3 among them, the two strings coincide only if the digest begins with the protocol label |
| `Transcripts.ResponderMacsSeparate` | src/securesync/infrastructure/networking/handshake_messages.py:494-521 | what the responder's key authenticates in a reply, an accept and a reject is pairwise different, whatever arrived as message 3 |
| `Transcripts.SignaturesSeparate` | src/securesync/infrastructure/networking/handshake_messages.py:524-531 | a responder's signed string is never an initiator's |
| `Transcripts.CommonInjective` | src/securesync/infrastructure/networking/session_keys.py:163-174 | the key schedule's common string determines ids, session id and both ephemeral keys |
| `Transcripts.DirectionalKeysSeparate` | src/securesync/infrastructure/networking/session_keys.py:138-174 | the two directional keys of any sessions come from different strings, each of which determines the whole context |
| `HandshakeSpec.HonestExchangeCompletes` | src/securesync/infrastructure/networking/handshake_v3.py:277-552 | two honest machines over a faithful channel both confirm exactly when they are two devices, neither has pinned another key for the other and a half-open slot is free; then one is initiator and the other responder, each names the other with its ports, and the keys, bound to both ids and both ephemeral keys, are each other's, swapped |
| `HandshakeSpec.OwnIdentityIsRefused` | src/securesync/infrastructure/networking/handshake_messages.py:223-246 | neither end deals with a peer that shows its own device id or its own key, whatever else it sends |
| `HandshakeSpec.MismatchReportedExactly` | src/securesync/infrastructure/networking/handshake_v3.py:304-319 | at either end a changed identity key is reported exactly when the message is signed under it and another key is pinned, whatever its MAC |
| `HandshakeSpec.AnswersAreBelieved` | src/securesync/infrastructure/networking/handshake_v3.py:341-364 | an honest responder's refusal of the message 3 it was sent is believed, and so is its acceptance |
| `HandshakeSessions.HandshakeMakesEnds` | src/securesync/infrastructure/networking/x25519_session_coordinator.py:45-59 | the sessions two devices record after their handshake have opposite roles, one id and each other's keys and ports: they are the two ends the delivery results are about; the initiator's is confirmed, the responder's is not |
| `HandshakeSessions.FirstFrameConfirms` | src/securesync/main.py:83-94 | after an honest exchange the initiator's first frame opens at the responder with its payload, and it turns the responder's session from one that cannot send into one that can |
| `Handshake.HandshakeV3.constructor` | src/securesync/infrastructure/networking/handshake_v3.py:596-646 | no exchange is half open at the start, and the device is part of every idle world with its configuration and trust store |
| `Handshake.HandshakeV3.BeginHalfOpen` | src/securesync/infrastructure/networking/handshake_v3.py:697-707 | takes a slot exactly when one is free |
| `Handshake.HandshakeV3.EndHalfOpen` | src/securesync/infrastructure/networking/handshake_v3.py:709-713 | gives a slot back, never below zero |
| `Handshake.InitiatorExchange.SendHello` | src/securesync/infrastructure/networking/handshake_v3.py:277-292 | realises the initiation step in every world the exchange is part of |
| `Handshake.InitiatorExchange.ReceiveReply` | src/securesync/infrastructure/networking/handshake_v3.py:294-339 | checks identity, signature, pin and MAC of message 2 in that order, and realises the reply step in every world: only a fully checked reply is answered, and nothing is pinned |
| `Handshake.InitiatorExchange.ReceiveFinal` | src/securesync/infrastructure/networking/handshake_v3.py:341-374 | realises the final step in every world: confirms, and pins, exactly on an accept whose MAC verifies; a reject counts only if authenticated |
| `Handshake.InitiatorExchange.Abort` | src/securesync/infrastructure/networking/handshake_v3.py:267-275 | a deadline, a closed connection or a cancellation realises the abort step |
| `Handshake.ResponderExchange.ReceiveHello` | src/securesync/infrastructure/networking/handshake_v3.py:425-487 | realises the hello step in every world: a half-open slot is taken before answering, and a busy responder answers nothing |
| `Handshake.ResponderExchange.ReceiveConfirm` | src/securesync/infrastructure/networking/handshake_v3.py:489-560 | realises the confirm step in every world: pins, then calls the session hook, then accepts, only after signature and MAC of message 3 verify; anything else is answered by an authenticated reject and the slot returned |
| `Handshake.ResponderExchange.Verify` | src/securesync/infrastructure/networking/handshake_v3.py:508-552 | the order of checks and effects on message 3 |
| `Handshake.ResponderExchange.Finish` | src/securesync/infrastructure/networking/handshake_v3.py:497-506 | realises the finish step: after the answer the slot is returned, whether sending it worked or not |
| `Handshake.ResponderExchange.Abort` | src/securesync/infrastructure/networking/handshake_v3.py:415-423 | a failure while message 3 is awaited realises the abort step and returns the slot |
| `Handshake.OtherInitiatorStays` | src/securesync/infrastructure/networking/handshake_v3.py:219-234 | a step of another exchange leaves an initiator object where it was |
| `Handshake.OtherResponderStays` | src/securesync/infrastructure/networking/handshake_v3.py:400-413 | a step of another exchange leaves a responder object where it was |
| `Handshake.OtherDeviceStays` | src/securesync/infrastructure/networking/handshake_v3.py:593-646 | a step of another device's exchange leaves a device's pins and counter alone |
| `Handshake.ObjectsAgree` | src/securesync/infrastructure/networking/handshake_v3.py:277-552 | agreement of the objects themselves: a confirmed initiator's outcome and what the honest responder's hook was called with name opposite roles, each other's id and ports, one master secret and swapped keys |
| `Handshake.ObjectCountsHalfOpen` | src/securesync/infrastructure/networking/handshake_v3.py:697-717 | a device object's counter is the number of its responder exchanges in flight and within its maximum, in every run |
| `HandshakeRuns.AlwaysInv` | src/securesync/infrastructure/networking/handshake_v3.py:277-560 | the protocol invariant holds after every interleaving of any number of exchanges with an adversary in control of the network |
| `HandshakeRuns.InitiatorAgreement` | src/securesync/infrastructure/networking/handshake_v3.py:277-374 | a confirmed initiator whose peer has an honest identity has a partner exchange of that device that recorded its session over the same messages, secret and swapped keys |
| `HandshakeRuns.RejectionIsAuthentic` | src/securesync/infrastructure/networking/handshake_v3.py:563-590 | a rejection the initiator believes was sent by the honest device behind the reply, whose exchange failed without recording a session, over exactly the message 3 this initiator sent |
| `HandshakeRuns.ResponderAgreement` | src/securesync/infrastructure/networking/handshake_v3.py:425-552 | a session recorded for an honest identity was confirmed by that device's own exchange over the same messages and secret |
| `HandshakeRuns.AgreementInjective` | src/securesync/infrastructure/networking/handshake_v3.py:277-552 | no responder exchange is the partner of two initiators |
| `HandshakeRuns.Agreement` | src/securesync/infrastructure/networking/handshake_v3.py:277-552 | agreement, stated for every run from an idle network |
| `HandshakeRuns.HonestRunCompletes` | src/securesync/infrastructure/networking/handshake_v3.py:277-552 | in any world of any run two devices that can meet complete the handshake as soon as the adversary's network delivers their messages: each is deliverable, the session is recorded and the initiator confirms |
| `HandshakeDiscipline.HalfOpenStaysExact` | src/securesync/infrastructure/networking/handshake_v3.py:697-717 | every step keeps the half-open count equal to the responder exchanges in flight, so it returns to zero |
| `HandshakeDiscipline.HalfOpenAlwaysBounded` | src/securesync/infrastructure/networking/handshake_v3.py:697-717 | in every run the count is exact and within each device's maximum |
| `HandshakeDiscipline.PinsWrittenOnlyAfterVerification` | src/securesync/infrastructure/networking/handshake_v3.py:522-552 | the trust store changes only when an initiator confirms or a responder has verified signature and MAC of message 3; then exactly one pin is written |
| `HandshakeDiscipline.ConfirmedPeerIsPinned` | src/securesync/infrastructure/networking/handshake_v3.py:361-362 | an initiator that confirms has its peer's key pinned for its peer's id, and every other pin of every device is as it was |
| `HandshakeDiscipline.RecordedPeerIsPinned` | src/securesync/infrastructure/networking/handshake_v3.py:522-545 | so has a responder that records a session |
| `HandshakeDiscipline.FailedInitiatorWroteNothing` | src/securesync/infrastructure/networking/handshake_v3.py:315-362 | an initiator exchange that ever wrote a pin is confirmed for good, so one that ends failed wrote none |
| `HandshakeDiscipline.TerminalStays` | src/securesync/infrastructure/networking/handshake_v3.py:267-275 | confirmed and failed are final |
| `HandshakeDiscipline.PinReplaced` | src/securesync/infrastructure/networking/handshake_v3.py:315-362 | a pin is replaced only by an initiator that confirms with a key it looked up before another exchange wrote the pin |
| `HandshakeDiscipline.PinReplacedExactly` | src/securesync/infrastructure/networking/handshake_v3.py:315-362 | an existing pin changes exactly when an initiator of that device, waiting for message 4 from that id, receives an accept that verifies and its peer's key is not the one pinned by then |
| `HandshakeDiscipline.PinsNeverChange` | src/securesync/infrastructure/networking/handshake_v3.py:315-362 | while a device's exchanges do not overlap, a pinned key never changes |
| `HandshakeDiscipline.OverlapReplacesPin` | src/securesync/infrastructure/networking/handshake_v3.py:341-362 | with two overlapping initiator exchanges the second confirmation overwrites the pin of the first |
| `HandshakeDiscipline.OverlapIsReachable` | src/securesync/infrastructure/networking/handshake_v3.py:277-362 | that overlap is reachable from a device that has pinned nobody |
| `HandshakeDiscipline.ResponderOverlapReplacesPin` | src/securesync/infrastructure/networking/handshake_v3.py:315-362 | an initiator exchange overlapping one responder exchange suffices: a five-step run from an empty trust store pins one key and then replaces it |
| `VersionVectors.MergeVectors` | src/securesync/domain/conflict.py:32-37 | the merging loop computes the pointwise maximum |
| `VersionVectors.LessOrEqual` | src/securesync/domain/conflict.py:43-48 | the comparing loop with its early exit decides the pointwise order |
| `VersionVectors.LeIsPartialOrder` | src/securesync/domain/conflict.py:43-48 | on canonical vectors the comparison is a partial order |
| `VersionVectors.MergeIsJoin` | src/securesync/domain/conflict.py:32-37 | on canonical vectors the merge is the least upper bound |
| `VersionVectors.MergeIsUpperBound` | src/securesync/domain/conflict.py:32-37 | on all vectors the merge lies above both, and what lies above it lies above both |
| `VersionVectors.MergeIsLeastExactly` | src/securesync/domain/conflict.py:32-37 | it is the least such exactly when the second vector stores no negative counter the first lacks |
| `VersionVectors.MergeCommutesExactly` | src/securesync/domain/conflict.py:32-37 | merging commutes, as vectors, exactly when no counter stored on one side only is negative |
| `VersionVectors.MergeIsIdempotent` | src/securesync/domain/conflict.py:32-37 | merging a vector with itself changes nothing, for all vectors |
| `VersionVectors.MergeAssociatesExactly` | src/securesync/domain/conflict.py:32-37 | merging associates exactly when no counter missing in the middle is negative on both sides |
| `VersionVectors.IncrementIsInflationary` | src/securesync/domain/conflict.py:26-30 | on all vectors incrementing adds exactly one for its device and nothing for the others, goes strictly up, and keeps canonical vectors canonical |
| `VersionVectors.NotAnOrderInGeneral` | src/securesync/domain/conflict.py:43-52 | inputs: a stored zero or negative counter breaks antisymmetry, a negative counter breaks transitivity |
| `VersionVectors.TransitiveExactly` | src/securesync/domain/conflict.py:43-52 | the comparison is transitive below a vector exactly when that vector stores no negative counter |
| `VersionVectors.MutualOrderExactly` | src/securesync/domain/conflict.py:43-52 | for all vectors, two are below each other exactly when shared counters agree and none stored on one side only is positive; each strictly precedes the other exactly when, besides, their key sets differ |
| `SyncDirection.MirrorExactly` | src/securesync/domain/sync_direction.py:91-143 | with versions on both sides, swapping the peers mirrors the decision exactly unless shared counters agree, none stored on one side only is positive and the key sets differ; then both pull |
| `SyncDirection.DecisionsMirror` | src/securesync/domain/sync_direction.py:91-143 | on canonical vectors two peers never both push and never both pull |
| `SyncDirection.BothPullOnStoredZeros` | src/securesync/domain/sync_direction.py:115-126 | with a stored zero both peers pull |
| `SyncDirection.ConflictExactly` | src/securesync/domain/sync_direction.py:91-200 | CONFLICT arises exactly when both versions are known, neither strictly precedes the other and each side holds a digest the other lacks |
| `SyncDirection.PullExactly` | src/securesync/domain/sync_direction.py:66-200 | PULL arises exactly when the local version is older, or the remote one is not older and the remote side alone holds a digest the other lacks |
| `SyncDirection.PushExactly` | src/securesync/domain/sync_direction.py:66-200 | PUSH arises for a peer that knows nothing of the file exactly when there is a chunk; without both versions exactly when the local side holds a digest the other lacks; else exactly when the remote version is older, or the local one is not and the local side alone holds more |
| `SyncDirection.NoopExactly` | src/securesync/domain/sync_direction.py:66-200 | NOOP arises exactly when neither version is older and neither side holds more, or, for a peer that knows nothing of the file, when there is no chunk |
| `SyncDirection.ConcurrentMayPush` | src/securesync/domain/sync_direction.py:127-143 | concurrent versions alone do not make a conflict, contrary to the module's description |
| `RateLimits.GlobalHandshakeLimiter.constructor` | src/securesync/infrastructure/networking/handshake_rate_limit.py:132-140 | the bucket starts full |
| `RateLimits.GlobalHandshakeLimiter.RefillNow` | src/securesync/infrastructure/networking/handshake_rate_limit.py:148-152 | refills by elapsed time up to the burst; a clock step backwards adds nothing |
| `RateLimits.GlobalHandshakeLimiter.Tokens` | src/securesync/infrastructure/networking/handshake_rate_limit.py:142-146 | reports the refilled count |
| `RateLimits.GlobalHandshakeLimiter.AllowNow` | src/securesync/infrastructure/networking/handshake_rate_limit.py:154-164 | admits exactly when a whole token is there and takes it |
| `RateLimits.TokensInRange` | src/securesync/infrastructure/networking/handshake_rate_limit.py:148-164 | tokens stay between zero and the burst |
| `RateLimits.RateHoldsOverEveryInterval` | src/securesync/infrastructure/networking/handshake_rate_limit.py:148-164 | between any two times at most burst + rate times the elapsed time are admitted, whatever happened before |
| `RateLimits.LooksAreInvisible` | src/securesync/infrastructure/networking/handshake_rate_limit.py:142-164 | reading the token count never changes a later decision |
| `Admission.RefusedExactly` | src/securesync/infrastructure/networking/handshake_rate_limit.py:148-164 | over any calls under a clock that does not run backwards a request is refused exactly when, from the start with its tokens or from a full bucket at some earlier call or now, what was there, plus the rate times the time since, less what was admitted since, is below one |
| `Admission.SpacedRequestsPass` | src/securesync/infrastructure/networking/handshake_rate_limit.py:148-164 | with a burst of at least one, a request at least 1/rate after the call before it is always admitted |
| `Admission.CountIsAdmitted` | src/securesync/infrastructure/networking/handshake_rate_limit.py:148-164 | the admissions counted there are those the upper bound counts |
| `RateLimits.SourceIpRateLimiter.constructor` | src/securesync/infrastructure/networking/handshake_rate_limit.py:36-59 | no attempt is recorded at the start |
| `RateLimits.SourceIpRateLimiter.AllowFrom` | src/securesync/infrastructure/networking/handshake_rate_limit.py:61-80 | drops aged attempts, then records and admits or refuses without recording; other sources are untouched |
| `RateLimits.SourceIpRateLimiter.Reset` | src/securesync/infrastructure/networking/handshake_rate_limit.py:82-87 | forgets one source or all |
| `RateLimits.SourceIpRateLimiter.Prune` | src/securesync/infrastructure/networking/handshake_rate_limit.py:89-99 | drops exactly the sources with no attempt in the window and returns how many |
| `RateLimits.PruningKeepsExactly` | src/securesync/infrastructure/networking/handshake_rate_limit.py:89-99 | a source is kept, with its whole list, exactly when some attempt of it is later than one window ago |
| `RateLimits.ForgettingIsInvisible` | src/securesync/infrastructure/networking/handshake_rate_limit.py:61-99 | ageing out and pruning never change a decision: the limiter decides as one that remembers every attempt |
| `RateLimits.AdmitsAreRecorded` | src/securesync/infrastructure/networking/handshake_rate_limit.py:61-99 | what the limiter admits is exactly what a limiter that remembers every attempt would record |
| `RateLimits.WindowHoldsEverywhere` | src/securesync/infrastructure/networking/handshake_rate_limit.py:61-80 | any half-open interval of window length contains at most the maximum of admitted attempts |
| `RateLimits.SourceLimitHolds` | src/securesync/infrastructure/networking/handshake_rate_limit.py:61-99 | while the clock does not run backwards, any half-open interval of window length sees at most the maximum of what the limiter admits |
| `Admission.SourceAdmitsExactly` | src/securesync/infrastructure/networking/handshake_rate_limit.py:61-80 | while the clock does not run backwards an attempt is admitted exactly when fewer than the maximum were admitted in the window that ends with it; a sweep admits nothing |
| `RateLimits.BackwardStepExactly` | src/securesync/infrastructure/networking/handshake_rate_limit.py:36-80 | the limiter reads the wall clock: on calls that end in a clock step the limit holds exactly when that step is not backwards, however small it is |
| `Debounce.EventDebouncer.constructor` | src/securesync/infrastructure/filesystem/debounce.py:38-55 | nothing has been emitted yet |
| `Debounce.EventDebouncer.ShouldEmitNow` | src/securesync/infrastructure/filesystem/debounce.py:62-88 | decides as the unbounded map of last emission times would; with a nonzero window keeps no entry a window old |
| `Debounce.EventDebouncer.EvictStale` | src/securesync/infrastructure/filesystem/debounce.py:90-102 | eviction from the front changes no later answer and leaves only young entries |
| `Debounce.EventDebouncer.Reset` | src/securesync/infrastructure/filesystem/debounce.py:104-107 | forgets every emission |
| `Debounce.EmissionsAreSpaced` | src/securesync/infrastructure/filesystem/debounce.py:62-88 | two emissions of one key are at least a window apart |
| `Debounce.SuppressedExactly` | src/securesync/infrastructure/filesystem/debounce.py:62-88 | an event is suppressed exactly when its key was emitted less than a window before |
| `Chunking.FixedSizeMeetsContract` | src/securesync/infrastructure/chunking/streaming_chunk_reader.py:81-87 | the fixed-size strategy meets the port's contract |
| `Chunking.ReadFull` | src/securesync/infrastructure/chunking/streaming_chunk_reader.py:154-178 | fills the buffer through any pattern of short reads and stops early only at the end of the file |
| `Chunking.Cut` | src/securesync/infrastructure/chunking/streaming_chunk_reader.py:129-151 | one question to the strategy cuts off at most one chunk and loses no byte |
| `Chunking.Turn` | src/securesync/infrastructure/chunking/streaming_chunk_reader.py:125-151 | one turn of the loop makes progress, and with the fixed-size strategy holds less than two chunks |
| `Chunking.StreamChunks` | src/securesync/infrastructure/chunking/streaming_chunk_reader.py:112-151 | for every strategy the chunks tile a prefix of the file; under the port's contract they tile the whole file; the fixed-size strategy yields the simple split and never holds 2s bytes, for every block size and pattern of short reads; the loop ends |
| `Chunking.SplitPiece` | src/securesync/infrastructure/chunking/streaming_chunk_reader.py:81-87 | piece k of the simple split is content[k*s .. min((k+1)*s, n)] |
| `Chunking.SplitTiles` | src/securesync/domain/chunking.py:42-66 | the simple split tiles the file |
| `Chunking.BuildManifest` | src/securesync/application/use_cases/calculate_chunk_hashes.py:81-97 | a manifest is built exactly when the chunk size is positive and indices are consecutive; entry i then has chunk i's offset, size and digest, and the collection invariant holds |
| `Chunking.ManifestsAreWellFormed` | src/securesync/domain/chunk.py:217-241 | any chunks that tile a file give a well-formed collection whose sizes add up to the file |
| `PushSpec.WriteAt` | src/securesync/infrastructure/chunking/local_file_reconstructor.py:28-46 | bytes under the chunk are the chunk's, others keep their value, a gap past the end becomes zeros, and nothing is truncated |
| `PushReceiver.Reconstructor.BeginPartial` | src/securesync/infrastructure/chunking/local_file_reconstructor.py:54-83 | a new temporary file seeded with the destination's bytes; the destination is untouched |
| `PushReceiver.Reconstructor.WriteChunkAtOffset` | src/securesync/infrastructure/chunking/local_file_reconstructor.py:28-46 | writes into that one file |
| `PushReceiver.Reconstructor.CommitPartial` | src/securesync/infrastructure/chunking/local_file_reconstructor.py:85-102 | the destination becomes the partial in one step |
| `PushReceiver.Reconstructor.AbortPartial` | src/securesync/infrastructure/chunking/local_file_reconstructor.py:104-116 | removes the partial, if there is one, and nothing else |
| `PushReceiver.Receiver.HandlePush` | src/securesync/application/use_cases/receive_pushed_files.py:213-257 | one message does what the specification says to files, partials and versions: rejects without change, stores, or commits |
| `PushRuns.RefusedExactly` | src/securesync/application/use_cases/receive_pushed_files.py:213-288 | a push is refused exactly for an unresolvable path, a total, size or offset out of bounds, a digest that is missing or wrong, or a new assembly beyond the cap, and then changes nothing |
| `PushReceiver.Receiver.AddChunk` | src/securesync/application/use_cases/receive_pushed_files.py:230-248 | starts or continues the assembly, writes the chunk, notes index and merged version |
| `PushReceiver.Receiver.Finalize` | src/securesync/application/use_cases/receive_pushed_files.py:302-326 | commits the partial and records the merged or incremented version |
| `PushReceiver.Receiver.AbortExpiredPartials` | src/securesync/application/use_cases/receive_pushed_files.py:334-349 | drops exactly the stalled assemblies |
| `PushReceiver.Receiver.AbortAllPartials` | src/securesync/application/use_cases/receive_pushed_files.py:351-360 | drops every assembly and touches no file |
| `PushRuns.ActivityIsLastPush` | src/securesync/application/use_cases/receive_pushed_files.py:239 | in every run an assembly's activity is the time of its last verified push |
| `PushRuns.SweepDropsExactly` | src/securesync/application/use_cases/receive_pushed_files.py:334-349 | in every run a sweep drops an assembly exactly when its last verified push is longer ago than the timeout, and touches no file, version or other assembly |
| `PushRuns.StopDropsAll` | src/securesync/application/use_cases/receive_pushed_files.py:351-360 | a shutdown drops every assembly and no file or version |
| `PushTransfer.PlanUpload` | src/securesync/application/use_cases/sync_file.py:174-194 | sends, in file order, exactly the chunks whose digest the peer lacks, and announces the number of distinct digests |
| `PushTransfer.CountReachedExactly` | src/securesync/application/use_cases/sync_file.py:176-192 | with distinct digests the announced count is reached exactly when every sent chunk has arrived |
| `PushTransfer.SharedDigestSparesOne` | src/securesync/application/use_cases/sync_file.py:176-192 | with a shared digest the count is reached with a chunk still missing |
| `PushTransfer.BlendIsFileExactly` | src/securesync/infrastructure/chunking/local_file_reconstructor.py:28-46 | an assembly equals the sender's file exactly when the old file is no longer, something reaches the new end, and every uncovered byte was already right |
| `PushTransfer.PushCommits` | src/securesync/application/use_cases/receive_pushed_files.py:230-257 | for every order of arrival with duplicates: no file changes before the announced count is reached, that chunk commits, and the result is the sender's file exactly when the old file agrees with it wherever no chunk has arrived; it then stays through late duplicates |
| `PushTransfer.EveryOrderYieldsExactly` | src/securesync/application/use_cases/receive_pushed_files.py:230-257 | what a sender can check beforehand: every order of arrival commits the sender's file exactly when the old file agrees with it outside every choice of as many sent chunks as there are distinct digests |
| `PushTransfer.CountedExactlyWhenComplete` | src/securesync/application/use_cases/receive_pushed_files.py:230-257 | with distinct digests the committing chunk is exactly the last missing one |
| `PushTransfer.InPlaceAgrees` | src/securesync/domain/delta.py:128-182 | reused chunks at the same offset and an old file no longer than the new one suffice for agreement |
| `PushTransfer.PushReassembles` | src/securesync/application/use_cases/sync_file.py:163-195 | under those conditions every order of arrival commits precisely with the last missing chunk and yields the sender's bytes |
| `PushTransfer.SharedDigestCommitsEarly` | src/securesync/application/use_cases/sync_file.py:176-192 | a valid transfer with two equal chunks: a truncated file is committed before the third chunk arrives |
| `PushTransfer.LongerOldFileStays` | src/securesync/infrastructure/chunking/local_file_reconstructor.py:28-46 | every commit over a longer old file has the old length and the old tail behind the new content |
| `PushTransfer.MovedChunkIsMissed` | src/securesync/domain/delta.py:128-167 | the receiver run on [7, 8] to [8, 9] with [8] reused commits [7, 9] |
| `PushTransfer.ReusedPlacesKeepOldBytes` | src/securesync/domain/delta.py:128-167 | wherever a chunk is reused, every commit holds what the old file held at that place |
| `PullTransfer.ApplyPull` | src/securesync/application/use_cases/sync_file.py:240-250 | every chunk that arrives is written at its offset into the local file, and counted |
| `PullTransfer.PulledExactly` | src/securesync/application/use_cases/sync_file.py:238-250 | in any order with duplicates the local file becomes the peer's exactly when it agreed wherever nothing arrived |
| `PullTransfer.PullReassembles` | src/securesync/application/use_cases/sync_file.py:232-250 | with reused chunks in place and no longer local file a pull yields the peer's file, shared digests or not |
| `PushRuns.AssemblyIsReplay` | src/securesync/application/use_cases/receive_pushed_files.py:230-257 | in every run an assembly holds exactly the verified pushes of its path since it began, over the file as it was then |
| `PushRuns.FilesChangeOnlyWhenComplete` | src/securesync/application/use_cases/receive_pushed_files.py:213-257 | a file changes only in a step that completes at least the announced number of distinct verified chunks, only at that push's destination, and to exactly those chunks over the old file |
| `PushRuns.CommitsExactly` | src/securesync/application/use_cases/receive_pushed_files.py:230-257 | in every run a push commits exactly when it is verified, not refused for lack of room, and brings the distinct verified chunks of its assembly to the announced number |
| `PushRuns.CommittedFileExactly` | src/securesync/application/use_cases/receive_pushed_files.py:213-257 | whatever else arrives, is swept or dropped: a file committed from one sender's chunks is the sender's exactly when the file it began from agrees wherever no chunk was carried |
| `PushRuns.CommitsWithLastChunk` | src/securesync/application/use_cases/receive_pushed_files.py:230-257 | with distinct digests a push commits exactly with the chunk that completes what was sent, in the midst of any other traffic |
| `PushRuns.PushReassemblesAmongOthers` | src/securesync/application/use_cases/sync_file.py:163-195 | in the midst of any other traffic, the destination changes exactly with the last missing chunk, and becomes the sender's file |
| `PushRuns.EveryByteAccountedFor` | src/securesync/application/use_cases/receive_pushed_files.py:230-242 | every byte of an assembly was put there by the last verified push covering it, or was the seed's, or is a zero in a gap |
| `PushRuns.AssembliesBounded` | src/securesync/application/use_cases/receive_pushed_files.py:230-238 | the number of assemblies never exceeds its cap |
| `PushRuns.AssemblySizeBounded` | src/securesync/application/use_cases/receive_pushed_files.py:280-288 | an assembly is no longer than the file it began from or the size limit |
| `PushRuns.FilesBounded` | src/securesync/application/use_cases/receive_pushed_files.py:280-288 | no run makes any file longer than the limit unless one was longer at the start |
| `PushRuns.VersionsOnlyRise` | src/securesync/application/use_cases/receive_pushed_files.py:302-326 | between any two points of a run the version recorded for a path never falls and never loses a counter, for all vectors |
| `PushRuns.CommittedVersionDominates` | src/securesync/application/use_cases/receive_pushed_files.py:243-248 | what a commit records lies above every version the assembled chunks carried |
| `PushVersions.CommittedVersionExactly` | src/securesync/application/use_cases/receive_pushed_files.py:302-326 | over whole runs, when some assembled chunk carried a version the recorded vector has exactly the devices of the carried and the formerly recorded vectors, each with the largest counter among them |
| `PushVersions.SenderAheadIsRecorded` | src/securesync/application/use_cases/receive_pushed_files.py:302-326 | a one-chunk push from a sender that has seen the recorded version leaves exactly the sender's version, so it is not pushed back |
| `PushRuns.SilentCommitCounts` | src/securesync/application/use_cases/receive_pushed_files.py:307-315 | when no chunk carried a version, the own counter goes up by exactly one and no other moves |

## Left out

- Real cryptography: AES-GCM, X25519, Ed25519, SHA-256, HMAC and HKDF are parameters or symbolic terms; the low-order and all-zero checks are a parameter of the codec.
- Sockets, servers, timeouts and deadlines: a handshake exchange that times out is an abort step, and a delivery is any message at any time; connection counters and the rate limiter's place in `accept` are not modelled.
- msgpack and CRC: the payload codec is an abstract pair of which only the round trip is required.
- UTF-8 and Unicode rules for device ids: a validity predicate given to the codec; ids are byte strings or opaque names.
- Role values other than initiator and responder: a session's role is one of the two, so the direction helpers' error for other integers does not arise.
- Constructor argument checks (window sizes, rates, burst, attempt limits): the values the program refuses with an exception are preconditions of the constructors.
- Floating point: times, tokens and rates are reals; NaN, infinities and rounding are not modelled.
- Clocks: every time is an argument. The token bucket and the debouncer read a monotonic clock, and their results assume one; resetting a source of the per-source limiter is modelled but not part of its runs.
- Path resolution and symlinks: a function from a relative path to a destination or a refusal; two paths may share a destination.
- Temporary file names: numbers that never clash with destinations or with each other; directory creation, I/O errors and durability are left out.
- PushRuns.VersionsOnlyRise: covers what the receiver records; other writers of the metadata repository are not modelled.
- PushTransfer.PushReassembles: the transfer's own messages only; pushes of other paths, sweeps and shutdowns are covered by PushRuns.PushReassemblesAmongOthers.
- HandshakeDiscipline.PinReplacedExactly: takes a responder's lookup and its pin as one step. The repositories of the program never suspend between the two; with one that does, two responder exchanges could replace a pin too.
- HandshakeSpec.HonestExchangeCompletes: on symbolic terms; that honest devices' fields pass the codec's checks is the validity assumed there.
- A file that changes between building its manifest and streaming its chunks: both see one content.
- Choosing what to sync (`sync` and the orchestrator loop), saving baselines, and the derived counts of a delta plan: sequencing and sums over parts that are modelled.
- Pulled chunks are written as they arrive, without comparing digests; a peer that serves other bytes than its manifest names is not modelled.
- Short authentication strings and the word list, the older X25519 handshake, and the in-process transport: superseded, or a lookup in data.
- Logging, metrics, configuration, discovery, file watching and the command line.
