/** The handshake's two state machines over symbolic terms.

    A hash, signature, MAC or derived key is the term that names what it was computed from. That is the
    usual idealization of these primitives. Transcripts shows how far the byte strings behind two
    different terms really differ. */
module HandshakeSpec {
  import opened Results
  import opened Frames

  /** An ephemeral X25519 secret: one per honest exchange, or one the adversary holds. Public keys
      are named by their secret. */
  datatype Secret = Honest(exchange: nat) | Adversary(n: nat)

  /** A long-term identity key pair, named by its public key. */
  datatype IdKey = DeviceKey(device: nat) | AdversaryKey(n: nat)

  /** The fields of HELLO and of the REPLY body. */
  datatype Intro = Intro(
    eph: Secret, nonce: nat, deviceId: string, idKey: IdKey, transferPort: int, manifestPort: int)

  /** `Garbage` is anything no decoder accepts. */
  datatype Message =
    | Hello(intro: Intro)
    | Reply(body: Intro, sigR: Sig, macR: Mac)
    | Confirm(sigI: Sig, macI: Mac)
    | Final(accept: bool, macF: Mac)
    | Garbage(n: nat)

  datatype Part = SigPart(sig: Sig) | MacPart(mac: Mac) | MessagePart(message: Message) | AcceptLabel | RejectLabel

  /** A transcript hash over its predecessor and one or two length-prefixed parts. */
  datatype Digest =
    | First(m1: Intro, m2body: Intro)
    | One(prev: Digest, part: Part)
    | Two(prev: Digest, part: Part, tag: Part)

  datatype SignedText = ResponderSigned(t2: Digest) | InitiatorSigned(t2s: Digest)
  datatype Sig = Signature(key: IdKey, text: SignedText) | BadSig(n: nat)

  datatype Shared = Shared(halves: multiset<Secret>)
  datatype Master = Master(shared: Shared, nI: nat, nR: nat, t2: Digest)
  datatype MacKey = Kr(master: Master) | Ki(master: Master)
  datatype Mac = Authenticator(key: MacKey, over: Digest) | BadMac(n: nat)
  datatype SessionKey = I2r(master: Master, idI: string, idR: string, eI: Secret, eR: Secret)
                      | R2i(master: Master, idI: string, idR: string, eI: Secret, eR: Secret)

  function Dh(own: Secret, peer: Secret): Shared {
    Shared(multiset{own, peer})
  }

  // ----- transcripts and keys -----

  function T2(m1: Intro, body: Intro): Digest { First(m1, body) }
  function T2s(t2: Digest, sigR: Sig): Digest { One(t2, SigPart(sigR)) }
  function T3(t2s: Digest, macR: Mac): Digest { One(t2s, MacPart(macR)) }
  function T3s(t3: Digest, sigI: Sig): Digest { One(t3, SigPart(sigI)) }
  function TFinal(t3s: Digest, macI: Mac): Digest { One(t3s, MacPart(macI)) }
  function M4Accept(tFinal: Digest): Digest { One(tFinal, AcceptLabel) }
  function M4Reject(t2s: Digest, m3: Message): Digest { Two(t2s, MessagePart(m3), RejectLabel) }

  function MasterOf(shared: Shared, m1: Intro, body: Intro): Master {
    Master(shared, m1.nonce, body.nonce, T2(m1, body))
  }

  /** What a completed handshake hands to the session store. The session id is derived from the master secret. */
  datatype Outcome = Outcome(
    peerId: string, master: Master, role: Role, sendKey: SessionKey, receiveKey: SessionKey,
    peerTransferPort: int, peerManifestPort: int)

  function OutcomeFor(role: Role, master: Master, m1: Intro, body: Intro): Outcome {
    var i2r := I2r(master, m1.deviceId, body.deviceId, m1.eph, body.eph);
    var r2i := R2i(master, m1.deviceId, body.deviceId, m1.eph, body.eph);
    if role.Initiator? then Outcome(body.deviceId, master, role, i2r, r2i, body.transferPort, body.manifestPort)
    else Outcome(m1.deviceId, master, role, r2i, i2r, m1.transferPort, m1.manifestPort)
  }

  // ----- devices -----

  datatype Device = Device(index: nat, id: string, transferPort: int, manifestPort: int, maxHalfOpen: int) {
    function Key(): IdKey { DeviceKey(index) }

    function Introduce(eph: Secret, nonce: nat): Intro {
      Intro(eph, nonce, id, Key(), transferPort, manifestPort)
    }
  }

  type TrustStore = map<string, IdKey>

  function Pinned(trust: TrustStore, id: string): Option<IdKey> {
    if id in trust then Some(trust[id]) else None
  }

  datatype Failure =
    | Undecodable | ClaimsOurIdentity | BadSignature | IdentityMismatch | BadKeyConfirmation
    | Rejected | RejectionUnverified | Busy | HookFailed

  predicate IsSelf(d: Device, peer: Intro) {
    peer.deviceId == d.id || peer.idKey == d.Key()
  }

  predicate PinConflicts(pin: Option<IdKey>, key: IdKey) {
    pin.Some? && pin.value != key
  }

  // ----- initiator -----

  /** Message 3, as the initiator computes it from a verified reply. */
  function ConfirmFor(d: Device, eph: Secret, m1: Intro, r: Message): Message
    requires r.Reply?
  {
    var t2s := T2s(T2(m1, r.body), r.sigR);
    var sigI := Signature(d.Key(), InitiatorSigned(t2s));
    Confirm(sigI, Authenticator(Ki(MasterOf(Dh(eph, r.body.eph), m1, r.body)), T3s(T3(t2s, r.macR), sigI)))
  }

  function OnReply(d: Device, eph: Secret, m1: Intro, pin: Option<IdKey>, r: Message): Result<Message, Failure> {
    if !r.Reply? then Err(Undecodable)
    else if IsSelf(d, r.body) then Err(ClaimsOurIdentity)
    else if r.sigR != Signature(r.body.idKey, ResponderSigned(T2(m1, r.body))) then Err(BadSignature)
    else if PinConflicts(pin, r.body.idKey) then Err(IdentityMismatch)
    else if r.macR != Authenticator(Kr(MasterOf(Dh(eph, r.body.eph), m1, r.body)), T2s(T2(m1, r.body), r.sigR))
    then Err(BadKeyConfirmation)
    else Ok(ConfirmFor(d, eph, m1, r))
  }

  /** The transcript after message 3. */
  function TFinalFor(m1: Intro, r: Message, m3: Message): Digest
    requires r.Reply? && m3.Confirm?
  {
    TFinal(T3s(T3(T2s(T2(m1, r.body), r.sigR), r.macR), m3.sigI), m3.macI)
  }

  function OnFinal(d: Device, eph: Secret, m1: Intro, r: Message, m4: Message): Result<Outcome, Failure>
    requires r.Reply?
  {
    var master := MasterOf(Dh(eph, r.body.eph), m1, r.body);
    var m3 := ConfirmFor(d, eph, m1, r);
    if !m4.Final? then Err(RejectionUnverified)
    else if !m4.accept then
      if m4.macF == Authenticator(Kr(master), M4Reject(T2s(T2(m1, r.body), r.sigR), m3))
      then Err(Rejected) else Err(RejectionUnverified)
    else if m4.macF != Authenticator(Kr(master), M4Accept(TFinalFor(m1, r, m3))) then Err(BadKeyConfirmation)
    else Ok(OutcomeFor(Initiator, master, m1, r.body))
  }

  // ----- responder -----

  function ReplyFor(d: Device, eph: Secret, nonce: nat, m1: Intro): Message {
    var body := d.Introduce(eph, nonce);
    var t2 := T2(m1, body);
    var sigR := Signature(d.Key(), ResponderSigned(t2));
    Reply(body, sigR, Authenticator(Kr(MasterOf(Dh(eph, m1.eph), m1, body)), T2s(t2, sigR)))
  }

  function OnHello(d: Device, eph: Secret, nonce: nat, halfOpen: int, m: Message): Result<Message, Failure> {
    if !m.Hello? then Err(Undecodable)
    else if IsSelf(d, m.intro) then Err(ClaimsOurIdentity)
    else if halfOpen >= d.maxHalfOpen then Err(Busy)
    else Ok(ReplyFor(d, eph, nonce, m.intro))
  }

  /** Verifying message 3, up to the point where the pin is written. */
  function OnConfirm(d: Device, eph: Secret, m1: Intro, r: Message, pin: Option<IdKey>, m3: Message)
    : Result<Outcome, Failure>
    requires r.Reply?
  {
    var master := MasterOf(Dh(eph, m1.eph), m1, r.body);
    var t2s := T2s(T2(m1, r.body), r.sigR);
    if !m3.Confirm? then Err(Undecodable)
    else if m3.sigI != Signature(m1.idKey, InitiatorSigned(t2s)) then Err(BadSignature)
    else if PinConflicts(pin, m1.idKey) then Err(IdentityMismatch)
    else if m3.macI != Authenticator(Ki(master), T3s(T3(t2s, r.macR), m3.sigI)) then Err(BadKeyConfirmation)
    else Ok(OutcomeFor(Responder, master, m1, r.body))
  }

  function AcceptFor(eph: Secret, m1: Intro, r: Message, m3: Message): Message
    requires r.Reply? && m3.Confirm?
  {
    Final(true, Authenticator(Kr(MasterOf(Dh(eph, m1.eph), m1, r.body)), M4Accept(TFinalFor(m1, r, m3))))
  }

  function RejectFor(eph: Secret, m1: Intro, r: Message, m3: Message): Message
    requires r.Reply?
  {
    Final(false, Authenticator(Kr(MasterOf(Dh(eph, m1.eph), m1, r.body)), M4Reject(T2s(T2(m1, r.body), r.sigR), m3)))
  }

  // ----- two honest machines -----

  /** The four flights between `a` and `b` over a faithful channel; the outcomes of both ends, if both confirm. */
  function FaithfulRun(a: Device, b: Device, x: Secret, y: Secret, nA: nat, nB: nat,
                       trustA: TrustStore, trustB: TrustStore, halfOpenB: int): Option<(Outcome, Outcome)> {
    var m1 := a.Introduce(x, nA);
    var m2 := OnHello(b, y, nB, halfOpenB, Hello(m1));
    if m2.Err? then None
    else
      var m3 := OnReply(a, x, m1, Pinned(trustA, b.id), m2.value);
      if m3.Err? then None
      else
        var atB := OnConfirm(b, y, m1, m2.value, Pinned(trustB, a.id), m3.value);
        if atB.Err? then None
        else
          var atA := OnFinal(a, x, m1, m2.value, AcceptFor(y, m1, m2.value, m3.value));
          if atA.Err? then None else Some((atA.value, atB.value))
  }

  /** The two outcomes of one exchange: `a` initiated and `b` responded, each names the other with its ports,
      and each sends under the key the other receives under. */
  ghost predicate Counterparts(a: Device, b: Device, atA: Outcome, atB: Outcome) {
    && atA.role == Initiator && atB.role == Responder && atA.master == atB.master
    && atA.peerId == b.id && atA.peerTransferPort == b.transferPort && atA.peerManifestPort == b.manifestPort
    && atB.peerId == a.id && atB.peerTransferPort == a.transferPort && atB.peerManifestPort == a.manifestPort
    && atA.sendKey == atB.receiveKey && atA.receiveKey == atB.sendKey && atA.sendKey.I2r? && atB.sendKey.R2i?
  }

  /** Both ends confirm exactly when they are two devices, neither has pinned another key for the other, and
      the responder has a half-open slot; and then their outcomes are each other's counterparts, with keys that
      name both devices and both ephemeral keys. */
  lemma HonestExchangeCompletes(a: Device, b: Device, x: Secret, y: Secret, nA: nat, nB: nat,
                                trustA: TrustStore, trustB: TrustStore, halfOpenB: int)
    ensures var run := FaithfulRun(a, b, x, y, nA, nB, trustA, trustB, halfOpenB);
            && (run.Some? <==>
                && a.id != b.id && a.index != b.index
                && !PinConflicts(Pinned(trustA, b.id), b.Key()) && !PinConflicts(Pinned(trustB, a.id), a.Key())
                && halfOpenB < b.maxHalfOpen)
            && (run.Some? ==>
                var (atA, atB) := run.value;
                && Counterparts(a, b, atA, atB)
                && atA.sendKey == I2r(atA.master, a.id, b.id, x, y) && atB.sendKey == R2i(atA.master, a.id, b.id, x, y))
  {
    assert Dh(x, y) == Dh(y, x);
  }

  /** Neither end deals with a peer that shows its own device id or its own key, whatever else it sends. */
  lemma OwnIdentityIsRefused(d: Device, eph: Secret, nonce: nat, halfOpen: int, m1: Intro, pin: Option<IdKey>,
                             peer: Intro, sigR: Sig, macR: Mac)
    requires peer.deviceId == d.id || peer.idKey == DeviceKey(d.index)
    ensures OnHello(d, eph, nonce, halfOpen, Hello(peer)) == Err(ClaimsOurIdentity)
    ensures OnReply(d, eph, m1, pin, Reply(peer, sigR, macR)) == Err(ClaimsOurIdentity)
  {}

  /** A changed identity key is reported exactly when the message is signed under it and another one is pinned,
      whatever its MAC. */
  lemma MismatchReportedExactly(d: Device, eph: Secret, m1: Intro, r: Message, pin: Option<IdKey>, m3: Message)
    requires r.Reply?
    ensures OnReply(d, eph, m1, pin, r) == Err(IdentityMismatch)
       <==> && r.body.deviceId != d.id && r.body.idKey != DeviceKey(d.index)
            && r.sigR == Signature(r.body.idKey, ResponderSigned(First(m1, r.body)))
            && pin.Some? && pin != Some(r.body.idKey)
    ensures OnConfirm(d, eph, m1, r, pin, m3) == Err(IdentityMismatch)
       <==> && m3.Confirm? && m3.sigI == Signature(m1.idKey, InitiatorSigned(One(First(m1, r.body), SigPart(r.sigR))))
            && pin.Some? && pin != Some(m1.idKey)
  {}

  /** An honest responder's refusal of the message 3 it was sent is believed, and so is its acceptance. */
  lemma AnswersAreBelieved(a: Device, x: Secret, y: Secret, m1: Intro, r: Message)
    requires r.Reply? && m1.eph == x && r.body.eph == y
    ensures OnFinal(a, x, m1, r, RejectFor(y, m1, r, ConfirmFor(a, x, m1, r))) == Err(Rejected)
    ensures OnFinal(a, x, m1, r, AcceptFor(y, m1, r, ConfirmFor(a, x, m1, r))).Ok?
  {
    assert Dh(x, y) == Dh(y, x);
  }
}
