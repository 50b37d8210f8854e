/** The handshake's exchanges as the program drives them: a state field advanced flight by flight.

    Each object is one part of a world of HandshakeRuns, and each method takes every world its object is part
    of through the step of that name. What is proved there of all runs is therefore true of these objects. */
module Handshake {
  import opened Results
  import opened Frames
  import opened HandshakeSpec
  import Runs = HandshakeRuns
  import Discipline = HandshakeDiscipline

  type World = Runs.World

  datatype InitiatorState = Idle | SentHello | SentConfirm | InitiatorConfirmed | InitiatorFailed
  datatype ResponderState = WaitHello | SentReply | SentFinal | ResponderConfirmed | ResponderFailed

  function InitiatorPhase(s: InitiatorState): Runs.IPhase {
    match s
    case Idle => Runs.SentHello
    case SentHello => Runs.SentHello
    case SentConfirm => Runs.SentConfirm
    case InitiatorConfirmed => Runs.InitiatorDone
    case InitiatorFailed => Runs.InitiatorFailed
  }

  function ResponderPhase(s: ResponderState): Runs.RPhase {
    match s
    case WaitHello => Runs.SentReply
    case SentReply => Runs.SentReply
    case SentFinal => Runs.SentFinal
    case ResponderConfirmed => Runs.ResponderDone
    case ResponderFailed => Runs.ResponderFailed
  }

  // ----- what a world says of one device and of one exchange -----

  ghost predicate DeviceIn(w: World, dev: nat, d: Device, trusted: TrustStore, halfOpen: int) {
    && dev in w.devices && w.devices[dev] == d && halfOpen >= 0 && Runs.OpenCount(w, dev) == halfOpen
    && trusted == if dev in w.trust then w.trust[dev] else map[]
  }

  /** A responder exchange that has accepted a hello; `recorded` is what the session hook was called with. */
  ghost predicate RespIn(w: World, e: nat, r: Runs.Resp, recorded: Option<Outcome>) {
    && e in w.resps && e !in w.inits && w.resps[e] == r && r.dev in w.devices && r.recorded == recorded.Some?
    && (recorded.Some? ==>
          recorded.value == OutcomeFor(Responder, Runs.RespMaster(w, e, r), r.m1, Runs.RespReply(w, e, r).body))
  }

  /** One device's handshake configuration, trust store and half-open counter. */
  class HandshakeV3 {
    const device: Device
    var trusted: TrustStore
    var halfOpen: int

    ghost predicate In(w: World, dev: nat)
      reads this
    {
      DeviceIn(w, dev, device, trusted, halfOpen)
    }

    constructor (device: Device, trusted: TrustStore)
      ensures this.device == device && this.trusted == trusted && halfOpen == 0
      ensures forall devices: map<nat, Device>, trust: map<nat, TrustStore>, dev ::
                dev in devices && devices[dev] == device && dev in trust && trust[dev] == trusted
                ==> In(Runs.Start(devices, trust), dev)
    {
      this.device, this.trusted, halfOpen := device, trusted, 0;
    }

    method BeginHalfOpen() returns (ok: bool)
      modifies this`halfOpen
      ensures ok <==> old(halfOpen) < device.maxHalfOpen
      ensures halfOpen == if ok then old(halfOpen) + 1 else old(halfOpen)
    {
      if halfOpen >= device.maxHalfOpen { return false; }
      halfOpen := halfOpen + 1;
      ok := true;
    }

    method EndHalfOpen()
      modifies this`halfOpen
      ensures halfOpen == if old(halfOpen) > 0 then old(halfOpen) - 1 else old(halfOpen)
    {
      if halfOpen > 0 { halfOpen := halfOpen - 1; }
    }
  }

  // ----- initiator -----

  /** What an accept that verifies makes of the device and of the exchange, as the world has it. */
  lemma FinalAccepted(w: World, e: nat, dev: nat, d: Device, trusted: TrustStore, halfOpen: int, m: Message)
    requires DeviceIn(w, dev, d, trusted, halfOpen) && Discipline.AwaitsFinal(w, e) && w.inits[e].dev == dev
    requires Runs.Derivable(w, m) && OnFinal(d, Honest(e), w.inits[e].m1, w.inits[e].reply.value, m).Ok?
    ensures var w', body := Runs.StepFinal(w, e, m), w.inits[e].reply.value.body;
            && DeviceIn(w', dev, d, trusted[body.deviceId := body.idKey], halfOpen)
            && e in w'.inits && w'.inits[e] == w.inits[e].(phase := Runs.InitiatorDone)
  {}

  class InitiatorExchange {
    const owner: HandshakeV3
    const eph: Secret
    const m1: Intro
    var state: InitiatorState
    var reply: Option<Message>
    var pinSeen: Option<IdKey>

    ghost predicate In(w: World, e: nat, dev: nat)
      reads this, owner
    {
      && owner.In(w, dev) && eph == Honest(e) && m1 == owner.device.Introduce(eph, m1.nonce)
      && if state == Idle then Runs.FreshExchange(w, e, dev) && reply == None && pinSeen == None
         else e in w.inits && w.inits[e] == Runs.Init(dev, InitiatorPhase(state), m1, reply, pinSeen)
    }

    constructor (owner: HandshakeV3, eph: Secret, nonce: nat)
      ensures this.owner == owner && this.eph == eph && m1 == owner.device.Introduce(eph, nonce)
      ensures state == Idle && reply == None && pinSeen == None
      ensures forall w, e, dev ::
                owner.In(w, dev) && Runs.FreshExchange(w, e, dev) && eph == Honest(e) ==> In(w, e, dev)
    {
      this.owner, this.eph, m1 := owner, eph, owner.device.Introduce(eph, nonce);
      state, reply, pinSeen := Idle, None, None;
    }

    method SendHello() returns (m: Message)
      requires state == Idle
      modifies this
      ensures m == Hello(m1) && state == SentHello
      ensures forall w, e, dev :: old(In(w, e, dev)) ==> In(Runs.StepInitiate(w, e, dev, m1.nonce), e, dev)
    {
      state := SentHello;
      m := Hello(m1);
    }

    /** Checks message 2 step by step. The pin is looked up here and not written. */
    method ReceiveReply(m: Message) returns (r: Result<Message, Failure>)
      requires state == SentHello
      modifies this
      ensures r == OnReply(owner.device, eph, m1, if m.Reply? then Pinned(owner.trusted, m.body.deviceId) else None, m)
      ensures state == if r.Ok? then SentConfirm else InitiatorFailed
      ensures forall w, e, dev :: old(In(w, e, dev)) && Runs.Derivable(w, m) ==> In(Runs.StepReply(w, e, m), e, dev)
    {
      state := InitiatorFailed;
      if !m.Reply? { return Err(Undecodable); }
      var d := owner.device;
      if m.body.deviceId == d.id || m.body.idKey == d.Key() { return Err(ClaimsOurIdentity); }
      var t2 := T2(m1, m.body);
      if m.sigR != Signature(m.body.idKey, ResponderSigned(t2)) { return Err(BadSignature); }
      var pin := Pinned(owner.trusted, m.body.deviceId);
      if pin.Some? && pin.value != m.body.idKey { return Err(IdentityMismatch); }
      var master := MasterOf(Dh(eph, m.body.eph), m1, m.body);
      var t2s := T2s(t2, m.sigR);
      if m.macR != Authenticator(Kr(master), t2s) { return Err(BadKeyConfirmation); }
      var sigI := Signature(d.Key(), InitiatorSigned(t2s));
      var macI := Authenticator(Ki(master), T3s(T3(t2s, m.macR), sigI));
      state, reply, pinSeen := SentConfirm, Some(m), pin;
      r := Ok(Confirm(sigI, macI));
    }

    /** Message 4 decides: only an accept whose MAC verifies pins the peer and confirms. */
    method ReceiveFinal(m: Message) returns (r: Result<Outcome, Failure>)
      requires state == SentConfirm && reply.Some? && reply.value.Reply?
      modifies this, owner`trusted
      ensures state == (if r.Ok? then InitiatorConfirmed else InitiatorFailed) && reply == old(reply)
      ensures r == OnFinal(owner.device, eph, m1, old(reply.value), m)
      ensures r.Ok? ==> var o, peer := r.value, reply.value.body;
                        && o.role == Initiator && o.peerId == peer.deviceId
                        && o.peerTransferPort == peer.transferPort && o.peerManifestPort == peer.manifestPort
      ensures forall w, e, dev :: old(In(w, e, dev)) && Runs.Derivable(w, m) ==> In(Runs.StepFinal(w, e, m), e, dev)
    {
      state := InitiatorFailed;
      if !m.Final? { return Err(RejectionUnverified); }
      var m2 := reply.value;
      var master := MasterOf(Dh(eph, m2.body.eph), m1, m2.body);
      var m3 := ConfirmFor(owner.device, eph, m1, m2);
      if !m.accept {
        if m.macF != Authenticator(Kr(master), M4Reject(T2s(T2(m1, m2.body), m2.sigR), m3)) {
          return Err(RejectionUnverified);
        }
        return Err(Rejected);
      }
      if m.macF != Authenticator(Kr(master), M4Accept(TFinalFor(m1, m2, m3))) { return Err(BadKeyConfirmation); }
      ghost var trusted := owner.trusted;
      owner.trusted := owner.trusted[m2.body.deviceId := m2.body.idKey];
      state := InitiatorConfirmed;
      r := Ok(OutcomeFor(Initiator, master, m1, m2.body));
      forall w, e, dev | old(In(w, e, dev)) && Runs.Derivable(w, m) ensures In(Runs.StepFinal(w, e, m), e, dev) {
        FinalAccepted(w, e, dev, owner.device, trusted, owner.halfOpen, m);
      }
    }

    /** A deadline, a closed connection or a cancellation while a message is awaited. */
    method Abort()
      requires state in {SentHello, SentConfirm}
      modifies this`state
      ensures state == InitiatorFailed
      ensures forall w, e, dev :: old(In(w, e, dev)) ==> In(Runs.StepAbort(w, e), e, dev)
    {
      state := InitiatorFailed;
    }
  }

  // ----- responder -----

  /** What a message 3 makes of the device, as the world has it. */
  lemma ConfirmAtDevice(w: World, e: nat, dev: nat, d: Device, trusted: TrustStore, halfOpen: int,
                        r: Runs.Resp, m: Message, hookOk: bool)
    requires DeviceIn(w, dev, d, trusted, halfOpen) && RespIn(w, e, r, None) && Runs.Derivable(w, m)
    requires r.dev == dev && r.phase == Runs.SentReply
    ensures var checked := OnConfirm(d, Honest(e), r.m1, ReplyFor(d, Honest(e), r.nonce, r.m1),
                                     Pinned(trusted, r.m1.deviceId), m);
            DeviceIn(Runs.StepConfirm(w, e, m, hookOk), dev, d,
                     if checked.Ok? then trusted[r.m1.deviceId := r.m1.idKey] else trusted,
                     if (checked.Ok? && hookOk) || halfOpen <= 0 then halfOpen else halfOpen - 1)
  {
    assert Pinned(trusted, r.m1.deviceId) == Runs.PinAt(w, dev, r.m1.deviceId);
    Discipline.ConfirmEffects(w, e, m, hookOk);
    var w' := Runs.StepConfirm(w, e, m, hookOk);
    DeviceMoves(w, w', dev, d, trusted, halfOpen, r.m1.deviceId, r.m1.idKey,
                Discipline.Verified(w, e, m), !(Discipline.Verified(w, e, m) && hookOk));
  }

  lemma DeviceMoves(w: World, w': World, dev: nat, d: Device, trusted: TrustStore, halfOpen: int,
                    id: string, key: IdKey, pins: bool, ends: bool)
    requires DeviceIn(w, dev, d, trusted, halfOpen) && w'.devices == w.devices
    requires w'.trust == if pins then Runs.WithPin(w, dev, id, key).trust else w.trust
    requires w'.halfOpen == if ends then Runs.EndHalfOpen(w, dev).halfOpen else w.halfOpen
    ensures DeviceIn(w', dev, d, if pins then trusted[id := key] else trusted,
                     if !ends || halfOpen <= 0 then halfOpen else halfOpen - 1)
  {}

  /** And of the exchange. */
  lemma ConfirmAtExchange(w: World, e: nat, dev: nat, d: Device, trusted: TrustStore, halfOpen: int,
                          r: Runs.Resp, m: Message, hookOk: bool)
    requires DeviceIn(w, dev, d, trusted, halfOpen) && RespIn(w, e, r, None) && Runs.Derivable(w, m)
    requires r.dev == dev && r.phase == Runs.SentReply
    ensures var checked := OnConfirm(d, Honest(e), r.m1, ReplyFor(d, Honest(e), r.nonce, r.m1),
                                     Pinned(trusted, r.m1.deviceId), m);
            var w' := Runs.StepConfirm(w, e, m, hookOk);
            if checked.Ok? && hookOk
            then RespIn(w', e, r.(phase := Runs.SentFinal, m3 := Some(m), recorded := true), Some(checked.value))
            else RespIn(w', e, r.(phase := Runs.ResponderFailed), None)
  {
    assert Pinned(trusted, r.m1.deviceId) == Runs.PinAt(w, dev, r.m1.deviceId);
  }

  class ResponderExchange {
    const owner: HandshakeV3
    const eph: Secret
    const nonce: nat
    var state: ResponderState
    var m1: Option<Intro>
    var m3: Option<Message>
    var recorded: Option<Outcome>   // what the session hook was called with

    ghost predicate In(w: World, e: nat, dev: nat)
      reads this, owner
    {
      && owner.In(w, dev) && eph == Honest(e)
      && if m1.None?
         then Runs.FreshExchange(w, e, dev) && m3 == None && recorded == None && state in {WaitHello, ResponderFailed}
         else state != WaitHello
              && RespIn(w, e, Runs.Resp(dev, ResponderPhase(state), m1.value, nonce, m3, recorded.Some?), recorded)
    }

    constructor (owner: HandshakeV3, eph: Secret, nonce: nat)
      ensures this.owner == owner && this.eph == eph && this.nonce == nonce
      ensures state == WaitHello && m1 == None && m3 == None && recorded == None
      ensures forall w, e, dev ::
                owner.In(w, dev) && Runs.FreshExchange(w, e, dev) && eph == Honest(e) ==> In(w, e, dev)
    {
      this.owner, this.eph, this.nonce := owner, eph, nonce;
      state, m1, m3, recorded := WaitHello, None, None, None;
    }

    /** Takes a half-open slot before any expensive work. */
    method ReceiveHello(m: Message) returns (r: Result<Message, Failure>)
      requires state == WaitHello
      modifies this, owner`halfOpen
      ensures r == OnHello(owner.device, eph, nonce, old(owner.halfOpen), m)
      ensures state == if r.Ok? then SentReply else ResponderFailed
      ensures forall w, e, dev :: old(In(w, e, dev)) ==> In(Runs.StepHello(w, e, dev, nonce, m), e, dev)
    {
      state := ResponderFailed;
      if !m.Hello? { return Err(Undecodable); }
      var d := owner.device;
      if m.intro.deviceId == d.id || m.intro.idKey == d.Key() { return Err(ClaimsOurIdentity); }
      var ok := owner.BeginHalfOpen();
      if !ok { return Err(Busy); }
      var body := d.Introduce(eph, nonce);
      var t2 := T2(m.intro, body);
      var sigR := Signature(d.Key(), ResponderSigned(t2));
      var master := MasterOf(Dh(eph, m.intro.eph), m.intro, body);
      state, m1 := SentReply, Some(m.intro);
      r := Ok(Reply(body, sigR, Authenticator(Kr(master), T2s(t2, sigR))));
    }

    /** Verifies message 3; only then pins, then calls the session hook, then answers. The slot is
        given back at once on failure, and by `Finish` otherwise. */
    method ReceiveConfirm(m: Message, hookOk: bool) returns (r: Result<Outcome, Failure>, answer: Message)
      requires state == SentReply && m1.Some? && recorded == None
      modifies this, owner
      ensures m1 == old(m1)
      ensures var m2 := ReplyFor(owner.device, eph, nonce, m1.value);
              var checked := OnConfirm(owner.device, eph, m1.value, m2,
                                       Pinned(old(owner.trusted), m1.value.deviceId), m);
              && r == (if checked.Ok? && !hookOk then Err(HookFailed) else checked)
              && answer == (if r.Ok? then AcceptFor(eph, m1.value, m2, m) else RejectFor(eph, m1.value, m2, m))
      ensures r.Ok? ==> var o, peer := r.value, m1.value;
                        && recorded == Some(o) && o.role == Responder && o.peerId == peer.deviceId
                        && o.peerTransferPort == peer.transferPort && o.peerManifestPort == peer.manifestPort
      ensures state == if r.Ok? then SentFinal else ResponderFailed
      ensures forall w, e, dev ::
                old(In(w, e, dev)) && Runs.Derivable(w, m) ==> In(Runs.StepConfirm(w, e, m, hookOk), e, dev)
    {
      var m2 := ReplyFor(owner.device, eph, nonce, m1.value);
      ghost var trusted, halfOpen, m3' := owner.trusted, owner.halfOpen, m3;
      r := Verify(m, m2, hookOk);
      if r.Ok? {
        state, m3 := SentFinal, Some(m);
        answer := AcceptFor(eph, m1.value, m2, m);
      } else {
        state := ResponderFailed;
        answer := RejectFor(eph, m1.value, m2, m);
        owner.EndHalfOpen();
      }
      forall w, e, dev | old(In(w, e, dev)) && Runs.Derivable(w, m)
        ensures In(Runs.StepConfirm(w, e, m, hookOk), e, dev)
      {
        var before := Runs.Resp(dev, Runs.SentReply, m1.value, nonce, m3', false);
        ConfirmAtDevice(w, e, dev, owner.device, trusted, halfOpen, before, m, hookOk);
        ConfirmAtExchange(w, e, dev, owner.device, trusted, halfOpen, before, m, hookOk);
      }
    }

    method Verify(m: Message, m2: Message, hookOk: bool) returns (r: Result<Outcome, Failure>)
      requires m1.Some? && m2.Reply?
      modifies this`recorded, owner`trusted
      ensures var checked := OnConfirm(owner.device, eph, m1.value, m2,
                                       Pinned(old(owner.trusted), m1.value.deviceId), m);
              && r == (if checked.Ok? && !hookOk then Err(HookFailed) else checked)
              && owner.trusted == if checked.Ok? then old(owner.trusted)[m1.value.deviceId := m1.value.idKey]
                                  else old(owner.trusted)
      ensures recorded == if r.Ok? then Some(r.value) else old(recorded)
    {
      if !m.Confirm? { return Err(Undecodable); }
      var hello := m1.value;
      var t2s := T2s(T2(hello, m2.body), m2.sigR);
      if m.sigI != Signature(hello.idKey, InitiatorSigned(t2s)) { return Err(BadSignature); }
      var pin := Pinned(owner.trusted, hello.deviceId);
      if pin.Some? && pin.value != hello.idKey { return Err(IdentityMismatch); }
      var master := MasterOf(Dh(eph, hello.eph), hello, m2.body);
      if m.macI != Authenticator(Ki(master), T3s(T3(t2s, m2.macR), m.sigI)) { return Err(BadKeyConfirmation); }
      owner.trusted := owner.trusted[hello.deviceId := hello.idKey];
      if !hookOk { return Err(HookFailed); }
      recorded := Some(OutcomeFor(Responder, master, hello, m2.body));
      r := Ok(OutcomeFor(Responder, master, hello, m2.body));
    }

    /** Message 4 went out, or its write failed; either way the slot is returned. */
    method Finish(sent: bool)
      requires state == SentFinal
      modifies this`state, owner`halfOpen
      ensures state == if sent then ResponderConfirmed else ResponderFailed
      ensures forall w, e, dev :: old(In(w, e, dev)) ==> In(Runs.StepFinish(w, e, sent), e, dev)
    {
      state := if sent then ResponderConfirmed else ResponderFailed;
      owner.EndHalfOpen();
    }

    /** A deadline, a closed connection or a cancellation while message 3 is awaited. */
    method Abort()
      requires state == SentReply
      modifies this`state, owner`halfOpen
      ensures state == ResponderFailed
      ensures forall w, e, dev :: old(In(w, e, dev)) ==> In(Runs.StepAbort(w, e), e, dev)
    {
      state := ResponderFailed;
      owner.EndHalfOpen();
    }
  }

  // ----- several objects in one world -----

  /** A step of another exchange leaves this one where it was, as soon as its device keeps up. */
  lemma OtherInitiatorStays(x: InitiatorExchange, w: World, f: nat, dev: nat, a: Runs.Action)
    requires x.In(w, f, dev) && a.e != f && x.owner.In(Runs.Apply(w, a), dev)
    ensures x.In(Runs.Apply(w, a), f, dev)
  {
    OtherExchangeStays(w, f, a);
  }

  lemma OtherResponderStays(x: ResponderExchange, w: World, f: nat, dev: nat, a: Runs.Action)
    requires x.In(w, f, dev) && a.e != f && x.owner.In(Runs.Apply(w, a), dev)
    ensures x.In(Runs.Apply(w, a), f, dev)
  {
    OtherExchangeStays(w, f, a);
  }

  lemma OtherExchangeStays(w: World, f: nat, a: Runs.Action)
    requires a.e != f
    ensures var w' := Runs.Apply(w, a);
            && (f in w'.inits <==> f in w.inits) && (f in w.inits ==> w'.inits[f] == w.inits[f])
            && (f in w'.resps <==> f in w.resps) && (f in w.resps ==> w'.resps[f] == w.resps[f])
            && w'.devices == w.devices
  {
    if a.Initiate? || a.DeliverReply? || a.DeliverFinal? {
      InitiatorMovesOne(w, a);
    } else {
      ResponderMovesOne(w, a);
    }
  }

  /** Every step changes the record of its own exchange alone. */
  ghost predicate MovesOne(w: World, w': World, e: nat) {
    && w'.devices == w.devices
    && (w'.inits == w.inits || (e in w'.inits && w'.inits == w.inits[e := w'.inits[e]]))
    && (w'.resps == w.resps || (e in w'.resps && w'.resps == w.resps[e := w'.resps[e]]))
  }

  lemma InitiatorMovesOne(w: World, a: Runs.Action)
    requires a.Initiate? || a.DeliverReply? || a.DeliverFinal?
    ensures MovesOne(w, Runs.Apply(w, a), a.e)
  {
    match a
    case DeliverReply(e, m) => Discipline.ReplyFrame(w, e, m);
    case DeliverFinal(e, m) => Discipline.FinalFrame(w, e, m);
    case Initiate(_, _, _) =>
  }

  lemma HelloMovesOne(w: World, e: nat, d: nat, nonce: nat, m: Message)
    ensures MovesOne(w, Runs.StepHello(w, e, d, nonce, m), e)
  {
    Discipline.HelloFrame(w, e, d, nonce, m);
  }

  lemma ConfirmMovesOne(w: World, e: nat, m: Message, hookOk: bool)
    ensures MovesOne(w, Runs.StepConfirm(w, e, m, hookOk), e)
  {
    Discipline.ConfirmFrame(w, e, m, hookOk);
  }

  lemma ResponderMovesOne(w: World, a: Runs.Action)
    requires a.DeliverHello? || a.DeliverConfirm? || a.FinishResponder? || a.Abort?
    ensures MovesOne(w, Runs.Apply(w, a), a.e)
  {
    match a
    case DeliverConfirm(e, m, hookOk) => ConfirmMovesOne(w, e, m, hookOk);
    case DeliverHello(e, d, nonce, m) => HelloMovesOne(w, e, d, nonce, m);
    case FinishResponder(e, sent) => FinishMovesOne(w, e, sent);
    case Abort(e) => AbortMovesOne(w, e);
  }

  lemma FinishMovesOne(w: World, e: nat, sent: bool)
    ensures MovesOne(w, Runs.StepFinish(w, e, sent), e)
  {}

  lemma AbortMovesOne(w: World, e: nat)
    ensures MovesOne(w, Runs.StepAbort(w, e), e)
  {}

  /** And touches the trust store and the counter of its own device alone. */
  lemma OtherDeviceStays(o: HandshakeV3, w: World, dev: nat, a: Runs.Action)
    requires o.In(w, dev) && DeviceOf(w, a) != Some(dev)
    ensures o.In(Runs.Apply(w, a), dev)
  {
    if a.Initiate? || a.DeliverReply? || a.DeliverFinal? {
      InitiatorElsewhere(w, dev, a);
    } else {
      ResponderElsewhere(w, dev, a);
    }
  }

  ghost predicate SameDevice(w: World, w': World, dev: nat) {
    && w'.devices == w.devices && Runs.OpenCount(w', dev) == Runs.OpenCount(w, dev)
    && (dev in w'.trust <==> dev in w.trust) && (dev in w.trust ==> w'.trust[dev] == w.trust[dev])
  }

  lemma InitiatorElsewhere(w: World, dev: nat, a: Runs.Action)
    requires (a.Initiate? || a.DeliverReply? || a.DeliverFinal?) && DeviceOf(w, a) != Some(dev)
    ensures SameDevice(w, Runs.Apply(w, a), dev)
  {
    match a
    case DeliverReply(e, m) => Discipline.ReplyFrame(w, e, m);
    case DeliverFinal(e, m) => Discipline.FinalFrame(w, e, m); Discipline.FinalTrust(w, e, m);
    case Initiate(_, _, _) =>
  }

  lemma ResponderElsewhere(w: World, dev: nat, a: Runs.Action)
    requires (a.DeliverHello? || a.DeliverConfirm? || a.FinishResponder? || a.Abort?) && DeviceOf(w, a) != Some(dev)
    ensures SameDevice(w, Runs.Apply(w, a), dev)
  {
    match a
    case DeliverConfirm(e, m, hookOk) => ConfirmElsewhere(w, dev, e, m, hookOk);
    case DeliverHello(e, d, nonce, m) => HelloElsewhere(w, dev, e, d, nonce, m);
    case FinishResponder(e, sent) => FinishElsewhere(w, dev, e, sent);
    case Abort(e) => AbortElsewhere(w, dev, e);
  }

  lemma SlotElsewhere(w: World, dev: nat, d: nat)
    requires d != dev
    ensures SameDevice(w, Runs.EndHalfOpen(w, d), dev)
  {}

  lemma FinishElsewhere(w: World, dev: nat, e: nat, sent: bool)
    requires e in w.resps ==> w.resps[e].dev != dev
    ensures SameDevice(w, Runs.StepFinish(w, e, sent), dev)
  {
    if e in w.resps { SlotElsewhere(w, dev, w.resps[e].dev); }
  }

  lemma AbortElsewhere(w: World, dev: nat, e: nat)
    requires e in w.resps ==> w.resps[e].dev != dev
    ensures SameDevice(w, Runs.StepAbort(w, e), dev)
  {
    if e in w.resps { SlotElsewhere(w, dev, w.resps[e].dev); }
  }

  lemma HelloElsewhere(w: World, dev: nat, e: nat, d: nat, nonce: nat, m: Message)
    requires d != dev
    ensures SameDevice(w, Runs.StepHello(w, e, d, nonce, m), dev)
  {
    Discipline.HelloFrame(w, e, d, nonce, m);
  }

  lemma ConfirmElsewhere(w: World, dev: nat, e: nat, m: Message, hookOk: bool)
    requires e in w.resps ==> w.resps[e].dev != dev
    ensures SameDevice(w, Runs.StepConfirm(w, e, m, hookOk), dev)
  {
    if Runs.AwaitsConfirm(w, e) && Runs.Derivable(w, m) {
      Discipline.ConfirmEffects(w, e, m, hookOk);
    }
  }

  /** The device whose exchange a step advances. */
  function DeviceOf(w: World, a: Runs.Action): Option<nat> {
    if a.Initiate? || a.DeliverHello? then Some(a.dev)
    else if a.e in w.resps && (a.DeliverConfirm? || a.FinishResponder? || a.Abort?) then Some(w.resps[a.e].dev)
    else if a.e in w.inits then Some(w.inits[a.e].dev)
    else None
  }

  /** An initiator object that confirmed with an honest device, and the responder object of that device whose
      ephemeral key its reply carried: the responder's session hook was called for this peer, with the same
      messages and master secret, and the two outcomes are counterparts. */
  lemma ObjectsAgree(i: InitiatorExchange, r: ResponderExchange, w: World, e: nat, dev: nat, p: nat, d: nat)
    requires Runs.Inv(w) && i.In(w, e, dev) && r.In(w, p, d)
    requires i.state == InitiatorConfirmed && i.reply.Some? && i.reply.value.Reply?
    requires i.reply.value.body.idKey == DeviceKey(d) && i.reply.value.body.eph == r.eph
    ensures r.recorded.Some? && r.m1 == Some(i.m1)
    ensures var body := i.reply.value.body;
            var atI := OutcomeFor(Initiator, MasterOf(Dh(i.eph, body.eph), i.m1, body), i.m1, body);
            var atR := r.recorded.value;
            Counterparts(i.owner.device, r.owner.device, atI, atR)
  {
    var partner := Runs.InitiatorAgreement(w, e, d);
    assert Runs.RespReply(w, partner, w.resps[partner]).body.eph == Honest(partner);
    assert partner == p;
  }

  /** A device object's counter is the number of its responder exchanges in flight, and within its maximum. */
  lemma ObjectCountsHalfOpen(o: HandshakeV3, devices: map<nat, Device>, trust: map<nat, TrustStore>,
                             actions: seq<Runs.Action>, dev: nat)
    requires o.In(Runs.Run(Runs.Start(devices, trust), actions), dev)
    ensures o.halfOpen == |Discipline.HalfOpen(Runs.Run(Runs.Start(devices, trust), actions), dev)|
    ensures o.halfOpen == 0 || o.halfOpen <= o.device.maxHalfOpen
  {
    Discipline.HalfOpenAlwaysBounded(devices, trust, actions);
  }
}
