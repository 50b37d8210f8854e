/** When pins are written, and how many responder exchanges are half open. */
module HandshakeDiscipline {
  import opened Results
  import opened HandshakeSpec
  import opened HandshakeRuns

  // ----- half-open exchanges -----

  function HalfOpen(w: World, dev: nat): set<nat> {
    set e | e in w.resps && w.resps[e].dev == dev && w.resps[e].phase in {SentReply, SentFinal}
  }

  /** The counter is the number of responder exchanges between message 2 and message 4. */
  ghost predicate CountsHalfOpen(w: World) {
    forall dev :: OpenCount(w, dev) == |HalfOpen(w, dev)|
  }

  lemma EndsOne(w: World, w': World, e: nat)
    requires CountsHalfOpen(w) && e in w.resps && w.resps[e].phase in {SentReply, SentFinal}
    requires w'.halfOpen == EndHalfOpen(w, w.resps[e].dev).halfOpen
    requires e in w'.resps && w'.resps == w.resps[e := w'.resps[e]] && w'.resps[e].dev == w.resps[e].dev
    requires w'.resps[e].phase !in {SentReply, SentFinal}
    ensures CountsHalfOpen(w')
  {
    forall dev ensures OpenCount(w', dev) == |HalfOpen(w', dev)| {
      if dev == w.resps[e].dev {
        assert e in HalfOpen(w, dev);
        assert HalfOpen(w', dev) == HalfOpen(w, dev) - {e};
      } else {
        assert HalfOpen(w', dev) == HalfOpen(w, dev);
      }
    }
  }

  lemma BeginsOne(w: World, w': World, e: nat, r: Resp)
    requires CountsHalfOpen(w) && e !in w.resps && r.phase == SentReply
    requires w'.resps == w.resps[e := r] && w'.halfOpen == w.halfOpen[r.dev := OpenCount(w, r.dev) + 1]
    ensures CountsHalfOpen(w')
  {
    forall dev ensures OpenCount(w', dev) == |HalfOpen(w', dev)| {
      OneMoreOpen(w, w', e, r, dev);
      assert e !in HalfOpen(w, dev) && OpenCount(w, dev) == |HalfOpen(w, dev)|;
    }
  }

  lemma OneMoreOpen(w: World, w': World, e: nat, r: Resp, dev: nat)
    requires e !in w.resps && r.phase == SentReply && w'.resps == w.resps[e := r]
    ensures HalfOpen(w', dev) == HalfOpen(w, dev) + (if dev == r.dev then {e} else {})
  {}

  lemma SameHalfOpen(w: World, w': World)
    requires CountsHalfOpen(w) && w'.halfOpen == w.halfOpen
    requires w'.resps.Keys == w.resps.Keys
    requires forall e :: e in w.resps ==>
               w'.resps[e].dev == w.resps[e].dev
               && (w'.resps[e].phase in {SentReply, SentFinal} <==> w.resps[e].phase in {SentReply, SentFinal})
    ensures CountsHalfOpen(w')
  {
    forall dev ensures HalfOpen(w', dev) == HalfOpen(w, dev) {}
  }

  lemma InitiatorStepsKeepCount(w: World, a: Action)
    requires CountsHalfOpen(w) && (a.Initiate? || a.DeliverReply? || a.DeliverFinal?)
    ensures CountsHalfOpen(Apply(w, a))
  {
    SameHalfOpen(w, Apply(w, a));
  }

  lemma HelloHalfOpen(w: World, e: nat, dev: nat, nonce: nat, m: Message)
    requires CountsHalfOpen(w)
    ensures CountsHalfOpen(StepHello(w, e, dev, nonce, m))
  {
    if FreshExchange(w, e, dev) && OnHello(w.devices[dev], Honest(e), nonce, OpenCount(w, dev), m).Ok? {
      BeginsOne(w, StepHello(w, e, dev, nonce, m), e, Resp(dev, SentReply, m.intro, nonce, None, false));
    }
  }

  lemma AbortHalfOpen(w: World, e: nat)
    requires CountsHalfOpen(w)
    ensures CountsHalfOpen(StepAbort(w, e))
  {
    if e in w.inits && w.inits[e].phase in {SentHello, SentConfirm} {
      SameHalfOpen(w, StepAbort(w, e));
    } else if e in w.resps && w.resps[e].phase == SentReply {
      EndsOne(w, StepAbort(w, e), e);
    }
  }

  /** Under any interleaving the counter stays exact, so it is zero whenever nothing is in flight. */
  lemma HalfOpenStaysExact(w: World, a: Action)
    requires CountsHalfOpen(w)
    ensures CountsHalfOpen(Apply(w, a))
  {
    match a
    case DeliverHello(e, dev, nonce, m) => HelloHalfOpen(w, e, dev, nonce, m);
    case DeliverConfirm(e, m, hookOk) => ConfirmHalfOpen(w, e, m, hookOk);
    case FinishResponder(e, sent) => if e in w.resps && w.resps[e].phase == SentFinal { EndsOne(w, Apply(w, a), e); }
    case Abort(e) => AbortHalfOpen(w, e);
    case Initiate(_, _, _) => InitiatorStepsKeepCount(w, a);
    case DeliverReply(_, _) => InitiatorStepsKeepCount(w, a);
    case DeliverFinal(_, _) => InitiatorStepsKeepCount(w, a);
  }

  lemma ConfirmHalfOpen(w: World, e: nat, m: Message, hookOk: bool)
    requires CountsHalfOpen(w)
    ensures CountsHalfOpen(StepConfirm(w, e, m, hookOk))
  {
    var w' := StepConfirm(w, e, m, hookOk);
    if AwaitsConfirm(w, e) && Derivable(w, m) {
      if w'.resps[e].phase == SentFinal {
        SameHalfOpen(w, w');
      } else {
        EndsOne(w, w', e);
      }
    }
  }

  ghost predicate WithinHalfOpenLimit(w: World) {
    forall dev :: dev in w.devices ==> OpenCount(w, dev) <= 0 || OpenCount(w, dev) <= w.devices[dev].maxHalfOpen
  }

  /** In every run the count is exact and within each device's maximum. */
  lemma {:induction false} HalfOpenAlwaysBounded(devices: map<nat, Device>, trust: map<nat, TrustStore>,
                                                 actions: seq<Action>)
    ensures CountsHalfOpen(Run(Start(devices, trust), actions))
    ensures WithinHalfOpenLimit(Run(Start(devices, trust), actions))
  {
    if actions == [] {
      assert forall dev :: HalfOpen(Start(devices, trust), dev) == {};
    } else {
      HalfOpenAlwaysBounded(devices, trust, actions[..|actions| - 1]);
      var w := Run(Start(devices, trust), actions[..|actions| - 1]);
      HalfOpenStaysExact(w, actions[|actions| - 1]);
      LimitKept(w, actions[|actions| - 1]);
    }
  }

  /** Only a hello raises the count, and only below the maximum. */
  lemma HelloCount(w: World, e: nat, d: nat, nonce: nat, m: Message, dev: nat)
    ensures var w' := StepHello(w, e, d, nonce, m);
            || OpenCount(w', dev) <= OpenCount(w, dev)
            || (dev in w.devices && OpenCount(w', dev) <= w.devices[dev].maxHalfOpen)
  {}

  lemma ConfirmCount(w: World, e: nat, m: Message, hookOk: bool, dev: nat)
    ensures var w' := StepConfirm(w, e, m, hookOk);
            OpenCount(w', dev) <= OpenCount(w, dev) || OpenCount(w', dev) <= 0
  {}

  lemma CountMoves(w: World, a: Action, dev: nat)
    ensures || OpenCount(Apply(w, a), dev) <= OpenCount(w, dev)
            || OpenCount(Apply(w, a), dev) <= 0
            || (dev in w.devices && OpenCount(Apply(w, a), dev) <= w.devices[dev].maxHalfOpen)
  {
    match a
    case DeliverConfirm(e, m, hookOk) => ConfirmCount(w, e, m, hookOk, dev);
    case DeliverHello(e, d, nonce, m) => HelloCount(w, e, d, nonce, m, dev);
    case DeliverReply(e, m) => ReplyFrame(w, e, m);
    case DeliverFinal(e, m) => FinalFrame(w, e, m);
    case Initiate(_, _, _) =>
    case FinishResponder(_, _) =>
    case Abort(_) =>
  }

  // ----- what each step leaves alone -----

  lemma HelloFrame(w: World, e: nat, dev: nat, nonce: nat, m: Message)
    ensures var w' := StepHello(w, e, dev, nonce, m);
            && w'.inits == w.inits && w'.trust == w.trust && w'.devices == w.devices
            && (w' == w || (e in w'.resps && w'.resps == w.resps[e := w'.resps[e]]
                            && dev in w'.halfOpen && w'.halfOpen == w.halfOpen[dev := w'.halfOpen[dev]]))
  {}

  lemma ConfirmFrame(w: World, e: nat, m: Message, hookOk: bool)
    ensures var w' := StepConfirm(w, e, m, hookOk);
            && w'.inits == w.inits && w'.devices == w.devices
            && (w' == w || (e in w.resps && e in w'.resps && w'.resps == w.resps[e := w'.resps[e]]))
  {}

  lemma ReplyFrame(w: World, e: nat, m: Message)
    ensures var w' := StepReply(w, e, m);
            && w'.resps == w.resps && w'.halfOpen == w.halfOpen && w'.trust == w.trust && w'.devices == w.devices
            && (w' == w || (e in w.inits && w.inits[e].phase == SentHello && e in w'.inits
                            && w'.inits == w.inits[e := w'.inits[e]]
                            && (w'.inits[e].phase == InitiatorFailed
                                || (w'.inits[e].dev == w.inits[e].dev && w'.inits[e].reply == Some(m) && m.Reply?
                                    && w'.inits[e].pinSeen == PinAt(w, w.inits[e].dev, m.body.deviceId)))))
  {}

  lemma FinalFrame(w: World, e: nat, m: Message)
    ensures var w' := StepFinal(w, e, m);
            && w'.resps == w.resps && w'.halfOpen == w.halfOpen && w'.devices == w.devices
            && (w' == w || (e in w.inits && w.inits[e].phase == SentConfirm && e in w'.inits
                            && w'.inits == w.inits[e := w'.inits[e]]
                            && w'.inits[e].phase in {InitiatorDone, InitiatorFailed}))
  {}

  lemma DevicesFixed(w: World, a: Action)
    ensures Apply(w, a).devices == w.devices
  {
    match a
    case DeliverConfirm(e, m, hookOk) => ConfirmFrame(w, e, m, hookOk);
    case DeliverHello(e, dev, nonce, m) => HelloFrame(w, e, dev, nonce, m);
    case DeliverReply(e, m) => ReplyFrame(w, e, m);
    case DeliverFinal(e, m) => FinalFrame(w, e, m);
    case Initiate(_, _, _) =>
    case FinishResponder(_, _) =>
    case Abort(_) =>
  }

  lemma LimitKept(w: World, a: Action)
    requires WithinHalfOpenLimit(w)
    ensures WithinHalfOpenLimit(Apply(w, a))
  {
    DevicesFixed(w, a);
    forall dev | dev in w.devices
      ensures OpenCount(Apply(w, a), dev) <= 0 || OpenCount(Apply(w, a), dev) <= w.devices[dev].maxHalfOpen
    {
      CountMoves(w, a, dev);
    }
  }

  // ----- pins -----

  ghost predicate AwaitsFinal(w: World, e: nat) {
    && e in w.inits && w.inits[e].phase == SentConfirm && w.inits[e].dev in w.devices
    && w.inits[e].reply.Some? && w.inits[e].reply.value.Reply?
  }

  ghost predicate Verified(w: World, e: nat, m3: Message)
    requires AwaitsConfirm(w, e)
  {
    var r := w.resps[e];
    OnConfirm(w.devices[r.dev], Honest(e), r.m1, RespReply(w, e, r), PinAt(w, r.dev, r.m1.deviceId), m3).Ok?
  }

  lemma ConfirmTrust(w: World, e: nat, m: Message, hookOk: bool)
    ensures var w' := StepConfirm(w, e, m, hookOk);
            || w'.trust == w.trust
            || (AwaitsConfirm(w, e) && Verified(w, e, m)
                && w'.trust == WithPin(w, w.resps[e].dev, w.resps[e].m1.deviceId, w.resps[e].m1.idKey).trust)
  {}

  /** What a message 3 does to the device: the pin is written when it verifies, and the slot is returned
      unless the session is recorded. */
  lemma ConfirmEffects(w: World, e: nat, m: Message, hookOk: bool)
    requires AwaitsConfirm(w, e) && Derivable(w, m)
    ensures var w', r := StepConfirm(w, e, m, hookOk), w.resps[e];
            && w'.devices == w.devices
            && w'.trust == (if Verified(w, e, m) then WithPin(w, r.dev, r.m1.deviceId, r.m1.idKey).trust else w.trust)
            && w'.halfOpen == if Verified(w, e, m) && hookOk then w.halfOpen else EndHalfOpen(w, r.dev).halfOpen
  {}

  lemma FinalTrust(w: World, e: nat, m: Message)
    ensures var w' := StepFinal(w, e, m);
            || w'.trust == w.trust
            || (AwaitsFinal(w, e) && w'.inits[e].phase == InitiatorDone
                && var body := w.inits[e].reply.value.body;
                   w'.trust == WithPin(w, w.inits[e].dev, body.deviceId, body.idKey).trust)
  {}

  /** The trust store changes only when an initiator confirms, or when a responder has verified both
      the signature and the MAC of message 3; then exactly one pin is written. */
  lemma PinsWrittenOnlyAfterVerification(w: World, a: Action)
    ensures var w' := Apply(w, a);
            || w'.trust == w.trust
            || (a.DeliverFinal? && AwaitsFinal(w, a.e) && w'.inits[a.e].phase == InitiatorDone
                && var body := w.inits[a.e].reply.value.body;
                   w'.trust == WithPin(w, w.inits[a.e].dev, body.deviceId, body.idKey).trust)
            || (a.DeliverConfirm? && AwaitsConfirm(w, a.e) && Verified(w, a.e, a.message)
                && w'.trust == WithPin(w, w.resps[a.e].dev, w.resps[a.e].m1.deviceId, w.resps[a.e].m1.idKey).trust)
  {
    match a
    case DeliverFinal(e, m) => FinalTrust(w, e, m);
    case DeliverConfirm(e, m, hookOk) => ConfirmTrust(w, e, m, hookOk);
    case Initiate(_, _, _) =>
    case DeliverHello(_, _, _, _) =>
    case DeliverReply(_, _) =>
    case FinishResponder(_, _) =>
    case Abort(_) =>
  }

  /** An initiator that confirms leaves its device with the peer's key pinned for the peer's id, and every other pin of
      every device as it was. */
  lemma ConfirmedPeerIsPinned(w: World, e: nat, m: Message, d: nat, id: string)
    requires AwaitsFinal(w, e) && StepFinal(w, e, m).inits[e].phase == InitiatorDone
    ensures var i := w.inits[e];
            PinAt(StepFinal(w, e, m), d, id)
            == if d == i.dev && id == i.reply.value.body.deviceId then Some(i.reply.value.body.idKey)
               else PinAt(w, d, id)
  {
    var body := w.inits[e].reply.value.body;
    FinalPins(w, e, m);
    PinWritten(w, w.inits[e].dev, body.deviceId, body.idKey, d, id);
  }

  lemma FinalPins(w: World, e: nat, m: Message)
    requires AwaitsFinal(w, e) && StepFinal(w, e, m).inits[e].phase == InitiatorDone
    ensures var body := w.inits[e].reply.value.body;
            StepFinal(w, e, m).trust == WithPin(w, w.inits[e].dev, body.deviceId, body.idKey).trust
  {}

  lemma PinWritten(w: World, dev: nat, peer: string, key: IdKey, d: nat, id: string)
    ensures PinAt(WithPin(w, dev, peer, key), d, id) == if d == dev && id == peer then Some(key) else PinAt(w, d, id)
  {}

  /** So does a responder that records a session. */
  lemma RecordedPeerIsPinned(w: World, e: nat, m: Message, hookOk: bool, d: nat, id: string)
    requires AwaitsConfirm(w, e) && !w.resps[e].recorded && StepConfirm(w, e, m, hookOk).resps[e].recorded
    ensures var r := w.resps[e];
            PinAt(StepConfirm(w, e, m, hookOk), d, id)
            == if d == r.dev && id == r.m1.deviceId then Some(r.m1.idKey) else PinAt(w, d, id)
  {
    ConfirmEffects(w, e, m, hookOk);
    PinWritten(w, w.resps[e].dev, w.resps[e].m1.deviceId, w.resps[e].m1.idKey, d, id);
  }

  /** Confirmed and failed are final. */
  lemma TerminalStays(w: World, a: Action, x: nat)
    requires x in w.inits && w.inits[x].phase in {InitiatorDone, InitiatorFailed}
    ensures x in Apply(w, a).inits && Apply(w, a).inits[x] == w.inits[x]
  {
    match a
    case DeliverConfirm(e, m, hookOk) => ConfirmFrame(w, e, m, hookOk);
    case DeliverHello(e, dev, nonce, m) => HelloFrame(w, e, dev, nonce, m);
    case DeliverReply(e, m) => ReplyFrame(w, e, m);
    case DeliverFinal(e, m) => FinalFrame(w, e, m);
    case Initiate(_, _, _) =>
    case FinishResponder(_, _) =>
    case Abort(_) =>
  }

  /** An initiator exchange that ends failed never wrote the trust store: a step of it that does
      confirms it for good. */
  lemma {:induction false} FailedInitiatorWroteNothing(w: World, a: Action, rest: seq<Action>)
    requires (a.Initiate? || a.DeliverReply? || a.DeliverFinal?) && Apply(w, a).trust != w.trust
    ensures a.e in Run(Apply(w, a), rest).inits && Run(Apply(w, a), rest).inits[a.e].phase == InitiatorDone
  {
    if rest == [] {
      PinsWrittenOnlyAfterVerification(w, a);
    } else {
      FailedInitiatorWroteNothing(w, a, rest[..|rest| - 1]);
      TerminalStays(Run(Apply(w, a), rest[..|rest| - 1]), rest[|rest| - 1], a.e);
    }
  }

  /** An existing pin is replaced only by an initiator that confirms with another key; and then the
      pin was not what that initiator had looked up, so another exchange wrote it in between. */
  lemma PinReplaced(w: World, a: Action, dev: nat, id: string)
    requires Inv(w) && PinAt(w, dev, id).Some? && PinAt(Apply(w, a), dev, id) != PinAt(w, dev, id)
    ensures a.DeliverFinal? && AwaitsFinal(w, a.e) && w.inits[a.e].dev == dev
    ensures w.inits[a.e].reply.value.body.deviceId == id && w.inits[a.e].pinSeen != PinAt(w, dev, id)
  {
    PinsWrittenOnlyAfterVerification(w, a);
    if a.DeliverFinal? {
      assert InitOk(w, a.e);
    }
  }

  /** For an existing pin, exactly when a step replaces it: an initiator of this device that waits for message 4
      from this id receives an accept that verifies, and its peer's key is not the one pinned by then. */
  lemma PinReplacedExactly(w: World, a: Action, dev: nat, id: string)
    requires Inv(w) && PinAt(w, dev, id).Some?
    ensures PinAt(Apply(w, a), dev, id) != PinAt(w, dev, id)
       <==> && a.DeliverFinal? && AwaitsFinal(w, a.e) && w.inits[a.e].dev == dev && Derivable(w, a.message)
            && var i := w.inits[a.e];
               && i.reply.value.body.deviceId == id && Some(i.reply.value.body.idKey) != PinAt(w, dev, id)
               && OnFinal(w.devices[i.dev], Honest(a.e), i.m1, i.reply.value, a.message).Ok?
  {
    if PinAt(Apply(w, a), dev, id) != PinAt(w, dev, id) {
      PinReplaced(w, a, dev, id);
    }
  }

  predicate InFlight(w: World, dev: nat, e: nat) {
    || (e in w.inits && w.inits[e].dev == dev && w.inits[e].phase in {SentHello, SentConfirm})
    || (e in w.resps && w.resps[e].dev == dev && w.resps[e].phase in {SentReply, SentFinal})
  }

  /** No two exchanges of `dev` overlap. */
  ghost predicate Exclusive(w: World, dev: nat) {
    forall e, e' :: InFlight(w, dev, e) && InFlight(w, dev, e') ==> e == e'
  }

  /** What every waiting initiator of `dev` looked up is still what the trust store says. */
  ghost predicate LookupsCurrent(w: World, dev: nat) {
    forall e :: AwaitsFinal(w, e) && w.inits[e].dev == dev
                ==> w.inits[e].pinSeen == PinAt(w, dev, w.inits[e].reply.value.body.deviceId)
  }

  lemma PinMoverInFlight(w: World, a: Action, dev: nat, id: string)
    requires PinAt(Apply(w, a), dev, id) != PinAt(w, dev, id)
    ensures InFlight(w, dev, a.e)
  {
    PinsWrittenOnlyAfterVerification(w, a);
  }

  /** An initiator waiting for message 4 after a step either was already waiting, untouched, or has just looked
      its peer up. */
  lemma WaitingInitiators(w: World, a: Action, x: nat)
    requires AwaitsFinal(Apply(w, a), x)
    ensures || (x in w.inits && w.inits[x] == Apply(w, a).inits[x])
            || (Apply(w, a).trust == w.trust
                && Apply(w, a).inits[x].pinSeen
                   == PinAt(w, Apply(w, a).inits[x].dev, Apply(w, a).inits[x].reply.value.body.deviceId))
  {
    match a
    case DeliverConfirm(e, m, hookOk) => ConfirmFrame(w, e, m, hookOk);
    case DeliverHello(e, dev, nonce, m) => HelloFrame(w, e, dev, nonce, m);
    case DeliverReply(e, m) => ReplyFrame(w, e, m);
    case DeliverFinal(e, m) => FinalFrame(w, e, m);
    case Initiate(_, _, _) =>
    case FinishResponder(_, _) =>
    case Abort(_) =>
  }

  lemma MovedInitiatorLeaves(w: World, a: Action, dev: nat, id: string)
    requires PinAt(Apply(w, a), dev, id) != PinAt(w, dev, id) && a.e in Apply(w, a).inits && RespOk(w, a.e)
    ensures Apply(w, a).inits[a.e].phase == InitiatorDone
  {
    PinsWrittenOnlyAfterVerification(w, a);
  }

  lemma LookupsStayCurrent(w: World, a: Action, dev: nat)
    requires Inv(w) && Exclusive(w, dev) && LookupsCurrent(w, dev)
    ensures LookupsCurrent(Apply(w, a), dev)
  {
    var w' := Apply(w, a);
    DevicesFixed(w, a);
    forall x | AwaitsFinal(w', x) && w'.inits[x].dev == dev
      ensures w'.inits[x].pinSeen == PinAt(w', dev, w'.inits[x].reply.value.body.deviceId)
    {
      WaitingInitiators(w, a, x);
      var id := w'.inits[x].reply.value.body.deviceId;
      if PinAt(w', dev, id) != PinAt(w, dev, id) {
        PinMoverInFlight(w, a, dev, id);
        assert InFlight(w, dev, x);
        assert RespOk(w, a.e);
        MovedInitiatorLeaves(w, a, dev, id);
      }
    }
  }

  /** While a device's exchanges do not overlap, a key it has pinned is never replaced. */
  lemma {:induction false} PinsNeverChange(w: World, actions: seq<Action>, dev: nat, id: string)
    requires Inv(w) && LookupsCurrent(w, dev) && PinAt(w, dev, id).Some?
    requires forall k :: 0 <= k <= |actions| ==> Exclusive(Run(w, actions[..k]), dev)
    ensures PinAt(Run(w, actions), dev, id) == PinAt(w, dev, id)
    ensures LookupsCurrent(Run(w, actions), dev)
  {
    if actions != [] {
      var n := |actions| - 1;
      forall k | 0 <= k <= n ensures Exclusive(Run(w, actions[..n][..k]), dev) {
        assert actions[..n][..k] == actions[..k];
      }
      PinsNeverChange(w, actions[..n], dev, id);
      AlwaysInv(w, actions[..n]);
      var before := Run(w, actions[..n]);
      LookupsStayCurrent(before, actions[n], dev);
      if PinAt(Apply(before, actions[n]), dev, id) != PinAt(before, dev, id) {
        PinReplaced(before, actions[n], dev, id);
      }
    }
  }

  // ----- overlapping exchanges -----

  /** The reply a peer with its own identity key and its own ephemeral secret sends. */
  function PeerReply(m1: Intro, id: string, n: nat): Message {
    var body := Intro(Adversary(n), 0, id, AdversaryKey(n), 1, 1);
    var sigR := Signature(AdversaryKey(n), ResponderSigned(T2(m1, body)));
    Reply(body, sigR, Authenticator(Kr(MasterOf(Dh(m1.eph, Adversary(n)), m1, body)), T2s(T2(m1, body), sigR)))
  }

  function PeerAccept(d: Device, m1: Intro, r: Message): Message
    requires r.Reply?
  {
    Final(true, Authenticator(Kr(MasterOf(Dh(m1.eph, r.body.eph), m1, r.body)),
                              M4Accept(TFinalFor(m1, r, ConfirmFor(d, m1.eph, m1, r)))))
  }

  /** Such a peer's messages are within the adversary's reach, and complete the handshake. */
  lemma PeerCompletes(w: World, e: nat, id: string, n: nat)
    requires e in w.inits && w.inits[e].dev in w.devices && w.inits[e].m1.eph == Honest(e)
    requires id != w.devices[w.inits[e].dev].id
    ensures var r := PeerReply(w.inits[e].m1, id, n);
            && Derivable(w, r) && Derivable(w, PeerAccept(w.devices[w.inits[e].dev], w.inits[e].m1, r))
            && OnReply(w.devices[w.inits[e].dev], Honest(e), w.inits[e].m1, None, r).Ok?
            && OnFinal(w.devices[w.inits[e].dev], Honest(e), w.inits[e].m1, r,
                       PeerAccept(w.devices[w.inits[e].dev], w.inits[e].m1, r)).Ok?
  {
    assert Adversary(n) in Dh(Honest(e), Adversary(n)).halves;
  }

  /** Two initiations towards one device id that both looked it up before either confirmed. */
  ghost predicate BothWaiting(w: World, e: nat, f: nat, dev: nat, id: string, n: nat, k: nat) {
    && e != f && AwaitsFinal(w, e) && AwaitsFinal(w, f)
    && w.inits[e].dev == dev && w.inits[f].dev == dev && id != w.devices[dev].id
    && w.inits[e].m1.eph == Honest(e) && w.inits[f].m1.eph == Honest(f)
    && w.inits[e].reply == Some(PeerReply(w.inits[e].m1, id, n))
    && w.inits[f].reply == Some(PeerReply(w.inits[f].m1, id, k))
  }

  /** When they overlap, the second confirmation overwrites the first one's pin. */
  lemma OverlapReplacesPin(w: World, e: nat, f: nat, dev: nat, id: string, n: nat, k: nat)
    requires BothWaiting(w, e, f, dev, id, n, k) && n != k
    ensures var d := w.devices[dev];
            var w1 := Apply(w, DeliverFinal(e, PeerAccept(d, w.inits[e].m1, w.inits[e].reply.value)));
            var w2 := Apply(w1, DeliverFinal(f, PeerAccept(d, w.inits[f].m1, w.inits[f].reply.value)));
            PinAt(w1, dev, id) == Some(AdversaryKey(n)) && PinAt(w2, dev, id) == Some(AdversaryKey(k))
  {
    PeerCompletes(w, e, id, n);
    var w1 := Apply(w, DeliverFinal(e, PeerAccept(w.devices[dev], w.inits[e].m1, w.inits[e].reply.value)));
    PeerCompletes(w1, f, id, k);
  }

  /** That situation is reachable: two initiations, then two replies, on a device that has pinned nobody. */
  lemma OverlapIsReachable(d: Device, id: string, n: nat, k: nat)
    requires id != d.id && d.index == 0
    ensures var m1 := d.Introduce(Honest(0), 0);
            var m1' := d.Introduce(Honest(1), 0);
            var w := Run(Start(map[0 := d], map[]),
                         [Initiate(0, 0, 0), Initiate(1, 0, 0),
                          DeliverReply(0, PeerReply(m1, id, n)), DeliverReply(1, PeerReply(m1', id, k))]);
            BothWaiting(w, 0, 1, 0, id, n, k)
  {
    var w0 := Start(map[0 := d], map[]);
    var m1, m1' := d.Introduce(Honest(0), 0), d.Introduce(Honest(1), 0);
    var a0, a1, a2, a3 := Initiate(0, 0, 0), Initiate(1, 0, 0),
                          DeliverReply(0, PeerReply(m1, id, n)), DeliverReply(1, PeerReply(m1', id, k));
    var w1 := Apply(w0, a0);
    var w2 := Apply(w1, a1);
    PeerCompletes(w2, 0, id, n);
    var w3 := Apply(w2, a2);
    PeerCompletes(w3, 1, id, k);
    var all := [a0, a1, a2, a3];
    assert all[..3] == [a0, a1, a2] && all[..3][..2] == [a0, a1] && all[..3][..2][..1] == [a0]
           && all[..3][..2][..1][..0] == [];
    assert Run(w0, [a0]) == w1;
    assert Run(w0, all[..3][..2]) == w2;
    assert Run(w0, all[..3]) == w3;
  }

  /** A peer of that kind as initiator: its message 1, and its message 3 to the device's reply. */
  function PeerHello(id: string, k: nat): Intro {
    Intro(Adversary(k), 0, id, AdversaryKey(k), 1, 1)
  }

  function PeerConfirm(m1: Intro, r: Message): Message
    requires r.Reply?
  {
    var t2s := T2s(T2(m1, r.body), r.sigR);
    var sigI := Signature(m1.idKey, InitiatorSigned(t2s));
    Confirm(sigI, Authenticator(Ki(MasterOf(Dh(r.body.eph, m1.eph), m1, r.body)), T3s(T3(t2s, r.macR), sigI)))
  }

  /** Such a peer can complete a responder exchange of the device, which pins its key if nothing is pinned. */
  lemma PeerConfirms(w: World, e: nat, dev: nat, id: string, k: nat)
    requires FreshExchange(w, e, dev) && id != w.devices[dev].id && OpenCount(w, dev) < w.devices[dev].maxHalfOpen
    requires PinAt(w, dev, id) == None
    ensures var m1 := PeerHello(id, k);
            var w1 := Apply(w, DeliverHello(e, dev, 0, Hello(m1)));
            var w2 := Apply(w1, DeliverConfirm(e, PeerConfirm(m1, ReplyFor(w.devices[dev], Honest(e), 0, m1)), true));
            && PinAt(w2, dev, id) == Some(AdversaryKey(k)) && w2.inits == w.inits && w2.devices == w.devices
  {
    var m1 := PeerHello(id, k);
    var w1 := Apply(w, DeliverHello(e, dev, 0, Hello(m1)));
    var m3 := PeerConfirm(m1, ReplyFor(w.devices[dev], Honest(e), 0, m1));
    assert w1.resps[e] == Resp(dev, SentReply, m1, 0, None, false);
    assert Adversary(k) in Dh(Honest(e), Adversary(k)).halves;
    assert Derivable(w1, m3);
  }

  /** Such a peer answers an initiation, and its reply is accepted if nothing is pinned. */
  lemma PeerAnswers(w: World, e: nat, dev: nat, id: string, n: nat)
    requires FreshExchange(w, e, dev) && id != w.devices[dev].id && PinAt(w, dev, id) == None
    ensures var m1 := w.devices[dev].Introduce(Honest(e), 0);
            var w' := Apply(Apply(w, Initiate(e, dev, 0)), DeliverReply(e, PeerReply(m1, id, n)));
            && w'.inits == w.inits[e := Init(dev, SentConfirm, m1, Some(PeerReply(m1, id, n)), None)]
            && w'.resps == w.resps && w'.devices == w.devices && w'.trust == w.trust && w'.halfOpen == w.halfOpen
  {
    var w1 := Apply(w, Initiate(e, dev, 0));
    assert w1.inits[e].phase == SentHello;
    PeerCompletes(w1, e, id, n);
  }

  /** And its accept then pins its key, whatever was pinned meanwhile. */
  lemma PeerIsPinned(w: World, e: nat, dev: nat, id: string, n: nat)
    requires AwaitsFinal(w, e) && w.inits[e].dev == dev && w.inits[e].m1.eph == Honest(e) && id != w.devices[dev].id
    requires w.inits[e].reply == Some(PeerReply(w.inits[e].m1, id, n))
    ensures var accept := PeerAccept(w.devices[dev], w.inits[e].m1, w.inits[e].reply.value);
            PinAt(Apply(w, DeliverFinal(e, accept)), dev, id) == Some(AdversaryKey(n))
  {
    PeerCompletes(w, e, id, n);
  }

  /** One initiator exchange overlapping one responder exchange suffices: from a device that has pinned nobody,
      the responder exchange pins one key for an id and the initiator exchange then replaces it by another. */
  lemma ResponderOverlapReplacesPin(d: Device, id: string, n: nat, k: nat)
    requires id != d.id && d.index == 0 && d.maxHalfOpen > 0 && n != k
    ensures var m1 := d.Introduce(Honest(0), 0);
            var hello := PeerHello(id, k);
            var reply := PeerReply(m1, id, n);
            var actions := [Initiate(0, 0, 0), DeliverReply(0, reply), DeliverHello(1, 0, 0, Hello(hello)),
                            DeliverConfirm(1, PeerConfirm(hello, ReplyFor(d, Honest(1), 0, hello)), true),
                            DeliverFinal(0, PeerAccept(d, m1, reply))];
            && PinAt(Run(Start(map[0 := d], map[]), actions[..4]), 0, id) == Some(AdversaryKey(k))
            && PinAt(Run(Start(map[0 := d], map[]), actions), 0, id) == Some(AdversaryKey(n))
  {
    var m1, hello := d.Introduce(Honest(0), 0), PeerHello(id, k);
    var reply := PeerReply(m1, id, n);
    var a0, a1, a2 := Initiate(0, 0, 0), DeliverReply(0, reply), DeliverHello(1, 0, 0, Hello(hello));
    var a3 := DeliverConfirm(1, PeerConfirm(hello, ReplyFor(d, Honest(1), 0, hello)), true);
    var a4 := DeliverFinal(0, PeerAccept(d, m1, reply));
    var w0 := Start(map[0 := d], map[]);
    PeerAnswers(w0, 0, 0, id, n);
    var w2 := Apply(Apply(w0, a0), a1);
    assert w2.inits == map[0 := Init(0, SentConfirm, m1, Some(reply), None)];
    PeerConfirms(w2, 1, 0, id, k);
    PeerIsPinned(Apply(Apply(w2, a2), a3), 0, 0, id, n);
    RunFive(w0, a0, a1, a2, a3, a4);
  }
}
