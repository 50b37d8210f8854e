/** Agreement, over every run of any number of honest exchanges against an active network adversary. */
module HandshakeRuns {
  import opened Results
  import opened Frames
  import opened HandshakeSpec

  datatype IPhase = SentHello | SentConfirm | InitiatorDone | InitiatorFailed
  datatype RPhase = SentReply | SentFinal | ResponderDone | ResponderFailed

  /** `pinSeen` is what the trust store said when the reply was checked. */
  datatype Init = Init(dev: nat, phase: IPhase, m1: Intro, reply: Option<Message>, pinSeen: Option<IdKey>)

  /** `recorded` is set once message 3 verified and the session hook ran. */
  datatype Resp = Resp(dev: nat, phase: RPhase, m1: Intro, nonce: nat, m3: Option<Message>, recorded: bool)

  /** The logs name, for every signature and MAC an honest party ever produced, the exchange that produced it. */
  datatype World = World(
    devices: map<nat, Device>, inits: map<nat, Init>, resps: map<nat, Resp>,
    trust: map<nat, TrustStore>, halfOpen: map<nat, int>,
    sigs: map<(IdKey, SignedText), nat>, macs: map<(MacKey, Digest), nat>)

  datatype Action =
    | Initiate(e: nat, dev: nat, nonce: nat)
    | DeliverHello(e: nat, dev: nat, nonce: nat, message: Message)
    | DeliverReply(e: nat, message: Message)
    | DeliverConfirm(e: nat, message: Message, hookOk: bool)
    | DeliverFinal(e: nat, message: Message)
    | FinishResponder(e: nat, sent: bool)
    | Abort(e: nat)

  // ----- what an exchange has computed -----

  function InitMaster(e: nat, i: Init): Master
    requires i.reply.Some? && i.reply.value.Reply?
  {
    MasterOf(Dh(Honest(e), i.reply.value.body.eph), i.m1, i.reply.value.body)
  }

  function RespReply(w: World, e: nat, r: Resp): Message
    requires r.dev in w.devices
  {
    ReplyFor(w.devices[r.dev], Honest(e), r.nonce, r.m1)
  }

  function RespMaster(w: World, e: nat, r: Resp): Master
    requires r.dev in w.devices
  {
    MasterOf(Dh(Honest(e), r.m1.eph), r.m1, RespReply(w, e, r).body)
  }

  // ----- the adversary -----

  predicate SecretShared(s: Shared) {
    forall h :: h in s.halves ==> h.Honest?
  }

  /** Signatures of honest devices cannot be forged. */
  predicate SigDerivable(w: World, s: Sig) {
    s.Signature? && s.key.DeviceKey? ==> (s.key, s.text) in w.sigs
  }

  /** MACs under keys whose Diffie-Hellman halves are both honest cannot be forged. */
  predicate MacDerivable(w: World, m: Mac) {
    m.Authenticator? && SecretShared(m.key.master.shared) ==> (m.key, m.over) in w.macs
  }

  predicate Derivable(w: World, m: Message) {
    match m
    case Hello(_) => true
    case Reply(_, s, t) => SigDerivable(w, s) && MacDerivable(w, t)
    case Confirm(s, t) => SigDerivable(w, s) && MacDerivable(w, t)
    case Final(_, t) => MacDerivable(w, t)
    case Garbage(_) => true
  }

  // ----- steps -----

  function PinAt(w: World, dev: nat, id: string): Option<IdKey> {
    if dev in w.trust then Pinned(w.trust[dev], id) else None
  }

  function WithPin(w: World, dev: nat, id: string, key: IdKey): World {
    w.(trust := w.trust[dev := (if dev in w.trust then w.trust[dev] else map[])[id := key]])
  }

  function OpenCount(w: World, dev: nat): int {
    if dev in w.halfOpen then w.halfOpen[dev] else 0
  }

  function EndHalfOpen(w: World, dev: nat): World {
    w.(halfOpen := w.halfOpen[dev := if OpenCount(w, dev) > 0 then OpenCount(w, dev) - 1 else 0])
  }

  predicate FreshExchange(w: World, e: nat, dev: nat) {
    e !in w.inits && e !in w.resps && dev in w.devices
  }

  function StepInitiate(w: World, e: nat, dev: nat, nonce: nat): World {
    if !FreshExchange(w, e, dev) then w
    else w.(inits := w.inits[e := Init(dev, SentHello, w.devices[dev].Introduce(Honest(e), nonce), None, None)])
  }

  function StepHello(w: World, e: nat, dev: nat, nonce: nat, m: Message): World {
    if !FreshExchange(w, e, dev) || OnHello(w.devices[dev], Honest(e), nonce, OpenCount(w, dev), m).Err? then w
    else
      var r := ReplyFor(w.devices[dev], Honest(e), nonce, m.intro);
      w.(resps := w.resps[e := Resp(dev, SentReply, m.intro, nonce, None, false)],
         halfOpen := w.halfOpen[dev := OpenCount(w, dev) + 1],
         sigs := w.sigs[(r.sigR.key, r.sigR.text) := e],
         macs := w.macs[(r.macR.key, r.macR.over) := e])
  }

  function StepReply(w: World, e: nat, m: Message): World {
    if e !in w.inits || w.inits[e].phase != SentHello || w.inits[e].dev !in w.devices || !Derivable(w, m) then w
    else
      var i := w.inits[e];
      var d := w.devices[i.dev];
      var pin := if m.Reply? then PinAt(w, i.dev, m.body.deviceId) else None;
      var m3 := OnReply(d, Honest(e), i.m1, pin, m);
      if m3.Err? then w.(inits := w.inits[e := i.(phase := InitiatorFailed)])
      else
        var c := ConfirmFor(d, Honest(e), i.m1, m);
        w.(inits := w.inits[e := i.(phase := SentConfirm, reply := Some(m), pinSeen := pin)],
           sigs := w.sigs[(c.sigI.key, c.sigI.text) := e],
           macs := w.macs[(c.macI.key, c.macI.over) := e])
  }

  /** A failure after message 2, the session hook's own included, is answered by an authenticated reject. */
  function StepConfirm(w: World, e: nat, m: Message, hookOk: bool): World {
    if e !in w.resps || w.resps[e].phase != SentReply || w.resps[e].dev !in w.devices || !Derivable(w, m) then w
    else
      var r := w.resps[e];
      var reply := RespReply(w, e, r);
      var out := OnConfirm(w.devices[r.dev], Honest(e), r.m1, reply, PinAt(w, r.dev, r.m1.deviceId), m);
      if out.Err? || !hookOk then
        var no := RejectFor(Honest(e), r.m1, reply, m);
        var w1 := if out.Ok? then WithPin(w, r.dev, r.m1.deviceId, r.m1.idKey) else w;
        EndHalfOpen(w1, r.dev).(resps := w.resps[e := r.(phase := ResponderFailed)],
                                macs := w.macs[(no.macF.key, no.macF.over) := e])
      else
        var yes := AcceptFor(Honest(e), r.m1, reply, m);
        WithPin(w, r.dev, r.m1.deviceId, r.m1.idKey).(
          resps := w.resps[e := r.(phase := SentFinal, m3 := Some(m), recorded := true)],
          macs := w.macs[(yes.macF.key, yes.macF.over) := e])
  }

  function StepFinal(w: World, e: nat, m: Message): World {
    if e !in w.inits || w.inits[e].phase != SentConfirm || w.inits[e].dev !in w.devices || !Derivable(w, m)
       || w.inits[e].reply.None? || !w.inits[e].reply.value.Reply?
    then w
    else
      var i := w.inits[e];
      var out := OnFinal(w.devices[i.dev], Honest(e), i.m1, i.reply.value, m);
      if out.Err? then w.(inits := w.inits[e := i.(phase := InitiatorFailed)])
      else WithPin(w, i.dev, i.reply.value.body.deviceId, i.reply.value.body.idKey).(
             inits := w.inits[e := i.(phase := InitiatorDone)])
  }

  /** Message 4 went out, or its write failed. */
  function StepFinish(w: World, e: nat, sent: bool): World {
    if e !in w.resps || w.resps[e].phase != SentFinal then w
    else EndHalfOpen(w, w.resps[e].dev).(
           resps := w.resps[e := w.resps[e].(phase := if sent then ResponderDone else ResponderFailed)])
  }

  /** A deadline, a closed connection or a cancellation. */
  function StepAbort(w: World, e: nat): World {
    if e in w.inits && w.inits[e].phase in {SentHello, SentConfirm}
    then w.(inits := w.inits[e := w.inits[e].(phase := InitiatorFailed)])
    else if e in w.resps && w.resps[e].phase == SentReply
    then EndHalfOpen(w, w.resps[e].dev).(resps := w.resps[e := w.resps[e].(phase := ResponderFailed)])
    else w
  }

  function Apply(w: World, a: Action): World {
    match a
    case Initiate(e, dev, nonce) => StepInitiate(w, e, dev, nonce)
    case DeliverHello(e, dev, nonce, m) => StepHello(w, e, dev, nonce, m)
    case DeliverReply(e, m) => StepReply(w, e, m)
    case DeliverConfirm(e, m, hookOk) => StepConfirm(w, e, m, hookOk)
    case DeliverFinal(e, m) => StepFinal(w, e, m)
    case FinishResponder(e, sent) => StepFinish(w, e, sent)
    case Abort(e) => StepAbort(w, e)
  }

  function Start(devices: map<nat, Device>, trust: map<nat, TrustStore>): World {
    World(devices, map[], map[], trust, map[], map[], map[])
  }

  function Run(w: World, actions: seq<Action>): World
    decreases |actions|
  {
    if actions == [] then w else Apply(Run(w, actions[..|actions| - 1]), actions[|actions| - 1])
  }

  // ----- invariant -----

  ghost predicate DevicesOk(w: World) {
    forall d :: d in w.devices ==> w.devices[d].index == d
  }

  /** An initiator that holds a reply has checked it, and what honest parties must have produced is logged. */
  ghost predicate InitOk(w: World, e: nat) {
    e in w.inits ==>
      var i := w.inits[e];
      && i.dev in w.devices && i.m1.eph == Honest(e) && i.m1.idKey == DeviceKey(i.dev)
      && i.m1 == w.devices[i.dev].Introduce(Honest(e), i.m1.nonce)
      && (i.phase == SentHello ==> i.reply.None?)
      && (i.phase in {SentConfirm, InitiatorDone} ==> i.reply.Some?)
      && (i.reply.Some? ==>
            && i.reply.value.Reply?
            && OnReply(w.devices[i.dev], Honest(e), i.m1, i.pinSeen, i.reply.value).Ok?
            && Derivable(w, i.reply.value))
      && (i.phase == InitiatorDone ==>
            var r := i.reply.value;
            MacDerivable(w, Authenticator(Kr(InitMaster(e, i)),
                                          M4Accept(TFinalFor(i.m1, r,
                                                             ConfirmFor(w.devices[i.dev], Honest(e), i.m1, r))))))
  }

  ghost predicate RespOk(w: World, e: nat) {
    e in w.resps ==>
      var r := w.resps[e];
      && r.dev in w.devices && e !in w.inits
      && (r.recorded <==> r.m3.Some?) && (r.phase == SentReply ==> !r.recorded)
      && (r.recorded ==>
            && Derivable(w, r.m3.value)
            && OnConfirm(w.devices[r.dev], Honest(e), r.m1, RespReply(w, e, r), None, r.m3.value).Ok?)
  }

  /** Every logged signature is the one its exchange makes. */
  ghost predicate SigLogOk(w: World, k: (IdKey, SignedText)) {
    k in w.sigs ==>
      var e := w.sigs[k];
      match k.1
      case ResponderSigned(t2) =>
        e in w.resps && w.resps[e].dev in w.devices && k.0 == DeviceKey(w.resps[e].dev)
        && t2 == T2(w.resps[e].m1, RespReply(w, e, w.resps[e]).body)
      case InitiatorSigned(t2s) =>
        e in w.inits && w.inits[e].reply.Some? && w.inits[e].reply.value.Reply? && k.0 == DeviceKey(w.inits[e].dev)
        && t2s == T2s(T2(w.inits[e].m1, w.inits[e].reply.value.body), w.inits[e].reply.value.sigR)
  }

  /** Every logged MAC is one of the few its exchange makes: under k_r a reply, a reject by an exchange that
      failed without recording, or, only once the session is recorded, the accept; under k_i the confirmation. */
  ghost predicate MacLogOk(w: World, k: (MacKey, Digest)) {
    k in w.macs ==>
      var e := w.macs[k];
      match k.0
      case Kr(master) =>
        && e in w.resps && w.resps[e].dev in w.devices && master == RespMaster(w, e, w.resps[e])
        && ((k.1.Two? && w.resps[e].phase == ResponderFailed && !w.resps[e].recorded)
            || k.1 == T2s(T2(w.resps[e].m1, RespReply(w, e, w.resps[e]).body), RespReply(w, e, w.resps[e]).sigR)
            || (w.resps[e].recorded && w.resps[e].m3.Some? && w.resps[e].m3.value.Confirm?
                && k.1 == M4Accept(TFinalFor(w.resps[e].m1, RespReply(w, e, w.resps[e]), w.resps[e].m3.value))))
      case Ki(master) =>
        && e in w.inits && w.inits[e].reply.Some? && w.inits[e].reply.value.Reply? && w.inits[e].dev in w.devices
        && master == InitMaster(e, w.inits[e])
        && k.1 == ConfirmFor(w.devices[w.inits[e].dev], Honest(e), w.inits[e].m1, w.inits[e].reply.value).macI.over
  }

  ghost predicate Inv(w: World) {
    && DevicesOk(w)
    && (forall e :: InitOk(w, e))
    && (forall e :: RespOk(w, e))
    && (forall k :: SigLogOk(w, k))
    && (forall k :: MacLogOk(w, k))
  }

  // ----- every step keeps the invariant -----

  /** Logs only grow, and what an exchange has fixed stays fixed. */
  ghost predicate Grows(w: World, w': World) {
    && w'.devices == w.devices && w.sigs.Keys <= w'.sigs.Keys && w.macs.Keys <= w'.macs.Keys
    && (forall e :: e in w.inits ==>
          && e in w'.inits && w'.inits[e].dev == w.inits[e].dev && w'.inits[e].m1 == w.inits[e].m1
          && (w.inits[e].reply.Some? ==> w'.inits[e].reply == w.inits[e].reply))
    && (forall e :: e in w.resps ==>
          && e in w'.resps && w'.resps[e].dev == w.resps[e].dev && w'.resps[e].m1 == w.resps[e].m1
          && w'.resps[e].nonce == w.resps[e].nonce
          && (w.resps[e].recorded ==> w'.resps[e].recorded && w'.resps[e].m3 == w.resps[e].m3)
          && (w.resps[e].phase == ResponderFailed ==> w'.resps[e] == w.resps[e]))
  }

  lemma OldInit(w: World, w': World, e: nat)
    requires Grows(w, w') && InitOk(w, e) && e in w'.inits
    requires e in w.inits && w'.inits[e] == w.inits[e]
    ensures InitOk(w', e)
  {}

  lemma OldResp(w: World, w': World, e: nat)
    requires Grows(w, w') && RespOk(w, e) && e in w'.resps && e !in w'.inits
    requires e in w.resps && w'.resps[e] == w.resps[e]
    ensures RespOk(w', e)
  {}

  lemma OldSig(w: World, w': World, k: (IdKey, SignedText))
    requires Grows(w, w') && SigLogOk(w, k) && k in w.sigs && w'.sigs[k] == w.sigs[k]
    ensures SigLogOk(w', k)
  {}

  lemma OldMac(w: World, w': World, k: (MacKey, Digest))
    requires Grows(w, w') && MacLogOk(w, k) && k in w.macs && w'.macs[k] == w.macs[k]
    ensures MacLogOk(w', k)
  {}

  /** A step touches one exchange and adds at most one signature and one MAC. */
  ghost predicate TouchesOnly(w: World, w': World, e: nat, sig: Option<(IdKey, SignedText)>,
                              mac: Option<(MacKey, Digest)>) {
    && (forall x :: x != e ==> (x in w'.inits <==> x in w.inits) && (x in w.inits ==> w'.inits[x] == w.inits[x]))
    && (forall x :: x != e ==> (x in w'.resps <==> x in w.resps) && (x in w.resps ==> w'.resps[x] == w.resps[x]))
    && (forall k :: k in w'.sigs && Some(k) != sig ==> k in w.sigs && w'.sigs[k] == w.sigs[k])
    && (forall k :: k in w'.macs && Some(k) != mac ==> k in w.macs && w'.macs[k] == w.macs[k])
  }

  lemma Preserved(w: World, w': World, e: nat, sig: Option<(IdKey, SignedText)>, mac: Option<(MacKey, Digest)>)
    requires Inv(w) && Grows(w, w') && TouchesOnly(w, w', e, sig, mac)
    requires InitOk(w', e) && RespOk(w', e)
    requires sig.Some? ==> SigLogOk(w', sig.value)
    requires mac.Some? ==> MacLogOk(w', mac.value)
    ensures Inv(w')
  {
    forall x ensures InitOk(w', x) {
      if x != e && x in w'.inits { OldInit(w, w', x); }
    }
    forall x ensures RespOk(w', x) {
      if x != e && x in w'.resps { assert RespOk(w, x); OldResp(w, w', x); }
    }
    forall k ensures SigLogOk(w', k) {
      if k in w'.sigs && Some(k) != sig { OldSig(w, w', k); }
    }
    forall k ensures MacLogOk(w', k) {
      if k in w'.macs && Some(k) != mac { OldMac(w, w', k); }
    }
  }

  lemma InitiateKeeps(w: World, e: nat, dev: nat, nonce: nat)
    requires Inv(w)
    ensures Inv(StepInitiate(w, e, dev, nonce))
  {
    if FreshExchange(w, e, dev) {
      Preserved(w, StepInitiate(w, e, dev, nonce), e, None, None);
    }
  }

  lemma HelloKeeps(w: World, e: nat, dev: nat, nonce: nat, m: Message)
    requires Inv(w)
    ensures Inv(StepHello(w, e, dev, nonce, m))
  {
    var w' := StepHello(w, e, dev, nonce, m);
    if FreshExchange(w, e, dev) && OnHello(w.devices[dev], Honest(e), nonce, OpenCount(w, dev), m).Ok? {
      var r := ReplyFor(w.devices[dev], Honest(e), nonce, m.intro);
      assert RespReply(w', e, w'.resps[e]) == r;
      Preserved(w, w', e, Some((r.sigR.key, r.sigR.text)), Some((r.macR.key, r.macR.over)));
    }
  }

  /** Changing only an initiator's phase, to one that claims no more than its reply. */
  lemma InitPhaseKeeps(w: World, w': World, e: nat)
    requires Inv(w) && e in w.inits && w'.inits == w.inits[e := w.inits[e].(phase := InitiatorFailed)]
    requires w'.resps == w.resps && w'.devices == w.devices && w'.sigs == w.sigs && w'.macs == w.macs
    ensures Inv(w')
  {
    assert InitOk(w, e) && RespOk(w, e);
    assert InitOk(w', e);
    Preserved(w, w', e, None, None);
  }

  /** Changing only a responder's phase. */
  lemma RespPhaseKeeps(w: World, w': World, e: nat, phase: RPhase)
    requires Inv(w) && e in w.resps && phase != SentReply && w.resps[e].phase != ResponderFailed
    requires w'.resps == w.resps[e := w.resps[e].(phase := phase)]
    requires w'.inits == w.inits && w'.devices == w.devices && w'.sigs == w.sigs && w'.macs == w.macs
    ensures Inv(w')
  {
    assert RespOk(w, e);
    assert RespReply(w', e, w'.resps[e]) == RespReply(w, e, w.resps[e]);
    Preserved(w, w', e, None, None);
  }

  /** What answering a reply adds: the exchange stands by it, and its signature and MAC are logged as its own. */
  lemma ReplyLogged(w: World, e: nat, m: Message, pin: Option<IdKey>, w': World)
    requires InitOk(w, e) && e in w.inits && w.inits[e].phase == SentHello && w.inits[e].dev in w.devices
             && Derivable(w, m)
    requires OnReply(w.devices[w.inits[e].dev], Honest(e), w.inits[e].m1, pin, m).Ok?
    requires var c := ConfirmFor(w.devices[w.inits[e].dev], Honest(e), w.inits[e].m1, m);
             w' == w.(inits := w.inits[e := w.inits[e].(phase := SentConfirm, reply := Some(m), pinSeen := pin)],
                      sigs := w.sigs[(c.sigI.key, c.sigI.text) := e],
                      macs := w.macs[(c.macI.key, c.macI.over) := e])
    requires w.devices[w.inits[e].dev].index == w.inits[e].dev
    ensures var c := ConfirmFor(w.devices[w.inits[e].dev], Honest(e), w.inits[e].m1, m);
            InitOk(w', e) && SigLogOk(w', (c.sigI.key, c.sigI.text)) && MacLogOk(w', (c.macI.key, c.macI.over))
  {}

  lemma ReplyTouches(w: World, e: nat, i: Init, sig: (IdKey, SignedText), mac: (MacKey, Digest), w': World)
    requires e in w.inits && i.dev == w.inits[e].dev && i.m1 == w.inits[e].m1 && w.inits[e].reply.None?
    requires w' == w.(inits := w.inits[e := i], sigs := w.sigs[sig := e], macs := w.macs[mac := e])
    ensures Grows(w, w') && TouchesOnly(w, w', e, Some(sig), Some(mac))
  {}

  lemma ReplyAccepted(w: World, e: nat, m: Message, pin: Option<IdKey>, w': World)
    requires Inv(w) && e in w.inits && w.inits[e].phase == SentHello && w.inits[e].dev in w.devices && Derivable(w, m)
    requires OnReply(w.devices[w.inits[e].dev], Honest(e), w.inits[e].m1, pin, m).Ok?
    requires var c := ConfirmFor(w.devices[w.inits[e].dev], Honest(e), w.inits[e].m1, m);
             w' == w.(inits := w.inits[e := w.inits[e].(phase := SentConfirm, reply := Some(m), pinSeen := pin)],
                      sigs := w.sigs[(c.sigI.key, c.sigI.text) := e],
                      macs := w.macs[(c.macI.key, c.macI.over) := e])
    ensures Inv(w')
  {
    assert InitOk(w, e) && RespOk(w, e);
    var c := ConfirmFor(w.devices[w.inits[e].dev], Honest(e), w.inits[e].m1, m);
    ReplyLogged(w, e, m, pin, w');
    ReplyTouches(w, e, w'.inits[e], (c.sigI.key, c.sigI.text), (c.macI.key, c.macI.over), w');
    Preserved(w, w', e, Some((c.sigI.key, c.sigI.text)), Some((c.macI.key, c.macI.over)));
  }

  lemma ReplyKeeps(w: World, e: nat, m: Message)
    requires Inv(w)
    ensures Inv(StepReply(w, e, m))
  {
    if e in w.inits && w.inits[e].phase == SentHello && w.inits[e].dev in w.devices && Derivable(w, m) {
      var w', i := StepReply(w, e, m), w.inits[e];
      var pin := if m.Reply? then PinAt(w, i.dev, m.body.deviceId) else None;
      if OnReply(w.devices[i.dev], Honest(e), i.m1, pin, m).Err? {
        InitPhaseKeeps(w, w', e);
      } else {
        ReplyAccepted(w, e, m, pin, w');
      }
    }
  }

  ghost predicate AwaitsConfirm(w: World, e: nat) {
    e in w.resps && w.resps[e].phase == SentReply && w.resps[e].dev in w.devices
  }

  /** Answering message 3 logs one MAC and changes one exchange that was still open. */
  lemma AnswerTouches(w: World, e: nat, mac: (MacKey, Digest), w': World)
    requires e in w.resps && w.resps[e].phase == SentReply && !w.resps[e].recorded && e in w'.resps
    requires w'.resps == w.resps[e := w'.resps[e]] && w'.resps[e].dev == w.resps[e].dev
    requires w'.resps[e].m1 == w.resps[e].m1 && w'.resps[e].nonce == w.resps[e].nonce
    requires w'.macs == w.macs[mac := e] && w'.inits == w.inits && w'.devices == w.devices && w'.sigs == w.sigs
    ensures Grows(w, w') && TouchesOnly(w, w', e, None, Some(mac))
  {}

  lemma ConfirmAccepted(w: World, e: nat, m: Message, w': World)
    requires Inv(w) && AwaitsConfirm(w, e) && Derivable(w, m)
    requires OnConfirm(w.devices[w.resps[e].dev], Honest(e), w.resps[e].m1, RespReply(w, e, w.resps[e]), None, m).Ok?
    requires var yes := AcceptFor(Honest(e), w.resps[e].m1, RespReply(w, e, w.resps[e]), m);
             && w'.resps == w.resps[e := w.resps[e].(phase := SentFinal, m3 := Some(m), recorded := true)]
             && w'.macs == w.macs[(yes.macF.key, yes.macF.over) := e]
    requires w'.inits == w.inits && w'.devices == w.devices && w'.sigs == w.sigs
    ensures Inv(w')
  {
    assert RespOk(w, e);
    var yes := AcceptFor(Honest(e), w.resps[e].m1, RespReply(w, e, w.resps[e]), m);
    assert RespReply(w', e, w'.resps[e]) == RespReply(w, e, w.resps[e]);
    assert RespOk(w', e);
    AnswerTouches(w, e, (yes.macF.key, yes.macF.over), w');
    Preserved(w, w', e, None, Some((yes.macF.key, yes.macF.over)));
  }

  lemma ConfirmRefused(w: World, e: nat, m: Message, w': World)
    requires Inv(w) && AwaitsConfirm(w, e)
    requires var no := RejectFor(Honest(e), w.resps[e].m1, RespReply(w, e, w.resps[e]), m);
             && w'.resps == w.resps[e := w.resps[e].(phase := ResponderFailed)]
             && w'.macs == w.macs[(no.macF.key, no.macF.over) := e]
    requires w'.inits == w.inits && w'.devices == w.devices && w'.sigs == w.sigs
    ensures Inv(w')
  {
    assert RespOk(w, e);
    var no := RejectFor(Honest(e), w.resps[e].m1, RespReply(w, e, w.resps[e]), m);
    assert RespReply(w', e, w'.resps[e]) == RespReply(w, e, w.resps[e]);
    assert RespOk(w', e);
    AnswerTouches(w, e, (no.macF.key, no.macF.over), w');
    Preserved(w, w', e, None, Some((no.macF.key, no.macF.over)));
  }

  lemma ConfirmKeeps(w: World, e: nat, m: Message, hookOk: bool)
    requires Inv(w)
    ensures Inv(StepConfirm(w, e, m, hookOk))
  {
    if AwaitsConfirm(w, e) && Derivable(w, m) {
      var w', r := StepConfirm(w, e, m, hookOk), w.resps[e];
      var pin := PinAt(w, r.dev, r.m1.deviceId);
      if OnConfirm(w.devices[r.dev], Honest(e), r.m1, RespReply(w, e, r), pin, m).Ok? && hookOk {
        ConfirmAccepted(w, e, m, w');
      } else {
        ConfirmRefused(w, e, m, w');
      }
    }
  }

  lemma FinalAccepted(w: World, e: nat, m: Message, w': World)
    requires Inv(w) && e in w.inits && w.inits[e].dev in w.devices && Derivable(w, m)
    requires w.inits[e].reply.Some? && w.inits[e].reply.value.Reply?
    requires OnFinal(w.devices[w.inits[e].dev], Honest(e), w.inits[e].m1, w.inits[e].reply.value, m).Ok?
    requires w'.inits == w.inits[e := w.inits[e].(phase := InitiatorDone)]
    requires w'.resps == w.resps && w'.devices == w.devices && w'.sigs == w.sigs && w'.macs == w.macs
    ensures Inv(w')
  {
    assert InitOk(w, e) && RespOk(w, e);
    assert InitOk(w', e);
    Preserved(w, w', e, None, None);
  }

  lemma FinalKeeps(w: World, e: nat, m: Message)
    requires Inv(w)
    ensures Inv(StepFinal(w, e, m))
  {
    if e in w.inits && w.inits[e].phase == SentConfirm && w.inits[e].dev in w.devices && Derivable(w, m)
       && w.inits[e].reply.Some? && w.inits[e].reply.value.Reply?
    {
      var w', i := StepFinal(w, e, m), w.inits[e];
      if OnFinal(w.devices[i.dev], Honest(e), i.m1, i.reply.value, m).Ok? {
        FinalAccepted(w, e, m, w');
      } else {
        InitPhaseKeeps(w, w', e);
      }
    }
  }

  lemma FinishKeeps(w: World, e: nat, sent: bool)
    requires Inv(w)
    ensures Inv(StepFinish(w, e, sent))
  {
    if e in w.resps && w.resps[e].phase == SentFinal {
      RespPhaseKeeps(w, StepFinish(w, e, sent), e, if sent then ResponderDone else ResponderFailed);
    }
  }

  lemma AbortKeeps(w: World, e: nat)
    requires Inv(w)
    ensures Inv(StepAbort(w, e))
  {
    if e in w.inits && w.inits[e].phase in {SentHello, SentConfirm} {
      InitPhaseKeeps(w, StepAbort(w, e), e);
    } else if e in w.resps && w.resps[e].phase == SentReply {
      RespPhaseKeeps(w, StepAbort(w, e), e, ResponderFailed);
    }
  }

  lemma StepKeeps(w: World, a: Action)
    requires Inv(w)
    ensures Inv(Apply(w, a))
  {
    match a
    case Initiate(e, dev, nonce) => InitiateKeeps(w, e, dev, nonce);
    case DeliverHello(e, dev, nonce, m) => HelloKeeps(w, e, dev, nonce, m);
    case DeliverReply(e, m) => ReplyKeeps(w, e, m);
    case DeliverConfirm(e, m, hookOk) => ConfirmKeeps(w, e, m, hookOk);
    case DeliverFinal(e, m) => FinalKeeps(w, e, m);
    case FinishResponder(e, sent) => FinishKeeps(w, e, sent);
    case Abort(e) => AbortKeeps(w, e);
  }

  lemma {:induction false} AlwaysInv(w: World, actions: seq<Action>)
    requires Inv(w)
    ensures Inv(Run(w, actions))
  {
    if actions != [] {
      AlwaysInv(w, actions[..|actions| - 1]);
      StepKeeps(Run(w, actions[..|actions| - 1]), actions[|actions| - 1]);
    }
  }

  // ----- agreement -----

  /** An initiator that confirmed with an honest device's identity: that device's exchange, named in the
      reply, had by then verified message 3 and recorded the session, over the same messages and with
      the same master secret (hence session id), opposite roles, each other's ports and the keys swapped. */
  ghost predicate AgreedWith(w: World, e: nat, partner: nat, d: nat) {
    && e in w.inits && partner in w.resps && w.inits[e].dev in w.devices && d in w.devices
    && w.resps[partner].dev == d && w.resps[partner].recorded
    && w.inits[e].reply == Some(RespReply(w, partner, w.resps[partner])) && w.resps[partner].m1 == w.inits[e].m1
    && w.resps[partner].m3 == Some(ConfirmFor(w.devices[w.inits[e].dev], Honest(e), w.inits[e].m1,
                                              w.inits[e].reply.value))
    && var body := w.inits[e].reply.value.body;
       var atI := OutcomeFor(Initiator, InitMaster(e, w.inits[e]), w.inits[e].m1, body);
       var atR := OutcomeFor(Responder, RespMaster(w, partner, w.resps[partner]), w.resps[partner].m1, body);
       Counterparts(w.devices[w.inits[e].dev], w.devices[d], atI, atR)
  }

  /** The exchange behind a reply that carries an honest device's signature. */
  lemma ReplyOrigin(w: World, e: nat, d: nat) returns (p: nat)
    requires Inv(w) && e in w.inits && w.inits[e].reply.Some? && w.inits[e].reply.value.Reply?
    requires w.inits[e].reply.value.body.idKey == DeviceKey(d)
    ensures p in w.resps && w.resps[p].dev == d && d in w.devices && w.resps[p].m1 == w.inits[e].m1
    ensures RespReply(w, p, w.resps[p]).body == w.inits[e].reply.value.body
    ensures w.inits[e].reply.value.body.eph == Honest(p)
    ensures InitMaster(e, w.inits[e]) == RespMaster(w, p, w.resps[p])
    ensures w.inits[e].reply.value == RespReply(w, p, w.resps[p])
  {
    assert InitOk(w, e);
    var i := w.inits[e];
    var k := (DeviceKey(d), ResponderSigned(T2(i.m1, i.reply.value.body)));
    assert k in w.sigs && SigLogOk(w, k);
    p := w.sigs[k];
    assert RespOk(w, p);
    assert Dh(Honest(e), Honest(p)) == Dh(Honest(p), Honest(e));
  }

  lemma InitiatorAgreement(w: World, e: nat, d: nat) returns (partner: nat)
    requires Inv(w) && e in w.inits && w.inits[e].phase == InitiatorDone && w.inits[e].reply.Some?
    requires w.inits[e].reply.value.Reply? && w.inits[e].reply.value.body.idKey == DeviceKey(d)
    ensures AgreedWith(w, e, partner, d)
  {
    partner := ReplyOrigin(w, e, d);
    assert InitOk(w, e);
    var i := w.inits[e];
    var accept := M4Accept(TFinalFor(i.m1, i.reply.value,
                                     ConfirmFor(w.devices[i.dev], Honest(e), i.m1, i.reply.value)));
    var k := (Kr(InitMaster(e, i)), accept);
    assert SecretShared(InitMaster(e, i).shared);
    assert k in w.macs && MacLogOk(w, k);
    var q := w.macs[k];
    assert RespOk(w, q) && RespOk(w, partner);
    assert RespReply(w, q, w.resps[q]).body.eph == Honest(q);
    assert q == partner;
  }

  /** A rejection an initiator believes is real: the honest device's exchange behind the reply has failed,
      without recording a session, and authenticated exactly the message 3 this initiator sent. */
  lemma RejectionIsAuthentic(w: World, e: nat, d: nat, m: Message) returns (partner: nat)
    requires Inv(w) && e in w.inits && w.inits[e].reply.Some? && w.inits[e].reply.value.Reply?
             && w.inits[e].dev in w.devices
    requires w.inits[e].reply.value.body.idKey == DeviceKey(d) && Derivable(w, m)
    requires OnFinal(w.devices[w.inits[e].dev], Honest(e), w.inits[e].m1, w.inits[e].reply.value, m) == Err(Rejected)
    ensures partner in w.resps && w.resps[partner].dev == d && d in w.devices && w.resps[partner].m1 == w.inits[e].m1
    ensures w.inits[e].reply == Some(RespReply(w, partner, w.resps[partner]))
    ensures w.resps[partner].phase == ResponderFailed && !w.resps[partner].recorded
    ensures m == RejectFor(Honest(partner), w.resps[partner].m1, RespReply(w, partner, w.resps[partner]),
                           ConfirmFor(w.devices[w.inits[e].dev], Honest(e), w.inits[e].m1, w.inits[e].reply.value))
  {
    partner := ReplyOrigin(w, e, d);
    var i := w.inits[e];
    var k := (m.macF.key, m.macF.over);
    assert m.macF.key == Kr(InitMaster(e, i)) && SecretShared(InitMaster(e, i).shared);
    assert k in w.macs && MacLogOk(w, k);
    var q := w.macs[k];
    assert RespOk(w, q) && RespOk(w, partner);
    assert RespReply(w, q, w.resps[q]).body.eph == Honest(q);
    assert q == partner;
  }

  /** The converse: a session recorded for an honest device's identity was confirmed by that device's own
      exchange, over the same messages and keys. */
  lemma ResponderAgreement(w: World, e: nat, d: nat) returns (partner: nat)
    requires Inv(w) && e in w.resps && w.resps[e].recorded && w.resps[e].m1.idKey == DeviceKey(d)
    ensures partner in w.inits && w.inits[partner].dev == d && w.inits[partner].m1 == w.resps[e].m1
    ensures w.resps[e].m1.eph == Honest(partner) && w.resps[e].dev in w.devices
    ensures w.inits[partner].reply == Some(RespReply(w, e, w.resps[e]))
    ensures InitMaster(partner, w.inits[partner]) == RespMaster(w, e, w.resps[e])
  {
    assert RespOk(w, e);
    var r := w.resps[e];
    var reply := RespReply(w, e, r);
    var k := (DeviceKey(d), InitiatorSigned(T2s(T2(r.m1, reply.body), reply.sigR)));
    assert k in w.sigs && SigLogOk(w, k);
    partner := w.sigs[k];
    assert InitOk(w, partner);
    assert Dh(Honest(e), Honest(partner)) == Dh(Honest(partner), Honest(e));
  }

  /** No responder exchange is the partner of two initiators. */
  lemma AgreementInjective(w: World, e: nat, e': nat, partner: nat, d: nat, d': nat)
    requires Inv(w) && AgreedWith(w, e, partner, d) && AgreedWith(w, e', partner, d')
    ensures e == e'
  {
    assert InitOk(w, e) && InitOk(w, e');
  }

  lemma StartInv(devices: map<nat, Device>, trust: map<nat, TrustStore>)
    requires forall d :: d in devices ==> devices[d].index == d
    ensures Inv(Start(devices, trust))
  {}

  /** In every run from an idle network, confirmation by an initiator implies agreement. */
  lemma Agreement(devices: map<nat, Device>, trust: map<nat, TrustStore>, actions: seq<Action>, e: nat, d: nat)
    returns (partner: nat)
    requires forall d :: d in devices ==> devices[d].index == d
    requires var w := Run(Start(devices, trust), actions);
             && e in w.inits && w.inits[e].phase == InitiatorDone && w.inits[e].reply.Some?
             && w.inits[e].reply.value.Reply? && w.inits[e].reply.value.body.idKey == DeviceKey(d)
    ensures AgreedWith(Run(Start(devices, trust), actions), e, partner, d)
  {
    StartInv(devices, trust);
    AlwaysInv(Start(devices, trust), actions);
    partner := InitiatorAgreement(Run(Start(devices, trust), actions), e, d);
  }

  // ----- honest exchanges complete -----

  lemma RunFive(w: World, a: Action, b: Action, c: Action, d: Action, e: Action)
    ensures Run(w, [a, b, c, d, e][..4]) == Apply(Apply(Apply(Apply(w, a), b), c), d)
    ensures Run(w, [a, b, c, d, e]) == Apply(Apply(Apply(Apply(Apply(w, a), b), c), d), e)
  {
    var five, four, three, two, one := [a, b, c, d, e], [a, b, c, d], [a, b, c], [a, b], [a];
    assert five[..4] == four && four[..3] == three && three[..2] == two && two[..1] == one && one[..0] == [];
    assert Run(w, one) == Apply(w, a);
    assert Run(w, two) == Apply(Run(w, one), b);
    assert Run(w, three) == Apply(Run(w, two), c);
    assert Run(w, four) == Apply(Run(w, three), d);
  }

  /** Two devices with a free slot between them and no other key pinned for either. */
  ghost predicate CanMeet(w: World, e: nat, f: nat, dev: nat, dev': nat) {
    && Inv(w) && e != f && FreshExchange(w, e, dev) && FreshExchange(w, f, dev') && dev != dev'
    && w.devices[dev].id != w.devices[dev'].id && OpenCount(w, dev') < w.devices[dev'].maxHalfOpen
    && !PinConflicts(PinAt(w, dev, w.devices[dev'].id), w.devices[dev'].Key())
    && !PinConflicts(PinAt(w, dev', w.devices[dev].id), w.devices[dev].Key())
  }

  /** The four messages of the exchange `e` of `a` with the exchange `f` of `b`. */
  function Message1(a: Device, e: nat, n: nat): Intro {
    a.Introduce(Honest(e), n)
  }

  function Message2(b: Device, f: nat, n': nat, m1: Intro): Message {
    ReplyFor(b, Honest(f), n', m1)
  }

  /** After messages 1 and 2: both exchanges exist, and what the responder made is logged. */
  lemma HonestReplySent(w: World, e: nat, f: nat, dev: nat, dev': nat, n: nat, n': nat)
    requires CanMeet(w, e, f, dev, dev')
    ensures var m1 := Message1(w.devices[dev], e, n);
            var m2 := Message2(w.devices[dev'], f, n', m1);
            var w' := Apply(Apply(w, Initiate(e, dev, n)), DeliverHello(f, dev', n', Hello(m1)));
            && w'.devices == w.devices && w'.trust == w.trust && Derivable(w', m2)
            && e in w'.inits && w'.inits[e] == Init(dev, SentHello, m1, None, None)
            && f in w'.resps && w'.resps[f] == Resp(dev', SentReply, m1, n', None, false)
  {
    assert w.devices[dev].index == dev && w.devices[dev'].index == dev';
  }

  /** After message 3 left: the initiator stands by the reply, and what it made is logged. */
  lemma HonestConfirmSent(w: World, e: nat, f: nat, dev: nat, dev': nat, n: nat, n': nat)
    requires dev in w.devices && dev' in w.devices && w.devices[dev].index == dev && w.devices[dev'].index == dev'
    requires dev != dev' && w.devices[dev].id != w.devices[dev'].id
    requires !PinConflicts(PinAt(w, dev, w.devices[dev'].id), w.devices[dev'].Key())
    requires var m1 := Message1(w.devices[dev], e, n);
             && e in w.inits && w.inits[e] == Init(dev, SentHello, m1, None, None)
             && Derivable(w, Message2(w.devices[dev'], f, n', m1))
    ensures var m1 := Message1(w.devices[dev], e, n);
            var m2 := Message2(w.devices[dev'], f, n', m1);
            var w' := Apply(w, DeliverReply(e, m2));
            && w'.devices == w.devices && w'.trust == w.trust && w'.resps == w.resps
            && Derivable(w', ConfirmFor(w.devices[dev], Honest(e), m1, m2))
            && e in w'.inits && w'.inits[e].phase == SentConfirm && w'.inits[e].dev == dev && w'.inits[e].m1 == m1
            && w'.inits[e].reply == Some(m2)
  {
    assert Dh(Honest(e), Honest(f)) == Dh(Honest(f), Honest(e));
  }

  /** After message 3 arrived: the session is recorded, and the accept is logged. */
  lemma HonestConfirmAccepted(w: World, e: nat, f: nat, dev: nat, dev': nat, n: nat, n': nat)
    requires dev in w.devices && dev' in w.devices && w.devices[dev].index == dev
    requires !PinConflicts(PinAt(w, dev', w.devices[dev].id), w.devices[dev].Key())
    requires var m1 := Message1(w.devices[dev], e, n);
             && f in w.resps && w.resps[f] == Resp(dev', SentReply, m1, n', None, false)
             && Derivable(w, ConfirmFor(w.devices[dev], Honest(e), m1, Message2(w.devices[dev'], f, n', m1)))
    ensures var m1 := Message1(w.devices[dev], e, n);
            var m2 := Message2(w.devices[dev'], f, n', m1);
            var m3 := ConfirmFor(w.devices[dev], Honest(e), m1, m2);
            var w' := Apply(w, DeliverConfirm(f, m3, true));
            && w'.devices == w.devices && w'.inits == w.inits && f in w'.resps && w'.resps[f].recorded
            && Derivable(w', AcceptFor(Honest(f), m1, m2, m3))
  {
    assert Dh(Honest(e), Honest(f)) == Dh(Honest(f), Honest(e));
  }

  /** After message 4: the initiator has confirmed. */
  lemma HonestFinalAccepted(w: World, e: nat, f: nat, dev: nat, dev': nat, n: nat, n': nat)
    requires dev in w.devices && dev' in w.devices && e in w.inits && w.inits[e].dev == dev
    requires var m1 := Message1(w.devices[dev], e, n);
             var m2 := Message2(w.devices[dev'], f, n', m1);
             && w.inits[e].phase == SentConfirm && w.inits[e].m1 == m1 && w.inits[e].reply == Some(m2)
             && Derivable(w, AcceptFor(Honest(f), m1, m2, ConfirmFor(w.devices[dev], Honest(e), m1, m2)))
    ensures var m1 := Message1(w.devices[dev], e, n);
            var m2 := Message2(w.devices[dev'], f, n', m1);
            var m4 := AcceptFor(Honest(f), m1, m2, ConfirmFor(w.devices[dev], Honest(e), m1, m2));
            var w' := Apply(w, DeliverFinal(e, m4));
            && w'.resps == w.resps && e in w'.inits && w'.inits[e].phase == InitiatorDone
  {
    assert Dh(Honest(e), Honest(f)) == Dh(Honest(f), Honest(e));
  }

  /** In any world of any run, two devices that can meet complete the handshake over the adversary's network, as
      soon as it delivers their messages: honest messages are deliverable, the session is recorded and the
      initiator confirms. */
  lemma HonestRunCompletes(w: World, e: nat, f: nat, dev: nat, dev': nat, n: nat, n': nat)
    requires CanMeet(w, e, f, dev, dev')
    ensures var m1 := Message1(w.devices[dev], e, n);
            var m2 := Message2(w.devices[dev'], f, n', m1);
            var m3 := ConfirmFor(w.devices[dev], Honest(e), m1, m2);
            var w' := Run(w, [Initiate(e, dev, n), DeliverHello(f, dev', n', Hello(m1)), DeliverReply(e, m2),
                              DeliverConfirm(f, m3, true), DeliverFinal(e, AcceptFor(Honest(f), m1, m2, m3))]);
            && e in w'.inits && w'.inits[e].phase == InitiatorDone && f in w'.resps && w'.resps[f].recorded
  {
    var m1 := Message1(w.devices[dev], e, n);
    var m2 := Message2(w.devices[dev'], f, n', m1);
    var m3 := ConfirmFor(w.devices[dev], Honest(e), m1, m2);
    var a, b := Initiate(e, dev, n), DeliverHello(f, dev', n', Hello(m1));
    var c, d := DeliverReply(e, m2), DeliverConfirm(f, m3, true);
    RunFive(w, a, b, c, d, DeliverFinal(e, AcceptFor(Honest(f), m1, m2, m3)));
    HonestReplySent(w, e, f, dev, dev', n, n');
    var w2 := Apply(Apply(w, a), b);
    HonestConfirmSent(w2, e, f, dev, dev', n, n');
    HonestConfirmAccepted(Apply(w2, c), e, f, dev, dev', n, n');
    HonestFinalAccepted(Apply(Apply(w2, c), d), e, f, dev, dev', n, n');
  }
}
