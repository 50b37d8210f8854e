/** The other half of delivery: honest frames get through, and no run uses a nonce twice under a key. */
module HonestDelivery {
  import opened Results
  import opened Wire
  import opened Frames
  import opened Packets
  import opened Sessions
  import opened ChannelSpec
  import opened ChannelProperties
  import opened Delivery

  /** Decryption succeeds only on what encryption produced, from one plaintext, key and associated data. */
  ghost predicate Committing(suite: Suite) {
    && (forall e, k, a :: suite.decrypt(e, k, a).Some? ==>
          suite.encrypt(suite.decrypt(e, k, a).value, k, e.nonce, a).(nonce := e.nonce) == e)
    && (forall p, k, n, a, p', k', a' ::
          suite.encrypt(p, k, n, a).(nonce := n) == suite.encrypt(p', k', n, a').(nonce := n) ==>
            p == p' && k == k' && a == a')
  }

  // ----- such a cipher exists -----

  /** A byte string that shows where it ends. */
  function Delimited(s: Bytes): Bytes {
    if s == [] then [0] else [1, s[0]] + Delimited(s[1..])
  }

  lemma {:induction false} DelimitedUnique(s: Bytes, x: Bytes, t: Bytes, y: Bytes)
    requires Delimited(s) + x == Delimited(t) + y
    ensures s == t && x == y
  {
    assert (Delimited(s) + x)[0] == Delimited(s)[0] && (Delimited(t) + y)[0] == Delimited(t)[0];
    if s != [] {
      assert t != [];
      assert Delimited(s) + x == [1, s[0]] + (Delimited(s[1..]) + x);
      assert Delimited(t) + y == [1, t[0]] + (Delimited(t[1..]) + y);
      SplitEqual([1, s[0]], Delimited(s[1..]) + x, [1, t[0]], Delimited(t[1..]) + y);
      assert s[0] == [1, s[0]][1] == [1, t[0]][1] == t[0];
      DelimitedUnique(s[1..], x, t[1..], y);
      assert s == [s[0]] + s[1..] && t == [t[0]] + t[1..];
    } else {
      SplitEqual([0], x, [0], y);
    }
  }

  function Together(p: Bytes, k: Bytes, a: Bytes): Bytes {
    Delimited(p) + (Delimited(k) + (Delimited(a) + []))
  }

  lemma TogetherUnique(p: Bytes, k: Bytes, a: Bytes, p': Bytes, k': Bytes, a': Bytes)
    requires Together(p, k, a) == Together(p', k', a')
    ensures p == p' && k == k' && a == a'
  {
    DelimitedUnique(p, Delimited(k) + (Delimited(a) + []), p', Delimited(k') + (Delimited(a') + []));
    DelimitedUnique(k, Delimited(a) + [], k', Delimited(a') + []);
    DelimitedUnique(a, [], a', []);
  }

  const NoTag: Bytes := [0, 0, 0, 0, 0, 0, 0, 0, 0, 0, 0, 0, 0, 0, 0, 0]

  function Wrap(p: Bytes, k: Bytes, n: Bytes, a: Bytes): Encrypted {
    Encrypted(Together(p, k, a), n, NoTag)
  }

  /** What stands before the first end mark. */
  function First(b: Bytes): Bytes {
    if |b| < 2 || b[0] != 1 then [] else [b[1]] + First(b[2..])
  }

  lemma {:induction false} FirstOfDelimited(s: Bytes, x: Bytes)
    ensures First(Delimited(s) + x) == s
  {
    var b := Delimited(s) + x;
    if s == [] {
      assert b[0] == 0;
    } else {
      assert b == [1, s[0]] + (Delimited(s[1..]) + x);
      assert b[0] == 1 && b[1] == s[0] && b[2..] == Delimited(s[1..]) + x;
      FirstOfDelimited(s[1..], x);
      assert s == [s[0]] + s[1..];
    }
  }

  function Unwrap(e: Encrypted, k: Bytes, a: Bytes): Option<Bytes> {
    var p := First(e.ciphertext);
    if e == Wrap(p, k, e.nonce, a) then Some(p) else None
  }

  lemma UnwrapInvertsWrap(p: Bytes, k: Bytes, n: Bytes, a: Bytes)
    ensures Unwrap(Wrap(p, k, n, a), k, a) == Some(p)
  {
    FirstOfDelimited(p, Delimited(k) + (Delimited(a) + []));
  }

  /** The hypotheses on the cipher can be met together, with any lawful payload codec. */
  lemma CommittingCipherExists(codec: Codec) returns (suite: Suite)
    requires Lawful(codec)
    ensures suite.codec == codec && LawfulSuite(suite) && Committing(suite)
  {
    suite := Suite(codec, (p, k, n, a) => Wrap(p, k, n, a), (e, k, a) => Unwrap(e, k, a));
    forall p, k, n, a ensures suite.decrypt(suite.encrypt(p, k, n, a).(nonce := n), k, a) == Some(p) {
      UnwrapInvertsWrap(p, k, n, a);
    }
    forall p, k, n, a, p', k', a' | Wrap(p, k, n, a) == Wrap(p', k', n, a') ensures p == p' && k == k' && a == a' {
      TogetherUnique(p, k, a, p', k', a');
    }
  }

  // ----- honest frames are deliverable -----

  lemma OneOrigin(suite: Suite, c: CipherInput, key: Bytes, aad: Bytes)
    requires Committing(suite)
    ensures var e := Encipher(suite, c).(nonce := c.nonce);
            suite.decrypt(e, key, aad).Some? ==> CipherInput(suite.decrypt(e, key, aad).value, key, e.nonce, aad) == c
  {}

  /** A frame that carries a recorded seal passes for unforged, under any secret keys. */
  lemma SealedIsUnforged(suite: Suite, secret: set<Bytes>, seals: seq<SealEvent>, j: nat, h: FrameHeader, frame: Bytes)
    requires Committing(suite) && j < |seals| && ByteFields(h)
    requires EncodeFrame(h, Encipher(suite, seals[j].input).(nonce := seals[j].input.nonce)) == Ok(frame)
    ensures Unforged(suite, secret, seals, frame)
  {
    var c := seals[j].input;
    var e := Encipher(suite, c).(nonce := c.nonce);
    SplitInvertsEncode(h, e);
    forall key, aad | key in secret && suite.decrypt(e, key, aad).Some?
      ensures seals[j].input == CipherInput(suite.decrypt(e, key, aad).value, key, e.nonce, aad)
    {
      OneOrigin(suite, c, key, aad);
    }
  }

  lemma SealsStep(suite: Suite, secret: set<Bytes>, w: World, a: Action)
    ensures w.seals <= Apply(suite, secret, w, a).seals
  {}

  lemma {:induction false} SealsGrow(suite: Suite, secret: set<Bytes>, actions: seq<Action>, k: nat)
    requires k <= |actions|
    ensures Run(suite, secret, actions[..k]).seals <= Run(suite, secret, actions).seals
    decreases |actions|
  {
    if k == |actions| {
      assert actions[..k] == actions;
    } else {
      var n := |actions| - 1;
      assert actions[..n][..k] == actions[..k];
      SealsGrow(suite, secret, actions[..n], k);
      SealsStep(suite, secret, Run(suite, secret, actions[..n]), actions[n]);
    }
  }

  /** Action `k` of the run seals `frame` on a live session. */
  ghost predicate Sealed(suite: Suite, secret: set<Bytes>, actions: seq<Action>, k: nat, frame: Bytes) {
    && k < |actions| && actions[k].Send?
    && var a, w := actions[k], Run(suite, secret, actions[..k]);
       && Delivery.Live(w, a.device, a.sid)
       && Seal(suite, a.device, w.tables[a.device][a.sid], a.packetType, a.payload, a.nowMs, a.now).1 == Ok(frame)
  }

  /** What the run has logged for it. */
  ghost function LoggedSeal(suite: Suite, secret: set<Bytes>, actions: seq<Action>, k: nat, frame: Bytes): SealEvent
    requires Sealed(suite, secret, actions, k, frame)
  {
    var a, w := actions[k], Run(suite, secret, actions[..k]);
    var s := w.tables[a.device][a.sid];
    SealedBy(a.device, s, a.packetType, a.payload, a.nowMs,
             Prepare(suite, a.device, s, s.nextSendCounter, a.packetType, a.payload, a.nowMs).value)
  }

  lemma SealIsLogged(suite: Suite, secret: set<Bytes>, actions: seq<Action>, k: nat, frame: Bytes)
    requires Lawful(suite.codec) && Sealed(suite, secret, actions, k, frame)
    ensures LoggedSeal(suite, secret, actions, k, frame) in Run(suite, secret, actions).seals
    ensures SealOk(suite, LoggedSeal(suite, secret, actions, k, frame))
  {
    var a, w := actions[k], Run(suite, secret, actions[..k]);
    AlwaysInv(suite, secret, actions[..k]);
    assert SessionOk(w, a.device, a.sid);
    SealEventOk(suite, a.device, w.tables[a.device][a.sid], a.packetType, a.payload, a.nowMs);
    assert actions[..k + 1][..k] == actions[..k];
    var e, seals := LoggedSeal(suite, secret, actions, k, frame), Run(suite, secret, actions[..k + 1]).seals;
    assert seals == w.seals + [e];
    SealsGrow(suite, secret, actions, k + 1);
    assert e == seals[|seals| - 1];
  }

  /** Whatever a run has sealed can be delivered at any later point of it: the network's hypothesis holds of it. */
  lemma HonestFramesAreUnforged(suite: Suite, secret: set<Bytes>, actions: seq<Action>, k: nat, frame: Bytes)
    requires Lawful(suite.codec) && Committing(suite) && Sealed(suite, secret, actions, k, frame)
    ensures Unforged(suite, secret, Run(suite, secret, actions).seals, frame)
  {
    SealIsLogged(suite, secret, actions, k, frame);
    var e, seals := LoggedSeal(suite, secret, actions, k, frame), Run(suite, secret, actions).seals;
    var j :| 0 <= j < |seals| && seals[j] == e;
    SealedIsUnforged(suite, secret, seals, j, FrameHeader(FRAME_VERSION, e.direction, e.packetType, e.sid.raw), frame);
  }

  /** And it is delivered: at the other end of the session, with room in the window and clocks that agree, the
      arrival adds one opened frame, which matches what was sealed. */
  lemma HonestFrameIsDelivered(suite: Suite, secret: set<Bytes>, actions: seq<Action>, k: nat, frame: Bytes,
                               d: Name, nowMs: int, maxSkewMs: int, now: real)
    requires LawfulSuite(suite) && Committing(suite) && Sealed(suite, secret, actions, k, frame)
    requires var a, w := actions[k], Run(suite, secret, actions);
             var s := Run(suite, secret, actions[..k]).tables[a.device][a.sid];
             && Delivery.Live(w, d, s.sessionId) && Ends(a.device, s, d, w.tables[d][s.sessionId])
             && w.tables[d][s.sessionId].window.WouldAccept(s.nextSendCounter) && WithinSkew(a.nowMs, nowMs, maxSkewMs)
    ensures var w := Run(suite, secret, actions);
            var w' := Run(suite, secret, actions + [Arrive(d, frame, nowMs, maxSkewMs, now)]);
            && |w'.opens| == |w.opens| + 1 && w'.opens[..|w.opens|] == w.opens
            && Matches(w'.opens[|w.opens|], LoggedSeal(suite, secret, actions, k, frame))
  {
    var a, w := actions[k], Run(suite, secret, actions);
    var s := Run(suite, secret, actions[..k]).tables[a.device][a.sid];
    HonestFramesAreUnforged(suite, secret, actions, k, frame);
    var longer := actions + [Arrive(d, frame, nowMs, maxSkewMs, now)];
    assert longer[..|actions|] == actions;
    FrameDoesNotDependOnTime(suite, a.device, s, a.packetType, a.payload, a.nowMs, a.now, now);
    SealedFrameOpens(suite, a.device, s, d, w.tables[d], a.packetType, a.payload, a.nowMs, nowMs, maxSkewMs, now);
  }

  lemma FrameDoesNotDependOnTime(suite: Suite, own: Name, s: Session, packetType: int, payload: Payload, nowMs: int,
                                 t: real, u: real)
    ensures Seal(suite, own, s, packetType, payload, nowMs, t).1 == Seal(suite, own, s, packetType, payload, nowMs, u).1
  {}

  // ----- no nonce twice under a key -----

  /** No send key was recorded twice for one direction. */
  ghost predicate SendKeysDistinct(w: World) {
    forall i, j :: 0 <= i < j < |w.records| ==>
      w.records[i].session.sendKey != w.records[j].session.sendKey
      || w.records[i].session.role != w.records[j].session.role
  }

  lemma DistinctKeysMeanEnds(w: World)
    requires SendKeysDistinct(w)
    ensures SendEndsDistinct(w)
    ensures forall e, f | e in SendEnds(w) && f in SendEnds(w) ::
              e.key == f.key && e.direction == f.direction ==> e == f
  {}

  /** In every run in which no send key is recorded twice for one direction, no two frames are sealed under one
      key with one nonce. */
  lemma NoNonceRepeatsInRuns(suite: Suite, secret: set<Bytes>, actions: seq<Action>, i: nat, j: nat)
    requires Lawful(suite.codec) && SendKeysDistinct(Run(suite, secret, actions))
    requires i < j < |Run(suite, secret, actions).seals|
    ensures var seals := Run(suite, secret, actions).seals;
            seals[i].input.key == seals[j].input.key ==> seals[i].input.nonce != seals[j].input.nonce
  {
    var w := Run(suite, secret, actions);
    DistinctKeysMeanEnds(w);
    AlwaysInv(suite, secret, actions);
    AlwaysSendInv(suite, secret, actions);
    var a, b := w.seals[i], w.seals[j];
    if a.input.key == b.input.key && a.input.nonce == b.input.nonce {
      assert SealOk(suite, a) && SealOk(suite, b);
      NonceInjective(a.direction, a.counter, b.direction, b.counter);
    }
  }

  /** Two sessions recorded for two places, and the first frame of each: they share key and nonce exactly when
      the sessions share send key and role. */
  lemma NonceRepeatsExactly(suite: Suite, secret: set<Bytes>, d: Name, s: Session, d': Name, s': Session,
                            packetType: int, payload: Payload, nowMs: int, now: real)
    requires FreshSession(s) && FreshSession(s') && (d != d' || s.sessionId != s'.sessionId)
    requires Seal(suite, d, s, packetType, payload, nowMs, now).1.Ok?
    requires Seal(suite, d', s', packetType, payload, nowMs, now).1.Ok?
    ensures var w := Run(suite, secret, [Record(d, s), Record(d', s'),
                                         Send(d, s.sessionId, packetType, payload, nowMs, now),
                                         Send(d', s'.sessionId, packetType, payload, nowMs, now)]);
            && |w.seals| == 2
            && (w.seals[0].input.key == w.seals[1].input.key && w.seals[0].input.nonce == w.seals[1].input.nonce
                <==> s.sendKey == s'.sendKey && s.role == s'.role)
  {
    var w2 := BothRecorded(suite, secret, d, s, d', s');
    FirstTwoSeals(suite, secret, w2, d, s, d', s', packetType, payload, nowMs, now);
    RunFour(suite, secret, Record(d, s), Record(d', s'), Send(d, s.sessionId, packetType, payload, nowMs, now),
            Send(d', s'.sessionId, packetType, payload, nowMs, now));
  }

  lemma FirstTwoSeals(suite: Suite, secret: set<Bytes>, w: World, d: Name, s: Session, d': Name, s': Session,
                      packetType: int, payload: Payload, nowMs: int, now: real)
    requires Delivery.Live(w, d, s.sessionId) && w.tables[d][s.sessionId] == s && FreshSession(s) && w.seals == []
    requires Delivery.Live(w, d', s'.sessionId) && w.tables[d'][s'.sessionId] == s' && FreshSession(s')
    requires d != d' || s.sessionId != s'.sessionId
    requires Seal(suite, d, s, packetType, payload, nowMs, now).1.Ok?
    requires Seal(suite, d', s', packetType, payload, nowMs, now).1.Ok?
    ensures var one := Apply(suite, secret, w, Send(d, s.sessionId, packetType, payload, nowMs, now));
            var seals := Apply(suite, secret, one, Send(d', s'.sessionId, packetType, payload, nowMs, now)).seals;
            && |seals| == 2
            && (seals[0].input.key == seals[1].input.key && seals[0].input.nonce == seals[1].input.nonce
                <==> s.sendKey == s'.sendKey && s.role == s'.role)
  {
    SendAppends(suite, secret, w, d, s.sessionId, packetType, payload, nowMs, now);
    var one := Apply(suite, secret, w, Send(d, s.sessionId, packetType, payload, nowMs, now));
    assert Delivery.Live(one, d', s'.sessionId) && one.tables[d'][s'.sessionId] == s';
    SendAppends(suite, secret, one, d', s'.sessionId, packetType, payload, nowMs, now);
    if DeriveNonce(OutgoingDirection(s.role), 1) == DeriveNonce(OutgoingDirection(s'.role), 1) {
      NonceInjective(OutgoingDirection(s.role), 1, OutgoingDirection(s'.role), 1);
    }
  }

  lemma RunFour(suite: Suite, secret: set<Bytes>, a: Action, b: Action, c: Action, d: Action)
    ensures var w := World(map[], [], [], []);
            Run(suite, secret, [a, b, c, d])
            == Apply(suite, secret, Apply(suite, secret, Apply(suite, secret, Apply(suite, secret, w, a), b), c), d)
  {
    RunMore(suite, secret, [], a);
    assert [] + [a] == [a];
    RunMore(suite, secret, [a], b);
    assert [a] + [b] == [a, b];
    RunMore(suite, secret, [a, b], c);
    assert [a, b] + [c] == [a, b, c];
    RunMore(suite, secret, [a, b, c], d);
    assert [a, b, c] + [d] == [a, b, c, d];
  }

  lemma RunMore(suite: Suite, secret: set<Bytes>, actions: seq<Action>, a: Action)
    ensures Run(suite, secret, actions + [a]) == Apply(suite, secret, Run(suite, secret, actions), a)
  {
    assert (actions + [a])[..|actions|] == actions;
  }

  lemma BothRecorded(suite: Suite, secret: set<Bytes>, d: Name, s: Session, d': Name, s': Session) returns (w: World)
    requires FreshSession(s) && FreshSession(s') && (d != d' || s.sessionId != s'.sessionId)
    ensures w == Apply(suite, secret, Apply(suite, secret, World(map[], [], [], []), Record(d, s)), Record(d', s'))
    ensures w.seals == [] && w.opens == []
    ensures Delivery.Live(w, d, s.sessionId) && w.tables[d][s.sessionId] == s
    ensures Delivery.Live(w, d', s'.sessionId) && w.tables[d'][s'.sessionId] == s'
  {
    var w1 := Apply(suite, secret, World(map[], [], [], []), Record(d, s));
    assert w1.tables == map[d := map[s.sessionId := s]];
    w := Apply(suite, secret, w1, Record(d', s'));
  }

  /** A send that succeeds logs its seal and touches no other session. */
  lemma SendAppends(suite: Suite, secret: set<Bytes>, w: World, d: Name, sid: Name,
                    packetType: int, payload: Payload, nowMs: int, now: real)
    requires Delivery.Live(w, d, sid) && Seal(suite, d, w.tables[d][sid], packetType, payload, nowMs, now).1.Ok?
    ensures var w', s := Apply(suite, secret, w, Send(d, sid, packetType, payload, nowMs, now)), w.tables[d][sid];
            var c := Prepare(suite, d, s, s.nextSendCounter, packetType, payload, nowMs);
            && c.Ok? && w'.seals == w.seals + [SealedBy(d, s, packetType, payload, nowMs, c.value)]
            && c.value.key == s.sendKey && w'.opens == w.opens
            && DeriveNonce(OutgoingDirection(s.role), s.nextSendCounter) == Ok(c.value.nonce)
            && forall d', sid' | Delivery.Live(w, d', sid') && (d' != d || sid' != sid) ::
                 Delivery.Live(w', d', sid') && w'.tables[d'][sid'] == w.tables[d'][sid']
  {}

  // ----- an end recorded twice -----

  /** Drop the session, record its id again, and let the frame arrive once more. */
  ghost function Renewed(suite: Suite, secret: set<Bytes>, w: World, d: Name, again: Session): World {
    Apply(suite, secret, Apply(suite, secret, w, Drop(d, again.sessionId)), Record(d, again))
  }

  /** After a frame was opened, its session dropped and its id recorded again: the same frame is opened once more,
      to the same event, exactly when the same end was recorded and the frame's counter lies in the fresh window.
      With another peer, role or key the id can be used again. */
  lemma RecordedTwiceOpensTwice(suite: Suite, secret: set<Bytes>, w: World, d: Name, frame: Bytes,
                                nowMs: int, maxSkewMs: int, now: real, again: Session)
    requires d in w.tables && Unforged(suite, secret, w.seals, frame) && FreshSession(again)
    requires var r := Open(suite, d, w.tables[d], frame, nowMs, maxSkewMs, now).1;
             r.Ok? && again.sessionId == r.value.sessionId && w.tables[d][again.sessionId].sessionId == again.sessionId
    ensures var s, r := w.tables[d][again.sessionId], Open(suite, d, w.tables[d], frame, nowMs, maxSkewMs, now).1.value;
            var o := OpenedBy(d, s, r);
            var once := Apply(suite, secret, w, Arrive(d, frame, nowMs, maxSkewMs, now));
            var renewed := Renewed(suite, secret, once, d, again);
            && once.opens == w.opens + [o]
            && (Apply(suite, secret, renewed, Arrive(d, frame, nowMs, maxSkewMs, now)).opens == w.opens + [o, o]
                <==> ReceiveEnd(d, again) == ReceiveEnd(d, s) && o.counter <= again.window.size)
  {
    var s, r := w.tables[d][again.sessionId], Open(suite, d, w.tables[d], frame, nowMs, maxSkewMs, now).1.value;
    var once := Apply(suite, secret, w, Arrive(d, frame, nowMs, maxSkewMs, now));
    var renewed := Renewed(suite, secret, once, d, again);
    assert renewed.seals == w.seals && renewed.opens == once.opens && d in renewed.tables;
    assert renewed.tables[d] == w.tables[d][again.sessionId := again];
    if ReceiveEnd(d, again) == ReceiveEnd(d, s) {
      RecordedAgainOpensAgain(suite, d, w.tables[d], frame, nowMs, maxSkewMs, now, again);
    }
    SecondEvent(suite, secret, renewed, d, frame, nowMs, maxSkewMs, now, OpenedBy(d, s, r), again);
  }

  /** What the second arrival adds, if anything, is an event of the end recorded last. */
  lemma SecondEvent(suite: Suite, secret: set<Bytes>, w: World, d: Name, frame: Bytes,
                    nowMs: int, maxSkewMs: int, now: real, o: OpenEvent, again: Session)
    requires d in w.tables && o.sid in w.tables[d] && w.tables[d][o.sid] == again && again.sessionId == o.sid
    requires SplitFrame(frame).Ok? && Name(SplitFrame(frame).value.0.sessionId) == o.sid
    ensures var w' := Apply(suite, secret, w, Arrive(d, frame, nowMs, maxSkewMs, now));
            || w'.opens == w.opens
            || (|w'.opens| == |w.opens| + 1 && w'.opens[|w.opens|].At() == ReceiveEnd(d, again))
  {}

  /** The whole run from the empty world: two devices record their ends of one session, one frame is sent and
      arrives, the receiver drops the session and records the same end again, the frame arrives again. It is
      opened twice. */
  lemma ReplayRun(suite: Suite, secret: set<Bytes>, a: Name, s: Session, b: Name, t: Session,
                  packetType: int, payload: Payload, nowMs: int, maxSkewMs: int, now: real, frame: Bytes)
    requires LawfulSuite(suite) && Committing(suite) && FreshSession(s) && FreshSession(t) && a != b && Ends(a, s, b, t)
    requires Seal(suite, a, s, packetType, payload, nowMs, now).1 == Ok(frame) && maxSkewMs >= 0
    ensures var arrive := Arrive(b, frame, nowMs, maxSkewMs, now);
            var before := [Record(a, s), Record(b, t), Send(a, s.sessionId, packetType, payload, nowMs, now)];
            var once := Run(suite, secret, before + [arrive]);
            var twice := Run(suite, secret, before + [arrive] + [Drop(b, t.sessionId)] + [Record(b, t)] + [arrive]);
            |once.opens| == 1 && twice.opens == [once.opens[0], once.opens[0]]
  {
    var send, arrive := Send(a, s.sessionId, packetType, payload, nowMs, now), Arrive(b, frame, nowMs, maxSkewMs, now);
    var before := [Record(a, s), Record(b, t), send];
    var w3 := ReadyToDeliver(suite, secret, a, s, b, t, packetType, payload, nowMs, now, frame);
    HonestFrameIsDelivered(suite, secret, before, 2, frame, b, nowMs, maxSkewMs, now);
    HonestFramesAreUnforged(suite, secret, before, 2, frame);
    RecordedTwiceOpensTwice(suite, secret, w3, b, frame, nowMs, maxSkewMs, now, t);
    RunRenewed(suite, secret, before, arrive, b, t);
  }

  lemma RunRenewed(suite: Suite, secret: set<Bytes>, before: seq<Action>, arrive: Action, d: Name, again: Session)
    ensures var once := Apply(suite, secret, Run(suite, secret, before), arrive);
            && Run(suite, secret, before + [arrive]) == once
            && Run(suite, secret, before + [arrive] + [Drop(d, again.sessionId)] + [Record(d, again)] + [arrive])
               == Apply(suite, secret, Renewed(suite, secret, once, d, again), arrive)
  {
    RunMore(suite, secret, before, arrive);
    RunMore(suite, secret, before + [arrive], Drop(d, again.sessionId));
    RunMore(suite, secret, before + [arrive] + [Drop(d, again.sessionId)], Record(d, again));
    RunMore(suite, secret, before + [arrive] + [Drop(d, again.sessionId)] + [Record(d, again)], arrive);
  }

  lemma ReadyToDeliver(suite: Suite, secret: set<Bytes>, a: Name, s: Session, b: Name, t: Session,
                       packetType: int, payload: Payload, nowMs: int, now: real, frame: Bytes) returns (w: World)
    requires FreshSession(s) && FreshSession(t) && a != b && s.sessionId == t.sessionId
    requires Seal(suite, a, s, packetType, payload, nowMs, now).1 == Ok(frame)
    ensures var actions := [Record(a, s), Record(b, t), Send(a, s.sessionId, packetType, payload, nowMs, now)];
            && w == Run(suite, secret, actions) && Sealed(suite, secret, actions, 2, frame)
            && Run(suite, secret, actions[..2]).tables[a][s.sessionId] == s
            && w.opens == [] && Delivery.Live(w, b, t.sessionId) && w.tables[b][t.sessionId] == t
  {
    var x, y, z := Record(a, s), Record(b, t), Send(a, s.sessionId, packetType, payload, nowMs, now);
    var w2 := BothRecorded(suite, secret, a, s, b, t);
    RunThree(suite, secret, x, y, z);
    w := Apply(suite, secret, w2, z);
    SendAppends(suite, secret, w2, a, s.sessionId, packetType, payload, nowMs, now);
  }

  lemma RunThree(suite: Suite, secret: set<Bytes>, a: Action, b: Action, c: Action)
    ensures var w2 := Apply(suite, secret, Apply(suite, secret, World(map[], [], [], []), a), b);
            Run(suite, secret, [a, b, c][..2]) == w2 && Run(suite, secret, [a, b, c]) == Apply(suite, secret, w2, c)
  {
    RunMore(suite, secret, [], a);
    assert [] + [a] == [a];
    RunMore(suite, secret, [a], b);
    assert [a] + [b] == [a, b] == [a, b, c][..2];
    RunMore(suite, secret, [a, b], c);
    assert [a, b] + [c] == [a, b, c];
  }
}
