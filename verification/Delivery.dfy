/** What reaches a receiver, over every run of any number of devices and an arbitrary network. */
module Delivery {
  import opened Results
  import opened Wire
  import opened Frames
  import opened Packets
  import opened ReplayWindow
  import opened Sessions
  import opened ChannelSpec

  /** One direction of one session, at one device: who it is shared with, which way it goes, under which key. */
  datatype End = End(device: Name, sid: Name, peer: Name, direction: int, key: Bytes)

  function SendEnd(d: Name, s: Session): End {
    End(d, s.sessionId, s.peerId, OutgoingDirection(s.role), s.sendKey)
  }

  function ReceiveEnd(d: Name, s: Session): End {
    End(d, s.sessionId, s.peerId, IncomingDirection(s.role), s.receiveKey)
  }

  datatype SealEvent = SealEvent(
    sender: Name, receiver: Name, sid: Name, direction: int, counter: int, packetType: int, timestamp: int,
    payload: Payload, input: CipherInput)
  {
    function From(): End { End(sender, sid, receiver, direction, input.key) }
  }

  datatype OpenEvent = OpenEvent(
    device: Name, peer: Name, sid: Name, direction: int, counter: int, packetType: int, payload: Payload, key: Bytes)
  {
    function At(): End { End(device, sid, peer, direction, key) }
  }

  datatype RecordEvent = RecordEvent(device: Name, session: Session)

  /** Each device's live sessions, and everything that was recorded, sealed and opened so far. */
  datatype World = World(
    tables: map<Name, map<Name, Session>>, records: seq<RecordEvent>, seals: seq<SealEvent>, opens: seq<OpenEvent>)

  /** `Arrive` delivers any byte string at all: reordered, repeated or invented. */
  datatype Action =
    | Record(device: Name, session: Session)
    | Drop(device: Name, sid: Name)
    | Send(device: Name, sid: Name, packetType: int, payload: Payload, nowMs: int, now: real)
    | Arrive(device: Name, frame: Bytes, nowMs: int, maxSkewMs: int, now: real)

  predicate Live(w: World, device: Name, sid: Name) {
    device in w.tables && sid in w.tables[device]
  }

  /** A session fresh from a handshake. */
  predicate FreshSession(s: Session) {
    |s.sessionId.raw| == SESSION_ID_SIZE && s.nextSendCounter == 1 && s.sentCount == 0
    && s.window.size > 0 && s.window == Fresh(s.window.size)
  }

  /** Whatever decrypts under one of the `secret` keys was enciphered by a device under that key. */
  ghost predicate Unforged(suite: Suite, secret: set<Bytes>, seals: seq<SealEvent>, frame: Bytes) {
    SplitFrame(frame).Ok? ==>
      var e := SplitFrame(frame).value.1;
      forall key, aad :: key in secret && suite.decrypt(e, key, aad).Some? ==>
        exists j :: 0 <= j < |seals|
                    && seals[j].input == CipherInput(suite.decrypt(e, key, aad).value, key, e.nonce, aad)
  }

  function SealedBy(device: Name, s: Session, packetType: int, payload: Payload, nowMs: int, c: CipherInput)
    : SealEvent
  {
    SealEvent(device, s.peerId, s.sessionId, OutgoingDirection(s.role), s.nextSendCounter, packetType, nowMs,
              payload, c)
  }

  function OpenedBy(device: Name, s: Session, o: Opened): OpenEvent {
    OpenEvent(device, s.peerId, o.sessionId, IncomingDirection(s.role), o.counter, o.packet.header.packetType,
              o.packet.payload, s.receiveKey)
  }

  ghost function Apply(suite: Suite, secret: set<Bytes>, w: World, a: Action): World {
    match a
    case Record(d, s) =>
      if Live(w, d, s.sessionId) || !FreshSession(s) then w
      else
        var table := if d in w.tables then w.tables[d] else map[];
        w.(tables := w.tables[d := table[s.sessionId := s]], records := w.records + [RecordEvent(d, s)])
    case Drop(d, sid) =>
      if !Live(w, d, sid) then w else w.(tables := w.tables[d := w.tables[d] - {sid}])
    case Send(d, sid, packetType, payload, nowMs, now) =>
      if !Live(w, d, sid) then w
      else
        var s := w.tables[d][sid];
        var (s', r) := Seal(suite, d, s, packetType, payload, nowMs, now);
        var w' := w.(tables := w.tables[d := w.tables[d][sid := s']]);
        var c := Prepare(suite, d, s, s.nextSendCounter, packetType, payload, nowMs);
        if s.CanAllocate() && c.Ok?
        then w'.(seals := w.seals + [SealedBy(d, s, packetType, payload, nowMs, c.value)])
        else w'
    case Arrive(d, frame, nowMs, maxSkewMs, now) =>
      if d !in w.tables || !Unforged(suite, secret, w.seals, frame) then w
      else
        var (table, r) := Open(suite, d, w.tables[d], frame, nowMs, maxSkewMs, now);
        var w' := w.(tables := w.tables[d := table]);
        if r.Ok? then w'.(opens := w.opens + [OpenedBy(d, w.tables[d][r.value.sessionId], r.value)]) else w'
  }

  ghost function Run(suite: Suite, secret: set<Bytes>, actions: seq<Action>): World
    decreases |actions|
  {
    if actions == [] then World(map[], [], [], [])
    else Apply(suite, secret, Run(suite, secret, actions[..|actions| - 1]), actions[|actions| - 1])
  }

  /** The frame behind `o` is the one recorded by `s`: opposite ends of one session, same direction,
      counter, packet type, payload and key. */
  predicate Matches(o: OpenEvent, s: SealEvent) {
    && s.sender == o.peer && s.receiver == o.device && s.sid == o.sid && s.direction == o.direction
    && s.counter == o.counter && s.packetType == o.packetType && s.payload == o.payload && s.input.key == o.key
  }

  // ----- what every run keeps -----

  ghost predicate SessionOk(w: World, d: Name, sid: Name)
    requires Live(w, d, sid)
  {
    && w.tables[d][sid].sessionId == sid && |sid.raw| == SESSION_ID_SIZE
    && w.tables[d][sid].window.Sound() && w.tables[d][sid].nextSendCounter >= 1
  }

  ghost predicate SessionsOk(w: World) {
    forall d, sid :: Live(w, d, sid) ==> SessionOk(w, d, sid)
  }

  /** A recorded seal's cipher input says what the event says. */
  ghost predicate SealOk(suite: Suite, e: SealEvent) {
    && |e.sid.raw| == SESSION_ID_SIZE && 0 <= e.packetType < 256 && e.direction in {0, 1}
    && EncodePacket(suite.codec, Packet(NewHeader(e.packetType, e.counter, e.timestamp), e.payload))
       == Ok(e.input.plaintext)
    && DeriveNonce(e.direction, e.counter) == Ok(e.input.nonce)
    && BuildAad(FrameHeader(FRAME_VERSION, e.direction, e.packetType, e.sid.raw), e.sender.raw, e.receiver.raw)
       == Ok(e.input.aad)
  }

  ghost predicate OpensMatched(secret: set<Bytes>, w: World) {
    forall i :: 0 <= i < |w.opens| && w.opens[i].key in secret ==>
      exists j :: 0 <= j < |w.seals| && Matches(w.opens[i], w.seals[j])
  }

  ghost predicate Inv(suite: Suite, secret: set<Bytes>, w: World) {
    && SessionsOk(w) && (forall i :: 0 <= i < |w.seals| ==> SealOk(suite, w.seals[i])) && OpensMatched(secret, w)
  }

  /** How a step can change the world: it records, drops, seals, opens, or does nothing. */
  ghost predicate Records(w: World, w': World, d: Name, s: Session) {
    && !Live(w, d, s.sessionId) && FreshSession(s) && w'.seals == w.seals && w'.opens == w.opens
    && w'.records == w.records + [RecordEvent(d, s)]
    && w'.tables == w.tables[d := (if d in w.tables then w.tables[d] else map[])[s.sessionId := s]]
  }

  ghost predicate Drops(w: World, w': World, d: Name, sid: Name) {
    Live(w, d, sid) && w' == w.(tables := w.tables[d := w.tables[d] - {sid}])
  }

  /** The session keeps its two ends; its counter and its window only move forward. */
  ghost predicate Advances(s: Session, s': Session) {
    && s'.sessionId == s.sessionId && s'.peerId == s.peerId && s'.role == s.role
    && s'.sendKey == s.sendKey && s'.receiveKey == s.receiveKey && s'.window.Sound()
    && s'.nextSendCounter >= s.nextSendCounter && s'.window.accepted >= s.window.accepted
  }

  ghost predicate Sends(suite: Suite, w: World, w': World, d: Name, sid: Name, s': Session, sealed: Option<SealEvent>) {
    && Live(w, d, sid) && Advances(w.tables[d][sid], s') && w'.opens == w.opens && w'.records == w.records
    && w'.tables == w.tables[d := w.tables[d][sid := s']]
    && w'.seals == w.seals + (if sealed.Some? then [sealed.value] else [])
    && (sealed.Some? ==>
          && SealOk(suite, sealed.value) && sealed.value.From() == SendEnd(d, w.tables[d][sid])
          && sealed.value.counter == w.tables[d][sid].nextSendCounter < s'.nextSendCounter)
  }

  ghost predicate Receives(secret: set<Bytes>, w: World, w': World, d: Name, sid: Name, s': Session, o: OpenEvent) {
    && Live(w, d, sid) && Advances(w.tables[d][sid], s') && w'.seals == w.seals && w'.records == w.records
    && w'.tables == w.tables[d := w.tables[d][sid := s']] && w'.opens == w.opens + [o]
    && o.At() == ReceiveEnd(d, w.tables[d][sid])
    && o.counter !in w.tables[d][sid].window.accepted && o.counter in s'.window.accepted
    && (o.key in secret ==> exists j :: 0 <= j < |w.seals| && Matches(o, w.seals[j]))
  }

  ghost predicate Moves(suite: Suite, secret: set<Bytes>, w: World, w': World) {
    || w' == w
    || (exists d, s :: Records(w, w', d, s))
    || (exists d, sid :: Drops(w, w', d, sid))
    || (exists d, sid, s', sealed :: Sends(suite, w, w', d, sid, s', sealed))
    || (exists d, sid, s', o :: Receives(secret, w, w', d, sid, s', o))
  }

  lemma SealEventOk(suite: Suite, d: Name, s: Session, packetType: int, payload: Payload, nowMs: int)
    requires |s.sessionId.raw| == SESSION_ID_SIZE
    requires Prepare(suite, d, s, s.nextSendCounter, packetType, payload, nowMs).Ok?
    ensures SealOk(suite, SealedBy(d, s, packetType, payload, nowMs,
                                   Prepare(suite, d, s, s.nextSendCounter, packetType, payload, nowMs).value))
  {}

  lemma SendMoves(suite: Suite, secret: set<Bytes>, w: World, d: Name, sid: Name,
                  packetType: int, payload: Payload, nowMs: int, now: real)
    requires Inv(suite, secret, w)
    ensures Moves(suite, secret, w, Apply(suite, secret, w, Send(d, sid, packetType, payload, nowMs, now)))
  {
    if Live(w, d, sid) {
      assert SessionOk(w, d, sid);
      var s := w.tables[d][sid];
      var s' := Seal(suite, d, s, packetType, payload, nowMs, now).0;
      var w' := Apply(suite, secret, w, Send(d, sid, packetType, payload, nowMs, now));
      var c := Prepare(suite, d, s, s.nextSendCounter, packetType, payload, nowMs);
      var sealed := None;
      if s.CanAllocate() && c.Ok? {
        SealEventOk(suite, d, s, packetType, payload, nowMs);
        sealed := Some(SealedBy(d, s, packetType, payload, nowMs, c.value));
      }
      assert w.seals + [] == w.seals;
      assert Sends(suite, w, w', d, sid, s', sealed);
    }
  }

  /** A frame that passes every check was sealed by the session's peer, for this device, with this very content. */
  lemma AcceptedWasSealed(suite: Suite, own: Name, s: Session, h: FrameHeader, e: Encrypted,
                          nowMs: int, maxSkewMs: int, seal: SealEvent)
    requires Lawful(suite.codec) && |e.nonce| == NONCE_SIZE && SealOk(suite, seal)
    requires h.version == FRAME_VERSION && ByteFields(h) && |h.sessionId| == SESSION_ID_SIZE
    requires Verify(suite, own, s, h, e, nowMs, maxSkewMs).Ok?
    requires var aad := BuildAad(h, s.peerId.raw, own.raw).value;
             seal.input == CipherInput(suite.decrypt(e, s.receiveKey, aad).value, s.receiveKey, e.nonce, aad)
    ensures var p := Verify(suite, own, s, h, e, nowMs, maxSkewMs).value;
            Matches(OpenEvent(own, s.peerId, Name(h.sessionId), IncomingDirection(s.role), NonceCounter(e.nonce),
                              p.header.packetType, p.payload, s.receiveKey), seal)
  {
    var sealHeader := FrameHeader(FRAME_VERSION, seal.direction, seal.packetType, seal.sid.raw);
    AadInjective(h, s.peerId.raw, own.raw, sealHeader, seal.sender.raw, seal.receiver.raw);
    DecodeInvertsEncode(suite.codec, Packet(NewHeader(seal.packetType, seal.counter, seal.timestamp), seal.payload));
    NonceCarriesCounter(seal.direction, seal.counter);
  }

  lemma SealBehind(suite: Suite, secret: set<Bytes>, seals: seq<SealEvent>, d: Name, table: map<Name, Session>,
                   frame: Bytes, nowMs: int, maxSkewMs: int, now: real)
    requires Lawful(suite.codec) && Unforged(suite, secret, seals, frame)
    requires forall i :: 0 <= i < |seals| ==> SealOk(suite, seals[i])
    requires var r := Open(suite, d, table, frame, nowMs, maxSkewMs, now).1;
             r.Ok? && table[r.value.sessionId].receiveKey in secret
    ensures var r := Open(suite, d, table, frame, nowMs, maxSkewMs, now).1;
            exists j :: 0 <= j < |seals| && Matches(OpenedBy(d, table[r.value.sessionId], r.value), seals[j])
  {
    var (h, e) := SplitFrame(frame).value;
    var s := table[Name(h.sessionId)];
    var aad := BuildAad(h, s.peerId.raw, d.raw).value;
    assert suite.decrypt(e, s.receiveKey, aad).Some?;
    var j :| 0 <= j < |seals|
             && seals[j].input == CipherInput(suite.decrypt(e, s.receiveKey, aad).value, s.receiveKey, e.nonce, aad);
    AcceptedWasSealed(suite, d, s, h, e, nowMs, maxSkewMs, seals[j]);
  }

  lemma OpenAdmits(suite: Suite, d: Name, table: map<Name, Session>, frame: Bytes,
                   nowMs: int, maxSkewMs: int, now: real)
    requires Open(suite, d, table, frame, nowMs, maxSkewMs, now).1.Ok?
    ensures var (table', r) := Open(suite, d, table, frame, nowMs, maxSkewMs, now);
            var sid, counter := r.value.sessionId, r.value.counter;
            && sid in table && table[sid].window.WouldAccept(counter)
            && table' == table[sid := Admitted(table[sid], counter, now)]
  {}

  lemma AdmittedAdvances(s: Session, counter: int, now: real)
    requires s.window.Sound() && s.window.WouldAccept(counter)
    ensures Advances(s, Admitted(s, counter, now))
    ensures counter !in s.window.accepted && counter in Admitted(s, counter, now).window.accepted
  {}

  lemma ArriveMoves(suite: Suite, secret: set<Bytes>, w: World, d: Name, frame: Bytes,
                    nowMs: int, maxSkewMs: int, now: real)
    requires Lawful(suite.codec) && Inv(suite, secret, w)
    ensures Moves(suite, secret, w, Apply(suite, secret, w, Arrive(d, frame, nowMs, maxSkewMs, now)))
  {
    if d in w.tables && Unforged(suite, secret, w.seals, frame) {
      var w' := Apply(suite, secret, w, Arrive(d, frame, nowMs, maxSkewMs, now));
      var (table, r) := Open(suite, d, w.tables[d], frame, nowMs, maxSkewMs, now);
      if r.Ok? {
        var sid := r.value.sessionId;
        OpenAdmits(suite, d, w.tables[d], frame, nowMs, maxSkewMs, now);
        assert Live(w, d, sid) && SessionOk(w, d, sid);
        var s := w.tables[d][sid];
        if s.receiveKey in secret {
          SealBehind(suite, secret, w.seals, d, w.tables[d], frame, nowMs, maxSkewMs, now);
        }
        AdmittedAdvances(s, r.value.counter, now);
        assert Receives(secret, w, w', d, sid, Admitted(s, r.value.counter, now), OpenedBy(d, s, r.value));
      } else {
        assert w.tables[d := w.tables[d]] == w.tables;
      }
    }
  }

  lemma EveryStepMoves(suite: Suite, secret: set<Bytes>, w: World, a: Action)
    requires Lawful(suite.codec) && Inv(suite, secret, w)
    ensures Moves(suite, secret, w, Apply(suite, secret, w, a))
  {
    match a
    case Record(d, s) => RecordMoves(suite, secret, w, d, s);
    case Drop(d, sid) => DropMoves(suite, secret, w, d, sid);
    case Send(d, sid, packetType, payload, nowMs, now) =>
      SendMoves(suite, secret, w, d, sid, packetType, payload, nowMs, now);
    case Arrive(d, frame, nowMs, maxSkewMs, now) => ArriveMoves(suite, secret, w, d, frame, nowMs, maxSkewMs, now);
  }

  lemma RecordMoves(suite: Suite, secret: set<Bytes>, w: World, d: Name, s: Session)
    ensures Moves(suite, secret, w, Apply(suite, secret, w, Record(d, s)))
  {
    var w' := Apply(suite, secret, w, Record(d, s));
    assert w' == w || Records(w, w', d, s);
  }

  lemma DropMoves(suite: Suite, secret: set<Bytes>, w: World, d: Name, sid: Name)
    ensures Moves(suite, secret, w, Apply(suite, secret, w, Drop(d, sid)))
  {
    var w' := Apply(suite, secret, w, Drop(d, sid));
    assert w' == w || Drops(w, w', d, sid);
  }

  // ----- every opened frame was sealed -----

  lemma RecordSessionsOk(w: World, w': World, d: Name, s: Session)
    requires SessionsOk(w) && Records(w, w', d, s)
    ensures SessionsOk(w')
  {
    forall d', sid' | Live(w', d', sid') ensures SessionOk(w', d', sid') {
      assert (d' == d && sid' == s.sessionId) || (Live(w, d', sid') && SessionOk(w, d', sid'));
    }
  }

  lemma AdvanceSessionsOk(w: World, w': World, d: Name, sid: Name, s': Session)
    requires SessionsOk(w) && Live(w, d, sid) && Advances(w.tables[d][sid], s')
    requires w'.tables == w.tables[d := w.tables[d][sid := s']]
    ensures SessionsOk(w')
  {
    forall d', sid' | Live(w', d', sid') ensures SessionOk(w', d', sid') {
      assert Live(w, d', sid') && SessionOk(w, d', sid');
      assert SessionOk(w, d, sid);
    }
  }

  lemma DropSessionsOk(w: World, w': World, d: Name, sid: Name)
    requires SessionsOk(w) && Drops(w, w', d, sid)
    ensures SessionsOk(w')
  {
    forall d', sid' | Live(w', d', sid') ensures SessionOk(w', d', sid') {
      assert Live(w, d', sid') && SessionOk(w, d', sid');
    }
  }

  lemma SessionsStayOk(suite: Suite, secret: set<Bytes>, w: World, w': World)
    requires SessionsOk(w) && Moves(suite, secret, w, w')
    ensures SessionsOk(w')
  {
    if d, s :| Records(w, w', d, s) {
      RecordSessionsOk(w, w', d, s);
    } else if d, sid :| Drops(w, w', d, sid) {
      DropSessionsOk(w, w', d, sid);
    } else if d, sid, s', sealed :| Sends(suite, w, w', d, sid, s', sealed) {
      AdvanceSessionsOk(w, w', d, sid, s');
    } else if d, sid, s', o :| Receives(secret, w, w', d, sid, s', o) {
      AdvanceSessionsOk(w, w', d, sid, s');
    }
  }

  lemma MatchedStay(secret: set<Bytes>, w: World, w': World)
    requires OpensMatched(secret, w) && w'.opens == w.opens && w.seals <= w'.seals
    ensures OpensMatched(secret, w')
  {
    forall i | 0 <= i < |w.opens| && w.opens[i].key in secret
      ensures exists j :: 0 <= j < |w'.seals| && Matches(w.opens[i], w'.seals[j])
    {
      var j :| 0 <= j < |w.seals| && Matches(w.opens[i], w.seals[j]);
      assert w'.seals[j] == w.seals[j];
    }
  }

  lemma StepKeeps(suite: Suite, secret: set<Bytes>, w: World, w': World)
    requires Inv(suite, secret, w) && Moves(suite, secret, w, w')
    ensures Inv(suite, secret, w')
  {
    SessionsStayOk(suite, secret, w, w');
    if w'.opens == w.opens {
      MatchedStay(secret, w, w');
    }
  }

  lemma {:induction false} AlwaysInv(suite: Suite, secret: set<Bytes>, actions: seq<Action>)
    requires Lawful(suite.codec)
    ensures Inv(suite, secret, Run(suite, secret, actions))
    decreases |actions|
  {
    if actions != [] {
      var n := |actions| - 1;
      AlwaysInv(suite, secret, actions[..n]);
      var w := Run(suite, secret, actions[..n]);
      EveryStepMoves(suite, secret, w, actions[n]);
      StepKeeps(suite, secret, w, Apply(suite, secret, w, actions[n]));
    }
  }

  // ----- at most once -----

  function SendEnds(w: World): set<End> {
    set i | 0 <= i < |w.records| :: SendEnd(w.records[i].device, w.records[i].session)
  }

  function ReceiveEnds(w: World): set<End> {
    set i | 0 <= i < |w.records| :: ReceiveEnd(w.records[i].device, w.records[i].session)
  }

  /** No end that sends was recorded twice. */
  ghost predicate SendEndsDistinct(w: World) {
    forall i, j :: 0 <= i < j < |w.records| ==>
      SendEnd(w.records[i].device, w.records[i].session) != SendEnd(w.records[j].device, w.records[j].session)
  }

  /** No end that receives was recorded twice. An id may be used again with another peer, role or key. */
  ghost predicate ReceiveEndsDistinct(w: World) {
    forall i, j :: 0 <= i < j < |w.records| ==>
      ReceiveEnd(w.records[i].device, w.records[i].session) != ReceiveEnd(w.records[j].device, w.records[j].session)
  }

  ghost predicate SealsBehind(w: World) {
    forall i :: 0 <= i < |w.seals| && Live(w, w.seals[i].sender, w.seals[i].sid)
                && SendEnd(w.seals[i].sender, w.tables[w.seals[i].sender][w.seals[i].sid]) == w.seals[i].From()
                ==> w.seals[i].counter < w.tables[w.seals[i].sender][w.seals[i].sid].nextSendCounter
  }

  ghost predicate SealsDistinct(w: World) {
    forall i, j :: 0 <= i < j < |w.seals| && w.seals[i].From() == w.seals[j].From() ==>
      w.seals[i].counter != w.seals[j].counter
  }

  /** One end never seals twice with one counter. */
  ghost predicate SendInv(w: World) {
    && (forall d, sid :: Live(w, d, sid) ==> SendEnd(d, w.tables[d][sid]) in SendEnds(w))
    && (forall i :: 0 <= i < |w.seals| ==> w.seals[i].From() in SendEnds(w))
    && SealsBehind(w) && SealsDistinct(w)
  }

  ghost predicate OpensRemembered(w: World) {
    forall i :: 0 <= i < |w.opens| && Live(w, w.opens[i].device, w.opens[i].sid)
                && ReceiveEnd(w.opens[i].device, w.tables[w.opens[i].device][w.opens[i].sid]) == w.opens[i].At()
                ==> w.opens[i].counter in w.tables[w.opens[i].device][w.opens[i].sid].window.accepted
  }

  ghost predicate OpensDistinct(w: World) {
    forall i, j :: 0 <= i < j < |w.opens| && w.opens[i].At() == w.opens[j].At() ==>
      w.opens[i].counter != w.opens[j].counter
  }

  /** One end never opens two frames with one counter. */
  ghost predicate ReceiveInv(w: World) {
    && (forall d, sid :: Live(w, d, sid) ==> ReceiveEnd(d, w.tables[d][sid]) in ReceiveEnds(w))
    && (forall i :: 0 <= i < |w.opens| ==> w.opens[i].At() in ReceiveEnds(w))
    && OpensRemembered(w) && OpensDistinct(w)
  }

  lemma EndsGrow(w: World, w': World, d: Name, s: Session)
    requires w'.records == w.records + [RecordEvent(d, s)]
    ensures SendEnds(w') == SendEnds(w) + {SendEnd(d, s)} && ReceiveEnds(w') == ReceiveEnds(w) + {ReceiveEnd(d, s)}
  {
    var n := |w.records|;
    assert w'.records[n] == RecordEvent(d, s) && forall i :: 0 <= i < n ==> w'.records[i] == w.records[i];
  }

  lemma NewEnds(w: World, w': World, d: Name, s: Session)
    requires w'.records == w.records + [RecordEvent(d, s)]
    ensures SendEndsDistinct(w') ==> SendEndsDistinct(w) && SendEnd(d, s) !in SendEnds(w)
    ensures ReceiveEndsDistinct(w') ==> ReceiveEndsDistinct(w) && ReceiveEnd(d, s) !in ReceiveEnds(w)
  {
    var n := |w.records|;
    assert w'.records[n] == RecordEvent(d, s) && forall i :: 0 <= i < n ==> w'.records[i] == w.records[i];
  }

  lemma LiveAfterRecord(w: World, w': World, d: Name, s: Session, d': Name, sid: Name)
    requires Records(w, w', d, s) && Live(w', d', sid)
    ensures if d' == d && sid == s.sessionId then w'.tables[d'][sid] == s
            else Live(w, d', sid) && w'.tables[d'][sid] == w.tables[d'][sid]
  {}

  lemma RecordKeepsSend(w: World, w': World, d: Name, s: Session)
    requires SendInv(w) && Records(w, w', d, s) && SendEndsDistinct(w')
    ensures SendInv(w')
  {
    EndsGrow(w, w', d, s);
    NewEnds(w, w', d, s);
    forall d', sid' | Live(w', d', sid') ensures SendEnd(d', w'.tables[d'][sid']) in SendEnds(w') {
      LiveAfterRecord(w, w', d, s, d', sid');
    }
    forall i | 0 <= i < |w'.seals| && Live(w', w'.seals[i].sender, w'.seals[i].sid)
               && SendEnd(w'.seals[i].sender, w'.tables[w'.seals[i].sender][w'.seals[i].sid]) == w'.seals[i].From()
      ensures w'.seals[i].counter < w'.tables[w'.seals[i].sender][w'.seals[i].sid].nextSendCounter
    {
      LiveAfterRecord(w, w', d, s, w'.seals[i].sender, w'.seals[i].sid);
    }
  }

  lemma RecordKeepsReceive(w: World, w': World, d: Name, s: Session)
    requires ReceiveInv(w) && Records(w, w', d, s) && ReceiveEndsDistinct(w')
    ensures ReceiveInv(w')
  {
    EndsGrow(w, w', d, s);
    NewEnds(w, w', d, s);
    forall d', sid' | Live(w', d', sid') ensures ReceiveEnd(d', w'.tables[d'][sid']) in ReceiveEnds(w') {
      LiveAfterRecord(w, w', d, s, d', sid');
    }
    forall i | 0 <= i < |w'.opens| && Live(w', w'.opens[i].device, w'.opens[i].sid)
               && ReceiveEnd(w'.opens[i].device, w'.tables[w'.opens[i].device][w'.opens[i].sid]) == w'.opens[i].At()
      ensures w'.opens[i].counter in w'.tables[w'.opens[i].device][w'.opens[i].sid].window.accepted
    {
      LiveAfterRecord(w, w', d, s, w'.opens[i].device, w'.opens[i].sid);
    }
  }

  lemma DropKeepsBoth(w: World, w': World, d: Name, sid: Name)
    requires Drops(w, w', d, sid)
    ensures SendInv(w) ==> SendInv(w')
    ensures ReceiveInv(w) ==> ReceiveInv(w')
  {
    forall d', sid' | Live(w', d', sid') ensures Live(w, d', sid') && w'.tables[d'][sid'] == w.tables[d'][sid'] {}
    assert SendEnds(w') == SendEnds(w) && ReceiveEnds(w') == ReceiveEnds(w);
  }

  /** Changing one session's record in place, forward. */
  lemma AdvanceKeepsSend(w: World, w': World, d: Name, sid: Name, s': Session)
    requires SendInv(w) && Live(w, d, sid) && Advances(w.tables[d][sid], s')
    requires w' == w.(tables := w.tables[d := w.tables[d][sid := s']])
    ensures SendInv(w')
  {
    assert SendEnds(w') == SendEnds(w);
    forall d', sid' | Live(w', d', sid') ensures SendEnd(d', w'.tables[d'][sid']) in SendEnds(w') {
      assert Live(w, d', sid');
    }
  }

  lemma AdvanceKeepsReceive(w: World, w': World, d: Name, sid: Name, s': Session)
    requires ReceiveInv(w) && Live(w, d, sid) && Advances(w.tables[d][sid], s')
    requires w' == w.(tables := w.tables[d := w.tables[d][sid := s']])
    ensures ReceiveInv(w')
  {
    assert ReceiveEnds(w') == ReceiveEnds(w);
    forall d', sid' | Live(w', d', sid') ensures ReceiveEnd(d', w'.tables[d'][sid']) in ReceiveEnds(w') {
      assert Live(w, d', sid');
    }
  }

  /** Logging a seal whose counter is new at its end and already passed. */
  lemma SealKeepsSend(w: World, w': World, d: Name, sid: Name, e: SealEvent)
    requires SendInv(w) && Live(w, d, sid) && w' == w.(seals := w.seals + [e])
    requires w.tables[d][sid].sessionId == sid && e.From() == SendEnd(d, w.tables[d][sid])
    requires e.counter < w.tables[d][sid].nextSendCounter
    requires forall i :: 0 <= i < |w.seals| && w.seals[i].From() == e.From() ==> w.seals[i].counter < e.counter
    ensures SendInv(w')
  {
    assert SendEnds(w') == SendEnds(w);
    assert forall i :: 0 <= i < |w.seals| ==> w'.seals[i] == w.seals[i];
  }

  /** Logging an opened frame whose counter is new at its end and now remembered. */
  lemma OpenKeepsReceive(w: World, w': World, d: Name, sid: Name, o: OpenEvent)
    requires ReceiveInv(w) && Live(w, d, sid) && w' == w.(opens := w.opens + [o])
    requires w.tables[d][sid].sessionId == sid && o.At() == ReceiveEnd(d, w.tables[d][sid])
    requires o.counter in w.tables[d][sid].window.accepted
    requires forall i :: 0 <= i < |w.opens| && w.opens[i].At() == o.At() ==> w.opens[i].counter != o.counter
    ensures ReceiveInv(w')
  {
    assert ReceiveEnds(w') == ReceiveEnds(w);
    assert forall i :: 0 <= i < |w.opens| ==> w'.opens[i] == w.opens[i];
  }

  lemma SendKeepsSend(suite: Suite, w: World, w': World, d: Name, sid: Name, s': Session, sealed: Option<SealEvent>)
    requires SessionsOk(w) && SendInv(w) && Sends(suite, w, w', d, sid, s', sealed)
    ensures SendInv(w')
  {
    assert SessionOk(w, d, sid);
    var mid := w.(tables := w.tables[d := w.tables[d][sid := s']]);
    AdvanceKeepsSend(w, mid, d, sid, s');
    if sealed.Some? {
      SealKeepsSend(mid, w', d, sid, sealed.value);
    } else {
      assert w.seals + [] == w.seals;
    }
  }

  lemma ReceiveKeepsReceive(secret: set<Bytes>, w: World, w': World, d: Name, sid: Name, s': Session, o: OpenEvent)
    requires SessionsOk(w) && ReceiveInv(w) && Receives(secret, w, w', d, sid, s', o)
    ensures ReceiveInv(w')
  {
    assert SessionOk(w, d, sid);
    var mid := w.(tables := w.tables[d := w.tables[d][sid := s']]);
    AdvanceKeepsReceive(w, mid, d, sid, s');
    OpenKeepsReceive(mid, w', d, sid, o);
  }

  lemma ReceiveKeepsSend(secret: set<Bytes>, w: World, w': World, d: Name, sid: Name, s': Session, o: OpenEvent)
    requires SendInv(w) && Receives(secret, w, w', d, sid, s', o)
    ensures SendInv(w')
  {
    var mid := w.(tables := w.tables[d := w.tables[d][sid := s']]);
    AdvanceKeepsSend(w, mid, d, sid, s');
    assert w' == mid.(opens := w'.opens) && SendEnds(w') == SendEnds(mid);
  }

  lemma SendKeepsReceive(suite: Suite, w: World, w': World, d: Name, sid: Name, s': Session, sealed: Option<SealEvent>)
    requires ReceiveInv(w) && Sends(suite, w, w', d, sid, s', sealed)
    ensures ReceiveInv(w')
  {
    var mid := w.(tables := w.tables[d := w.tables[d][sid := s']]);
    AdvanceKeepsReceive(w, mid, d, sid, s');
    assert w' == mid.(seals := w'.seals) && ReceiveEnds(w') == ReceiveEnds(mid);
  }

  lemma StepKeepsSend(suite: Suite, secret: set<Bytes>, w: World, w': World)
    requires SessionsOk(w) && Moves(suite, secret, w, w') && SendEndsDistinct(w') && SendInv(w)
    ensures SendInv(w')
  {
    if d, s :| Records(w, w', d, s) {
      RecordKeepsSend(w, w', d, s);
    } else if d, sid :| Drops(w, w', d, sid) {
      DropKeepsBoth(w, w', d, sid);
    } else if d, sid, s', sealed :| Sends(suite, w, w', d, sid, s', sealed) {
      SendKeepsSend(suite, w, w', d, sid, s', sealed);
    } else if d, sid, s', o :| Receives(secret, w, w', d, sid, s', o) {
      ReceiveKeepsSend(secret, w, w', d, sid, s', o);
    }
  }

  lemma StepKeepsReceive(suite: Suite, secret: set<Bytes>, w: World, w': World)
    requires SessionsOk(w) && Moves(suite, secret, w, w') && ReceiveEndsDistinct(w') && ReceiveInv(w)
    ensures ReceiveInv(w')
  {
    if d, s :| Records(w, w', d, s) {
      RecordKeepsReceive(w, w', d, s);
    } else if d, sid :| Drops(w, w', d, sid) {
      DropKeepsBoth(w, w', d, sid);
    } else if d, sid, s', o :| Receives(secret, w, w', d, sid, s', o) {
      ReceiveKeepsReceive(secret, w, w', d, sid, s', o);
    } else if d, sid, s', sealed :| Sends(suite, w, w', d, sid, s', sealed) {
      SendKeepsReceive(suite, w, w', d, sid, s', sealed);
    }
  }

  lemma DistinctBefore(suite: Suite, secret: set<Bytes>, w: World, w': World)
    requires Moves(suite, secret, w, w')
    ensures SendEndsDistinct(w') ==> SendEndsDistinct(w)
    ensures ReceiveEndsDistinct(w') ==> ReceiveEndsDistinct(w)
  {
    if d, s :| Records(w, w', d, s) {
      NewEnds(w, w', d, s);
    } else {
      assert w'.records == w.records;
    }
  }

  lemma {:induction false} AlwaysSendInv(suite: Suite, secret: set<Bytes>, actions: seq<Action>)
    requires Lawful(suite.codec) && SendEndsDistinct(Run(suite, secret, actions))
    ensures SendInv(Run(suite, secret, actions))
    decreases |actions|
  {
    if actions != [] {
      var n := |actions| - 1;
      AlwaysInv(suite, secret, actions[..n]);
      var w := Run(suite, secret, actions[..n]);
      EveryStepMoves(suite, secret, w, actions[n]);
      DistinctBefore(suite, secret, w, Apply(suite, secret, w, actions[n]));
      AlwaysSendInv(suite, secret, actions[..n]);
      StepKeepsSend(suite, secret, w, Apply(suite, secret, w, actions[n]));
    }
  }

  lemma {:induction false} AlwaysReceiveInv(suite: Suite, secret: set<Bytes>, actions: seq<Action>)
    requires Lawful(suite.codec) && ReceiveEndsDistinct(Run(suite, secret, actions))
    ensures ReceiveInv(Run(suite, secret, actions))
    decreases |actions|
  {
    if actions != [] {
      var n := |actions| - 1;
      AlwaysInv(suite, secret, actions[..n]);
      var w := Run(suite, secret, actions[..n]);
      EveryStepMoves(suite, secret, w, actions[n]);
      DistinctBefore(suite, secret, w, Apply(suite, secret, w, actions[n]));
      AlwaysReceiveInv(suite, secret, actions[..n]);
      StepKeepsReceive(suite, secret, w, Apply(suite, secret, w, actions[n]));
    }
  }

  // ----- the results -----

  /** In every run, whatever ids are used again: what was opened under a secret key was sealed by the peer. */
  lemma OpenedWasSealed(suite: Suite, secret: set<Bytes>, actions: seq<Action>, i: nat)
    requires Lawful(suite.codec) && i < |Run(suite, secret, actions).opens|
    requires Run(suite, secret, actions).opens[i].key in secret
    ensures var w := Run(suite, secret, actions);
            exists j :: 0 <= j < |w.seals| && Matches(w.opens[i], w.seals[j])
  {
    AlwaysInv(suite, secret, actions);
  }

  /** If no receiving end was recorded twice, no sealed frame is opened twice. */
  lemma OpenedAtMostOnce(suite: Suite, secret: set<Bytes>, actions: seq<Action>, i: nat, i': nat, j: nat)
    requires Lawful(suite.codec) && ReceiveEndsDistinct(Run(suite, secret, actions))
    requires var w := Run(suite, secret, actions);
             && i < |w.opens| && i' < |w.opens| && j < |w.seals|
             && Matches(w.opens[i], w.seals[j]) && Matches(w.opens[i'], w.seals[j])
    ensures i == i'
  {
    AlwaysReceiveInv(suite, secret, actions);
  }

  /** If no sending end was recorded twice, an opened frame comes from one seal only. */
  lemma OpenedFromOneSeal(suite: Suite, secret: set<Bytes>, actions: seq<Action>, i: nat, j: nat, j': nat)
    requires Lawful(suite.codec) && SendEndsDistinct(Run(suite, secret, actions))
    requires var w := Run(suite, secret, actions);
             && i < |w.opens| && j < |w.seals| && j' < |w.seals|
             && Matches(w.opens[i], w.seals[j]) && Matches(w.opens[i], w.seals[j'])
    ensures j == j'
  {
    AlwaysSendInv(suite, secret, actions);
  }

  /** In every run that records no end twice, what was opened under secret keys maps one-to-one into what the
      peers sealed. */
  lemma InjectiveDelivery(suite: Suite, secret: set<Bytes>, actions: seq<Action>)
    requires Lawful(suite.codec)
    requires SendEndsDistinct(Run(suite, secret, actions)) && ReceiveEndsDistinct(Run(suite, secret, actions))
    ensures var w := Run(suite, secret, actions);
            && (forall i :: 0 <= i < |w.opens| && w.opens[i].key in secret ==>
                  exists j :: 0 <= j < |w.seals| && Matches(w.opens[i], w.seals[j]))
            && (forall i, i', j | 0 <= i < |w.opens| && 0 <= i' < |w.opens| && 0 <= j < |w.seals| ::
                  Matches(w.opens[i], w.seals[j]) && Matches(w.opens[i'], w.seals[j]) ==> i == i')
            && (forall i, j, j' | 0 <= i < |w.opens| && 0 <= j < |w.seals| && 0 <= j' < |w.seals| ::
                  Matches(w.opens[i], w.seals[j]) && Matches(w.opens[i], w.seals[j']) ==> j == j')
  {
    AlwaysInv(suite, secret, actions);
    AlwaysSendInv(suite, secret, actions);
    AlwaysReceiveInv(suite, secret, actions);
  }
}
