/** The strings that are hashed, signed and fed to the key schedule, and why none can be mistaken for another. */
module Transcripts {
  import opened Results
  import opened Wire

  const DIGEST_SIZE := 32

  function Ascii(s: string): Bytes {
    seq(|s|, i requires 0 <= i < |s| => s[i] as int % 256)
  }

  const T1 := "securesync-1e-handshake-v1"
  const RESPONDER_SIG_LABEL := "securesync-1e-responder-sig"
  const INITIATOR_SIG_LABEL := "securesync-1e-initiator-sig"
  const M4_ACCEPT_LABEL := "securesync-1e-m4-accept"
  const M4_REJECT_LABEL := "securesync-1e-m4-reject"
  const I2R_INFO := "securesync-initiator-to-responder"
  const R2I_INFO := "securesync-responder-to-initiator"

  predicate Prefixable(parts: seq<Bytes>) {
    forall i :: 0 <= i < |parts| ==> |parts[i]| <= MAX_PREFIXED
  }

  /** Each part length-prefixed, one after the other. */
  function Fields(parts: seq<Bytes>): Bytes
    requires Prefixable(parts)
  {
    if parts == [] then [] else LengthPrefixed(parts[0]) + Fields(parts[1..])
  }

  /** The bytes a transcript hash is computed over. */
  function Preimage(prefix: Bytes, parts: seq<Bytes>): Bytes
    requires Prefixable(parts)
  {
    prefix + Fields(parts)
  }

  lemma {:induction false} FieldsAppend(parts: seq<Bytes>, x: Bytes)
    requires Prefixable(parts) && |x| <= MAX_PREFIXED
    ensures Prefixable(parts + [x]) && Fields(parts + [x]) == Fields(parts) + LengthPrefixed(x)
  {
    if parts == [] {
      assert [x][1..] == [];
    } else {
      FieldsAppend(parts[1..], x);
      assert (parts + [x])[1..] == parts[1..] + [x];
    }
  }

  /** The hash loop: absorbs the prefix, then every part behind its length; fails on a part too long to prefix. */
  method Absorb(prefix: Bytes, parts: seq<Bytes>) returns (input: Option<Bytes>)
    ensures input.Some? <==> Prefixable(parts)
    ensures input.Some? ==> input.value == Preimage(prefix, parts)
  {
    var absorbed := prefix;
    for i := 0 to |parts|
      invariant Prefixable(parts[..i])
      invariant absorbed == Preimage(prefix, parts[..i])
    {
      if |parts[i]| > MAX_PREFIXED { return None; }
      FieldsAppend(parts[..i], parts[i]);
      assert parts[..i + 1] == parts[..i] + [parts[i]];
      absorbed := absorbed + LengthPrefixed(parts[i]);
    }
    assert parts[..|parts|] == parts;
    input := Some(absorbed);
  }

  /** A list of length-prefixed fields can be read back in only one way. */
  lemma {:induction false} FieldsInjective(a: seq<Bytes>, b: seq<Bytes>)
    requires Prefixable(a) && Prefixable(b) && Fields(a) == Fields(b)
    ensures a == b
  {
    if a != [] && b != [] {
      PrefixedFieldUnique(a[0], Fields(a[1..]), b[0], Fields(b[1..]));
      FieldsInjective(a[1..], b[1..]);
      assert a == [a[0]] + a[1..] && b == [b[0]] + b[1..];
    }
  }

  /** Two preimages behind prefixes of equal length coincide only if prefix and every part do. */
  lemma PreimageInjective(p: Bytes, a: seq<Bytes>, q: Bytes, b: seq<Bytes>)
    requires Prefixable(a) && Prefixable(b) && |p| == |q|
    requires Preimage(p, a) == Preimage(q, b)
    ensures p == q && a == b
  {
    SplitEqual(p, Fields(a), q, Fields(b));
    FieldsInjective(a, b);
  }

  function T2(m1: Bytes, m2body: Bytes): Bytes
    requires |m1| <= MAX_PREFIXED && |m2body| <= MAX_PREFIXED
  {
    Preimage(Ascii(T1), [m1, m2body])
  }

  /** The first transcript determines both messages it covers. */
  lemma T2Injective(m1: Bytes, body: Bytes, n1: Bytes, other: Bytes)
    requires |m1| <= MAX_PREFIXED && |body| <= MAX_PREFIXED && |n1| <= MAX_PREFIXED && |other| <= MAX_PREFIXED
    requires T2(m1, body) == T2(n1, other)
    ensures m1 == n1 && body == other
  {
    PreimageInjective(Ascii(T1), [m1, body], Ascii(T1), [n1, other]);
    assert [m1, body][0] == [n1, other][0] && [m1, body][1] == [n1, other][1];
  }

  /** The least size of an encoded hello or reply body. */
  const MIN_INTRO_SIZE := 105

  lemma TwoFields(a: Bytes, b: Bytes)
    requires |a| <= MAX_PREFIXED && |b| <= MAX_PREFIXED
    ensures Fields([a]) == LengthPrefixed(a) && Fields([a, b]) == LengthPrefixed(a) + LengthPrefixed(b)
  {
    assert [a][1..] == [] && [a, b][1..] == [b] && [b][1..] == [];
  }

  /** The first transcript is longer than any later one over a signature, a MAC or the accept label. */
  lemma FirstTranscriptSeparate(m1: Bytes, body: Bytes, digest: Bytes, part: Bytes)
    requires MIN_INTRO_SIZE <= |m1| <= MAX_PREFIXED && MIN_INTRO_SIZE <= |body| <= MAX_PREFIXED
    requires |digest| == DIGEST_SIZE && |part| <= 64
    ensures T2(m1, body) != Preimage(digest, [part])
  {
    TwoFields(m1, body);
    TwoFields(part, part);
    assert |T2(m1, body)| > |Preimage(digest, [part])|;
  }

  /** Over other parts, an arbitrary message 3 among them, the two coincide only if the digest spells the label. */
  lemma FirstTranscriptBehindLabel(m1: Bytes, body: Bytes, digest: Bytes, parts: seq<Bytes>)
    requires |m1| <= MAX_PREFIXED && |body| <= MAX_PREFIXED && Prefixable(parts)
    requires |digest| == DIGEST_SIZE && T2(m1, body) == Preimage(digest, parts)
    ensures digest[..|T1|] == Ascii(T1)
  {
    assert T2(m1, body)[..|T1|] == Ascii(T1);
    assert Preimage(digest, parts)[..|T1|] == digest[..|T1|];
  }

  function ReplyMacInput(t2: Bytes, sig: Bytes): Bytes
    requires |sig| <= MAX_PREFIXED
  {
    Preimage(t2, [sig])
  }

  function AcceptMacInput(tFinal: Bytes): Bytes {
    Preimage(tFinal, [Ascii(M4_ACCEPT_LABEL)])
  }

  function RejectMacInput(t2s: Bytes, m3: Bytes): Bytes
    requires |m3| <= MAX_PREFIXED
  {
    Preimage(t2s, [m3, Ascii(M4_REJECT_LABEL)])
  }

  /** What the responder's confirmation key authenticates in a reply, an accept and a reject is never
      the same string, whatever the transcripts and whatever arrived as message 3. */
  lemma ResponderMacsSeparate(t: Bytes, sig: Bytes, u: Bytes, v: Bytes, m3: Bytes)
    requires |t| == DIGEST_SIZE && |u| == DIGEST_SIZE && |v| == DIGEST_SIZE
    requires |sig| == 64 && |m3| <= MAX_PREFIXED
    ensures ReplyMacInput(t, sig) != AcceptMacInput(u)
    ensures ReplyMacInput(t, sig) != RejectMacInput(v, m3)
    ensures AcceptMacInput(u) != RejectMacInput(v, m3)
  {
    var accept, reject := Ascii(M4_ACCEPT_LABEL), Ascii(M4_REJECT_LABEL);
    if ReplyMacInput(t, sig) == AcceptMacInput(u) {
      PreimageInjective(t, [sig], u, [accept]);
    }
    if ReplyMacInput(t, sig) == RejectMacInput(v, m3) {
      PreimageInjective(t, [sig], v, [m3, reject]);
    }
    if AcceptMacInput(u) == RejectMacInput(v, m3) {
      PreimageInjective(u, [accept], v, [m3, reject]);
    }
  }

  function SignedResponder(t2: Bytes): Bytes {
    LengthPrefixed(Ascii(RESPONDER_SIG_LABEL)) + t2
  }

  function SignedInitiator(t2s: Bytes): Bytes {
    LengthPrefixed(Ascii(INITIATOR_SIG_LABEL)) + t2s
  }

  lemma LabelsDiffer(a: string, b: string, i: nat)
    requires i < |a| && i < |b| && a[i] as int < 256 && b[i] as int < 256 && a[i] != b[i]
    ensures Ascii(a) != Ascii(b)
  {
    assert Ascii(a)[i] == a[i] as int && Ascii(b)[i] == b[i] as int;
  }

  /** A responder's signature never covers a string an initiator's signature covers. */
  lemma SignaturesSeparate(t2: Bytes, t2s: Bytes)
    ensures SignedResponder(t2) != SignedInitiator(t2s)
  {
    if SignedResponder(t2) == SignedInitiator(t2s) {
      PrefixedFieldUnique(Ascii(RESPONDER_SIG_LABEL), t2, Ascii(INITIATOR_SIG_LABEL), t2s);
      LabelsDiffer(RESPONDER_SIG_LABEL, INITIATOR_SIG_LABEL, 14);
    }
  }

  /** The context both directional keys are bound to. */
  datatype KeyContext = KeyContext(initiatorId: Bytes, responderId: Bytes, sessionId: Bytes, eI: Bytes, eR: Bytes)

  predicate ContextOk(c: KeyContext) {
    && |c.sessionId| == 8 && |c.initiatorId| <= MAX_PREFIXED && |c.responderId| <= MAX_PREFIXED
    && |c.eI| <= MAX_PREFIXED && |c.eR| <= MAX_PREFIXED
  }

  function Common(c: KeyContext): Bytes
    requires |c.initiatorId| <= MAX_PREFIXED && |c.responderId| <= MAX_PREFIXED
    requires |c.eI| <= MAX_PREFIXED && |c.eR| <= MAX_PREFIXED
  {
    LengthPrefixed(c.initiatorId) + LengthPrefixed(c.responderId) + c.sessionId
    + LengthPrefixed(c.eI) + LengthPrefixed(c.eR)
  }

  function KeysTail(c: KeyContext): Bytes
    requires |c.eI| <= MAX_PREFIXED && |c.eR| <= MAX_PREFIXED
  {
    c.sessionId + (LengthPrefixed(c.eI) + LengthPrefixed(c.eR))
  }

  lemma KeysTailInjective(c: KeyContext, d: KeyContext)
    requires ContextOk(c) && ContextOk(d) && KeysTail(c) == KeysTail(d)
    ensures c.sessionId == d.sessionId && c.eI == d.eI && c.eR == d.eR
  {
    SplitEqual(c.sessionId, LengthPrefixed(c.eI) + LengthPrefixed(c.eR),
               d.sessionId, LengthPrefixed(d.eI) + LengthPrefixed(d.eR));
    PrefixedFieldUnique(c.eI, LengthPrefixed(c.eR), d.eI, LengthPrefixed(d.eR));
    assert LengthPrefixed(c.eR) + [] == LengthPrefixed(d.eR) + [];
    PrefixedFieldUnique(c.eR, [], d.eR, []);
  }

  lemma CommonShape(c: KeyContext)
    requires ContextOk(c)
    ensures Common(c) == LengthPrefixed(c.initiatorId) + (LengthPrefixed(c.responderId) + KeysTail(c))
  {}

  lemma CommonInjective(c: KeyContext, d: KeyContext)
    requires ContextOk(c) && ContextOk(d) && Common(c) == Common(d)
    ensures c == d
  {
    var c1, d1 := LengthPrefixed(c.responderId) + KeysTail(c), LengthPrefixed(d.responderId) + KeysTail(d);
    CommonShape(c);
    CommonShape(d);
    PrefixedFieldUnique(c.initiatorId, c1, d.initiatorId, d1);
    PrefixedFieldUnique(c.responderId, KeysTail(c), d.responderId, KeysTail(d));
    KeysTailInjective(c, d);
  }

  function KeyInfo(info: string, c: KeyContext): Bytes
    requires ContextOk(c) && |info| <= MAX_PREFIXED
  {
    LengthPrefixed(Ascii(info)) + Common(c)
  }

  /** The two directional keys of any sessions are derived from different strings, and each string
      determines the whole session context. */
  lemma DirectionalKeysSeparate(c: KeyContext, d: KeyContext)
    requires ContextOk(c) && ContextOk(d)
    ensures KeyInfo(I2R_INFO, c) != KeyInfo(R2I_INFO, d)
    ensures KeyInfo(I2R_INFO, c) == KeyInfo(I2R_INFO, d) ==> c == d
    ensures KeyInfo(R2I_INFO, c) == KeyInfo(R2I_INFO, d) ==> c == d
  {
    if KeyInfo(I2R_INFO, c) == KeyInfo(R2I_INFO, d) {
      PrefixedFieldUnique(Ascii(I2R_INFO), Common(c), Ascii(R2I_INFO), Common(d));
      LabelsDiffer(I2R_INFO, R2I_INFO, 11);
    }
    if KeyInfo(I2R_INFO, c) == KeyInfo(I2R_INFO, d) {
      PrefixedFieldUnique(Ascii(I2R_INFO), Common(c), Ascii(I2R_INFO), Common(d));
      CommonInjective(c, d);
    }
    if KeyInfo(R2I_INFO, c) == KeyInfo(R2I_INFO, d) {
      PrefixedFieldUnique(Ascii(R2I_INFO), Common(c), Ascii(R2I_INFO), Common(d));
      CommonInjective(c, d);
    }
  }
}
