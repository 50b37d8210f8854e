/** Which way one file syncs with one peer. */
module SyncDirection {
  import opened Results
  import opened VersionVectors

  datatype Direction = Push | Pull | Conflict | Noop

  /** A chunk manifest, reduced to the digest of each chunk (none while unhashed). */
  datatype Manifest = Manifest(digests: seq<Option<string>>)

  function Digests(m: Option<Manifest>): set<string> {
    if m.None? then {} else set i | 0 <= i < |m.value.digests| && m.value.digests[i].Some? :: m.value.digests[i].value
  }

  function DiffContent(l: Option<Manifest>, r: Option<Manifest>): Direction {
    var localOnly := Digests(l) - Digests(r);
    var remoteOnly := Digests(r) - Digests(l);
    if localOnly != {} && remoteOnly != {} then Conflict
    else if localOnly != {} then Push
    else if remoteOnly != {} then Pull
    else Noop
  }

  function ResolveWithVersions(lv: Vector, rv: Vector, l: Option<Manifest>, r: Option<Manifest>): Direction {
    if Lt(lv, rv) then Pull else if Lt(rv, lv) then Push else DiffContent(l, r)
  }

  function ResolveWithoutVersions(l: Option<Manifest>, r: Option<Manifest>): Direction {
    var d := DiffContent(l, r);
    if d.Conflict? then Push else d
  }

  function Resolve(l: Option<Manifest>, lv: Option<Vector>, r: Option<Manifest>, rv: Option<Vector>): Direction {
    if r.None? && rv.None? then (if l.Some? && |l.value.digests| > 0 then Push else Noop)
    else if lv.Some? && rv.Some? then ResolveWithVersions(lv.value, rv.value, l, r)
    else ResolveWithoutVersions(l, r)
  }

  function Mirror(d: Direction): Direction {
    match d case Push => Pull case Pull => Push case Conflict => Conflict case Noop => Noop
  }

  /** Seen from the other side the decision is mirrored, exactly unless each vector strictly precedes the
      other: counters stored on one side only are all zero or negative, there is at least one, and the
      shared ones agree. Then both sides pull. */
  lemma MirrorExactly(l: Option<Manifest>, lv: Vector, r: Option<Manifest>, rv: Vector)
    ensures Resolve(r, Some(rv), l, Some(lv)) == Mirror(Resolve(l, Some(lv), r, Some(rv)))
            <==> !(Indistinct(lv, rv) && lv.Keys != rv.Keys)
    ensures Indistinct(lv, rv) && lv.Keys != rv.Keys ==>
              Resolve(l, Some(lv), r, Some(rv)) == Resolve(r, Some(rv), l, Some(lv)) == Pull
  {
    MutualOrderExactly(lv, rv);
  }

  /** On canonical vectors two peers therefore never both push and never both pull. */
  lemma DecisionsMirror(l: Option<Manifest>, lv: Vector, r: Option<Manifest>, rv: Vector)
    requires Canonical(lv) && Canonical(rv)
    ensures var here, there := Resolve(l, Some(lv), r, Some(rv)), Resolve(r, Some(rv), l, Some(lv));
            there == Mirror(here) && !(here.Push? && there.Push?) && !(here.Pull? && there.Pull?)
  {
    LeIsPartialOrder(lv, rv, lv);
    MirrorExactly(l, lv, r, rv);
  }

  lemma BothPullOnStoredZeros()
    ensures Resolve(None, Some(map["a" := 0]), None, Some(map[])) == Pull
    ensures Resolve(None, Some(map[]), None, Some(map["a" := 0])) == Pull
  {
    NotAnOrderInGeneral();
  }

  ghost predicate Holds(m: Option<Manifest>, x: string) {
    m.Some? && Some(x) in m.value.digests
  }

  /** The first manifest holds a digest that the second lacks. */
  ghost predicate HoldsMore(l: Option<Manifest>, r: Option<Manifest>) {
    exists x :: Holds(l, x) && !Holds(r, x)
  }

  /** Both versions are known, and the first differs from the second and nowhere exceeds it. */
  ghost predicate Older(a: Option<Vector>, b: Option<Vector>) {
    a.Some? && b.Some? && a != b
    && forall d :: d in a.value ==> a.value[d] <= if d in b.value then b.value[d] else 0
  }

  ghost predicate NeitherOlder(a: Option<Vector>, b: Option<Vector>) {
    !Older(a, b) && !Older(b, a)
  }

  lemma DigestsAreHeld(m: Option<Manifest>, x: string)
    ensures x in Digests(m) <==> Holds(m, x)
  {
    if Holds(m, x) {
      var i :| 0 <= i < |m.value.digests| && m.value.digests[i] == Some(x);
    }
  }

  lemma LacksOne(l: Option<Manifest>, r: Option<Manifest>)
    ensures HoldsMore(l, r) <==> Digests(l) - Digests(r) != {}
  {
    forall x ensures (x in Digests(l) <==> Holds(l, x)) && (x in Digests(r) <==> Holds(r, x)) {
      DigestsAreHeld(l, x);
      DigestsAreHeld(r, x);
    }
    if HoldsMore(l, r) {
      var x :| Holds(l, x) && !Holds(r, x);
      assert x in Digests(l) - Digests(r);
    } else {
      assert forall x :: x !in Digests(l) - Digests(r);
    }
  }

  lemma OlderIsLess(a: Vector, b: Vector)
    ensures Older(Some(a), Some(b)) <==> Lt(a, b)
  {}

  lemma Compared(l: Option<Manifest>, lv: Option<Vector>, r: Option<Manifest>, rv: Option<Vector>)
    ensures HoldsMore(l, r) <==> Digests(l) - Digests(r) != {}
    ensures HoldsMore(r, l) <==> Digests(r) - Digests(l) != {}
    ensures Older(lv, rv) <==> lv.Some? && rv.Some? && Lt(lv.value, rv.value)
    ensures Older(rv, lv) <==> lv.Some? && rv.Some? && Lt(rv.value, lv.value)
  {
    LacksOne(l, r);
    LacksOne(r, l);
    if lv.Some? && rv.Some? {
      OlderIsLess(lv.value, rv.value);
      OlderIsLess(rv.value, lv.value);
    }
  }

  lemma PullExactly(l: Option<Manifest>, lv: Option<Vector>, r: Option<Manifest>, rv: Option<Vector>)
    ensures Resolve(l, lv, r, rv) == Pull
       <==> Older(lv, rv) || (!Older(rv, lv) && HoldsMore(r, l) && !HoldsMore(l, r))
  {
    Compared(l, lv, r, rv);
  }

  /** A peer that knows nothing of the file is pushed whatever has a chunk; without both versions having more to
      offer is enough. */
  lemma PushExactly(l: Option<Manifest>, lv: Option<Vector>, r: Option<Manifest>, rv: Option<Vector>)
    ensures Resolve(l, lv, r, rv) == Push
       <==> if r == None && rv == None then l.Some? && l.value.digests != []
            else if lv == None || rv == None then HoldsMore(l, r)
            else !Older(lv, rv) && (Older(rv, lv) || (HoldsMore(l, r) && !HoldsMore(r, l)))
  {
    Compared(l, lv, r, rv);
  }

  /** A conflict is reported exactly when both versions are known, neither strictly precedes the other and each
      side holds a digest the other lacks. */
  lemma ConflictExactly(l: Option<Manifest>, lv: Option<Vector>, r: Option<Manifest>, rv: Option<Vector>)
    ensures Resolve(l, lv, r, rv) == Conflict
       <==> lv.Some? && rv.Some? && NeitherOlder(lv, rv) && HoldsMore(l, r) && HoldsMore(r, l)
  {
    Compared(l, lv, r, rv);
  }

  /** And nothing is done exactly when neither is older and neither holds more, or, for a peer that knows nothing of
      the file, when there is no chunk to push. */
  lemma NoopExactly(l: Option<Manifest>, lv: Option<Vector>, r: Option<Manifest>, rv: Option<Vector>)
    ensures Resolve(l, lv, r, rv) == Noop
       <==> if r == None && rv == None then l.None? || l.value.digests == []
            else NeitherOlder(lv, rv) && !HoldsMore(l, r) && !HoldsMore(r, l)
  {
    Compared(l, lv, r, rv);
  }

  /** Concurrent versions alone do not make a conflict: the content decides. */
  lemma ConcurrentMayPush()
    ensures var lv, rv := map["a" := 1], map["b" := 1];
            && Concurrent(lv, rv)
            && Resolve(Some(Manifest([Some("x")])), Some(lv), Some(Manifest([])), Some(rv)) == Push
  {
    var lv, rv := map["a" := 1], map["b" := 1];
    assert "a" in lv && "b" in rv;
    var l: Option<Manifest>, r: Option<Manifest> := Some(Manifest([Some("x")])), Some(Manifest([]));
    assert l.value.digests[0] == Some("x");
    assert "x" in Digests(l) && Digests(r) == {};
    assert "x" in Digests(l) - Digests(r);
  }
}
