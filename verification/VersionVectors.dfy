/** Version vectors: per-device counters, compared and merged pointwise. */
module VersionVectors {

  type Vector = map<string, int>

  function Get(v: Vector, d: string): int {
    if d in v then v[d] else 0
  }

  function Max(x: int, y: int): int {
    if x < y then y else x
  }

  predicate Le(a: Vector, b: Vector) {
    forall d :: d in a ==> a[d] <= Get(b, d)
  }

  predicate Lt(a: Vector, b: Vector) {
    Le(a, b) && a != b
  }

  predicate Concurrent(a: Vector, b: Vector) {
    !(Le(a, b) || Le(b, a))
  }

  function Merge(a: Vector, b: Vector): Vector {
    map d | d in a.Keys + b.Keys :: if d in b then Max(Get(a, d), b[d]) else a[d]
  }

  function Increment(v: Vector, d: string): Vector {
    v[d := Get(v, d) + 1]
  }

  /** No stored zero and no negative counter. Every vector grown from the empty one is like this. */
  predicate Canonical(v: Vector) {
    forall d :: d in v ==> v[d] > 0
  }

  // ----- the program's loops -----

  method MergeVectors(a: Vector, b: Vector) returns (r: Vector)
    ensures r == Merge(a, b)
  {
    r := a;
    var todo := b.Keys;
    while todo != {}
      invariant todo <= b.Keys && r.Keys == a.Keys + (b.Keys - todo)
      invariant forall d :: d in r ==> r[d] == if d in b && d !in todo then Max(Get(a, d), b[d]) else a[d]
      decreases todo
    {
      var d :| d in todo;
      r := r[d := Max(Get(r, d), b[d])];
      todo := todo - {d};
    }
  }

  method LessOrEqual(a: Vector, b: Vector) returns (le: bool)
    ensures le <==> Le(a, b)
  {
    var todo := a.Keys;
    while todo != {}
      invariant todo <= a.Keys
      invariant forall d :: d in a && d !in todo ==> a[d] <= Get(b, d)
      decreases todo
    {
      var d :| d in todo;
      if a[d] > Get(b, d) { return false; }
      todo := todo - {d};
    }
    le := true;
  }

  // ----- order and join -----

  lemma LeIsPartialOrder(a: Vector, b: Vector, c: Vector)
    requires Canonical(a) && Canonical(b) && Canonical(c)
    ensures Le(a, a)
    ensures Le(a, b) && Le(b, c) ==> Le(a, c)
    ensures Le(a, b) && Le(b, a) ==> a == b
  {
    if Le(a, b) && Le(b, a) {
      forall d ensures d in a <==> d in b {
        assert d in a ==> a[d] <= Get(b, d);
        assert d in b ==> b[d] <= Get(a, d);
      }
      forall d | d in a ensures a[d] == b[d] {
        assert d in b;
      }
    }
  }

  /** The merge lies above both, on all vectors, and what lies above it lies above both. */
  lemma MergeIsUpperBound(a: Vector, b: Vector, c: Vector)
    ensures Le(a, Merge(a, b)) && Le(b, Merge(a, b))
    ensures Le(Merge(a, b), c) ==> Le(a, c) && Le(b, c)
    ensures Canonical(a) && Canonical(b) ==> Canonical(Merge(a, b))
  {
    var m := Merge(a, b);
    if Le(m, c) {
      forall d | d in a ensures a[d] <= Get(c, d) { assert d in m; }
      forall d | d in b ensures b[d] <= Get(c, d) { assert d in m; }
    }
  }

  /** On canonical vectors it is the least such: it lies below exactly what both lie below. */
  lemma MergeIsJoin(a: Vector, b: Vector, c: Vector)
    requires Canonical(a) && Canonical(b)
    ensures Canonical(Merge(a, b)) && Le(a, Merge(a, b)) && Le(b, Merge(a, b))
    ensures Le(Merge(a, b), c) <==> Le(a, c) && Le(b, c)
  {
    MergeIsUpperBound(a, b, c);
  }

  /** In general it is the least exactly when no counter stored in `b` alone is negative. */
  lemma MergeIsLeastExactly(a: Vector, b: Vector)
    ensures (forall c | Le(a, c) && Le(b, c) :: Le(Merge(a, b), c)) <==> (forall d :: d in b && d !in a ==> b[d] >= 0)
  {
    if d :| d in b && d !in a && b[d] < 0 {
      var m := Merge(a, b);
      var c := m[d := b[d]];
      assert Le(a, c) && Le(b, c);
      assert d in m && m[d] == 0 && Get(c, d) == b[d] && !Le(m, c);
    }
  }

  lemma MergeIsIdempotent(a: Vector)
    ensures Merge(a, a) == a
  {}

  predicate OneSidedNonNegative(a: Vector, b: Vector) {
    forall d :: d in a && d !in b ==> a[d] >= 0
  }

  /** Merging commutes exactly when no counter stored on one side only is negative. */
  lemma MergeCommutesExactly(a: Vector, b: Vector)
    ensures Merge(a, b) == Merge(b, a) <==> OneSidedNonNegative(a, b) && OneSidedNonNegative(b, a)
  {
    var m, n := Merge(a, b), Merge(b, a);
    forall d | d in a.Keys + b.Keys
      ensures m[d] == n[d] <==> (d in a && d !in b ==> a[d] >= 0) && (d in b && d !in a ==> b[d] >= 0)
    {}
    assert m.Keys == n.Keys;
  }

  /** Merging associates exactly when no counter missing in the middle is negative on both sides. */
  lemma MergeAssociatesExactly(a: Vector, b: Vector, c: Vector)
    ensures Merge(Merge(a, b), c) == Merge(a, Merge(b, c))
       <==> forall d :: d in a && d in c && d !in b ==> a[d] >= 0 || c[d] >= 0
  {
    var x, y := Merge(Merge(a, b), c), Merge(a, Merge(b, c));
    assert x.Keys == y.Keys;
    forall d | d in x ensures x[d] == y[d] <==> (d in a && d in c && d !in b ==> a[d] >= 0 || c[d] >= 0) {
      AssociatesAt(a, b, c, d);
    }
    if forall d :: d in a && d in c && d !in b ==> a[d] >= 0 || c[d] >= 0 {
      assert forall d :: d in x ==> x[d] == y[d];
    }
  }

  lemma AssociatesAt(a: Vector, b: Vector, c: Vector, d: string)
    requires d in a.Keys + b.Keys + c.Keys
    ensures Merge(Merge(a, b), c)[d] == Merge(a, Merge(b, c))[d]
       <==> (d in a && d in c && d !in b ==> a[d] >= 0 || c[d] >= 0)
  {
    var l, r := Merge(a, b), Merge(b, c);
    assert d in l <==> d in a || d in b;
    assert d in r <==> d in b || d in c;
  }

  /** Incrementing goes strictly up on all vectors: by one for its own device, and by nothing for the others. */
  lemma IncrementIsInflationary(v: Vector, d: string)
    ensures d in Increment(v, d) && Increment(v, d)[d] == (if d in v then v[d] else 0) + 1
    ensures Increment(v, d) - {d} == v - {d}
    ensures Lt(v, Increment(v, d)) && !Le(Increment(v, d), v)
    ensures Canonical(v) ==> Canonical(Increment(v, d))
  {
    assert Increment(v, d)[d] == Get(v, d) + 1;
  }

  /** Outside canonical vectors the comparison is not an order: a stored zero or negative counter breaks
      antisymmetry and a negative counter breaks transitivity. */
  lemma NotAnOrderInGeneral()
    ensures Le(map["a" := 0], map[]) && Le(map[], map["a" := 0]) && map["a" := 0] != map[]
    ensures Le(map["a" := -1], map[]) && Le(map[], map["a" := -1]) && map["a" := -1] != map[]
    ensures Le(map["a" := 0], map[]) && Le(map[], map["a" := -1]) && !Le(map["a" := 0], map["a" := -1])
  {
    assert "a" in map["a" := 0] && "a" in map["a" := -1];
  }

  ghost predicate NonNegative(v: Vector) {
    forall d :: d in v ==> v[d] >= 0
  }

  ghost predicate TransitiveBelow(c: Vector) {
    forall a, b :: Le(a, b) && Le(b, c) ==> Le(a, c)
  }

  /** The comparison is transitive below a vector exactly when that vector stores no negative counter. */
  lemma TransitiveExactly(c: Vector)
    ensures TransitiveBelow(c) <==> NonNegative(c)
  {
    if NonNegative(c) {
      forall a, b | Le(a, b) && Le(b, c) ensures Le(a, c) {
        forall d | d in a ensures a[d] <= Get(c, d) {
          assert d in b ==> b[d] <= Get(c, d);
        }
      }
    }
    if d :| d in c && c[d] < 0 {
      var a: Vector, b: Vector := map[d := 0], map[];
      assert d in a && Le(a, b) && Le(b, c) && !Le(a, c);
    }
  }

  /** Shared counters agree, and no counter stored on one side only is positive. */
  ghost predicate Indistinct(a: Vector, b: Vector) {
    && (forall d :: d in a && d in b ==> a[d] == b[d])
    && (forall d :: d in a && d !in b ==> a[d] <= 0)
    && (forall d :: d in b && d !in a ==> b[d] <= 0)
  }

  /** For all vectors: two are below each other exactly when they are indistinct, and each strictly precedes
      the other exactly when, besides, one of them stores a counter the other does not. */
  lemma MutualOrderExactly(a: Vector, b: Vector)
    ensures Le(a, b) && Le(b, a) <==> Indistinct(a, b)
    ensures Lt(a, b) && Lt(b, a) <==> Indistinct(a, b) && a.Keys != b.Keys
  {
    if Le(a, b) && Le(b, a) {
      forall d | d in a ensures a[d] <= Get(b, d) {}
      forall d | d in b ensures b[d] <= Get(a, d) {}
    }
    if Indistinct(a, b) && a.Keys == b.Keys {
      assert forall d :: d in a <==> d in b;
      assert a == b;
    }
  }
}
