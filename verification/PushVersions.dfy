/** The version a commit records, counter by counter. */
module PushVersions {
  import opened Results
  import opened Wire
  import opened VersionVectors
  import opened PushSpec
  import opened PushRuns

  /** A verified push of `path` whose version stores a counter for `d`. */
  predicate Stores(c: Config, e: Event, path: string, d: string) {
    Verified(c, e, path) && e.push.version.Some? && d in e.push.version.value
  }

  /** The counters for `d` that the verified pushes of `path` among events `b` to `k` carried. */
  function Counters(c: Config, es: seq<Event>, path: string, b: nat, k: nat, d: string): set<int>
    requires b <= k <= |es|
  {
    set j | b <= j < k && Stores(c, es[j], path, d) :: es[j].push.version.value[d]
  }

  /** The largest of `xs`; or zero, where all of them are negative. */
  ghost predicate LargestOrZero(x: int, xs: set<int>) {
    (forall y :: y in xs ==> y <= x) && (x in xs || x == 0)
  }

  /** `v` stores a counter for `d` exactly when there is one in `xs`, and it is the largest of them. */
  ghost predicate Pools(v: Vector, d: string, xs: set<int>) {
    (d in v <==> xs != {}) && (d in v ==> LargestOrZero(v[d], xs))
  }

  function At(v: Vector, d: string): set<int> {
    if d in v then {v[d]} else {}
  }

  lemma MergePools(v: Vector, w: Vector, d: string, xs: set<int>)
    requires Pools(v, d, xs)
    ensures Pools(Merge(v, w), d, xs + At(w, d))
  {}

  lemma CountersGrow(c: Config, es: seq<Event>, path: string, b: nat, k: nat, d: string)
    requires b <= k < |es|
    ensures Counters(c, es, path, b, k + 1, d)
         == Counters(c, es, path, b, k, d)
            + (if Stores(c, es[k], path, d) then {es[k].push.version.value[d]} else {})
  {}

  /** No verified push of `path` among events `b` to `k` carried a version. */
  ghost predicate Silent(c: Config, es: seq<Event>, path: string, b: nat, k: nat)
    requires b <= k <= |es|
  {
    forall j :: b <= j < k && Verified(c, es[j], path) ==> es[j].push.version.None?
  }

  lemma SilentHasNone(c: Config, es: seq<Event>, path: string, b: nat, k: nat, d: string)
    requires b <= k <= |es| && Silent(c, es, path, b, k)
    ensures Counters(c, es, path, b, k, d) == {}
  {}

  lemma {:induction false} AssembledVersion(c: Config, es: seq<Event>, path: string, seed: Bytes, b: nat, k: nat,
                                            d: string)
    requires b <= k <= |es|
    ensures var v := Replay(c, es, path, seed, b, k).version;
            && (v.None? <==> Silent(c, es, path, b, k))
            && (v.Some? ==> Pools(v.value, d, Counters(c, es, path, b, k, d)))
  {
    if b < k {
      AssembledVersion(c, es, path, seed, b, k - 1, d);
      CountersGrow(c, es, path, b, k - 1, d);
      var v, e := Replay(c, es, path, seed, b, k - 1).version, es[k - 1];
      if v.None? {
        SilentHasNone(c, es, path, b, k - 1, d);
      }
      if Verified(c, e, path) && e.push.version.Some? && v.Some? {
        MergePools(v.value, e.push.version.value, d, Counters(c, es, path, b, k - 1, d));
      }
    }
  }

  /** What a commit records when some assembled chunk carried a version: for each device the largest counter among
      the carried versions and the recorded one, and none that neither stores. Nothing is added to them, so the
      receiver does not get ahead of the sender by receiving. */
  lemma CommittedVersionExactly(c: Config, st: State, es: seq<Event>, k: nat, d: string)
    requires st.pending == map[] && k < |es| && es[k].Arrive? && OutcomeAt(c, st, es, k) == Committed
    requires !Silent(c, es, es[k].push.path, Start(c, st, es, k, es[k].push.path), k + 1)
    ensures var path, before, after := es[k].push.path, Run(c, st, es, k).versions, Run(c, st, es, k + 1).versions;
            var carried := Counters(c, es, path, Start(c, st, es, k, path), k + 1, d);
            path in after && Pools(after[path], d, carried + (if path in before then At(before[path], d) else {}))
  {
    var path := es[k].push.path;
    var b := Start(c, st, es, k, path);
    var v := CommitReplays(c, st, es, k);
    AssembledVersion(c, es, path, SeedOf(c, st, es, k, path), b, k + 1, d);
    CommitVersionPools(c, Run(c, st, es, k), path, v.value, d, Counters(c, es, path, b, k + 1, d));
  }

  /** The version a commit goes by is that of the verified pushes since the assembly began. */
  lemma CommitReplays(c: Config, st: State, es: seq<Event>, k: nat) returns (v: Option<Vector>)
    requires st.pending == map[] && k < |es| && es[k].Arrive? && OutcomeAt(c, st, es, k) == Committed
    ensures var path, now := es[k].push.path, Run(c, st, es, k);
            && c.resolve(path).Some?
            && v == Replay(c, es, path, SeedOf(c, st, es, k, path), Start(c, st, es, k, path), k + 1).version
            && Run(c, st, es, k + 1).versions == now.versions[path := CommitVersion(c, now, path, v)]
  {
    var path, now := es[k].push.path, Run(c, st, es, k);
    CommitRecords(c, now, es[k].push, es[k].now);
    CommitsExactly(c, st, es, k);
    ReplayOneMore(c, st, es, k, path);
    v := Replay(c, es, path, SeedOf(c, st, es, k, path), Start(c, st, es, k, path), k + 1).version;
  }

  lemma CommitVersionPools(c: Config, st: State, path: string, v: Vector, d: string, xs: set<int>)
    requires Pools(v, d, xs)
    ensures Pools(CommitVersion(c, st, path, Some(v)), d,
                  xs + (if path in st.versions then At(st.versions[path], d) else {}))
  {
    if path in st.versions {
      MergePools(v, st.versions[path], d, xs);
    } else {
      assert xs + {} == xs;
    }
  }

  lemma CommitRecords(c: Config, st: State, p: Push, now: real)
    requires Handle(c, st, p, now).1 == Committed
    ensures c.resolve(p.path).Some?
    ensures Handle(c, st, p, now).0.versions
         == st.versions[p.path := CommitVersion(c, st, p.path,
              Added(Assembly(st, p, c.resolve(p.path).value, now), p, now).version)]
  {}

  lemma MergeOfLower(v: Vector, w: Vector)
    requires Le(w, v) && w.Keys <= v.Keys
    ensures Merge(v, w) == v
  {
    forall x | x in v ensures Merge(v, w)[x] == v[x] {
      assert x in w ==> w[x] <= v[x];
    }
    assert Merge(v, w).Keys == v.Keys;
  }

  /** A one-chunk push to a path with a recorded version, from a sender that has seen it: the sender's version is
      recorded as it is. */
  lemma SenderAheadIsRecorded(c: Config, st: State, p: Push, now: real)
    requires st.pending == map[] && Handle(c, st, p, now).1 == Committed && p.version.Some?
    requires p.path in st.versions ==> Le(st.versions[p.path], p.version.value)
                                       && st.versions[p.path].Keys <= p.version.value.Keys
    ensures var st' := Handle(c, st, p, now).0; p.path in st'.versions && st'.versions[p.path] == p.version.value
  {
    CommitRecords(c, st, p, now);
    if p.path in st.versions {
      MergeOfLower(p.version.value, st.versions[p.path]);
    }
  }
}
