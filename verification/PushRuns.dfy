/** The push receiver over whole runs: any messages from anyone, interleaved with sweeps and shutdowns. */
module PushRuns {
  import opened Results
  import opened Wire
  import opened VersionVectors
  import opened PushSpec
  import opened Chunking
  import opened PushTransfer

  datatype Event = Arrive(push: Push, now: real) | Tick(now: real) | Stop

  function Step(c: Config, st: State, e: Event): State {
    match e
    case Arrive(p, now) => Handle(c, st, p, now).0
    case Tick(now) => Sweep(c, st, now)
    case Stop => Shutdown(st)
  }

  /** The receiver after the first `k` events. */
  function Run(c: Config, st: State, es: seq<Event>, k: nat): State
    requires k <= |es|
  {
    if k == 0 then st else Step(c, Run(c, st, es, k - 1), es[k - 1])
  }

  /** A push of `path` that resolves inside the sync root and passes validation. */
  predicate Verified(c: Config, e: Event, path: string) {
    e.Arrive? && e.push.path == path && c.resolve(path).Some? && Acceptable(c.limits, e.push)
  }

  // ----- what an assembly holds -----

  /** The event at which the assembly of `path` in progress after `k` events began; `k` when there is none. */
  function Start(c: Config, st: State, es: seq<Event>, k: nat, path: string): (b: nat)
    requires k <= |es|
    ensures b <= k
  {
    if k == 0 || path !in Run(c, st, es, k).pending then k else Start(c, st, es, k - 1, path)
  }

  /** The verified pushes of `path` among events `b` to `k`, written one after the other over `seed`. */
  function Replay(c: Config, es: seq<Event>, path: string, seed: Bytes, b: nat, k: nat): Pending
    requires b <= k <= |es|
  {
    if k == b then Pending(seed, {}, None, 0.0)
    else
      var a := Replay(c, es, path, seed, b, k - 1);
      if Verified(c, es[k - 1], path) then Added(a, es[k - 1].push, es[k - 1].now) else a
  }

  /** One event, seen from one path. */
  lemma StepAtPath(c: Config, st: State, e: Event, path: string)
    requires path in Step(c, st, e).pending
    ensures path !in st.pending ==> Verified(c, e, path)
    ensures Step(c, st, e).pending[path]
         == if Verified(c, e, path) then Added(Assembly(st, e.push, c.resolve(path).value, e.now), e.push, e.now)
            else st.pending[path]
  {
    if e.Arrive? && e.push.path != path {
      assert !Verified(c, e, path);
    }
  }

  /** The file an assembly was seeded with. */
  function SeedOf(c: Config, st: State, es: seq<Event>, k: nat, path: string): Bytes
    requires k <= |es| && c.resolve(path).Some?
  {
    Seed(Run(c, st, es, Start(c, st, es, k, path)), c.resolve(path).value)
  }

  /** What an assembly holds is the verified pushes since it began, over the file as it was then. */
  lemma {:induction false} AssemblyIsReplay(c: Config, st: State, es: seq<Event>, k: nat, path: string)
    requires st.pending == map[] && k <= |es| && path in Run(c, st, es, k).pending
    ensures c.resolve(path).Some? && path !in Run(c, st, es, Start(c, st, es, k, path)).pending
    ensures Start(c, st, es, k, path) < k && Verified(c, es[Start(c, st, es, k, path)], path)
    ensures Run(c, st, es, k).pending[path]
         == Replay(c, es, path, SeedOf(c, st, es, k, path), Start(c, st, es, k, path), k)
  {
    var before := Run(c, st, es, k - 1);
    StepAtPath(c, before, es[k - 1], path);
    if path in before.pending {
      AssemblyIsReplay(c, st, es, k - 1, path);
    }
  }

  // ----- files change only by commits -----

  lemma FilesChangeInCommits(c: Config, st: State, e: Event)
    requires Step(c, st, e).files != st.files || Step(c, st, e).versions != st.versions
    ensures e.Arrive? && Verified(c, e, e.push.path)
    ensures var p, dest := e.push, c.resolve(e.push.path).value;
            var a := Added(Assembly(st, p, dest, e.now), p, e.now);
            |a.received| >= p.total && Step(c, st, e) == Commit(c, st, p.path, dest, a)
  {}

  /** The indices carried by verified pushes of `path` among events `b` to `k`. */
  function Carried(c: Config, es: seq<Event>, path: string, b: nat, k: nat): set<nat>
    requires b <= k <= |es|
  {
    set j | b <= j < k && Verified(c, es[j], path) :: es[j].push.chunk.index
  }

  lemma {:induction false} ReplayCarries(c: Config, es: seq<Event>, path: string, seed: Bytes, b: nat, k: nat)
    requires b <= k <= |es|
    ensures Replay(c, es, path, seed, b, k).received == Carried(c, es, path, b, k)
  {
    if b < k {
      ReplayCarries(c, es, path, seed, b, k - 1);
      CarriedGrows(c, es, path, b, k - 1);
    }
  }

  lemma CarriedGrows(c: Config, es: seq<Event>, path: string, b: nat, k: nat)
    requires b <= k < |es|
    ensures Carried(c, es, path, b, k + 1)
         == Carried(c, es, path, b, k) + (if Verified(c, es[k], path) then {es[k].push.chunk.index} else {})
  {}

  lemma ReplayOneMore(c: Config, st: State, es: seq<Event>, k: nat, path: string)
    requires st.pending == map[] && k < |es| && Verified(c, es[k], path)
    ensures Added(Assembly(Run(c, st, es, k), es[k].push, c.resolve(path).value, es[k].now), es[k].push, es[k].now)
         == Replay(c, es, path, SeedOf(c, st, es, k, path), Start(c, st, es, k, path), k + 1)
  {
    if path in Run(c, st, es, k).pending {
      AssemblyIsReplay(c, st, es, k, path);
    }
  }

  /** The outcome of event `k`, when it is an arrival. */
  function OutcomeAt(c: Config, st: State, es: seq<Event>, k: nat): Outcome
    requires k < |es| && es[k].Arrive?
  {
    Handle(c, Run(c, st, es, k), es[k].push, es[k].now).1
  }

  /** The push starts or continues an assembly; it is refused only when it would start one too many. */
  predicate Admitted(c: Config, st: State, es: seq<Event>, k: nat)
    requires k < |es| && es[k].Arrive?
  {
    var path := es[k].push.path;
    && Verified(c, es[k], path)
    && (path in Run(c, st, es, k).pending || |Run(c, st, es, k).pending| < c.limits.maxPending)
  }

  /** A push commits exactly when it is admitted and brings the distinct verified chunks since the assembly
      began to the number it announces; then its destination becomes the file as it was at that beginning with
      exactly those chunks written over it. */
  lemma CommitsExactly(c: Config, st: State, es: seq<Event>, k: nat)
    requires st.pending == map[] && k < |es| && es[k].Arrive?
    ensures var path := es[k].push.path;
            var b := Start(c, st, es, k, path);
            && (OutcomeAt(c, st, es, k) == Committed
                <==> Admitted(c, st, es, k) && |Carried(c, es, path, b, k + 1)| >= es[k].push.total)
            && (OutcomeAt(c, st, es, k) == Committed ==>
                Run(c, st, es, k + 1).files
                == Run(c, st, es, k).files[c.resolve(path).value :=
                     Replay(c, es, path, SeedOf(c, st, es, k, path), b, k + 1).partial])
  {
    var path := es[k].push.path;
    if Verified(c, es[k], path) {
      ReplayOneMore(c, st, es, k, path);
      ReplayCarries(c, es, path, SeedOf(c, st, es, k, path), Start(c, st, es, k, path), k + 1);
    }
  }

  /** A file changes only when a verified push completes at least as many distinct chunks as it announces,
      all verified since the assembly began; only that push's destination changes, and it becomes the file
      it was at that beginning with exactly those chunks written over it. */
  lemma FilesChangeOnlyWhenComplete(c: Config, st: State, es: seq<Event>, k: nat)
    requires st.pending == map[] && k < |es|
    requires Run(c, st, es, k + 1).files != Run(c, st, es, k).files
    ensures es[k].Arrive? && Verified(c, es[k], es[k].push.path) && OutcomeAt(c, st, es, k) == Committed
    ensures var path := es[k].push.path;
            var b := Start(c, st, es, k, path);
            && |Carried(c, es, path, b, k + 1)| >= es[k].push.total
            && Run(c, st, es, k + 1).files
               == Run(c, st, es, k).files[c.resolve(path).value :=
                    Replay(c, es, path, SeedOf(c, st, es, k, path), b, k + 1).partial]
  {
    FilesChangeInCommits(c, Run(c, st, es, k), es[k]);
    CommitsExactly(c, st, es, k);
  }

  // ----- one file among everything else that arrives -----

  /** The push carries one of the file's chunks. */
  predicate Genuine(p: Push, chunks: seq<Chunk>) {
    && p.chunk.index < |chunks|
    && p.chunk.offset == chunks[p.chunk.index].offset && p.chunk.data == chunks[p.chunk.index].data
  }

  ghost predicate AllGenuine(c: Config, es: seq<Event>, path: string, b: nat, k: nat, chunks: seq<Chunk>)
    requires b <= k <= |es|
  {
    forall j :: b <= j < k && Verified(c, es[j], path) ==> Genuine(es[j].push, chunks)
  }

  lemma {:induction false} ReplayIsBlend(c: Config, es: seq<Event>, path: string, seed: Bytes, b: nat, k: nat,
                                         content: Bytes, chunks: seq<Chunk>)
    requires b <= k <= |es| && AllGenuine(c, es, path, b, k, chunks) && Tiles(chunks, content) && NoneEmpty(chunks)
    ensures Blend(Replay(c, es, path, seed, b, k).partial, seed, content, chunks, Carried(c, es, path, b, k))
  {
    if b < k {
      ReplayIsBlend(c, es, path, seed, b, k - 1, content, chunks);
      var f, got := Replay(c, es, path, seed, b, k - 1).partial, Carried(c, es, path, b, k - 1);
      if Verified(c, es[k - 1], path) {
        var i := es[k - 1].push.chunk.index;
        assert Genuine(es[k - 1].push, chunks);
        assert Replay(c, es, path, seed, b, k).partial == WriteAt(f, chunks[i].offset, chunks[i].data);
        assert Carried(c, es, path, b, k) == got + {i} by { CarriedGrows(c, es, path, b, k - 1); }
        BlendGrows(f, seed, content, chunks, got, i);
      } else {
        assert Carried(c, es, path, b, k) == got by { CarriedGrows(c, es, path, b, k - 1); }
      }
    }
  }

  /** Whatever else arrives, is swept or is dropped: a file committed from one sender's chunks is that sender's
      file exactly when the file it began from agrees with it wherever no chunk was carried. */
  lemma CommittedFileExactly(c: Config, st: State, es: seq<Event>, k: nat, content: Bytes, chunks: seq<Chunk>)
    requires st.pending == map[] && k < |es| && Tiles(chunks, content) && NoneEmpty(chunks)
    requires es[k].Arrive? && OutcomeAt(c, st, es, k) == Committed
    requires AllGenuine(c, es, es[k].push.path, Start(c, st, es, k, es[k].push.path), k + 1, chunks)
    ensures c.resolve(es[k].push.path).Some?
    ensures var path := es[k].push.path;
            && c.resolve(path).value in Run(c, st, es, k + 1).files
            && (Run(c, st, es, k + 1).files[c.resolve(path).value] == content
                <==> Agrees(SeedOf(c, st, es, k, path), content, chunks,
                            Carried(c, es, path, Start(c, st, es, k, path), k + 1)))
  {
    CommitsExactly(c, st, es, k);
    var path := es[k].push.path;
    var b, seed := Start(c, st, es, k, path), SeedOf(c, st, es, k, path);
    ReplayIsBlend(c, es, path, seed, b, k + 1, content, chunks);
    BlendIsFileExactly(Replay(c, es, path, seed, b, k + 1).partial, seed, content, chunks,
                       Carried(c, es, path, b, k + 1));
  }

  /** One sender's push among any other traffic: the chunks carried so far are its own, and it announces the
      number of their distinct digests. */
  ghost predicate OneSender(c: Config, st: State, es: seq<Event>, k: nat, chunks: seq<Chunk>, known: set<Bytes>)
    requires k < |es| && es[k].Arrive?
  {
    var path := es[k].push.path;
    var b := Start(c, st, es, k, path);
    && SentDistinct(chunks, known) && es[k].push.total == |Needed(chunks, known)|
    && AllGenuine(c, es, path, b, k + 1, chunks) && Carried(c, es, path, b, k + 1) <= Sent(chunks, known)
  }

  /** It commits exactly with the chunk that completes what was sent. */
  lemma CommitsWithLastChunk(c: Config, st: State, es: seq<Event>, k: nat, chunks: seq<Chunk>, known: set<Bytes>)
    requires st.pending == map[] && k < |es| && es[k].Arrive? && Admitted(c, st, es, k)
    requires OneSender(c, st, es, k, chunks, known)
    ensures var path := es[k].push.path;
            OutcomeAt(c, st, es, k) == Committed
            <==> Carried(c, es, path, Start(c, st, es, k, path), k + 1) == Sent(chunks, known)
  {
    CommitsExactly(c, st, es, k);
    var path := es[k].push.path;
    CountReachedExactly(chunks, known, Carried(c, es, path, Start(c, st, es, k, path), k + 1));
  }

  /** And with the reused chunks in place that commit, neither earlier nor later, makes it the sender's file. */
  lemma PushReassemblesAmongOthers(c: Config, st: State, es: seq<Event>, k: nat, content: Bytes,
                                   chunks: seq<Chunk>, known: set<Bytes>)
    requires st.pending == map[] && k < |es| && Tiles(chunks, content) && NoneEmpty(chunks)
    requires es[k].Arrive? && Admitted(c, st, es, k) && OneSender(c, st, es, k, chunks, known)
    requires ReusedInPlace(SeedOf(c, st, es, k, es[k].push.path), content, chunks, known)
    ensures var path, files := es[k].push.path, Run(c, st, es, k).files;
            Run(c, st, es, k + 1).files
            == if Carried(c, es, path, Start(c, st, es, k, path), k + 1) == Sent(chunks, known)
               then files[c.resolve(path).value := content] else files
  {
    CommitsWithLastChunk(c, st, es, k, chunks, known);
    var path := es[k].push.path;
    if OutcomeAt(c, st, es, k) == Committed {
      CommitsExactly(c, st, es, k);
      InPlaceAgrees(SeedOf(c, st, es, k, path), content, chunks, known);
      CommittedFileExactly(c, st, es, k, content, chunks);
    }
  }

  // ----- byte by byte -----

  predicate Writes(c: Config, e: Event, path: string, i: nat) {
    Verified(c, e, path) && e.push.chunk.offset <= i < e.push.chunk.offset + |e.push.chunk.data|
  }

  /** The last verified push of `path` among events `b` to `k` that writes byte `i`. */
  predicate LastWriter(c: Config, es: seq<Event>, path: string, b: nat, k: nat, i: nat, w: nat)
    requires b <= k <= |es|
  {
    b <= w < k && Writes(c, es[w], path, i) && forall j :: w < j < k ==> !Writes(c, es[j], path, i)
  }

  /** Where a byte came from: the last verified push that covers its place or, when none does, the seed. */
  ghost predicate Explained(c: Config, es: seq<Event>, path: string, seed: Bytes, b: nat, k: nat, i: nat, byte: Byte)
    requires b <= k <= |es|
  {
    || (exists w: nat | LastWriter(c, es, path, b, k, i, w) ::
          es[w].push.chunk.data[i - es[w].push.chunk.offset] == byte)
    || ((forall j :: b <= j < k ==> !Writes(c, es[j], path, i)) && byte == Padded(seed, i))
  }

  lemma StillExplained(c: Config, es: seq<Event>, path: string, seed: Bytes, b: nat, k: nat, i: nat, byte: Byte)
    requires b <= k < |es| && Explained(c, es, path, seed, b, k, i, byte) && !Writes(c, es[k], path, i)
    ensures Explained(c, es, path, seed, b, k + 1, i, byte)
  {
    if w: nat :| LastWriter(c, es, path, b, k, i, w) && es[w].push.chunk.data[i - es[w].push.chunk.offset] == byte {
      assert LastWriter(c, es, path, b, k + 1, i, w);
    }
  }

  /** Every byte of an assembly is accounted for; a gap past the seed's end holds zeros. */
  lemma {:induction false} EveryByteAccountedFor(c: Config, es: seq<Event>, path: string, seed: Bytes,
                                                 b: nat, k: nat, i: nat)
    requires b <= k <= |es| && i < |Replay(c, es, path, seed, b, k).partial|
    ensures Explained(c, es, path, seed, b, k, i, Replay(c, es, path, seed, b, k).partial[i])
  {
    if b < k {
      var f, byte := Replay(c, es, path, seed, b, k - 1).partial, Replay(c, es, path, seed, b, k).partial[i];
      if Writes(c, es[k - 1], path, i) {
        assert LastWriter(c, es, path, b, k, i, k - 1);
        assert es[k - 1].push.chunk.data[i - es[k - 1].push.chunk.offset] == byte;
      } else {
        assert byte == Padded(f, i);
        assert Explained(c, es, path, seed, b, k - 1, i, byte) by {
          if i < |f| {
            EveryByteAccountedFor(c, es, path, seed, b, k - 1, i);
          } else {
            BeyondNobodyWrote(c, es, path, seed, b, k - 1, i);
          }
        }
        StillExplained(c, es, path, seed, b, k - 1, i, byte);
      }
    }
  }

  lemma {:induction false} BeyondNobodyWrote(c: Config, es: seq<Event>, path: string, seed: Bytes,
                                             b: nat, k: nat, i: nat)
    requires b <= k <= |es| && i >= |Replay(c, es, path, seed, b, k).partial|
    ensures i >= |seed| && forall j :: b <= j < k ==> !Writes(c, es[j], path, i)
  {
    if b < k {
      BeyondNobodyWrote(c, es, path, seed, b, k - 1, i);
    }
  }

  // ----- what is refused, and what is dropped -----

  /** A push is refused exactly for one of these reasons, and then changes nothing. */
  lemma RefusedExactly(c: Config, st: State, p: Push, now: real)
    ensures var (st', o) := Handle(c, st, p, now);
            && (o == Rejected <==>
                || c.resolve(p.path).None?
                || p.total < 1 || p.total > c.limits.maxTotal
                || |p.chunk.data| > c.limits.maxChunk || p.chunk.offset + |p.chunk.data| > c.limits.maxFile
                || p.chunk.digest != Some(p.chunk.data)
                || (p.path !in st.pending && |st.pending| >= c.limits.maxPending))
            && (o == Rejected ==> st' == st)
  {}

  /** The last verified push of `path` among the first `k` events. */
  predicate LastPush(c: Config, es: seq<Event>, path: string, k: nat, j: nat)
    requires k <= |es|
  {
    j < k && Verified(c, es[j], path) && forall i :: j < i < k ==> !Verified(c, es[i], path)
  }

  lemma {:induction false} ReplayActivity(c: Config, es: seq<Event>, path: string, seed: Bytes, b: nat, k: nat)
    returns (j: nat)
    requires b < k <= |es| && Verified(c, es[b], path)
    ensures b <= j && LastPush(c, es, path, k, j) && Replay(c, es, path, seed, b, k).lastActivity == es[j].now
  {
    if Verified(c, es[k - 1], path) {
      j := k - 1;
    } else {
      j := ReplayActivity(c, es, path, seed, b, k - 1);
    }
  }

  /** An assembly's activity is the time of its last verified push. */
  lemma ActivityIsLastPush(c: Config, st: State, es: seq<Event>, k: nat, path: string) returns (j: nat)
    requires st.pending == map[] && k <= |es| && path in Run(c, st, es, k).pending
    ensures LastPush(c, es, path, k, j) && Run(c, st, es, k).pending[path].lastActivity == es[j].now
  {
    AssemblyIsReplay(c, st, es, k, path);
    j := ReplayActivity(c, es, path, SeedOf(c, st, es, k, path), Start(c, st, es, k, path), k);
  }

  /** A sweep drops an assembly exactly when its last verified push is longer ago than the timeout, and touches no
      file, no version and no other assembly; a shutdown drops every assembly. */
  lemma SweepDropsExactly(c: Config, st: State, es: seq<Event>, k: nat, path: string, j: nat)
    requires st.pending == map[] && k < |es| && es[k].Tick? && path in Run(c, st, es, k).pending
    requires LastPush(c, es, path, k, j)
    ensures var before, after := Run(c, st, es, k), Run(c, st, es, k + 1);
            && (path in after.pending <==> es[k].now - es[j].now <= c.limits.timeout)
            && (path in after.pending ==> after.pending[path] == before.pending[path])
            && after.files == before.files && after.versions == before.versions
            && after.pending.Keys <= before.pending.Keys
  {
    var i := ActivityIsLastPush(c, st, es, k, path);
    assert i == j;
  }

  lemma StopDropsAll(c: Config, st: State)
    ensures Step(c, st, Stop) == State(st.files, map[], st.versions)
  {}

  // ----- bounds -----

  lemma {:induction false} AssembliesBounded(c: Config, st: State, es: seq<Event>, k: nat)
    requires st.pending == map[] && k <= |es|
    ensures |Run(c, st, es, k).pending| <= Max(0, c.limits.maxPending)
  {
    if k > 0 {
      AssembliesBounded(c, st, es, k - 1);
      StepBounded(c, Run(c, st, es, k - 1), es[k - 1]);
    }
  }

  lemma {:induction false} SmallerMap(m: map<string, Pending>, n: map<string, Pending>)
    requires m.Keys <= n.Keys
    ensures |m| <= |n|
  {
    if m != map[] {
      var x :| x in m;
      SmallerMap(m - {x}, n - {x});
      assert |m - {x}| == |m| - 1 by { assert m == (m - {x})[x := m[x]]; }
      assert |n - {x}| == |n| - 1 by { assert n == (n - {x})[x := n[x]]; }
    }
  }

  lemma StepBounded(c: Config, st: State, e: Event)
    requires |st.pending| <= Max(0, c.limits.maxPending)
    ensures |Step(c, st, e).pending| <= Max(0, c.limits.maxPending)
  {
    var st' := Step(c, st, e);
    if e.Arrive? {
      if e.push.path in st.pending || st'.pending.Keys <= st.pending.Keys {
        SmallerMap(st'.pending, st.pending);
      }
    } else {
      SmallerMap(st'.pending, st.pending);
    }
  }

  /** An assembly never outgrows both the file it began from and the size limit. */
  lemma {:induction false} ReplayBounded(c: Config, es: seq<Event>, path: string, seed: Bytes, b: nat, k: nat)
    requires b <= k <= |es|
    ensures |seed| <= |Replay(c, es, path, seed, b, k).partial| <= Max(|seed|, c.limits.maxFile)
  {
    if b < k { ReplayBounded(c, es, path, seed, b, k - 1); }
  }

  lemma AssemblySizeBounded(c: Config, st: State, es: seq<Event>, k: nat, path: string)
    requires st.pending == map[] && k <= |es| && path in Run(c, st, es, k).pending
    ensures c.resolve(path).Some?
    ensures |Run(c, st, es, k).pending[path].partial| <= Max(|SeedOf(c, st, es, k, path)|, c.limits.maxFile)
  {
    AssemblyIsReplay(c, st, es, k, path);
    ReplayBounded(c, es, path, SeedOf(c, st, es, k, path), Start(c, st, es, k, path), k);
  }

  ghost predicate AllWithin(files: map<string, Bytes>, limit: int) {
    forall f :: f in files ==> |files[f]| <= limit
  }

  lemma WithinAfterUpdate(files: map<string, Bytes>, dest: string, f: Bytes, limit: int)
    requires AllWithin(files, limit) && |f| <= limit
    ensures AllWithin(files[dest := f], limit)
  {}

  lemma ReplayWithin(c: Config, st: State, es: seq<Event>, k: nat, path: string, limit: int)
    requires k < |es| && c.resolve(path).Some? && Max(0, c.limits.maxFile) <= limit
    requires AllWithin(Run(c, st, es, Start(c, st, es, k, path)).files, limit)
    ensures |Replay(c, es, path, SeedOf(c, st, es, k, path), Start(c, st, es, k, path), k + 1).partial| <= limit
  {
    ReplayBounded(c, es, path, SeedOf(c, st, es, k, path), Start(c, st, es, k, path), k + 1);
  }

  lemma StepWithin(c: Config, st: State, es: seq<Event>, k: nat, limit: int)
    requires st.pending == map[] && k < |es| && Max(0, c.limits.maxFile) <= limit
             && AllWithin(Run(c, st, es, k).files, limit)
    requires es[k].Arrive? ==> AllWithin(Run(c, st, es, Start(c, st, es, k, es[k].push.path)).files, limit)
    ensures AllWithin(Run(c, st, es, k + 1).files, limit)
  {
    if Run(c, st, es, k + 1).files != Run(c, st, es, k).files {
      FilesChangeOnlyWhenComplete(c, st, es, k);
      var path, files := es[k].push.path, Run(c, st, es, k).files;
      ReplayWithin(c, st, es, k, path, limit);
      var f := Replay(c, es, path, SeedOf(c, st, es, k, path), Start(c, st, es, k, path), k + 1).partial;
      WithinAfterUpdate(files, c.resolve(path).value, f, limit);
    }
  }

  /** Hence no push sequence makes any file longer than the limit, unless a file was longer at the start. */
  lemma {:induction false} FilesBounded(c: Config, st: State, es: seq<Event>, k: nat, limit: int)
    requires st.pending == map[] && k <= |es| && Max(0, c.limits.maxFile) <= limit && AllWithin(st.files, limit)
    ensures AllWithin(Run(c, st, es, k).files, limit)
  {
    if k > 0 {
      assert AllWithin(Run(c, st, es, k - 1).files, limit) by { FilesBounded(c, st, es, k - 1, limit); }
      if es[k - 1].Arrive? {
        var b := Start(c, st, es, k - 1, es[k - 1].push.path);
        assert AllWithin(Run(c, st, es, b).files, limit) by { FilesBounded(c, st, es, b, limit); }
      }
      assert k - 1 + 1 == k;
      StepWithin(c, st, es, k - 1, limit);
    }
  }

  // ----- versions only rise -----

  /** At least as far in every counter, with no counter lost. On all vectors, canonical or not. */
  predicate Rises(v: Vector, w: Vector) {
    forall d :: d in v ==> d in w && v[d] <= w[d]
  }

  lemma CommitRaises(c: Config, st: State, path: string, v: Option<Vector>)
    ensures path in st.versions ==> Rises(st.versions[path], CommitVersion(c, st, path, v))
    ensures v.Some? ==> Rises(v.value, CommitVersion(c, st, path, v))
  {}

  /** Between any two points of a run the version recorded for a path never falls and is never forgotten. */
  lemma {:induction false} VersionsOnlyRise(c: Config, st: State, es: seq<Event>, j: nat, k: nat, path: string)
    requires j <= k <= |es| && path in Run(c, st, es, j).versions
    ensures path in Run(c, st, es, k).versions
    ensures Rises(Run(c, st, es, j).versions[path], Run(c, st, es, k).versions[path])
    ensures Le(Run(c, st, es, j).versions[path], Run(c, st, es, k).versions[path])
    decreases k
  {
    if j < k {
      VersionsOnlyRise(c, st, es, j, k - 1, path);
      VersionStep(c, Run(c, st, es, k - 1), es[k - 1], path);
      var v := Run(c, st, es, j).versions[path];
      var w, x := Run(c, st, es, k - 1).versions[path], Run(c, st, es, k).versions[path];
      assert forall d :: d in v ==> d in w && d in x && v[d] <= x[d];
    }
  }

  lemma VersionStep(c: Config, st: State, e: Event, path: string)
    requires path in st.versions
    ensures path in Step(c, st, e).versions && Rises(st.versions[path], Step(c, st, e).versions[path])
  {
    if Step(c, st, e).versions != st.versions {
      FilesChangeInCommits(c, st, e);
      var p, dest := e.push, c.resolve(e.push.path).value;
      CommitRaises(c, st, p.path, Added(Assembly(st, p, dest, e.now), p, e.now).version);
    }
  }

  lemma {:induction false} ReplayDominates(c: Config, es: seq<Event>, path: string, seed: Bytes,
                                           b: nat, k: nat, j: nat)
    requires b <= j < k <= |es| && Verified(c, es[j], path) && es[j].push.version.Some?
    ensures var v := Replay(c, es, path, seed, b, k).version;
            v.Some? && Rises(es[j].push.version.value, v.value)
  {
    if j < k - 1 {
      ReplayDominates(c, es, path, seed, b, k - 1, j);
    }
  }

  /** What a commit records lies above every version the assembled chunks carried. */
  lemma CommittedVersionDominates(c: Config, st: State, es: seq<Event>, k: nat, j: nat)
    requires st.pending == map[] && k < |es| && es[k].Arrive?
    requires Handle(c, Run(c, st, es, k), es[k].push, es[k].now).1 == Committed
    requires Start(c, st, es, k, es[k].push.path) <= j <= k && Verified(c, es[j], es[k].push.path)
    ensures es[k].push.path in Run(c, st, es, k + 1).versions
    ensures es[j].push.version.Some? ==>
              Rises(es[j].push.version.value, Run(c, st, es, k + 1).versions[es[k].push.path])
  {
    var path, now := es[k].push.path, Run(c, st, es, k);
    ReplayOneMore(c, st, es, k, path);
    if es[j].push.version.Some? {
      var b, seed := Start(c, st, es, k, path), SeedOf(c, st, es, k, path);
      ReplayDominates(c, es, path, seed, b, k + 1, j);
      var v := Replay(c, es, path, seed, b, k + 1).version;
      CommitRaises(c, now, path, v);
      assert Run(c, st, es, k + 1).versions[path] == CommitVersion(c, now, path, v);
    }
  }

  lemma {:induction false} ReplaySilent(c: Config, es: seq<Event>, path: string, seed: Bytes, b: nat, k: nat)
    requires b <= k <= |es|
    requires forall j :: b <= j < k && Verified(c, es[j], path) ==> es[j].push.version.None?
    ensures Replay(c, es, path, seed, b, k).version.None?
  {
    if b < k { ReplaySilent(c, es, path, seed, b, k - 1); }
  }

  /** When no assembled chunk carried a version, the receiver's own counter goes up by one and no other moves. */
  lemma SilentCommitCounts(c: Config, st: State, es: seq<Event>, k: nat)
    requires st.pending == map[] && k < |es| && es[k].Arrive?
    requires Handle(c, Run(c, st, es, k), es[k].push, es[k].now).1 == Committed
    requires forall j :: Start(c, st, es, k, es[k].push.path) <= j <= k && Verified(c, es[j], es[k].push.path)
               ==> es[j].push.version.None?
    ensures var path, before, after := es[k].push.path, Run(c, st, es, k).versions, Run(c, st, es, k + 1).versions;
            && path in after
            && forall d :: Get(after[path], d)
                        == Get(if path in before then before[path] else map[], d) + (if d == c.ownId then 1 else 0)
  {
    var path := es[k].push.path;
    ReplayOneMore(c, st, es, k, path);
    ReplaySilent(c, es, path, SeedOf(c, st, es, k, path), Start(c, st, es, k, path), k + 1);
  }
}
