/** A push from end to end: what is sent, and what the receiver ends up with in any order of arrival. */
module PushTransfer {
  import opened Results
  import opened Wire
  import opened Lists
  import opened VersionVectors
  import opened Chunking
  import opened PushSpec

  // ----- the sender -----

  /** The chunks the peer's manifest does not know by content. */
  function Sent(chunks: seq<Chunk>, known: set<Bytes>): set<nat> {
    set i | 0 <= i < |chunks| && chunks[i].data !in known
  }

  /** Their distinct digests. The announced chunk count is the number of these. */
  function Needed(chunks: seq<Chunk>, known: set<Bytes>): set<Bytes> {
    set i | i in Sent(chunks, known) :: chunks[i].data
  }

  function Unknown(known: set<Bytes>): Chunk -> bool {
    (c: Chunk) => c.data !in known
  }

  /** No two chunks that are sent have the same digest. */
  ghost predicate SentDistinct(chunks: seq<Chunk>, known: set<Bytes>) {
    forall i, j :: i in Sent(chunks, known) && j in Sent(chunks, known) && i != j ==> chunks[i].data != chunks[j].data
  }

  /** Streams the file's chunks, keeping those whose digest is needed, in file order, and counts the digests. */
  method PlanUpload(chunks: seq<Chunk>, known: set<Bytes>) returns (sent: seq<Chunk>, total: nat)
    ensures sent == Filter(chunks, Unknown(known))
    ensures total == |Needed(chunks, known)|
  {
    var needed := Needed(chunks, known);
    sent := [];
    for i := 0 to |chunks|
      invariant sent == FilterTo(chunks, Unknown(known), i)
    {
      assert chunks[i].data in needed <==> i in Sent(chunks, known) by {
        if chunks[i].data in needed {
          var j :| j in Sent(chunks, known) && chunks[j].data == chunks[i].data;
        }
      }
      if chunks[i].data in needed { sent := sent + [chunks[i]]; }
    }
    total := |needed|;
  }

  // ----- deliveries -----

  datatype Delivery = Delivery(index: nat, version: Option<Vector>, time: real)

  predicate Fits(l: Limits, c: Chunk) {
    |c.data| <= l.maxChunk && c.offset + |c.data| <= l.maxFile
  }

  /** One push: who receives it, in which state, and what is being sent. */
  datatype Transfer = Transfer(config: Config, start: State, path: string, dest: string,
                               content: Bytes, chunks: seq<Chunk>, known: set<Bytes>, total: int)
  {
    function All(): set<nat> {
      Sent(chunks, known)
    }

    function Old(): Bytes {
      Seed(start, dest)
    }

    function Message(d: Delivery): Push
      requires d.index < |chunks|
    {
      var c := chunks[d.index];
      Push(path, total, PushedChunk(d.index, c.offset, Some(c.data), c.data), d.version)
    }

    /** The chunks tile the file; the count announced is the number of distinct digests; the receiver's
        limits admit every chunk and one more assembly. */
    ghost predicate Valid() {
      && Tiles(chunks, content) && NoneEmpty(chunks)
      && config.resolve(path) == Some(dest)
      && total == |Needed(chunks, known)| && 1 <= total <= config.limits.maxTotal
      && (forall i :: i in All() ==> Fits(config.limits, chunks[i]))
      && path !in start.pending && |start.pending| < config.limits.maxPending
    }

    ghost predicate DistinctDigests() {
      SentDistinct(chunks, known)
    }
  }

  ghost predicate Deliveries(x: Transfer, ds: seq<Delivery>) {
    forall k :: 0 <= k < |ds| ==> ds[k].index < |x.chunks| && ds[k].index in x.All()
  }

  /** What the first `k` deliveries brought. */
  function Indices(ds: seq<Delivery>, k: nat): set<nat>
    requires k <= |ds|
  {
    set i | 0 <= i < k :: ds[i].index
  }

  /** The receiver after the first `k` deliveries. */
  ghost function After(x: Transfer, ds: seq<Delivery>, k: nat): State
    requires Deliveries(x, ds) && k <= |ds|
  {
    if k == 0 then x.start
    else Handle(x.config, After(x, ds, k - 1), x.Message(ds[k - 1]), ds[k - 1].time).0
  }

  lemma {:induction false} ImageCount(s: set<nat>, chunks: seq<Chunk>)
    requires forall i :: i in s ==> i < |chunks|
    requires forall i, j :: i in s && j in s && i != j ==> chunks[i].data != chunks[j].data
    ensures |set i | i in s :: chunks[i].data| == |s|
  {
    if s != {} {
      var x :| x in s;
      ImageCount(s - {x}, chunks);
      assert (set i | i in s :: chunks[i].data) == (set i | i in s - {x} :: chunks[i].data) + {chunks[x].data};
    }
  }

  lemma {:induction false} SubsetCount(s: set<nat>, t: set<nat>)
    requires s <= t
    ensures |s| <= |t| && (|s| == |t| ==> s == t)
  {
    if s != {} {
      var x :| x in s;
      SubsetCount(s - {x}, t - {x});
    }
  }

  lemma {:induction false} ImageAtMost(s: set<nat>, chunks: seq<Chunk>)
    requires forall i :: i in s ==> i < |chunks|
    ensures |set i | i in s :: chunks[i].data| <= |s|
  {
    if s != {} {
      var x :| x in s;
      ImageAtMost(s - {x}, chunks);
      assert (set i | i in s :: chunks[i].data) == (set i | i in s - {x} :: chunks[i].data) + {chunks[x].data};
    }
  }

  /** With distinct digests the announced count is reached exactly when every sent chunk has arrived. */
  lemma CountReachedExactly(chunks: seq<Chunk>, known: set<Bytes>, got: set<nat>)
    requires SentDistinct(chunks, known) && got <= Sent(chunks, known)
    ensures |got| >= |Needed(chunks, known)| <==> got == Sent(chunks, known)
  {
    var sent := Sent(chunks, known);
    ImageCount(sent, chunks);
    assert Needed(chunks, known) == set i | i in sent :: chunks[i].data;
    SubsetCount(got, sent);
  }

  /** Without them, some chunk is not needed to reach the count. */
  lemma SharedDigestSparesOne(x: Transfer, i: nat, j: nat)
    requires x.Valid() && i in x.All() && j in x.All() && i != j && x.chunks[i].data == x.chunks[j].data
    ensures |x.All() - {i}| >= x.total
  {
    var rest := x.All() - {i};
    ImageAtMost(rest, x.chunks);
    assert Needed(x.chunks, x.known) == set l | l in rest :: x.chunks[l].data by {
      assert j in rest;
    }
  }

  // ----- what an assembly holds -----

  function End(c: Chunk): nat {
    c.offset + |c.data|
  }

  predicate Covered(chunks: seq<Chunk>, s: set<nat>, i: nat) {
    exists j :: j in s && j < |chunks| && chunks[j].offset <= i < End(chunks[j])
  }

  ghost predicate Reaches(n: nat, base: Bytes, chunks: seq<Chunk>, s: set<nat>) {
    && n >= |base| && (forall j :: j in s && j < |chunks| ==> End(chunks[j]) <= n)
    && (n == |base| || exists j :: j in s && j < |chunks| && End(chunks[j]) == n)
  }

  /** The old file with the arrived chunks laid over it. */
  ghost predicate Blend(partial: Bytes, base: Bytes, content: Bytes, chunks: seq<Chunk>, s: set<nat>) {
    && Reaches(|partial|, base, chunks, s)
    && forall i :: 0 <= i < |partial| ==>
         if Covered(chunks, s, i) then i < |content| && partial[i] == content[i] else partial[i] == Padded(base, i)
  }

  lemma WriteLength(f: Bytes, base: Bytes, chunks: seq<Chunk>, s: set<nat>, j: nat)
    requires Reaches(|f|, base, chunks, s) && j < |chunks| && chunks[j].data != []
    ensures Reaches(|WriteAt(f, chunks[j].offset, chunks[j].data)|, base, chunks, s + {j})
  {
    var r := WriteAt(f, chunks[j].offset, chunks[j].data);
    if |r| == |f| && |f| != |base| {
      var k :| k in s && k < |chunks| && End(chunks[k]) == |f|;
      assert k in s + {j};
    } else if |r| != |f| {
      assert j in s + {j} && End(chunks[j]) == |r|;
    }
  }

  lemma CoveredGrows(chunks: seq<Chunk>, s: set<nat>, j: nat, i: nat)
    requires j < |chunks|
    ensures Covered(chunks, s + {j}, i) <==> Covered(chunks, s, i) || chunks[j].offset <= i < End(chunks[j])
  {
    if Covered(chunks, s, i) {
      var k :| k in s && k < |chunks| && chunks[k].offset <= i < End(chunks[k]);
      assert k in s + {j};
    }
    if chunks[j].offset <= i < End(chunks[j]) {
      assert j in s + {j};
    }
    if Covered(chunks, s + {j}, i) {
      var k :| k in s + {j} && k < |chunks| && chunks[k].offset <= i < End(chunks[k]);
      assert k in s || k == j;
    }
  }

  lemma WrittenByte(f: Bytes, content: Bytes, chunks: seq<Chunk>, j: nat, i: nat)
    requires Tiles(chunks, content) && j < |chunks| && chunks[j].offset <= i < End(chunks[j])
    requires i < |WriteAt(f, chunks[j].offset, chunks[j].data)|
    ensures i < |content| && WriteAt(f, chunks[j].offset, chunks[j].data)[i] == content[i]
  {
    TilesAt(chunks, content, j);
    assert chunks[j].data[i - chunks[j].offset] == content[i];
  }

  lemma UnwrittenByte(f: Bytes, base: Bytes, content: Bytes, chunks: seq<Chunk>, s: set<nat>, offset: nat, data: Bytes,
                      i: nat)
    requires Blend(f, base, content, chunks, s) && !(offset <= i < offset + |data|) && i < |WriteAt(f, offset, data)|
    ensures var byte := WriteAt(f, offset, data)[i];
            if Covered(chunks, s, i) then i < |content| && byte == content[i] else byte == Padded(base, i)
  {
    if i >= |f| {
      NotCoveredBeyond(f, base, chunks, s, i);
    }
  }

  lemma BlendAt(f: Bytes, base: Bytes, content: Bytes, chunks: seq<Chunk>, s: set<nat>, j: nat, i: nat)
    requires Blend(f, base, content, chunks, s) && Tiles(chunks, content) && j < |chunks|
    requires i < |WriteAt(f, chunks[j].offset, chunks[j].data)|
    ensures var r := WriteAt(f, chunks[j].offset, chunks[j].data);
            if Covered(chunks, s + {j}, i) then i < |content| && r[i] == content[i] else r[i] == Padded(base, i)
  {
    CoveredGrows(chunks, s, j, i);
    if chunks[j].offset <= i < End(chunks[j]) {
      WrittenByte(f, content, chunks, j, i);
    } else {
      UnwrittenByte(f, base, content, chunks, s, chunks[j].offset, chunks[j].data, i);
    }
  }

  lemma BlendGrows(f: Bytes, base: Bytes, content: Bytes, chunks: seq<Chunk>, s: set<nat>, j: nat)
    requires Blend(f, base, content, chunks, s) && Tiles(chunks, content) && NoneEmpty(chunks) && j < |chunks|
    ensures Blend(WriteAt(f, chunks[j].offset, chunks[j].data), base, content, chunks, s + {j})
  {
    var r := WriteAt(f, chunks[j].offset, chunks[j].data);
    WriteLength(f, base, chunks, s, j);
    forall i | 0 <= i < |r|
      ensures if Covered(chunks, s + {j}, i) then i < |content| && r[i] == content[i] else r[i] == Padded(base, i)
    {
      BlendAt(f, base, content, chunks, s, j, i);
    }
  }

  lemma NotCoveredBeyond(f: Bytes, base: Bytes, chunks: seq<Chunk>, s: set<nat>, i: nat)
    requires Reaches(|f|, base, chunks, s) && i >= |f|
    ensures !Covered(chunks, s, i) && Padded(base, i) == 0
  {}

  /** What a sender could check beforehand: the old file is no longer than the new one, something reaches
      the new end, and every byte no sent chunk covers is already there (a gap counts as zeros). */
  ghost predicate Agrees(base: Bytes, content: Bytes, chunks: seq<Chunk>, s: set<nat>) {
    && |base| <= |content|
    && (|base| == |content| || exists j :: j in s && j < |chunks| && End(chunks[j]) == |content|)
    && forall i :: 0 <= i < |content| && !Covered(chunks, s, i) ==> Padded(base, i) == content[i]
  }

  lemma BlendIsFileExactly(f: Bytes, base: Bytes, content: Bytes, chunks: seq<Chunk>, s: set<nat>)
    requires Blend(f, base, content, chunks, s) && Tiles(chunks, content)
    ensures f == content <==> Agrees(base, content, chunks, s)
  {
    if Agrees(base, content, chunks, s) {
      forall j | j in s && j < |chunks| ensures End(chunks[j]) <= |content| {
        TilesAt(chunks, content, j);
      }
      assert |f| == |content|;
    }
  }

  // ----- the receiver, delivery by delivery -----

  /** What has been assembled after `k` deliveries. */
  ghost function Progress(x: Transfer, ds: seq<Delivery>, k: nat): Pending
    requires Deliveries(x, ds) && k <= |ds|
  {
    if k == 0 then Pending(x.Old(), {}, None, 0.0)
    else Added(Progress(x, ds, k - 1), x.Message(ds[k - 1]), ds[k - 1].time)
  }

  lemma {:induction false} ProgressCounts(x: Transfer, ds: seq<Delivery>, k: nat)
    requires Deliveries(x, ds) && k <= |ds|
    ensures Progress(x, ds, k).received == Indices(ds, k)
  {
    if k > 0 {
      ProgressCounts(x, ds, k - 1);
      IndicesGrow(ds, k - 1);
    }
  }

  lemma {:induction false} ProgressIsBlend(x: Transfer, ds: seq<Delivery>, k: nat)
    requires Tiles(x.chunks, x.content) && NoneEmpty(x.chunks) && Deliveries(x, ds) && k <= |ds|
    ensures Blend(Progress(x, ds, k).partial, x.Old(), x.content, x.chunks, Indices(ds, k))
  {
    if k > 0 {
      ProgressIsBlend(x, ds, k - 1);
      var i := ds[k - 1].index;
      var f, g := Progress(x, ds, k - 1).partial, Progress(x, ds, k).partial;
      assert g == WriteAt(f, x.chunks[i].offset, x.chunks[i].data);
      assert Indices(ds, k) == Indices(ds, k - 1) + {i} by { IndicesGrow(ds, k - 1); }
      BlendGrows(f, x.Old(), x.content, x.chunks, Indices(ds, k - 1), i);
    }
  }

  /** The receiver with this path's assembly in progress and everything else as it was. */
  function Waiting(x: Transfer, a: Pending): State {
    x.start.(pending := x.start.pending[x.path := a])
  }

  ghost function Held(x: Transfer, ds: seq<Delivery>, k: nat): State
    requires Deliveries(x, ds) && k <= |ds|
  {
    if k == 0 then x.start else Waiting(x, Progress(x, ds, k))
  }

  /** What one more chunk does to it. */
  lemma OneMore(x: Transfer, st: State, a: Pending, d: Delivery)
    requires x.Valid() && d.index in x.All()
    requires st == Waiting(x, a) || (st == x.start && a == Pending(x.Old(), {}, None, a.lastActivity))
    ensures var a' := Added(a, x.Message(d), d.time);
            var (st', o) := Handle(x.config, st, x.Message(d), d.time);
            if |a'.received| >= x.total then o == Committed && st' == Commit(x.config, st, x.path, x.dest, a')
            else st' == Waiting(x, a')
  {
    assert Fits(x.config.limits, x.chunks[d.index]);
    assert x.start.pending[x.path := a][x.path := Added(a, x.Message(d), d.time)]
        == x.start.pending[x.path := Added(a, x.Message(d), d.time)];
  }

  /** After the commit: the destination has changed and no other file, and it holds the sender's file exactly
      when the old file agreed with it wherever nothing had arrived. */
  ghost predicate Settled(x: Transfer, st: State, got: set<nat>) {
    && x.path !in st.pending && x.dest in st.files && st.files == x.start.files[x.dest := st.files[x.dest]]
    && (st.files[x.dest] == x.content <==> Agrees(x.Old(), x.content, x.chunks, got))
  }

  lemma IndicesGrow(ds: seq<Delivery>, k: nat)
    requires k < |ds|
    ensures Indices(ds, k + 1) == Indices(ds, k) + {ds[k].index}
  {}

  lemma IndicesMonotone(x: Transfer, ds: seq<Delivery>, j: nat, k: nat)
    requires Deliveries(x, ds) && j <= k <= |ds|
    ensures Indices(ds, j) <= Indices(ds, k) <= x.All() && |Indices(ds, j)| <= |Indices(ds, k)|
  {
    SubsetCount(Indices(ds, j), Indices(ds, k));
  }

  lemma CountedNoLess(x: Transfer, ds: seq<Delivery>, k: nat)
    requires Deliveries(x, ds) && 0 < k <= |ds| && |Indices(ds, k)| < x.total
    ensures |Indices(ds, k - 1)| < x.total
  {
    IndicesMonotone(x, ds, k - 1, k);
  }

  lemma {:induction false} UntilCounted(x: Transfer, ds: seq<Delivery>, k: nat)
    requires x.Valid() && Deliveries(x, ds) && k <= |ds| && |Indices(ds, k)| < x.total
    ensures After(x, ds, k) == Held(x, ds, k)
  {
    if k > 0 {
      CountedNoLess(x, ds, k);
      UntilCounted(x, ds, k - 1);
      NextWaits(x, ds, k);
    }
  }

  lemma NextWaits(x: Transfer, ds: seq<Delivery>, k: nat)
    requires x.Valid() && Deliveries(x, ds) && 0 < k <= |ds| && |Indices(ds, k)| < x.total
    requires After(x, ds, k - 1) == Held(x, ds, k - 1)
    ensures After(x, ds, k) == Held(x, ds, k)
  {
    ProgressCounts(x, ds, k);
    OneMore(x, After(x, ds, k - 1), Progress(x, ds, k - 1), ds[k - 1]);
  }

  /** Once the new file is in place, late duplicates do no harm. */
  ghost predicate InPlace(x: Transfer, st: State) {
    && x.dest in st.files && st.files == x.start.files[x.dest := x.content]
    && (x.path in st.pending ==> st.pending[x.path].partial == x.content)
  }

  lemma RewriteIsIdentity(content: Bytes, chunks: seq<Chunk>, j: nat)
    requires Tiles(chunks, content) && j < |chunks|
    ensures WriteAt(content, chunks[j].offset, chunks[j].data) == content
  {
    TilesAt(chunks, content, j);
  }

  lemma StepInPlace(x: Transfer, st: State, d: Delivery)
    requires Tiles(x.chunks, x.content) && x.config.resolve(x.path) == Some(x.dest)
    requires InPlace(x, st) && d.index < |x.chunks|
    ensures InPlace(x, Handle(x.config, st, x.Message(d), d.time).0)
  {
    var m := x.Message(d);
    var a := Added(Assembly(st, m, x.dest, d.time), m, d.time);
    assert a.partial == x.content by { RewriteIsIdentity(x.content, x.chunks, d.index); }
    AlreadyInPlace(x, st, a);
  }

  lemma AlreadyInPlace(x: Transfer, st: State, a: Pending)
    requires InPlace(x, st) && a.partial == x.content
    ensures InPlace(x, Commit(x.config, st, x.path, x.dest, a))
    ensures InPlace(x, st.(pending := st.pending[x.path := a]))
  {
    assert x.start.files[x.dest := x.content][x.dest := x.content] == x.start.files[x.dest := x.content];
  }

  lemma {:induction false} StaysInPlace(x: Transfer, ds: seq<Delivery>, k: nat, n: nat)
    requires Tiles(x.chunks, x.content) && x.config.resolve(x.path) == Some(x.dest)
    requires Deliveries(x, ds) && k <= n <= |ds| && InPlace(x, After(x, ds, k))
    ensures InPlace(x, After(x, ds, n))
    decreases n
  {
    if k < n {
      StaysInPlace(x, ds, k, n - 1);
      StepInPlace(x, After(x, ds, n - 1), ds[n - 1]);
    }
  }

  /** Delivery number `k` is the first to bring the count of distinct chunks to the announced one. */
  ghost predicate CountedAt(x: Transfer, ds: seq<Delivery>, k: nat) {
    0 < k <= |ds| && |Indices(ds, k - 1)| < x.total <= |Indices(ds, k)|
  }

  lemma CommitsAt(x: Transfer, ds: seq<Delivery>, k: nat)
    requires x.Valid() && Deliveries(x, ds) && CountedAt(x, ds, k)
    ensures Handle(x.config, After(x, ds, k - 1), x.Message(ds[k - 1]), ds[k - 1].time).1 == Committed
    ensures Settled(x, After(x, ds, k), Indices(ds, k)) && After(x, ds, k).files[x.dest] == Progress(x, ds, k).partial
  {
    UntilCounted(x, ds, k - 1);
    ProgressIsBlend(x, ds, k);
    ProgressCounts(x, ds, k);
    OneMore(x, After(x, ds, k - 1), Progress(x, ds, k - 1), ds[k - 1]);
    BlendIsFileExactly(Progress(x, ds, k).partial, x.Old(), x.content, x.chunks, Indices(ds, k));
  }

  lemma UntouchedBefore(x: Transfer, ds: seq<Delivery>, k: nat, j: nat)
    requires x.Valid() && Deliveries(x, ds) && CountedAt(x, ds, k) && j < k
    ensures After(x, ds, j).files == x.start.files
  {
    IndicesMonotone(x, ds, j, k - 1);
    UntilCounted(x, ds, j);
  }

  /** In whatever order and however often the chunks arrive: no file changes before the announced count is
      reached, the chunk that reaches it commits, and what is committed is the sender's file exactly when
      the old file agrees with it wherever no chunk has arrived. From then on it stays. */
  lemma PushCommits(x: Transfer, ds: seq<Delivery>, k: nat)
    requires x.Valid() && Deliveries(x, ds) && CountedAt(x, ds, k)
    ensures forall j :: 0 <= j < k ==> After(x, ds, j).files == x.start.files
    ensures Handle(x.config, After(x, ds, k - 1), x.Message(ds[k - 1]), ds[k - 1].time).1 == Committed
    ensures Settled(x, After(x, ds, k), Indices(ds, k))
    ensures Agrees(x.Old(), x.content, x.chunks, Indices(ds, k)) ==>
              forall n :: k <= n <= |ds| ==> After(x, ds, n).files == x.start.files[x.dest := x.content]
  {
    forall j | 0 <= j < k ensures After(x, ds, j).files == x.start.files {
      UntouchedBefore(x, ds, k, j);
    }
    CommitsAt(x, ds, k);
    if Agrees(x.Old(), x.content, x.chunks, Indices(ds, k)) {
      forall n | k <= n <= |ds| ensures After(x, ds, n).files == x.start.files[x.dest := x.content] {
        StaysInPlace(x, ds, k, n);
      }
    }
  }

  /** When the chunks sent have distinct digests, the count is reached exactly when the last missing chunk
      arrives, so the whole file is there. */
  lemma CountedExactlyWhenComplete(x: Transfer, ds: seq<Delivery>, k: nat)
    requires x.Valid() && x.DistinctDigests() && Deliveries(x, ds)
    ensures CountedAt(x, ds, k)
       <==> 0 < k <= |ds| && Indices(ds, k - 1) != x.All() && Indices(ds, k) == x.All()
  {
    if 0 < k <= |ds| {
      IndicesMonotone(x, ds, k - 1, k);
      CountReachedExactly(x.chunks, x.known, Indices(ds, k - 1));
      CountReachedExactly(x.chunks, x.known, Indices(ds, k));
    }
  }

  /** The whole promise: distinct digests, reused chunks in place, old file no longer. Every order of
      arrival with any duplicates commits with the last missing chunk, and commits the sender's file. */
  lemma PushReassembles(x: Transfer, ds: seq<Delivery>, k: nat, n: nat)
    requires x.Valid() && x.DistinctDigests() && ReusedInPlace(x.Old(), x.content, x.chunks, x.known)
    requires Deliveries(x, ds) && n <= |ds|
    requires 0 < k <= |ds| && Indices(ds, k - 1) != x.All() && Indices(ds, k) == x.All()
    ensures After(x, ds, n).files == if n < k then x.start.files else x.start.files[x.dest := x.content]
  {
    CountedExactlyWhenComplete(x, ds, k);
    InPlaceAgrees(x.Old(), x.content, x.chunks, x.known);
    PushCommits(x, ds, k);
  }

  // ----- what a sender can check beforehand -----

  /** The commit yields the sender's file. */
  ghost predicate Yields(x: Transfer, ds: seq<Delivery>, k: nat)
    requires Deliveries(x, ds) && k <= |ds|
  {
    x.dest in After(x, ds, k).files && After(x, ds, k).files[x.dest] == x.content
  }

  /** Deliveries of exactly the chunks in `s`, each once. */
  lemma {:induction false} Listing(x: Transfer, s: set<nat>) returns (ds: seq<Delivery>)
    requires s <= x.All()
    ensures Deliveries(x, ds) && |ds| == |s| && Indices(ds, |ds|) == s
    ensures forall k :: 0 <= k <= |ds| ==> |Indices(ds, k)| == k
  {
    if s == {} {
      ds := [];
    } else {
      var i :| i in s;
      var rest := Listing(x, s - {i});
      ds := rest + [Delivery(i, None, 0.0)];
      ListedOneMore(rest, ds, i);
    }
  }

  lemma ListedOneMore(rest: seq<Delivery>, ds: seq<Delivery>, i: nat)
    requires ds == rest + [Delivery(i, None, 0.0)] && i !in Indices(rest, |rest|)
    requires forall k :: 0 <= k <= |rest| ==> |Indices(rest, k)| == k
    ensures Indices(ds, |ds|) == Indices(rest, |rest|) + {i}
    ensures forall k :: 0 <= k <= |ds| ==> |Indices(ds, k)| == k
  {
    forall k | 0 <= k <= |rest| ensures Indices(ds, k) == Indices(rest, k) {
      assert forall j :: 0 <= j < k ==> ds[j] == rest[j];
    }
    IndicesGrow(ds, |rest|);
  }

  /** The delivery that reaches the count brings it to exactly that number. */
  lemma CountedIsExact(x: Transfer, ds: seq<Delivery>, k: nat)
    requires Deliveries(x, ds) && CountedAt(x, ds, k)
    ensures |Indices(ds, k)| == x.total && Indices(ds, k) <= x.All()
  {
    IndicesMonotone(x, ds, k - 1, k);
    IndicesGrow(ds, k - 1);
  }

  /** Every order of arrival commits the sender's file exactly when the old file agrees with it outside every
      choice of as many sent chunks as there are distinct digests. */
  lemma EveryOrderYieldsExactly(x: Transfer)
    requires x.Valid()
    ensures (forall ds, k | Deliveries(x, ds) && CountedAt(x, ds, k) :: Yields(x, ds, k))
       <==> (forall s | s <= x.All() && |s| == x.total :: Agrees(x.Old(), x.content, x.chunks, s))
  {
    if forall ds, k | Deliveries(x, ds) && CountedAt(x, ds, k) :: Yields(x, ds, k) {
      forall s | s <= x.All() && |s| == x.total ensures Agrees(x.Old(), x.content, x.chunks, s) {
        var ds := Listing(x, s);
        assert CountedAt(x, ds, |ds|);
        assert Yields(x, ds, |ds|);
        CommitsAt(x, ds, |ds|);
      }
    }
    if forall s | s <= x.All() && |s| == x.total :: Agrees(x.Old(), x.content, x.chunks, s) {
      forall ds, k | Deliveries(x, ds) && CountedAt(x, ds, k) ensures Yields(x, ds, k) {
        CountedIsExact(x, ds, k);
        CommitsAt(x, ds, k);
      }
    }
  }

  // ----- when the old file agrees -----

  lemma {:induction false} TilesCover(chunks: seq<Chunk>, content: Bytes, i: nat) returns (j: nat)
    requires Tiles(chunks, content) && i < |content|
    ensures j < |chunks| && chunks[j].offset <= i < End(chunks[j])
    decreases |chunks|
  {
    var n := |chunks| - 1;
    if i >= chunks[n].offset {
      j := n;
    } else {
      j := TilesCover(chunks[..n], content[..chunks[n].offset], i);
    }
  }

  /** Every reused chunk sits at the same offset in the old file, and the old file is no longer than the new. */
  ghost predicate ReusedInPlace(base: Bytes, content: Bytes, chunks: seq<Chunk>, known: set<Bytes>) {
    && |base| <= |content|
    && forall j :: 0 <= j < |chunks| && chunks[j].data in known ==>
         End(chunks[j]) <= |base| && base[chunks[j].offset..End(chunks[j])] == chunks[j].data
  }

  lemma UnsentByteKept(base: Bytes, content: Bytes, chunks: seq<Chunk>, known: set<Bytes>, i: nat)
    requires Tiles(chunks, content) && ReusedInPlace(base, content, chunks, known)
    requires i < |content| && !Covered(chunks, Sent(chunks, known), i)
    ensures Padded(base, i) == content[i]
  {
    var j := TilesCover(chunks, content, i);
    TilesAt(chunks, content, j);
    var from, to := chunks[j].offset, End(chunks[j]);
    assert chunks[j].data in known by { assert j in Sent(chunks, known) || chunks[j].data in known; }
    assert base[from..to] == content[from..to];
    assert base[i] == base[from..to][i - from] && content[i] == content[from..to][i - from];
  }

  lemma InPlaceAgrees(base: Bytes, content: Bytes, chunks: seq<Chunk>, known: set<Bytes>)
    requires Tiles(chunks, content) && ReusedInPlace(base, content, chunks, known)
    ensures Agrees(base, content, chunks, Sent(chunks, known))
  {
    var s := Sent(chunks, known);
    forall i | 0 <= i < |content| && !Covered(chunks, s, i) ensures Padded(base, i) == content[i] {
      UnsentByteKept(base, content, chunks, known, i);
    }
    if |base| != |content| {
      var j := TilesCover(chunks, content, |content| - 1);
      TilesAt(chunks, content, j);
      assert End(chunks[j]) == |content|;
      assert j in s;
    }
  }

  // ----- each condition matters -----

  /** Three chunks, two of them with one digest, and the transfer that sends them all. */
  const Repeated: seq<Chunk> := [Chunk(0, 0, [1]), Chunk(1, 1, [1]), Chunk(2, 2, [2])]

  function RepeatedTransfer(c: Config): Transfer {
    Transfer(c, State(map[], map[], map[]), "f", "f", [1, 1, 2], Repeated, {}, 2)
  }

  const Half: State := State(map[], map["f" := Pending([1], {0}, None, 0.0)], map[])

  predicate Admits(c: Config) {
    && c.resolve("f") == Some("f") && c.limits.maxPending > 0
    && c.limits.maxTotal >= 2 && c.limits.maxChunk >= 1 && c.limits.maxFile >= 3
  }

  lemma FirstOfRepeated(c: Config)
    requires Admits(c)
    ensures Handle(c, RepeatedTransfer(c).start, RepeatedTransfer(c).Message(Delivery(0, None, 0.0)), 0.0).0 == Half
  {
    assert WriteAt([], 0, [1]) == [1] && |{0 as nat}| == 1;
  }

  lemma SecondOfRepeated(c: Config)
    requires Admits(c)
    ensures Handle(c, Half, RepeatedTransfer(c).Message(Delivery(1, None, 0.0)), 0.0).0.files == map["f" := [1, 1]]
  {
    assert WriteAt([1], 1, [1]) == [1, 1];
    assert {0 as nat} + {1} == {0, 1} && |{0 as nat, 1}| == 2;
  }

  lemma RepeatedTiles()
    ensures Tiles(Repeated, [1, 1, 2]) && NoneEmpty(Repeated)
  {
    var content: Bytes := [1, 1, 2];
    var two, one := Repeated[..2], Repeated[..2][..1];
    assert one[..0] == [] && content[..2][..1] == [1] && [1][..0] == [] && [1][0..] == [1];
    assert one == [Chunk(0, 0, [1])] && Tiles(one, [1]);
    assert content[..2][1..] == [1] && two[1] == Chunk(1, 1, [1]);
    assert Tiles(two, content[..2]);
    assert content[2..] == [2];
  }

  lemma RepeatedIsValid(c: Config)
    requires Admits(c)
    ensures RepeatedTransfer(c).Valid()
  {
    RepeatedTiles();
    RepeatedCount();
  }

  lemma RepeatedCount()
    ensures Sent(Repeated, {}) == {0, 1, 2} && |Needed(Repeated, {})| == 2
  {
    assert Needed(Repeated, {}) == {[1], [2]} by {
      assert Repeated[0].data in Needed(Repeated, {}) && Repeated[2].data in Needed(Repeated, {});
    }
    assert [1] != [2] by { assert [1][0] != [2][0]; }
  }

  /** Two sent chunks with one digest: the count is reached, and a file two bytes long committed, before
      the third chunk arrives. */
  lemma SharedDigestCommitsEarly(c: Config)
    requires Admits(c)
    ensures var ds := [Delivery(0, None, 0.0), Delivery(1, None, 0.0)];
            && Deliveries(RepeatedTransfer(c), ds)
            && After(RepeatedTransfer(c), ds, 2).files == map["f" := [1, 1]]
    ensures RepeatedTransfer(c).Valid() && RepeatedTransfer(c).content == [1, 1, 2]
  {
    RepeatedIsValid(c);
    RepeatedCount();
    var x, ds := RepeatedTransfer(c), [Delivery(0, None, 0.0), Delivery(1, None, 0.0)];
    assert Deliveries(x, ds);
    assert After(x, ds, 1) == Half by {
      FirstOfRepeated(c);
      assert After(x, ds, 0) == x.start;
    }
    SecondOfRepeated(c);
  }

  /** An old file longer than the new one keeps its tail behind whatever is committed: nothing truncates. */
  lemma LongerOldFileStays(x: Transfer, ds: seq<Delivery>, k: nat)
    requires x.Valid() && Deliveries(x, ds) && CountedAt(x, ds, k) && |x.Old()| > |x.content|
    ensures x.dest in After(x, ds, k).files
    ensures var f := After(x, ds, k).files[x.dest];
            |f| == |x.Old()| && f[|x.content|..] == x.Old()[|x.content|..] && f != x.content
  {
    CommitsAt(x, ds, k);
    ProgressIsBlend(x, ds, k);
    TailStays(Progress(x, ds, k).partial, x.Old(), x.content, x.chunks, Indices(ds, k));
  }

  lemma TailStays(f: Bytes, base: Bytes, content: Bytes, chunks: seq<Chunk>, s: set<nat>)
    requires Blend(f, base, content, chunks, s) && Tiles(chunks, content) && |base| > |content|
    ensures |f| == |base| && f[|content|..] == base[|content|..]
  {
    forall j | j in s && j < |chunks| ensures End(chunks[j]) <= |content| {
      TilesAt(chunks, content, j);
    }
    forall i | |content| <= i < |base| ensures f[i] == base[i] {
      assert !Covered(chunks, s, i);
    }
  }

  lemma {:induction false} TilesDisjoint(chunks: seq<Chunk>, content: Bytes, i: nat, j: nat)
    requires Tiles(chunks, content) && i < j < |chunks|
    ensures End(chunks[i]) <= chunks[j].offset
    decreases |chunks|
  {
    var n := |chunks| - 1;
    var front := content[..chunks[n].offset];
    assert chunks[..n][i] == chunks[i];
    if j == n {
      TilesAt(chunks[..n], front, i);
    } else {
      TilesDisjoint(chunks[..n], front, i, j);
    }
  }

  lemma ReusedIsUncovered(chunks: seq<Chunk>, content: Bytes, known: set<Bytes>, s: set<nat>, j: nat, i: nat)
    requires Tiles(chunks, content) && s <= Sent(chunks, known) && j < |chunks| && chunks[j].data in known
    requires chunks[j].offset <= i < End(chunks[j])
    ensures !Covered(chunks, s, i)
  {
    forall m | m in s && m < |chunks| ensures !(chunks[m].offset <= i < End(chunks[m])) {
      if m < j {
        TilesDisjoint(chunks, content, m, j);
      } else if j < m {
        TilesDisjoint(chunks, content, j, m);
      }
    }
  }

  /** Where a chunk is reused, the commit holds what the old file held at that place, moved or not. */
  lemma ReusedPlacesKeepOldBytes(x: Transfer, ds: seq<Delivery>, k: nat, j: nat, i: nat)
    requires x.Valid() && Deliveries(x, ds) && CountedAt(x, ds, k)
    requires j < |x.chunks| && x.chunks[j].data in x.known && x.chunks[j].offset <= i < End(x.chunks[j])
    ensures x.dest in After(x, ds, k).files
    ensures var f := After(x, ds, k).files[x.dest]; i < |f| ==> f[i] == Padded(x.Old(), i)
  {
    CommitsAt(x, ds, k);
    ProgressIsBlend(x, ds, k);
    IndicesMonotone(x, ds, k, k);
    ReusedIsUncovered(x.chunks, x.content, x.known, Indices(ds, k), j, i);
  }

  // the file [7, 8] becomes [8, 9]; the chunk [8] is known to the receiver, one place further on
  const Moved: seq<Chunk> := [Chunk(0, 0, [8]), Chunk(1, 1, [9])]

  function MovedTransfer(c: Config): Transfer {
    Transfer(c, State(map["f" := [7, 8]], map[], map[]), "f", "f", [8, 9], Moved, {[7], [8]}, 1)
  }

  lemma MovedIsValid(c: Config)
    requires Admits(c)
    ensures MovedTransfer(c).Valid() && MovedTransfer(c).All() == {1}
  {
    var x := MovedTransfer(c);
    var content: Bytes := [8, 9];
    assert Moved[..1] == [Chunk(0, 0, [8])] && content[..1] == [8] && content[1..] == [9];
    assert Moved[..1][..0] == [] && content[..1][..0] == [] && content[..1][0..] == [8];
    assert Tiles(Moved[..1], content[..1]);
    assert [9] != [7] && [9] != [8] by { assert [9][0] != [7][0] && [9][0] != [8][0]; }
    assert Moved[0].data in x.known && Moved[1].data !in x.known;
    assert Needed(Moved, x.known) == {[9]} by { assert Moved[1].data in Needed(Moved, x.known); }
  }

  /** The receiver run on it: a reused chunk that moved is not put at its new place. */
  lemma MovedChunkIsMissed(c: Config)
    requires Admits(c)
    ensures MovedTransfer(c).Valid() && MovedTransfer(c).DistinctDigests()
            && Deliveries(MovedTransfer(c), [Delivery(1, None, 0.0)])
    ensures After(MovedTransfer(c), [Delivery(1, None, 0.0)], 1).files == map["f" := [7, 9]]
    ensures MovedTransfer(c).content == [8, 9]
  {
    MovedIsValid(c);
    var x, ds := MovedTransfer(c), [Delivery(1, None, 0.0)];
    assert After(x, ds, 0) == x.start;
    assert WriteAt([7, 8], 1, [9]) == [7, 9];
    assert {} + {1 as nat} == {1} && |{1 as nat}| == 1;
  }
}
