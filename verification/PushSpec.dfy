/** Receiving pushed chunks: what one message does to files, partial files and recorded versions. */
module PushSpec {
  import opened Results
  import opened Wire
  import opened VersionVectors

  /** A file read past its end: zeros. */
  function Padded(f: Bytes, i: nat): Byte {
    if i < |f| then f[i] else 0
  }

  /** Writing into a file at an offset. A gap beyond the end is filled with zeros; writing nothing changes nothing. */
  function WriteAt(f: Bytes, offset: nat, data: Bytes): (r: Bytes)
    ensures |r| == if data == [] || offset + |data| <= |f| then |f| else offset + |data|
    ensures forall i :: 0 <= i < |r| ==>
              r[i] == if offset <= i < offset + |data| then data[i - offset] else if i < |f| then f[i] else 0
  {
    if data == [] then f
    else
      var n := if offset + |data| <= |f| then |f| else offset + |data|;
      seq(n, i requires 0 <= i < n =>
        if offset <= i < offset + |data| then data[i - offset] else if i < |f| then f[i] else 0)
  }

  /** A digest is modelled by the bytes it is the digest of. */
  datatype PushedChunk = PushedChunk(index: nat, offset: nat, digest: Option<Bytes>, data: Bytes)

  datatype Push = Push(path: string, total: int, chunk: PushedChunk, version: Option<Vector>)

  datatype Limits = Limits(maxChunk: int, maxFile: int, maxTotal: int, maxPending: int, timeout: real)

  datatype Pending = Pending(partial: Bytes, received: set<nat>, version: Option<Vector>, lastActivity: real)

  /** Destination files, partially received files by relative path, and the version recorded for each path. */
  datatype State = State(files: map<string, Bytes>, pending: map<string, Pending>, versions: map<string, Vector>)

  datatype Config = Config(limits: Limits, ownId: string, resolve: string -> Option<string>)

  datatype Outcome = Rejected | Stored | Committed

  predicate Acceptable(l: Limits, p: Push) {
    && 1 <= p.total <= l.maxTotal && |p.chunk.data| <= l.maxChunk
    && p.chunk.offset + |p.chunk.data| <= l.maxFile
    && p.chunk.digest == Some(p.chunk.data)
  }

  function Merged(v: Option<Vector>, w: Option<Vector>): Option<Vector> {
    if w.None? then v else if v.None? then w else Some(Merge(v.value, w.value))
  }

  function Seed(st: State, dest: string): Bytes {
    if dest in st.files then st.files[dest] else []
  }

  /** The assembly state a chunk is added to: the one in progress, or a new one seeded with the current file. */
  function Assembly(st: State, p: Push, dest: string, now: real): Pending {
    if p.path in st.pending then st.pending[p.path] else Pending(Seed(st, dest), {}, None, now)
  }

  function Added(a: Pending, p: Push, now: real): Pending {
    Pending(WriteAt(a.partial, p.chunk.offset, p.chunk.data), a.received + {p.chunk.index},
            Merged(a.version, p.version), now)
  }

  /** The version recorded on commit: the sender's merged with ours, or our own counter bumped. */
  function CommitVersion(c: Config, st: State, path: string, v: Option<Vector>): Vector {
    var known := path in st.versions;
    if v.None? then Increment(if known then st.versions[path] else map[], c.ownId)
    else if known then Merge(v.value, st.versions[path])
    else v.value
  }

  function Commit(c: Config, st: State, path: string, dest: string, a: Pending): State {
    State(st.files[dest := a.partial], st.pending - {path},
          st.versions[path := CommitVersion(c, st, path, a.version)])
  }

  function Handle(c: Config, st: State, p: Push, now: real): (State, Outcome) {
    var dest := c.resolve(p.path);
    if dest.None? || !Acceptable(c.limits, p) then (st, Rejected)
    else if p.path !in st.pending && |st.pending| >= c.limits.maxPending then (st, Rejected)
    else
      var a := Added(Assembly(st, p, dest.value, now), p, now);
      if |a.received| >= p.total then (Commit(c, st, p.path, dest.value, a), Committed)
      else (st.(pending := st.pending[p.path := a]), Stored)
  }

  predicate Expired(c: Config, a: Pending, now: real) {
    now - a.lastActivity > c.limits.timeout
  }

  /** Stalled assemblies are dropped; nothing else changes. */
  function Sweep(c: Config, st: State, now: real): State {
    st.(pending := map path | path in st.pending && !Expired(c, st.pending[path], now) :: st.pending[path])
  }

  function Shutdown(st: State): State {
    st.(pending := map[])
  }
}
