/** The push receiver as the program keeps it: temporary files beside a table of assemblies. */
module PushReceiver {
  import opened Results
  import opened Wire
  import opened VersionVectors
  import opened PushSpec

  /** Destination files and temporary files. Temporary names never clash with anything. */
  class Reconstructor {
    var files: map<string, Bytes>
    var temps: map<nat, Bytes>
    var nextTemp: nat

    ghost predicate Valid()
      reads this
    {
      forall t :: t in temps ==> t < nextTemp
    }

    constructor (files: map<string, Bytes>)
      ensures Valid() && this.files == files && temps == map[]
    {
      this.files, temps, nextTemp := files, map[], 0;
    }

    /** A temporary file seeded with the destination's current bytes. */
    method BeginPartial(dest: string) returns (t: nat)
      requires Valid()
      modifies this`temps, this`nextTemp
      ensures Valid() && t !in old(temps)
      ensures temps == old(temps)[t := if dest in files then files[dest] else []]
    {
      t := nextTemp;
      nextTemp := nextTemp + 1;
      temps := temps[t := if dest in files then files[dest] else []];
    }

    method WriteChunkAtOffset(t: nat, chunk: PushedChunk)
      requires Valid() && t in temps
      modifies this`temps
      ensures Valid() && temps == old(temps)[t := WriteAt(old(temps[t]), chunk.offset, chunk.data)]
    {
      temps := temps[t := WriteAt(temps[t], chunk.offset, chunk.data)];
    }

    /** One rename: the destination becomes the partial, the temporary name disappears. */
    method CommitPartial(dest: string, t: nat)
      requires Valid() && t in temps
      modifies this`files, this`temps
      ensures Valid() && files == old(files)[dest := old(temps[t])] && temps == old(temps) - {t}
    {
      files := files[dest := temps[t]];
      temps := temps - {t};
    }

    method AbortPartial(t: nat)
      requires Valid()
      modifies this`temps
      ensures Valid() && temps == old(temps) - {t}
    {
      temps := temps - {t};
    }
  }

  datatype PendingFile = PendingFile(partial: nat, received: set<nat>, version: Option<Vector>, lastActivity: real)

  /** Every assembly has its own temporary file. */
  ghost predicate Backed(pending: map<string, PendingFile>, temps: map<nat, Bytes>) {
    && (forall p :: p in pending ==> pending[p].partial in temps)
    && (forall p, q :: p in pending && q in pending && p != q ==> pending[p].partial != pending[q].partial)
  }

  ghost function Assembled(pending: map<string, PendingFile>, temps: map<nat, Bytes>): map<string, Pending>
    requires Backed(pending, temps)
  {
    map p | p in pending ::
      Pending(temps[pending[p].partial], pending[p].received, pending[p].version, pending[p].lastActivity)
  }

  lemma AssembledWith(pending: map<string, PendingFile>, temps: map<nat, Bytes>, p: string, f: PendingFile,
                      bytes: Bytes)
    requires Backed(pending, temps)
    requires if p in pending then f.partial == pending[p].partial else f.partial !in temps
    ensures Backed(pending[p := f], temps[f.partial := bytes])
    ensures Assembled(pending[p := f], temps[f.partial := bytes])
            == Assembled(pending, temps)[p := Pending(bytes, f.received, f.version, f.lastActivity)]
  {}

  lemma AssembledWithout(pending: map<string, PendingFile>, temps: map<nat, Bytes>, p: string)
    requires Backed(pending, temps) && p in pending
    ensures Backed(pending - {p}, temps - {pending[p].partial})
    ensures Assembled(pending - {p}, temps - {pending[p].partial}) == Assembled(pending, temps) - {p}
  {}

  lemma AssembledCount(pending: map<string, PendingFile>, temps: map<nat, Bytes>)
    requires Backed(pending, temps)
    ensures Assembled(pending, temps).Keys == pending.Keys && |Assembled(pending, temps)| == |pending|
  {
    assert Assembled(pending, temps).Keys == pending.Keys;
    assert |pending| == |pending.Keys| && |Assembled(pending, temps)| == |Assembled(pending, temps).Keys|;
  }

  lemma CommitAfterAdd(c: Config, st: State, path: string, dest: string, a: Pending)
    ensures Commit(c, st.(pending := st.pending[path := a]), path, dest, a) == Commit(c, st, path, dest, a)
  {
    assert st.pending[path := a] - {path} == st.pending - {path};
  }

  lemma MinusOneMore(m: map<string, Pending>, paths: set<string>, todo: set<string>, p: string)
    requires p in todo && todo <= paths
    ensures (m - (paths - todo)) - {p} == m - (paths - (todo - {p}))
  {}

  class Receiver {
    const config: Config
    const store: Reconstructor
    var pending: map<string, PendingFile>
    var versions: map<string, Vector>

    ghost predicate Valid()
      reads this, store
    {
      store.Valid() && Backed(pending, store.temps)
    }

    ghost function View(): State
      requires Valid()
      reads this, store
    {
      State(store.files, Assembled(pending, store.temps), versions)
    }

    constructor (config: Config, store: Reconstructor)
      requires store.Valid()
      ensures Valid() && this.config == config && this.store == store
      ensures View() == State(store.files, map[], map[])
    {
      this.config, this.store := config, store;
      pending, versions := map[], map[];
    }

    method HandlePush(p: Push, now: real) returns (o: Outcome)
      requires Valid()
      modifies this, store
      ensures Valid()
      ensures View() == Handle(config, old(View()), p, now).0 && o == Handle(config, old(View()), p, now).1
    {
      var dest := config.resolve(p.path);
      if dest.None? { return Rejected; }
      if !Acceptable(config.limits, p) { return Rejected; }
      AssembledCount(pending, store.temps);
      if p.path !in pending && |pending| >= config.limits.maxPending { return Rejected; }
      o := Assemble(p, dest.value, now);
    }

    method Assemble(p: Push, dest: string, now: real) returns (o: Outcome)
      requires Valid()
      modifies this, store
      ensures Valid()
      ensures var a := Added(Assembly(old(View()), p, dest, now), p, now);
              if |a.received| >= p.total then o == Committed && View() == Commit(config, old(View()), p.path, dest, a)
              else o == Stored && View() == old(View()).(pending := old(View()).pending[p.path := a])
    {
      ghost var st := View();
      ghost var a := Added(Assembly(st, p, dest, now), p, now);
      var file := AddChunk(p, dest, now);
      if |file.received| >= p.total {
        CommitAfterAdd(config, st, p.path, dest, a);
        Finalize(p.path, dest, file);
        o := Committed;
      } else {
        o := Stored;
      }
    }

    /** Starts or continues the assembly of `p.path`, writes the chunk, and notes index and version. */
    method AddChunk(p: Push, dest: string, now: real) returns (file: PendingFile)
      requires Valid()
      modifies this`pending, store`temps, store`nextTemp
      ensures Valid() && p.path in pending && pending[p.path] == file
      ensures var a := Added(Assembly(old(View()), p, dest, now), p, now);
              View() == old(View()).(pending := old(View()).pending[p.path := a]) && file.received == a.received
              && file.version == a.version
    {
      ghost var before, temps := pending, store.temps;
      if p.path in pending {
        file := pending[p.path];
      } else {
        var t := store.BeginPartial(dest);
        file := PendingFile(t, {}, None, now);
      }
      store.WriteChunkAtOffset(file.partial, p.chunk);
      file := file.(received := file.received + {p.chunk.index}, version := Merged(file.version, p.version),
                    lastActivity := now);
      pending := pending[p.path := file];
      ghost var bytes := store.temps[file.partial];
      assert store.temps == temps[file.partial := bytes];
      AssembledWith(before, temps, p.path, file, bytes);
    }

    method Finalize(path: string, dest: string, file: PendingFile)
      requires Valid() && path in pending && pending[path] == file
      modifies this, store
      ensures Valid()
      ensures View() == Commit(config, old(View()), path, dest, old(View()).pending[path])
    {
      AssembledWithout(pending, store.temps, path);
      store.CommitPartial(dest, file.partial);
      pending := pending - {path};
      var known := path in versions;
      var version: Vector;
      if file.version.None? {
        version := Increment(if known then versions[path] else map[], config.ownId);
      } else if known {
        version := Merge(file.version.value, versions[path]);
      } else {
        version := file.version.value;
      }
      versions := versions[path := version];
    }

    method AbortExpiredPartials(now: real)
      requires Valid()
      modifies this`pending, store`temps
      ensures Valid() && View() == Sweep(config, old(View()), now)
    {
      ghost var st := View();
      var expired := set p | p in pending && now - pending[p].lastActivity > config.limits.timeout;
      AbortAll(expired);
      assert st.pending - expired == Sweep(config, st, now).pending;
    }

    method AbortAll(paths: set<string>)
      requires Valid() && paths <= pending.Keys
      modifies this`pending, store`temps
      ensures Valid() && View() == old(View()).(pending := old(View()).pending - paths)
    {
      ghost var st := View();
      var todo := paths;
      assert st.pending - {} == st.pending;
      while todo != {}
        invariant Valid() && todo <= paths && todo <= pending.Keys
        invariant View() == st.(pending := st.pending - (paths - todo))
        decreases todo
      {
        var p :| p in todo;
        MinusOneMore(st.pending, paths, todo, p);
        Abort(p);
        todo := todo - {p};
      }
    }

    /** On shutdown every assembly is discarded. */
    method AbortAllPartials()
      requires Valid()
      modifies this`pending, store`temps
      ensures Valid() && View() == Shutdown(old(View()))
    {
      AssembledCount(pending, store.temps);
      ghost var st := View();
      AbortAll(pending.Keys);
      assert st.pending - st.pending.Keys == map[];
    }

    method Abort(p: string)
      requires Valid() && p in pending
      modifies this`pending, store`temps
      ensures Valid() && pending == old(pending) - {p}
      ensures View() == old(View()).(pending := old(View()).pending - {p})
    {
      AssembledWithout(pending, store.temps, p);
      store.AbortPartial(pending[p].partial);
      pending := pending - {p};
    }
  }
}
