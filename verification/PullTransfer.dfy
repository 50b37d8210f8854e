/** A pull: the peer's chunks that are unknown here, written straight into the local file. */
module PullTransfer {
  import opened Wire
  import opened Lists
  import opened Chunking
  import opened PushSpec
  import opened PushTransfer

  /** Writing chunks one after the other. */
  function WriteAll(f: Bytes, arrived: seq<Chunk>, k: nat): Bytes
    requires k <= |arrived|
  {
    if k == 0 then f else WriteAt(WriteAll(f, arrived, k - 1), arrived[k - 1].offset, arrived[k - 1].data)
  }

  lemma Overwrite(files: map<string, Bytes>, dest: string, f: Bytes, g: Bytes)
    ensures files[dest := f][dest := g] == files[dest := g]
  {}

  /** Writes every chunk that arrives at its offset, in place, and counts them. A pull that receives
      nothing does not create the file. */
  method ApplyPull(files: map<string, Bytes>, dest: string, arrived: seq<Chunk>)
    returns (files': map<string, Bytes>, count: nat)
    ensures count == |arrived|
    ensures files' == if arrived == [] then files
                      else files[dest := WriteAll(if dest in files then files[dest] else [], arrived, |arrived|)]
  {
    files', count := files, 0;
    ghost var before := if dest in files then files[dest] else [];
    for i := 0 to |arrived|
      invariant count == i
      invariant i == 0 ==> files' == files
      invariant i > 0 ==> files' == files[dest := WriteAll(before, arrived, i)]
    {
      var f := if dest in files' then files'[dest] else [];
      assert f == WriteAll(before, arrived, i);
      var g := WriteAt(f, arrived[i].offset, arrived[i].data);
      assert g == WriteAll(before, arrived, i + 1);
      Overwrite(files, dest, f, g);
      files' := files'[dest := g];
      count := count + 1;
    }
  }

  /** Every chunk that arrives is one of the file's, in any order and any number of times. */
  ghost predicate ComesFrom(arrived: seq<Chunk>, chunks: seq<Chunk>) {
    forall i :: 0 <= i < |arrived| ==> arrived[i].index < |chunks| && arrived[i] == chunks[arrived[i].index]
  }

  function Numbers(arrived: seq<Chunk>, k: nat): set<nat>
    requires k <= |arrived|
  {
    set i | 0 <= i < k :: arrived[i].index
  }

  lemma NumbersGrow(arrived: seq<Chunk>, k: nat)
    requires k < |arrived|
    ensures Numbers(arrived, k + 1) == Numbers(arrived, k) + {arrived[k].index}
  {}

  lemma {:induction false} PulledIsBlend(base: Bytes, content: Bytes, chunks: seq<Chunk>, arrived: seq<Chunk>, k: nat)
    requires Tiles(chunks, content) && NoneEmpty(chunks) && ComesFrom(arrived, chunks) && k <= |arrived|
    ensures Blend(WriteAll(base, arrived, k), base, content, chunks, Numbers(arrived, k))
  {
    if k > 0 {
      PulledIsBlend(base, content, chunks, arrived, k - 1);
      var i := arrived[k - 1].index;
      assert Numbers(arrived, k) == Numbers(arrived, k - 1) + {i} by { NumbersGrow(arrived, k - 1); }
      BlendGrows(WriteAll(base, arrived, k - 1), base, content, chunks, Numbers(arrived, k - 1), i);
    }
  }

  /** The local file becomes the peer's file exactly when it already agreed with it wherever nothing arrived. */
  lemma PulledExactly(base: Bytes, content: Bytes, chunks: seq<Chunk>, arrived: seq<Chunk>)
    requires Tiles(chunks, content) && NoneEmpty(chunks) && ComesFrom(arrived, chunks)
    ensures WriteAll(base, arrived, |arrived|) == content
       <==> Agrees(base, content, chunks, Numbers(arrived, |arrived|))
  {
    PulledIsBlend(base, content, chunks, arrived, |arrived|);
    BlendIsFileExactly(WriteAll(base, arrived, |arrived|), base, content, chunks, Numbers(arrived, |arrived|));
  }

  lemma ServedFrom(chunks: seq<Chunk>, content: Bytes, known: set<Bytes>, i: nat)
    requires Tiles(chunks, content) && i < |Filter(chunks, Unknown(known))|
    ensures var c := Filter(chunks, Unknown(known))[i];
            c.index in Sent(chunks, known) && c == chunks[c.index]
  {
    var c := Filter(chunks, Unknown(known))[i];
    InFilter(chunks, Unknown(known), c);
    var m :| 0 <= m < |chunks| && chunks[m] == c;
    TilesAt(chunks, content, m);
  }

  lemma AllServed(chunks: seq<Chunk>, content: Bytes, known: set<Bytes>, j: nat)
    requires Tiles(chunks, content) && j in Sent(chunks, known)
    ensures var arrived := Filter(chunks, Unknown(known));
            j in Numbers(arrived, |arrived|)
  {
    var arrived := Filter(chunks, Unknown(known));
    InFilter(chunks, Unknown(known), chunks[j]);
    var i :| 0 <= i < |arrived| && arrived[i] == chunks[j];
    TilesAt(chunks, content, j);
  }

  /** The peer serves every chunk with a requested digest, repeated ones included, so a pull needs no
      distinct digests: with the reused chunks in place and no longer file here, it yields the peer's file. */
  lemma PullReassembles(base: Bytes, content: Bytes, chunks: seq<Chunk>, known: set<Bytes>)
    requires Tiles(chunks, content) && NoneEmpty(chunks) && ReusedInPlace(base, content, chunks, known)
    ensures var arrived := Filter(chunks, Unknown(known));
            WriteAll(base, arrived, |arrived|) == content
  {
    var arrived := Filter(chunks, Unknown(known));
    assert ComesFrom(arrived, chunks) && Numbers(arrived, |arrived|) == Sent(chunks, known) by {
      forall i | 0 <= i < |arrived|
        ensures arrived[i].index in Sent(chunks, known) && arrived[i] == chunks[arrived[i].index]
      {
        ServedFrom(chunks, content, known, i);
      }
      forall j | j in Sent(chunks, known) ensures j in Numbers(arrived, |arrived|) {
        AllServed(chunks, content, known, j);
      }
    }
    InPlaceAgrees(base, content, chunks, known);
    PulledExactly(base, content, chunks, arrived);
  }
}
