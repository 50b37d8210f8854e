/** Splitting a file into chunks while streaming it. */
module Chunking {
  import opened Results
  import opened Wire

  datatype Chunk = Chunk(index: nat, offset: nat, data: Bytes)

  /** A strategy answers how many leading bytes of the buffer end the current chunk. */
  datatype Strategy = Strategy(nextCut: (Bytes, bool) -> Option<int>, preferredBlock: int)

  function FixedCut(size: nat): (Bytes, bool) -> Option<int> {
    (buffered: Bytes, atEof: bool) =>
      if |buffered| >= size then Some(size)
      else if atEof then (if |buffered| > 0 then Some(|buffered|) else None)
      else None
  }

  function FixedSize(size: nat): Strategy {
    Strategy(FixedCut(size), size)
  }

  function Min(x: int, y: int): int {
    if x < y then x else y
  }

  function BlockSize(s: Strategy, maxBlock: int): int {
    var b := Min(s.preferredBlock, maxBlock);
    if b < 1 then 1 else b
  }

  /** What the port asks of a strategy. */
  ghost predicate PortContract(s: Strategy) {
    && (forall b, eof :: s.nextCut(b, eof).Some? ==> 0 < s.nextCut(b, eof).value <= |b|)
    && (forall b :: b != [] ==> s.nextCut(b, true).Some?)
    && s.nextCut([], true).None?
  }

  lemma FixedSizeMeetsContract(size: nat)
    requires size >= 1
    ensures PortContract(FixedSize(size))
  {}

  /** The chunks cover `bytes` in order, without gap or overlap, numbered consecutively. */
  ghost predicate Tiles(chunks: seq<Chunk>, bytes: Bytes)
    decreases |chunks|
  {
    if chunks == [] then bytes == []
    else
      var c := chunks[|chunks| - 1];
      && c.index == |chunks| - 1 && c.offset + |c.data| == |bytes| && c.data == bytes[c.offset..]
      && Tiles(chunks[..|chunks| - 1], bytes[..c.offset])
  }

  lemma TilesGrow(chunks: seq<Chunk>, bytes: Bytes, data: Bytes)
    requires Tiles(chunks, bytes)
    ensures Tiles(chunks + [Chunk(|chunks|, |bytes|, data)], bytes + data)
  {
    var more := chunks + [Chunk(|chunks|, |bytes|, data)];
    assert more[..|chunks|] == chunks;
    assert (bytes + data)[..|bytes|] == bytes;
  }

  /** The obvious split: consecutive pieces of `size` bytes, the last one shorter. */
  function Split(content: Bytes, size: nat, index: nat, offset: nat): seq<Chunk>
    requires size >= 1
    decreases |content| - offset
  {
    if offset >= |content| then []
    else
      var c := Chunk(index, offset, content[offset..Min(offset + size, |content|)]);
      [c] + Split(content, size, index + 1, offset + size)
  }

  /** Piece number `k` of the split. */
  lemma {:induction false} SplitPiece(content: Bytes, size: nat, index: nat, offset: nat, k: nat)
    requires size >= 1 && k < |Split(content, size, index, offset)|
    ensures offset + k * size < |content|
    ensures Split(content, size, index, offset)[k]
            == Chunk(index + k, offset + k * size, content[offset + k * size..Min(offset + (k + 1) * size, |content|)])
    decreases k
  {
    if k > 0 {
      SplitPiece(content, size, index + 1, offset + size, k - 1);
      assert offset + size + (k - 1) * size == offset + k * size;
      assert offset + size + (k - 1 + 1) * size == offset + (k + 1) * size;
    }
  }

  // ----- the program -----

  class SourceFile {
    const content: Bytes
    var pos: nat

    constructor (content: Bytes)
      ensures this.content == content && pos == 0
    {
      this.content, pos := content, 0;
    }

    /** A read may return fewer bytes than asked for; it returns none only at the end of the file. */
    method ReadInto(buffer: array<Byte>, start: nat) returns (n: nat)
      requires pos <= |content| && start < buffer.Length
      modifies this, buffer
      ensures n == 0 <==> old(pos) == |content|
      ensures start + n <= buffer.Length && pos == old(pos) + n <= |content|
      ensures buffer[..start] == old(buffer[..start]) && buffer[start..start + n] == content[old(pos)..pos]
    {
      n :| 0 <= n <= buffer.Length - start && n <= |content| - pos && (n == 0 <==> pos == |content|);
      forall i | start <= i < start + n {
        buffer[i] := content[pos + (i - start)];
      }
      pos := pos + n;
    }
  }

  lemma SliceJoin(c: Bytes, i: nat, j: nat, k: nat)
    requires i <= j <= k <= |c|
    ensures c[i..j] + c[j..k] == c[i..k]
  {}

  /** Fills the buffer through short reads; stops early only at the end of the file. */
  method ReadFull(file: SourceFile, buffer: array<Byte>) returns (total: nat)
    requires file.pos <= |file.content|
    modifies file, buffer
    ensures total == Min(buffer.Length, |file.content| - old(file.pos))
    ensures file.pos == old(file.pos) + total <= |file.content|
    ensures buffer[..total] == file.content[old(file.pos)..file.pos]
  {
    total := 0;
    while total < buffer.Length
      invariant 0 <= total <= buffer.Length && file.pos == old(file.pos) + total <= |file.content|
      invariant buffer[..total] == file.content[old(file.pos)..file.pos]
    {
      ghost var start, mid, done := old(file.pos), file.pos, buffer[..total];
      var n := file.ReadInto(buffer, total);
      if n == 0 { break; }
      assert buffer[..total + n] == done + buffer[total..total + n];
      SliceJoin(file.content, start, mid, mid + n);
      total := total + n;
    }
  }

  /** The reader's state between two turns of its loop. */
  datatype Progress = Progress(chunks: seq<Chunk>, acc: Bytes, done: bool, ok: bool)

  /** Bytes already given out. */
  function Given(p: Progress, pos: nat): int {
    pos - |p.acc|
  }

  /** What was given out tiles a prefix of the file; what is buffered follows it. */
  ghost predicate Consistent(p: Progress, content: Bytes, pos: nat) {
    && |p.acc| <= pos <= |content| && p.acc == content[Given(p, pos)..pos]
    && Tiles(p.chunks, content[..Given(p, pos)])
  }

  ghost predicate NoneEmpty(chunks: seq<Chunk>) {
    forall i :: 0 <= i < |chunks| ==> chunks[i].data != []
  }

  /** The offset right behind the chunks given out so far. */
  function NextOffset(chunks: seq<Chunk>): nat {
    if chunks == [] then 0 else chunks[|chunks| - 1].offset + |chunks[|chunks| - 1].data|
  }

  lemma TilesEnd(chunks: seq<Chunk>, bytes: Bytes)
    requires Tiles(chunks, bytes)
    ensures NextOffset(chunks) == |bytes|
  {}

  /** Asks the strategy once and cuts at most one chunk off the buffer. */
  method Cut(s: Strategy, p: Progress, atEof: bool, ghost content: Bytes, ghost pos: nat) returns (q: Progress)
    requires Consistent(p, content, pos) && (atEof ==> pos == |content|)
    ensures Consistent(q, content, pos) && |q.acc| <= |p.acc|
    ensures q.done || (atEof ==> |q.acc| < |p.acc|)
    ensures PortContract(s) ==> q.ok && (q.done ==> atEof && q.acc == [])
    ensures PortContract(s) && NoneEmpty(p.chunks) ==> NoneEmpty(q.chunks)
    ensures var cut := s.nextCut(p.acc, atEof);
            && (cut.None? ==> q == Progress(p.chunks, p.acc, atEof, true))
            && (cut.Some? && 0 < cut.value <= |p.acc| ==>
                q == Progress(p.chunks + [Chunk(|p.chunks|, Given(p, pos), p.acc[..cut.value])], p.acc[cut.value..],
                              atEof && cut.value == |p.acc|, true))
  {
    var cut := s.nextCut(p.acc, atEof);
    if cut.None? { return Progress(p.chunks, p.acc, atEof, true); }
    if cut.value <= 0 { return Progress(p.chunks, p.acc, true, false); }
    q := TakeFront(p, Min(cut.value, |p.acc|), atEof, content, pos);
  }

  /** The chunk made of the first `size` buffered bytes. */
  method TakeFront(p: Progress, size: nat, atEof: bool, ghost content: Bytes, ghost pos: nat) returns (q: Progress)
    requires Consistent(p, content, pos) && size <= |p.acc|
    ensures q == Progress(p.chunks + [Chunk(|p.chunks|, Given(p, pos), p.acc[..size])], p.acc[size..],
                          atEof && size == |p.acc|, true)
    ensures Consistent(q, content, pos) && (size > 0 && NoneEmpty(p.chunks) ==> NoneEmpty(q.chunks))
  {
    var offset := NextOffset(p.chunks);
    TilesEnd(p.chunks, content[..Given(p, pos)]);
    q := Progress(p.chunks + [Chunk(|p.chunks|, offset, p.acc[..size])], p.acc[size..], atEof && size == |p.acc|, true);
    CutConsistent(p, q, content, pos, size);
    CutNotEmpty(p, q, size);
  }

  lemma CutConsistent(p: Progress, q: Progress, content: Bytes, pos: nat, size: nat)
    requires Consistent(p, content, pos) && size <= |p.acc| && q.acc == p.acc[size..]
    requires q.chunks == p.chunks + [Chunk(|p.chunks|, Given(p, pos), p.acc[..size])]
    ensures Consistent(q, content, pos)
  {
    var from := Given(p, pos);
    TilesGrow(p.chunks, content[..from], p.acc[..size]);
    assert p.acc[..size] == content[from..from + size];
    assert content[..from] + content[from..from + size] == content[..from + size];
  }

  lemma CutNotEmpty(p: Progress, q: Progress, size: nat)
    requires size <= |p.acc| && |q.chunks| == |p.chunks| + 1 && q.chunks[..|p.chunks|] == p.chunks
    requires q.chunks[|p.chunks|].data == p.acc[..size]
    ensures size > 0 && NoneEmpty(p.chunks) ==> NoneEmpty(q.chunks)
  {
    assert forall i :: 0 <= i < |p.chunks| ==> q.chunks[i] == p.chunks[i];
  }

  /** What was yielded and what the rest of the file would split into make up the whole split. */
  ghost predicate SplitSoFar(content: Bytes, size: nat, p: Progress, pos: nat)
    requires size >= 1
  {
    && |p.acc| <= pos
    && p.chunks + Split(content, size, |p.chunks|, Given(p, pos)) == Split(content, size, 0, 0)
  }

  ghost predicate OnTrack(content: Bytes, size: nat, p: Progress, pos: nat)
    requires size >= 1
  {
    SplitSoFar(content, size, p, pos) && |p.acc| < size && (p.done ==> pos == |content| && p.acc == [])
  }

  lemma StillOnTrack(content: Bytes, size: nat, p: Progress, q: Progress, pos: nat, pos': nat)
    requires size >= 1 && OnTrack(content, size, p, pos) && pos <= pos'
    requires q.chunks == p.chunks && |q.acc| == |p.acc| + pos' - pos
    ensures SplitSoFar(content, size, q, pos')
  {}

  lemma SplitStep(content: Bytes, size: nat, index: nat, offset: nat)
    requires size >= 1 && offset < |content|
    ensures Split(content, size, index, offset)
            == [Chunk(index, offset, content[offset..Min(offset + size, |content|)])]
              + Split(content, size, index + 1, offset + size)
  {}

  lemma SplitEnd(content: Bytes, size: nat, index: nat, offset: nat, offset': nat)
    requires size >= 1 && offset >= |content| && offset' >= |content|
    ensures Split(content, size, index, offset) == Split(content, size, index, offset')
  {}

  /** The fixed-size strategy's cut is the next piece of the split. */
  lemma FixedCutIsSplit(content: Bytes, size: nat, p: Progress, q: Progress, atEof: bool, pos: nat)
    requires size >= 1 && |p.acc| < 2 * size && Consistent(p, content, pos) && SplitSoFar(content, size, p, pos)
    requires atEof ==> pos == |content| && |p.acc| < size
    requires var cut := FixedCut(size)(p.acc, atEof);
             && (cut.None? ==> q == Progress(p.chunks, p.acc, atEof, true))
             && (cut.Some? && 0 < cut.value <= |p.acc| ==>
                 q == Progress(p.chunks + [Chunk(|p.chunks|, Given(p, pos), p.acc[..cut.value])], p.acc[cut.value..],
                               atEof && cut.value == |p.acc|, true))
    ensures OnTrack(content, size, q, pos)
  {
    var from := Given(p, pos);
    if |p.acc| >= size || (atEof && |p.acc| > 0) {
      var end := Min(from + size, |content|);
      var piece := Chunk(|p.chunks|, from, content[from..end]);
      assert p.acc[..end - from] == content[from..end];
      SplitStep(content, size, |p.chunks|, from);
      if end < from + size { SplitEnd(content, size, |p.chunks| + 1, from + size, end); }
      Reassociate(p.chunks, piece, Split(content, size, |p.chunks| + 1, from + size));
    }
  }

  lemma Reassociate(a: seq<Chunk>, c: Chunk, b: seq<Chunk>)
    ensures a + ([c] + b) == (a + [c]) + b
  {}

  /** Yields the chunks of the file; `ok` is false where the program raises on a non-positive cut.
      For a strategy that keeps the contract they tile the whole file. For the fixed-size strategy they
      are the obvious split, for every block size and every pattern of short reads, and the buffer
      never holds two chunks' worth of bytes. */
  method StreamChunks(file: SourceFile, s: Strategy, maxBlock: int, ghost fixed: Option<nat>)
    returns (chunks: seq<Chunk>, ok: bool, ghost peak: nat)
    requires file.pos == 0 && (fixed.Some? ==> fixed.value >= 1 && s == FixedSize(fixed.value))
    modifies file
    ensures exists k :: 0 <= k <= |file.content| && Tiles(chunks, file.content[..k])
    ensures PortContract(s) ==> ok && Tiles(chunks, file.content) && NoneEmpty(chunks)
    ensures fixed.Some? ==> chunks == Split(file.content, fixed.value, 0, 0) && peak < 2 * fixed.value
  {
    var buffer := new Byte[BlockSize(s, maxBlock)];
    var p := Progress([], [], false, true);
    peak := 0;
    assert fixed.Some? ==> [] + Split(file.content, fixed.value, 0, 0) == Split(file.content, fixed.value, 0, 0);
    while !p.done
      invariant Consistent(p, file.content, file.pos) && fresh(buffer) && buffer.Length == BlockSize(s, maxBlock)
      invariant PortContract(s) ==> NoneEmpty(p.chunks)
      invariant PortContract(s) ==> p.ok && (p.done ==> file.pos == |file.content| && p.acc == [])
      invariant fixed.Some? ==> peak < 2 * fixed.value && OnTrack(file.content, fixed.value, p, file.pos)
      decreases !p.done, |file.content| - file.pos, |p.acc|
    {
      ghost var held;
      p, held := Turn(file, buffer, s, p, fixed);
      peak := if held > peak then held else peak;
    }
    chunks, ok := p.chunks, p.ok;
    assert file.content[..|file.content|] == file.content;
  }

  /** One turn of the loop: read a block, ask the strategy, cut at most one chunk. */
  method Turn(file: SourceFile, buffer: array<Byte>, s: Strategy, p: Progress, ghost fixed: Option<nat>)
    returns (q: Progress, ghost held: nat)
    requires Consistent(p, file.content, file.pos) && buffer.Length >= 1 && !p.done
    requires fixed.Some? ==> 1 <= buffer.Length <= fixed.value && s == FixedSize(fixed.value)
                             && OnTrack(file.content, fixed.value, p, file.pos)
    modifies file, buffer
    ensures Consistent(q, file.content, file.pos) && file.pos >= old(file.pos)
    ensures q.done || file.pos > old(file.pos) || |q.acc| < |p.acc|
    ensures PortContract(s) ==> q.ok && (q.done ==> file.pos == |file.content| && q.acc == [])
    ensures PortContract(s) && NoneEmpty(p.chunks) ==> NoneEmpty(q.chunks)
    ensures fixed.Some? ==> held < 2 * fixed.value && OnTrack(file.content, fixed.value, q, file.pos)
  {
    var n := Fill(file, buffer, p);
    var before := p.(acc := p.acc + buffer[..n]);
    held := |before.acc|;
    q := Cut(s, before, n == 0, file.content, file.pos);
    if fixed.Some? {
      StillOnTrack(file.content, fixed.value, p, before, file.pos - n, file.pos);
      FixedCutIsSplit(file.content, fixed.value, before, q, n == 0, file.pos);
    }
  }

  method Fill(file: SourceFile, buffer: array<Byte>, p: Progress) returns (n: nat)
    requires Consistent(p, file.content, file.pos) && buffer.Length >= 1
    modifies file, buffer
    ensures n == Min(buffer.Length, |file.content| - old(file.pos)) && file.pos == old(file.pos) + n
    ensures buffer[..n] == file.content[old(file.pos)..file.pos]
    ensures Consistent(p.(acc := p.acc + buffer[..n]), file.content, file.pos)
  {
    n := ReadFull(file, buffer);
    assert p.acc + buffer[..n] == file.content[Given(p, old(file.pos))..file.pos];
  }

  // ----- manifests -----

  /** A chunk's metadata. A digest is modelled by the bytes it is the digest of. */
  datatype Metadata = Metadata(index: nat, size: nat, offset: nat, digest: Option<Bytes>)

  datatype Collection = Collection(chunkSize: int, totalSize: int, chunks: seq<Metadata>)

  function TotalSize(chunks: seq<Metadata>): nat {
    if chunks == [] then 0 else TotalSize(chunks[..|chunks| - 1]) + chunks[|chunks| - 1].size
  }

  /** The invariant a collection's constructor enforces. */
  predicate WellFormed(c: Collection) {
    && c.chunkSize > 0 && c.totalSize >= 0
    && (forall i :: 0 <= i < |c.chunks| ==> c.chunks[i].index == i)
    && TotalSize(c.chunks) == c.totalSize
  }

  function Hashed(c: Chunk): Metadata {
    Metadata(c.index, |c.data|, c.offset, Some(c.data))
  }

  function Metas(chunks: seq<Chunk>): seq<Metadata> {
    seq(|chunks|, i requires 0 <= i < |chunks| => Hashed(chunks[i]))
  }

  /** Accumulates metadata and total size, then constructs the collection. */
  method BuildManifest(chunks: seq<Chunk>, chunkSize: int) returns (r: Option<Collection>)
    ensures r.Some? <==> chunkSize > 0 && forall i :: 0 <= i < |chunks| ==> chunks[i].index == i
    ensures r.Some? ==> WellFormed(r.value) && r.value.chunks == Metas(chunks) && r.value.chunkSize == chunkSize
    ensures r.Some? ==> |r.value.chunks| == |chunks|
                        && forall i :: 0 <= i < |chunks| ==>
                             var m, c := r.value.chunks[i], chunks[i];
                             m.index == i && m.offset == c.offset && m.size == |c.data| && m.digest == Some(c.data)
  {
    var collected: seq<Metadata> := [];
    var total := 0;
    for i := 0 to |chunks|
      invariant collected == Metas(chunks[..i]) && total == TotalSize(collected)
    {
      assert chunks[..i + 1] == chunks[..i] + [chunks[i]];
      assert (collected + [Hashed(chunks[i])])[..i] == collected;
      collected := collected + [Hashed(chunks[i])];
      total := total + |chunks[i].data|;
    }
    assert chunks[..|chunks|] == chunks;
    var c := Collection(chunkSize, total, collected);
    if chunkSize <= 0 { return None; }
    for i := 0 to |collected|
      invariant forall j :: 0 <= j < i ==> collected[j].index == j && chunks[j].index == j
    {
      if collected[i].index != i { return None; }
    }
    r := Some(c);
  }

  lemma {:induction false} TilesAt(chunks: seq<Chunk>, bytes: Bytes, i: nat)
    requires Tiles(chunks, bytes) && i < |chunks|
    ensures chunks[i].index == i && chunks[i].offset + |chunks[i].data| <= |bytes|
    ensures chunks[i].data == bytes[chunks[i].offset..chunks[i].offset + |chunks[i].data|]
    decreases |chunks|
  {
    var n := |chunks| - 1;
    if i < n {
      TilesAt(chunks[..n], bytes[..chunks[n].offset], i);
    }
  }

  lemma {:induction false} TilesTotal(chunks: seq<Chunk>, bytes: Bytes)
    requires Tiles(chunks, bytes)
    ensures TotalSize(Metas(chunks)) == |bytes|
    decreases |chunks|
  {
    if chunks != [] {
      var n := |chunks| - 1;
      TilesTotal(chunks[..n], bytes[..chunks[n].offset]);
      assert Metas(chunks)[..n] == Metas(chunks[..n]);
    }
  }

  /** The manifest of any chunks that tile a file satisfies the collection invariant and accounts for every byte. */
  lemma ManifestsAreWellFormed(chunks: seq<Chunk>, content: Bytes, chunkSize: int)
    requires Tiles(chunks, content) && chunkSize > 0
    ensures WellFormed(Collection(chunkSize, |content|, Metas(chunks)))
  {
    TilesTotal(chunks, content);
    forall i | 0 <= i < |chunks| ensures Metas(chunks)[i].index == i {
      TilesAt(chunks, content, i);
    }
  }

  /** The obvious split tiles the file. */
  lemma {:induction false} SplitTiles(content: Bytes, size: nat, earlier: seq<Chunk>, offset: nat)
    requires size >= 1 && Tiles(earlier, content[..Min(offset, |content|)])
    ensures Tiles(earlier + Split(content, size, |earlier|, offset), content)
    decreases |content| - offset
  {
    if offset >= |content| {
      assert earlier + [] == earlier && content[..|content|] == content;
    } else {
      var end := Min(offset + size, |content|);
      var c := Chunk(|earlier|, offset, content[offset..end]);
      var rest := Split(content, size, |earlier| + 1, offset + size);
      assert Tiles(earlier + [c], content[..end]) by {
        TilesGrow(earlier, content[..offset], content[offset..end]);
        assert content[..offset] + content[offset..end] == content[..end];
      }
      SplitTiles(content, size, earlier + [c], offset + size);
      assert Split(content, size, |earlier|, offset) == [c] + rest;
      assert earlier + ([c] + rest) == (earlier + [c]) + rest;
    }
  }
}
