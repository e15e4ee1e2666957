/** Arraylist blocks on pages: the chunks of a rewritten list and the page writer. */
module ArrayBlocks {
  import opened Common
  import opened PageLayout
  import opened Pages
  import opened AdjStore
  import opened AdjCompact

  /** MaxHeapTupleSize, SizeOfNeoArrayListRecord and sizeof(AdjListMember) in bytes. */
  const MAX_HEAP_TUPLE := BLCKSZ - MaxAlign(PAGE_HEADER + ITEM_ID)
  const ARRAY_RECORD := 56
  const ADJ_MEMBER := 52
  /** nitems and maxitems are stored in front of the entries. */
  const ADJ_HEADER := 8

  function BlockBytes(n: nat): nat { ARRAY_RECORD + ADJ_HEADER + n * ADJ_MEMBER }

  /** MAX_EDGES_PER_BLOCK leaves the header of the list out of its sum, and still every block of
      that many entries is accepted by the writer, while one entry more would not be. */
  lemma ArrayBlockFits(n: nat)
    ensures MAX_EDGES == (MAX_HEAP_TUPLE - ARRAY_RECORD) / ADJ_MEMBER && MAX_EDGES == 155
    ensures BlockBytes(n) == 64 + 52 * n
    ensures n <= MAX_EDGES <==> Need(BlockBytes(n)) <= BLCKSZ - PAGE_HEADER
  {
    if n > MAX_EDGES {
      assert BlockBytes(n) >= BlockBytes(MAX_EDGES + 1);
    }
  }

  function Chunks(v: nat, ms: seq<Member>, base: nat, up: Loc, down: Loc, k: nat): (r: seq<BlockRec>)
    requires k <= NumChunks(|ms|)
    ensures |r| == k
  {
    if k == 0 then [] else Chunks(v, ms, base, up, down, k - 1) + [ChunkRec(v, ms, base, up, down, k - 1)]
  }

  lemma ChunkAccepted(v: nat, ms: seq<Member>, base: nat, up: Loc, down: Loc, i: nat)
    requires i < NumChunks(|ms|)
    ensures Need(BlockBytes(|ChunkRec(v, ms, base, up, down, i).adj|)) <= BLCKSZ - PAGE_HEADER
  {
    ChunkSize(ms, i);
    ArrayBlockFits(|ChunkAdj(ms, i)|);
  }

  /** Writing the chunks of a list, of any length, never fails, appends them in order, and moves no
      record written before. */
  method WriteChunks(file: PagedFile<BlockRec>, v: nat, ms: seq<Member>, base: nat, up: Loc, down: Loc) returns (ok: bool)
    modifies file
    ensures ok && Stable(old(file.pages), file.pages)
    ensures Flatten(file.pages) == Flatten(old(file.pages)) + Chunks(v, ms, base, up, down, NumChunks(|ms|))
  {
    ghost var before := file.pages;
    ok := true;
    var i := 0;
    while i < NumChunks(|ms|)
      invariant 0 <= i <= NumChunks(|ms|) && ok && Stable(before, file.pages)
      invariant Flatten(file.pages) == Flatten(before) + Chunks(v, ms, base, up, down, i)
    {
      ok := WriteChunk(file, v, ms, base, up, down, i, before);
      i := i + 1;
    }
  }

  method WriteChunk(file: PagedFile<BlockRec>, v: nat, ms: seq<Member>, base: nat, up: Loc, down: Loc, i: nat,
                    ghost before: seq<Page<BlockRec>>)
    returns (ok: bool)
    requires i < NumChunks(|ms|) && Stable(before, file.pages)
    requires Flatten(file.pages) == Flatten(before) + Chunks(v, ms, base, up, down, i)
    modifies file
    ensures ok && Stable(before, file.pages)
    ensures Flatten(file.pages) == Flatten(before) + Chunks(v, ms, base, up, down, i + 1)
  {
    ghost var was := file.pages;
    var rec := ChunkRec(v, ms, base, up, down, i);
    ChunkAccepted(v, ms, base, up, down, i);
    var tid;
    ok, tid := file.WriteRecord(rec, BlockBytes(|rec.adj|));
    StableTransitive(before, was, file.pages);
    Associate(Flatten(before), Chunks(v, ms, base, up, down, i), [rec]);
  }
}
