/** The tables of one vertex label, updated in place: partition metadata, head insertion,
    tombstoning along a chain, and compaction with its scan and its chunk writer. */
module LabelTables {
  import opened AdjStore
  import opened AdjSteps
  import opened AdjCompact
  import opened AdjCompactAll

  lemma {:induction false} CompactOwnersSnoc(s: Store, k: nat, order: seq<nat>, v: nat)
    requires k < |s.parts|
    ensures |CompactOwners(s, k, order).parts| == |s.parts|
    ensures CompactOwners(s, k, order + [v]) == CompactOwner(CompactOwners(s, k, order), k, v)
    decreases |order|
  {
    if order == [] {
      var one: seq<nat> := [v];
      assert order + one == one && one[1..] == [];
    } else {
      assert (order + [v])[0] == order[0] && (order + [v])[1..] == order[1..] + [v];
      CompactOwnersSnoc(CompactOwner(s, k, order[0]), k, order[1..], v);
    }
  }

  /** First live entry of the edge in an arraylist block: found, and the block after the stamp. */
  method KillInBlock(adj: seq<Member>, edge: nat, x: nat, c: nat) returns (found: bool, adj': seq<Member>)
    ensures found <==> AnyHit(adj, edge)
    ensures adj' == Kill(adj, edge, x, c)
  {
    found, adj' := false, adj;
    var i := 0;
    while i < |adj|
      invariant 0 <= i <= |adj|
      invariant adj' == adj && !found
      invariant forall j :: 0 <= j < i ==> !Hits(adj[j], edge)
    {
      if Hits(adj[i], edge) {
        found := true;
        adj' := adj[i := adj[i].(xmax := x, cmax := c)];
        KillConcat(adj[..i], adj[i..], edge, x, c);
        assert adj == adj[..i] + adj[i..];
        return;
      }
      i := i + 1;
    }
    KillLength(adj, edge, x, c);
  }

  /** Block j of the chunk writer after i blocks: the last one does not point on yet. */
  function SoFar(v: nat, ms: seq<Member>, base: nat, up: Loc, down: Loc, i: nat, j: nat): BlockRec
    requires j < i <= NumChunks(|ms|)
  {
    if j + 1 == i < NumChunks(|ms|) then ChunkRec(v, ms, base, up, down, j).(next := Nil)
    else ChunkRec(v, ms, base, up, down, j)
  }

  /** The next block as the writer builds it. */
  lemma NextChunk(v: nat, ms: seq<Member>, base: nat, up: Loc, down: Loc, i: nat, size: nat, r: BlockRec)
    requires i < NumChunks(|ms|) && i * MAX_EDGES + size <= |ms|
    requires size == if |ms| - i * MAX_EDGES < MAX_EDGES then |ms| - i * MAX_EDGES else MAX_EDGES
    requires r == BlockRec(v, ms[i * MAX_EDGES..i * MAX_EDGES + size], if i == 0 then up else Block(base + i - 1),
                           if i == NumChunks(|ms|) - 1 then down else Nil, false)
    ensures r == SoFar(v, ms, base, up, down, i + 1, i)
  {
    assert i * MAX_EDGES + size == if (i + 1) * MAX_EDGES <= |ms| then (i + 1) * MAX_EDGES else |ms|;
  }

  lemma SoFarStep(before: seq<BlockRec>, after: seq<BlockRec>, v: nat, ms: seq<Member>, base: nat, up: Loc, down: Loc, i: nat)
    requires i < NumChunks(|ms|) && |before| == base + i && |after| == base + i + 1
    requires forall j {:trigger SoFar(v, ms, base, up, down, i, j)} :: 0 <= j < i ==>
               before[base + j] == SoFar(v, ms, base, up, down, i, j)
    requires after[base + i] == SoFar(v, ms, base, up, down, i + 1, i)
    requires forall j :: 0 <= j < base + i - 1 ==> after[j] == before[j]
    requires i > 0 ==> after[base + i - 1] == before[base + i - 1].(next := Block(base + i))
    ensures var i' := i + 1;
            forall j {:trigger SoFar(v, ms, base, up, down, i', j)} :: 0 <= j < i' ==>
              after[base + j] == SoFar(v, ms, base, up, down, i', j)
  {
    var i' := i + 1;
    forall j | 0 <= j < i' ensures after[base + j] == SoFar(v, ms, base, up, down, i', j) {
      if j < i {
        assert before[base + j] == SoFar(v, ms, base, up, down, i, j);
      }
    }
  }

  lemma ChunksDone(before: seq<BlockRec>, after: seq<BlockRec>, v: nat, ms: seq<Member>, up: Loc, down: Loc)
    requires var n := NumChunks(|ms|);
             && |after| == |before| + n
             && (forall j :: 0 <= j < |before| ==> after[j] == before[j])
             && forall j {:trigger SoFar(v, ms, |before|, up, down, n, j)} :: 0 <= j < n ==>
                  after[|before| + j] == SoFar(v, ms, |before|, up, down, n, j)
    ensures after == before + seq(NumChunks(|ms|), i requires 0 <= i < NumChunks(|ms|) => ChunkRec(v, ms, |before|, up, down, i))
  {
    var n := NumChunks(|ms|);
    forall j | 0 <= j < n ensures after[|before| + j] == ChunkRec(v, ms, |before|, up, down, j) {
      assert after[|before| + j] == SoFar(v, ms, |before|, up, down, n, j);
    }
  }

  lemma EnumeratesSnoc(order: seq<nat>, all: set<nat>, todo: set<nat>, v: nat)
    requires todo <= all && v in todo && Enumerates(order, all - todo)
    ensures Enumerates(order + [v], all - (todo - {v}))
  {
    var order' := order + [v];
    forall u ensures u in all - (todo - {v}) <==> u in order' {
      assert u in order' <==> u in order || u == v;
    }
  }

  /** The copying loop of the chunk writer. */
  method CopyRange(adj: seq<Member>, from: nat, n: nat) returns (chunk: seq<Member>)
    requires from + n <= |adj|
    ensures chunk == adj[from..from + n]
  {
    chunk := [];
    var j := 0;
    while j < n
      invariant 0 <= j <= n
      invariant chunk == adj[from..from + j]
    {
      chunk := chunk + [adj[from + j]];
      j := j + 1;
    }
  }

  class LabelTables {
    var heads: map<nat, Loc>
    var parts: seq<seq<ListRec>>
    var blocks: seq<BlockRec>
    var meta: seq<MetaRow>

    ghost function Abs(): Store
      reads this
    {
      Store(heads, parts, blocks, meta)
    }

    /** One partition, numbered 0 and active; no vertex yet. */
    constructor ()
      ensures Abs() == Store(map[], [[]], [], [MetaRow(0, true, false)])
      ensures InvAt(Abs(), 0)
    {
      heads, parts, blocks, meta := map[], [[]], [], [MetaRow(0, true, false)];
      new;
      assert RowOk(meta[0], 1, 0);
      assert HasRow(meta, 0);
    }

    /** get_active_linked_list_oid: the first active row of the metadata scan. */
    method GetActive() returns (found: bool, i: nat)
      ensures found ==> i < |meta| && meta[i].active
      ensures !found ==> forall j :: 0 <= j < |meta| ==> !meta[j].active
    {
      found, i := false, 0;
      while i < |meta|
        invariant 0 <= i <= |meta| && !found
        invariant forall j :: 0 <= j < i ==> !meta[j].active
      {
        if meta[i].active {
          found := true;
          return;
        }
        i := i + 1;
      }
    }

    /** get_oldest_inactive_linked_list: the smallest waiting id, in whatever order rows come. */
    method GetOldest() returns (found: bool, oldest: nat)
      ensures found ==> oldest < |meta| && Waiting(meta[oldest])
                        && forall j :: 0 <= j < |meta| && Waiting(meta[j]) ==> meta[oldest].id <= meta[j].id
      ensures !found ==> forall j :: 0 <= j < |meta| ==> !Waiting(meta[j])
    {
      found, oldest := false, 0;
      var i := 0;
      while i < |meta|
        invariant 0 <= i <= |meta|
        invariant found ==> oldest < i && Waiting(meta[oldest])
                            && forall j :: 0 <= j < i && Waiting(meta[j]) ==> meta[oldest].id <= meta[j].id
        invariant !found ==> forall j :: 0 <= j < i ==> !Waiting(meta[j])
      {
        if !meta[i].active && !meta[i].compacted {
          if !found || meta[i].id < meta[oldest].id {
            found, oldest := true, i;
          }
        }
        i := i + 1;
      }
    }

    /** create_new_active_linked_list */
    method RotateActive(ghost k: nat)
      requires InvAt(Abs(), k)
      modifies this
      ensures InvAt(Abs(), k) && k + 1 < |parts|
      ensures exists i :: 0 <= i < |old(meta)| && old(meta)[i].active && Abs() == Rotate(old(Abs()), i)
      ensures heads == old(heads)
      ensures forall v :: v in heads ==> Adjacent(Abs(), v) == Adjacent(old(Abs()), v)
    {
      ghost var s := Abs();
      SomeActive(s, k);
      var found, i := GetActive();
      RotateKeeps(s, i, k);
      var id := |parts|;
      parts := parts + [[]];
      meta := meta[..i] + meta[i + 1..] + [meta[i].(active := false)];
      meta := meta + [MetaRow(id, true, false)];
      assert Abs() == Rotate(s, i);
    }

    /** np_place_physmap_record for a new vertex, as far as adjacency goes. `first` is the first slot
        its page does not have yet; the slots from there on are padded with invalid pointers. */
    method PlaceVertex(v: nat, first: nat)
      requires (forall i :: first <= i <= v ==> i !in heads) && (v < first ==> v in heads)
      modifies this
      ensures Abs() == if first <= v then AddSlots(old(Abs()), first, v + 1) else AddVertex(old(Abs()), v)
    {
      ghost var s := Abs();
      if first > v {
        heads := heads[v := Nil];
        return;
      }
      var i := first;
      while i <= v
        invariant first <= i <= v + 1 && Abs() == AddSlots(s, first, i)
      {
        heads := heads[i := Nil];
        i := i + 1;
      }
    }

    /** insert_edge_one_direction: append to the active partition, redirect the old head's
        prev pointer, move the head. Fails when the vertex has no phys_map record. */
    method InsertOneDirection(v: nat, m: Member, ghost k: nat) returns (ok: bool)
      requires InvAt(Abs(), k)
      modifies this
      ensures ok <==> v in old(heads)
      ensures !ok ==> Abs() == old(Abs())
      ensures ok ==> Abs() == Push(old(Abs()), |old(parts)| - 1, v, m) && InvAt(Abs(), k)
    {
      ghost var s := Abs();
      var a := ActiveId(k);
      if v !in heads {
        return false;
      }
      HeadOk(s, v, k);
      PushInPlace(a, v, m);
      PushKeeps(s, Abs(), v, m, k);
      ok := true;
    }

    /** The active partition, which is the last one. */
    method ActiveId(ghost k: nat) returns (id: nat)
      requires InvAt(Abs(), k)
      ensures |parts| > 0 && id == |parts| - 1
    {
      SomeActive(Abs(), k);
      var found, i := GetActive();
      LastActive(Abs(), k, i);
      id := meta[i].id;
    }

    method PushInPlace(a: nat, v: nat, m: Member)
      requires a < |parts| && v in heads && (heads[v] == Nil || ValidLoc(Abs(), heads[v]))
      modifies this
      ensures Abs() == Push(old(Abs()), a, v, m)
    {
      var oldHead := heads[v];
      var here := List(a, |parts[a]|);
      parts := parts[a := parts[a] + [ListRec(v, m, oldHead, Nil)]];
      match oldHead {
        case Nil =>
        case List(p, j) =>
          parts := parts[p := parts[p][j := parts[p][j].(prev := here)]];
        case Block(j) =>
          blocks := blocks[j := blocks[j].(prev := here)];
      }
      heads := heads[v := here];
    }

    /** np_delete_edge_from_adj_list: walk from the head to the first live entry of the edge. */
    method DeleteFromAdj(v: nat, edge: nat, x: nat, c: nat, ghost k: nat)
      requires InvAt(Abs(), k)
      modifies this
      ensures InvAt(Abs(), k) && heads == old(heads)
      ensures v !in heads ==> Abs() == old(Abs())
      ensures v in heads ==> Abs() == KillIn(old(Abs()), Chain(old(Abs()), v), edge, x, c)
    {
      if v !in heads {
        return;
      }
      ghost var s := Abs();
      ghost var path := Chain(s, v);
      KillKeeps(s, v, edge, x, c, k);
      assert path[0..] == path;
      var cur := heads[v];
      ghost var j := 0;
      while cur != Nil
        invariant 0 <= j <= |path| && cur == At(path, j) && Abs() == s
        invariant KillIn(s, path, edge, x, c) == KillIn(s, path[j..], edge, x, c)
        decreases |path| - j
      {
        assert NodeOk(s, v, path, k, j) && StepOk(s, path, j);
        assert path[j..][0] == cur && path[j..][1..] == path[j + 1..];
        if cur.List? {
          var r := parts[cur.part][cur.idx];
          if r.m.edge == edge && r.m.Live() {
            assert Hits(MembersAt(s, cur)[0], edge);
            parts := parts[cur.part := parts[cur.part][cur.idx := r.(m := r.m.(xmax := x, cmax := c))]];
            return;
          }
          cur := r.next;
        } else {
          var r := blocks[cur.idx];
          var found, adj' := KillInBlock(r.adj, edge, x, c);
          if found {
            blocks := blocks[cur.idx := r.(adj := adj')];
            return;
          }
          cur := r.next;
        }
        j := j + 1;
      }
    }

    /** The scan of compact_oldest_linked_list_table: one entry per owner met. The source's
        assertion that a record only points outside its partition to an arraylist block
        is the assert in the loop. */
    method ScanPartition(p: nat, ghost k: nat) returns (entries: map<nat, Entry>)
      requires InvAt(Abs(), k) && p == k && k < |parts|
      ensures entries.Keys == Owners(parts[p])
      ensures forall v :: v in entries ==> entries[v] == EntryOf(parts[p], p, v)
    {
      var recs := parts[p];
      entries := map[];
      var i := 0;
      while i < |recs|
        invariant 0 <= i <= |recs|
        invariant forall v :: v in entries <==> exists j :: 0 <= j < i && recs[j].owner == v
        invariant forall v :: v in entries ==> entries[v] == EntryOf(recs[..i], p, v)
        invariant forall v :: v !in entries ==> EntryOf(recs[..i], p, v) == Entry([], Nil, Nil)
      {
        var r := recs[i];
        assert recs[..i + 1][..i] == recs[..i] && recs[..i + 1][i] == r;
        NextLeaves(Abs(), k, i);
        assert r.next.Nil? || InPart(r.next, p) || r.next.Block?;
        var e := if r.owner in entries then entries[r.owner] else Entry([], Nil, Nil);
        e := Entry(e.adj + [r.m],
                   if !InPart(r.prev, p) then r.prev else e.up,
                   if !InPart(r.next, p) && !r.next.Nil? then r.next else e.down);
        entries := entries[r.owner := e];
        i := i + 1;
      }
      assert recs[..|recs|] == recs;
    }

    /** Insert one block and, unless it is the first, point the block before it here. */
    method WriteBlock(r: BlockRec, first: bool)
      requires first || |blocks| > 0
      modifies this`blocks
      ensures |blocks| == |old(blocks)| + 1 && blocks[|old(blocks)|] == r
      ensures forall j :: 0 <= j < |old(blocks)| && (first || j + 1 < |old(blocks)|) ==> blocks[j] == old(blocks)[j]
      ensures !first ==> var last := |old(blocks)| - 1; blocks[last] == old(blocks)[last].(next := Block(last + 1))
    {
      var here := |blocks|;
      blocks := blocks + [r];
      if !first {
        blocks := blocks[here - 1 := blocks[here - 1].(next := Block(here))];
      }
    }

    /** np_insert_chunked_arraylist: cut, insert one block after the other, and reach back to
        point the previous block at the new one. */
    method InsertChunked(v: nat, adj: seq<Member>, up: Loc, down: Loc) returns (first: Loc)
      modifies this`blocks
      ensures Abs() == AppendChunks(old(Abs()), v, adj, up, down)
      ensures first == if adj == [] then Nil else Block(|old(blocks)|)
    {
      first := Nil;
      var total := |adj|;
      if total == 0 {
        return;
      }
      ghost var base := |blocks|;
      var chunks := (total + MAX_EDGES - 1) / MAX_EDGES;
      var prev := up;
      var i := 0;
      while i < chunks
        invariant 0 <= i <= chunks == NumChunks(|adj|)
        invariant |blocks| == base + i
        invariant forall j :: 0 <= j < base ==> blocks[j] == old(blocks)[j]
        invariant prev == if i == 0 then up else Block(base + i - 1)
        invariant first == if i == 0 then Nil else Block(base)
        invariant forall j {:trigger SoFar(v, adj, base, up, down, i, j)} :: 0 <= j < i ==>
                    blocks[base + j] == SoFar(v, adj, base, up, down, i, j)
      {
        var inChunk := if total - i * MAX_EDGES < MAX_EDGES then total - i * MAX_EDGES else MAX_EDGES;
        var chunk := CopyRange(adj, i * MAX_EDGES, inChunk);
        var next := if i == chunks - 1 then down else Nil;
        var here := |blocks|;
        ghost var before := blocks;
        NextChunk(v, adj, base, up, down, i, inChunk, BlockRec(v, chunk, prev, next, false));
        WriteBlock(BlockRec(v, chunk, prev, next, false), i == 0);
        SoFarStep(before, blocks, v, adj, base, up, down, i);
        first := if i == 0 then Block(here) else first;
        prev := Block(here);
        i := i + 1;
      }
      ChunksDone(old(blocks), blocks, v, adj, up, down);
    }

    /** The body of the hash loop for one owner: merge, write the blocks, wire upstream. */
    method RewriteOwner(v: nat, e: Entry)
      requires EntryOk(Abs(), e)
      modifies this
      ensures Abs() == Splice(old(Abs()), v, e)
    {
      ghost var s := Abs();
      var adj := e.adj;
      var onward := Nil;
      if e.down.Block? {
        var b := blocks[e.down.idx];
        onward := b.next;
        var i := 0;
        while i < |b.adj|
          invariant 0 <= i <= |b.adj|
          invariant adj == e.adj + b.adj[..i]
        {
          adj := adj + [b.adj[i]];
          i := i + 1;
        }
        assert b.adj[..|b.adj|] == b.adj;
        blocks := blocks[e.down.idx := b.(retired := true)];
      }
      assert adj == Merged(s, e) && onward == Onward(s, e) && Abs() == Retire(s, e.down);
      var first := InsertChunked(v, adj, e.up, onward);
      match e.up {
        case Nil =>
          heads := heads[v := first];
        case List(p, i) =>
          parts := parts[p := parts[p][i := parts[p][i].(next := first)]];
        case Block(i) =>
          blocks := blocks[i := blocks[i].(next := first)];
      }
    }

    /** compact_oldest_linked_list_table. The order is the one the hash table gives. */
    method CompactOldest(ghost k: nat) returns (ghost order: seq<nat>, ghost mid: Store, ghost row: nat)
      requires InvAt(Abs(), k)
      modifies this
      ensures InvAt(Abs(), k + 1) && heads.Keys == old(heads.Keys)
      ensures mid == old(Abs()) || exists i :: 0 <= i < |old(meta)| && old(meta)[i].active && mid == Rotate(old(Abs()), i)
      ensures InvAt(mid, k) && Enumerates(order, Owners(mid.parts[k]))
      ensures Abs() == Compact(mid, k, order, row)
      ensures forall v :: v in heads ==> multiset(Adjacent(Abs(), v)) == multiset(Adjacent(old(Abs()), v))
    {
      var found, oldest := GetOldest();
      if !found {
        RotateActive(k);
        found, oldest := GetOldest();
        SomeWaiting(Abs(), k);
      }
      mid := Abs();
      OldestIs(mid, k, oldest);
      var p := meta[oldest].id;
      order := Rewrite(p, mid, k);
      row := SetCompacted(p, oldest);
      CompactKeeps(mid, k, order, row);
    }

    /** The last metadata scan: flip the row of the partition just rewritten. */
    method SetCompacted(p: nat, ghost at: nat) returns (ghost row: nat)
      requires at < |meta| && meta[at].id == p
      modifies this`meta
      ensures row < |old(meta)| && old(meta)[row].id == p && Abs() == MarkCompacted(old(Abs()), row)
    {
      var i := 0;
      while meta[i].id != p
        invariant 0 <= i <= at
        decreases at - i
      {
        i := i + 1;
      }
      row := i;
      meta := meta[..i] + meta[i + 1..] + [meta[i].(compacted := true)];
    }

    method Rewrite(p: nat, ghost mid: Store, ghost k: nat) returns (ghost order: seq<nat>)
      requires InvAt(Abs(), k) && Abs() == mid && p == k
      modifies this
      ensures Enumerates(order, Owners(mid.parts[k])) && Abs() == CompactOwners(mid, k, order)
      ensures meta == mid.meta && |parts| == |mid.parts|
    {
      var entries := ScanPartition(p, k);
      var todo := entries.Keys;
      order := [];
      ghost var recs := parts[p];
      while todo != {}
        invariant todo <= entries.Keys && Mid(Abs(), k, todo)
        invariant |parts| == |mid.parts| && parts[p] == recs && meta == mid.meta
        invariant Abs() == CompactOwners(mid, k, order)
        invariant Enumerates(order, entries.Keys - todo)
        decreases todo
      {
        var v :| v in todo;
        ghost var s := Abs();
        CompactOwnerKeeps(s, k, todo, v);
        CompactOwnersSnoc(mid, k, order, v);
        ghost var a, b := OwnerReady(s, k, todo, v);
        RewriteOwner(v, entries[v]);
        EnumeratesSnoc(order, entries.Keys, todo, v);
        order := order + [v];
        todo := todo - {v};
      }
    }
  }

  /** The assertion at the end of the scan loop: outside its partition a record of the oldest
      partition points only to an arraylist block. */
  lemma NextLeaves(s: Store, k: nat, i: nat)
    requires InvAt(s, k) && i < |s.parts[k]|
    ensures var l := s.parts[k][i].next; l.Nil? || InPart(l, k) || l.Block?
  {
    var v := s.parts[k][i].owner;
    assert RecCovered(s, k, Owners(s.parts[k]), k, i);
    var path := Chain(s, v);
    var q :| 0 <= q < |path| && path[q] == List(k, i);
    assert StepOk(s, path, q);
    if q + 1 < |path| {
      assert Before(path[q], path[q + 1]) && NodeOk(s, v, path, k, q + 1);
    }
  }
}
