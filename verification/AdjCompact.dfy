/** Compaction: the records of the oldest inactive partition become arraylist blocks. */
module AdjCompact {
  import opened AdjStore
  import opened AdjSteps

  // ---------------------------------------------------------------- chunks

  function NumChunks(n: nat): nat { (n + MAX_EDGES - 1) / MAX_EDGES }

  function ChunkAdj(ms: seq<Member>, i: nat): seq<Member>
    requires i < NumChunks(|ms|)
  {
    if (i + 1) * MAX_EDGES <= |ms| then ms[i * MAX_EDGES..(i + 1) * MAX_EDGES] else ms[i * MAX_EDGES..]
  }

  /** Block i of a list cut into chunks; consecutive blocks are written one after the other. */
  function ChunkRec(v: nat, ms: seq<Member>, base: nat, up: Loc, down: Loc, i: nat): BlockRec
    requires i < NumChunks(|ms|)
  {
    BlockRec(v, ChunkAdj(ms, i),
             if i == 0 then up else Block(base + i - 1),
             if i + 1 == NumChunks(|ms|) then down else Block(base + i + 1), false)
  }

  function ChunkPath(base: nat, n: nat): seq<Loc> {
    seq(n, i requires 0 <= i < n => Block(base + i))
  }

  lemma ChunkSize(ms: seq<Member>, i: nat)
    requires i < NumChunks(|ms|)
    ensures 1 <= |ChunkAdj(ms, i)| <= MAX_EDGES
    ensures i + 1 < NumChunks(|ms|) ==> |ChunkAdj(ms, i)| == MAX_EDGES
  {
  }

  ghost predicate ChunkAt(s: Store, v: nat, ms: seq<Member>, base: nat, up: Loc, down: Loc, i: nat)
    requires i < NumChunks(|ms|)
  {
    base + i < |s.blocks| && s.blocks[base + i] == ChunkRec(v, ms, base, up, down, i)
  }

  function ChunkStart(ms: seq<Member>, i: nat): (from: nat)
    ensures from <= |ms|
  {
    if i * MAX_EDGES <= |ms| then i * MAX_EDGES else |ms|
  }

  /** The chunks, in order, are the list. */
  lemma {:induction false} ChunksConcat(s: Store, v: nat, ms: seq<Member>, base: nat, up: Loc, down: Loc, i: nat)
    requires i <= NumChunks(|ms|)
    requires forall j {:trigger ChunkAt(s, v, ms, base, up, down, j)} ::
               0 <= j < NumChunks(|ms|) ==> ChunkAt(s, v, ms, base, up, down, j)
    ensures Members(s, ChunkPath(base, NumChunks(|ms|))[i..]) == ms[ChunkStart(ms, i)..]
    decreases NumChunks(|ms|) - i
  {
    var n := NumChunks(|ms|);
    if i < n {
      var rest := ChunkPath(base, n)[i..];
      ChunksConcat(s, v, ms, base, up, down, i + 1);
      assert rest[0] == Block(base + i) && rest[1..] == ChunkPath(base, n)[i + 1..];
      assert ChunkAt(s, v, ms, base, up, down, i);
      assert MembersAt(s, Block(base + i)) == ChunkAdj(ms, i);
      assert ChunkAdj(ms, i) == ms[ChunkStart(ms, i)..ChunkStart(ms, i + 1)];
    }
  }

  // ---------------------------------------------------------------- one hash entry

  /** CompactedVertexEntry: the entries of one owner in scan order and its outside neighbours. */
  datatype Entry = Entry(adj: seq<Member>, up: Loc, down: Loc)

  predicate InPart(l: Loc, k: nat) { l.List? && l.part == k }

  function AddRecord(e: Entry, k: nat, r: ListRec): Entry {
    Entry(e.adj + [r.m],
          if InPart(r.prev, k) then e.up else r.prev,
          if InPart(r.next, k) || r.next.Nil? then e.down else r.next)
  }

  function EntryOf(recs: seq<ListRec>, k: nat, v: nat): Entry {
    if recs == [] then Entry([], Nil, Nil)
    else
      var e := EntryOf(recs[..|recs| - 1], k, v);
      if recs[|recs| - 1].owner == v then AddRecord(e, k, recs[|recs| - 1]) else e
  }

  function Rev<T>(ms: seq<T>): seq<T> {
    if ms == [] then [] else Rev(ms[1..]) + [ms[0]]
  }

  lemma {:induction false} RevMultiset<T>(ms: seq<T>)
    ensures multiset(Rev(ms)) == multiset(ms)
  {
    if ms != [] {
      RevMultiset(ms[1..]);
      assert ms == [ms[0]] + ms[1..];
    }
  }

  // ---------------------------------------------------------------- splicing

  function Retire(s: Store, l: Loc): Store {
    if l.Block? && l.idx < |s.blocks|
    then s.(blocks := s.blocks[l.idx := s.blocks[l.idx].(retired := true)])
    else s
  }

  function AppendChunks(s: Store, v: nat, ms: seq<Member>, up: Loc, down: Loc): Store {
    var n := NumChunks(|ms|);
    s.(blocks := s.blocks + seq(n, i requires 0 <= i < n => ChunkRec(v, ms, |s.blocks|, up, down, i)))
  }

  /** Point the upstream record, or the phys_map head, at `first`. */
  function Wire(s: Store, v: nat, up: Loc, first: Loc): Store {
    if !ValidLoc(s, up) then s.(heads := s.heads[v := first])
    else if up.List? then
      s.(parts := s.parts[up.part := s.parts[up.part][up.idx := s.parts[up.part][up.idx].(next := first)]])
    else
      s.(blocks := s.blocks[up.idx := s.blocks[up.idx].(next := first)])
  }

  function Merged(s: Store, e: Entry): seq<Member> {
    if e.down.Block? then e.adj + MembersAt(s, e.down) else e.adj
  }

  function Onward(s: Store, e: Entry): Loc {
    if e.down.Block? && ValidLoc(s, e.down) then Next(s, e.down) else Nil
  }

  /** The rewrite of one owner's entries, from merging the next block to wiring upstream. */
  function CompactOwner(s: Store, k: nat, v: nat): Store
    requires k < |s.parts|
  {
    Splice(s, v, EntryOf(s.parts[k], k, v))
  }

  function Splice(s: Store, v: nat, e: Entry): Store {
    var s1 := Retire(s, e.down);
    var s2 := AppendChunks(s1, v, Merged(s, e), e.up, Onward(s, e));
    Wire(s2, v, e.up, if Merged(s, e) == [] then Nil else Block(|s.blocks|))
  }

  ghost predicate SplicedAt(s: Store, s': Store, e: Entry, l: Loc)
    requires ValidLoc(s, l)
  {
    && ValidLoc(s', l) && Owner(s', l) == Owner(s, l) && MembersAt(s', l) == MembersAt(s, l)
    && Prev(s', l) == Prev(s, l)
    && Next(s', l) == (if l == e.up then Block(|s.blocks|) else Next(s, l))
    && Retired(s', l) == (Retired(s, l) || l == e.down)
    && (l != e.up && l != e.down ==> SameAt(s, s', l))
  }

  ghost predicate Spliced(s: Store, s': Store, v: nat, e: Entry) {
    var ms, base := Merged(s, e), |s.blocks|;
    && |s'.parts| == |s.parts| && s'.meta == s.meta
    && (forall p :: 0 <= p < |s.parts| ==> |s'.parts[p]| == |s.parts[p]|)
    && |s'.blocks| == base + NumChunks(|ms|)
    && (forall i {:trigger ChunkAt(s', v, ms, base, e.up, Onward(s, e), i)} ::
          0 <= i < NumChunks(|ms|) ==> ChunkAt(s', v, ms, base, e.up, Onward(s, e), i))
    && (forall l {:trigger SplicedAt(s, s', e, l)} :: ValidLoc(s, l) ==> SplicedAt(s, s', e, l))
    && s'.heads == if e.up == Nil then s.heads[v := Block(base)] else s.heads
  }

  ghost predicate EntryOk(s: Store, e: Entry) {
    && (e.up == Nil || (ValidLoc(s, e.up) && e.up != e.down))
    && (e.down == Nil || (e.down.Block? && ValidLoc(s, e.down)))
    && e.adj != []
  }

  lemma AppendEffect(s: Store, v: nat, ms: seq<Member>, up: Loc, down: Loc)
    ensures var s' := AppendChunks(s, v, ms, up, down);
            && s'.parts == s.parts && s'.meta == s.meta && s'.heads == s.heads
            && |s'.blocks| == |s.blocks| + NumChunks(|ms|)
            && (forall i :: 0 <= i < |s.blocks| ==> s'.blocks[i] == s.blocks[i])
            && (forall i {:trigger ChunkAt(s', v, ms, |s.blocks|, up, down, i)} ::
                  0 <= i < NumChunks(|ms|) ==> ChunkAt(s', v, ms, |s.blocks|, up, down, i))
  {
  }

  lemma SpliceRecord(s: Store, v: nat, e: Entry, l: Loc)
    requires EntryOk(s, e) && ValidLoc(s, l)
    ensures SplicedAt(s, Splice(s, v, e), e, l)
  {
    var s1 := Retire(s, e.down);
    AppendEffect(s1, v, Merged(s, e), e.up, Onward(s, e));
  }

  lemma SpliceEffect(s: Store, v: nat, e: Entry)
    requires EntryOk(s, e)
    ensures Spliced(s, Splice(s, v, e), v, e)
  {
    var s' := Splice(s, v, e);
    var ms, base := Merged(s, e), |s.blocks|;
    var s1 := Retire(s, e.down);
    var s2 := AppendChunks(s1, v, ms, e.up, Onward(s, e));
    AppendEffect(s1, v, ms, e.up, Onward(s, e));
    forall l | ValidLoc(s, l) ensures SplicedAt(s, s', e, l) { SpliceRecord(s, v, e, l); }
    forall i | 0 <= i < NumChunks(|ms|) ensures ChunkAt(s', v, ms, base, e.up, Onward(s, e), i) {
      assert ChunkAt(s2, v, ms, base, e.up, Onward(s, e), i);
      assert s'.blocks[base + i] == s2.blocks[base + i];
    }
  }

  // ---------------------------------------------------------------- the spliced chain

  /** path[a..b] are the records of partition k, newer partitions before, blocks after. */
  ghost predicate Cut(path: seq<Loc>, k: nat, a: nat, b: nat) {
    && a < b <= |path|
    && (forall j :: 0 <= j < a ==> path[j].List? && path[j].part > k)
    && (forall j :: a <= j < b ==> InPart(path[j], k))
    && (forall j :: b <= j < |path| ==> path[j].Block?)
  }

  function Tail(path: seq<Loc>, b: nat): seq<Loc> {
    if b < |path| then path[b + 1..] else []
  }

  function NewPath(path: seq<Loc>, a: nat, b: nat, base: nat, n: nat): seq<Loc>
    requires a <= b <= |path|
  {
    path[..a] + ChunkPath(base, n) + Tail(path, b)
  }

  lemma NewPathAt(path: seq<Loc>, a: nat, b: nat, base: nat, n: nat, j: int)
    requires a < b <= |path|
    ensures At(NewPath(path, a, b, base, n), j)
         == if j < a then At(path, j) else if j < a + n then Block(base + j - a) else At(path, j - a - n + b + 1)
  {
  }

  ghost predicate SpliceReady(s: Store, s': Store, v: nat, e: Entry, path: seq<Loc>, k: nat, a: nat, b: nat) {
    && v in s.heads && v in s'.heads
    && EntryOk(s, e) && Spliced(s, s', v, e) && ChainOk(s, v, path, k) && Cut(path, k, a, b)
    && e.up == At(path, a - 1) && e.down == At(path, b)
  }

  lemma SpliceOld(s: Store, s': Store, v: nat, e: Entry, path: seq<Loc>, k: nat, a: nat, b: nat, i: nat)
    requires SpliceReady(s, s', v, e, path, k, a, b) && i < |path| && (i < a || i > b)
    ensures StepOk(s, path, i) && NodeOk(s, v, path, k, i) && SplicedAt(s, s', e, path[i])
    ensures path[i] == e.up <==> i == a - 1
    ensures path[i] != e.down
  {
    assert NodeOk(s, v, path, k, i) && StepOk(s, path, i);
    assert SplicedAt(s, s', e, path[i]);
    if 0 < a && i != a - 1 {
      if i < a - 1 { assert Before(path[i], path[a - 1]); } else { assert Before(path[a - 1], path[i]); }
    }
    if b < |path| {
      if i < b { assert Before(path[i], path[b]); } else { assert Before(path[b], path[i]); }
    }
  }

  lemma SpliceChunkNode(s: Store, s': Store, v: nat, e: Entry, path: seq<Loc>, k: nat, a: nat, b: nat, i: nat)
    requires SpliceReady(s, s', v, e, path, k, a, b) && i < NumChunks(|Merged(s, e)|)
    ensures var base, n := |s.blocks|, NumChunks(|Merged(s, e)|); var l := Block(base + i);
            && ValidLoc(s', l) && Owner(s', l) == v && !Retired(s', l) && 1 <= |MembersAt(s', l)| <= MAX_EDGES
            && Next(s', l) == (if i + 1 < n then Block(base + i + 1) else At(path, b + 1))
            && !Next(s', l).List?
  {
    assert ChunkAt(s', v, Merged(s, e), |s.blocks|, e.up, Onward(s, e), i);
    ChunkSize(Merged(s, e), i);
    assert b < |path| ==> NodeOk(s, v, path, k, b) && StepOk(s, path, b);
  }

  lemma SpliceOldNode(s: Store, s': Store, v: nat, e: Entry, path: seq<Loc>, k: nat, a: nat, b: nat, i: nat)
    requires SpliceReady(s, s', v, e, path, k, a, b) && i < |path| && (i < a || i > b)
    ensures var l := path[i];
            && ValidLoc(s', l) && Owner(s', l) == v && !Retired(s', l)
            && (l.List? ==> i < a && l.part >= k && Prev(s', l) == At(path, i - 1))
            && (l.Block? ==> i > b && 1 <= |MembersAt(s', l)| <= MAX_EDGES && !Next(s', l).List?)
            && Next(s', l) == (if i == a - 1 then Block(|s.blocks|) else At(path, i + 1))
  {
    SpliceOld(s, s', v, e, path, k, a, b, i);
  }

  lemma SpliceNode(s: Store, s': Store, v: nat, e: Entry, path: seq<Loc>, k: nat, a: nat, b: nat, j: nat)
    requires SpliceReady(s, s', v, e, path, k, a, b)
    requires j < |NewPath(path, a, b, |s.blocks|, NumChunks(|Merged(s, e)|))|
    ensures var path' := NewPath(path, a, b, |s.blocks|, NumChunks(|Merged(s, e)|));
            StepOk(s', path', j) && NodeOk(s', v, path', k, j)
  {
    var base, n := |s.blocks|, NumChunks(|Merged(s, e)|);
    var path' := NewPath(path, a, b, base, n);
    NewPathAt(path, a, b, base, n, j);
    assert path'[j] == At(path', j);
    if a <= j < a + n {
      SpliceChunkNode(s, s', v, e, path, k, a, b, j - a);
    } else {
      SpliceOldNode(s, s', v, e, path, k, a, b, if j < a then j else j - a - n + b + 1);
    }
    NodeFromFacts(s', v, path, k, a, b, base, n, j);
  }

  lemma NodeFromFacts(s': Store, v: nat, path: seq<Loc>, k: nat, a: nat, b: nat, base: nat, n: nat, j: nat)
    requires a < b <= |path| && 0 < n && j < |NewPath(path, a, b, base, n)|
    requires var l := NewPath(path, a, b, base, n)[j]; var i := if j < a then j else j - a - n + b + 1;
             && ValidLoc(s', l) && Owner(s', l) == v && !Retired(s', l)
             && (l.List? ==> j < a && l.part >= k && Prev(s', l) == At(path, i - 1))
             && (l.Block? ==> 1 <= |MembersAt(s', l)| <= MAX_EDGES && !Next(s', l).List?)
             && Next(s', l) == (if a <= j < a + n then (if j + 1 < a + n then Block(base + j - a + 1) else At(path, b + 1))
                                else if j == a - 1 then Block(base) else At(path, i + 1))
    ensures var path' := NewPath(path, a, b, base, n);
            StepOk(s', path', j) && NodeOk(s', v, path', k, j)
  {
    NewPathAt(path, a, b, base, n, j - 1);
    NewPathAt(path, a, b, base, n, j + 1);
  }

  lemma SpliceOrder(s: Store, s': Store, v: nat, e: Entry, path: seq<Loc>, k: nat, a: nat, b: nat, i: nat, j: nat)
    requires SpliceReady(s, s', v, e, path, k, a, b)
    requires i < j < |NewPath(path, a, b, |s.blocks|, NumChunks(|Merged(s, e)|))|
    ensures var path' := NewPath(path, a, b, |s.blocks|, NumChunks(|Merged(s, e)|));
            Before(path'[i], path'[j])
  {
    var base, n := |s.blocks|, NumChunks(|Merged(s, e)|);
    NewPathAt(path, a, b, base, n, i);
    NewPathAt(path, a, b, base, n, j);
    var j0 := if j < a then j else j - a - n + b + 1;
    if j < a || j >= a + n {
      assert NodeOk(s, v, path, k, j0);
      if i < a { assert Before(path[i], path[j0]); }
      else if i >= a + n { assert Before(path[i - a - n + b + 1], path[j0]); }
    }
  }

  /** The owner's chain after the splice, and the entries along it. */
  lemma SpliceChain(s: Store, s': Store, v: nat, e: Entry, path: seq<Loc>, k: nat, a: nat, b: nat)
    requires SpliceReady(s, s', v, e, path, k, a, b)
    ensures var path' := NewPath(path, a, b, |s.blocks|, NumChunks(|Merged(s, e)|));
            && ChainOk(s', v, path', k)
            && Members(s', path') == Members(s, path[..a]) + Merged(s, e) + Members(s, Tail(path, b))
  {
    var ms, base := Merged(s, e), |s.blocks|;
    var n := NumChunks(|ms|);
    var path' := NewPath(path, a, b, base, n);
    forall j | 0 <= j < |path'| ensures StepOk(s', path', j) && NodeOk(s', v, path', k, j) {
      SpliceNode(s, s', v, e, path, k, a, b, j);
    }
    forall i, j | 0 <= i < j < |path'| ensures Before(path'[i], path'[j]) {
      SpliceOrder(s, s', v, e, path, k, a, b, i, j);
    }
    assert s'.heads[v] == At(path', 0) by {
      NewPathAt(path, a, b, base, n, 0);
    }
    SpliceMembers(s, s', v, e, path, k, a, b);
  }

  lemma SpliceMembers(s: Store, s': Store, v: nat, e: Entry, path: seq<Loc>, k: nat, a: nat, b: nat)
    requires SpliceReady(s, s', v, e, path, k, a, b)
    ensures Members(s', NewPath(path, a, b, |s.blocks|, NumChunks(|Merged(s, e)|)))
         == Members(s, path[..a]) + Merged(s, e) + Members(s, Tail(path, b))
  {
    var ms, base := Merged(s, e), |s.blocks|;
    var n := NumChunks(|ms|);
    var tail := Tail(path, b);
    MembersConcat(s', path[..a] + ChunkPath(base, n), tail);
    MembersConcat(s', path[..a], ChunkPath(base, n));
    forall i | 0 <= i < |path[..a]| ensures MembersAt(s', path[..a][i]) == MembersAt(s, path[..a][i]) {
      SpliceOld(s, s', v, e, path, k, a, b, i);
    }
    MembersSame(s', s, path[..a]);
    forall i | 0 <= i < |tail| ensures MembersAt(s', tail[i]) == MembersAt(s, tail[i]) {
      SpliceOld(s, s', v, e, path, k, a, b, i + b + 1);
    }
    MembersSame(s', s, tail);
    ChunksConcat(s', v, ms, base, e.up, Onward(s, e), 0);
    assert ChunkPath(base, n)[0..] == ChunkPath(base, n) && ms[ChunkStart(ms, 0)..] == ms;
  }
}
