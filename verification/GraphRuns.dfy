/** Runs of edge inserts, deletes, rotations and compactions. */
module GraphRuns {
  import opened AdjStore
  import opened AdjSteps
  import opened AdjCompact
  import opened AdjCompactAll
  import opened Graph

  /** One call, with the choices it makes: which metadata row a scan meets, in which order the
      hash table lists the owners. */
  datatype Op =
    | NewVertex(v: VKey)
    | InsertEdge(e: EKey, s: VKey, t: VKey, x: nat, c: nat)
    | DeleteEdge(e: EKey, x: nat, c: nat)
    | RotateList(lab: nat, row: nat)
    | CompactList(lab: nat, rotate: bool, row0: nat, order: seq<nat>, row: nat)

  /** No live edge of any label has this id. */
  ghost predicate FreeId(g: Graph, id: nat) {
    forall f :: IsLive(g, f) ==> f.id != id
  }

  /** get_oldest_inactive_linked_list picks row i. */
  predicate IsOldest(s: Store, i: nat) {
    && i < |s.meta| && Waiting(s.meta[i])
    && forall j :: 0 <= j < |s.meta| && Waiting(s.meta[j]) ==> s.meta[i].id <= s.meta[j].id
  }

  function BeforeCompaction(s: Store, rotate: bool, row0: nat): Store {
    if rotate && row0 < |s.meta| then Rotate(s, row0) else s
  }

  ghost predicate CompactLegal(s: Store, rotate: bool, row0: nat, order: seq<nat>, row: nat) {
    && (rotate <==> forall j :: 0 <= j < |s.meta| ==> !Waiting(s.meta[j]))
    && (rotate ==> row0 < |s.meta| && s.meta[row0].active)
    && var m := BeforeCompaction(s, rotate, row0);
       IsOldest(m, row) && m.meta[row].id < |m.parts| && Enumerates(order, Owners(m.parts[m.meta[row].id]))
  }

  function CompactStore(s: Store, rotate: bool, row0: nat, order: seq<nat>, row: nat): Store {
    var m := BeforeCompaction(s, rotate, row0);
    if row < |m.meta| && m.meta[row].id < |m.parts| then Compact(m, m.meta[row].id, order, row) else m
  }

  ghost predicate Step(g: Graph, op: Op, g': Graph) {
    match op
    case NewVertex(v) =>
      v.lab in g.labels && !HasVertex(g, v) && g' == g.(labels := g.labels[v.lab := AddVertex(g.labels[v.lab], v.id)])
    case InsertEdge(e, s, t, x, c) =>
      && HasVertex(g, s) && HasVertex(g, t) && !IsLive(g, e)
      && |g.labels[s.lab].parts| > 0 && |g.labels[t.lab].parts| > 0 && g' == Insert(g, e, s, t, x, c)
    case DeleteEdge(e, x, c) =>
      IsLive(g, e) && x > 0 && g' == Delete(g, e, x, c)
    case RotateList(l, row) =>
      && l in g.labels && row < |g.labels[l].meta| && g.labels[l].meta[row].active
      && g' == g.(labels := g.labels[l := Rotate(g.labels[l], row)])
    case CompactList(l, rotate, row0, order, row) =>
      && l in g.labels && CompactLegal(g.labels[l], rotate, row0, order, row)
      && g' == g.(labels := g.labels[l := CompactStore(g.labels[l], rotate, row0, order, row)])
  }

  /** Every live edge has exactly its two live entries, and there are no others. */
  ghost predicate Sound(g: Graph) {
    GInv(g) && Consistent(g)
  }

  ghost predicate Good(g: Graph) {
    Sound(g) && UniqueIds(g)
  }

  lemma StoreOpKeeps(s: Store, s': Store)
    requires Inv(s)
    requires (exists row :: 0 <= row < |s.meta| && s.meta[row].active && s' == Rotate(s, row))
             || (exists rotate, row0, order, row {:trigger CompactStore(s, rotate, row0, order, row)} ::
                   CompactLegal(s, rotate, row0, order, row) && s' == CompactStore(s, rotate, row0, order, row))
    ensures Inv(s') && s'.heads.Keys == s.heads.Keys
    ensures forall v :: v in s.heads ==> multiset(Adjacent(s', v)) == multiset(Adjacent(s, v))
  {
    var k :| InvAt(s, k);
    if row :| 0 <= row < |s.meta| && s.meta[row].active && s' == Rotate(s, row) {
      RotateKeeps(s, row, k);
    } else {
      var rotate, row0, order, row :|
        CompactLegal(s, rotate, row0, order, row) && s' == CompactStore(s, rotate, row0, order, row);
      CompactOpKeeps(s, rotate, row0, order, row, k);
    }
  }

  lemma CompactOpKeeps(s: Store, rotate: bool, row0: nat, order: seq<nat>, row: nat, k: nat)
    requires InvAt(s, k) && CompactLegal(s, rotate, row0, order, row)
    ensures var s' := CompactStore(s, rotate, row0, order, row);
      && Inv(s') && s'.heads.Keys == s.heads.Keys
      && forall v :: v in s.heads ==> multiset(Adjacent(s', v)) == multiset(Adjacent(s, v))
  {
    var m := BeforeCompaction(s, rotate, row0);
    if rotate { RotateKeeps(s, row0, k); }
    OldestIs(m, k, row);
    CompactKeeps(m, k, order, row);
  }

  lemma StoreSwap(g: Graph, g': Graph, l: nat)
    requires LInv(g) && l in g.labels && l in g'.labels && g' == g.(labels := g.labels[l := g'.labels[l]])
    requires Inv(g'.labels[l]) && g'.labels[l].heads.Keys == g.labels[l].heads.Keys
    requires forall v :: v in g.labels[l].heads ==>
               multiset(Adjacent(g'.labels[l], v)) == multiset(Adjacent(g.labels[l], v))
    ensures LInv(g') && SameVertices(g, g')
    ensures forall u :: HasVertex(g, u) ==> multiset(Adj(g', u)) == multiset(Adj(g, u))
  {
    forall u | HasVertex(g, u) ensures multiset(Adj(g', u)) == multiset(Adj(g, u)) {
      if u.lab == l {
        assert u.id in g.labels[l].heads;
      }
    }
  }

  /** Rotation and compaction move entries about in one label's tables: every vertex of that
      label keeps its multiset of entries, stamps included, and other labels are not touched. */
  lemma MaintenanceKeeps(g: Graph, op: Op, g': Graph)
    requires LInv(g) && Step(g, op, g') && (op.RotateList? || op.CompactList?)
    ensures LInv(g') && SameVertices(g, g') && g'.edges == g.edges
    ensures forall u :: HasVertex(g, u) ==> multiset(Adj(g', u)) == multiset(Adj(g, u))
    ensures forall l :: l in g.labels && l != op.lab ==> g'.labels[l] == g.labels[l]
  {
    StoreOpKeeps(g.labels[op.lab], g'.labels[op.lab]);
    StoreSwap(g, g', op.lab);
  }

  lemma PermutedSound(g: Graph, g': Graph)
    requires Sound(g) && LInv(g') && SameVertices(g, g') && g'.edges == g.edges
    requires forall u :: HasVertex(g, u) ==> multiset(Adj(g', u)) == multiset(Adj(g, u))
    ensures Sound(g')
  {
    forall v, key | HasVertex(g', v) ensures Agrees(g', v, key) {
      assert HasVertex(g, v) && Agrees(g, v, key);
      CountMultiset(Adj(g', v), Adj(g, v), key);
    }
    assert forall e :: IsLive(g', e) <==> IsLive(g, e);
  }

  lemma NewVertexAdj(g: Graph, g': Graph, v: VKey)
    requires LInv(g) && v.lab in g.labels && !HasVertex(g, v)
    requires g' == g.(labels := g.labels[v.lab := AddVertex(g.labels[v.lab], v.id)])
    ensures LInv(g') && HasVertex(g', v) && Adj(g', v) == []
    ensures forall u :: HasVertex(g', u) <==> HasVertex(g, u) || u == v
    ensures forall u :: HasVertex(g, u) ==> Adj(g', u) == Adj(g, u)
  {
    var s := g.labels[v.lab];
    var k := LabelInv(g, v.lab);
    AddVertexKeeps(s, v.id, k);
    assert InvAt(g'.labels[v.lab], k);
    forall u | HasVertex(g, u) ensures Adj(g', u) == Adj(g, u) {}
  }

  lemma NewVertexSound(g: Graph, g': Graph, v: VKey)
    requires Sound(g) && v.lab in g.labels && !HasVertex(g, v)
    requires g' == g.(labels := g.labels[v.lab := AddVertex(g.labels[v.lab], v.id)])
    ensures Sound(g')
  {
    NewVertexAdj(g, g', v);
    assert forall e :: IsLive(g', e) <==> IsLive(g, e);
    forall u, key | HasVertex(g', u) ensures Agrees(g', u, key) {
      if u == v {
        assert Belongs(g, u, key) ==> HasVertex(g, u);
      } else {
        assert Agrees(g, u, key);
      }
    }
  }

  lemma InsertGood(g: Graph, g': Graph, e: EKey, s: VKey, t: VKey, x: nat, c: nat)
    requires Good(g) && FreeId(g, e.id) && HasVertex(g, s) && HasVertex(g, t)
    requires |g.labels[s.lab].parts| > 0 && |g.labels[t.lab].parts| > 0 && g' == Insert(g, e, s, t, x, c)
    ensures Good(g') && SameVertices(g, g') && g'.edges == g.edges[e := EdgeRec(s, t, true)]
  {
    assert !IsLive(g, e);
    InsertConsistent(g, g', e, s, t, x, c);
    UniqueAfter(g, g', e, EdgeRec(s, t, true));
  }

  lemma UniqueAfter(g: Graph, g': Graph, e: EKey, r: EdgeRec)
    requires UniqueIds(g) && g'.edges == g.edges[e := r] && (r.live ==> FreeId(g, e.id))
    ensures UniqueIds(g')
  {
    forall f, h | IsLive(g', f) && IsLive(g', h) && f.id == h.id ensures f == h {
      assert f != e ==> IsLive(g, f);
      assert h != e ==> IsLive(g, h);
    }
  }

  lemma DeleteGood(g: Graph, g': Graph, e: EKey, x: nat, c: nat)
    requires Good(g) && IsLive(g, e) && x > 0 && g' == Delete(g, e, x, c)
    ensures Good(g') && g'.edges == g.edges[e := g.edges[e].(live := false)]
  {
    UniqueIdsSafe(g, e, x, c);
    DeleteConsistentIff(g, e, x, c);
    DeleteAdj(g, g', e, x, c);
    UniqueAfter(g, g', e, g.edges[e].(live := false));
  }

  /** The states of a run, one more than its steps. */
  ghost predicate Trace(gs: seq<Graph>, ops: seq<Op>) {
    |gs| == |ops| + 1 && forall i :: 0 <= i < |ops| ==> Step(gs[i], ops[i], gs[i + 1])
  }

  /** What can be looked up before a delete: in both walks the nearest live entry with the edge's id
      is its own. */
  ghost predicate SafeOp(g: Graph, op: Op)
    requires GInv(g)
  {
    op.DeleteEdge? && IsLive(g, op.e) ==> NearestIsOwn(g, op.e, op.x, op.c)
  }

  /** One step from a sound state leads to a sound state exactly when it is no delete that hits
      another edge's entry. */
  lemma StepIff(g: Graph, op: Op, g': Graph)
    requires Sound(g) && Step(g, op, g')
    ensures Sound(g') <==> SafeOp(g, op)
  {
    match op
    case NewVertex(v) => NewVertexSound(g, g', v);
    case InsertEdge(e, s, t, x, c) => InsertConsistent(g, g', e, s, t, x, c);
    case DeleteEdge(e, x, c) => DeleteConsistentIff(g, e, x, c);
    case RotateList(_, _) =>
      MaintenanceKeeps(g, op, g');
      PermutedSound(g, g');
    case CompactList(_, _, _, _, _) =>
      MaintenanceKeeps(g, op, g');
      PermutedSound(g, g');
  }

  ghost predicate SoundAt(gs: seq<Graph>, i: nat) { i < |gs| && Sound(gs[i]) }

  ghost predicate SafeAt(gs: seq<Graph>, ops: seq<Op>, i: nat) {
    i < |ops| && i < |gs| && GInv(gs[i]) && SafeOp(gs[i], ops[i])
  }

  /** Over any run, shared ids or not: every state is sound exactly when every delete was safe. */
  lemma RunIff(gs: seq<Graph>, ops: seq<Op>)
    requires Trace(gs, ops) && Sound(gs[0])
    ensures (forall i :: 0 <= i < |gs| ==> SoundAt(gs, i)) <==> forall i :: 0 <= i < |ops| ==> SafeAt(gs, ops, i)
  {
    if forall i :: 0 <= i < |gs| ==> SoundAt(gs, i) {
      forall i | 0 <= i < |ops| ensures SafeAt(gs, ops, i) {
        assert SoundAt(gs, i) && SoundAt(gs, i + 1);
        StepIff(gs[i], ops[i], gs[i + 1]);
      }
    }
    if forall i :: 0 <= i < |ops| ==> SafeAt(gs, ops, i) {
      forall i | 0 <= i < |gs| ensures SoundAt(gs, i) { SoundUpTo(gs, ops, i); }
    }
  }

  lemma {:induction false} SoundUpTo(gs: seq<Graph>, ops: seq<Op>, n: nat)
    requires Trace(gs, ops) && Sound(gs[0]) && n < |gs| && forall i :: 0 <= i < |ops| ==> SafeAt(gs, ops, i)
    ensures SoundAt(gs, n)
  {
    if n > 0 {
      SoundUpTo(gs, ops, n - 1);
      assert SafeAt(gs, ops, n - 1) && Step(gs[n - 1], ops[n - 1], gs[n - 1 + 1]);
      StepIff(gs[n - 1], ops[n - 1], gs[n]);
    }
  }

  /** When every inserted edge gets an id that no live edge of any label has, every delete is safe. */
  lemma {:induction false} RunGood(gs: seq<Graph>, ops: seq<Op>, n: nat)
    requires Trace(gs, ops) && Good(gs[0]) && n < |gs|
    requires forall i :: 0 <= i < |ops| && ops[i].InsertEdge? ==> FreeId(gs[i], ops[i].e.id)
    ensures Good(gs[n])
  {
    if n > 0 {
      RunGood(gs, ops, n - 1);
      var g, op, g' := gs[n - 1], ops[n - 1], gs[n];
      assert Step(gs[n - 1], ops[n - 1], gs[n - 1 + 1]);
      if op.DeleteEdge? { UniqueIdsSafe(g, op.e, op.x, op.c); }
      StepIff(g, op, g');
      UniqueStep(g, op, g');
    }
  }

  lemma UniqueStep(g: Graph, op: Op, g': Graph)
    requires Good(g) && Step(g, op, g') && (op.InsertEdge? ==> FreeId(g, op.e.id))
    ensures UniqueIds(g')
  {
    match op
    case NewVertex(v) =>
    case InsertEdge(e, s, t, x, c) => InsertGood(g, g', e, s, t, x, c);
    case DeleteEdge(e, x, c) => DeleteGood(g, g', e, x, c);
    case RotateList(_, _) =>
    case CompactList(_, _, _, _, _) =>
  }

  /** A graph with fresh label tables and no vertex. */
  ghost predicate Fresh(g: Graph) {
    && g.edges == map[]
    && forall l :: l in g.labels ==> g.labels[l] == Store(map[], [[]], [], [MetaRow(0, true, false)])
  }

  lemma FreshGood(g: Graph)
    requires Fresh(g)
    ensures Good(g)
  {
    forall l | l in g.labels ensures Inv(g.labels[l]) {
      var s := g.labels[l];
      assert RowOk(s.meta[0], 1, 0) && HasRow(s.meta, 0);
      assert InvAt(s, 0);
    }
  }

  /** The shape of every chain in every reachable state: partition numbers never go up, array
      blocks come last, a vertex's records of one partition are one segment, prev is the
      inverse of next on list records, and the walk ends. */
  lemma ChainShape(g: Graph, v: VKey)
    requires LInv(g) && HasVertex(g, v)
    ensures var s := g.labels[v.lab]; var path := Chain(s, v.id);
            && Linked(s, s.heads[v.id], path)
            && (forall i, j :: 0 <= i < j < |path| && path[i].Block? ==> path[j].Block?)
            && (forall i, j :: 0 <= i < j < |path| && path[i].List? && path[j].List? ==> path[i].part >= path[j].part)
            && (forall i, m, j :: 0 <= i < m < j < |path| && path[i].List? && path[j].List? && path[i].part == path[j].part
                  ==> path[m].List? && path[m].part == path[i].part)
            && (forall j :: 0 <= j < |path| && path[j].List? ==> ValidLoc(s, path[j]) && Prev(s, path[j]) == At(path, j - 1))
            && (forall i, j :: 0 <= i < j < |path| ==> path[i] != path[j])
  {
    var s := g.labels[v.lab];
    var path := Chain(s, v.id);
    var k := LabelInv(g, v.lab);
    assert forall i, j {:trigger Before(path[i], path[j])} :: 0 <= i < j < |path| ==> Before(path[i], path[j]);
    forall j | 0 <= j < |path| && path[j].List? ensures ValidLoc(s, path[j]) && Prev(s, path[j]) == At(path, j - 1) {
      assert NodeOk(s, v.id, path, k, j);
    }
    forall i, j | 0 <= i < j < |path|
      ensures (path[i].Block? ==> path[j].Block?) && path[i] != path[j]
              && (path[i].List? && path[j].List? ==> path[i].part >= path[j].part)
    {
      assert Before(path[i], path[j]);
    }
    forall i, m, j | 0 <= i < m < j < |path| && path[i].List? && path[j].List? && path[i].part == path[j].part
      ensures path[m].List? && path[m].part == path[i].part
    {
      assert Before(path[i], path[m]) && Before(path[m], path[j]);
    }
  }

  // ---------------------------------------------------------------- ids shared between labels

  /** Edge ids come from one sequence per edge label. With edge 7 of label 1 and then edge 7 of
      label 2 between the same vertices, deleting the former tombstones the latter. */
  lemma SharedIdBreaksDelete(g0: Graph, a: VKey, b: VKey)
    requires GInv(g0) && Consistent(g0) && a != b && HasVertex(g0, a) && HasVertex(g0, b)
    requires g0.edges == map[]
    ensures |g0.labels[a.lab].parts| > 0 && |g0.labels[b.lab].parts| > 0
    ensures var g1 := Insert(g0, EKey(1, 7), a, b, 5, 0);
            && HasVertex(g1, a) && HasVertex(g1, b) && |g1.labels[a.lab].parts| > 0 && |g1.labels[b.lab].parts| > 0
            && var g2 := Insert(g1, EKey(2, 7), a, b, 5, 1);
            && GInv(g2) && Consistent(g2) && IsLive(g2, EKey(1, 7))
            && !Consistent(Delete(g2, EKey(1, 7), 6, 0))
  {
    PartsExist(g0, a);
    PartsExist(g0, b);
    var e1, e2 := EKey(1, 7), EKey(2, 7);
    var g1 := Insert(g0, e1, a, b, 5, 0);
    InsertConsistent(g0, g1, e1, a, b, 5, 0);
    PartsExist(g1, a);
    PartsExist(g1, b);
    var g2 := Insert(g1, e2, a, b, 5, 1);
    InsertConsistent(g1, g2, e2, a, b, 5, 1);
    InsertAdj(g1, g2, e2, a, b, 5, 1);
    var m := Entry0(e2, 0, b, 5, 1);
    assert Adj(g2, a)[0] == m && Hits(m, 7);
    DeleteConsistentIff(g2, e1, 6, 0);
  }
}
