/** Moving a vertex's edges to the vertex that replaces it under another label. */
module Migration {
  import opened AdjStore
  import opened AdjSteps
  import opened AdjCompact
  import opened AdjCompactAll
  import opened Graph
  import opened GraphRuns

  function EdgeOf(m: Member): EKey { EKey(m.elid, m.edge) }

  predicate Touches(r: EdgeRec, v: VKey) { r.start == v || r.end == v }

  function Rename(v: VKey, old_v: VKey, new_v: VKey): VKey {
    if v == old_v then new_v else v
  }

  /** The edge with the old vertex renamed; id and direction stay. */
  function Moved(r: EdgeRec, old_v: VKey, new_v: VKey): EdgeRec {
    EdgeRec(Rename(r.start, old_v, new_v), Rename(r.end, old_v, new_v), r.live)
  }

  /** Halfway through: `done` edges have moved, `gone` edges are deleted but not reinserted. */
  ghost predicate Mig(g0: Graph, g: Graph, old_v: VKey, new_v: VKey, done: set<EKey>, gone: set<EKey>) {
    && MigBase(g0, g, old_v, new_v)
    && MigEdges(g0, g, old_v, new_v, done, gone)
    && MigEntries(g0, g, old_v, done + gone)
    && Elsewhere(g0, g, new_v, done + gone)
  }

  ghost predicate MigBase(g0: Graph, g: Graph, old_v: VKey, new_v: VKey) {
    && Good(g0) && Good(g) && SameVertices(g0, g) && old_v != new_v
    && HasVertex(g0, old_v) && HasVertex(g0, new_v) && Adj(g0, new_v) == []
    && SamePath(g0, g, old_v)
  }

  ghost predicate MigEdges(g0: Graph, g: Graph, old_v: VKey, new_v: VKey, done: set<EKey>, gone: set<EKey>) {
    && done !! gone
    && (forall e :: e in done + gone ==> IsLive(g0, e) && Touches(g0.edges[e], old_v))
    && g.edges.Keys == g0.edges.Keys
    && (forall e {:trigger MigEdge(g0, g, old_v, new_v, done, gone, e)} ::
          e in g0.edges ==> MigEdge(g0, g, old_v, new_v, done, gone, e))
  }

  ghost predicate MigEntries(g0: Graph, g: Graph, old_v: VKey, taken: set<EKey>)
    requires HasVertex(g0, old_v) && HasVertex(g, old_v)
  {
    && |Adj(g, old_v)| == |Adj(g0, old_v)|
    && (forall i {:trigger MigEntry(g0, g, old_v, taken, i)} ::
          0 <= i < |Adj(g0, old_v)| ==> MigEntry(g0, g, old_v, taken, i))
  }

  ghost predicate MigEdge(g0: Graph, g: Graph, old_v: VKey, new_v: VKey, done: set<EKey>, gone: set<EKey>, e: EKey)
    requires e in g0.edges
  {
    e in g.edges && g.edges[e] ==
      (if e in done then Moved(g0.edges[e], old_v, new_v)
       else if e in gone then g0.edges[e].(live := false) else g0.edges[e])
  }

  ghost predicate MigEntry(g0: Graph, g: Graph, old_v: VKey, taken: set<EKey>, i: nat)
    requires HasVertex(g0, old_v) && HasVertex(g, old_v)
    requires i < |Adj(g0, old_v)| == |Adj(g, old_v)|
  {
    var m0, m := Adj(g0, old_v)[i], Adj(g, old_v)[i];
    KeyOf(m) == KeyOf(m0) && (m.Live() <==> m0.Live() && EdgeOf(m0) !in taken)
  }

  // ---------------------------------------------------------------- what other vertices see

  predicate Kept(m0: Member, m: Member, taken: set<EKey>) {
    m == m0 || (EdgeOf(m0) in taken && m0.Live() && !m.Live() && m == m0.(xmax := m.xmax, cmax := m.cmax))
  }

  /** New entries of the edges taken stand in front; behind them every old entry is in its place, and
      only live ones of the edges taken have been stamped. */
  ghost predicate Extends(a0: seq<Member>, a: seq<Member>, taken: set<EKey>) {
    && |a0| <= |a|
    && (forall i :: 0 <= i < |a| - |a0| ==> EdgeOf(a[i]) in taken)
    && (forall i {:trigger a0[i]} :: 0 <= i < |a0| ==> Kept(a0[i], a[|a| - |a0| + i], taken))
  }

  lemma ExtendsTransitive(a0: seq<Member>, a: seq<Member>, b: seq<Member>, s: set<EKey>, t: set<EKey>)
    requires Extends(a0, a, s) && Extends(a, b, t)
    ensures Extends(a0, b, s + t)
  {
    var k, n := |b| - |a|, |b| - |a0|;
    forall i | 0 <= i < n ensures EdgeOf(b[i]) in s + t {
      if i >= k { assert Kept(a[i - k], b[i], t); }
    }
    forall i | 0 <= i < |a0| ensures Kept(a0[i], b[n + i], s + t) {
      assert Kept(a0[i], a[|a| - |a0| + i], s) && Kept(a[|a| - |a0| + i], b[n + i], t);
    }
  }

  ghost predicate NoEnd(g: Graph, taken: set<EKey>, u: VKey) {
    forall e :: e in taken && e in g.edges ==> !Touches(g.edges[e], u)
  }

  /** Every adjacency is extended by entries of the edges taken only, and is the same at every vertex
      that is no end of one, the new vertex aside. */
  ghost predicate Elsewhere(g0: Graph, g: Graph, new_v: VKey, taken: set<EKey>)
    requires SameVertices(g0, g)
  {
    forall u {:trigger SeenAt(g0, g, new_v, taken, u)} :: HasVertex(g0, u) ==> SeenAt(g0, g, new_v, taken, u)
  }

  ghost predicate SeenAt(g0: Graph, g: Graph, new_v: VKey, taken: set<EKey>, u: VKey)
    requires HasVertex(g0, u) && HasVertex(g, u)
  {
    && Extends(Adj(g0, u), Adj(g, u), taken)
    && (u != new_v && NoEnd(g0, taken, u) ==> Adj(g, u) == Adj(g0, u))
  }

  /** One delete or insert of edge e with the ends of r, seen from every vertex. */
  ghost predicate OneEdge(g: Graph, g': Graph, e: EKey, r: EdgeRec)
    requires SameVertices(g, g')
  {
    forall u {:trigger HasVertex(g, u)} :: HasVertex(g, u) ==>
      && Extends(Adj(g, u), Adj(g', u), {e})
      && (!Touches(r, u) ==> Adj(g', u) == Adj(g, u))
  }

  lemma ElsewhereNext(g0: Graph, g: Graph, g': Graph, new_v: VKey, taken: set<EKey>, e: EKey, r: EdgeRec)
    requires SameVertices(g0, g) && Elsewhere(g0, g, new_v, taken) && SameVertices(g, g') && OneEdge(g, g', e, r)
    requires e in g0.edges && forall u :: u != new_v && Touches(r, u) ==> Touches(g0.edges[e], u)
    ensures SameVertices(g0, g') && Elsewhere(g0, g', new_v, taken + {e})
  {
    forall u | HasVertex(g0, u) ensures SeenAt(g0, g', new_v, taken + {e}, u) {
      assert SeenAt(g0, g, new_v, taken, u) && HasVertex(g, u);
      ExtendsTransitive(Adj(g0, u), Adj(g, u), Adj(g', u), taken, {e});
      assert NoEnd(g0, taken + {e}, u) ==> NoEnd(g0, taken, u) && !Touches(g0.edges[e], u);
    }
  }

  lemma SameExtends(a: seq<Member>, taken: set<EKey>)
    ensures Extends(a, a, taken)
  {
  }

  lemma DeleteElsewhere(g: Graph, g': Graph, e: EKey, x: nat, c: nat)
    requires Good(g) && Good(g') && IsLive(g, e) && x > 0 && g' == Delete(g, e, x, c) && SameVertices(g, g')
    ensures OneEdge(g, g', e, g.edges[e])
  {
    DeleteAdj(g, g', e, x, c);
    forall u | HasVertex(g, u)
      ensures Extends(Adj(g, u), Adj(g', u), {e}) && (!Touches(g.edges[e], u) ==> Adj(g', u) == Adj(g, u))
    {
      if Touches(g.edges[e], u) {
        DeleteExtends(g, g', u, e, x, c);
      } else {
        SameExtends(Adj(g, u), {e});
      }
    }
  }

  lemma DeleteExtends(g: Graph, g': Graph, u: VKey, e: EKey, x: nat, c: nat)
    requires Good(g) && Good(g') && IsLive(g, e) && x > 0 && g' == Delete(g, e, x, c)
    requires HasVertex(g, u) && HasVertex(g', u) && Touches(g.edges[e], u)
    ensures Extends(Adj(g, u), Adj(g', u), {e})
  {
    DeleteLength(g, g', u, e, x, c);
    forall i | 0 <= i < |Adj(g, u)| ensures Kept(Adj(g, u)[i], Adj(g', u)[i], {e}) {
      DeleteEntries(g, g', u, e, x, c, i);
      DeleteStamps(g, g', u, e, x, c, i);
    }
  }

  lemma DeleteStamps(g: Graph, g': Graph, u: VKey, e: EKey, x: nat, c: nat, i: nat)
    requires GInv(g) && IsLive(g, e) && x > 0 && g' == Delete(g, e, x, c) && HasVertex(g, u) && HasVertex(g', u)
    requires Touches(g.edges[e], u) && i < |Adj(g, u)| == |Adj(g', u)|
    ensures var m, m' := Adj(g, u)[i], Adj(g', u)[i];
      m' == m || (m.Live() && !m'.Live() && m' == m.(xmax := x, cmax := c))
  {
    var r := g.edges[e];
    DeleteAdj(g, g', e, x, c);
    KillIndex(Adj(g, u), e.id, x, c, i);
    if r.start == r.end {
      KillIndex(Kill(Adj(g, u), e.id, x, c), e.id, x, c, i);
    }
  }

  lemma InsertElsewhere(g: Graph, g': Graph, e: EKey, s: VKey, t: VKey, x: nat, c: nat)
    requires LInv(g) && HasVertex(g, s) && HasVertex(g, t) && SameVertices(g, g')
    requires |g.labels[s.lab].parts| > 0 && |g.labels[t.lab].parts| > 0 && g' == Insert(g, e, s, t, x, c)
    ensures OneEdge(g, g', e, EdgeRec(s, t, true))
  {
    InsertAdj(g, g', e, s, t, x, c);
    forall u | HasVertex(g, u)
      ensures Extends(Adj(g, u), Adj(g', u), {e}) && (u != s && u != t ==> Adj(g', u) == Adj(g, u))
    {
      EntriesInFront(e, s, t, x, c, u, Adj(g, u));
    }
  }

  lemma EntriesInFront(e: EKey, s: VKey, t: VKey, x: nat, c: nat, u: VKey, a: seq<Member>)
    ensures Extends(a, NewEntries(e, s, t, x, c, u) + a, {e})
    ensures u != s && u != t ==> NewEntries(e, s, t, x, c, u) + a == a
  {
    var front := NewEntries(e, s, t, x, c, u);
    assert forall i :: 0 <= i < |front| ==> EdgeOf(front[i]) == e;
  }

  // ---------------------------------------------------------------- the invariant

  lemma MigStart(g0: Graph, old_v: VKey, new_v: VKey)
    requires Good(g0) && old_v != new_v && HasVertex(g0, old_v) && HasVertex(g0, new_v) && Adj(g0, new_v) == []
    ensures Mig(g0, g0, old_v, new_v, {}, {})
  {
    forall e | e in g0.edges ensures MigEdge(g0, g0, old_v, new_v, {}, {}, e) {}
    forall i | 0 <= i < |Adj(g0, old_v)| ensures MigEntry(g0, g0, old_v, {}, i) {}
    var none: set<EKey> := {};
    assert none + none == none;
    forall u | HasVertex(g0, u) ensures SeenAt(g0, g0, new_v, none, u) { SameExtends(Adj(g0, u), none); }
  }

  /** A live entry of the old vertex stands for a live edge at it that is neither done nor gone. */
  lemma LiveEntry(g0: Graph, g: Graph, old_v: VKey, new_v: VKey, done: set<EKey>, gone: set<EKey>, i: nat)
    requires Mig(g0, g, old_v, new_v, done, gone) && i < |Adj(g, old_v)| && Adj(g, old_v)[i].Live()
    ensures var m := Adj(g, old_v)[i]; var e := EdgeOf(m);
            && e !in done + gone && IsLive(g0, e) && IsLive(g, e) && g.edges[e] == g0.edges[e]
            && Touches(g.edges[e], old_v) && Belongs(g, old_v, KeyOf(m))
  {
    var m := Adj(g, old_v)[i];
    assert MigEntry(g0, g, old_v, done + gone, i);
    CountPositive(Adj(g, old_v), i);
    assert Agrees(g, old_v, KeyOf(m));
    assert MigEdge(g0, g, old_v, new_v, done, gone, EdgeOf(m));
  }

  lemma {:induction false} KillIndex(ms: seq<Member>, edge: nat, x: nat, c: nat, i: nat)
    requires i < |ms|
    ensures |Kill(ms, edge, x, c)| == |ms|
    ensures var k := Kill(ms, edge, x, c)[i];
            k == ms[i] || (Hits(ms[i], edge) && k == ms[i].(xmax := x, cmax := c))
  {
    KillLength(ms, edge, x, c);
    if Hits(ms[0], edge) {
    } else if i > 0 {
      KillIndex(ms[1..], edge, x, c, i - 1);
    }
  }

  /** Deleting an edge of the old vertex stamps only that edge's entries there. */
  lemma DeleteEntries(g: Graph, g': Graph, v: VKey, e: EKey, x: nat, c: nat, i: nat)
    requires Good(g) && Good(g') && IsLive(g, e) && Touches(g.edges[e], v) && x > 0 && g' == Delete(g, e, x, c)
    requires HasVertex(g, v) && HasVertex(g', v) && i < |Adj(g, v)|
    ensures |Adj(g', v)| == |Adj(g, v)|
    ensures var m, m' := Adj(g, v)[i], Adj(g', v)[i];
            KeyOf(m') == KeyOf(m) && (m'.Live() <==> m.Live() && EdgeOf(m) != e)
  {
    var r := g.edges[e];
    DeleteAdj(g, g', e, x, c);
    KillIndex(Adj(g, v), e.id, x, c, i);
    if r.start == r.end {
      KillIndex(Kill(Adj(g, v), e.id, x, c), e.id, x, c, i);
    }
    var m, m' := Adj(g, v)[i], Adj(g', v)[i];
    if m'.Live() {
      CountPositive(Adj(g', v), i);
      assert Agrees(g', v, KeyOf(m'));
    }
    if m.Live() {
      CountPositive(Adj(g, v), i);
      assert Agrees(g, v, KeyOf(m));
    }
  }

  /** What deleting an edge of u does, as far as u can see. */
  ghost predicate Deleted(g: Graph, g': Graph, e: EKey, u: VKey) {
    && Good(g') && SamePaths(g, g') && e in g.edges && HasVertex(g, u)
    && g'.edges == g.edges[e := g.edges[e].(live := false)]
    && OneEdge(g, g', e, g.edges[e])
    && |Adj(g', u)| == |Adj(g, u)|
    && (forall i {:trigger DeletedEntry(g, g', e, u, i)} :: 0 <= i < |Adj(g, u)| ==> DeletedEntry(g, g', e, u, i))
  }

  ghost predicate DeletedEntry(g: Graph, g': Graph, e: EKey, u: VKey, i: nat)
    requires HasVertex(g, u) && HasVertex(g', u) && i < |Adj(g, u)| == |Adj(g', u)|
  {
    var m, m' := Adj(g, u)[i], Adj(g', u)[i];
    KeyOf(m') == KeyOf(m) && (m'.Live() <==> m.Live() && EdgeOf(m) != e)
  }

  lemma DeleteFacts(g: Graph, g': Graph, e: EKey, x: nat, c: nat, u: VKey)
    requires Good(g) && IsLive(g, e) && Touches(g.edges[e], u) && x > 0 && g' == Delete(g, e, x, c) && HasVertex(g, u)
    ensures Deleted(g, g', e, u)
  {
    DeleteGood(g, g', e, x, c);
    DeleteAdj(g, g', e, x, c);
    DeleteElsewhere(g, g', e, x, c);
    DeleteLength(g, g', u, e, x, c);
    forall i | 0 <= i < |Adj(g, u)| ensures DeletedEntry(g, g', e, u, i) {
      DeleteEntries(g, g', u, e, x, c, i);
    }
  }

  lemma MigDelete(g0: Graph, g: Graph, g': Graph, old_v: VKey, new_v: VKey, done: set<EKey>, gone: set<EKey>, e: EKey)
    requires Mig(g0, g, old_v, new_v, done, gone) && e !in done + gone
    requires IsLive(g0, e) && Touches(g0.edges[e], old_v) && Deleted(g, g', e, old_v) && g.edges[e] == g0.edges[e]
    ensures Mig(g0, g', old_v, new_v, done, gone + {e})
  {
    MigDeleteBase(g0, g, g', old_v, new_v, e);
    MigDeleteEdges(g0, g, g', old_v, new_v, done, gone, e);
    MigDeleteEntries(g0, g, g', old_v, done + gone, e);
    ElsewhereNext(g0, g, g', new_v, done + gone, e, g.edges[e]);
    TakenMore(done, gone, e);
  }

  lemma TakenMore(done: set<EKey>, gone: set<EKey>, e: EKey)
    ensures done + (gone + {e}) == done + gone + {e}
    ensures e in gone ==> (done + {e}) + (gone - {e}) == done + gone
  {
  }

  lemma MigDeleteBase(g0: Graph, g: Graph, g': Graph, old_v: VKey, new_v: VKey, e: EKey)
    requires MigBase(g0, g, old_v, new_v) && Deleted(g, g', e, old_v)
    ensures MigBase(g0, g', old_v, new_v)
  {
    SamePathTransitive(g0, g, g', old_v);
  }

  lemma MigDeleteEdges(g0: Graph, g: Graph, g': Graph, old_v: VKey, new_v: VKey, done: set<EKey>, gone: set<EKey>, e: EKey)
    requires MigEdges(g0, g, old_v, new_v, done, gone) && e !in done + gone
    requires IsLive(g0, e) && e in g.edges && g.edges[e] == g0.edges[e] && Touches(g0.edges[e], old_v)
    requires g'.edges == g.edges[e := g.edges[e].(live := false)]
    ensures MigEdges(g0, g', old_v, new_v, done, gone + {e})
  {
    var gone' := gone + {e};
    forall f | f in g0.edges ensures MigEdge(g0, g', old_v, new_v, done, gone', f) {
      assert MigEdge(g0, g, old_v, new_v, done, gone, f);
    }
  }

  lemma MigDeleteEntries(g0: Graph, g: Graph, g': Graph, old_v: VKey, taken: set<EKey>, e: EKey)
    requires HasVertex(g0, old_v) && HasVertex(g, old_v) && MigEntries(g0, g, old_v, taken)
    requires Deleted(g, g', e, old_v)
    ensures HasVertex(g', old_v) && MigEntries(g0, g', old_v, taken + {e})
  {
    var taken' := taken + {e};
    forall i | 0 <= i < |Adj(g0, old_v)| ensures MigEntry(g0, g', old_v, taken', i) {
      assert MigEntry(g0, g, old_v, taken, i) && DeletedEntry(g, g', e, old_v, i);
    }
  }

  lemma DeleteLength(g: Graph, g': Graph, v: VKey, e: EKey, x: nat, c: nat)
    requires GInv(g) && IsLive(g, e) && Touches(g.edges[e], v) && g' == Delete(g, e, x, c)
    requires HasVertex(g, v) && HasVertex(g', v)
    ensures |Adj(g', v)| == |Adj(g, v)|
  {
    var r := g.edges[e];
    DeleteAdj(g, g', e, x, c);
    KillLength(Adj(g, v), e.id, x, c);
    KillLength(Kill(Adj(g, v), e.id, x, c), e.id, x, c);
  }

  /** Nothing touches the new vertex to begin with. */
  lemma NewUntouched(g0: Graph, new_v: VKey, e: EKey)
    requires Good(g0) && HasVertex(g0, new_v) && Adj(g0, new_v) == [] && IsLive(g0, e)
    ensures !Touches(g0.edges[e], new_v)
  {
    var r := g0.edges[e];
    var key := if r.start == new_v then Key(e, 0, r.end) else Key(e, 1, r.start);
    assert Agrees(g0, new_v, key);
  }

  lemma MigFree(g0: Graph, g: Graph, old_v: VKey, new_v: VKey, done: set<EKey>, gone: set<EKey>, e: EKey)
    requires Mig(g0, g, old_v, new_v, done, gone) && e in gone
    ensures FreeId(g, e.id)
  {
    forall f | IsLive(g, f) ensures f.id != e.id {
      assert MigEdge(g0, g, old_v, new_v, done, gone, f);
      assert MigEdge(g0, g, old_v, new_v, done, gone, e);
      assert IsLive(g0, f) && IsLive(g0, e);
    }
  }

  /** What inserting an edge elsewhere does, as far as u can see. */
  ghost predicate Inserted(g: Graph, g': Graph, e: EKey, r: EdgeRec, u: VKey) {
    && Good(g') && SameVertices(g, g') && HasVertex(g, u) && r.live
    && g'.edges == g.edges[e := r]
    && OneEdge(g, g', e, r)
    && Adj(g', u) == Adj(g, u) && SamePath(g, g', u)
  }

  lemma InsertFacts(g: Graph, g': Graph, e: EKey, s: VKey, t: VKey, x: nat, c: nat, u: VKey)
    requires Good(g) && FreeId(g, e.id) && HasVertex(g, u) && u != s && u != t && HasVertex(g, s) && HasVertex(g, t)
    requires |g.labels[s.lab].parts| > 0 && |g.labels[t.lab].parts| > 0 && g' == Insert(g, e, s, t, x, c)
    ensures Inserted(g, g', e, EdgeRec(s, t, true), u)
  {
    InsertGood(g, g', e, s, t, x, c);
    InsertElsewhere(g, g', e, s, t, x, c);
    InsertAdj(g, g', e, s, t, x, c);
    assert NewEntries(e, s, t, x, c, u) == [];
    InsertChain(g, g', e, s, t, x, c, u);
  }

  lemma MigInsert(g0: Graph, g: Graph, g': Graph, old_v: VKey, new_v: VKey, done: set<EKey>, gone: set<EKey>, e: EKey)
    requires Mig(g0, g, old_v, new_v, done, gone) && e in gone && e in g0.edges
    requires Inserted(g, g', e, Moved(g0.edges[e], old_v, new_v), old_v)
    ensures Mig(g0, g', old_v, new_v, done + {e}, gone - {e})
  {
    SamePathTransitive(g0, g, g', old_v);
    MigInsertEdges(g0, g, g', old_v, new_v, done, gone, e);
    ElsewhereNext(g0, g, g', new_v, done + gone, e, Moved(g0.edges[e], old_v, new_v));
    assert done + gone + {e} == done + gone;
    TakenMore(done, gone, e);
    MigSameEntries(g0, g, g', old_v, done + gone);
  }

  lemma MigSameEntries(g0: Graph, g: Graph, g': Graph, old_v: VKey, taken: set<EKey>)
    requires HasVertex(g0, old_v) && HasVertex(g, old_v) && HasVertex(g', old_v) && MigEntries(g0, g, old_v, taken)
    requires Adj(g', old_v) == Adj(g, old_v)
    ensures MigEntries(g0, g', old_v, taken)
  {
    forall i | 0 <= i < |Adj(g0, old_v)| ensures MigEntry(g0, g', old_v, taken, i) {
      assert MigEntry(g0, g, old_v, taken, i);
    }
  }

  lemma MigInsertEdges(g0: Graph, g: Graph, g': Graph, old_v: VKey, new_v: VKey, done: set<EKey>, gone: set<EKey>, e: EKey)
    requires MigEdges(g0, g, old_v, new_v, done, gone) && e in gone && e in g0.edges
    requires g'.edges == g.edges[e := Moved(g0.edges[e], old_v, new_v)]
    ensures MigEdges(g0, g', old_v, new_v, done + {e}, gone - {e})
  {
    var done', gone' := done + {e}, gone - {e};
    forall f | f in g0.edges ensures MigEdge(g0, g', old_v, new_v, done', gone', f) {
      assert MigEdge(g0, g, old_v, new_v, done, gone, f);
    }
  }

  /** An insert elsewhere leaves the old vertex's chain in place. */
  lemma InsertChain(g: Graph, g': Graph, e: EKey, s: VKey, t: VKey, x: nat, c: nat, u: VKey)
    requires LInv(g) && HasVertex(g, s) && HasVertex(g, t) && HasVertex(g, u) && u != s && u != t
    requires |g.labels[s.lab].parts| > 0 && |g.labels[t.lab].parts| > 0 && g' == Insert(g, e, s, t, x, c)
    ensures HasVertex(g', u) && SamePath(g, g', u)
  {
    var g1 := g.(edges := g.edges[e := EdgeRec(s, t, true)]);
    var m0, m1 := Entry0(e, 0, t, x, c), Entry0(e, 1, s, x, c);
    var g2 := PushV(g1, s, m0);
    PushChainElsewhere(g1, g2, s, m0, u);
    PushVKeeps(g1, g2, s, m0);
    PartsExist(g2, t);
    PushChainElsewhere(g2, g', t, m1, u);
  }

  lemma PushChainElsewhere(g: Graph, g': Graph, v: VKey, m: Member, u: VKey)
    requires LInv(g) && HasVertex(g, v) && HasVertex(g, u) && u != v
    requires |g.labels[v.lab].parts| > 0 && g' == PushV(g, v, m)
    ensures HasVertex(g', u) && SamePath(g, g', u)
  {
    if u.lab == v.lab {
      var k := LabelInv(g, v.lab);
      PushKeeps(g.labels[v.lab], g'.labels[v.lab], v.id, m, k);
      PathFromLengths(g, g', u);
    }
  }

  function AfterMove(r: EdgeRec, old_v: VKey, new_v: VKey): EdgeRec {
    if r.live && Touches(r, old_v) then Moved(r, old_v, new_v) else r
  }

  function MovedEdges(g0: Graph, old_v: VKey): set<EKey> {
    set e | e in g0.edges && g0.edges[e].live && Touches(g0.edges[e], old_v)
  }

  /** The result: the same live graph with the old vertex renamed, its old chain all tombstones, and
      elsewhere nothing but stamps on entries of moved edges and new entries of theirs in front. */
  ghost predicate Migrated(g0: Graph, g: Graph, old_v: VKey, new_v: VKey) {
    && Good(g) && SameVertices(g0, g) && HasVertex(g0, old_v)
    && g.edges.Keys == g0.edges.Keys
    && (forall e :: e in g0.edges ==> g.edges[e] == AfterMove(g0.edges[e], old_v, new_v))
    && (forall m :: m in Adj(g, old_v) ==> !m.Live())
    && Elsewhere(g0, g, new_v, MovedEdges(g0, old_v))
  }

  /** In so many words: a live edge stays live under its id, each end is where it was unless it was the
      old vertex, which is now the new one; every other edge is as it was. */
  lemma MigratedMeans(g0: Graph, g: Graph, old_v: VKey, new_v: VKey, e: EKey)
    requires Migrated(g0, g, old_v, new_v) && e in g0.edges
    ensures e in g.edges && g.edges[e].live == g0.edges[e].live
    ensures g0.edges[e].live ==>
      && g.edges[e].start == (if g0.edges[e].start == old_v then new_v else g0.edges[e].start)
      && g.edges[e].end == (if g0.edges[e].end == old_v then new_v else g0.edges[e].end)
    ensures !g0.edges[e].live || (g0.edges[e].start != old_v && g0.edges[e].end != old_v) ==> g.edges[e] == g0.edges[e]
  {
  }

  lemma MigEnd(g0: Graph, g: Graph, old_v: VKey, new_v: VKey, done: set<EKey>)
    requires Mig(g0, g, old_v, new_v, done, {})
    requires forall i :: 0 <= i < |Adj(g, old_v)| ==> !Adj(g, old_v)[i].Live()
    ensures Migrated(g0, g, old_v, new_v)
  {
    forall e | e in g0.edges
      ensures g.edges[e] == AfterMove(g0.edges[e], old_v, new_v)
    {
      assert MigEdge(g0, g, old_v, new_v, done, {}, e);
      var r := g0.edges[e];
      if r.live && Touches(r, old_v) && e !in done {
        var key := if r.start == old_v then Key(e, 0, r.end) else Key(e, 1, r.start);
        assert Agrees(g, old_v, key);
        var i := CountWitness(Adj(g, old_v), key);
      }
    }
    var none: set<EKey> := {};
    assert done + none == done;
    ElsewhereMore(g0, g, new_v, done, MovedEdges(g0, old_v));
  }

  lemma ElsewhereMore(g0: Graph, g: Graph, new_v: VKey, s: set<EKey>, t: set<EKey>)
    requires SameVertices(g0, g) && Elsewhere(g0, g, new_v, s) && s <= t
    ensures Elsewhere(g0, g, new_v, t)
  {
    forall u | HasVertex(g0, u) ensures SeenAt(g0, g, new_v, t, u) {
      assert SeenAt(g0, g, new_v, s, u);
      ExtendsMore(Adj(g0, u), Adj(g, u), s, t);
      assert NoEnd(g0, t, u) ==> NoEnd(g0, s, u);
    }
  }

  lemma ExtendsMore(a0: seq<Member>, a: seq<Member>, s: set<EKey>, t: set<EKey>)
    requires Extends(a0, a, s) && s <= t
    ensures Extends(a0, a, t)
  {
    forall i | 0 <= i < |a0| ensures Kept(a0[i], a[|a| - |a0| + i], t) {
      assert Kept(a0[i], a[|a| - |a0| + i], s);
    }
  }

  // ---------------------------------------------------------------- when it fails

  /** Two live entries of one edge in one arraylist block: a self-loop compacted together. */
  ghost predicate ClashIn(ms: seq<Member>) {
    exists i, j :: 0 <= i < j < |ms| && ms[i].Live() && ms[j].Live() && EdgeOf(ms[i]) == EdgeOf(ms[j])
  }

  ghost predicate Clash(g: Graph, v: VKey)
    requires HasVertex(g, v)
  {
    var s := g.labels[v.lab];
    exists l :: l in Chain(s, v.id) && l.Block? && ClashIn(MembersAt(s, l))
  }

  lemma {:induction false} CountTwo(ms: seq<Member>, i: nat, j: nat)
    requires i < j < |ms| && ms[i].Live() && ms[j].Live() && KeyOf(ms[i]) == KeyOf(ms[j])
    ensures Count(ms, KeyOf(ms[i])) >= 2
  {
    if i > 0 {
      CountTwo(ms[1..], i - 1, j - 1);
    } else {
      CountPositive(ms[1..], j - 1);
    }
  }

  /** Of one edge a vertex holds at most two live entries. */
  lemma AtMostTwo(g: Graph, v: VKey, a: nat, i: nat, j: nat)
    requires Consistent(g) && HasVertex(g, v) && a < i < j < |Adj(g, v)|
    requires var ms := Adj(g, v); ms[a].Live() && ms[i].Live() && ms[j].Live()
    ensures var ms := Adj(g, v); !(EdgeOf(ms[a]) == EdgeOf(ms[i]) == EdgeOf(ms[j]))
  {
    var ms := Adj(g, v);
    CountPositive(ms, a);
    CountPositive(ms, i);
    CountPositive(ms, j);
    assert Agrees(g, v, KeyOf(ms[a])) && Agrees(g, v, KeyOf(ms[i])) && Agrees(g, v, KeyOf(ms[j]));
    if KeyOf(ms[a]) == KeyOf(ms[i]) { CountTwo(ms, a, i); }
    if KeyOf(ms[a]) == KeyOf(ms[j]) { CountTwo(ms, a, j); }
    if KeyOf(ms[i]) == KeyOf(ms[j]) { CountTwo(ms, i, j); }
  }

  /** `done` is the set of edges of the live entries before position n. */
  ghost predicate DoneUpTo(g0: Graph, old_v: VKey, done: set<EKey>, n: nat)
    requires HasVertex(g0, old_v)
  {
    && n <= |Adj(g0, old_v)|
    && (forall e :: e in done ==> exists i :: 0 <= i < n && Adj(g0, old_v)[i].Live() && EdgeOf(Adj(g0, old_v)[i]) == e)
    && (forall i :: 0 <= i < n && Adj(g0, old_v)[i].Live() ==> EdgeOf(Adj(g0, old_v)[i]) in done)
  }

  /** A block clashes when the walk reaches it exactly when it clashed at the start. */
  lemma ClashStable(g0: Graph, g: Graph, old_v: VKey, new_v: VKey, done: set<EKey>, n: nat, len: nat)
    requires Mig(g0, g, old_v, new_v, done, {}) && DoneUpTo(g0, old_v, done, n) && n + len <= |Adj(g0, old_v)|
    ensures ClashIn(Adj(g, old_v)[n..n + len]) <==> ClashIn(Adj(g0, old_v)[n..n + len])
  {
    var a0, a := Adj(g0, old_v), Adj(g, old_v);
    TakenNone(done);
    forall i | n <= i < n + len ensures EdgeOf(a[i]) == EdgeOf(a0[i]) && (a[i].Live() <==> a0[i].Live() && EdgeOf(a0[i]) !in done) {
      assert MigEntry(g0, g, old_v, done, i);
    }
    forall i, j | n <= i < j < n + len && a0[i].Live() && a0[j].Live() && EdgeOf(a0[i]) == EdgeOf(a0[j])
      ensures EdgeOf(a0[i]) !in done
    {
      NotDone(g0, old_v, done, n, i, j);
    }
    SameClash(a0, a, done, n, len);
  }

  lemma TakenNone(done: set<EKey>)
    ensures done + {} == done
  {
  }

  lemma SameClash(a0: seq<Member>, a: seq<Member>, done: set<EKey>, n: nat, len: nat)
    requires n + len <= |a0| == |a|
    requires forall i :: n <= i < n + len ==>
               EdgeOf(a[i]) == EdgeOf(a0[i]) && (a[i].Live() <==> a0[i].Live() && EdgeOf(a0[i]) !in done)
    requires forall i, j :: n <= i < j < n + len && a0[i].Live() && a0[j].Live() && EdgeOf(a0[i]) == EdgeOf(a0[j])
               ==> EdgeOf(a0[i]) !in done
    ensures ClashIn(a[n..n + len]) <==> ClashIn(a0[n..n + len])
  {
    var b0, b := a0[n..n + len], a[n..n + len];
    if i, j :| 0 <= i < j < |b| && b[i].Live() && b[j].Live() && EdgeOf(b[i]) == EdgeOf(b[j]) {
      assert b[i] == a[n + i] && b[j] == a[n + j];
      assert b0[i].Live() && b0[j].Live() && EdgeOf(b0[i]) == EdgeOf(b0[j]);
    }
    if i, j :| 0 <= i < j < |b0| && b0[i].Live() && b0[j].Live() && EdgeOf(b0[i]) == EdgeOf(b0[j]) {
      assert b0[i] == a0[n + i] && b0[j] == a0[n + j];
      assert b[i].Live() && b[j].Live() && EdgeOf(b[i]) == EdgeOf(b[j]);
    }
  }

  lemma NotDone(g0: Graph, old_v: VKey, done: set<EKey>, n: nat, i: nat, j: nat)
    requires Consistent(g0) && HasVertex(g0, old_v) && DoneUpTo(g0, old_v, done, n) && n <= i < j < |Adj(g0, old_v)|
    requires var a := Adj(g0, old_v); a[i].Live() && a[j].Live() && EdgeOf(a[i]) == EdgeOf(a[j])
    ensures EdgeOf(Adj(g0, old_v)[i]) !in done
  {
    var a := Adj(g0, old_v);
    if EdgeOf(a[i]) in done {
      var h :| 0 <= h < n && a[h].Live() && EdgeOf(a[h]) == EdgeOf(a[i]);
      AtMostTwo(g0, old_v, h, i, j);
    }
  }

  // ---------------------------------------------------------------- positions along the walk

  /** How many entries the first j records of v's chain hold. */
  ghost function Offset(g: Graph, v: VKey, j: nat): nat
    requires HasVertex(g, v) && j <= |Chain(g.labels[v.lab], v.id)|
  {
    |Members(g.labels[v.lab], Chain(g.labels[v.lab], v.id)[..j])|
  }

  lemma OffsetStep(g: Graph, v: VKey, j: nat)
    requires HasVertex(g, v) && j < |Chain(g.labels[v.lab], v.id)|
    ensures var s := g.labels[v.lab]; var path := Chain(s, v.id);
            var n, ms := Offset(g, v, j), MembersAt(s, path[j]);
            && Offset(g, v, j + 1) == n + |ms| <= |Adj(g, v)|
            && Adj(g, v)[n..n + |ms|] == ms
  {
    var s := g.labels[v.lab];
    var path := Chain(s, v.id);
    MembersConcat(s, path[..j], [path[j]]);
    assert path[..j] + [path[j]] == path[..j + 1];
    MembersConcat(s, path[..j + 1], path[j + 1..]);
    assert path[..j + 1] + path[j + 1..] == path;
    assert Members(s, [path[j]]) == MembersAt(s, path[j]) + Members(s, [path[j]][1..]);
  }

  lemma {:induction false} OffsetSame(g0: Graph, g: Graph, v: VKey, j: nat)
    requires HasVertex(g0, v) && HasVertex(g, v) && SamePath(g0, g, v) && j <= |Chain(g0.labels[v.lab], v.id)|
    ensures Offset(g, v, j) == Offset(g0, v, j)
  {
    if j > 0 {
      OffsetSame(g0, g, v, j - 1);
      OffsetStep(g0, v, j - 1);
      OffsetStep(g, v, j - 1);
    } else {
      var path := Chain(g0.labels[v.lab], v.id);
      assert path[..0] == [];
    }
  }

  lemma OffsetEnd(g: Graph, v: VKey)
    requires HasVertex(g, v)
    ensures Offset(g, v, |Chain(g.labels[v.lab], v.id)|) == |Adj(g, v)|
  {
    var path := Chain(g.labels[v.lab], v.id);
    assert path[..|path|] == path;
  }

  /** The edges taken so far are those of the live entries ms[..i], and no two of these share one. */
  ghost predicate TakenFrom(ms: seq<Member>, i: nat, gone: set<EKey>) {
    && i <= |ms|
    && (forall e :: e in gone ==> exists h :: 0 <= h < i && ms[h].Live() && EdgeOf(ms[h]) == e)
    && (forall h :: 0 <= h < i && ms[h].Live() ==> EdgeOf(ms[h]) in gone)
    && !ClashIn(ms[..i])
  }

  lemma TakeNext(ms: seq<Member>, i: nat, gone: set<EKey>)
    requires TakenFrom(ms, i, gone) && i < |ms|
    ensures !ms[i].Live() ==> TakenFrom(ms, i + 1, gone)
    ensures ms[i].Live() && EdgeOf(ms[i]) !in gone ==> TakenFrom(ms, i + 1, gone + {EdgeOf(ms[i])})
    ensures ms[i].Live() && EdgeOf(ms[i]) in gone ==> ClashIn(ms)
  {
    if ms[i].Live() && EdgeOf(ms[i]) in gone {
      var h :| 0 <= h < i && ms[h].Live() && EdgeOf(ms[h]) == EdgeOf(ms[i]);
    } else {
      var i' := i + 1;
      forall a, b | 0 <= a < b < i' && ms[..i'][a].Live() && ms[..i'][b].Live()
        ensures EdgeOf(ms[..i'][a]) != EdgeOf(ms[..i'][b])
      {
        if b < i {
          assert ms[..i][a] == ms[..i'][a] && ms[..i][b] == ms[..i'][b];
        }
      }
      var gone' := if ms[i].Live() then gone + {EdgeOf(ms[i])} else gone;
      forall e | e in gone' ensures exists h :: 0 <= h < i + 1 && ms[h].Live() && EdgeOf(ms[h]) == e {
        if e in gone {
          var h :| 0 <= h < i && ms[h].Live() && EdgeOf(ms[h]) == e;
        } else {
          assert ms[i].Live() && EdgeOf(ms[i]) == e;
        }
      }
    }
  }

  /** After a record has been dealt with, `done` covers its entries too. */
  lemma DoneMore(g0: Graph, g: Graph, old_v: VKey, new_v: VKey, done: set<EKey>, gone: set<EKey>, n: nat, ms: seq<Member>)
    requires Mig(g0, g, old_v, new_v, done, {}) && DoneUpTo(g0, old_v, done, n)
    requires n + |ms| <= |Adj(g, old_v)| && ms == Adj(g, old_v)[n..n + |ms|] && TakenFrom(ms, |ms|, gone)
    ensures DoneUpTo(g0, old_v, done + gone, n + |ms|)
  {
    var a0, n' := Adj(g0, old_v), n + |ms|;
    TakenNone(done);
    forall i | n <= i < n' ensures EdgeOf(a0[i]) == EdgeOf(ms[i - n]) && (ms[i - n].Live() <==> a0[i].Live() && EdgeOf(a0[i]) !in done) {
      assert MigEntry(g0, g, old_v, done, i);
    }
    DoneBoth(a0, ms, n, done, gone);
  }

  lemma DoneBoth(a0: seq<Member>, ms: seq<Member>, n: nat, done: set<EKey>, gone: set<EKey>)
    requires n + |ms| <= |a0| && TakenFrom(ms, |ms|, gone)
    requires forall i :: n <= i < n + |ms| ==>
      EdgeOf(a0[i]) == EdgeOf(ms[i - n]) && (ms[i - n].Live() <==> a0[i].Live() && EdgeOf(a0[i]) !in done)
    requires forall e :: e in done ==> exists i :: 0 <= i < n && a0[i].Live() && EdgeOf(a0[i]) == e
    requires forall i :: 0 <= i < n && a0[i].Live() ==> EdgeOf(a0[i]) in done
    ensures forall e :: e in done + gone ==> exists i :: 0 <= i < n + |ms| && a0[i].Live() && EdgeOf(a0[i]) == e
    ensures forall i :: 0 <= i < n + |ms| && a0[i].Live() ==> EdgeOf(a0[i]) in done + gone
  {
    var n' := n + |ms|;
    forall e | e in done + gone ensures exists i :: 0 <= i < n' && a0[i].Live() && EdgeOf(a0[i]) == e {
      if e in done {
        var i :| 0 <= i < n && a0[i].Live() && EdgeOf(a0[i]) == e;
      } else {
        var h :| 0 <= h < |ms| && ms[h].Live() && EdgeOf(ms[h]) == e;
        assert a0[n + h].Live() && EdgeOf(a0[n + h]) == e;
      }
    }
    forall i | 0 <= i < n' && a0[i].Live() ensures EdgeOf(a0[i]) in done + gone {
      if i >= n && EdgeOf(a0[i]) !in done {
        assert ms[i - n].Live();
      }
    }
  }

  lemma AllDead(g0: Graph, g: Graph, old_v: VKey, new_v: VKey, done: set<EKey>)
    requires Mig(g0, g, old_v, new_v, done, {}) && DoneUpTo(g0, old_v, done, |Adj(g0, old_v)|)
    ensures Migrated(g0, g, old_v, new_v)
  {
    forall i | 0 <= i < |Adj(g, old_v)| ensures !Adj(g, old_v)[i].Live() {
      TakenNone(done);
      assert MigEntry(g0, g, old_v, done, i);
    }
    MigEnd(g0, g, old_v, new_v, done);
  }

  // ---------------------------------------------------------------- a run after which a move fails

  function LoopStart(e: EKey, v: VKey): Member { Entry0(e, 0, v, 5, 0) }

  function LoopEnd(e: EKey, v: VKey): Member { Entry0(e, 1, v, 5, 0) }

  /** The label's tables with one vertex and one self-loop in the first partition. */
  function LoopStore(e: EKey, v: VKey): Store {
    Store(map[v.id := List(0, 1)],
          [[ListRec(v.id, LoopStart(e, v), Nil, List(0, 1)), ListRec(v.id, LoopEnd(e, v), List(0, 0), Nil)]],
          [], [MetaRow(0, true, false)])
  }

  /** Compaction puts both entries of the self-loop into one block. */
  lemma LoopCompacted(e: EKey, v: VKey)
    ensures CompactLegal(LoopStore(e, v), true, 0, [v.id], 0)
    ensures var s := CompactStore(LoopStore(e, v), true, 0, [v.id], 0);
      && s.heads == map[v.id := Block(0)]
      && s.blocks == [BlockRec(v.id, [LoopStart(e, v), LoopEnd(e, v)], Nil, Nil, false)]
  {
    var s := LoopStore(e, v);
    var m := Rotate(s, 0);
    assert m.meta == [MetaRow(0, false, false), MetaRow(1, true, false)];
    assert m.parts == [s.parts[0], []];
    var recs := s.parts[0];
    assert Owners(recs) == {v.id} by { assert recs[0].owner == v.id; }
    assert IsOldest(m, 0) && Enumerates([v.id], Owners(m.parts[0]));
    LoopEntry(e, v);
    var c := CompactOwner(m, 0, v.id);
    assert Merged(m, EntryOf(recs, 0, v.id)) == [LoopStart(e, v), LoopEnd(e, v)];
    assert ChunkAdj([LoopStart(e, v), LoopEnd(e, v)], 0) == [LoopStart(e, v), LoopEnd(e, v)];
    assert c.blocks == [BlockRec(v.id, [LoopStart(e, v), LoopEnd(e, v)], Nil, Nil, false)];
    assert c.heads == map[v.id := Block(0)];
    assert [v.id][1..] == [];
    assert CompactOwners(m, 0, [v.id]) == c;
  }

  lemma LoopEntry(e: EKey, v: VKey)
    ensures EntryOf(LoopStore(e, v).parts[0], 0, v.id) == Entry([LoopStart(e, v), LoopEnd(e, v)], Nil, Nil)
  {
    var recs := LoopStore(e, v).parts[0];
    var one := recs[..1];
    assert one == [recs[0]] && one[..0] == [];
    assert EntryOf(one, 0, v.id) == Entry([LoopStart(e, v)], Nil, Nil);
  }

  /** In fresh tables: a vertex, an edge from it to itself, one compaction. From then on moving the
      vertex to another label fails. */
  lemma SelfLoopClashes(g0: Graph, e: EKey, v: VKey) returns (gs: seq<Graph>)
    requires Fresh(g0) && v.lab in g0.labels
    ensures Trace(gs, [NewVertex(v), InsertEdge(e, v, v, 5, 0), CompactList(v.lab, true, 0, [v.id], 0)])
    ensures gs[0] == g0 && Good(gs[3]) && HasVertex(gs[3], v) && Clash(gs[3], v)
  {
    var g1 := g0.(labels := g0.labels[v.lab := AddVertex(g0.labels[v.lab], v.id)]);
    FreshGood(g0);
    NewVertexAdj(g0, g1, v);
    PartsExist(g1, v);
    var g2 := Insert(g1, e, v, v, 5, 0);
    LoopInserted(g1, g2, e, v);
    LoopCompacted(e, v);
    var g3 := g2.(labels := g2.labels[v.lab := CompactStore(g2.labels[v.lab], true, 0, [v.id], 0)]);
    gs := [g0, g1, g2, g3];
    LoopTrace(gs, e, v);
    BlockClashes(g3, e, v);
  }

  lemma LoopTrace(gs: seq<Graph>, e: EKey, v: VKey)
    requires |gs| == 4 && Good(gs[0]) && gs[0].edges == map[]
    requires Step(gs[0], NewVertex(v), gs[1]) && Step(gs[1], InsertEdge(e, v, v, 5, 0), gs[2])
    requires Step(gs[2], CompactList(v.lab, true, 0, [v.id], 0), gs[3])
    ensures Trace(gs, [NewVertex(v), InsertEdge(e, v, v, 5, 0), CompactList(v.lab, true, 0, [v.id], 0)])
    ensures Good(gs[3])
  {
    RunGood(gs, [NewVertex(v), InsertEdge(e, v, v, 5, 0), CompactList(v.lab, true, 0, [v.id], 0)], 3);
  }

  lemma LoopInserted(g1: Graph, g2: Graph, e: EKey, v: VKey)
    requires HasVertex(g1, v) && g1.labels[v.lab] == Store(map[v.id := Nil], [[]], [], [MetaRow(0, true, false)])
    requires g2 == Insert(g1, e, v, v, 5, 0)
    ensures v.lab in g2.labels && g2.labels[v.lab] == LoopStore(e, v)
  {
    var s := g1.labels[v.lab];
    var s1 := Push(s, 0, v.id, LoopStart(e, v));
    assert s1.parts[0] == [ListRec(v.id, LoopStart(e, v), Nil, Nil)];
    assert s1.parts == [s1.parts[0]] && s1.heads == map[v.id := List(0, 0)];
    var s2 := Push(s1, 0, v.id, LoopEnd(e, v));
    assert s2.parts[0] == LoopStore(e, v).parts[0];
    assert s2.parts == LoopStore(e, v).parts && s2.heads == LoopStore(e, v).heads;
  }

  lemma BlockClashes(g: Graph, e: EKey, v: VKey)
    requires HasVertex(g, v) && g.labels[v.lab].heads[v.id] == Block(0)
    requires g.labels[v.lab].blocks == [BlockRec(v.id, [LoopStart(e, v), LoopEnd(e, v)], Nil, Nil, false)]
    ensures Clash(g, v)
  {
    var s := g.labels[v.lab];
    var path := [Block(0)];
    assert StepOk(s, path, 0);
    ChainIs(s, v.id, path);
    var ms := MembersAt(s, Block(0));
    assert ms[0].Live() && ms[1].Live() && EdgeOf(ms[0]) == EdgeOf(ms[1]);
    assert ClashIn(ms) && Block(0) in path;
  }
}
