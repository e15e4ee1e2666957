/** The graph as the DML functions see it: one set of tables per vertex label, and the edge
    tuples behind their phys_map. Vertex tuples and their liveness are not part of this model. */
module GraphDb {
  import opened AdjStore
  import opened AdjSteps
  import opened AdjCompact
  import opened AdjCompactAll
  import opened Graph
  import opened GraphRuns
  import opened Migration
  import opened Stamps
  import LabelTables

  lemma MovedEnds(g0: Graph, g: Graph, old_v: VKey, new_v: VKey, done: set<EKey>, gone: set<EKey>, e: EKey)
    requires Mig(g0, g, old_v, new_v, done, gone) && e in gone
    ensures e in g0.edges
    ensures var r := Moved(g0.edges[e], old_v, new_v);
            && r.live && r.start != old_v && r.end != old_v && HasVertex(g, r.start) && HasVertex(g, r.end)
  {
    assert IsLive(g0, e);
  }

  /** The entry names the far end, and the new vertex is nobody's end yet: the pair of vertices
      handed to the insert is the edge's own renamed pair. */
  lemma InsertArguments(g0: Graph, old_v: VKey, new_v: VKey, key: Key)
    requires Good(g0) && HasVertex(g0, new_v) && Adj(g0, new_v) == [] && old_v != new_v && Belongs(g0, old_v, key)
    ensures var r := Moved(g0.edges[key.edge], old_v, new_v);
            var far := if key.other == old_v then new_v else key.other;
            && (r.start == new_v ==> r.end == far)
            && (r.start != new_v ==> r.start == far && r.end == new_v)
  {
    NewUntouched(g0, new_v, key.edge);
  }

  /** An edge taken out of an arraylist block, waiting to be reinserted. */
  datatype Saved = Saved(e: EKey, r: EdgeRec, other: VKey)

  ghost predicate SavedOk(g0: Graph, old_v: VKey, gone: set<EKey>, s: Saved) {
    s.e in gone && s.e in g0.edges && s.r == g0.edges[s.e]
    && exists key: Key :: key.edge == s.e && key.other == s.other && Belongs(g0, old_v, key)
  }

  class GraphDb {
    var labels: map<nat, LabelTables.LabelTables>
    var edges: map<EKey, EdgeRec>

    ghost function Repr(): set<object>
      reads this
    {
      set l | l in labels :: labels[l]
    }

    ghost predicate Valid()
      reads this
    {
      && (forall l, m :: l in labels && m in labels && l != m ==> labels[l] != labels[m])
      && this !in Repr()
    }

    ghost function Abs(): Graph
      reads this, Repr()
    {
      Graph(map l | l in labels :: labels[l].Abs(), edges)
    }

    ghost predicate Ready()
      reads this, Repr()
    {
      Valid() && LInv(Abs())
    }

    /** insert_edge_one_direction in the tables of the owner's label. */
    method InsertOneDirection(owner: VKey, m: Member) returns (ok: bool)
      requires Ready()
      modifies Repr()
      ensures Ready() && labels == old(labels)
      ensures ok <==> HasVertex(old(Abs()), owner)
      ensures ok ==> |old(Abs()).labels[owner.lab].parts| > 0 && Abs() == PushV(old(Abs()), owner, m)
    {
      if owner.lab !in labels {
        return false;
      }
      var t := labels[owner.lab];
      ghost var g := Abs();
      ghost var k := LabelInv(g, owner.lab);
      ok := t.InsertOneDirection(owner.id, m, k);
      assert Abs().labels == g.labels[owner.lab := t.Abs()];
      if ok {
        PushVKeeps(g, Abs(), owner, m);
      } else {
        assert Abs() == g;
      }
    }

    /** np_delete_edge_from_adj_list in the tables of the vertex's label. */
    method DeleteFromAdj(v: VKey, edge: nat, x: nat, c: nat)
      requires Ready()
      modifies Repr()
      ensures Ready() && labels == old(labels)
      ensures Abs() == KillV(old(Abs()), v, edge, x, c)
    {
      if v.lab !in labels {
        return;
      }
      var t := labels[v.lab];
      ghost var g := Abs();
      ghost var k := LabelInv(g, v.lab);
      t.DeleteFromAdj(v.id, edge, x, c, k);
      assert Abs().labels == g.labels[v.lab := t.Abs()];
      Killed(g, Abs(), v, edge, x, c, k);
    }

    /** Write the edge tuple and its phys_map slot, or stamp it. */
    method SetEdge(e: EKey, r: EdgeRec)
      requires Ready()
      modifies this`edges
      ensures Ready() && Abs() == old(Abs()).(edges := old(edges)[e := r])
    {
      edges := edges[e := r];
      assert Abs().labels == old(Abs()).labels;
    }

    /** np_internal_insert_edge. A missing vertex raises an error and the transaction ends. */
    method InsertEdge(e: EKey, s: VKey, t: VKey, x: nat, c: nat) returns (ok: bool)
      requires Ready()
      modifies this`edges, Repr()
      ensures Ready() && labels == old(labels)
      ensures ok <==> HasVertex(old(Abs()), s) && HasVertex(old(Abs()), t)
      ensures ok ==> |old(Abs()).labels[s.lab].parts| > 0 && |old(Abs()).labels[t.lab].parts| > 0
                     && Abs() == Insert(old(Abs()), e, s, t, x, c)
    {
      ghost var g := Abs();
      SetEdge(e, EdgeRec(s, t, true));
      ghost var g1 := Abs();
      ok := InsertOneDirection(s, Entry0(e, 0, t, x, c));
      if ok {
        ghost var g2 := Abs();
        ok := InsertOneDirection(t, Entry0(e, 1, s, x, c));
        ghost var g3 := Abs();
        InsertSteps(g, g1, g2, g3, e, s, t, x, c, ok);
      }
    }

    /** np_internal_delete_edge: refuse an edge that is not live, then tombstone both entries. */
    method DeleteEdge(e: EKey, x: nat, c: nat) returns (ok: bool)
      requires Ready()
      modifies this`edges, Repr()
      ensures Ready() && labels == old(labels)
      ensures ok <==> IsLive(old(Abs()), e)
      ensures !ok ==> Abs() == old(Abs())
      ensures ok ==> Abs() == Delete(old(Abs()), e, x, c)
    {
      if e !in edges || !edges[e].live {
        return false;
      }
      ghost var g := Abs();
      var r := edges[e];
      SetEdge(e, r.(live := false));
      ghost var g1 := Abs();
      DeleteFromAdj(r.start, e.id, x, c);
      ghost var g2 := Abs();
      DeleteFromAdj(r.end, e.id, x, c);
      DeleteSteps(g, g1, g2, Abs(), e, x, c);
      ok := true;
    }
  
    // -------------------------------------------------------------- migration

    /** Fetch and delete one live entry's edge. The fetch fails when the edge is no longer live. */
    method TakeOut(m: Member, old_v: VKey, x: nat, c: nat,
                   ghost g0: Graph, ghost new_v: VKey, ghost done: set<EKey>, ghost gone: set<EKey>)
        returns (ok: bool, s: Saved)
      requires Valid() && x > 0 && Mig(g0, Abs(), old_v, new_v, done, gone)
      requires StampedBy(g0, Abs(), x, c)
      requires Belongs(g0, old_v, KeyOf(m)) && EdgeOf(m) !in done
      modifies this`edges, Repr()
      ensures Valid() && labels == old(labels)
      ensures ok <==> EdgeOf(m) !in gone
      ensures ok ==> Mig(g0, Abs(), old_v, new_v, done, gone + {EdgeOf(m)}) && StampedBy(g0, Abs(), x, c)
      ensures ok ==> SavedOk(g0, old_v, gone + {EdgeOf(m)}, s) && s.e == EdgeOf(m)
    {
      var e := EdgeOf(m);
      s := Saved(e, EdgeRec(old_v, old_v, false), VKey(m.olid, m.other));
      ghost var g := Abs();
      assert MigEdge(g0, g, old_v, new_v, done, gone, e);
      if e !in edges || !edges[e].live {
        return false, s;
      }
      s := Saved(e, edges[e], VKey(m.olid, m.other));
      ok := DeleteEdge(e, x, c);
      StampedDelete(g0, g, Abs(), e, x, c);
      DeleteFacts(g, Abs(), e, x, c, old_v);
      MigDelete(g0, g, Abs(), old_v, new_v, done, gone, e);
      assert KeyOf(m).edge == s.e && KeyOf(m).other == s.other;
    }

    /** Rename the old vertex in the edge and in the far end, and insert the edge again. */
    method PutBack(s: Saved, old_v: VKey, new_v: VKey, x: nat, c: nat,
                   ghost g0: Graph, ghost done: set<EKey>, ghost gone: set<EKey>)
      requires Valid() && Mig(g0, Abs(), old_v, new_v, done, gone) && SavedOk(g0, old_v, gone, s)
      requires StampedBy(g0, Abs(), x, c) && x > 0
      modifies this`edges, Repr()
      ensures Valid() && labels == old(labels)
      ensures Mig(g0, Abs(), old_v, new_v, done + {s.e}, gone - {s.e}) && StampedBy(g0, Abs(), x, c)
    {
      ghost var g := Abs();
      var start := if s.r.start == old_v then new_v else s.r.start;
      var end := if s.r.end == old_v then new_v else s.r.end;
      var far := if s.other == old_v then new_v else s.other;
      ghost var key: Key :| key.edge == s.e && key.other == s.other && Belongs(g0, old_v, key);
      InsertArguments(g0, old_v, new_v, key);
      MovedEnds(g0, g, old_v, new_v, done, gone, s.e);
      MigFree(g0, g, old_v, new_v, done, gone, s.e);
      var ok;
      if start == new_v {
        ok := InsertEdge(s.e, new_v, far, x, c);
      } else {
        ok := InsertEdge(s.e, far, new_v, x, c);
      }
      StampedInsert(g0, g, Abs(), s.e, start, end, x, c);
      InsertFacts(g, Abs(), s.e, start, end, x, c, old_v);
      MigInsert(g0, g, Abs(), old_v, new_v, done, gone, s.e);
    }

    /** The next entry of the block's copy: skip a tombstone, take a live one out. */
    method TakeEntry(adj: seq<Member>, i: nat, saved: seq<Saved>, old_v: VKey, x: nat, c: nat,
                     ghost g0: Graph, ghost new_v: VKey, ghost done: set<EKey>, ghost gone: set<EKey>)
        returns (ok: bool, saved': seq<Saved>, ghost gone': set<EKey>)
      requires Valid() && x > 0 && Mig(g0, Abs(), old_v, new_v, done, gone)
      requires StampedBy(g0, Abs(), x, c)
      requires i < |adj| && TakenFrom(adj, i, gone) && SavedAll(g0, old_v, gone, saved)
      requires adj[i].Live() ==> EdgeOf(adj[i]) !in done && Belongs(g0, old_v, KeyOf(adj[i]))
      modifies this`edges, Repr()
      ensures Valid() && labels == old(labels)
      ensures !ok ==> ClashIn(adj)
      ensures ok ==> Mig(g0, Abs(), old_v, new_v, done, gone') && TakenFrom(adj, i + 1, gone')
                     && SavedAll(g0, old_v, gone', saved') && StampedBy(g0, Abs(), x, c)
    {
      ok, saved', gone' := true, saved, gone;
      TakeNext(adj, i, gone);
      if adj[i].Live() {
        var s;
        ok, s := TakeOut(adj[i], old_v, x, c, g0, new_v, done, gone);
        if ok {
          SavedMore(g0, old_v, gone, saved, s);
          saved', gone' := saved + [s], gone + {EdgeOf(adj[i])};
        }
      }
    }

    /** An arraylist block: first every live entry's edge is fetched and deleted, working on a
        copy of the block, then all of them are inserted again. A list record is the case of
        one entry. */
    method MoveBlock(adj: seq<Member>, old_v: VKey, new_v: VKey, x: nat, c: nat,
                     ghost g0: Graph, ghost done: set<EKey>)
        returns (ok: bool, ghost gone: set<EKey>)
      requires Valid() && x > 0 && Mig(g0, Abs(), old_v, new_v, done, {})
      requires StampedBy(g0, Abs(), x, c)
      requires EntriesFree(g0, old_v, done, adj)
      modifies this`edges, Repr()
      ensures Valid() && labels == old(labels)
      ensures ok <==> !ClashIn(adj)
      ensures ok ==> Mig(g0, Abs(), old_v, new_v, done + gone, {}) && TakenFrom(adj, |adj|, gone)
                     && StampedBy(g0, Abs(), x, c)
    {
      var saved;
      ok, saved, gone := TakeAll(adj, old_v, x, c, g0, new_v, done);
      if ok {
        PutBackAll(saved, old_v, new_v, x, c, g0, done, gone);
      }
    }

    method TakeAll(adj: seq<Member>, old_v: VKey, x: nat, c: nat, ghost g0: Graph, ghost new_v: VKey, ghost done: set<EKey>)
        returns (ok: bool, saved: seq<Saved>, ghost gone: set<EKey>)
      requires Valid() && x > 0 && Mig(g0, Abs(), old_v, new_v, done, {})
      requires StampedBy(g0, Abs(), x, c)
      requires EntriesFree(g0, old_v, done, adj)
      modifies this`edges, Repr()
      ensures Valid() && labels == old(labels)
      ensures ok <==> !ClashIn(adj)
      ensures ok ==> Mig(g0, Abs(), old_v, new_v, done, gone) && TakenFrom(adj, |adj|, gone)
                     && SavedAll(g0, old_v, gone, saved) && StampedBy(g0, Abs(), x, c)
    {
      ok, saved, gone := true, [], {};
      TakenAtEnds(adj);
      var i := 0;
      while i < |adj|
        invariant 0 <= i <= |adj| && Valid() && labels == old(labels)
        invariant Mig(g0, Abs(), old_v, new_v, done, gone) && TakenFrom(adj, i, gone)
        invariant StampedBy(g0, Abs(), x, c)
        invariant SavedAll(g0, old_v, gone, saved)
      {
        ok, saved, gone := TakeEntry(adj, i, saved, old_v, x, c, g0, new_v, done, gone);
        if !ok {
          return;
        }
        i := i + 1;
      }
      ok := true;
    }

    method PutBackAll(saved: seq<Saved>, old_v: VKey, new_v: VKey, x: nat, c: nat,
                      ghost g0: Graph, ghost done: set<EKey>, ghost gone: set<EKey>)
      requires Valid() && Mig(g0, Abs(), old_v, new_v, done, gone) && SavedAll(g0, old_v, gone, saved)
      requires StampedBy(g0, Abs(), x, c) && x > 0
      modifies this`edges, Repr()
      ensures Valid() && labels == old(labels)
      ensures Mig(g0, Abs(), old_v, new_v, done + gone, {}) && StampedBy(g0, Abs(), x, c)
    {
      ghost var all := done + gone;
      ghost var done', gone' := done, gone;
      var i := 0;
      assert saved[0..] == saved;
      while i < |saved|
        invariant 0 <= i <= |saved| && Valid() && labels == old(labels)
        invariant done' + gone' == all && Mig(g0, Abs(), old_v, new_v, done', gone')
        invariant StampedBy(g0, Abs(), x, c)
        invariant SavedAll(g0, old_v, gone', saved[i..])
      {
        SavedLess(g0, old_v, gone', saved[i..]);
        assert saved[i..][0] == saved[i] && saved[i..][1..] == saved[i + 1..];
        PutBack(saved[i], old_v, new_v, x, c, g0, done', gone');
        TakenMore(done', gone', saved[i].e);
        done', gone' := done' + {saved[i].e}, gone' - {saved[i].e};
        i := i + 1;
      }
      assert gone' == {};
      TakenNone(done');
    }

    /** migrate_vertex_edges. Fails exactly when some arraylist block holds both live entries
        of one self-loop; otherwise the live graph is the same with the vertex renamed. */
    method MigrateVertexEdges(old_v: VKey, new_v: VKey, x: nat, c: nat) returns (ok: bool)
      requires Valid() && Good(Abs()) && x > 0 && old_v != new_v
      requires HasVertex(Abs(), old_v) && HasVertex(Abs(), new_v) && Adj(Abs(), new_v) == []
      modifies this`edges, Repr()
      ensures Valid() && labels == old(labels)
      ensures ok <==> !Clash(old(Abs()), old_v)
      ensures ok ==> Migrated(old(Abs()), Abs(), old_v, new_v) && StampedBy(old(Abs()), Abs(), x, c)
    {
      ghost var g0 := Abs();
      var head := labels[old_v.lab].heads[old_v.id];
      StartWalk(g0, old_v, new_v);
      NothingStamped(g0, x, c);
      ok := WalkChain(head, old_v, new_v, x, c, g0);
    }

    /** The loop over the old vertex's chain. */
    method WalkChain(head: Loc, old_v: VKey, new_v: VKey, x: nat, c: nat, ghost g0: Graph) returns (ok: bool)
      requires Valid() && x > 0 && Walk(g0, Abs(), old_v, new_v, {}, 0, head)
      requires StampedBy(g0, Abs(), x, c)
      modifies this`edges, Repr()
      ensures Valid() && labels == old(labels)
      ensures ok ==> Migrated(g0, Abs(), old_v, new_v) && StampedBy(g0, Abs(), x, c)
      ensures HasVertex(g0, old_v) && (ok <==> !Clash(g0, old_v))
    {
      ghost var done: set<EKey> := {};
      ghost var j := 0;
      var cur := head;
      while cur != Nil
        invariant Valid() && labels == old(labels)
        invariant Walk(g0, Abs(), old_v, new_v, done, j, cur)
        invariant StampedBy(g0, Abs(), x, c)
        decreases Length(g0, old_v) - j
      {
        ok, cur, done := MoveRecord(cur, old_v, new_v, x, c, g0, done, j);
        if !ok {
          return;
        }
        j := j + 1;
      }
      FinishWalk(g0, Abs(), old_v, new_v, done, j);
      ok := true;
    }

    /** One step of the walk: read the record and its next pointer, then move its edges. */
    method MoveRecord(cur: Loc, old_v: VKey, new_v: VKey, x: nat, c: nat, ghost g0: Graph, ghost done: set<EKey>, ghost j: nat)
        returns (ok: bool, next: Loc, ghost done': set<EKey>)
      requires Valid() && x > 0 && Walk(g0, Abs(), old_v, new_v, done, j, cur) && cur != Nil
      requires StampedBy(g0, Abs(), x, c)
      modifies this`edges, Repr()
      ensures Valid() && labels == old(labels)
      ensures !ok ==> HasVertex(g0, old_v) && Clash(g0, old_v)
      ensures ok ==> j < Length(g0, old_v) && Walk(g0, Abs(), old_v, new_v, done', j + 1, next)
                     && StampedBy(g0, Abs(), x, c)
    {
      ghost var g := Abs();
      var adj;
      adj, next := ReadStep(cur, old_v, new_v, g0, done, j);
      ghost var gone;
      ok, gone := MoveBlock(adj, old_v, new_v, x, c, g0, done);
      done' := done + gone;
      if ok {
        RecordDone(g0, g, Abs(), old_v, new_v, done, gone, j, cur);
      }
    }

    /** The record the walk stands at. */
    method ReadStep(cur: Loc, old_v: VKey, ghost new_v: VKey, ghost g0: Graph, ghost done: set<EKey>, ghost j: nat)
        returns (adj: seq<Member>, next: Loc)
      requires Valid() && Walk(g0, Abs(), old_v, new_v, done, j, cur) && cur != Nil
      ensures j < Length(g0, old_v) && ValidLoc(Abs().labels[old_v.lab], cur)
      ensures adj == MembersAt(Abs().labels[old_v.lab], cur) && next == Next(Abs().labels[old_v.lab], cur)
      ensures (ClashIn(adj) <==> ClashRecord(g0, old_v, j)) && (ClashIn(adj) ==> Clash(g0, old_v))
      ensures EntriesFree(g0, old_v, done, adj)
    {
      RecordReady(g0, Abs(), old_v, new_v, done, j, cur);
      RecordEntries(g0, Abs(), old_v, new_v, done, j, cur);
      adj, next := ReadRecord(old_v.lab, cur);
    }

    /** The entries a record holds and where it points. */
    method ReadRecord(lab: nat, l: Loc) returns (adj: seq<Member>, next: Loc)
      requires lab in labels && ValidLoc(Abs().labels[lab], l)
      ensures adj == MembersAt(Abs().labels[lab], l) && next == Next(Abs().labels[lab], l)
    {
      var t := labels[lab];
      if l.List? {
        var r := t.parts[l.part][l.idx];
        adj, next := [r.m], r.next;
      } else {
        var r := t.blocks[l.idx];
        adj, next := r.adj, r.next;
      }
    }
  }

  lemma Killed(g: Graph, g': Graph, v: VKey, edge: nat, x: nat, c: nat, k: nat)
    requires LInv(g) && v.lab in g.labels && v.lab in g'.labels && InvAt(g'.labels[v.lab], k)
    requires g' == g.(labels := g.labels[v.lab := g'.labels[v.lab]])
    requires var s := g.labels[v.lab];
      g'.labels[v.lab] == if v.id in s.heads then KillIn(s, Chain(s, v.id), edge, x, c) else s
    ensures LInv(g') && g' == KillV(g, v, edge, x, c)
  {
  }

  lemma TakenAtEnds(adj: seq<Member>)
    ensures TakenFrom(adj, 0, {})
    ensures forall gone :: TakenFrom(adj, |adj|, gone) ==> !ClashIn(adj)
  {
    assert adj[..0] == [] && adj[..|adj|] == adj;
  }

  ghost function Length(g: Graph, v: VKey): nat {
    if HasVertex(g, v) then |Chain(g.labels[v.lab], v.id)| else 0
  }

  /** The walk has dealt with j records and stands at cur. */
  ghost predicate Walk(g0: Graph, g: Graph, old_v: VKey, new_v: VKey, done: set<EKey>, j: nat, cur: Loc) {
    && Mig(g0, g, old_v, new_v, done, {})
    && j <= Length(g0, old_v)
    && cur == At(Chain(g0.labels[old_v.lab], old_v.id), j)
    && DoneUpTo(g0, old_v, done, Offset(g0, old_v, j))
    && NoClashBefore(g0, old_v, j)
  }

  lemma StartWalk(g0: Graph, old_v: VKey, new_v: VKey)
    requires Good(g0) && old_v != new_v && HasVertex(g0, old_v) && HasVertex(g0, new_v) && Adj(g0, new_v) == []
    ensures Walk(g0, g0, old_v, new_v, {}, 0, g0.labels[old_v.lab].heads[old_v.id])
  {
    MigStart(g0, old_v, new_v);
    var k := LabelInv(g0, old_v.lab);
    var path := Chain(g0.labels[old_v.lab], old_v.id);
    assert path[..0] == [];
  }

  lemma FinishWalk(g0: Graph, g: Graph, old_v: VKey, new_v: VKey, done: set<EKey>, j: nat)
    requires Walk(g0, g, old_v, new_v, done, j, Nil)
    ensures HasVertex(g0, old_v) && !Clash(g0, old_v)
    ensures Migrated(g0, g, old_v, new_v)
  {
    WalkEnd(g0, old_v, j);
    NoClashAtAll(g0, old_v);
    OffsetEnd(g0, old_v);
    AllDead(g0, g, old_v, new_v, done);
  }

  /** Before the step: what the record holds, read in the current state. */
  lemma RecordReady(g0: Graph, g: Graph, old_v: VKey, new_v: VKey, done: set<EKey>, j: nat, cur: Loc)
    requires Walk(g0, g, old_v, new_v, done, j, cur) && cur != Nil
    ensures j < Length(g0, old_v) && ValidLoc(g.labels[old_v.lab], cur)
    ensures ClashIn(MembersAt(g.labels[old_v.lab], cur)) <==> ClashRecord(g0, old_v, j)
    ensures ClashRecord(g0, old_v, j) ==> Clash(g0, old_v)
  {
    var adj, n := MembersAt(g.labels[old_v.lab], cur), Offset(g0, old_v, j);
    WalkStep(g0, g, old_v, j);
    ClashStable(g0, g, old_v, new_v, done, n, |adj|);
    assert cur in Chain(g0.labels[old_v.lab], old_v.id);
  }

  lemma RecordEntries(g0: Graph, g: Graph, old_v: VKey, new_v: VKey, done: set<EKey>, j: nat, cur: Loc)
    requires Walk(g0, g, old_v, new_v, done, j, cur) && j < Length(g0, old_v)
    ensures ValidLoc(g.labels[old_v.lab], cur)
    ensures EntriesFree(g0, old_v, done, MembersAt(g.labels[old_v.lab], cur))
  {
    WalkStep(g0, g, old_v, j);
    BlockEntries(g0, g, old_v, new_v, done, Offset(g0, old_v, j), MembersAt(g.labels[old_v.lab], cur));
  }

  lemma RecordCounted(g0: Graph, g: Graph, old_v: VKey, new_v: VKey, done: set<EKey>, gone: set<EKey>, j: nat, cur: Loc)
    requires Walk(g0, g, old_v, new_v, done, j, cur) && j < Length(g0, old_v)
    requires var adj := MembersAt(g.labels[old_v.lab], cur); TakenFrom(adj, |adj|, gone)
    ensures ValidLoc(g.labels[old_v.lab], cur)
    ensures Next(g.labels[old_v.lab], cur) == At(Chain(g0.labels[old_v.lab], old_v.id), j + 1)
    ensures DoneUpTo(g0, old_v, done + gone, Offset(g0, old_v, j + 1))
  {
    WalkStep(g0, g, old_v, j);
    DoneMore(g0, g, old_v, new_v, done, gone, Offset(g0, old_v, j), MembersAt(g.labels[old_v.lab], cur));
  }

  /** After the step: the walk stands at the next record. */
  lemma RecordDone(g0: Graph, g: Graph, g': Graph, old_v: VKey, new_v: VKey, done: set<EKey>, gone: set<EKey>, j: nat, cur: Loc)
    requires Walk(g0, g, old_v, new_v, done, j, cur) && j < Length(g0, old_v) && ValidLoc(g.labels[old_v.lab], cur)
    requires var adj := MembersAt(g.labels[old_v.lab], cur); TakenFrom(adj, |adj|, gone)
    requires Mig(g0, g', old_v, new_v, done + gone, {}) && !ClashRecord(g0, old_v, j)
    ensures Walk(g0, g', old_v, new_v, done + gone, j + 1, Next(g.labels[old_v.lab], cur))
  {
    RecordCounted(g0, g, old_v, new_v, done, gone, j, cur);
  }

  /** Every live entry stands for an edge of the old vertex that has not moved yet. */
  ghost predicate EntriesFree(g0: Graph, old_v: VKey, done: set<EKey>, adj: seq<Member>) {
    forall i :: 0 <= i < |adj| && adj[i].Live() ==> EdgeOf(adj[i]) !in done && Belongs(g0, old_v, KeyOf(adj[i]))
  }

  /** None of the first j records is a block with two live entries of one edge. */
  ghost predicate NoClashBefore(g: Graph, v: VKey, j: nat)
    requires HasVertex(g, v) && j <= |Chain(g.labels[v.lab], v.id)|
  {
    forall i :: 0 <= i < j ==> !ClashRecord(g, v, i)
  }

  ghost predicate ClashRecord(g: Graph, v: VKey, i: nat)
    requires HasVertex(g, v) && i < |Chain(g.labels[v.lab], v.id)|
  {
    var l := Chain(g.labels[v.lab], v.id)[i];
    l.Block? && ClashIn(MembersAt(g.labels[v.lab], l))
  }

  lemma NoClashAtAll(g: Graph, v: VKey)
    requires HasVertex(g, v)
    ensures Clash(g, v) <==> !NoClashBefore(g, v, |Chain(g.labels[v.lab], v.id)|)
  {
    var s := g.labels[v.lab];
    var path := Chain(s, v.id);
    if l :| l in path && l.Block? && ClashIn(MembersAt(s, l)) {
      var i :| 0 <= i < |path| && path[i] == l;
      assert ClashRecord(g, v, i);
    }
    if i :| 0 <= i < |path| && ClashRecord(g, v, i) {
      assert path[i] in path;
    }
  }

  ghost predicate SavedAll(g0: Graph, old_v: VKey, gone: set<EKey>, saved: seq<Saved>) {
    && (forall i :: 0 <= i < |saved| ==> SavedOk(g0, old_v, gone, saved[i]))
    && (forall e :: e in gone ==> exists i :: 0 <= i < |saved| && saved[i].e == e)
    && (forall i, j :: 0 <= i < j < |saved| ==> saved[i].e != saved[j].e)
  }

  lemma SavedMore(g0: Graph, old_v: VKey, gone: set<EKey>, saved: seq<Saved>, s: Saved)
    requires SavedAll(g0, old_v, gone, saved) && s.e !in gone && SavedOk(g0, old_v, gone + {s.e}, s)
    ensures SavedAll(g0, old_v, gone + {s.e}, saved + [s])
  {
    var all := saved + [s];
    forall i | 0 <= i < |all| ensures SavedOk(g0, old_v, gone + {s.e}, all[i]) {
      if i < |saved| { assert SavedOk(g0, old_v, gone, saved[i]); }
    }
    forall e | e in gone + {s.e} ensures exists i :: 0 <= i < |all| && all[i].e == e {
      if e == s.e {
        assert all[|saved|].e == e;
      } else {
        var i :| 0 <= i < |saved| && saved[i].e == e;
        assert all[i].e == e;
      }
    }
    forall i, j | 0 <= i < j < |all| ensures all[i].e != all[j].e {
      assert SavedOk(g0, old_v, gone, saved[i]);
    }
  }

  lemma SavedLess(g0: Graph, old_v: VKey, gone: set<EKey>, saved: seq<Saved>)
    requires SavedAll(g0, old_v, gone, saved) && saved != []
    ensures SavedOk(g0, old_v, gone, saved[0])
    ensures SavedAll(g0, old_v, gone - {saved[0].e}, saved[1..])
  {
    var rest := saved[1..];
    forall i | 0 <= i < |rest| ensures SavedOk(g0, old_v, gone - {saved[0].e}, rest[i]) {
      assert SavedOk(g0, old_v, gone, saved[i + 1]) && saved[0].e != saved[i + 1].e;
    }
    forall e | e in gone - {saved[0].e} ensures exists i :: 0 <= i < |rest| && rest[i].e == e {
      var i :| 0 <= i < |saved| && saved[i].e == e;
      assert rest[i - 1].e == e;
    }
  }

  lemma BlockEntries(g0: Graph, g: Graph, old_v: VKey, new_v: VKey, done: set<EKey>, n: nat, adj: seq<Member>)
    requires Mig(g0, g, old_v, new_v, done, {}) && n + |adj| <= |Adj(g, old_v)| && adj == Adj(g, old_v)[n..n + |adj|]
    ensures EntriesFree(g0, old_v, done, adj)
  {
    forall i | 0 <= i < |adj| && adj[i].Live() ensures EdgeOf(adj[i]) !in done && Belongs(g0, old_v, KeyOf(adj[i])) {
      LiveEntry(g0, g, old_v, new_v, done, {}, n + i);
    }
  }

  lemma WalkEnd(g: Graph, v: VKey, j: nat)
    requires LInv(g) && HasVertex(g, v) && j <= |Chain(g.labels[v.lab], v.id)| && At(Chain(g.labels[v.lab], v.id), j) == Nil
    ensures j == |Chain(g.labels[v.lab], v.id)|
  {
    var k := LabelInv(g, v.lab);
    var path := Chain(g.labels[v.lab], v.id);
    assert j < |path| ==> StepOk(g.labels[v.lab], path, j);
  }

  lemma WalkStep(g0: Graph, g: Graph, v: VKey, j: nat)
    requires LInv(g0) && LInv(g) && HasVertex(g0, v) && HasVertex(g, v) && SamePath(g0, g, v)
    requires j < |Chain(g0.labels[v.lab], v.id)|
    ensures var s0, s := g0.labels[v.lab], g.labels[v.lab]; var path := Chain(s0, v.id);
            var n, ms := Offset(g0, v, j), MembersAt(s, path[j]);
            && ValidLoc(s, path[j]) && Next(s, path[j]) == At(path, j + 1)
            && n + |ms| <= |Adj(g, v)| && n + |ms| <= |Adj(g0, v)|
            && Adj(g, v)[n..n + |ms|] == ms && Adj(g0, v)[n..n + |ms|] == MembersAt(s0, path[j])
            && Offset(g0, v, j + 1) == n + |ms|
  {
    var s := g.labels[v.lab];
    var k := LabelInv(g, v.lab);
    var path := Chain(s, v.id);
    assert StepOk(s, path, j);
    OffsetSame(g0, g, v, j);
    OffsetStep(g, v, j);
    OffsetStep(g0, v, j);
    assert path[j] in path;
  }

  lemma InsertSteps(g: Graph, g1: Graph, g2: Graph, g3: Graph, e: EKey, s: VKey, t: VKey, x: nat, c: nat, ok: bool)
    requires LInv(g) && g1 == g.(edges := g.edges[e := EdgeRec(s, t, true)])
    requires HasVertex(g1, s) && |g1.labels[s.lab].parts| > 0 && g2 == PushV(g1, s, Entry0(e, 0, t, x, c))
    requires ok <==> HasVertex(g2, t)
    requires ok ==> |g2.labels[t.lab].parts| > 0 && g3 == PushV(g2, t, Entry0(e, 1, s, x, c))
    ensures ok <==> HasVertex(g, t)
    ensures ok ==> |g.labels[s.lab].parts| > 0 && |g.labels[t.lab].parts| > 0 && g3 == Insert(g, e, s, t, x, c)
  {
    PushVKeeps(g1, g2, s, Entry0(e, 0, t, x, c));
    assert HasVertex(g1, t) <==> HasVertex(g, t);
    if ok {
      PartsExist(g, t);
    }
  }

  lemma DeleteSteps(g: Graph, g1: Graph, g2: Graph, g3: Graph, e: EKey, x: nat, c: nat)
    requires IsLive(g, e)
    requires var r := g.edges[e];
             && g1 == g.(edges := g.edges[e := r.(live := false)])
             && g2 == KillV(g1, r.start, e.id, x, c) && g3 == KillV(g2, r.end, e.id, x, c)
    ensures g3 == Delete(g, e, x, c)
  {
  }
}
