/** Who wrote what: the stamps on adjacency entries, traced to the steps of a run. */
module Stamps {
  import opened AdjStore
  import opened AdjSteps
  import opened AdjCompact
  import opened AdjCompactAll
  import opened Graph
  import opened GraphRuns
  import opened Migration

  /** A live entry for edge e in direction dir with the far end v, written by command c of
      transaction x; no command has ended it. */
  predicate WrittenBy(m: Member, e: EKey, dir: nat, v: VKey, x: nat, c: nat) {
    && m.edge == e.id && m.elid == e.lid && m.dir == dir && m.other == v.id && m.olid == v.lab
    && m.xmin == x && m.cmin == c && m.xmax == 0 && m.cmax == 0xFFFF_FFFF
  }

  /** An insert puts one entry in front at the start, for the end, and one at the end, for the start; a
      self-loop's two stand together, the one for the end first. */
  lemma InsertWrites(g: Graph, g': Graph, e: EKey, s: VKey, t: VKey, x: nat, c: nat)
    requires LInv(g) && HasVertex(g, s) && HasVertex(g, t)
    requires |g.labels[s.lab].parts| > 0 && |g.labels[t.lab].parts| > 0 && g' == Insert(g, e, s, t, x, c)
    ensures HasVertex(g', s) && HasVertex(g', t)
    ensures s != t ==>
      && |Adj(g', s)| == |Adj(g, s)| + 1 && Adj(g', s)[1..] == Adj(g, s) && WrittenBy(Adj(g', s)[0], e, 0, t, x, c)
      && |Adj(g', t)| == |Adj(g, t)| + 1 && Adj(g', t)[1..] == Adj(g, t) && WrittenBy(Adj(g', t)[0], e, 1, s, x, c)
    ensures s == t ==>
      && |Adj(g', s)| == |Adj(g, s)| + 2 && Adj(g', s)[2..] == Adj(g, s)
      && WrittenBy(Adj(g', s)[0], e, 1, s, x, c) && WrittenBy(Adj(g', s)[1], e, 0, t, x, c)
  {
    InsertAdj(g, g', e, s, t, x, c);
    var m0, m1 := Entry0(e, 0, t, x, c), Entry0(e, 1, s, x, c);
    if s == t {
      assert NewEntries(e, s, t, x, c, s) == [m1, m0];
    } else {
      assert NewEntries(e, s, t, x, c, s) == [m0] && NewEntries(e, s, t, x, c, t) == [m1];
    }
  }

  // ---------------------------------------------------------------- what a delete stamps

  /** What an entry of u was before a delete: the same, or live, of this edge id, and now stamped. */
  lemma DeleteWrites(g: Graph, g': Graph, e: EKey, x: nat, c: nat, u: VKey, i: nat)
    requires GInv(g) && IsLive(g, e) && x > 0 && g' == Delete(g, e, x, c) && HasVertex(g, u) && HasVertex(g', u)
    requires i < |Adj(g', u)|
    ensures i < |Adj(g, u)|
    ensures var m, m' := Adj(g, u)[i], Adj(g', u)[i];
      m' == m || (m.Live() && m.edge == e.id && m' == m.(xmax := x, cmax := c))
  {
    var r := g.edges[e];
    DeleteAdj(g, g', e, x, c);
    if Touches(r, u) {
      DeleteLength(g, g', u, e, x, c);
      KillIndex(Adj(g, u), e.id, x, c, i);
      if r.start == r.end {
        KillIndex(Kill(Adj(g, u), e.id, x, c), e.id, x, c, i);
      }
    }
  }

  /** Only the nearest live match is stamped. */
  lemma {:induction false} KillFirst(ms: seq<Member>, edge: nat, x: nat, c: nat, i: nat)
    requires i < |ms| && x > 0
    ensures |Kill(ms, edge, x, c)| == |ms|
    ensures Kill(ms, edge, x, c)[i] != ms[i] ==> AnyHit(ms, edge) && ms[i] == FirstHit(ms, edge)
  {
    KillIndex(ms, edge, x, c, i);
    if Kill(ms, edge, x, c)[i] != ms[i] {
      assert Hits(ms[i], edge);
      if !Hits(ms[0], edge) {
        KillFirst(ms[1..], edge, x, c, i - 1);
        assert Kill(ms, edge, x, c)[i] == Kill(ms[1..], edge, x, c)[i - 1];
      }
    }
  }

  /** When the nearest matches are the edge's own, every entry a delete stamps is the edge's own. */
  lemma SafeDeleteOwn(g: Graph, g': Graph, e: EKey, x: nat, c: nat, u: VKey, i: nat)
    requires GInv(g) && IsLive(g, e) && x > 0 && g' == Delete(g, e, x, c) && NearestIsOwn(g, e, x, c)
    requires HasVertex(g, u) && HasVertex(g', u) && i < |Adj(g', u)|
    ensures i < |Adj(g, u)| && (Adj(g', u)[i] != Adj(g, u)[i] ==> EdgeOf(Adj(g, u)[i]) == e)
  {
    var r := g.edges[e];
    DeleteWrites(g, g', e, x, c, u, i);
    DeleteAdj(g, g', e, x, c);
    if Touches(r, u) {
      KillFirst(Adj(g, u), e.id, x, c, i);
      if r.start == r.end {
        KillIndex(Adj(g, u), e.id, x, c, i);
        KillFirst(Kill(Adj(g, u), e.id, x, c), e.id, x, c, i);
      }
    }
  }

  // ---------------------------------------------------------------- one command's writes

  /** Everything new in front, and every stamp on what was there, is by command c of transaction x. */
  ghost predicate StampsAt(a0: seq<Member>, a: seq<Member>, x: nat, c: nat) {
    && |a0| <= |a|
    && (forall i :: 0 <= i < |a| - |a0| ==> a[i].xmin == x && a[i].cmin == c)
    && (forall i {:trigger a0[i]} :: 0 <= i < |a0| ==> StampedAs(a0[i], a[|a| - |a0| + i], x, c))
  }

  predicate StampedAs(m0: Member, m: Member, x: nat, c: nat) {
    m == m0 || (m0.Live() && m == m0.(xmax := x, cmax := c))
  }

  ghost predicate StampedBy(g0: Graph, g: Graph, x: nat, c: nat) {
    SameVertices(g0, g)
    && forall u {:trigger HasVertex(g0, u)} :: HasVertex(g0, u) ==> StampsAt(Adj(g0, u), Adj(g, u), x, c)
  }

  lemma StampsOn(a0: seq<Member>, a: seq<Member>, b: seq<Member>, x: nat, c: nat)
    requires StampsAt(a0, a, x, c) && StampsAt(a, b, x, c) && x > 0
    ensures StampsAt(a0, b, x, c)
  {
    var k, n := |b| - |a|, |b| - |a0|;
    forall i | 0 <= i < n ensures b[i].xmin == x && b[i].cmin == c {
      if i >= k { assert StampedAs(a[i - k], b[i], x, c); }
    }
    forall i | 0 <= i < |a0| ensures StampedAs(a0[i], b[n + i], x, c) {
      assert StampedAs(a0[i], a[|a| - |a0| + i], x, c) && StampedAs(a[|a| - |a0| + i], b[n + i], x, c);
    }
  }

  lemma NothingStamped(g: Graph, x: nat, c: nat)
    ensures StampedBy(g, g, x, c)
  {
  }

  lemma StampedDelete(g0: Graph, g: Graph, g': Graph, e: EKey, x: nat, c: nat)
    requires StampedBy(g0, g, x, c) && GInv(g) && IsLive(g, e) && x > 0 && g' == Delete(g, e, x, c)
    ensures StampedBy(g0, g', x, c)
  {
    DeleteAdj(g, g', e, x, c);
    forall u | HasVertex(g0, u) ensures HasVertex(g', u) && StampsAt(Adj(g0, u), Adj(g', u), x, c) {
      assert HasVertex(g, u);
      DeleteAdjLength(g, g', e, x, c, u);
      forall i | 0 <= i < |Adj(g, u)| ensures StampedAs(Adj(g, u)[i], Adj(g', u)[i], x, c) {
        DeleteWrites(g, g', e, x, c, u, i);
      }
      StampsOn(Adj(g0, u), Adj(g, u), Adj(g', u), x, c);
    }
  }

  lemma DeleteAdjLength(g: Graph, g': Graph, e: EKey, x: nat, c: nat, u: VKey)
    requires GInv(g) && IsLive(g, e) && g' == Delete(g, e, x, c) && HasVertex(g, u) && HasVertex(g', u)
    ensures |Adj(g', u)| == |Adj(g, u)|
  {
    DeleteAdj(g, g', e, x, c);
    if Touches(g.edges[e], u) { DeleteLength(g, g', u, e, x, c); }
  }

  lemma StampedInsert(g0: Graph, g: Graph, g': Graph, e: EKey, s: VKey, t: VKey, x: nat, c: nat)
    requires StampedBy(g0, g, x, c) && LInv(g) && HasVertex(g, s) && HasVertex(g, t) && x > 0
    requires |g.labels[s.lab].parts| > 0 && |g.labels[t.lab].parts| > 0 && g' == Insert(g, e, s, t, x, c)
    ensures StampedBy(g0, g', x, c)
  {
    InsertAdj(g, g', e, s, t, x, c);
    forall u | HasVertex(g0, u) ensures HasVertex(g', u) && StampsAt(Adj(g0, u), Adj(g', u), x, c) {
      assert HasVertex(g, u);
      EntriesStamped(e, s, t, x, c, u, Adj(g, u));
      StampsOn(Adj(g0, u), Adj(g, u), Adj(g', u), x, c);
    }
  }

  lemma EntriesStamped(e: EKey, s: VKey, t: VKey, x: nat, c: nat, u: VKey, a: seq<Member>)
    ensures StampsAt(a, NewEntries(e, s, t, x, c, u) + a, x, c)
  {
    var front := NewEntries(e, s, t, x, c, u);
    assert forall i :: 0 <= i < |front| ==> front[i].xmin == x && front[i].cmin == c;
  }

  // ---------------------------------------------------------------- over runs

  /** Step i of the run inserted the edge of this entry of u, and the entry says so. */
  predicate FromInsert(ops: seq<Op>, i: nat, u: VKey, m: Member) {
    && i < |ops| && ops[i].InsertEdge? && ops[i].e == EdgeOf(m)
    && m.xmin == ops[i].x && m.cmin == ops[i].c
    && ((m.dir == 0 && u == ops[i].s && VKey(m.olid, m.other) == ops[i].t)
        || (m.dir == 1 && u == ops[i].t && VKey(m.olid, m.other) == ops[i].s))
  }

  /** Step i of the run was a delete under the entry's edge id, or of its very edge, and the entry
      carries its stamps. */
  predicate FromDelete(ops: seq<Op>, i: nat, m: Member, own: bool) {
    && i < |ops| && ops[i].DeleteEdge? && ops[i].e.id == m.edge && (own ==> ops[i].e == EdgeOf(m))
    && m.xmax == ops[i].x && m.cmax == ops[i].c
  }

  ghost predicate Traced(ops: seq<Op>, n: nat, u: VKey, m: Member, own: bool) {
    && (exists i :: 0 <= i < n && FromInsert(ops, i, u, m))
    && (m.xmax != 0 ==> exists i :: 0 <= i < n && FromDelete(ops, i, m, own))
  }

  /** Every entry in state g carries the transaction and command of the step, among the first n, that
      inserted its edge, and every tombstone those of a delete under its edge id. */
  ghost predicate AllTraced(ops: seq<Op>, n: nat, g: Graph, own: bool) {
    forall u, m {:trigger Traced(ops, n, u, m, own)} :: HasVertex(g, u) && m in Adj(g, u) ==> Traced(ops, n, u, m, own)
  }

  lemma InsertKeepsG(g: Graph, g': Graph, e: EKey, s: VKey, t: VKey, x: nat, c: nat)
    requires GInv(g) && HasVertex(g, s) && HasVertex(g, t)
    requires |g.labels[s.lab].parts| > 0 && |g.labels[t.lab].parts| > 0 && g' == Insert(g, e, s, t, x, c)
    ensures GInv(g')
  {
    InsertAdj(g, g', e, s, t, x, c);
    forall f | IsLive(g', f) ensures HasVertex(g', g'.edges[f].start) && HasVertex(g', g'.edges[f].end) {
      assert f != e ==> IsLive(g, f);
    }
  }

  /** The tables stay well formed over any run, shared ids or not. */
  lemma StepKeepsG(g: Graph, op: Op, g': Graph)
    requires GInv(g) && Step(g, op, g')
    ensures GInv(g')
  {
    match op
    case NewVertex(v) =>
      NewVertexAdj(g, g', v);
      assert forall e :: IsLive(g', e) <==> IsLive(g, e);
    case InsertEdge(e, s, t, x, c) => InsertKeepsG(g, g', e, s, t, x, c);
    case DeleteEdge(e, x, c) => DeleteAdj(g, g', e, x, c);
    case RotateList(_, _) =>
      MaintenanceKeeps(g, op, g');
      assert forall e :: IsLive(g', e) <==> IsLive(g, e);
    case CompactList(_, _, _, _, _) =>
      MaintenanceKeeps(g, op, g');
      assert forall e :: IsLive(g', e) <==> IsLive(g, e);
  }

  lemma StillTraced(ops: seq<Op>, n: nat, u: VKey, m: Member, own: bool)
    requires Traced(ops, n, u, m, own)
    ensures Traced(ops, n + 1, u, m, own)
  {
    var i :| 0 <= i < n && FromInsert(ops, i, u, m);
    assert i < n + 1;
    if m.xmax != 0 {
      var j :| 0 <= j < n && FromDelete(ops, j, m, own);
      assert j < n + 1;
    }
  }

  lemma InsertTraced(ops: seq<Op>, n: nat, g: Graph, g': Graph, own: bool)
    requires LInv(g) && n < |ops| && ops[n].InsertEdge? && Step(g, ops[n], g') && AllTraced(ops, n, g, own)
    ensures AllTraced(ops, n + 1, g', own)
  {
    var e, s, t, x, c := ops[n].e, ops[n].s, ops[n].t, ops[n].x, ops[n].c;
    InsertAdj(g, g', e, s, t, x, c);
    forall u, m | HasVertex(g', u) && m in Adj(g', u) ensures Traced(ops, n + 1, u, m, own) {
      var front := NewEntries(e, s, t, x, c, u);
      assert HasVertex(g, u) && Adj(g', u) == front + Adj(g, u);
      if m in front {
        assert FromInsert(ops, n, u, m) && m.xmax == 0;
      } else {
        assert m in Adj(g, u) && Traced(ops, n, u, m, own);
        StillTraced(ops, n, u, m, own);
      }
    }
  }

  lemma DeleteTraced(ops: seq<Op>, n: nat, g: Graph, g': Graph, own: bool)
    requires GInv(g) && n < |ops| && ops[n].DeleteEdge? && Step(g, ops[n], g') && AllTraced(ops, n, g, own)
    requires own ==> SafeOp(g, ops[n])
    ensures AllTraced(ops, n + 1, g', own)
  {
    var e, x, c := ops[n].e, ops[n].x, ops[n].c;
    DeleteAdj(g, g', e, x, c);
    forall u, m' | HasVertex(g', u) && m' in Adj(g', u) ensures Traced(ops, n + 1, u, m', own) {
      var i :| 0 <= i < |Adj(g', u)| && Adj(g', u)[i] == m';
      assert HasVertex(g, u);
      DeleteWrites(g, g', e, x, c, u, i);
      if own { SafeDeleteOwn(g, g', e, x, c, u, i); }
      var m := Adj(g, u)[i];
      assert m in Adj(g, u) && Traced(ops, n, u, m, own);
      StillTraced(ops, n, u, m, own);
      if m' != m {
        StampTraced(ops, n, u, m, m', own);
      }
    }
  }

  lemma StampTraced(ops: seq<Op>, n: nat, u: VKey, m: Member, m': Member, own: bool)
    requires n < |ops| && ops[n].DeleteEdge? && Traced(ops, n, u, m, own)
    requires m.edge == ops[n].e.id && (own ==> EdgeOf(m) == ops[n].e) && m' == m.(xmax := ops[n].x, cmax := ops[n].c)
    ensures Traced(ops, n + 1, u, m', own)
  {
    var i :| 0 <= i < n && FromInsert(ops, i, u, m);
    assert i < n + 1 && FromInsert(ops, i, u, m');
    assert n < n + 1 && FromDelete(ops, n, m', own);
  }

  lemma SameEntriesTraced(ops: seq<Op>, n: nat, g: Graph, g': Graph, own: bool)
    requires AllTraced(ops, n, g, own)
    requires forall u, m :: HasVertex(g', u) && m in Adj(g', u) ==> HasVertex(g, u) && m in Adj(g, u)
    ensures AllTraced(ops, n + 1, g', own)
  {
    forall u, m | HasVertex(g', u) && m in Adj(g', u) ensures Traced(ops, n + 1, u, m, own) {
      assert HasVertex(g, u) && m in Adj(g, u) && Traced(ops, n, u, m, own);
      StillTraced(ops, n, u, m, own);
    }
  }

  lemma StepTraced(ops: seq<Op>, n: nat, g: Graph, g': Graph, own: bool)
    requires GInv(g) && n < |ops| && Step(g, ops[n], g') && AllTraced(ops, n, g, own)
    requires own ==> SafeOp(g, ops[n])
    ensures AllTraced(ops, n + 1, g', own)
  {
    match ops[n]
    case NewVertex(v) =>
      NewVertexAdj(g, g', v);
      SameEntriesTraced(ops, n, g, g', own);
    case InsertEdge(_, _, _, _, _) => InsertTraced(ops, n, g, g', own);
    case DeleteEdge(_, _, _) => DeleteTraced(ops, n, g, g', own);
    case RotateList(_, _) => MaintenanceTraced(ops, n, g, g', own);
    case CompactList(_, _, _, _, _) => MaintenanceTraced(ops, n, g, g', own);
  }

  lemma MaintenanceTraced(ops: seq<Op>, n: nat, g: Graph, g': Graph, own: bool)
    requires GInv(g) && n < |ops| && Step(g, ops[n], g') && AllTraced(ops, n, g, own)
    requires ops[n].RotateList? || ops[n].CompactList?
    ensures AllTraced(ops, n + 1, g', own)
  {
    MaintenanceKeeps(g, ops[n], g');
    forall u, m | HasVertex(g', u) && m in Adj(g', u) ensures HasVertex(g, u) && m in Adj(g, u) {
      assert HasVertex(g, u);
      assert m in multiset(Adj(g', u));
    }
    SameEntriesTraced(ops, n, g, g', own);
  }

  /** In every state of every run from fresh tables: each entry carries the transaction and command of
      the step that inserted its edge, at the vertex and with the far end and direction of that step;
      each tombstone carries those of a step that deleted an edge of its id, and, if every delete met its
      own entries first, of the step that deleted this very edge. */
  lemma {:induction false} RunTraced(gs: seq<Graph>, ops: seq<Op>, n: nat, own: bool)
    requires Trace(gs, ops) && Fresh(gs[0]) && n < |gs|
    requires own ==> forall i :: 0 <= i < |ops| ==> SafeAt(gs, ops, i)
    ensures GInv(gs[n]) && AllTraced(ops, n, gs[n], own)
  {
    if n == 0 {
      FreshGood(gs[0]);
    } else {
      RunTraced(gs, ops, n - 1, own);
      assert Step(gs[n - 1], ops[n - 1], gs[n - 1 + 1]);
      assert own ==> SafeAt(gs, ops, n - 1);
      StepKeepsG(gs[n - 1], ops[n - 1], gs[n]);
      StepTraced(ops, n - 1, gs[n - 1], gs[n], own);
    }
  }
}
