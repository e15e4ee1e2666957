/** Edge tuples and adjacency together: every live edge has exactly its two entries. */
module Graph {
  import opened Common
  import opened AdjStore
  import opened AdjSteps
  import opened AdjCompact
  import opened AdjCompactAll

  datatype VKey = VKey(lab: nat, id: nat)

  datatype EKey = EKey(lid: nat, id: nat)

  /** The tuple the edge phys_map slot points to. */
  datatype EdgeRec = EdgeRec(start: VKey, end: VKey, live: bool)

  datatype Graph = Graph(labels: map<nat, Store>, edges: map<EKey, EdgeRec>)

  /** What an adjacency entry says: which edge, in which direction, to whom. */
  datatype Key = Key(edge: EKey, dir: nat, other: VKey)

  const INVALID_COMMAND := 0xFFFF_FFFF

  function Entry0(e: EKey, dir: nat, other: VKey, x: nat, c: nat): Member {
    Member(e.id, e.lid, dir, other.id, other.lab, x, c, 0, INVALID_COMMAND)
  }

  function KeyOf(m: Member): Key {
    Key(EKey(m.elid, m.edge), m.dir, VKey(m.olid, m.other))
  }

  // ---------------------------------------------------------------- counting live entries

  function Count(ms: seq<Member>, key: Key): nat {
    if ms == [] then 0
    else (if ms[0].Live() && KeyOf(ms[0]) == key then 1 else 0) + Count(ms[1..], key)
  }

  lemma {:induction false} CountConcat(a: seq<Member>, b: seq<Member>, key: Key)
    ensures Count(a + b, key) == Count(a, key) + Count(b, key)
  {
    if a == [] {
      assert a + b == b;
    } else {
      assert (a + b)[0] == a[0] && (a + b)[1..] == a[1..] + b;
      CountConcat(a[1..], b, key);
    }
  }

  lemma CountRemove(b: seq<Member>, j: nat, key: Key)
    requires j < |b|
    ensures Count(b, key) == Count([b[j]], key) + Count(b[..j] + b[j + 1..], key)
    ensures multiset(b[..j] + b[j + 1..]) == multiset(b) - multiset{b[j]}
  {
    assert b == b[..j] + ([b[j]] + b[j + 1..]);
    CountConcat(b[..j], [b[j]] + b[j + 1..], key);
    CountConcat([b[j]], b[j + 1..], key);
    CountConcat(b[..j], b[j + 1..], key);
  }

  lemma {:induction false} CountMultiset(a: seq<Member>, b: seq<Member>, key: Key)
    requires multiset(a) == multiset(b)
    ensures Count(a, key) == Count(b, key)
  {
    if a == [] {
      assert |multiset(b)| == 0;
      assert b == [];
    } else {
      assert a[0] in multiset(b);
      var j :| 0 <= j < |b| && b[j] == a[0];
      CountRemove(a, 0, key);
      CountRemove(b, j, key);
      CountMultiset(a[..0] + a[1..], b[..j] + b[j + 1..], key);
    }
  }

  lemma {:induction false} CountPositive(ms: seq<Member>, i: nat)
    requires i < |ms| && ms[i].Live()
    ensures Count(ms, KeyOf(ms[i])) > 0
  {
    if i > 0 {
      CountPositive(ms[1..], i - 1);
    }
  }

  lemma {:induction false} CountWitness(ms: seq<Member>, key: Key) returns (i: nat)
    requires Count(ms, key) > 0
    ensures i < |ms| && ms[i].Live() && KeyOf(ms[i]) == key
  {
    if ms[0].Live() && KeyOf(ms[0]) == key {
      i := 0;
    } else {
      i := CountWitness(ms[1..], key);
      i := i + 1;
    }
  }

  /** The entry a delete by edge id will tombstone: the live one nearest the head. */
  function FirstHit(ms: seq<Member>, edge: nat): (m: Member)
    requires AnyHit(ms, edge)
    ensures m in ms && Hits(m, edge)
  {
    if Hits(ms[0], edge) then ms[0]
    else
      assert AnyHit(ms[1..], edge) by {
        var i :| 0 <= i < |ms| && Hits(ms[i], edge);
        assert Hits(ms[1..][i - 1], edge);
      }
      FirstHit(ms[1..], edge)
  }

  lemma {:induction false} CountKill(ms: seq<Member>, edge: nat, x: nat, c: nat, key: Key)
    requires x > 0
    ensures Count(Kill(ms, edge, x, c), key)
         == Count(ms, key) - if AnyHit(ms, edge) && KeyOf(FirstHit(ms, edge)) == key then 1 else 0
  {
    if ms != [] {
      var ks := Kill(ms, edge, x, c);
      CountKill(ms[1..], edge, x, c, key);
      if Hits(ms[0], edge) {
        assert ks[1..] == ms[1..];
      } else {
        assert ks[1..] == Kill(ms[1..], edge, x, c);
        assert AnyHit(ms, edge) <==> AnyHit(ms[1..], edge) by {
          if AnyHit(ms, edge) {
            var i :| 0 <= i < |ms| && Hits(ms[i], edge);
            assert Hits(ms[1..][i - 1], edge);
          }
          if AnyHit(ms[1..], edge) {
            var i :| 0 <= i < |ms[1..]| && Hits(ms[1..][i], edge);
            assert Hits(ms[i + 1], edge);
          }
        }
      }
    } else {
      assert !AnyHit(ms, edge);
    }
  }

  // ---------------------------------------------------------------- invariants

  predicate HasVertex(g: Graph, v: VKey) {
    v.lab in g.labels && v.id in g.labels[v.lab].heads
  }

  ghost function Adj(g: Graph, v: VKey): seq<Member>
    requires HasVertex(g, v)
  {
    Adjacent(g.labels[v.lab], v.id)
  }

  predicate IsLive(g: Graph, e: EKey) {
    e in g.edges && g.edges[e].live
  }

  ghost predicate LInv(g: Graph) {
    forall l {:trigger Inv(g.labels[l])} :: l in g.labels ==> Inv(g.labels[l])
  }

  /** One label's tables, and how far they are compacted. */
  lemma LabelInv(g: Graph, l: nat) returns (k: nat)
    requires LInv(g) && l in g.labels
    ensures InvAt(g.labels[l], k)
  {
    assert Inv(g.labels[l]);
    k :| InvAt(g.labels[l], k);
  }

  ghost predicate GInv(g: Graph) {
    && LInv(g)
    && (forall e :: IsLive(g, e) ==> HasVertex(g, g.edges[e].start) && HasVertex(g, g.edges[e].end))
  }

  /** The entry `key` belongs in the adjacency of v. */
  predicate Belongs(g: Graph, v: VKey, key: Key) {
    && IsLive(g, key.edge)
    && var r := g.edges[key.edge];
       (key.dir == 0 && r.start == v && r.end == key.other) || (key.dir == 1 && r.end == v && r.start == key.other)
  }

  ghost predicate Agrees(g: Graph, v: VKey, key: Key)
    requires HasVertex(g, v)
  {
    Count(Adj(g, v), key) == if Belongs(g, v, key) then 1 else 0
  }

  /** Exactly one live entry with direction 0 at the start of each live edge, exactly one with
      direction 1 at its end, and no other live entry anywhere. */
  ghost predicate Consistent(g: Graph) {
    forall v, key {:trigger Agrees(g, v, key)} :: HasVertex(g, v) ==> Agrees(g, v, key)
  }

  /** No two live edges share an id, not even under different labels. */
  ghost predicate UniqueIds(g: Graph) {
    forall e, f :: IsLive(g, e) && IsLive(g, f) && e.id == f.id ==> e == f
  }

  // ---------------------------------------------------------------- one vertex at a time

  function PushV(g: Graph, v: VKey, m: Member): Graph
    requires HasVertex(g, v) && |g.labels[v.lab].parts| > 0
  {
    var s := g.labels[v.lab];
    g.(labels := g.labels[v.lab := Push(s, |s.parts| - 1, v.id, m)])
  }

  ghost function KillV(g: Graph, v: VKey, edge: nat, x: nat, c: nat): Graph {
    if !HasVertex(g, v) then g
    else
      var s := g.labels[v.lab];
      g.(labels := g.labels[v.lab := KillIn(s, Chain(s, v.id), edge, x, c)])
  }

  ghost predicate SameVertices(g: Graph, g': Graph) {
    forall u :: HasVertex(g, u) <==> HasVertex(g', u)
  }

  /** The adjacency of v becomes ms; edges and all other adjacencies stay. */
  ghost predicate OnlyAt(g: Graph, g': Graph, v: VKey, ms: seq<Member>) {
    && g'.edges == g.edges && SameVertices(g, g') && HasVertex(g, v)
    && Adj(g', v) == ms
    && forall u :: HasVertex(g, u) && u != v ==> Adj(g', u) == Adj(g, u)
  }

  ghost predicate SamePaths(g: Graph, g': Graph) {
    && SameVertices(g, g')
    && forall u :: HasVertex(g, u) ==> SamePath(g, g', u)
  }

  /** The chain of u runs over the same records, each with as many entries. */
  ghost predicate SamePath(g: Graph, g': Graph, u: VKey)
    requires HasVertex(g, u) && HasVertex(g', u)
  {
    var s, s' := g.labels[u.lab], g'.labels[u.lab];
    Chain(s', u.id) == Chain(s, u.id) && forall l :: l in Chain(s, u.id) ==> |MembersAt(s', l)| == |MembersAt(s, l)|
  }

  lemma SamePathTransitive(g0: Graph, g: Graph, g': Graph, u: VKey)
    requires HasVertex(g0, u) && HasVertex(g, u) && HasVertex(g', u)
    requires SamePath(g0, g, u) && SamePath(g, g', u)
    ensures SamePath(g0, g', u)
  {
  }

  lemma PathFromLengths(g: Graph, g': Graph, u: VKey)
    requires LInv(g) && HasVertex(g, u) && HasVertex(g', u)
    requires Chain(g'.labels[u.lab], u.id) == Chain(g.labels[u.lab], u.id)
    requires SameLengths(g.labels[u.lab], g'.labels[u.lab])
    ensures SamePath(g, g', u)
  {
    var s := g.labels[u.lab];
    var k := LabelInv(g, u.lab);
    var path := Chain(s, u.id);
    forall l | l in path ensures ValidLoc(s, l) {
      var j :| 0 <= j < |path| && path[j] == l;
      assert NodeOk(s, u.id, path, k, j);
    }
  }

  lemma PartsExist(g: Graph, v: VKey)
    requires LInv(g) && HasVertex(g, v)
    ensures |g.labels[v.lab].parts| > 0
  {
    var k := LabelInv(g, v.lab);
  }

  lemma PushVKeeps(g: Graph, g': Graph, v: VKey, m: Member)
    requires LInv(g) && HasVertex(g, v) && |g.labels[v.lab].parts| > 0 && g' == PushV(g, v, m)
    ensures LInv(g') && OnlyAt(g, g', v, [m] + Adj(g, v))
  {
    var s, s' := g.labels[v.lab], g'.labels[v.lab];
    var k := LabelInv(g, v.lab);
    PushKeeps(s, s', v.id, m, k);
    StoreChanged(g, g', v);
  }

  lemma KillVKeeps(g: Graph, g': Graph, v: VKey, edge: nat, x: nat, c: nat)
    requires LInv(g) && HasVertex(g, v) && g' == KillV(g, v, edge, x, c)
    ensures LInv(g') && OnlyAt(g, g', v, Kill(Adj(g, v), edge, x, c)) && SamePaths(g, g')
  {
    var s, s' := g.labels[v.lab], g'.labels[v.lab];
    var k := LabelInv(g, v.lab);
    KillKeeps(s, v.id, edge, x, c, k);
    StoreChanged(g, g', v);
    forall u | HasVertex(g, u) ensures SamePath(g, g', u) {
      PathFromLengths(g, g', u);
    }
  }

  lemma StoreChanged(g: Graph, g': Graph, v: VKey)
    requires LInv(g) && HasVertex(g, v) && v.lab in g'.labels
    requires g' == g.(labels := g.labels[v.lab := g'.labels[v.lab]])
    requires Inv(g'.labels[v.lab]) && g'.labels[v.lab].heads.Keys == g.labels[v.lab].heads.Keys
    requires forall u :: u in g.labels[v.lab].heads && u != v.id ==>
               Adjacent(g'.labels[v.lab], u) == Adjacent(g.labels[v.lab], u)
    ensures LInv(g') && OnlyAt(g, g', v, Adj(g', v))
  {
    forall u ensures HasVertex(g, u) <==> HasVertex(g', u) {}
    forall u | HasVertex(g, u) && u != v ensures Adj(g', u) == Adj(g, u) {
      if u.lab == v.lab {
        assert u.id in g.labels[v.lab].heads && u.id != v.id;
      }
    }
  }

  // ---------------------------------------------------------------- insert

  /** np_internal_insert_edge: the tuple and its phys_map slot, then the entry of the start
      vertex, then the entry of the end vertex. */
  function Insert(g: Graph, e: EKey, s: VKey, t: VKey, x: nat, c: nat): Graph
    requires HasVertex(g, s) && HasVertex(g, t)
    requires |g.labels[s.lab].parts| > 0 && |g.labels[t.lab].parts| > 0
  {
    var g1 := g.(edges := g.edges[e := EdgeRec(s, t, true)]);
    var g2 := PushV(g1, s, Entry0(e, 0, t, x, c));
    if HasVertex(g2, t) && |g2.labels[t.lab].parts| > 0 then PushV(g2, t, Entry0(e, 1, s, x, c)) else g2
  }

  function NewEntries(e: EKey, s: VKey, t: VKey, x: nat, c: nat, u: VKey): seq<Member> {
    (if u == t then [Entry0(e, 1, s, x, c)] else []) + (if u == s then [Entry0(e, 0, t, x, c)] else [])
  }

  lemma InsertAdj(g: Graph, g': Graph, e: EKey, s: VKey, t: VKey, x: nat, c: nat)
    requires LInv(g) && HasVertex(g, s) && HasVertex(g, t)
    requires |g.labels[s.lab].parts| > 0 && |g.labels[t.lab].parts| > 0
    requires g' == Insert(g, e, s, t, x, c)
    ensures LInv(g') && SameVertices(g, g') && g'.edges == g.edges[e := EdgeRec(s, t, true)]
    ensures forall u :: HasVertex(g, u) ==> Adj(g', u) == NewEntries(e, s, t, x, c, u) + Adj(g, u)
  {
    var g1, g2 := InsertSplit(g, g', e, s, t, x, c);
    TwoPushes(g, g1, g2, g', e, s, t, x, c);
  }

  lemma InsertSplit(g: Graph, g': Graph, e: EKey, s: VKey, t: VKey, x: nat, c: nat) returns (g1: Graph, g2: Graph)
    requires LInv(g) && HasVertex(g, s) && HasVertex(g, t)
    requires |g.labels[s.lab].parts| > 0 && |g.labels[t.lab].parts| > 0
    requires g' == Insert(g, e, s, t, x, c)
    ensures g1 == g.(edges := g.edges[e := EdgeRec(s, t, true)])
    ensures HasVertex(g1, s) && OnlyAt(g1, g2, s, [Entry0(e, 0, t, x, c)] + Adj(g1, s))
    ensures HasVertex(g2, t) && OnlyAt(g2, g', t, [Entry0(e, 1, s, x, c)] + Adj(g2, t)) && LInv(g')
  {
    g1 := g.(edges := g.edges[e := EdgeRec(s, t, true)]);
    g2 := PushV(g1, s, Entry0(e, 0, t, x, c));
    PushVKeeps(g1, g2, s, Entry0(e, 0, t, x, c));
    PartsExist(g2, t);
    PushVKeeps(g2, g', t, Entry0(e, 1, s, x, c));
  }

  lemma TwoPushes(g: Graph, g1: Graph, g2: Graph, g': Graph, e: EKey, s: VKey, t: VKey, x: nat, c: nat)
    requires g1 == g.(edges := g.edges[e := EdgeRec(s, t, true)])
    requires HasVertex(g1, s) && OnlyAt(g1, g2, s, [Entry0(e, 0, t, x, c)] + Adj(g1, s))
    requires HasVertex(g2, t) && OnlyAt(g2, g', t, [Entry0(e, 1, s, x, c)] + Adj(g2, t))
    ensures SameVertices(g, g') && g'.edges == g1.edges
    ensures forall u :: HasVertex(g, u) ==> Adj(g', u) == NewEntries(e, s, t, x, c, u) + Adj(g, u)
  {
    var m0, m1 := Entry0(e, 0, t, x, c), Entry0(e, 1, s, x, c);
    assert forall u :: HasVertex(g, u) <==> HasVertex(g1, u);
    forall u | HasVertex(g, u) ensures Adj(g', u) == NewEntries(e, s, t, x, c, u) + Adj(g, u) {
      assert HasVertex(g1, u) && Adj(g1, u) == Adj(g, u);
      assert Adj(g2, u) == (if u == s then [m0] else []) + Adj(g, u);
      assert Adj(g', u) == (if u == t then [m1] else []) + Adj(g2, u);
      Associate(if u == t then [m1] else [], if u == s then [m0] else [], Adj(g, u));
    }
  }

  lemma NewCount(g: Graph, g': Graph, e: EKey, s: VKey, t: VKey, x: nat, c: nat, v: VKey, key: Key)
    requires g'.edges == g.edges[e := EdgeRec(s, t, true)] && !IsLive(g, e)
    ensures Count(NewEntries(e, s, t, x, c, v), key) ==
            (if Belongs(g', v, key) then 1 else 0) - (if Belongs(g, v, key) then 1 else 0)
  {
    CountConcat(if v == t then [Entry0(e, 1, s, x, c)] else [], if v == s then [Entry0(e, 0, t, x, c)] else [], key);
  }

  /** Inserting an edge whose own slot is free keeps the graph consistent. */
  lemma InsertConsistent(g: Graph, g': Graph, e: EKey, s: VKey, t: VKey, x: nat, c: nat)
    requires GInv(g) && Consistent(g) && HasVertex(g, s) && HasVertex(g, t) && !IsLive(g, e)
    requires |g.labels[s.lab].parts| > 0 && |g.labels[t.lab].parts| > 0
    requires g' == Insert(g, e, s, t, x, c)
    ensures GInv(g') && Consistent(g') && SameVertices(g, g') && g'.edges == g.edges[e := EdgeRec(s, t, true)]
  {
    InsertAdj(g, g', e, s, t, x, c);
    forall v, key | HasVertex(g', v) ensures Agrees(g', v, key) {
      InsertAgrees(g, g', e, s, t, x, c, v, key);
    }
    forall f | IsLive(g', f) ensures HasVertex(g', g'.edges[f].start) && HasVertex(g', g'.edges[f].end) {
      assert f != e ==> IsLive(g, f);
    }
  }

  lemma InsertAgrees(g: Graph, g': Graph, e: EKey, s: VKey, t: VKey, x: nat, c: nat, v: VKey, key: Key)
    requires HasVertex(g, v) && HasVertex(g', v) && Agrees(g, v, key) && !IsLive(g, e)
    requires g'.edges == g.edges[e := EdgeRec(s, t, true)]
    requires Adj(g', v) == NewEntries(e, s, t, x, c, v) + Adj(g, v)
    ensures Agrees(g', v, key)
  {
    CountConcat(NewEntries(e, s, t, x, c, v), Adj(g, v), key);
    NewCount(g, g', e, s, t, x, c, v, key);
  }

  // ---------------------------------------------------------------- delete

  /** np_internal_delete_edge, on an edge whose tuple is live. */
  ghost function Delete(g: Graph, e: EKey, x: nat, c: nat): Graph
    requires IsLive(g, e)
  {
    var r := g.edges[e];
    var g1 := g.(edges := g.edges[e := r.(live := false)]);
    KillV(KillV(g1, r.start, e.id, x, c), r.end, e.id, x, c)
  }

  /** The entries the two walks of a delete will run over. */
  ghost function StartAdj(g: Graph, e: EKey): seq<Member>
    requires IsLive(g, e) && GInv(g)
  {
    Adj(g, g.edges[e].start)
  }

  ghost function EndAdj(g: Graph, e: EKey, x: nat, c: nat): seq<Member>
    requires IsLive(g, e) && GInv(g)
  {
    var r := g.edges[e];
    if r.start == r.end then Kill(Adj(g, r.end), e.id, x, c) else Adj(g, r.end)
  }

  lemma DeleteAdj(g: Graph, g': Graph, e: EKey, x: nat, c: nat)
    requires GInv(g) && IsLive(g, e) && g' == Delete(g, e, x, c)
    ensures GInv(g') && SamePaths(g, g') && g'.edges == g.edges[e := g.edges[e].(live := false)]
    ensures var r := g.edges[e];
            && Adj(g', r.end) == Kill(EndAdj(g, e, x, c), e.id, x, c)
            && (r.start != r.end ==> Adj(g', r.start) == Kill(StartAdj(g, e), e.id, x, c))
    ensures var r := g.edges[e]; forall u :: HasVertex(g, u) && u != r.start && u != r.end ==> Adj(g', u) == Adj(g, u)
  {
    var r := g.edges[e];
    var g1 := g.(edges := g.edges[e := r.(live := false)]);
    var g2 := KillV(g1, r.start, e.id, x, c);
    KillVKeeps(g1, g2, r.start, e.id, x, c);
    KillVKeeps(g2, g', r.end, e.id, x, c);
    assert Adj(g1, r.start) == Adj(g, r.start) && Adj(g1, r.end) == Adj(g, r.end);
    forall u | HasVertex(g, u) && u != r.start && u != r.end ensures Adj(g', u) == Adj(g, u) {
      assert Adj(g1, u) == Adj(g, u) && Adj(g2, u) == Adj(g1, u);
    }
    EndsStay(g, g', e);
  }

  lemma EndsStay(g: Graph, g': Graph, e: EKey)
    requires GInv(g) && SameVertices(g, g') && IsLive(g, e) && g'.edges == g.edges[e := g.edges[e].(live := false)]
    ensures forall f :: IsLive(g', f) ==> HasVertex(g', g'.edges[f].start) && HasVertex(g', g'.edges[f].end)
  {
    forall f | IsLive(g', f) ensures HasVertex(g', g'.edges[f].start) && HasVertex(g', g'.edges[f].end) {
      assert IsLive(g, f);
    }
  }

  /** In both adjacency lists the nearest live entry with this edge id is under this edge's label. */
  ghost predicate NearestIsOwn(g: Graph, e: EKey, x: nat, c: nat)
    requires IsLive(g, e) && GInv(g)
  {
    && AnyHit(StartAdj(g, e), e.id) && FirstHit(StartAdj(g, e), e.id).elid == e.lid
    && AnyHit(EndAdj(g, e, x, c), e.id) && FirstHit(EndAdj(g, e, x, c), e.id).elid == e.lid
  }

  lemma HitBelongs(g: Graph, v: VKey, edge: nat)
    requires Consistent(g) && HasVertex(g, v) && AnyHit(Adj(g, v), edge)
    ensures Belongs(g, v, KeyOf(FirstHit(Adj(g, v), edge)))
  {
    var ms := Adj(g, v);
    var m := FirstHit(ms, edge);
    var i :| 0 <= i < |ms| && ms[i] == m;
    CountPositive(ms, i);
    assert Agrees(g, v, KeyOf(m));
  }

  lemma OwnHit(ms: seq<Member>, key: Key)
    requires Count(ms, key) > 0
    ensures AnyHit(ms, key.edge.id)
  {
    var i := CountWitness(ms, key);
    assert Hits(ms[i], key.edge.id);
  }

  /** Whatever happens, a consistent graph leads both walks to an entry with the edge's id. */
  lemma DeleteHits(g: Graph, e: EKey, x: nat, c: nat)
    requires GInv(g) && Consistent(g) && IsLive(g, e) && x > 0
    ensures AnyHit(StartAdj(g, e), e.id) && AnyHit(EndAdj(g, e, x, c), e.id)
  {
    var r := g.edges[e];
    var k0, k1 := Key(e, 0, r.end), Key(e, 1, r.start);
    assert Agrees(g, r.start, k0) && Agrees(g, r.end, k1) && Agrees(g, r.end, k0);
    OwnHit(Adj(g, r.start), k0);
    CountKill(Adj(g, r.end), e.id, x, c, k0);
    CountKill(Adj(g, r.end), e.id, x, c, k1);
    if r.start == r.end {
      if Count(EndAdj(g, e, x, c), k0) > 0 {
        OwnHit(EndAdj(g, e, x, c), k0);
      } else {
        OwnHit(EndAdj(g, e, x, c), k1);
      }
    } else {
      OwnHit(Adj(g, r.end), k1);
    }
  }

  /** The keys that a delete takes away from v, as a count. */
  ghost function Removed(g: Graph, e: EKey, x: nat, c: nat, v: VKey, key: Key): nat
    requires GInv(g) && IsLive(g, e) && x > 0
    requires AnyHit(StartAdj(g, e), e.id) && AnyHit(EndAdj(g, e, x, c), e.id)
  {
    (if v == g.edges[e].start && KeyOf(FirstHit(StartAdj(g, e), e.id)) == key then 1 else 0)
    + (if v == g.edges[e].end && KeyOf(FirstHit(EndAdj(g, e, x, c), e.id)) == key then 1 else 0)
  }

  lemma DeleteCount(g: Graph, g': Graph, e: EKey, x: nat, c: nat, v: VKey, key: Key)
    requires GInv(g) && IsLive(g, e) && x > 0 && HasVertex(g, v)
    requires AnyHit(StartAdj(g, e), e.id) && AnyHit(EndAdj(g, e, x, c), e.id)
    requires g' == Delete(g, e, x, c)
    ensures HasVertex(g', v)
    ensures Count(Adj(g', v), key) == Count(Adj(g, v), key) - Removed(g, e, x, c, v, key)
  {
    DeleteAdj(g, g', e, x, c);
    CountKill(StartAdj(g, e), e.id, x, c, key);
    CountKill(EndAdj(g, e, x, c), e.id, x, c, key);
  }

  lemma DeleteBelongs(g: Graph, g': Graph, e: EKey, v: VKey, key: Key)
    requires IsLive(g, e) && g'.edges == g.edges[e := g.edges[e].(live := false)]
    ensures Belongs(g', v, key) <==> Belongs(g, v, key) && key.edge != e
  {
  }

  /** When the nearest entries are the edge's own, they are exactly the two that belong to it. */
  lemma OwnRemoved(g: Graph, e: EKey, x: nat, c: nat, v: VKey, key: Key)
    requires GInv(g) && Consistent(g) && IsLive(g, e) && x > 0 && HasVertex(g, v)
    requires NearestIsOwn(g, e, x, c)
    ensures Removed(g, e, x, c, v, key) == if Belongs(g, v, key) && key.edge == e then 1 else 0
  {
    var r := g.edges[e];
    HitBelongs(g, r.start, e.id);
    var m := FirstHit(StartAdj(g, e), e.id);
    if r.start == r.end {
      var ms := EndAdj(g, e, x, c);
      var m' := FirstHit(ms, e.id);
      var i :| 0 <= i < |ms| && ms[i] == m';
      CountPositive(ms, i);
      CountKill(Adj(g, r.end), e.id, x, c, KeyOf(m'));
      assert Agrees(g, r.end, KeyOf(m'));
    } else {
      HitBelongs(g, r.end, e.id);
    }
  }

  lemma ForeignRemoved(g: Graph, e: EKey, x: nat, c: nat)
    requires GInv(g) && Consistent(g) && IsLive(g, e) && x > 0 && !NearestIsOwn(g, e, x, c)
    ensures !Consistent(Delete(g, e, x, c))
  {
    DeleteHits(g, e, x, c);
    var r, g' := g.edges[e], Delete(g, e, x, c);
    var v := if FirstHit(StartAdj(g, e), e.id).elid != e.lid then r.start else r.end;
    var key := KeyOf(if FirstHit(StartAdj(g, e), e.id).elid != e.lid
                     then FirstHit(StartAdj(g, e), e.id) else FirstHit(EndAdj(g, e, x, c), e.id));
    DeleteAdj(g, g', e, x, c);
    DeleteCount(g, g', e, x, c, v, key);
    DeleteBelongs(g, g', e, v, key);
    assert Agrees(g, v, key);
    if v == r.start && FirstHit(StartAdj(g, e), e.id).elid != e.lid {
      HitBelongs(g, r.start, e.id);
    } else {
      var ms := EndAdj(g, e, x, c);
      var i :| 0 <= i < |ms| && ms[i] == FirstHit(ms, e.id);
      CountPositive(ms, i);
      CountKill(Adj(g, r.end), e.id, x, c, key);
    }
    assert !Agrees(g', v, key);
  }

  /** Adjacency entries are matched on the edge id alone. Deleting an edge therefore keeps the
      graph consistent exactly when, in both walks, the nearest live entry with that id is
      stored under the edge's own label. */
  lemma DeleteConsistentIff(g: Graph, e: EKey, x: nat, c: nat)
    requires GInv(g) && Consistent(g) && IsLive(g, e) && x > 0
    ensures GInv(Delete(g, e, x, c))
    ensures Consistent(Delete(g, e, x, c)) <==> NearestIsOwn(g, e, x, c)
  {
    var g' := Delete(g, e, x, c);
    DeleteAdj(g, g', e, x, c);
    if NearestIsOwn(g, e, x, c) {
      DeleteHits(g, e, x, c);
      forall v, key | HasVertex(g', v) ensures Agrees(g', v, key) {
        assert HasVertex(g, v) && Agrees(g, v, key);
        DeleteCount(g, g', e, x, c, v, key);
        DeleteBelongs(g, g', e, v, key);
        OwnRemoved(g, e, x, c, v, key);
      }
    } else {
      ForeignRemoved(g, e, x, c);
    }
  }

  /** With edge ids unique across labels every delete is safe. */
  lemma UniqueIdsSafe(g: Graph, e: EKey, x: nat, c: nat)
    requires GInv(g) && Consistent(g) && UniqueIds(g) && IsLive(g, e) && x > 0
    ensures NearestIsOwn(g, e, x, c)
  {
    DeleteHits(g, e, x, c);
    var r := g.edges[e];
    HitBelongs(g, r.start, e.id);
    assert KeyOf(FirstHit(StartAdj(g, e), e.id)).edge == e;
    if r.start == r.end {
      var ms := EndAdj(g, e, x, c);
      var m' := FirstHit(ms, e.id);
      var i :| 0 <= i < |ms| && ms[i] == m';
      CountPositive(ms, i);
      CountKill(Adj(g, r.end), e.id, x, c, KeyOf(m'));
      assert Agrees(g, r.end, KeyOf(m'));
      assert KeyOf(m').edge == e;
    } else {
      HitBelongs(g, r.end, e.id);
      assert KeyOf(FirstHit(EndAdj(g, e, x, c), e.id)).edge == e;
    }
  }
}
