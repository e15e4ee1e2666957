/** Head insertion, partition rotation and tombstoning, as functions on a Store. */
module AdjSteps {
  import opened AdjStore

  // ---------------------------------------------------------------- insert at the head

  function SetPrev(s: Store, l: Loc, p: Loc): Store {
    if !ValidLoc(s, l) then s
    else if l.List? then
      s.(parts := s.parts[l.part := s.parts[l.part][l.idx := s.parts[l.part][l.idx].(prev := p)]])
    else
      s.(blocks := s.blocks[l.idx := s.blocks[l.idx].(prev := p)])
  }

  function AppendList(s: Store, a: nat, r: ListRec): Store
    requires a < |s.parts|
  {
    s.(parts := s.parts[a := s.parts[a] + [r]])
  }

  /** One direction of an edge insert, into partition a. */
  function Push(s: Store, a: nat, v: nat, m: Member): Store
    requires a < |s.parts| && v in s.heads
  {
    var here := List(a, |s.parts[a]|);
    var s1 := AppendList(s, a, ListRec(v, m, s.heads[v], Nil));
    var s2 := SetPrev(s1, s.heads[v], here);
    s2.(heads := s2.heads[v := here])
  }

  /** What a push does, record by record: the new record in front, the old head's prev
      pointer redirected, everything else as it was. */
  ghost predicate Pushed(s: Store, s': Store, a: nat, v: nat, m: Member) {
    && a < |s.parts| && v in s.heads
    && var here := List(a, |s.parts[a]|);
    && ValidLoc(s', here) && Next(s', here) == s.heads[v]
    && Owner(s', here) == v && MembersAt(s', here) == [m] && Prev(s', here) == Nil
    && s'.heads == s.heads[v := here] && s'.meta == s.meta
    && |s'.parts| == |s.parts| && |s'.blocks| == |s.blocks|
    && (forall p :: 0 <= p < |s.parts| ==> |s'.parts[p]| == |s.parts[p]| + (if p == a then 1 else 0))
    && (forall l :: ValidLoc(s, l) ==> PushedAt(s, s', v, here, l))
  }

  ghost predicate PushedAt(s: Store, s': Store, v: nat, here: Loc, l: Loc)
    requires ValidLoc(s, l) && v in s.heads
  {
    && ValidLoc(s', l) && Next(s', l) == Next(s, l) && Owner(s', l) == Owner(s, l)
    && MembersAt(s', l) == MembersAt(s, l) && Retired(s', l) == Retired(s, l)
    && Prev(s', l) == (if l == s.heads[v] then here else Prev(s, l))
    && (l != s.heads[v] ==> SameAt(s, s', l))
  }

  lemma PushEffect(s: Store, a: nat, v: nat, m: Member)
    requires a < |s.parts| && v in s.heads
    requires s.heads[v] == Nil || ValidLoc(s, s.heads[v])
    ensures Pushed(s, Push(s, a, v, m), a, v, m)
  {
  }

  lemma PushNode(s: Store, s': Store, v: nat, m: Member, path: seq<Loc>, k: nat, here: Loc, j: nat)
    requires k < |s.parts| && Pushed(s, s', |s.parts| - 1, v, m) && ChainOk(s, v, path, k)
    requires here == List(|s.parts| - 1, |s.parts[|s.parts| - 1]|) && j <= |path|
    ensures StepOk(s', [here] + path, j) && NodeOk(s', v, [here] + path, k, j)
    ensures j > 0 ==> MembersAt(s', path[j - 1]) == MembersAt(s, path[j - 1]) && Before(here, path[j - 1])
  {
    var path' := [here] + path;
    assert At(path', j) == if j == 0 then here else path[j - 1];
    assert At(path', j + 1) == At(path, j);
    if j > 0 {
      assert At(path', j - 1) == if j == 1 then here else path[j - 2];
      assert NodeOk(s, v, path, k, j - 1) && StepOk(s, path, j - 1);
      assert PushedAt(s, s', v, here, path[j - 1]);
      assert j > 1 ==> Before(path[0], path[j - 1]);
    }
  }

  lemma PushChain(s: Store, s': Store, v: nat, m: Member, path: seq<Loc>, k: nat)
    requires k < |s.parts| && Pushed(s, s', |s.parts| - 1, v, m) && ChainOk(s, v, path, k)
    ensures var here := List(|s.parts| - 1, |s.parts[|s.parts| - 1]|);
            && ChainOk(s', v, [here] + path, k)
            && Members(s', [here] + path) == [m] + Members(s, path)
  {
    var here := List(|s.parts| - 1, |s.parts[|s.parts| - 1]|);
    var path' := [here] + path;
    forall j | 0 <= j < |path'| ensures StepOk(s', path', j) && NodeOk(s', v, path', k, j) {
      PushNode(s, s', v, m, path, k, here, j);
    }
    forall i, j | 0 <= i < j < |path'| ensures Before(path'[i], path'[j]) {
      if i > 0 {
        assert Before(path[i - 1], path[j - 1]);
      } else {
        PushNode(s, s', v, m, path, k, here, j);
      }
    }
    forall j | 0 <= j < |path| ensures MembersAt(s', path[j]) == MembersAt(s, path[j]) {
      PushNode(s, s', v, m, path, k, here, j + 1);
    }
    MembersSame(s', s, path);
    assert path'[1..] == path;
  }

  lemma PushOthers(s: Store, s': Store, a: nat, v: nat, u: nat, m: Member, k: nat)
    requires Pushed(s, s', a, v, m) && u in s.heads && u != v
    requires s.heads[v] == Nil || (ValidLoc(s, s.heads[v]) && Owner(s, s.heads[v]) == v)
    requires ChainOk(s, u, Chain(s, u), k)
    ensures ChainOk(s', u, Chain(s, u), k)
    ensures Chain(s', u) == Chain(s, u) && Adjacent(s', u) == Adjacent(s, u)
  {
    forall l | ValidLoc(s, l) && Owner(s, l) == u ensures SameAt(s, s', l) {
      assert PushedAt(s, s', v, List(a, |s.parts[a]|), l);
    }
    ChainFrame(s, s', u, k);
  }

  lemma PushCovered(s: Store, s': Store, v: nat, m: Member, k: nat, p: nat, i: nat)
    requires k < |s.parts| && Pushed(s, s', |s.parts| - 1, v, m)
    requires Covered(s, k, Owners(s.parts[k]))
    requires Chain(s', v) == [List(|s.parts| - 1, |s.parts[|s.parts| - 1]|)] + Chain(s, v)
    requires forall u :: u in s.heads && u != v ==> Chain(s', u) == Chain(s, u)
    requires k <= p < |s.parts| && i < |s'.parts[p]|
    ensures RecCovered(s', k, Owners(s'.parts[k]), p, i)
  {
    var here := List(|s.parts| - 1, |s.parts[|s.parts| - 1]|);
    if i < |s.parts[p]| {
      assert PushedAt(s, s', v, here, List(p, i));
      assert RecCovered(s, k, Owners(s.parts[k]), p, i);
      assert s'.parts[p][i].owner == s.parts[p][i].owner;
    } else {
      assert Owner(s', here) == v && Chain(s', v)[0] == here;
    }
  }

  /** Inserting an entry pushes it on its owner's list and on nobody else's. */
  lemma PushKeeps(s: Store, s': Store, v: nat, m: Member, k: nat)
    requires InvAt(s, k) && v in s.heads && s' == Push(s, |s.parts| - 1, v, m)
    ensures InvAt(s', k)
    ensures Chain(s', v) == [List(|s.parts| - 1, |s.parts[|s.parts| - 1]|)] + Chain(s, v)
    ensures Adjacent(s', v) == [m] + Adjacent(s, v)
    ensures forall u :: u in s.heads && u != v ==> Chain(s', u) == Chain(s, u) && Adjacent(s', u) == Adjacent(s, u)
    ensures s'.heads.Keys == s.heads.Keys && |s'.parts| == |s.parts| && SameLengths(s, s')
  {
    HeadOk(s, v, k);
    PushEffect(s, |s.parts| - 1, v, m);
    PushedKeeps(s, s', v, m, k);
    PushedLengths(s, s', |s.parts| - 1, v, m);
  }

  lemma PushedLengths(s: Store, s': Store, a: nat, v: nat, m: Member)
    requires Pushed(s, s', a, v, m)
    ensures SameLengths(s, s')
  {
    forall l | ValidLoc(s, l) ensures |MembersAt(s', l)| == |MembersAt(s, l)| {
      assert PushedAt(s, s', v, List(a, |s.parts[a]|), l);
    }
  }

  lemma HeadOk(s: Store, v: nat, k: nat)
    requires InvAt(s, k) && v in s.heads
    ensures s.heads[v] == Nil || (ValidLoc(s, s.heads[v]) && Owner(s, s.heads[v]) == v)
  {
    var path := Chain(s, v);
    assert |path| > 0 ==> NodeOk(s, v, path, k, 0);
  }

  lemma PushedKeeps(s: Store, s': Store, v: nat, m: Member, k: nat)
    requires InvAt(s, k) && Pushed(s, s', |s.parts| - 1, v, m)
    requires s.heads[v] == Nil || (ValidLoc(s, s.heads[v]) && Owner(s, s.heads[v]) == v)
    ensures InvAt(s', k)
    ensures Chain(s', v) == [List(|s.parts| - 1, |s.parts[|s.parts| - 1]|)] + Chain(s, v)
    ensures Adjacent(s', v) == [m] + Adjacent(s, v)
    ensures forall u :: u in s.heads && u != v ==> Chain(s', u) == Chain(s, u) && Adjacent(s', u) == Adjacent(s, u)
  {
    PushChain(s, s', v, m, Chain(s, v), k);
    ChainIs(s', v, [List(|s.parts| - 1, |s.parts[|s.parts| - 1]|)] + Chain(s, v));
    forall u | u in s.heads && u != v
      ensures ChainOk(s', u, Chain(s', u), k) && Chain(s', u) == Chain(s, u) && Adjacent(s', u) == Adjacent(s, u)
    {
      PushOthers(s, s', |s.parts| - 1, v, u, m, k);
    }
    forall p, i | k <= p < |s'.parts| && 0 <= i < |s'.parts[p]| ensures RecCovered(s', k, Owners(s'.parts[k]), p, i) {
      PushCovered(s, s', v, m, k, p, i);
    }
  }

  // ---------------------------------------------------------------- rotation

  /** The metadata row of the active partition is switched off; an updated row moves to the end. */
  function Deactivate(meta: seq<MetaRow>, i: nat): seq<MetaRow>
    requires i < |meta|
  {
    meta[..i] + meta[i + 1..] + [meta[i].(active := false)]
  }

  function Rotate(s: Store, i: nat): Store
    requires i < |s.meta|
  {
    s.(parts := s.parts + [[]],
       meta := Deactivate(s.meta, i) + [MetaRow(|s.parts|, true, false)])
  }

  lemma RowMoved(meta: seq<MetaRow>, i: nat, r: MetaRow, id: nat)
    requires i < |meta| && r.id == meta[i].id && HasRow(meta, id)
    ensures HasRow(meta[..i] + meta[i + 1..] + [r], id)
  {
    var rows := meta[..i] + meta[i + 1..] + [r];
    var j :| 0 <= j < |meta| && meta[j].id == id;
    if j < i { assert rows[j] == meta[j]; }
    else if j > i { assert rows[j - 1] == meta[j]; }
    else { assert rows[|rows| - 1] == r; }
  }

  /** Replacing a metadata row by one for the same partition keeps the ids a permutation. */
  lemma RowsPermute(meta: seq<MetaRow>, i: nat, r: MetaRow)
    requires i < |meta| && r.id == meta[i].id
    requires forall x, y :: 0 <= x < y < |meta| ==> meta[x].id != meta[y].id
    ensures var rows := meta[..i] + meta[i + 1..] + [r];
            && |rows| == |meta|
            && (forall x, y :: 0 <= x < y < |rows| ==> rows[x].id != rows[y].id)
            && (forall x :: 0 <= x < |rows| ==> rows[x] == r || exists y :: 0 <= y < |meta| && y != i && meta[y] == rows[x])
  {
    var rows := meta[..i] + meta[i + 1..] + [r];
    forall x | 0 <= x < |rows| ensures rows[x] == if x < i then meta[x] else if x < |rows| - 1 then meta[x + 1] else r {}
    forall x | 0 <= x < |rows| ensures rows[x] == r || exists y :: 0 <= y < |meta| && y != i && meta[y] == rows[x] {
      var y := if x < i then x else x + 1;
      assert x < |rows| - 1 ==> meta[y] == rows[x];
    }
  }

  lemma RotateMeta(s: Store, i: nat, k: nat)
    requires MetaOk(s, k) && i < |s.meta| && s.meta[i].active
    ensures MetaOk(Rotate(s, i), k)
  {
    var s' := Rotate(s, i);
    var d := Deactivate(s.meta, i);
    RowsPermute(s.meta, i, s.meta[i].(active := false));
    assert RowOk(s.meta[i], |s.parts|, k);
    forall id | 0 <= id < |s'.parts| ensures HasRow(s'.meta, id) {
      if id == |s.parts| {
        assert s'.meta[|s'.meta| - 1].id == id;
      } else {
        RowMoved(s.meta, i, s.meta[i].(active := false), id);
        var j :| 0 <= j < |d| && d[j].id == id;
        assert s'.meta[j] == d[j];
      }
    }
    forall j | 0 <= j < |s'.meta| ensures RowOk(s'.meta[j], |s'.parts|, k) {
      if j < |d| {
        assert s'.meta[j] == d[j];
        if d[j] != s.meta[i].(active := false) {
          var y :| 0 <= y < |s.meta| && y != i && s.meta[y] == d[j];
          assert RowOk(s.meta[y], |s.parts|, k);
          assert s.meta[y].id != s.meta[i].id by {
            if y < i { assert s.meta[y].id != s.meta[i].id; } else { assert s.meta[i].id != s.meta[y].id; }
          }
        }
      }
    }
    forall x, y | 0 <= x < y < |s'.meta| ensures s'.meta[x].id != s'.meta[y].id {
      assert s'.meta[x] == d[x];
      if y < |d| {
        assert s'.meta[y] == d[y];
      } else if d[x] == s.meta[i].(active := false) {
        assert d[x].id < |s.parts|;
      } else {
        var z :| 0 <= z < |s.meta| && z != i && s.meta[z] == d[x];
        assert RowOk(s.meta[z], |s.parts|, k);
      }
    }
  }

  /** Opening a new active partition changes no chain. */
  lemma RotateKeeps(s: Store, i: nat, k: nat)
    requires InvAt(s, k) && i < |s.meta| && s.meta[i].active
    ensures InvAt(Rotate(s, i), k) && k < |Rotate(s, i).parts| - 1
    ensures forall v :: v in s.heads ==> Chain(Rotate(s, i), v) == Chain(s, v)
                                         && Adjacent(Rotate(s, i), v) == Adjacent(s, v)
    ensures Rotate(s, i).heads == s.heads
  {
    var s' := Rotate(s, i);
    RotateMeta(s, i, k);
    forall v | v in s.heads
      ensures ChainOk(s', v, Chain(s, v), k) && Chain(s', v) == Chain(s, v) && Adjacent(s', v) == Adjacent(s, v)
    {
      ChainFrame(s, s', v, k);
    }
    forall p, j | k <= p < |s'.parts| && 0 <= j < |s'.parts[p]| ensures RecCovered(s', k, Owners(s'.parts[k]), p, j) {
      assert RecCovered(s, k, Owners(s.parts[k]), p, j);
    }
  }

  // ---------------------------------------------------------------- which partition

  lemma LastActive(s: Store, k: nat, i: nat)
    requires MetaOk(s, k) && i < |s.meta| && s.meta[i].active
    ensures s.meta[i].id == |s.parts| - 1
  {
    assert RowOk(s.meta[i], |s.parts|, k);
  }

  lemma SomeActive(s: Store, k: nat)
    requires MetaOk(s, k)
    ensures exists i :: 0 <= i < |s.meta| && s.meta[i].active
  {
    assert HasRow(s.meta, |s.parts| - 1);
    var i :| 0 <= i < |s.meta| && s.meta[i].id == |s.parts| - 1;
    assert RowOk(s.meta[i], |s.parts|, k);
  }

  predicate Waiting(r: MetaRow) { !r.active && !r.compacted }

  /** The waiting partitions are k, ..., |parts| - 2, so the oldest one is k. */
  lemma OldestIs(s: Store, k: nat, i: nat)
    requires MetaOk(s, k) && i < |s.meta| && Waiting(s.meta[i])
    requires forall j :: 0 <= j < |s.meta| && Waiting(s.meta[j]) ==> s.meta[i].id <= s.meta[j].id
    ensures s.meta[i].id == k && k + 1 < |s.parts|
  {
    assert RowOk(s.meta[i], |s.parts|, k);
    assert HasRow(s.meta, k);
    var j :| 0 <= j < |s.meta| && s.meta[j].id == k;
    assert RowOk(s.meta[j], |s.parts|, k);
  }

  lemma SomeWaiting(s: Store, k: nat)
    requires MetaOk(s, k) && k + 1 < |s.parts|
    ensures exists i :: 0 <= i < |s.meta| && Waiting(s.meta[i])
  {
    assert HasRow(s.meta, k);
    var i :| 0 <= i < |s.meta| && s.meta[i].id == k;
    assert RowOk(s.meta[i], |s.parts|, k);
  }

  // ---------------------------------------------------------------- tombstones

  predicate Hits(m: Member, edge: nat) { m.edge == edge && m.Live() }

  /** The first live entry of the edge, by edge id alone, gets its xmax and cmax. */
  function Kill(ms: seq<Member>, edge: nat, x: nat, c: nat): seq<Member> {
    if ms == [] then []
    else if Hits(ms[0], edge) then [ms[0].(xmax := x, cmax := c)] + ms[1..]
    else [ms[0]] + Kill(ms[1..], edge, x, c)
  }

  predicate AnyHit(ms: seq<Member>, edge: nat) {
    exists i :: 0 <= i < |ms| && Hits(ms[i], edge)
  }

  lemma {:induction false} KillConcat(a: seq<Member>, b: seq<Member>, edge: nat, x: nat, c: nat)
    ensures Kill(a + b, edge, x, c) == if AnyHit(a, edge) then Kill(a, edge, x, c) + b else a + Kill(b, edge, x, c)
  {
    if a == [] {
      assert a + b == b;
    } else {
      assert (a + b)[0] == a[0] && (a + b)[1..] == a[1..] + b;
      KillConcat(a[1..], b, edge, x, c);
      if !Hits(a[0], edge) {
        if AnyHit(a, edge) {
          var i :| 0 <= i < |a| && Hits(a[i], edge);
          assert Hits(a[1..][i - 1], edge);
        } else {
          forall i | 0 <= i < |a[1..]| ensures !Hits(a[1..][i], edge) { assert a[1..][i] == a[i + 1]; }
          assert a + Kill(b, edge, x, c) == [a[0]] + (a[1..] + Kill(b, edge, x, c));
        }
      }
    }
  }

  lemma {:induction false} KillLength(ms: seq<Member>, edge: nat, x: nat, c: nat)
    ensures |Kill(ms, edge, x, c)| == |ms|
    ensures !AnyHit(ms, edge) ==> Kill(ms, edge, x, c) == ms
  {
    if ms != [] {
      KillLength(ms[1..], edge, x, c);
      if !Hits(ms[0], edge) {
        if !AnyHit(ms, edge) {
          forall i | 0 <= i < |ms[1..]| ensures !Hits(ms[1..][i], edge) { assert ms[1..][i] == ms[i + 1]; }
        }
      }
    }
  }

  /** The same, on the record a tuple id points to. */
  function KillAt(s: Store, l: Loc, edge: nat, x: nat, c: nat): Store
    requires ValidLoc(s, l)
  {
    if l.List? then
      var r := s.parts[l.part][l.idx];
      s.(parts := s.parts[l.part := s.parts[l.part][l.idx := r.(m := r.m.(xmax := x, cmax := c))]])
    else
      var r := s.blocks[l.idx];
      s.(blocks := s.blocks[l.idx := r.(adj := Kill(r.adj, edge, x, c))])
  }

  /** Walk the chain to the first record holding a live entry of the edge. */
  function KillIn(s: Store, path: seq<Loc>, edge: nat, x: nat, c: nat): Store {
    if path == [] || !ValidLoc(s, path[0]) then s
    else if AnyHit(MembersAt(s, path[0]), edge) then KillAt(s, path[0], edge, x, c)
    else KillIn(s, path[1..], edge, x, c)
  }

  /** Every pointer, owner and flag is as before; only member stamps may differ. */
  ghost predicate SameShape(s: Store, s': Store) {
    && s'.heads == s.heads && s'.meta == s.meta
    && |s'.parts| == |s.parts| && |s'.blocks| == |s.blocks|
    && (forall p :: 0 <= p < |s.parts| ==> |s'.parts[p]| == |s.parts[p]|)
    && (forall p, i :: 0 <= p < |s.parts| && 0 <= i < |s.parts[p]| ==>
          s'.parts[p][i].(m := s.parts[p][i].m) == s.parts[p][i])
    && (forall i :: 0 <= i < |s.blocks| ==> SameBlock(s.blocks[i], s'.blocks[i]))
  }

  ghost predicate SameBlock(b: BlockRec, b': BlockRec) {
    |b'.adj| == |b.adj| && b'.(adj := b.adj) == b
  }

  /** Records hold as many entries as before. */
  ghost predicate SameLengths(s: Store, s': Store) {
    forall l :: ValidLoc(s, l) ==> |MembersAt(s', l)| == |MembersAt(s, l)|
  }

  lemma ShapeLengths(s: Store, s': Store)
    requires SameShape(s, s')
    ensures SameLengths(s, s')
  {
    forall l | ValidLoc(s, l) ensures |MembersAt(s', l)| == |MembersAt(s, l)| {
      assert l.Block? ==> SameBlock(s.blocks[l.idx], s'.blocks[l.idx]);
    }
  }

  lemma ShapeChains(s: Store, s': Store, k: nat)
    requires InvAt(s, k) && SameShape(s, s')
    ensures InvAt(s', k)
    ensures forall v :: v in s.heads ==> Chain(s', v) == Chain(s, v)
  {
    forall v | v in s.heads ensures ChainOk(s', v, Chain(s, v), k) && Chain(s', v) == Chain(s, v) {
      var path := Chain(s, v);
      forall j | 0 <= j < |path|
        ensures StepOk(s', path, j) && NodeOk(s', v, path, k, j)
      {
        assert NodeOk(s, v, path, k, j) && StepOk(s, path, j);
        if path[j].List? {
          assert s'.parts[path[j].part][path[j].idx].(m := s.parts[path[j].part][path[j].idx].m)
              == s.parts[path[j].part][path[j].idx];
        } else {
          assert SameBlock(s.blocks[path[j].idx], s'.blocks[path[j].idx]);
        }
      }
      ChainIs(s', v, path);
    }
    assert forall i :: 0 <= i < |s.parts[k]| ==> s'.parts[k][i].owner == s.parts[k][i].owner by {
      forall i | 0 <= i < |s.parts[k]| ensures s'.parts[k][i].owner == s.parts[k][i].owner {
        assert s'.parts[k][i].(m := s.parts[k][i].m) == s.parts[k][i];
      }
    }
    assert Owners(s'.parts[k]) == Owners(s.parts[k]) by {
      forall o ensures o in Owners(s'.parts[k]) <==> o in Owners(s.parts[k]) {
        if o in Owners(s.parts[k]) {
          var i :| 0 <= i < |s.parts[k]| && s.parts[k][i].owner == o;
          assert s'.parts[k][i].owner == o;
        }
        if o in Owners(s'.parts[k]) {
          var i :| 0 <= i < |s'.parts[k]| && s'.parts[k][i].owner == o;
          assert s.parts[k][i].owner == o;
        }
      }
    }
    forall p, i | k <= p < |s'.parts| && 0 <= i < |s'.parts[p]| ensures RecCovered(s', k, Owners(s'.parts[k]), p, i) {
      assert RecCovered(s, k, Owners(s.parts[k]), p, i);
      assert s'.parts[p][i].(m := s.parts[p][i].m) == s.parts[p][i];
    }
  }

  lemma KillAtShape(s: Store, l: Loc, edge: nat, x: nat, c: nat)
    requires ValidLoc(s, l) && AnyHit(MembersAt(s, l), edge)
    ensures SameShape(s, KillAt(s, l, edge, x, c))
    ensures MembersAt(KillAt(s, l, edge, x, c), l) == Kill(MembersAt(s, l), edge, x, c)
    ensures forall o :: o != l ==> MembersAt(KillAt(s, l, edge, x, c), o) == MembersAt(s, o)
  {
    if l.Block? {
      KillLength(s.blocks[l.idx].adj, edge, x, c);
    }
  }

  lemma {:induction false} KillInPath(s: Store, path: seq<Loc>, edge: nat, x: nat, c: nat)
    requires forall j :: 0 <= j < |path| ==> ValidLoc(s, path[j])
    requires forall i, j :: 0 <= i < j < |path| ==> path[i] != path[j]
    ensures SameShape(s, KillIn(s, path, edge, x, c))
    ensures Members(KillIn(s, path, edge, x, c), path) == Kill(Members(s, path), edge, x, c)
    ensures forall l :: l !in path ==> MembersAt(KillIn(s, path, edge, x, c), l) == MembersAt(s, l)
  {
    if path != [] {
      var s' := KillIn(s, path, edge, x, c);
      var first, rest := path[0], path[1..];
      KillConcat(MembersAt(s, first), Members(s, rest), edge, x, c);
      assert first !in rest;
      if AnyHit(MembersAt(s, first), edge) {
        KillAtShape(s, first, edge, x, c);
        MembersSame(s', s, rest);
      } else {
        KillInPath(s, rest, edge, x, c);
        assert MembersAt(s', first) == MembersAt(s, first);
      }
    }
  }

  /** Deleting an edge from v's adjacency tombstones one entry of v and changes nothing else. */
  lemma KillKeeps(s: Store, v: nat, edge: nat, x: nat, c: nat, k: nat)
    requires InvAt(s, k) && v in s.heads
    ensures var s' := KillIn(s, Chain(s, v), edge, x, c);
            && InvAt(s', k) && s'.heads == s.heads
            && Adjacent(s', v) == Kill(Adjacent(s, v), edge, x, c)
            && (forall u :: u in s.heads ==> Chain(s', u) == Chain(s, u))
            && (forall u :: u in s.heads && u != v ==> Adjacent(s', u) == Adjacent(s, u))
            && SameLengths(s, s')
  {
    var path := Chain(s, v);
    var s' := KillIn(s, path, edge, x, c);
    forall j | 0 <= j < |path| ensures ValidLoc(s, path[j]) && Owner(s, path[j]) == v {
      assert NodeOk(s, v, path, k, j);
    }
    forall i, j | 0 <= i < j < |path| ensures path[i] != path[j] {
      assert Before(path[i], path[j]);
    }
    KillInPath(s, path, edge, x, c);
    ShapeChains(s, s', k);
    ShapeLengths(s, s');
    forall u | u in s.heads && u != v ensures Adjacent(s', u) == Adjacent(s, u) {
      var q := Chain(s, u);
      forall j | 0 <= j < |q| ensures MembersAt(s', q[j]) == MembersAt(s, q[j]) {
        assert NodeOk(s, u, q, k, j);
        assert q[j] !in path;
      }
      MembersSame(s', s, q);
    }
  }
}
