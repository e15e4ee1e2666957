/** The adjacency storage of one vertex label: a head per phys_map slot that exists, be it as
    padding only, linked-list partitions of which the newest is active, an arraylist table, and
    the metadata rows of the partitions. A tuple id is the position of the tuple in its append-only table;
    module Pages proves that the paged files behave that way. */
module AdjStore {

  /** MAX_EDGES_PER_BLOCK: (8160 - 56) / 52, see ArrayBlockFits in module ArrayBlocks. */
  const MAX_EDGES := 155

  /** A (table, item pointer) pair; Nil is the invalid pointer. */
  datatype Loc = Nil | List(part: nat, idx: nat) | Block(idx: nat)

  /** One adjacency entry. xmax == 0 is the invalid transaction id. */
  datatype Member = Member(edge: nat, elid: nat, dir: nat, other: nat, olid: nat,
                           xmin: nat, cmin: nat, xmax: nat, cmax: nat)
  {
    predicate Live() { xmax == 0 }
  }

  datatype ListRec = ListRec(owner: nat, m: Member, next: Loc, prev: Loc)

  datatype BlockRec = BlockRec(owner: nat, adj: seq<Member>, prev: Loc, next: Loc, retired: bool)

  datatype MetaRow = MetaRow(id: nat, active: bool, compacted: bool)

  datatype Store = Store(heads: map<nat, Loc>, parts: seq<seq<ListRec>>,
                         blocks: seq<BlockRec>, meta: seq<MetaRow>)

  // ---------------------------------------------------------------- chains

  predicate ValidLoc(s: Store, l: Loc) {
    match l
    case Nil => false
    case List(p, i) => p < |s.parts| && i < |s.parts[p]|
    case Block(i) => i < |s.blocks|
  }

  function Next(s: Store, l: Loc): Loc
    requires ValidLoc(s, l)
  {
    if l.List? then s.parts[l.part][l.idx].next else s.blocks[l.idx].next
  }

  function Prev(s: Store, l: Loc): Loc
    requires ValidLoc(s, l)
  {
    if l.List? then s.parts[l.part][l.idx].prev else s.blocks[l.idx].prev
  }

  function Owner(s: Store, l: Loc): nat
    requires ValidLoc(s, l)
  {
    if l.List? then s.parts[l.part][l.idx].owner else s.blocks[l.idx].owner
  }

  function MembersAt(s: Store, l: Loc): seq<Member> {
    if !ValidLoc(s, l) then []
    else if l.List? then [s.parts[l.part][l.idx].m] else s.blocks[l.idx].adj
  }

  function Retired(s: Store, l: Loc): bool
    requires ValidLoc(s, l)
  {
    l.Block? && s.blocks[l.idx].retired
  }

  function At(path: seq<Loc>, j: int): Loc {
    if 0 <= j < |path| then path[j] else Nil
  }

  /** Following next pointers from `from` visits exactly `path` and then stops. */
  ghost predicate Linked(s: Store, from: Loc, path: seq<Loc>) {
    && from == At(path, 0)
    && forall j {:trigger StepOk(s, path, j)} :: 0 <= j < |path| ==> StepOk(s, path, j)
  }

  predicate StepOk(s: Store, path: seq<Loc>, j: nat)
    requires j < |path|
  {
    ValidLoc(s, path[j]) && Next(s, path[j]) == At(path, j + 1)
  }

  ghost function Chain(s: Store, v: nat): (path: seq<Loc>)
    requires v in s.heads
  {
    if exists q :: Linked(s, s.heads[v], q)
    then var q :| Linked(s, s.heads[v], q); q
    else []
  }

  lemma PathsAgree(s: Store, from: Loc, p: seq<Loc>, q: seq<Loc>, j: nat)
    requires Linked(s, from, p) && Linked(s, from, q)
    ensures At(p, j) == At(q, j) && (j < |p| <==> j < |q|)
  {
    if j > 0 {
      PathsAgree(s, from, p, q, j - 1);
      assert j <= |p| ==> StepOk(s, p, j - 1);
      assert j <= |q| ==> StepOk(s, q, j - 1);
    }
    assert j < |p| ==> StepOk(s, p, j);
    assert j < |q| ==> StepOk(s, q, j);
  }

  /** The pointers determine the path: a chain has one traversal. */
  lemma ChainIs(s: Store, v: nat, path: seq<Loc>)
    requires v in s.heads && Linked(s, s.heads[v], path)
    ensures Chain(s, v) == path
  {
    var q := Chain(s, v);
    assert Linked(s, s.heads[v], q);
    PathsAgree(s, s.heads[v], path, q, |path|);
    PathsAgree(s, s.heads[v], path, q, |q|);
    assert |q| == |path|;
    forall j | 0 <= j < |path| ensures q[j] == path[j] {
      PathsAgree(s, s.heads[v], path, q, j);
    }
  }

  // ---------------------------------------------------------------- members

  function Members(s: Store, path: seq<Loc>): seq<Member> {
    if path == [] then [] else MembersAt(s, path[0]) + Members(s, path[1..])
  }

  ghost function Adjacent(s: Store, v: nat): seq<Member>
    requires v in s.heads
  {
    Members(s, Chain(s, v))
  }

  lemma {:induction false} MembersConcat(s: Store, a: seq<Loc>, b: seq<Loc>)
    ensures Members(s, a + b) == Members(s, a) + Members(s, b)
  {
    if a == [] {
      assert a + b == b;
    } else {
      MembersConcat(s, a[1..], b);
      assert (a + b)[1..] == a[1..] + b;
    }
  }

  lemma {:induction false} MembersSame(s: Store, s': Store, path: seq<Loc>)
    requires forall j :: 0 <= j < |path| ==> MembersAt(s, path[j]) == MembersAt(s', path[j])
    ensures Members(s, path) == Members(s', path)
  {
    if path != [] {
      assert MembersAt(s, path[0]) == MembersAt(s', path[0]);
      forall j | 0 <= j < |path[1..]| ensures MembersAt(s, path[1..][j]) == MembersAt(s', path[1..][j]) {
        assert path[1..][j] == path[j + 1];
      }
      MembersSame(s, s', path[1..]);
    }
  }

  // ---------------------------------------------------------------- invariant

  /** `a` may come before `b` in a chain: partitions and positions go down, blocks come last. */
  predicate Before(a: Loc, b: Loc) {
    match a
    case Nil => false
    case List(p, i) => b.Block? || (b.List? && (b.part < p || (b.part == p && b.idx < i)))
    case Block(i) => b.Block? && b.idx != i
  }

  ghost predicate Ordered(path: seq<Loc>) {
    forall i, j {:trigger Before(path[i], path[j])} :: 0 <= i < j < |path| ==> Before(path[i], path[j])
  }

  /** The prev pointer of a list record is the inverse of next; blocks are live and well filled. */
  ghost predicate NodeOk(s: Store, v: nat, path: seq<Loc>, k: nat, j: nat)
    requires j < |path|
  {
    && ValidLoc(s, path[j])
    && Owner(s, path[j]) == v
    && !Retired(s, path[j])
    && (path[j].List? ==> path[j].part >= k && Prev(s, path[j]) == At(path, j - 1))
    && (path[j].Block? ==> 1 <= |MembersAt(s, path[j])| <= MAX_EDGES && !Next(s, path[j]).List?)
  }

  ghost predicate ChainOk(s: Store, v: nat, path: seq<Loc>, k: nat)
    requires v in s.heads
  {
    && Linked(s, s.heads[v], path)
    && Ordered(path)
    && forall j {:trigger NodeOk(s, v, path, k, j)} :: 0 <= j < |path| ==> NodeOk(s, v, path, k, j)
  }

  /** Partitions below k are compacted, the last one is the only active one. */
  ghost predicate MetaOk(s: Store, k: nat) {
    && k < |s.parts| == |s.meta|
    && (forall i, j :: 0 <= i < j < |s.meta| ==> s.meta[i].id != s.meta[j].id)
    && (forall id :: 0 <= id < |s.parts| ==> HasRow(s.meta, id))
    && forall i :: 0 <= i < |s.meta| ==> RowOk(s.meta[i], |s.parts|, k)
  }

  predicate HasRow(meta: seq<MetaRow>, id: nat) {
    exists i :: 0 <= i < |meta| && meta[i].id == id
  }

  predicate RowOk(r: MetaRow, n: nat, k: nat) {
    r.id < n && (r.active <==> r.id == n - 1) && (r.compacted <==> r.id < k)
  }

  /** Records of partitions above k are all reachable; those of partition k as long as
      their owner is still in `todo`; those below k are not needed any more. */
  ghost predicate Covered(s: Store, k: nat, todo: set<nat>) {
    forall p, i {:trigger RecCovered(s, k, todo, p, i)} ::
      k <= p < |s.parts| && 0 <= i < |s.parts[p]| ==> RecCovered(s, k, todo, p, i)
  }

  ghost predicate RecCovered(s: Store, k: nat, todo: set<nat>, p: nat, i: nat)
    requires p < |s.parts| && i < |s.parts[p]|
  {
    var o := s.parts[p][i].owner;
    && o in s.heads
    && ((p > k || o in todo) <==> List(p, i) in Chain(s, o))
  }

  /** The state inside a compaction of partition k, with the owners in `todo` left to process. */
  ghost predicate Mid(s: Store, k: nat, todo: set<nat>) {
    && k < |s.parts|
    && (forall v :: v in s.heads ==> ChainOk(s, v, Chain(s, v), k))
    && Covered(s, k, todo)
  }

  ghost function Owners(recs: seq<ListRec>): set<nat> {
    set i | 0 <= i < |recs| :: recs[i].owner
  }

  ghost predicate InvAt(s: Store, k: nat) {
    MetaOk(s, k) && Mid(s, k, Owners(s.parts[k]))
  }

  ghost predicate Inv(s: Store) {
    exists k :: InvAt(s, k)
  }

  // ---------------------------------------------------------------- frames

  ghost predicate SameAt(s: Store, s': Store, l: Loc) {
    && ValidLoc(s, l) && ValidLoc(s', l)
    && (l.List? ==> s.parts[l.part][l.idx] == s'.parts[l.part][l.idx])
    && (l.Block? ==> s.blocks[l.idx] == s'.blocks[l.idx])
  }

  /** Records of vertex v are not touched. */
  ghost predicate Untouched(s: Store, s': Store, v: nat) {
    && v in s.heads && v in s'.heads && s.heads[v] == s'.heads[v]
    && forall l :: ValidLoc(s, l) && Owner(s, l) == v ==> SameAt(s, s', l)
  }

  lemma ChainFrame(s: Store, s': Store, v: nat, k: nat)
    requires Untouched(s, s', v) && ChainOk(s, v, Chain(s, v), k)
    ensures ChainOk(s', v, Chain(s, v), k)
    ensures Chain(s', v) == Chain(s, v) && Adjacent(s', v) == Adjacent(s, v)
  {
    var path := Chain(s, v);
    forall j | 0 <= j < |path|
      ensures NodeOk(s', v, path, k, j) && StepOk(s', path, j) && MembersAt(s, path[j]) == MembersAt(s', path[j])
    {
      assert NodeOk(s, v, path, k, j) && StepOk(s, path, j);
      assert SameAt(s, s', path[j]);
    }
    ChainIs(s', v, path);
    MembersSame(s, s', path);
  }

  /** A vertex without edges. */
  function AddVertex(s: Store, v: nat): Store {
    s.(heads := s.heads[v := Nil])
  }

  lemma AddVertexKeeps(s: Store, v: nat, k: nat)
    requires InvAt(s, k) && v !in s.heads
    ensures InvAt(AddVertex(s, v), k)
    ensures Adjacent(AddVertex(s, v), v) == []
    ensures forall u :: u in s.heads ==> Chain(AddVertex(s, v), u) == Chain(s, u)
                                         && Adjacent(AddVertex(s, v), u) == Adjacent(s, u)
  {
    var s' := AddVertex(s, v);
    forall u | u in s.heads
      ensures ChainOk(s', u, Chain(s, u), k) && Chain(s', u) == Chain(s, u) && Adjacent(s', u) == Adjacent(s, u)
    {
      ChainFrame(s, s', u, k);
    }
    ChainIs(s', v, []);
    assert Ordered([]);
    forall p, i | k <= p < |s'.parts| && 0 <= i < |s'.parts[p]|
      ensures RecCovered(s', k, Owners(s'.parts[k]), p, i)
    {
      assert RecCovered(s, k, Owners(s.parts[k]), p, i);
    }
  }

  /** The slots from first up to n, none of which exists yet: padding and then the vertex. */
  function AddSlots(s: Store, first: nat, n: nat): Store
    decreases n
  {
    if n <= first then s else AddVertex(AddSlots(s, first, n - 1), n - 1)
  }

  lemma {:induction false} AddSlotsKeeps(s: Store, first: nat, n: nat, k: nat)
    requires InvAt(s, k) && forall i :: first <= i < n ==> i !in s.heads
    ensures var s' := AddSlots(s, first, n);
      && InvAt(s', k)
      && (forall u :: u in s'.heads <==> u in s.heads || first <= u < n)
      && (forall u :: first <= u < n ==> Adjacent(s', u) == [])
      && (forall u :: u in s.heads ==> Chain(s', u) == Chain(s, u) && Adjacent(s', u) == Adjacent(s, u))
    decreases n
  {
    if first < n {
      AddSlotsKeeps(s, first, n - 1, k);
      AddVertexKeeps(AddSlots(s, first, n - 1), n - 1, k);
    }
  }

  /** Writing a fresh record into a slot that exists, as padding or otherwise, keeps the slot's
      adjacency exactly when it had none. */
  lemma PlaceAgainIff(s: Store, v: nat, k: nat)
    requires InvAt(s, k) && v in s.heads
    ensures Adjacent(AddVertex(s, v), v) == Adjacent(s, v) <==> s.heads[v] == Nil
  {
    var s', path := AddVertex(s, v), Chain(s, v);
    ChainIs(s', v, []);
    if s.heads[v] == Nil {
      ChainIs(s, v, []);
    } else {
      assert NodeOk(s, v, path, k, 0);
      assert Members(s, path) == MembersAt(s, path[0]) + Members(s, path[1..]);
    }
  }
}
