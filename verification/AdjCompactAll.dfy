/** From the scan of a partition to the compacted store. */
module AdjCompactAll {
  import opened AdjStore
  import opened AdjSteps
  import opened AdjCompact

  lemma FindCut(s: Store, v: nat, path: seq<Loc>, k: nat, i: nat) returns (a: nat, b: nat)
    requires v in s.heads && ChainOk(s, v, path, k) && List(k, i) in path
    ensures Cut(path, k, a, b)
  {
    a := 0;
    while a < |path| && path[a].List? && path[a].part > k
      invariant a <= |path|
      invariant forall j :: 0 <= j < a ==> path[j].List? && path[j].part > k
    {
      a := a + 1;
    }
    b := a;
    while b < |path| && InPart(path[b], k)
      invariant a <= b <= |path|
      invariant forall j :: a <= j < b ==> InPart(path[j], k)
    {
      b := b + 1;
    }
    if b < |path| {
      assert NodeOk(s, v, path, k, b);
      assert a < b ==> Before(path[a], path[b]);
    }
    forall j | b <= j < |path| ensures path[j].Block? {
      if j > b { assert Before(path[b], path[j]); }
    }
    var q :| 0 <= q < |path| && path[q] == List(k, i);
    assert a <= q < b;
  }

  lemma ScanStep(s: Store, v: nat, path: seq<Loc>, k: nat, a: nat, b: nat, n: nat, q: nat)
    requires v in s.heads && k < |s.parts| && 1 <= n <= |s.parts[k]| && s.parts[k][n - 1].owner == v
    requires ChainOk(s, v, path, k) && Cut(path, k, a, b)
    requires a <= q < b && path[q] == List(k, n - 1)
    requires EntryOf(s.parts[k][..n - 1], k, v) ==
             Entry(Rev(Members(s, path[q + 1..b])), Nil, if q + 1 < b then At(path, b) else Nil)
    ensures EntryOf(s.parts[k][..n], k, v) ==
            Entry(Rev(Members(s, path[q..b])), if q == a then At(path, a - 1) else Nil, At(path, b))
  {
    var recs, r := s.parts[k], s.parts[k][n - 1];
    assert recs[..n][..n - 1] == recs[..n - 1] && recs[..n][n - 1] == r;
    assert NodeOk(s, v, path, k, q) && StepOk(s, path, q);
    assert r.prev == At(path, q - 1) && r.next == At(path, q + 1);
    assert path[q..b][0] == path[q] && path[q..b][1..] == path[q + 1..b];
    assert Members(s, path[q..b]) == [r.m] + Members(s, path[q + 1..b]);
  }

  lemma ScanSkip(s: Store, v: nat, path: seq<Loc>, k: nat, a: nat, b: nat, n: nat, c: nat)
    requires v in s.heads && k < |s.parts| && 1 <= n <= |s.parts[k]| && s.parts[k][n - 1].owner != v
    requires ChainOk(s, v, path, k) && Cut(path, k, a, b) && a <= c <= b
    requires forall j :: a <= j < c ==> path[j].idx >= n - 1
    ensures forall j :: a <= j < c ==> path[j].idx >= n
    ensures EntryOf(s.parts[k][..n], k, v) == EntryOf(s.parts[k][..n - 1], k, v)
  {
    var recs := s.parts[k];
    assert recs[..n][..n - 1] == recs[..n - 1] && recs[..n][n - 1] == recs[n - 1];
    forall j | a <= j < c ensures path[j].idx >= n {
      assert NodeOk(s, v, path, k, j);
    }
  }

  /** Positions go down along the segment, so record n - 1 sits right before the older ones. */
  lemma FindInSegment(path: seq<Loc>, k: nat, a: nat, b: nat, n: nat, c0: nat) returns (q: nat)
    requires n >= 1 && Ordered(path) && Cut(path, k, a, b) && a <= c0 <= b && List(k, n - 1) in path
    requires forall j :: a <= j < c0 ==> path[j].idx >= n - 1
    requires forall j :: c0 <= j < b ==> path[j].idx < n - 1
    ensures a <= q < b && q + 1 == c0 && path[q] == List(k, n - 1)
    ensures forall j :: a <= j < q ==> path[j].idx >= n
  {
    q :| 0 <= q < |path| && path[q] == List(k, n - 1);
    assert a <= q < c0;
    assert q + 1 < c0 ==> Before(path[q], path[q + 1]);
    forall j | a <= j < q ensures path[j].idx >= n { assert Before(path[j], path[q]); }
  }

  /** After n records the segment is scanned from c on, and the hash entry of v says so. */
  ghost predicate Scanned(s: Store, v: nat, path: seq<Loc>, k: nat, a: nat, b: nat, n: nat, c: nat)
    requires k < |s.parts| && n <= |s.parts[k]| && Cut(path, k, a, b)
  {
    && a <= c <= b
    && (forall j :: a <= j < c ==> InPart(path[j], k) && path[j].idx >= n)
    && (forall j :: c <= j < b ==> InPart(path[j], k) && path[j].idx < n)
    && EntryOf(s.parts[k][..n], k, v) ==
       Entry(Rev(Members(s, path[c..b])), if c == a then At(path, a - 1) else Nil,
             if c < b then At(path, b) else Nil)
  }

  lemma ScanNext(s: Store, v: nat, path: seq<Loc>, k: nat, a: nat, b: nat, n: nat, c0: nat) returns (c: nat)
    requires v in s.heads && k < |s.parts| && 1 <= n <= |s.parts[k]|
    requires ChainOk(s, v, path, k) && Cut(path, k, a, b) && Scanned(s, v, path, k, a, b, n - 1, c0)
    requires s.parts[k][n - 1].owner == v ==> List(k, n - 1) in path
    ensures Scanned(s, v, path, k, a, b, n, c)
  {
    if s.parts[k][n - 1].owner != v {
      c := c0;
      ScanSkip(s, v, path, k, a, b, n, c);
    } else {
      c := FindInSegment(path, k, a, b, n, c0);
      ScanStep(s, v, path, k, a, b, n, c);
    }
  }

  /** The hash entry of v after the first n records describes the oldest part of v's segment. */
  lemma {:induction false} ScanEntry(s: Store, v: nat, path: seq<Loc>, k: nat, a: nat, b: nat, n: nat)
      returns (c: nat)
    requires v in s.heads && k < |s.parts| && n <= |s.parts[k]|
    requires ChainOk(s, v, path, k) && Cut(path, k, a, b)
    requires forall i :: 0 <= i < |s.parts[k]| && s.parts[k][i].owner == v ==> List(k, i) in path
    ensures Scanned(s, v, path, k, a, b, n, c)
  {
    if n == 0 {
      c := b;
      assert path[b..b] == [];
    } else {
      var c0 := ScanEntry(s, v, path, k, a, b, n - 1);
      c := ScanNext(s, v, path, k, a, b, n, c0);
    }
  }

  lemma OwnerEntry(s: Store, v: nat, k: nat, todo: set<nat>, i: nat) returns (a: nat, b: nat)
    requires Mid(s, k, todo) && v in s.heads && v in todo
    requires i < |s.parts[k]| && s.parts[k][i].owner == v
    ensures var path, e := Chain(s, v), EntryOf(s.parts[k], k, v);
            && Cut(path, k, a, b) && EntryOk(s, e)
            && e.up == At(path, a - 1) && e.down == At(path, b)
            && e.adj == Rev(Members(s, path[a..b]))
  {
    var path := Chain(s, v);
    forall j | 0 <= j < |s.parts[k]| && s.parts[k][j].owner == v ensures List(k, j) in path {
      assert RecCovered(s, k, todo, k, j);
    }
    a, b := FindCut(s, v, path, k, i);
    var c := ScanEntry(s, v, path, k, a, b, |s.parts[k]|);
    assert s.parts[k][..|s.parts[k]|] == s.parts[k];
    assert NodeOk(s, v, path, k, a);
    assert a > 0 ==> NodeOk(s, v, path, k, a - 1);
    assert b < |path| ==> NodeOk(s, v, path, k, b);
    assert path[a..b][0] == path[a];
    assert Members(s, path[a..b]) == [s.parts[k][path[a].idx].m] + Members(s, path[a..b][1..]);
  }

  /** Members of the chain, cut in three. */
  lemma MembersCut(s: Store, path: seq<Loc>, a: nat, b: nat)
    requires a <= b <= |path|
    ensures Members(s, path) == Members(s, path[..a]) + Members(s, path[a..b]) + Members(s, path[b..])
  {
    assert path == path[..a] + path[a..b] + path[b..];
    MembersConcat(s, path[..a] + path[a..b], path[b..]);
    MembersConcat(s, path[..a], path[a..b]);
  }

  lemma MergedTail(s: Store, path: seq<Loc>, b: nat, e: Entry)
    requires b <= |path| && e.down == At(path, b)
    requires e.down == Nil || (e.down.Block? && ValidLoc(s, e.down))
    requires b < |path| ==> path[b].Block?
    ensures Merged(s, e) + Members(s, Tail(path, b)) == e.adj + Members(s, path[b..])
  {
    if b < |path| {
      assert path[b..][0] == path[b] && path[b..][1..] == Tail(path, b);
      assert (e.adj + MembersAt(s, e.down)) + Members(s, Tail(path, b))
          == e.adj + (MembersAt(s, e.down) + Members(s, Tail(path, b)));
    } else {
      assert path[b..] == [];
    }
  }

  lemma Reassociate<T>(a: seq<T>, m: seq<T>, t: seq<T>, r: seq<T>, seg: seq<T>, rest: seq<T>)
    requires m + t == r + rest && multiset(r) == multiset(seg)
    ensures multiset(a + m + t) == multiset(a + seg + rest)
  {
    assert a + m + t == a + (m + t);
    assert a + (r + rest) == a + r + rest;
  }

  lemma CompactOwnerFrame(s: Store, s': Store, v: nat, e: Entry, path: seq<Loc>, k: nat, a: nat, b: nat, u: nat)
    requires SpliceReady(s, s', v, e, path, k, a, b) && u in s.heads && u != v
    requires ChainOk(s, u, Chain(s, u), k)
    ensures ChainOk(s', u, Chain(s, u), k) && Chain(s', u) == Chain(s, u) && Adjacent(s', u) == Adjacent(s, u)
  {
    assert a > 0 ==> NodeOk(s, v, path, k, a - 1);
    assert b < |path| ==> NodeOk(s, v, path, k, b);
    forall l | ValidLoc(s, l) && Owner(s, l) == u ensures SameAt(s, s', l) {
      assert SplicedAt(s, s', e, l);
    }
    ChainFrame(s, s', u, k);
  }

  lemma CompactCovered(s: Store, s': Store, v: nat, e: Entry, path: seq<Loc>, k: nat, a: nat, b: nat,
                       todo: set<nat>, p: nat, i: nat)
    requires SpliceReady(s, s', v, e, path, k, a, b) && path == Chain(s, v)
    requires Chain(s', v) == NewPath(path, a, b, |s.blocks|, NumChunks(|Merged(s, e)|))
    requires forall u :: u in s.heads && u != v ==> Chain(s', u) == Chain(s, u)
    requires k <= p < |s.parts| && i < |s.parts[p]| && RecCovered(s, k, todo, p, i)
    ensures i < |s'.parts[p]| && RecCovered(s', k, todo - {v}, p, i)
  {
    var l := List(p, i);
    assert SplicedAt(s, s', e, l);
    var o := Owner(s, l);
    assert s'.parts[p][i].owner == o && s'.heads.Keys == s.heads.Keys;
    if o == v {
      var path' := Chain(s', v);
      if p > k {
        var q :| 0 <= q < |path| && path[q] == l;
        assert q < a;
        assert path'[q] == l;
      } else {
        forall q | 0 <= q < |path'| ensures path'[q] != l {
          NewPathAt(path, a, b, |s.blocks|, NumChunks(|Merged(s, e)|), q);
          assert path'[q] == At(path', q);
        }
      }
    }
  }

  lemma OwnerReady(s: Store, k: nat, todo: set<nat>, v: nat) returns (a: nat, b: nat)
    requires Mid(s, k, todo) && v in todo && todo <= Owners(s.parts[k])
    ensures v in s.heads
    ensures SpliceReady(s, CompactOwner(s, k, v), v, EntryOf(s.parts[k], k, v), Chain(s, v), k, a, b)
    ensures EntryOf(s.parts[k], k, v).adj == Rev(Members(s, Chain(s, v)[a..b]))
  {
    var i :| 0 <= i < |s.parts[k]| && s.parts[k][i].owner == v;
    assert RecCovered(s, k, todo, k, i);
    a, b := OwnerEntry(s, v, k, todo, i);
    SpliceEffect(s, v, EntryOf(s.parts[k], k, v));
  }

  /** Rewriting one owner: its segment of partition k comes back, oldest first, in blocks
      together with the block that followed; every other vertex is untouched. */
  lemma CompactOwnerKeeps(s: Store, k: nat, todo: set<nat>, v: nat)
    requires Mid(s, k, todo) && v in todo && todo <= Owners(s.parts[k])
    ensures var s' := CompactOwner(s, k, v);
            && Mid(s', k, todo - {v})
            && s'.heads.Keys == s.heads.Keys && s'.meta == s.meta
            && |s'.parts| == |s.parts| && s'.parts[k] == s.parts[k]
    ensures v in s.heads && multiset(Adjacent(CompactOwner(s, k, v), v)) == multiset(Adjacent(s, v))
    ensures forall u :: u in s.heads && u != v ==> Adjacent(CompactOwner(s, k, v), u) == Adjacent(s, u)
  {
    var a, b := OwnerReady(s, k, todo, v);
    var path, e, s' := Chain(s, v), EntryOf(s.parts[k], k, v), CompactOwner(s, k, v);
    CompactOwnerStep(s, s', k, todo, v, e, a, b);
    OwnerMultiset(s, path, a, b, e);
  }

  lemma OwnerMultiset(s: Store, path: seq<Loc>, a: nat, b: nat, e: Entry)
    requires a <= b <= |path| && e.down == At(path, b) && e.adj == Rev(Members(s, path[a..b]))
    requires e.down == Nil || (e.down.Block? && ValidLoc(s, e.down))
    requires b < |path| ==> path[b].Block?
    ensures multiset(Members(s, path[..a]) + Merged(s, e) + Members(s, Tail(path, b))) == multiset(Members(s, path))
  {
    MembersCut(s, path, a, b);
    MergedTail(s, path, b, e);
    var seg := Members(s, path[a..b]);
    RevMultiset(seg);
    Reassociate(Members(s, path[..a]), Merged(s, e), Members(s, Tail(path, b)), Rev(seg), seg, Members(s, path[b..]));
  }

  lemma CompactOwnerStep(s: Store, s': Store, k: nat, todo: set<nat>, v: nat, e: Entry, a: nat, b: nat)
    requires Mid(s, k, todo) && v in s.heads && v in s'.heads
    requires SpliceReady(s, s', v, e, Chain(s, v), k, a, b)
    ensures Mid(s', k, todo - {v})
    ensures |s'.parts| == |s.parts| && s'.parts[k] == s.parts[k]
    ensures Adjacent(s', v) == Members(s, Chain(s, v)[..a]) + Merged(s, e) + Members(s, Tail(Chain(s, v), b))
    ensures forall u :: u in s.heads && u != v ==> Chain(s', u) == Chain(s, u) && Adjacent(s', u) == Adjacent(s, u)
  {
    var path := Chain(s, v);
    SpliceChain(s, s', v, e, path, k, a, b);
    ChainIs(s', v, NewPath(path, a, b, |s.blocks|, NumChunks(|Merged(s, e)|)));
    forall u | u in s.heads && u != v
      ensures ChainOk(s', u, Chain(s', u), k) && Chain(s', u) == Chain(s, u) && Adjacent(s', u) == Adjacent(s, u)
    {
      CompactOwnerFrame(s, s', v, e, path, k, a, b, u);
    }
    assert s'.parts[k] == s.parts[k] by {
      forall i | 0 <= i < |s.parts[k]| ensures s'.parts[k][i] == s.parts[k][i] {
        assert SplicedAt(s, s', e, List(k, i));
      }
    }
    forall p, i | k <= p < |s'.parts| && 0 <= i < |s'.parts[p]| ensures RecCovered(s', k, todo - {v}, p, i) {
      assert RecCovered(s, k, todo, p, i);
      CompactCovered(s, s', v, e, path, k, a, b, todo, p, i);
    }
  }

  // ---------------------------------------------------------------- all owners

  function CompactOwners(s: Store, k: nat, order: seq<nat>): Store
    requires k < |s.parts|
    decreases |order|
  {
    if order == [] then s
    else
      var s' := CompactOwner(s, k, order[0]);
      if k < |s'.parts| then CompactOwners(s', k, order[1..]) else s'
  }

  /** Every owner once, in the order the hash table happens to give. */
  ghost predicate Enumerates(order: seq<nat>, todo: set<nat>) {
    && (forall i, j :: 0 <= i < j < |order| ==> order[i] != order[j])
    && (forall v :: v in todo <==> v in order)
  }

  lemma {:induction false} CompactOwnersKeep(s: Store, k: nat, todo: set<nat>, order: seq<nat>)
    requires Mid(s, k, todo) && todo <= Owners(s.parts[k]) && Enumerates(order, todo)
    ensures var s' := CompactOwners(s, k, order);
            && Mid(s', k, {}) && s'.heads.Keys == s.heads.Keys && s'.meta == s.meta && |s'.parts| == |s.parts|
    ensures forall v :: v in s.heads ==>
              multiset(Adjacent(CompactOwners(s, k, order), v)) == multiset(Adjacent(s, v))
    decreases |order|
  {
    if order == [] {
      assert todo == {};
    } else {
      var v := order[0];
      CompactOwnerKeeps(s, k, todo, v);
      forall u ensures u in todo - {v} <==> u in order[1..] {
        if u in order[1..] {
          var i :| 0 <= i < |order[1..]| && order[1..][i] == u;
          assert order[0] != order[i + 1];
        }
      }
      CompactOwnersKeep(CompactOwner(s, k, v), k, todo - {v}, order[1..]);
    }
  }

  /** The metadata row of the partition gets compacted = true and moves to the end. */
  function MarkCompacted(s: Store, i: nat): Store
    requires i < |s.meta|
  {
    s.(meta := s.meta[..i] + s.meta[i + 1..] + [s.meta[i].(compacted := true)])
  }

  function Compact(s: Store, k: nat, order: seq<nat>, i: nat): Store
    requires k < |s.parts|
  {
    var s' := CompactOwners(s, k, order);
    if i < |s'.meta| then MarkCompacted(s', i) else s'
  }

  lemma MarkMeta(s: Store, i: nat, k: nat)
    requires MetaOk(s, k) && i < |s.meta| && s.meta[i].id == k && k + 1 < |s.parts|
    ensures MetaOk(MarkCompacted(s, i), k + 1)
  {
    var r := s.meta[i].(compacted := true);
    var s' := MarkCompacted(s, i);
    RowsPermute(s.meta, i, r);
    assert RowOk(s.meta[i], |s.parts|, k);
    forall id | 0 <= id < |s'.parts| ensures HasRow(s'.meta, id) { RowMoved(s.meta, i, r, id); }
    forall j | 0 <= j < |s'.meta| ensures RowOk(s'.meta[j], |s'.parts|, k + 1) {
      if s'.meta[j] != r {
        var y :| 0 <= y < |s.meta| && y != i && s.meta[y] == s'.meta[j];
        assert RowOk(s.meta[y], |s.parts|, k);
        assert s.meta[y].id != s.meta[i].id by {
          if y < i { assert s.meta[y].id != s.meta[i].id; } else { assert s.meta[i].id != s.meta[y].id; }
        }
      }
    }
  }

  lemma MidAdvance(s: Store, s': Store, k: nat)
    requires Mid(s, k, {}) && k + 1 < |s.parts|
    requires s' == s.(meta := s'.meta)
    ensures Mid(s', k + 1, Owners(s'.parts[k + 1]))
    ensures forall v :: v in s.heads ==> Chain(s', v) == Chain(s, v) && Adjacent(s', v) == Adjacent(s, v)
  {
    var k' := k + 1;
    forall v | v in s.heads
      ensures ChainOk(s', v, Chain(s', v), k') && Chain(s', v) == Chain(s, v) && Adjacent(s', v) == Adjacent(s, v)
    {
      var path := Chain(s, v);
      ChainFrame(s, s', v, k);
      forall j | 0 <= j < |path| ensures NodeOk(s', v, path, k', j) {
        assert NodeOk(s', v, path, k, j);
        assert path[j] in path;
        assert InPart(path[j], k) ==> RecCovered(s, k, {}, k, path[j].idx);
      }
    }
    var todo' := Owners(s'.parts[k']);
    forall p, i | k' <= p < |s'.parts| && 0 <= i < |s'.parts[p]| ensures RecCovered(s', k', todo', p, i) {
      assert RecCovered(s, k, {}, p, i);
    }
  }

  /** Compacting the oldest inactive partition keeps every vertex's entries, stamps included,
      whatever order the hash table gives, and moves the compacted prefix up by one. */
  lemma CompactKeeps(s: Store, k: nat, order: seq<nat>, i: nat)
    requires InvAt(s, k) && k + 1 < |s.parts| && i < |s.meta| && s.meta[i].id == k
    requires Enumerates(order, Owners(s.parts[k]))
    ensures InvAt(Compact(s, k, order, i), k + 1)
    ensures Compact(s, k, order, i).heads.Keys == s.heads.Keys
    ensures |Compact(s, k, order, i).parts| == |s.parts|
    ensures forall v :: v in s.heads ==>
              multiset(Adjacent(Compact(s, k, order, i), v)) == multiset(Adjacent(s, v))
  {
    CompactOwnersKeep(s, k, Owners(s.parts[k]), order);
    var s1 := CompactOwners(s, k, order);
    MarkMeta(s1, i, k);
    MidAdvance(s1, MarkCompacted(s1, i), k);
  }
}
