/** Not only which entries survive a compaction but where they stand. */
module AdjOrder {
  import opened AdjStore
  import opened AdjSteps
  import opened AdjCompact
  import opened AdjCompactAll

  lemma {:induction false} RevAt<T>(ms: seq<T>, i: nat)
    requires i < |ms|
    ensures |Rev(ms)| == |ms| && Rev(ms)[i] == ms[|ms| - 1 - i]
  {
    RevLength(ms[1..]);
    if i < |ms| - 1 { RevAt(ms[1..], i); }
  }

  lemma {:induction false} RevLength<T>(ms: seq<T>)
    ensures |Rev(ms)| == |ms|
  {
    if ms != [] { RevLength(ms[1..]); }
  }

  /** Of the entries a, newest first, those of positions i up to j come back oldest first; what is newer
      and what is older stays where it was. */
  ghost predicate TurnedAt(a: seq<Member>, b: seq<Member>, i: nat, j: nat) {
    && i <= j <= |a| == |b|
    && forall h {:trigger PlaceOk(a, b, i, j, h)} :: 0 <= h < |a| ==> PlaceOk(a, b, i, j, h)
  }

  predicate PlaceOk(a: seq<Member>, b: seq<Member>, i: nat, j: nat, h: nat)
    requires i <= j <= |a| == |b| && h < |a|
  {
    b[h] == if i <= h < j then a[i + j - 1 - h] else a[h]
  }

  /** Positions i up to j are the records of partition k on the chain: newer partitions before them,
      blocks behind. */
  ghost predicate SegmentOf(path: seq<Loc>, k: nat, i: nat, j: nat) {
    && i <= j <= |path|
    && (forall h :: 0 <= h < i ==> path[h].List? && path[h].part > k)
    && (forall h :: i <= h < j ==> path[h].List? && path[h].part == k)
    && (i < j ==> forall h :: j <= h < |path| ==> path[h].Block?)
  }

  ghost predicate Turned(s: Store, s': Store, v: nat, k: nat)
    requires v in s.heads && v in s'.heads
  {
    exists i, j :: SegmentOf(Chain(s, v), k, i, j) && TurnedAt(Adjacent(s, v), Adjacent(s', v), i, j)
  }

  lemma {:induction false} ListMembers(s: Store, path: seq<Loc>)
    requires forall h :: 0 <= h < |path| ==> path[h].List? && ValidLoc(s, path[h])
    ensures |Members(s, path)| == |path|
  {
    if path != [] {
      assert path[0].List? && ValidLoc(s, path[0]);
      ListMembers(s, path[1..]);
    }
  }

  lemma ThreeParts(x: seq<Member>, y: seq<Member>, z: seq<Member>, a: seq<Member>, b: seq<Member>, i: nat, j: nat)
    requires a == x + y + z && b == x + Rev(y) + z && i == |x| && j == |x| + |y|
    ensures TurnedAt(a, b, i, j)
  {
    RevLength(y);
    forall h | 0 <= h < |a| ensures PlaceOk(a, b, i, j, h) { OnePlace(x, y, z, a, b, i, j, h); }
  }

  lemma OnePlace(x: seq<Member>, y: seq<Member>, z: seq<Member>, a: seq<Member>, b: seq<Member>, i: nat, j: nat, h: nat)
    requires a == x + y + z && b == x + Rev(y) + z && i == |x| && j == |x| + |y| && |Rev(y)| == |y| && h < |a|
    ensures PlaceOk(a, b, i, j, h)
  {
    if i <= h < j {
      RevAt(y, h - i);
      assert b[h] == Rev(y)[h - i];
      assert a[i + j - 1 - h] == y[j - 1 - h];
    }
  }

  /** Rewriting one owner turns its segment and nothing else. */
  lemma OwnerTurned(s: Store, k: nat, todo: set<nat>, v: nat)
    requires Mid(s, k, todo) && v in todo && todo <= Owners(s.parts[k])
    ensures v in s.heads && v in CompactOwner(s, k, v).heads && Turned(s, CompactOwner(s, k, v), v, k)
  {
    var a, b := OwnerReady(s, k, todo, v);
    var path, e, s' := Chain(s, v), EntryOf(s.parts[k], k, v), CompactOwner(s, k, v);
    CompactOwnerStep(s, s', k, todo, v, e, a, b);
    MembersCut(s, path, a, b);
    MergedTail(s, path, b, e);
    Regrouped(Members(s, path[..a]), Merged(s, e), Members(s, Tail(path, b)), e.adj, Members(s, path[b..]));
    forall h | 0 <= h < |path| ensures ValidLoc(s, path[h]) { assert NodeOk(s, v, path, k, h); }
    ListMembers(s, path[..a]);
    ListMembers(s, path[a..b]);
    ThreeParts(Members(s, path[..a]), Members(s, path[a..b]), Members(s, path[b..]), Adjacent(s, v), Adjacent(s', v), a, b);
    assert SegmentOf(path, k, a, b);
  }

  lemma Regrouped(x: seq<Member>, m: seq<Member>, t: seq<Member>, r: seq<Member>, z: seq<Member>)
    requires m + t == r + z
    ensures x + m + t == x + r + z
  {
    assert x + m + t == x + (m + t);
  }

  /** Over all owners, in whatever order: every owner's segment is turned, and everybody else's entries
      stay exactly as they were. */
  lemma {:induction false} OwnersTurned(s: Store, k: nat, todo: set<nat>, order: seq<nat>, v: nat)
    requires Mid(s, k, todo) && todo <= Owners(s.parts[k]) && Enumerates(order, todo) && v in s.heads
    ensures v in CompactOwners(s, k, order).heads
    ensures if v in todo then Turned(s, CompactOwners(s, k, order), v, k)
            else Adjacent(CompactOwners(s, k, order), v) == Adjacent(s, v)
    decreases |order|
  {
    if order == [] {
      assert todo == {};
    } else {
      var u := order[0];
      var s' := CompactOwner(s, k, u);
      CompactOwnerKeeps(s, k, todo, u);
      OwnerChains(s, k, todo, u);
      RestEnumerates(order, todo);
      OwnersTurned(s', k, todo - {u}, order[1..], v);
      if v == u {
        OwnerTurned(s, k, todo, v);
        var i, j :| SegmentOf(Chain(s, v), k, i, j) && TurnedAt(Adjacent(s, v), Adjacent(s', v), i, j);
        assert TurnedAt(Adjacent(s, v), Adjacent(CompactOwners(s, k, order), v), i, j);
      } else if v in todo {
        var i, j :| SegmentOf(Chain(s', v), k, i, j)
          && TurnedAt(Adjacent(s', v), Adjacent(CompactOwners(s', k, order[1..]), v), i, j);
        assert SegmentOf(Chain(s, v), k, i, j);
      }
    }
  }

  lemma OwnerChains(s: Store, k: nat, todo: set<nat>, v: nat)
    requires Mid(s, k, todo) && v in todo && todo <= Owners(s.parts[k])
    ensures v in s.heads && CompactOwner(s, k, v).heads.Keys == s.heads.Keys
    ensures forall u :: u in s.heads && u != v ==> Chain(CompactOwner(s, k, v), u) == Chain(s, u)
  {
    CompactOwnerKeeps(s, k, todo, v);
    var a, b := OwnerReady(s, k, todo, v);
    CompactOwnerStep(s, CompactOwner(s, k, v), k, todo, v, EntryOf(s.parts[k], k, v), a, b);
  }

  lemma RestEnumerates(order: seq<nat>, todo: set<nat>)
    requires Enumerates(order, todo) && order != []
    ensures Enumerates(order[1..], todo - {order[0]})
  {
    forall u ensures u in todo - {order[0]} <==> u in order[1..] {
      if u in order[1..] {
        var i :| 0 <= i < |order[1..]| && order[1..][i] == u;
        assert order[0] != order[i + 1];
      }
    }
  }

  /** Compacting the oldest inactive partition: each owner's records of it come back oldest first between
      the newer records and the older blocks, and no other vertex sees any change of order either. */
  lemma CompactTurns(s: Store, k: nat, order: seq<nat>, i: nat, v: nat)
    requires InvAt(s, k) && k + 1 < |s.parts| && i < |s.meta| && s.meta[i].id == k
    requires Enumerates(order, Owners(s.parts[k])) && v in s.heads
    ensures v in Compact(s, k, order, i).heads
    ensures if v in Owners(s.parts[k]) then Turned(s, Compact(s, k, order, i), v, k)
            else Adjacent(Compact(s, k, order, i), v) == Adjacent(s, v)
  {
    CompactOwnersKeep(s, k, Owners(s.parts[k]), order);
    OwnersTurned(s, k, Owners(s.parts[k]), order, v);
    var s1 := CompactOwners(s, k, order);
    MidAdvance(s1, MarkCompacted(s1, i), k);
    if v in Owners(s.parts[k]) {
      var a, b :| SegmentOf(Chain(s, v), k, a, b) && TurnedAt(Adjacent(s, v), Adjacent(s1, v), a, b);
      assert TurnedAt(Adjacent(s, v), Adjacent(Compact(s, k, order, i), v), a, b);
    }
  }

  // ---------------------------------------------------------------- pointers back

  /** Between the new blocks prev is the inverse of next, and the first points to what is upstream. */
  lemma ChunkPrev(s: Store, s': Store, v: nat, e: Entry, path: seq<Loc>, k: nat, a: nat, b: nat, j: nat)
    requires SpliceReady(s, s', v, e, path, k, a, b) && a <= j < a + NumChunks(|Merged(s, e)|)
    ensures var path' := NewPath(path, a, b, |s.blocks|, NumChunks(|Merged(s, e)|));
      j < |path'| && ValidLoc(s', path'[j]) && path'[j].Block? && Prev(s', path'[j]) == At(path', j - 1)
  {
    var base, n := |s.blocks|, NumChunks(|Merged(s, e)|);
    NewPathAt(path, a, b, base, n, j);
    NewPathAt(path, a, b, base, n, j - 1);
    var path' := NewPath(path, a, b, base, n);
    assert path'[j] == At(path', j);
    assert ChunkAt(s', v, Merged(s, e), base, e.up, Onward(s, e), j - a);
  }
}
