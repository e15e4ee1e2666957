/** The copy-on-write catalog file and a sequential scan over it while it grows. */
module CatalogHeap {
  import opened Mvcc
  import opened MvccSnapshots

  /** Rows in file order; `ends[b]` is the number of rows up to the end of block b. */
  class Catalog<T> {
    var st: State<T>
    var ends: seq<nat>

    ghost predicate Paged()
      reads this
    {
      PagedRows(ends, |st.rows|)
    }

    constructor ()
      ensures Mvcc.Valid(st) && Paged() && st == Empty<T>()
    {
      st, ends := Empty(), [];
    }

    /** np_write_record_to_page: into the last block, or into a new one. */
    method WriteRecord(v: Version<T>, fits: bool)
      requires Paged()
      modifies this
      ensures Paged() && st == old(st).(rows := old(st).rows + [v])
      ensures Grown(old(ends), ends)
    {
      st := st.(rows := st.rows + [v]);
      if ends != [] && fits {
        ends := ends[..|ends| - 1] + [|st.rows|];
      } else {
        ends := ends + [|st.rows|];
      }
    }

    /** The transaction moves on to its next command. */
    method CommandCounterIncrement(x: nat)
      requires Paged() && Active(st, x)
      modifies `st
      ensures Paged() && st == Step(old(st), NextCommand(x))
    {
      st := st.(cids := st.cids[x := st.cids[x] + 1]);
    }

    /** np_catalog_tuple_insert */
    method TupleInsert(x: nat, data: T, fits: bool)
      requires Paged() && Active(st, x)
      modifies this
      ensures Paged() && st == Step(old(st), Insert(x, data)) && Grown(old(ends), ends)
    {
      WriteRecord(Fresh(|st.rows|, data, x, st.cids[x]), fits);
    }

    /** np_catalog_tuple_update: check, write the new version, then stamp the old one. */
    method TupleUpdate(x: nat, i: nat, data: T, fits: bool) returns (res: Outcome)
      requires Paged() && Active(st, x) && i < |st.rows|
      modifies this
      ensures Paged() && Grown(old(ends), ends)
      ensures st == Step(old(st), Update(x, i, data)) && res == Check(old(st), old(st).rows[i], x)
      ensures res != Outcome.Ok ==> ends == old(ends)
    {
      if !IsLive(st, st.rows[i], x) {
        return Invisible;
      }
      if XmaxOther(st, st.rows[i], x) {
        return Updated;
      }
      var cid := st.cids[x];
      WriteRecord(Fresh(st.rows[i].key, data, x, cid), fits);
      st := st.(rows := st.rows[i := Stamped(st.rows[i], x, cid, false)]);
      res := Outcome.Ok;
    }

    /** np_catalog_tuple_delete */
    method TupleDelete(x: nat, i: nat) returns (res: Outcome)
      requires Paged() && Active(st, x) && i < |st.rows|
      modifies this
      ensures Paged() && ends == old(ends)
      ensures st == Step(old(st), Delete(x, i)) && res == Check(old(st), old(st).rows[i], x)
    {
      if !IsLive(st, st.rows[i], x) {
        return Invisible;
      }
      if XmaxOther(st, st.rows[i], x) {
        return Updated;
      }
      st := st.(rows := st.rows[i := Stamped(st.rows[i], x, st.cids[x], true)]);
      res := Outcome.Ok;
    }
  }

  ghost predicate PagedRows(ends: seq<nat>, n: nat) {
    && (forall a, b :: 0 <= a <= b < |ends| ==> ends[a] <= ends[b])
    && n == if ends == [] then 0 else ends[|ends| - 1]
  }

  /** Only the last block grows, and blocks are only added behind it. */
  ghost predicate Grown(before: seq<nat>, after: seq<nat>) {
    && |before| <= |after|
    && (forall b :: 0 <= b < |before| - 1 ==> after[b] == before[b])
    && (before != [] ==> before[|before| - 1] <= after[|before| - 1])
  }

  /** The first row of a block. */
  function Start(ends: seq<nat>, b: nat): nat
    requires b <= |ends|
  {
    if b == 0 then 0 else ends[b - 1]
  }

  ghost predicate NoneVisible<T>(st: State<T>, s: Snapshot, a: nat, b: nat)
    requires b <= |st.rows|
  {
    forall i :: a <= i < b ==> !IsVisible(st, st.rows[i], s)
  }

  lemma BlockEnd(ends: seq<nat>, n: nat, b: nat)
    requires PagedRows(ends, n) && b < |ends|
    ensures Start(ends, b) <= ends[b] <= n && Start(ends, b + 1) == ends[b]
  {
  }

  class CatalogScan {
    const snapshot: Snapshot
    const nblocks: nat
    var cblock: nat
    var coffset: nat
    var held: bool

    ghost predicate On<T>(h: Catalog<T>)
      reads this, h
    {
      && h.Paged() && nblocks <= |h.ends| && cblock <= nblocks
      && (held ==> cblock < nblocks && coffset >= 1 && Start(h.ends, cblock) + coffset - 1 <= h.ends[cblock])
    }

    /** The row the cursor stands before, in file order. */
    ghost function Pos<T>(h: Catalog<T>): nat
      reads this, h
      requires On(h)
    {
      Start(h.ends, cblock) + if held then coffset - 1 else 0
    }

    /** np_catalog_scan_begin: the number of blocks is fixed here. */
    constructor <T>(h: Catalog<T>, s: Snapshot)
      requires h.Paged()
      ensures On(h) && Pos(h) == 0 && snapshot == s && nblocks == |h.ends|
    {
      snapshot, nblocks := s, |h.ends|;
      cblock, coffset, held := 0, 1, false;
    }

    /** np_catalog_scan_getnextslot: the next visible row of the blocks that existed at the start. */
    method Next<T>(h: Catalog<T>) returns (found: bool, i: nat)
      requires On(h)
      modifies this
      ensures On(h)
      ensures found ==> old(Pos(h)) <= i < |h.st.rows| && Pos(h) == i + 1 && held
      ensures found ==> IsVisible(h.st, h.st.rows[i], snapshot) && NoneVisible(h.st, snapshot, old(Pos(h)), i)
      ensures !found ==> Pos(h) == Start(h.ends, nblocks) <= |h.st.rows|
      ensures !found ==> NoneVisible(h.st, snapshot, old(Pos(h)), Pos(h))
    {
      ghost var start := Pos(h);
      while true
        invariant On(h) && start <= Pos(h) <= |h.st.rows| && NoneVisible(h.st, snapshot, start, Pos(h))
        decreases nblocks - cblock
      {
        if !held {
          if cblock >= nblocks {
            return false, 0;
          }
          held, coffset := true, 1;
        }
        found, i := NextInBlock(h, start);
        if found {
          return;
        }
        LeaveBlock(h);
      }
    }

    method LeaveBlock<T>(h: Catalog<T>)
      requires On(h) && held && Pos(h) == h.ends[cblock]
      modifies this
      ensures On(h) && !held && cblock == old(cblock) + 1 && Pos(h) == old(Pos(h))
    {
      BlockEnd(h.ends, |h.st.rows|, cblock);
      held := false;
      cblock := cblock + 1;
    }

    /** The rest of the block held. */
    method NextInBlock<T>(h: Catalog<T>, ghost start: nat) returns (found: bool, i: nat)
      requires On(h) && held && start <= Pos(h) <= |h.st.rows| && NoneVisible(h.st, snapshot, start, Pos(h))
      modifies `coffset
      ensures On(h)
      ensures found ==> start <= i < |h.st.rows| && Pos(h) == i + 1
      ensures found ==> IsVisible(h.st, h.st.rows[i], snapshot) && NoneVisible(h.st, snapshot, start, i)
      ensures !found ==> Pos(h) == h.ends[cblock] <= |h.st.rows| && NoneVisible(h.st, snapshot, start, Pos(h))
    {
      found, i := false, 0;
      var maxoff := h.ends[cblock] - Start(h.ends, cblock);
      BlockEnd(h.ends, |h.st.rows|, cblock);
      while coffset <= maxoff
        invariant On(h) && 1 <= coffset <= maxoff + 1
        invariant start <= Pos(h) <= |h.st.rows| && NoneVisible(h.st, snapshot, start, Pos(h))
      {
        var off := coffset;
        coffset := coffset + 1;
        i := Start(h.ends, cblock) + off - 1;
        if IsVisible(h.st, h.st.rows[i], snapshot) {
          return true, i;
        }
      }
    }
  }
}
