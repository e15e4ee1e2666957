/** The append-only page writer: a paged file behaves like a sequence whose positions are the
    tuple ids, which is what the adjacency model works with. */
module Pages {
  import opened PageLayout

  datatype Item<T> = Item(data: T, size: nat)

  /** A block that was only extended is Fresh until its first item initialises it. */
  datatype Page<T> = Fresh | Used(items: seq<Item<T>>)
  {
    function Items(): seq<Item<T>> { if Fresh? then [] else items }
  }

  function Need(size: nat): nat { MaxAlign(size) + ITEM_ID }

  function Taken<T>(items: seq<Item<T>>): nat {
    if items == [] then 0 else Taken(items[..|items| - 1]) + Need(items[|items| - 1].size)
  }

  /** pd_upper - pd_lower */
  function Room<T>(items: seq<Item<T>>): int { BLCKSZ - PAGE_HEADER - Taken(items) }

  /** PageGetFreeSpace keeps one line pointer back. */
  function FreeSpace<T>(items: seq<Item<T>>): int {
    if Room(items) < ITEM_ID then 0 else Room(items) - ITEM_ID
  }

  /** The contents in tuple id order. */
  function Flatten<T>(pages: seq<Page<T>>): seq<T> {
    if pages == [] then [] else Flatten(pages[..|pages| - 1]) + Datas(pages[|pages| - 1].Items())
  }

  function Datas<T>(items: seq<Item<T>>): (r: seq<T>)
    ensures |r| == |items| && forall i :: 0 <= i < |items| ==> r[i] == items[i].data
  {
    seq(|items|, i requires 0 <= i < |items| => items[i].data)
  }

  predicate ValidTid<T>(pages: seq<Page<T>>, tid: Tid) {
    tid.block < |pages| && 1 <= tid.offset <= |pages[tid.block].Items()|
  }

  function Lookup<T>(pages: seq<Page<T>>, tid: Tid): T
    requires ValidTid(pages, tid)
  {
    pages[tid.block].Items()[tid.offset - 1].data
  }

  /** The number of tuples before a tuple id. */
  function Position<T>(pages: seq<Page<T>>, tid: Tid): nat
    requires ValidTid(pages, tid)
  {
    |Flatten(pages[..tid.block])| + tid.offset - 1
  }

  lemma {:induction false} FlattenPrefix<T>(pages: seq<Page<T>>, n: nat)
    requires n <= |pages|
    ensures Flatten(pages[..n]) <= Flatten(pages)
    decreases |pages| - n
  {
    if n < |pages| {
      FlattenPrefix(pages, n + 1);
      assert pages[..n + 1][..n] == pages[..n];
    } else {
      assert pages[..n] == pages;
    }
  }

  /** A tuple id is found at its position in the flattened file. */
  lemma PositionReads<T>(pages: seq<Page<T>>, tid: Tid)
    requires ValidTid(pages, tid)
    ensures Position(pages, tid) < |Flatten(pages)| && Flatten(pages)[Position(pages, tid)] == Lookup(pages, tid)
  {
    var upto := pages[..tid.block + 1];
    FlattenPrefix(pages, tid.block + 1);
    assert upto[..tid.block] == pages[..tid.block] && upto[tid.block] == pages[tid.block];
    ReadBehind(Flatten(pages[..tid.block]), Datas(pages[tid.block].Items()), Flatten(pages), tid.offset - 1);
  }

  lemma ReadBehind<T>(head: seq<T>, d: seq<T>, all: seq<T>, k: nat)
    requires head + d <= all && k < |d|
    ensures |head| + k < |all| && all[|head| + k] == d[k]
  {
    assert (head + d)[|head| + k] == d[k];
  }

  /** Positions follow the (block, offset) order, so different tuples have different positions. */
  lemma PositionOrder<T>(pages: seq<Page<T>>, a: Tid, b: Tid)
    requires ValidTid(pages, a) && ValidTid(pages, b)
    ensures a.block < b.block || (a.block == b.block && a.offset < b.offset) ==> Position(pages, a) < Position(pages, b)
  {
    if a.block < b.block {
      FlattenPrefix(pages[..b.block], a.block + 1);
      assert pages[..b.block][..a.block + 1] == pages[..a.block + 1];
      assert pages[..a.block + 1][..a.block] == pages[..a.block];
    }
  }

  /** Tuple ids handed out before keep their tuples and their places. */
  ghost predicate Stable<T(!new)>(a: seq<Page<T>>, b: seq<Page<T>>) {
    forall t :: ValidTid(a, t) ==> ValidTid(b, t) && Lookup(b, t) == Lookup(a, t) && Position(b, t) == Position(a, t)
  }

  /** A block is added when there is none, or when the last one has begun to fill and has no room left. */
  predicate NeedsBlock<T>(pages: seq<Page<T>>, size: nat) {
    pages == [] || (pages[|pages| - 1].Used? && FreeSpace(pages[|pages| - 1].items) < Need(size))
  }

  /** With records of one size: a page that holds n of them has room for another exactly while n + 1 of
      them with their line pointers fit the 8168 bytes behind the header and one line pointer is left. */
  lemma {:induction false} PageHolds<T>(items: seq<Item<T>>, size: nat)
    requires forall i :: 0 <= i < |items| ==> items[i].size == size
    ensures Room(items) == 8168 - |items| * Need(size) && Need(size) == (size + 7) / 8 * 8 + 4
    ensures FreeSpace(items) >= Need(size) <==> (|items| + 1) * Need(size) + 4 <= 8168
  {
    if items != [] {
      var n := |items| - 1;
      PageHolds(items[..n], size);
      assert |items| * Need(size) == n * Need(size) + Need(size);
    }
    assert (|items| + 1) * Need(size) == |items| * Need(size) + Need(size);
  }

  class PagedFile<T(!new)> {
    var pages: seq<Page<T>>

    constructor ()
      ensures pages == []
    {
      pages := [];
    }

    /** np_write_record_to_page: try the last block, else extend. Fails only for a record that
        does not fit an empty page. */
    method WriteRecord(data: T, size: nat) returns (ok: bool, tid: Tid)
      modifies this
      ensures ok <==> Need(size) <= BLCKSZ - PAGE_HEADER
      ensures ok ==> Flatten(pages) == Flatten(old(pages)) + [data]
      ensures ok ==> ValidTid(pages, tid) && Lookup(pages, tid) == data && Position(pages, tid) == |Flatten(old(pages))|
      ensures Stable(old(pages), pages)
      ensures |pages| == |old(pages)| + if NeedsBlock(old(pages), size) then 1 else 0
      ensures ok ==> tid.block == |pages| - 1
    {
      ghost var before := pages;
      var block;
      if |pages| == 0 {
        block := 0;
        pages := pages + [Fresh];
      } else {
        block := |pages| - 1;
      }
      if pages[block].Used? && FreeSpace(pages[block].items) < Need(size) {
        block := |pages|;
        pages := pages + [Fresh];
      }
      tid := Tid(block, |pages[block].Items()| + 1);
      ok := Need(size) <= Room(pages[block].Items());
      ghost var grown := pages;
      GrownSame(before, grown);
      if ok {
        pages := pages[block := Used(pages[block].Items() + [Item(data, size)])];
        AddedLast(grown, pages, data, size);
      }
    }

    /** A full scan: blocks in order, offsets in order. */
    method Scan() returns (out: seq<T>)
      ensures out == Flatten(pages)
    {
      out := [];
      var blk := 0;
      assert pages[..0] == [];
      while blk < |pages|
        invariant 0 <= blk <= |pages|
        invariant out == Flatten(pages[..blk])
      {
        var items := pages[blk].Items();
        ghost var start := out;
        var off := 1;
        while off <= |items|
          invariant 1 <= off <= |items| + 1
          invariant out == start + Datas(items)[..off - 1]
        {
          out := out + [items[off - 1].data];
          off := off + 1;
        }
        assert Datas(items)[..|items|] == Datas(items);
        assert pages[..blk + 1][..blk] == pages[..blk];
        blk := blk + 1;
      }
      assert pages[..blk] == pages;
    }
  }

  /** Extending the file by an empty block moves nothing. */
  lemma GrownSame<T(!new)>(a: seq<Page<T>>, b: seq<Page<T>>)
    requires b == a || b == a + [Fresh] || (a == [] && b == [Fresh] + [Fresh])
    ensures Flatten(b) == Flatten(a) && Stable(a, b)
  {
    if b == a + [Fresh] {
      assert b[..|b| - 1] == a;
      forall t | ValidTid(a, t) ensures ValidTid(b, t) && Position(b, t) == Position(a, t) {
        assert b[..t.block] == a[..t.block];
      }
    } else if a == [] && b == [Fresh] + [Fresh] {
      assert b[..1] == [Fresh] && b[..1][..0] == [];
    }
  }

  lemma AddedLast<T(!new)>(a: seq<Page<T>>, b: seq<Page<T>>, data: T, size: nat)
    requires |a| > 0 && b == a[|a| - 1 := Used(a[|a| - 1].Items() + [Item(data, size)])]
    ensures Flatten(b) == Flatten(a) + [data] && Stable(a, b)
    ensures var t := Tid(|a| - 1, |a[|a| - 1].Items()| + 1);
            ValidTid(b, t) && Lookup(b, t) == data && Position(b, t) == |Flatten(a)|
  {
    var n := |a| - 1;
    assert b[..n] == a[..n];
    assert Datas(b[n].Items()) == Datas(a[n].Items()) + [data];
    AddedStable(a, b, data, size);
  }

  lemma AddedStable<T(!new)>(a: seq<Page<T>>, b: seq<Page<T>>, data: T, size: nat)
    requires |a| > 0 && b == a[|a| - 1 := Used(a[|a| - 1].Items() + [Item(data, size)])]
    ensures Stable(a, b)
  {
    forall t | ValidTid(a, t) ensures Position(b, t) == Position(a, t) {
      assert b[..t.block] == a[..t.block];
    }
  }

  lemma StableTransitive<T(!new)>(a: seq<Page<T>>, b: seq<Page<T>>, c: seq<Page<T>>)
    requires Stable(a, b) && Stable(b, c)
    ensures Stable(a, c)
  {
  }
}
