/** The positional phys_map: a paged, padded file that behaves like a map from id to record. */
module PhysMap {
  import opened PageLayout

  /** np_id_to_tid */
  function IdToTid(id: nat, perPage: nat): Tid
    requires id > 0 && perPage > 0
  {
    Tid((id - 1) / perPage, (id - 1) % perPage + 1)
  }

  /** np_tid_to_id */
  function TidToId(tid: Tid, perPage: nat): nat
    requires tid.offset > 0
  {
    tid.block * perPage + (tid.offset - 1) + 1
  }

  lemma IdRoundTrip(id: nat, perPage: nat)
    requires id > 0 && perPage > 0
    ensures 1 <= IdToTid(id, perPage).offset <= perPage
    ensures TidToId(IdToTid(id, perPage), perPage) == id
  {
  }

  lemma TidRoundTrip(tid: Tid, perPage: nat)
    requires 1 <= tid.offset <= perPage
    ensures TidToId(tid, perPage) > 0 && IdToTid(TidToId(tid, perPage), perPage) == tid
  {
    DivUnique(tid.block, tid.offset - 1, perPage);
  }

  lemma DivUnique(q: nat, r: nat, d: nat)
    requires r < d
    ensures (q * d + r) / d == q && (q * d + r) % d == r
  {
    var n := q * d + r;
    assert n == n / d * d + n % d;
    var diff := n / d - q;
    assert diff * d == r - n % d;
    assert diff >= 1 ==> diff * d >= d;
    assert diff <= -1 ==> diff * d + d <= 0;
  }

  lemma DifferentTids(a: nat, b: nat, perPage: nat)
    requires a > 0 && b > 0 && perPage > 0 && a != b
    ensures IdToTid(a, perPage) != IdToTid(b, perPage)
  {
    IdRoundTrip(a, perPage);
    IdRoundTrip(b, perPage);
  }

  type File<R> = seq<seq<R>>

  /** What a reader of the id finds; an absent slot reads like the padding. */
  function Read<R>(f: File<R>, perPage: nat, empty: R, id: nat): R
    requires id > 0 && perPage > 0
  {
    var t := IdToTid(id, perPage);
    if t.block < |f| && t.offset <= |f[t.block]| then f[t.block][t.offset - 1] else empty
  }

  predicate WithinPages<R>(f: File<R>, perPage: nat) {
    forall b :: 0 <= b < |f| ==> |f[b]| <= perPage
  }

  class PhysMap<R> {
    const perPage: nat
    const empty: R
    var pages: File<R>

    ghost predicate Valid()
      reads this
    {
      perPage > 0 && WithinPages(pages, perPage)
    }

    constructor (perPage: nat, empty: R)
      requires perPage > 0
      ensures Valid() && pages == [] && this.perPage == perPage && this.empty == empty
    {
      this.perPage := perPage;
      this.empty := empty;
      pages := [];
    }

    /** np_place_physmap_record and np_set_edge_physmap_record: extend the file, pad the page,
        or overwrite the slot. */
    method Place(id: nat, rec: R)
      requires Valid() && id > 0
      modifies this
      ensures Valid()
      ensures forall j :: j > 0 ==> Read(pages, perPage, empty, j) == if j == id then rec else Read(old(pages), perPage, empty, j)
    {
      var target := IdToTid(id, perPage);
      ghost var before := pages;
      IdRoundTrip(id, perPage);
      while |pages| <= target.block
        invariant |before| <= |pages| && pages[..|before|] == before
        invariant forall b :: |before| <= b < |pages| ==> pages[b] == []
      {
        pages := pages + [[]];
      }
      ghost var extended := pages;
      var page := pages[target.block];
      if target.offset > |page| {
        while |page| < target.offset - 1
          invariant |extended[target.block]| <= |page| <= target.offset - 1
          invariant forall i :: 0 <= i < |page| ==> page[i] == if i < |extended[target.block]| then extended[target.block][i] else empty
        {
          page := page + [empty];
        }
        page := page + [rec];
      } else {
        page := page[target.offset - 1 := rec];
      }
      pages := pages[target.block := page];
      forall j | j > 0
        ensures Read(pages, perPage, empty, j) == if j == id then rec else Read(before, perPage, empty, j)
      {
        PlacedAt(before, extended, pages, perPage, empty, id, rec, j);
      }
    }
  }

  /** Slot i of a page padded up to `at` and written there. */
  function Padded<R>(page: seq<R>, empty: R, at: nat, rec: R, i: nat): R {
    if i == at then rec else if i < |page| then page[i] else empty
  }

  lemma PlacedAt<R>(before: File<R>, extended: File<R>, after: File<R>, perPage: nat, empty: R, id: nat, rec: R, j: nat)
    requires perPage > 0 && id > 0 && j > 0
    requires |before| <= |extended| && extended[..|before|] == before
    requires forall b :: |before| <= b < |extended| ==> extended[b] == []
    requires var t := IdToTid(id, perPage);
             && t.block < |extended| == |after|
             && (forall b :: 0 <= b < |after| && b != t.block ==> after[b] == extended[b])
             && |extended[t.block]| <= |after[t.block]| && t.offset <= |after[t.block]|
             && (|extended[t.block]| < |after[t.block]| ==> |after[t.block]| == t.offset)
             && (forall i :: 0 <= i < |after[t.block]| ==>
                  after[t.block][i] == Padded(extended[t.block], empty, t.offset - 1, rec, i))
    ensures Read(after, perPage, empty, j) == if j == id then rec else Read(before, perPage, empty, j)
  {
    if j != id {
      DifferentTids(j, id, perPage);
      var u := IdToTid(j, perPage);
      if u.block < |before| {
        assert extended[..|before|][u.block] == extended[u.block];
      }
    }
  }

  /** Any placements in any order: a slot reads its last record, other slots read as padding. */
  method PlaceAll<R>(m: PhysMap<R>, writes: seq<(nat, R)>)
    requires m.Valid() && m.pages == [] && forall i :: 0 <= i < |writes| ==> writes[i].0 > 0
    modifies m
    ensures m.Valid()
    ensures forall j :: j > 0 ==> Read(m.pages, m.perPage, m.empty, j) == LastWrite(writes, m.empty, j)
  {
    var i := 0;
    while i < |writes|
      invariant 0 <= i <= |writes| && m.Valid()
      invariant forall j :: j > 0 ==> Read(m.pages, m.perPage, m.empty, j) == LastWrite(writes[..i], m.empty, j)
    {
      m.Place(writes[i].0, writes[i].1);
      assert writes[..i + 1][..i] == writes[..i];
      i := i + 1;
    }
    assert writes[..|writes|] == writes;
  }

  function LastWrite<R>(writes: seq<(nat, R)>, empty: R, id: nat): R {
    if writes == [] then empty
    else if writes[|writes| - 1].0 == id then writes[|writes| - 1].1
    else LastWrite(writes[..|writes| - 1], empty, id)
  }

  /** Ids fill a block's slots in order, from slot 1, and then the next block's. */
  lemma SlotsInOrder(id: nat, perPage: nat)
    requires id > 0 && perPage > 0
    ensures id <= perPage ==> IdToTid(id, perPage) == Tid(0, id)
    ensures IdToTid(id + perPage, perPage) == Tid(IdToTid(id, perPage).block + 1, IdToTid(id, perPage).offset)
  {
    var z := id - 1;
    DivUnique(z / perPage + 1, z % perPage, perPage);
    if id <= perPage { DivUnique(0, z, perPage); }
  }

  // ---------------------------------------------------------------- page capacities

  /** Bytes of a page after its header, and of a vertex phys_map record. */
  const PAGE_BYTES := BLCKSZ - PAGE_HEADER
  const RECORD := 22

  /** np_calculate_tuples_per_page counts a heap tuple header of 23 bytes per record. */
  const CALCULATED := PAGE_BYTES / (MaxAlign(23 + RECORD) + ITEM_ID)

  /** The formula written out in the insert and delete paths. */
  const RAW := PAGE_BYTES / (RECORD + ITEM_ID)

  /** What a page really holds, items being aligned. */
  const HELD := PAGE_BYTES / (MaxAlign(RECORD) + ITEM_ID)

  /** The two formulas used on the same vertex phys_map name the same slot for the first 157
      ids only. */
  lemma FormulasAgreeIff(id: nat)
    requires id > 0
    ensures CALCULATED == 157 && RAW == 314
    ensures IdToTid(id, RAW) == IdToTid(id, CALCULATED) <==> id <= CALCULATED
  {
    var z := id - 1;
    if z >= 157 {
      assert z / 157 >= 1;
    }
  }

  /** With the raw formula a slot lies within what a page holds exactly for offsets up to 291. */
  lemma RawFitsIff(id: nat)
    requires id > 0
    ensures HELD == 291
    ensures IdToTid(id, RAW).offset <= HELD <==> (id - 1) % 314 < 291
  {
  }
}
