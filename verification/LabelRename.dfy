/** Renaming a label: a catalog scan that supersedes the rows it returns. */
module LabelRename {
  import opened Common
  import opened Mvcc
  import opened MvccSnapshots
  import opened OwnCommands
  import opened CatalogHeap

  type Path = seq<string>

  /** A label catalog row; the path column may be null. */
  datatype Label = Label(id: nat, path: Option<Path>)

  const MAX_TOKENS := 256

  // ---------------------------------------------------------------- paths

  function First(p: Path): Path { if |p| <= MAX_TOKENS then p else p[..MAX_TOKENS] }

  function Renamed(p: Path, a: string, b: string): (r: Path)
    ensures |r| == |p| && forall i :: 0 <= i < |p| ==> r[i] == if p[i] == a then b else p[i]
  {
    seq(|p|, i requires 0 <= i < |p| => if p[i] == a then b else p[i])
  }

  predicate Touched(row: Label, a: string) { row.path.Some? && a in First(row.path.value) }

  /** The row a rename leaves: untouched, or rebuilt from its first tokens. */
  function NewRow(row: Label, a: string, b: string): Label {
    if Touched(row, a) then row.(path := Some(Renamed(First(row.path.value), a, b))) else row
  }

  /** The token loops of rename_vlabel and rename_elabel. */
  method RebuildPath(path: Path, a: string, b: string) returns (newPath: Path, modified: bool)
    ensures newPath == Renamed(First(path), a, b) && (modified <==> a in First(path))
  {
    var tokens: Path := [];
    var at := 0;
    while at < |path| && |tokens| < MAX_TOKENS
      invariant 0 <= at <= |path| && at == |tokens| <= MAX_TOKENS && tokens == path[..at]
    {
      tokens := tokens + [path[at]];
      at := at + 1;
    }
    assert path[..|path|] == path;
    newPath, modified := [], false;
    var i := 0;
    while i < |tokens|
      invariant 0 <= i <= |tokens| && newPath == Renamed(tokens, a, b)[..i]
      invariant modified <==> a in tokens[..i]
    {
      var piece := tokens[i];
      if piece == a {
        piece, modified := b, true;
      }
      newPath := newPath + [piece];
      i := i + 1;
    }
    assert tokens[..|tokens|] == tokens;
  }

  /** Renaming there and back restores a path exactly when it was not cut: it has at most as many
      tokens as a rename reads, or its first ones do not include the old name. */
  lemma RenameBackIff(row: Label, a: string, b: string)
    requires a != b && (row.path.Some? ==> b !in row.path.value)
    ensures NewRow(NewRow(row, a, b), b, a) == row <==>
      (row.path.Some? ==> |row.path.value| <= MAX_TOKENS || a !in First(row.path.value))
    ensures Touched(row, a) && |row.path.value| > MAX_TOKENS ==>
      |NewRow(NewRow(row, a, b), b, a).path.value| == MAX_TOKENS
  {
    if row.path.Some? {
      var p := row.path.value;
      if Touched(row, a) {
        var q := Renamed(First(p), a, b);
        var i :| 0 <= i < |First(p)| && First(p)[i] == a;
        assert q[i] == b;
        assert First(q) == q;
        var r := Renamed(q, b, a);
        assert |r| == |First(p)|;
        if |p| <= MAX_TOKENS {
          forall k | 0 <= k < |p| ensures r[k] == p[k] { assert p[k] != b; }
          assert r == p;
        }
      } else {
        assert forall t :: t in First(p) ==> t in p;
      }
    }
  }

  // ---------------------------------------------------------------- the scan that writes

  /** The rows a rename has to supersede, in file order. */
  ghost function Hits(st: State<Label>, s: Snapshot, a: string, n: nat): seq<nat>
    requires n <= |st.rows|
  {
    if n == 0 then []
    else if IsVisible(st, st.rows[n - 1], s) && Touched(st.rows[n - 1].data, a)
    then Hits(st, s, a, n - 1) + [n - 1]
    else Hits(st, s, a, n - 1)
  }

  /** The rows a scan returns. */
  ghost function Shown(st: State<Label>, s: Snapshot, n: nat): seq<nat>
    requires n <= |st.rows|
  {
    if n == 0 then []
    else if IsVisible(st, st.rows[n - 1], s) then Shown(st, s, n - 1) + [n - 1]
    else Shown(st, s, n - 1)
  }

  ghost predicate IsHit(st: State<Label>, s: Snapshot, a: string, k: nat)
    requires k < |st.rows|
  {
    IsVisible(st, st.rows[k], s) && Touched(st.rows[k].data, a)
  }

  lemma {:induction false} HitsAre(st: State<Label>, s: Snapshot, a: string, n: nat)
    requires n <= |st.rows|
    ensures forall k :: 0 <= k < n ==> (IsHit(st, s, a, k) <==> k in Hits(st, s, a, n))
    ensures forall k :: k in Hits(st, s, a, n) ==> k < n
    ensures |Hits(st, s, a, n)| <= n
  {
    if n > 0 { HitsAre(st, s, a, n - 1); }
  }

  lemma {:induction false} NothingBetween(st: State<Label>, s: Snapshot, a: string, m: nat, n: nat)
    requires m <= n <= |st.rows| && NoneVisible(st, s, m, n)
    ensures Hits(st, s, a, n) == Hits(st, s, a, m) && Shown(st, s, n) == Shown(st, s, m)
    decreases n
  {
    if m < n { NothingBetween(st, s, a, m, n - 1); }
  }

  /** The state when the rows before position n have been dealt with. */
  ghost predicate RenamedTo(st0: State<Label>, st: State<Label>, s: Snapshot, a: string, b: string, n: nat)
    requires n <= |st0.rows|
  {
    var hits := Hits(st0, s, a, n);
    && Active(st0, s.me) && st.xacts == st0.xacts && st.cids == st0.cids
    && |st.rows| == |st0.rows| + |hits|
    && (forall k :: 0 <= k < |st0.rows| ==> OldRow(st0, st, s, a, n, k))
    && (forall m :: 0 <= m < |hits| ==> NewVersion(st0, st, s, a, b, hits, m))
  }

  ghost predicate OldRow(st0: State<Label>, st: State<Label>, s: Snapshot, a: string, n: nat, k: nat)
    requires k < |st0.rows| <= |st.rows| && Active(st0, s.me)
  {
    st.rows[k] == if k < n && IsHit(st0, s, a, k) then Stamped(st0.rows[k], s.me, st0.cids[s.me], false)
                  else st0.rows[k]
  }

  ghost predicate NewVersion(st0: State<Label>, st: State<Label>, s: Snapshot, a: string, b: string,
                             hits: seq<nat>, m: nat)
    requires m < |hits| && |st.rows| == |st0.rows| + |hits| && Active(st0, s.me)
  {
    && hits[m] < |st0.rows|
    && var was := st0.rows[hits[m]];
       st.rows[|st0.rows| + m] == Fresh(was.key, NewRow(was.data, a, b), s.me, st0.cids[s.me])
  }

  /** The rows the rename itself wrote are not shown to its scan. */
  lemma OwnHidden(st0: State<Label>, st: State<Label>, s: Snapshot, a: string, b: string, n: nat, k: nat)
    requires n <= |st0.rows| && RenamedTo(st0, st, s, a, b, n) && s.curcid <= st0.cids[s.me]
    requires |st0.rows| <= k < |st.rows|
    ensures !IsVisible(st, st.rows[k], s)
  {
    assert NewVersion(st0, st, s, a, b, Hits(st0, s, a, n), k - |st0.rows|);
  }

  lemma AheadSame(st0: State<Label>, st: State<Label>, s: Snapshot, a: string, b: string, n: nat, k: nat)
    requires n <= k < |st0.rows| && RenamedTo(st0, st, s, a, b, n)
    ensures st.rows[k] == st0.rows[k] && (IsVisible(st, st.rows[k], s) <==> IsVisible(st0, st0.rows[k], s))
  {
    assert OldRow(st0, st, s, a, n, k);
  }

  /** Rows the scan skips need nothing done. */
  lemma SkipTo(st0: State<Label>, st: State<Label>, s: Snapshot, a: string, b: string, n: nat, i: nat)
    requires n <= i <= |st0.rows| && RenamedTo(st0, st, s, a, b, n) && NoneVisible(st, s, n, i)
    ensures RenamedTo(st0, st, s, a, b, i) && Shown(st0, s, i) == Shown(st0, s, n)
    ensures Hits(st0, s, a, i) == Hits(st0, s, a, n)
  {
    forall k | n <= k < i ensures !IsVisible(st0, st0.rows[k], s) { AheadSame(st0, st, s, a, b, n, k); }
    NothingBetween(st0, s, a, n, i);
    forall k | 0 <= k < |st0.rows| ensures OldRow(st0, st, s, a, i, k) {
      assert OldRow(st0, st, s, a, n, k);
    }
    forall m | 0 <= m < |Hits(st0, s, a, i)| ensures NewVersion(st0, st, s, a, b, Hits(st0, s, a, i), m) {
      assert NewVersion(st0, st, s, a, b, Hits(st0, s, a, n), m);
    }
  }

  /** The next row the scan finds is the next one shown at the start. */
  lemma NextShown(st0: State<Label>, st: State<Label>, s: Snapshot, a: string, b: string, n: nat, i: nat)
    requires n <= |st0.rows| && RenamedTo(st0, st, s, a, b, n) && s.curcid <= st0.cids[s.me]
    requires n <= i < |st.rows| && NoneVisible(st, s, n, i) && IsVisible(st, st.rows[i], s)
    ensures i < |st0.rows| && RenamedTo(st0, st, s, a, b, i) && IsVisible(st0, st0.rows[i], s)
    ensures Shown(st0, s, i + 1) == Shown(st0, s, n) + [i] && Hits(st0, s, a, i) == Hits(st0, s, a, n)
  {
    if i >= |st0.rows| { OwnHidden(st0, st, s, a, b, n, i); }
    SkipTo(st0, st, s, a, b, n, i);
    AheadSame(st0, st, s, a, b, i, i);
  }

  /** A shown row without the old name is passed over. */
  lemma PassRow(st0: State<Label>, st: State<Label>, s: Snapshot, a: string, b: string, i: nat)
    requires i < |st0.rows| && RenamedTo(st0, st, s, a, b, i) && !Touched(st0.rows[i].data, a)
    ensures RenamedTo(st0, st, s, a, b, i + 1) && Hits(st0, s, a, i + 1) == Hits(st0, s, a, i)
  {
    var n := i + 1;
    forall k | 0 <= k < |st0.rows| ensures OldRow(st0, st, s, a, n, k) {
      assert OldRow(st0, st, s, a, i, k);
    }
    var hits := Hits(st0, s, a, n);
    forall m | 0 <= m < |hits| ensures NewVersion(st0, st, s, a, b, hits, m) {
      assert NewVersion(st0, st, s, a, b, Hits(st0, s, a, i), m);
    }
  }

  /** A shown row with the old name is superseded. */
  lemma HitRow(st0: State<Label>, st: State<Label>, st': State<Label>, s: Snapshot, a: string, b: string, i: nat)
    requires i < |st0.rows| && RenamedTo(st0, st, s, a, b, i) && IsHit(st0, s, a, i)
    requires Check(st0, st0.rows[i], s.me) == Outcome.Ok
    requires st' == Step(st, Update(s.me, i, NewRow(st0.rows[i].data, a, b)))
    ensures RenamedTo(st0, st', s, a, b, i + 1) && Hits(st0, s, a, i + 1) == Hits(st0, s, a, i) + [i]
  {
    var hits, hits' := Hits(st0, s, a, i), Hits(st0, s, a, i + 1);
    AheadSame(st0, st, s, a, b, i, i);
    assert Check(st, st.rows[i], s.me) == Outcome.Ok;
    var n := i + 1;
    forall k | 0 <= k < |st0.rows| ensures OldRow(st0, st', s, a, n, k) {
      assert OldRow(st0, st, s, a, i, k);
    }
    forall m | 0 <= m < |hits'| ensures NewVersion(st0, st', s, a, b, hits', m) {
      if m < |hits| { assert NewVersion(st0, st, s, a, b, hits, m); }
    }
  }

  ghost predicate AllFree(st: State<Label>, s: Snapshot, a: string, n: nat)
    requires n <= |st.rows|
  {
    forall k :: k in Hits(st, s, a, n) ==> k < |st.rows| && Check(st, st.rows[k], s.me) == Outcome.Ok
  }

  /** After a grown file the cursor stands where it stood. */
  lemma CursorStays(before: seq<nat>, after: seq<nat>, blk: nat)
    requires Grown(before, after) && blk < |before|
    ensures blk < |after| && Start(after, blk) == Start(before, blk) && before[blk] <= after[blk]
  {
  }

  /** One shown row: rebuild its path and supersede it if the old name was among the tokens read. */
  method RewriteRow(h: Catalog<Label>, i: nat, s: Snapshot, a: string, b: string, ghost st0: State<Label>)
    returns (ok: bool)
    requires h.Paged() && Mvcc.Valid(h.st) && i < |st0.rows| && RenamedTo(st0, h.st, s, a, b, i)
    requires IsVisible(st0, st0.rows[i], s) && AllFree(st0, s, a, i)
    modifies h
    ensures h.Paged() && Mvcc.Valid(h.st) && Grown(old(h.ends), h.ends)
    ensures ok ==> RenamedTo(st0, h.st, s, a, b, i + 1) && AllFree(st0, s, a, i + 1)
    ensures !ok ==> !AllFree(st0, s, a, |st0.rows|)
  {
    AheadSame(st0, h.st, s, a, b, i, i);
    ghost var st := h.st;
    var row := h.st.rows[i].data;
    ok := true;
    if row.path.Some? {
      var newPath, modified := RebuildPath(row.path.value, a, b);
      if modified {
        var fits: bool := *;
        var res := h.TupleUpdate(s.me, i, row.(path := Some(newPath)), fits);
        StepKeeps(st, Update(s.me, i, row.(path := Some(newPath))));
        ok := res == Outcome.Ok;
        if ok {
          HitRow(st0, st, h.st, s, a, b, i);
        } else {
          HitsAre(st0, s, a, |st0.rows|);
          assert IsHit(st0, s, a, i);
        }
        return;
      }
    }
    PassRow(st0, h.st, s, a, b, i);
  }

  /** The loop of rename_vlabel and rename_elabel: every row the snapshot shows is visited exactly
      once, in file order, and no version written on the way; it fails exactly when a row to be
      rewritten is not free to be superseded. */
  method RenameScan(h: Catalog<Label>, s: Snapshot, a: string, b: string)
    returns (ok: bool, ghost visited: seq<nat>)
    requires h.Paged() && Mvcc.Valid(h.st) && Held(h.st, s)
    modifies h
    ensures h.Paged() && Mvcc.Valid(h.st)
    ensures ok <==> AllFree(old(h.st), s, a, |old(h.st).rows|)
    ensures ok ==> RenamedTo(old(h.st), h.st, s, a, b, |old(h.st).rows|)
    ensures ok ==> visited == Shown(old(h.st), s, |old(h.st).rows|)
  {
    ghost var st0 := h.st;
    var scan := new CatalogScan(h, s);
    visited := [];
    while true
      invariant fresh(scan) && scan.On(h) && scan.snapshot == s && Mvcc.Valid(h.st) && h.Paged()
      invariant scan.Pos(h) <= |st0.rows| <= Start(h.ends, scan.nblocks)
      invariant RenamedTo(st0, h.st, s, a, b, scan.Pos(h))
      invariant visited == Shown(st0, s, scan.Pos(h)) && AllFree(st0, s, a, scan.Pos(h))
      decreases |st0.rows| - scan.Pos(h)
    {
      var more;
      ok, more, visited := RenameNext(h, scan, s, a, b, st0, visited);
      if !more {
        return;
      }
    }
  }

  /** One turn of that loop. */
  method RenameNext(h: Catalog<Label>, scan: CatalogScan, s: Snapshot, a: string, b: string,
                    ghost st0: State<Label>, ghost was: seq<nat>)
    returns (ok: bool, more: bool, ghost visited: seq<nat>)
    requires scan.On(h) && scan.snapshot == s && Mvcc.Valid(h.st)
    requires scan.Pos(h) <= |st0.rows| <= Start(h.ends, scan.nblocks)
    requires RenamedTo(st0, h.st, s, a, b, scan.Pos(h)) && s.curcid <= st0.cids[s.me]
    requires was == Shown(st0, s, scan.Pos(h)) && AllFree(st0, s, a, scan.Pos(h))
    modifies h, scan
    ensures h.Paged() && Mvcc.Valid(h.st) && scan.snapshot == s
    ensures more ==> ok && scan.On(h) && old(scan.Pos(h)) < scan.Pos(h) <= |st0.rows| <= Start(h.ends, scan.nblocks)
    ensures more ==> RenamedTo(st0, h.st, s, a, b, scan.Pos(h)) && AllFree(st0, s, a, scan.Pos(h))
    ensures more ==> visited == Shown(st0, s, scan.Pos(h))
    ensures !more && ok ==> RenamedTo(st0, h.st, s, a, b, |st0.rows|) && AllFree(st0, s, a, |st0.rows|)
    ensures !more && ok ==> visited == Shown(st0, s, |st0.rows|)
    ensures !ok ==> !AllFree(st0, s, a, |st0.rows|)
  {
    var found, i := FindShown(h, scan, s, a, b, st0);
    visited := was;
    if !found {
      return true, false, visited;
    }
    visited := visited + [i];
    ghost var ends := h.ends;
    ok := RewriteRow(h, i, s, a, b, st0);
    CursorStays(ends, h.ends, scan.cblock);
    more := ok;
  }

  /** The next row that was shown at the start, or the end. */
  method FindShown(h: Catalog<Label>, scan: CatalogScan, s: Snapshot, a: string, b: string, ghost st0: State<Label>)
    returns (found: bool, i: nat)
    requires scan.On(h) && scan.snapshot == s
    requires scan.Pos(h) <= |st0.rows| <= Start(h.ends, scan.nblocks)
    requires RenamedTo(st0, h.st, s, a, b, scan.Pos(h)) && s.curcid <= st0.cids[s.me]
    modifies scan
    ensures scan.On(h)
    ensures found ==> old(scan.Pos(h)) <= i < |st0.rows| && scan.Pos(h) == i + 1 && scan.held
    ensures found ==> RenamedTo(st0, h.st, s, a, b, i) && IsVisible(st0, st0.rows[i], s)
    ensures var n, to := old(scan.Pos(h)), if found then i else |st0.rows|;
      && n <= to && Hits(st0, s, a, to) == Hits(st0, s, a, n)
      && if found then Shown(st0, s, i + 1) == Shown(st0, s, n) + [i] else Shown(st0, s, to) == Shown(st0, s, n)
    ensures !found ==> RenamedTo(st0, h.st, s, a, b, |st0.rows|)
  {
    ghost var n := scan.Pos(h);
    found, i := scan.Next(h);
    if found {
      NextShown(st0, h.st, s, a, b, n, i);
    } else {
      SkipTo(st0, h.st, s, a, b, n, |st0.rows|);
    }
  }

  // ---------------------------------------------------------------- what the next command sees

  ghost predicate Holds(st: State<Label>, s: Snapshot, key: nat, row: Label) {
    exists i :: 0 <= i < |st.rows| && HoldsAt(st, s, key, row, i)
  }

  ghost predicate HoldsAt(st: State<Label>, s: Snapshot, key: nat, row: Label, i: nat)
    requires i < |st.rows|
  {
    st.rows[i].key == key && st.rows[i].data == row && IsVisible(st, st.rows[i], s)
  }

  /** A scan of the snapshot went over the whole file and every row it had to rewrite was free. */
  ghost predicate Rewritten(st0: State<Label>, st1: State<Label>, s: Snapshot, a: string, b: string) {
    RenamedTo(st0, st1, s, a, b, |st0.rows|) && AllFree(st0, s, a, |st0.rows|)
  }

  /** What a rename makes of a row; rows that the running command has added itself are not shown to it. */
  function Rewrite(st: State<Label>, s: Snapshot, a: string, b: string, i: nat): Label
    requires i < |st.rows|
  {
    if IsVisible(st, st.rows[i], s) then NewRow(st.rows[i].data, a, b) else st.rows[i].data
  }

  ghost predicate CameFrom(st: State<Label>, s: Snapshot, a: string, b: string, key: nat, row: Label)
    requires s.me in st.cids
  {
    exists i :: 0 <= i < |st.rows| && CameFromAt(st, s, a, b, key, row, i)
  }

  /** Version i was there for the next command, and the rename makes it the row given. */
  ghost predicate CameFromAt(st: State<Label>, s: Snapshot, a: string, b: string, key: nat, row: Label, i: nat)
    requires i < |st.rows| && s.me in st.cids
  {
    st.rows[i].key == key && IsVisible(st, st.rows[i], Following(st, s)) && Rewrite(st, s, a, b, i) == row
  }

  lemma OldShownAfter(st0: State<Label>, st1: State<Label>, s: Snapshot, a: string, b: string, k: nat)
    requires Mvcc.Valid(st0) && Held(st0, s) && RenamedTo(st0, st1, s, a, b, |st0.rows|) && k < |st0.rows|
    ensures st1.rows[k].key == st0.rows[k].key && st1.rows[k].data == st0.rows[k].data
    ensures IsVisible(st1, st1.rows[k], Following(st0, s)) <==>
      IsVisible(st0, st0.rows[k], Following(st0, s)) && !IsHit(st0, s, a, k)
  {
    assert OldRow(st0, st1, s, a, |st0.rows|, k) && RowOk(st0, k);
  }

  lemma FreeFollows(st0: State<Label>, s: Snapshot, a: string, k: nat)
    requires Mvcc.Valid(st0) && Held(st0, s) && AllFree(st0, s, a, |st0.rows|) && k < |st0.rows| && IsHit(st0, s, a, k)
    ensures IsVisible(st0, st0.rows[k], Following(st0, s))
  {
    HitsAre(st0, s, a, |st0.rows|);
    assert RowOk(st0, k);
  }

  lemma HeldFrom(st0: State<Label>, st1: State<Label>, s: Snapshot, a: string, b: string, key: nat, row: Label, i: nat)
    requires Mvcc.Valid(st0) && Held(st0, s) && Rewritten(st0, st1, s, a, b)
    requires i < |st1.rows| && HoldsAt(st1, Following(st0, s), key, row, i)
    ensures CameFrom(st0, s, a, b, key, row)
  {
    var n, hits := |st0.rows|, Hits(st0, s, a, |st0.rows|);
    if i < n {
      OldShownAfter(st0, st1, s, a, b, i);
      assert CameFromAt(st0, s, a, b, key, row, i);
    } else {
      HitsAre(st0, s, a, n);
      assert NewVersion(st0, st1, s, a, b, hits, i - n);
      var k := hits[i - n];
      assert k in hits && IsHit(st0, s, a, k);
      FreeFollows(st0, s, a, k);
      assert CameFromAt(st0, s, a, b, key, row, k);
    }
  }

  lemma CameTo(st0: State<Label>, st1: State<Label>, s: Snapshot, a: string, b: string, key: nat, row: Label, i: nat)
    requires Mvcc.Valid(st0) && Held(st0, s) && Rewritten(st0, st1, s, a, b)
    requires i < |st0.rows| && CameFromAt(st0, s, a, b, key, row, i)
    ensures Holds(st1, Following(st0, s), key, row)
  {
    var s1, n, hits := Following(st0, s), |st0.rows|, Hits(st0, s, a, |st0.rows|);
    if IsHit(st0, s, a, i) {
      HitsAre(st0, s, a, n);
      var m :| 0 <= m < |hits| && hits[m] == i;
      assert NewVersion(st0, st1, s, a, b, hits, m);
      assert HoldsAt(st1, s1, key, row, n + m);
    } else {
      OldShownAfter(st0, st1, s, a, b, i);
      assert HoldsAt(st1, s1, key, row, i);
    }
  }

  /** The next command finds exactly what it would have found, with every row that was shown to the
      rename renamed. */
  lemma RenameContents(st0: State<Label>, st1: State<Label>, s: Snapshot, a: string, b: string, key: nat, row: Label)
    requires Mvcc.Valid(st0) && Held(st0, s) && Rewritten(st0, st1, s, a, b)
    ensures Holds(st1, Following(st0, s), key, row) <==> CameFrom(st0, s, a, b, key, row)
  {
    if Holds(st1, Following(st0, s), key, row) {
      var i :| 0 <= i < |st1.rows| && HoldsAt(st1, Following(st0, s), key, row, i);
      HeldFrom(st0, st1, s, a, b, key, row, i);
    }
    if CameFrom(st0, s, a, b, key, row) {
      var i :| 0 <= i < |st0.rows| && CameFromAt(st0, s, a, b, key, row, i);
      CameTo(st0, st1, s, a, b, key, row, i);
    }
  }

  // ---------------------------------------------------------------- there and back

  /** The next command starts with everything its transaction has done in view. */
  lemma NextStarts(st0: State<Label>, st1: State<Label>, s: Snapshot, a: string, b: string)
    requires Mvcc.Valid(st0) && Held(st0, s) && RenamedTo(st0, st1, s, a, b, |st0.rows|) && Mvcc.Valid(st1)
    ensures var st, s1 := Step(st1, NextCommand(s.me)), Following(st0, s);
      && Mvcc.Valid(st) && Held(st, s1) && st.rows == st1.rows && st.xacts == st1.xacts
      && Following(st, s1) == s1.(curcid := s1.curcid + 1)
      && forall i :: 0 <= i < |st.rows| ==>
        (IsVisible(st, st.rows[i], Following(st, s1)) <==> IsVisible(st, st.rows[i], s1))
  {
    var st, s1 := Step(st1, NextCommand(s.me)), Following(st0, s);
    StepKeeps(st1, NextCommand(s.me));
    forall i | 0 <= i < |st.rows|
      ensures IsVisible(st, st.rows[i], Following(st, s1)) <==> IsVisible(st, st.rows[i], s1)
    {
      assert RowOk(st1, i);
    }
  }

  /** What the first rename wrote is the transaction's own and free to it: the rename back, in the next
      command, never meets a row it may not supersede. */
  lemma BackFree(st0: State<Label>, st1: State<Label>, s: Snapshot, a: string, b: string)
    requires Mvcc.Valid(st0) && Held(st0, s) && RenamedTo(st0, st1, s, a, b, |st0.rows|) && Mvcc.Valid(st1)
    requires Absent(st0, Following(st0, s), b)
    ensures var st := Step(st1, NextCommand(s.me)); AllFree(st, Following(st0, s), b, |st.rows|)
  {
    var st, s1, n := Step(st1, NextCommand(s.me)), Following(st0, s), |st0.rows|;
    NextStarts(st0, st1, s, a, b);
    HitsAre(st, s1, b, |st.rows|);
    forall k | 0 <= k < n ensures !IsHit(st, s1, b, k) {
      OldShownAfter(st0, st1, s, a, b, k);
      if IsVisible(st, st.rows[k], s1) { assert NotNamed(st0.rows[k].data, b); }
    }
    forall k | k in Hits(st, s1, b, |st.rows|) ensures k < |st.rows| && Check(st, st.rows[k], s.me) == Mvcc.Outcome.Ok {
      assert IsHit(st, s1, b, k);
      assert NewVersion(st0, st1, s, a, b, Hits(st0, s, a, n), k - n);
      CheckIs(st, s.me, k);
    }
  }

  /** One rename, the next command, and the rename back. */
  ghost predicate TwoRenames(st0: State<Label>, st1: State<Label>, st2: State<Label>, s: Snapshot, a: string, b: string) {
    && Mvcc.Valid(st0) && Held(st0, s) && Rewritten(st0, st1, s, a, b) && Mvcc.Valid(st1)
    && Rewritten(Step(st1, NextCommand(s.me)), st2, Following(st0, s), b, a)
  }

  /** What the command after it is shown. */
  function AfterBoth(st: State<Label>, s: Snapshot): Snapshot
    requires s.me in st.cids
  {
    s.(curcid := st.cids[s.me] + 2)
  }

  ghost predicate SameContents(st: State<Label>, s: Snapshot, st': State<Label>, s': Snapshot) {
    forall key: nat, row: Label :: Holds(st, s, key, row) <==> Holds(st', s', key, row)
  }

  /** No row the rename is shown and that is still there afterwards gets cut. */
  ghost predicate Uncut(st: State<Label>, s: Snapshot, a: string)
    requires s.me in st.cids
  {
    forall i :: 0 <= i < |st.rows| && IsVisible(st, st.rows[i], s) && IsVisible(st, st.rows[i], Following(st, s)) ==>
      UncutRow(st.rows[i].data, a)
  }

  predicate UncutRow(row: Label, a: string) {
    row.path.Some? ==> |row.path.value| <= MAX_TOKENS || a !in First(row.path.value)
  }

  ghost predicate Absent(st: State<Label>, s: Snapshot, b: string) {
    forall i :: 0 <= i < |st.rows| && IsVisible(st, st.rows[i], s) ==> NotNamed(st.rows[i].data, b)
  }

  predicate NotNamed(row: Label, b: string) { row.path.Some? ==> b !in row.path.value }

  /** Renaming to a name no path has and back restores the catalog exactly when no path was cut. */
  lemma RenameBackRestores(st0: State<Label>, st1: State<Label>, st2: State<Label>, s: Snapshot, a: string, b: string)
    requires TwoRenames(st0, st1, st2, s, a, b) && a != b
    requires OneEach(st0, Following(st0, s)) && Absent(st0, Following(st0, s), b)
    ensures SameContents(st0, Following(st0, s), st2, AfterBoth(st0, s)) <==> Uncut(st0, s, a)
  {
    var s1, s2 := Following(st0, s), AfterBoth(st0, s);
    forall key: nat, row: Label ensures Holds(st2, s2, key, row) <==> BackAndForth(st0, s, a, b, key, row) {
      ThereAndBack(st0, st1, st2, s, a, b, key, row);
    }
    if Uncut(st0, s, a) {
      forall key: nat, row: Label ensures Holds(st0, s1, key, row) <==> Holds(st2, s2, key, row) {
        UncutSame(st0, s, a, b, key, row);
      }
    } else {
      var i :| 0 <= i < |st0.rows| && IsVisible(st0, st0.rows[i], s) && IsVisible(st0, st0.rows[i], s1)
        && !UncutRow(st0.rows[i].data, a);
      assert HoldsAt(st0, s1, st0.rows[i].key, st0.rows[i].data, i);
      CutGone(st0, s, a, b, i);
    }
  }

  /** rename_vlabel, the next command of the same transaction, and the rename back: goes through exactly
      when the first rename does, and leaves a state that both renames led to. */
  method RenameAndBack(h: Catalog<Label>, s: Snapshot, a: string, b: string)
    returns (ok: bool, ghost mid: State<Label>)
    requires h.Paged() && Mvcc.Valid(h.st) && Held(h.st, s) && Absent(h.st, Following(h.st, s), b)
    modifies h
    ensures h.Paged() && Mvcc.Valid(h.st)
    ensures ok <==> AllFree(old(h.st), s, a, |old(h.st).rows|)
    ensures ok ==> TwoRenames(old(h.st), mid, h.st, s, a, b)
  {
    ghost var st0 := h.st;
    ghost var visited;
    mid := st0;
    ok, visited := RenameScan(h, s, a, b);
    if !ok {
      return;
    }
    mid := h.st;
    h.CommandCounterIncrement(s.me);
    NextStarts(st0, mid, s, a, b);
    BackFree(st0, mid, s, a, b);
    ok, visited := RenameScan(h, s.(curcid := h.st.cids[s.me]), b, a);
  }

  ghost predicate BackAndForth(st: State<Label>, s: Snapshot, a: string, b: string, key: nat, row: Label)
    requires s.me in st.cids
  {
    exists i :: 0 <= i < |st.rows| && BackAt(st, s, a, b, key, row, i)
  }

  ghost predicate BackAt(st: State<Label>, s: Snapshot, a: string, b: string, key: nat, row: Label, i: nat)
    requires i < |st.rows| && s.me in st.cids
  {
    && st.rows[i].key == key && IsVisible(st, st.rows[i], Following(st, s))
    && NewRow(Rewrite(st, s, a, b, i), b, a) == row
  }

  lemma ThereAndBack(st0: State<Label>, st1: State<Label>, st2: State<Label>, s: Snapshot,
                     a: string, b: string, key: nat, row: Label)
    requires TwoRenames(st0, st1, st2, s, a, b)
    ensures Holds(st2, AfterBoth(st0, s), key, row) <==> BackAndForth(st0, s, a, b, key, row)
  {
    var st, s1 := Step(st1, NextCommand(s.me)), Following(st0, s);
    NextStarts(st0, st1, s, a, b);
    RenameContents(st, st2, s1, b, a, key, row);
    if CameFrom(st, s1, b, a, key, row) {
      var i :| 0 <= i < |st.rows| && CameFromAt(st, s1, b, a, key, row, i);
      var mid := st.rows[i].data;
      assert HoldsAt(st1, s1, key, mid, i);
      RenameContents(st0, st1, s, a, b, key, mid);
      var j :| 0 <= j < |st0.rows| && CameFromAt(st0, s, a, b, key, mid, j);
      assert BackAt(st0, s, a, b, key, row, j);
    }
    if BackAndForth(st0, s, a, b, key, row) {
      var j :| 0 <= j < |st0.rows| && BackAt(st0, s, a, b, key, row, j);
      var mid := Rewrite(st0, s, a, b, j);
      assert CameFromAt(st0, s, a, b, key, mid, j);
      RenameContents(st0, st1, s, a, b, key, mid);
      var i :| 0 <= i < |st1.rows| && HoldsAt(st1, s1, key, mid, i);
      assert CameFromAt(st, s1, b, a, key, row, i);
    }
  }

  /** There and back, a row that is not cut is the same. */
  lemma BackSame(st: State<Label>, s: Snapshot, a: string, b: string, i: nat)
    requires a != b && i < |st.rows| && NotNamed(st.rows[i].data, b)
    requires IsVisible(st, st.rows[i], s) ==> UncutRow(st.rows[i].data, a)
    ensures NewRow(Rewrite(st, s, a, b, i), b, a) == st.rows[i].data
  {
    var row := st.rows[i].data;
    RenameBackIff(row, a, b);
    if row.path.Some? { assert forall t :: t in First(row.path.value) ==> t in row.path.value; }
  }

  lemma UncutSame(st: State<Label>, s: Snapshot, a: string, b: string, key: nat, row: Label)
    requires s.me in st.cids && a != b && Uncut(st, s, a) && Absent(st, Following(st, s), b)
    ensures Holds(st, Following(st, s), key, row) <==> BackAndForth(st, s, a, b, key, row)
  {
    forall i | 0 <= i < |st.rows| ensures BackAt(st, s, a, b, key, row, i) <==> HoldsAt(st, Following(st, s), key, row, i) {
      if IsVisible(st, st.rows[i], Following(st, s)) {
        assert NotNamed(st.rows[i].data, b);
        BackSame(st, s, a, b, i);
      }
    }
  }

  lemma CutGone(st: State<Label>, s: Snapshot, a: string, b: string, i: nat)
    requires s.me in st.cids && a != b && Absent(st, Following(st, s), b) && OneEach(st, Following(st, s))
    requires i < |st.rows| && IsVisible(st, st.rows[i], s) && IsVisible(st, st.rows[i], Following(st, s))
    requires !UncutRow(st.rows[i].data, a)
    ensures !BackAndForth(st, s, a, b, st.rows[i].key, st.rows[i].data)
  {
    var key, row := st.rows[i].key, st.rows[i].data;
    assert NotNamed(row, b);
    RenameBackIff(row, a, b);
    forall j | 0 <= j < |st.rows| ensures !BackAt(st, s, a, b, key, row, j) {
      if j != i {
        assert !BothVisible(st, Following(st, s), if i < j then i else j, if i < j then j else i);
      }
    }
  }

  // ---------------------------------------------------------------- a path that is cut

  function LongLabel(a: string, n: nat): Label { Label(7, Some(seq(n, _ => a))) }

  /** A committed label whose path has one token more than a rename reads, seen by a later transaction. */
  lemma LongPath(a: string) returns (st: State<Label>, s: Snapshot)
    ensures Mvcc.Valid(st) && Held(st, s) && AllFree(st, s, a, |st.rows|)
    ensures |st.rows| == 1 && st.rows[0].data == LongLabel(a, 257) && IsVisible(st, st.rows[0], s)
  {
    var st0 := Empty<Label>();
    var st1 := Step(st0, Begin(1));
    var st2 := Step(st1, Insert(1, LongLabel(a, 257)));
    var st3 := Step(st2, Commit(1));
    st := Step(st3, Begin(2));
    StepKeeps(st0, Begin(1));
    StepKeeps(st1, Insert(1, LongLabel(a, 257)));
    StepKeeps(st2, Commit(1));
    StepKeeps(st3, Begin(2));
    s := Take(st, 2);
    HitsAre(st, s, a, 1);
  }

  /** Renaming there and back leaves that label with 256 tokens, for good. */
  lemma LongPathLost(st0: State<Label>, st1: State<Label>, st2: State<Label>, s: Snapshot, a: string, b: string)
    requires TwoRenames(st0, st1, st2, s, a, b) && a != b
    requires |st0.rows| == 1 && st0.rows[0].data == LongLabel(a, 257) && IsVisible(st0, st0.rows[0], s)
    ensures var s2, key := AfterBoth(st0, s), st0.rows[0].key;
      && Holds(st0, s, key, LongLabel(a, 257)) && !Holds(st2, s2, key, LongLabel(a, 257))
      && Holds(st2, s2, key, LongLabel(a, 256))
  {
    var key := st0.rows[0].key;
    FreeFollowsLong(st0, s, a);
    LongCut(a, b);
    ThereAndBack(st0, st1, st2, s, a, b, key, LongLabel(a, 257));
    ThereAndBack(st0, st1, st2, s, a, b, key, LongLabel(a, 256));
    OnlyShort(st0, s, a, b);
    assert HoldsAt(st0, s, key, LongLabel(a, 257), 0);
  }

  lemma FreeFollowsLong(st0: State<Label>, s: Snapshot, a: string)
    requires Mvcc.Valid(st0) && Held(st0, s) && |st0.rows| == 1 && AllFree(st0, s, a, 1)
    requires st0.rows[0].data == LongLabel(a, 257) && IsVisible(st0, st0.rows[0], s)
    ensures IsVisible(st0, st0.rows[0], Following(st0, s))
  {
    assert First(LongLabel(a, 257).path.value)[0] == a;
    FreeFollows(st0, s, a, 0);
  }

  lemma OnlyShort(st0: State<Label>, s: Snapshot, a: string, b: string)
    requires s.me in st0.cids && |st0.rows| == 1 && IsVisible(st0, st0.rows[0], s)
    requires st0.rows[0].data == LongLabel(a, 257) && IsVisible(st0, st0.rows[0], Following(st0, s))
    requires NewRow(NewRow(LongLabel(a, 257), a, b), b, a) == LongLabel(a, 256)
    ensures BackAndForth(st0, s, a, b, st0.rows[0].key, LongLabel(a, 256))
    ensures !BackAndForth(st0, s, a, b, st0.rows[0].key, LongLabel(a, 257))
  {
    var key, long, short := st0.rows[0].key, LongLabel(a, 257), LongLabel(a, 256);
    assert BackAt(st0, s, a, b, key, short, 0);
    assert |long.path.value| != |short.path.value|;
  }

  lemma LongCut(a: string, b: string)
    requires a != b
    ensures NewRow(NewRow(LongLabel(a, 257), a, b), b, a) == LongLabel(a, 256)
  {
    var row := LongLabel(a, 257);
    var p := First(row.path.value);
    assert p[0] == a && p == seq(256, _ => a);
    var q := Renamed(p, a, b);
    assert q[0] == b && First(q) == q;
    assert Renamed(q, b, a) == p;
  }
}
