/** The converters: a growing buffer, with entry slots reserved first and filled as children arrive. */
module GtypeEncode {
  import opened GtypeEntry
  import opened GtypeKeys
  import opened GtypeValue

  /** Padding only depends on the length modulo four. */
  lemma EncMod(v: Value, a: nat, b: nat)
    requires a % 4 == b % 4
    ensures Enc(v, a) == Enc(v, b) && Meta(v, a) == Meta(v, b)
  {
    assert Pad(a) == Pad(b);
  }

  function Blank(n: nat): (r: Bytes)
    ensures |r| == n
  {
    seq(n, _ => 0)
  }

  function Overwrite(mem: Bytes, p: nat, b: Bytes): (r: Bytes)
    requires p + |b| <= |mem|
    ensures |r| == |mem|
  {
    mem[..p] + b + mem[p + |b|..]
  }

  /** A half-written container: k entries stored, d children appended. */
  function Image(pre: Bytes, v: Value, k: nat, d: nat): Bytes
    requires IsContainer(v) && k <= Count(v) && d <= Count(v)
  {
    pre + U32(Header(v)) + Entries(v, k) + Blank(4 * (Count(v) - k)) + Data(v, d)
  }

  lemma ImageLength(pre: Bytes, v: Value, k: nat, d: nat)
    requires IsContainer(v) && k <= Count(v) && d <= Count(v)
    ensures |Image(pre, v, k, d)| == |pre| + 4 + 4 * Count(v) + |Data(v, d)|
  {
  }

  lemma ImageStart(pre: Bytes, v: Value)
    requires IsContainer(v)
    ensures pre + U32(Header(v)) + Blank(4 * Count(v)) == Image(pre, v, 0, 0)
  {
  }

  /** Appending the next child at the buffer's own length is appending it at its data offset. */
  lemma ImageAppend(pre: Bytes, v: Value, k: nat)
    requires IsContainer(v) && k < Count(v) && |pre| % 4 == 0
    ensures Image(pre, v, k, k) + Enc(Child(v, k), |Image(pre, v, k, k)|) == Image(pre, v, k, k + 1)
    ensures Enc(Child(v, k), |Image(pre, v, k, k)|) == Enc(Child(v, k), |Data(v, k)|)
    ensures Meta(Child(v, k), |Image(pre, v, k, k)|) == MetaAt(v, k)
  {
    var at, off := |Image(pre, v, k, k)|, |Data(v, k)|;
    ImageLength(pre, v, k, k);
    EncMod(Child(v, k), at, off);
    DataStep(v, k);
    assert Enc(Child(v, k), off) == Piece(v, k, off);
  }

  lemma ImageStore(pre: Bytes, v: Value, k: nat)
    requires IsContainer(v) && k < Count(v)
    ensures |pre| + 4 + 4 * k + 4 <= |Image(pre, v, k, k + 1)|
    ensures Overwrite(Image(pre, v, k, k + 1), |pre| + 4 + 4 * k, U32(EntryAt(v, k))) == Image(pre, v, k + 1, k + 1)
  {
    var w := U32(EntryAt(v, k));
    var head, rest := pre + U32(Header(v)) + Entries(v, k), Blank(4 * (Count(v) - k - 1));
    Splice(head, w, rest, Data(v, k + 1));
    assert Blank(4 * (Count(v) - k)) == Blank(4) + rest;
    assert Image(pre, v, k, k + 1) == head + (Blank(4) + rest) + Data(v, k + 1);
    assert pre + U32(Header(v)) + Entries(v, k + 1) == head + w;
  }

  lemma Splice(head: Bytes, w: Bytes, rest: Bytes, data: Bytes)
    requires |w| == 4
    ensures Overwrite(head + (Blank(4) + rest) + data, |head|, w) == head + w + rest + data
  {
    var m := head + (Blank(4) + rest) + data;
    assert m[..|head|] == head;
    assert m[|head| + 4..] == rest + data;
  }

  lemma ImageEnd(pre: Bytes, v: Value)
    requires IsContainer(v)
    ensures Image(pre, v, Count(v), Count(v)) == pre + Body(v)
  {
    assert Blank(0) == [];
  }

  /** A child that is too long makes its container too long. */
  lemma KidTooLong(v: Value, k: nat, off: nat)
    requires IsContainer(v) && k < Count(v) && |Enc(v, off)| <= OFFLENMASK
    ensures |Enc(Child(v, k), |Data(v, k)|)| <= |Data(v, k + 1)| <= OFFLENMASK
  {
    EncContainer(v, off);
    PieceShort(v, k);
    DataGrows(v, k + 1, Count(v));
    assert Enc(Child(v, k), |Data(v, k)|) == Piece(v, k, |Data(v, k)|);
  }

  lemma TotalStep(v: Value, k: nat, root: bool)
    requires Ok(v, root) && IsContainer(v) && k < Count(v)
    requires IsContainer(Child(v, k)) ==> |Enc(Child(v, k), |Data(v, k)|)| <= OFFLENMASK
    requires Total(v, k) <= |Data(v, k)|
    ensures Total(v, k + 1) == Total(v, k) + OffLen(MetaAt(v, k)) <= |Data(v, k + 1)|
    ensures MetaAt(v, k) < HAS_OFF
  {
    OkKid(v, k, root);
    var off := |Data(v, k)|;
    DataStep(v, k);
    if IsKey(v, k) {
      Fields(IS_STRING, |v.pairs[k].key|, 0);
    } else {
      if !IsContainer(Kid(v, k)) { ScalarShort(Kid(v, k), off); }
      MetaLength(Kid(v, k), off);
      var t: nat, len: nat :| t < 8 && len <= OFFLENMASK && MetaAt(v, k) == Make(t, len);
      assert Make(t, len) < 8 * TYPE_UNIT;
    }
  }

  lemma ScalarShort(c: Value, off: nat)
    requires Ok(c, false) && !IsContainer(c)
    ensures |Enc(c, off)| <= OFFLENMASK
  {
  }

  /** What converting child k does to a half-written container that began at length `base`. */
  lemma KidStep(pre: Bytes, v: Value, k: nat, base: nat, root: bool)
    requires Ok(v, root) && IsContainer(v) && k < Count(v) && |pre| % 4 == 0
    ensures var at, c := |Image(pre, v, k, k)|, Child(v, k);
      && Ok(c, false)
      && Image(pre, v, k, k) + Enc(c, at) == Image(pre, v, k, k + 1)
      && Meta(c, at) == MetaAt(v, k)
      && |Enc(c, at)| == |Enc(c, |Data(v, k)|)|
      && (|Enc(c, at)| > OFFLENMASK ==> |Enc(v, base)| > OFFLENMASK)
  {
    OkKid(v, k, root);
    ImageAppend(pre, v, k);
    if |Enc(v, base)| <= OFFLENMASK { KidTooLong(v, k, base); }
  }

  lemma StoreStep(pre: Bytes, v: Value, k: nat, base: nat, root: bool)
    requires Ok(v, root) && IsContainer(v) && k < Count(v) && Total(v, k) <= |Data(v, k)|
    requires |Enc(Child(v, k), |Data(v, k)|)| <= OFFLENMASK
    ensures Total(v, k + 1) == Total(v, k) + OffLen(MetaAt(v, k)) <= |Data(v, k + 1)|
    ensures Total(v, k + 1) > OFFLENMASK ==> |Enc(v, base)| > OFFLENMASK
  {
    TotalStep(v, k, root);
    if |Enc(v, base)| <= OFFLENMASK { KidTooLong(v, k, base); }
  }

  lemma ContainerDone(before: Bytes, pre: Bytes, v: Value)
    requires IsContainer(v) && pre == before + Pad(|before|)
    ensures Image(pre, v, Count(v), Count(v)) == before + Enc(v, |before|)
    ensures Meta(v, |before|) == Make(IS_CONTAINER, |Enc(v, |before|)|)
  {
    ImageEnd(pre, v);
    EncContainer(v, |before|);
    assert (before + Pad(|before|)) + Body(v) == before + (Pad(|before|) + Body(v));
  }

  class Buffer {
    var data: Bytes

    constructor ()
      ensures data == []
    {
      data := [];
    }

    /** reserve_from_buffer */
    method Reserve(len: nat) returns (offset: nat)
      modifies this
      ensures offset == |old(data)| && data == old(data) + Blank(len)
    {
      offset := |data|;
      data := data + Blank(len);
    }

    /** copy_to_buffer */
    method CopyTo(offset: nat, b: Bytes)
      requires offset + |b| <= |data|
      modifies this
      ensures data == Overwrite(old(data), offset, b)
    {
      data := data[..offset] + b + data[offset + |b|..];
    }

    /** append_to_buffer */
    method Append(b: Bytes)
      modifies this
      ensures data == old(data) + b
    {
      var offset := Reserve(|b|);
      CopyTo(offset, b);
    }

    /** pad_buffer_to_int */
    method PadToInt() returns (padlen: nat)
      modifies this
      ensures data == old(data) + Pad(|old(data)|) && padlen == |Pad(|old(data)|)| && |data| % 4 == 0
    {
      padlen := IntAlign(|data|) - |data|;
      var offset := Reserve(padlen);
      var p := 0;
      while p < padlen
        invariant 0 <= p <= padlen && data == old(data) + Blank(padlen)
      {
        data := data[offset + p := 0];
        p := p + 1;
      }
    }

    /** np_serialize_header and the payload copies of np_serialize_extended_type. */
    method SerializeExtended(tag: nat, p: Bytes) returns (entry: Entry)
      requires KnownTag(tag) && |p| == PayloadLen(tag)
      modifies this
      ensures data == old(data) + Enc(Ext(tag, p), |old(data)|) && entry == Meta(Ext(tag, p), |old(data)|)
    {
      var padlen := PadToInt();
      var offset := Reserve(4);
      CopyTo(offset, U32(tag));
      var numlen := ReservedLen(tag);
      offset := Reserve(numlen);
      CopyTo(offset, p);
      assert data == old(data) + Pad(|old(data)|) + U32(tag) + p + Zeros(tag);
      entry := Make(IS_GTYPE, (if tag == TIMESTAMP then 0 else padlen) + numlen + 4);
    }

    /** convert_gtype_scalar */
    method ConvertScalar(v: Value) returns (entry: Entry)
      requires Ok(v, false) && !IsContainer(v)
      modifies this
      ensures data == old(data) + Enc(v, |old(data)|) && entry == Meta(v, |old(data)|)
    {
      match v
      case Null => entry := Make(IS_NULL, 0);
      case Str(s) =>
        Append(s);
        entry := Make(IS_STRING, |s|);
      case Num(d) =>
        var padlen := PadToInt();
        Append(d);
        entry := Make(IS_NUMERIC, padlen + |d|);
      case Bool(b) => entry := Make(if b then IS_TRUE else IS_FALSE, 0);
      case Ext(tag, p) => entry := SerializeExtended(tag, p);
    }

    /** convert_gtype_value: fails exactly when a container is longer than an entry can say. */
    method ConvertValue(v: Value, ghost root: bool) returns (ok: bool, entry: Entry)
      requires Ok(v, root)
      modifies this
      ensures ok <==> (IsContainer(v) ==> |Enc(v, |old(data)|)| <= OFFLENMASK)
      ensures ok ==> data == old(data) + Enc(v, |old(data)|) && entry == Meta(v, |old(data)|)
      decreases v, 3
    {
      ok := true;
      if v.Arr? {
        ok, entry := ConvertArray(v, root);
      } else if v.Obj? {
        ok, entry := ConvertObject(v, root);
      } else {
        entry := ConvertScalar(v);
      }
    }

    /** The tail of every conversion loop: bound the running total, turn each STRIDE-th length
        into an end offset, and fill the child's reserved slot. */
    method StoreEntry(slot: nat, entry: Entry, sofar: nat, i: nat, ghost pre: Bytes, ghost v: Value,
                      ghost base: nat, ghost root: bool)
      returns (ok: bool, total: nat)
      requires Ok(v, root) && IsContainer(v) && i < Count(v) && data == Image(pre, v, i, i + 1)
      requires slot == |pre| + 4 + 4 * i && entry == MetaAt(v, i) && sofar == Total(v, i) <= |Data(v, i)|
      requires |Enc(Child(v, i), |Data(v, i)|)| <= OFFLENMASK
      modifies this
      ensures !ok ==> |Enc(v, base)| > OFFLENMASK
      ensures ok ==> data == Image(pre, v, i + 1, i + 1) && total == Total(v, i + 1) <= |Data(v, i + 1)|
    {
      StoreStep(pre, v, i, base, root);
      ImageStore(pre, v, i);
      var meta := entry;
      total := sofar + OffLen(meta);
      if total > OFFLENMASK {
        return false, total;
      }
      if i % STRIDE == 0 {
        meta := AsOffset(meta, total);
      }
      CopyTo(slot, U32(meta));
      ok := true;
    }

    /** The body of the loops over elements and over values. */
    method ConvertKid(v: Value, k: nat, slot: nat, sofar: nat, ghost pre: Bytes, ghost base: nat, ghost root: bool)
      returns (ok: bool, total: nat)
      requires Ok(v, root) && IsContainer(v) && k < Count(v) && !IsKey(v, k) && |pre| % 4 == 0
      requires data == Image(pre, v, k, k) && slot == |pre| + 4 + 4 * k && sofar == Total(v, k) <= |Data(v, k)|
      modifies this
      ensures !ok ==> |Enc(v, base)| > OFFLENMASK
      ensures ok ==> data == Image(pre, v, k + 1, k + 1) && total == Total(v, k + 1) <= |Data(v, k + 1)|
      decreases v, 0
    {
      total := sofar;
      KidStep(pre, v, k, base, root);
      var entry;
      ok, entry := ConvertValue(Kid(v, k), false);
      if ok {
        ok, total := StoreEntry(slot, entry, total, k, pre, v, base, root);
      }
    }

    /** convert_gtype_array */
    method ConvertArray(v: Value, ghost root: bool) returns (ok: bool, entry: Entry)
      requires v.Arr? && Ok(v, root)
      modifies this
      ensures ok <==> |Enc(v, |old(data)|)| <= OFFLENMASK
      ensures ok ==> data == old(data) + Enc(v, |old(data)|) && entry == Meta(v, |old(data)|)
      decreases v, 1
    {
      var base := |data|;
      var padlen := PadToInt();
      ghost var pre := data;
      var header := |v.elems| + FARRAY;
      if v.raw {
        header := header + FSCALAR;
      }
      Append(U32(header));
      var slot := Reserve(4 * |v.elems|);
      ImageStart(pre, v);
      var total, i := 0, 0;
      entry := 0;
      while i < |v.elems|
        invariant 0 <= i <= |v.elems| && slot == |pre| + 4 + 4 * i
        invariant data == Image(pre, v, i, i) && total == Total(v, i) <= |Data(v, i)|
      {
        ok, total := ConvertKid(v, i, slot, total, pre, base, root);
        if !ok {
          return;
        }
        slot, i := slot + 4, i + 1;
      }
      ContainerDone(old(data), pre, v);
      total := |data| - base;
      ok, entry := total <= OFFLENMASK, Make(IS_CONTAINER, total);
    }

    /** convert_gtype_object, the keys. */
    method ConvertKeys(v: Value, start: nat, ghost pre: Bytes, ghost base: nat, ghost root: bool)
      returns (ok: bool, slot: nat, total: nat)
      requires v.Obj? && Ok(v, root) && |pre| % 4 == 0
      requires data == Image(pre, v, 0, 0) && start == |pre| + 4
      modifies this
      ensures !ok ==> |Enc(v, base)| > OFFLENMASK
      ensures var n := |v.pairs|;
        ok ==> data == Image(pre, v, n, n) && slot == start + 4 * n && total == Total(v, n) <= |Data(v, n)|
    {
      ok, slot, total := true, start, 0;
      var i := 0;
      while i < |v.pairs|
        invariant 0 <= i <= |v.pairs| && slot == start + 4 * i && ok
        invariant data == Image(pre, v, i, i) && total == Total(v, i) <= |Data(v, i)|
      {
        KidStep(pre, v, i, base, root);
        var entry := ConvertScalar(Str(v.pairs[i].key));
        ok, total := StoreEntry(slot, entry, total, i, pre, v, base, root);
        if !ok {
          return;
        }
        slot, i := slot + 4, i + 1;
      }
    }

    /** convert_gtype_object, the values. */
    method ConvertPairs(v: Value, start: nat, sofar: nat, ghost pre: Bytes, ghost base: nat, ghost root: bool)
      returns (ok: bool)
      requires v.Obj? && Ok(v, root) && |pre| % 4 == 0
      requires var n := |v.pairs|;
        data == Image(pre, v, n, n) && start == |pre| + 4 + 4 * n && sofar == Total(v, n) <= |Data(v, n)|
      modifies this
      ensures !ok ==> |Enc(v, base)| > OFFLENMASK
      ensures ok ==> data == Image(pre, v, Count(v), Count(v))
      decreases v, 1
    {
      var slot, total, i, n := start, sofar, 0, |v.pairs|;
      ok := true;
      while i < n
        invariant 0 <= i <= n && slot == start + 4 * i && ok
        invariant data == Image(pre, v, n + i, n + i) && total == Total(v, n + i) <= |Data(v, n + i)|
      {
        ok, total := ConvertKid(v, n + i, slot, total, pre, base, root);
        if !ok {
          return;
        }
        slot, i := slot + 4, i + 1;
      }
    }

    /** convert_gtype_object */
    method ConvertObject(v: Value, ghost root: bool) returns (ok: bool, entry: Entry)
      requires v.Obj? && Ok(v, root)
      modifies this
      ensures ok <==> |Enc(v, |old(data)|)| <= OFFLENMASK
      ensures ok ==> data == old(data) + Enc(v, |old(data)|) && entry == Meta(v, |old(data)|)
      decreases v, 2
    {
      var base, n := |data|, |v.pairs|;
      var padlen := PadToInt();
      ghost var pre := data;
      Append(U32(n + FOBJECT));
      var slot := Reserve(4 * n * 2);
      ImageStart(pre, v);
      var total;
      entry := 0;
      ok, slot, total := ConvertKeys(v, slot, pre, base, root);
      if !ok {
        return;
      }
      ok := ConvertPairs(v, slot, total, pre, base, root);
      if !ok {
        return;
      }
      ContainerDone(old(data), pre, v);
      total := |data| - base;
      ok, entry := total <= OFFLENMASK, Make(IS_CONTAINER, total);
    }
  }

  /** Scalars are stored as the one element of a raw array. */
  function Root(v: Value): Value { if IsContainer(v) then v else Arr([v], true) }

  /** convert_to_gtype: a size word, then the root container. */
  method ConvertToGtype(c: Value) returns (ok: bool, g: Bytes)
    requires IsContainer(c) && Ok(c, true)
    ensures ok <==> |Body(c)| <= OFFLENMASK
    ensures ok ==> |g| == 4 + |Body(c)| && ReadU32(g, 0) == 4 * |g| && At(g, 4, Body(c))
  {
    var buffer := new Buffer();
    var start := buffer.Reserve(4);
    RootStarts(c);
    var entry;
    ok, entry := buffer.ConvertValue(c, true);
    g := [];
    if ok {
      SizeWord(Body(c), 4 * |buffer.data|);
      buffer.CopyTo(0, U32(4 * |buffer.data|));
      g := buffer.data;
    }
  }

  lemma RootStarts(c: Value)
    requires IsContainer(c)
    ensures Enc(c, 4) == Body(c)
  {
    EncContainer(c, 4);
    assert Pad(4) == [];
  }

  /** gtype_value_to_gtype */
  method ValueToGtype(v: Value) returns (ok: bool, g: Bytes)
    requires Ok(v, true)
    ensures ok <==> |Body(Root(v))| <= OFFLENMASK
    ensures ok ==> |g| == 4 + |Body(Root(v))| && ReadU32(g, 0) == 4 * |g| && Holds(g, 4, Root(v))
  {
    ok, g := ConvertToGtype(Root(v));
  }

  lemma SizeWord(body: Bytes, w: nat)
    requires w < 0x1_0000_0000
    ensures var g := Overwrite(Blank(4) + body, 0, U32(w)); ReadU32(g, 0) == w && At(g, 4, body)
  {
    var g := Overwrite(Blank(4) + body, 0, U32(w));
    assert g == U32(w) + body;
    ReadBack(g, 0, w);
  }
}
