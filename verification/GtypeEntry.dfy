/** gtentry words: a 28-bit length or end offset, three type bits, and the bit that says which. */
module GtypeEntry {
  const OFFLENMASK := 0x0FFF_FFFF
  const TYPE_UNIT := 0x1000_0000
  const HAS_OFF := 0x8000_0000
  const STRIDE := 32

  const IS_STRING := 0
  const IS_NUMERIC := 1
  const IS_FALSE := 2
  const IS_TRUE := 3
  const IS_NULL := 4
  const IS_CONTAINER := 5
  const IS_GTYPE := 6

  type Entry = nat

  function OffLen(e: Entry): nat { e % TYPE_UNIT }
  function TypeOf(e: Entry): nat { e / TYPE_UNIT % 8 }
  predicate HasOff(e: Entry) { e / HAS_OFF % 2 == 1 }

  /** type bits | length, as the converters first build it. */
  function Make(t: nat, len: nat): Entry { t * TYPE_UNIT + len }

  /** (meta & TYPEMASK) | total | HAS_OFF, for every STRIDE-th child. */
  function AsOffset(e: Entry, total: nat): Entry { TypeOf(e) * TYPE_UNIT + total + HAS_OFF }

  /** Fields do not run into each other while lengths stay within the mask. */
  lemma Fields(t: nat, len: nat, total: nat)
    requires t < 8 && len <= OFFLENMASK && total <= OFFLENMASK
    ensures var e := Make(t, len); OffLen(e) == len && TypeOf(e) == t && !HasOff(e) && e < 0x1_0000_0000
    ensures var e := AsOffset(Make(t, len), total); OffLen(e) == total && TypeOf(e) == t && HasOff(e) && e < 0x1_0000_0000
  {
  }

  function Sum(lens: seq<nat>, n: nat): nat
    requires n <= |lens|
  {
    if n == 0 then 0 else Sum(lens, n - 1) + lens[n - 1]
  }

  ghost predicate Steps(offs: seq<nat>, lens: seq<nat>, i: nat)
    requires i < |lens| < |offs|
  {
    offs[i + 1] == offs[i] + lens[i]
  }

  lemma {:induction false} SumOfSteps(offs: seq<nat>, lens: seq<nat>, k: nat)
    requires |offs| == |lens| + 1 && offs[0] == 0 && k <= |lens|
    requires forall i :: 0 <= i < |lens| ==> Steps(offs, lens, i)
    ensures Sum(lens, k) == offs[k]
  {
    if k > 0 {
      SumOfSteps(offs, lens, k - 1);
      assert Steps(offs, lens, k - 1);
    }
  }

  /** Each entry holds its length, or the end offset of its data. */
  ghost predicate Stored(es: seq<Entry>, lens: seq<nat>) {
    && |es| == |lens|
    && forall i {:trigger StoredAt(es, lens, i)} :: 0 <= i < |es| ==> StoredAt(es, lens, i)
  }

  ghost predicate StoredAt(es: seq<Entry>, lens: seq<nat>, i: nat)
    requires i < |es| == |lens|
  {
    OffLen(es[i]) == if HasOff(es[i]) then Sum(lens, i + 1) else lens[i]
  }

  /** get_gtype_offset: walk back to the nearest end offset. */
  method GetOffset(es: seq<Entry>, index: nat, ghost lens: seq<nat>) returns (offset: nat, ghost looked: nat)
    requires index <= |es| && Stored(es, lens)
    ensures offset == Sum(lens, index)
    ensures (forall i :: 0 <= i < |es| && i % STRIDE == 0 ==> HasOff(es[i])) ==> looked <= STRIDE
  {
    offset, looked := 0, 0;
    var i := index;
    while i > 0
      invariant 0 <= i <= index && looked == index - i
      invariant Sum(lens, i) + offset == Sum(lens, index)
      invariant (forall j :: 0 <= j < |es| && j % STRIDE == 0 ==> HasOff(es[j])) ==>
                  forall j :: i <= j < index ==> j % STRIDE != 0
    {
      i := i - 1;
      assert StoredAt(es, lens, i);
      offset, looked := offset + OffLen(es[i]), looked + 1;
      if HasOff(es[i]) {
        StrideBound(i + 1, index);
        return;
      }
    }
    StrideBound(0, index);
  }

  lemma StrideBound(i: nat, index: nat)
    requires i <= index
    ensures (forall j :: i <= j < index ==> j % STRIDE != 0) ==> index - i <= STRIDE - 1
  {
    if index - i >= STRIDE {
      var j := (i + STRIDE - 1) / STRIDE * STRIDE;
      assert j % STRIDE == 0 && i <= j < index;
    }
  }

  /** get_gtype_length */
  method GetLength(es: seq<Entry>, index: nat, ghost lens: seq<nat>) returns (len: nat)
    requires index < |es| && Stored(es, lens)
    ensures len == lens[index]
  {
    assert StoredAt(es, lens, index);
    if HasOff(es[index]) {
      var off, looked := GetOffset(es, index, lens);
      len := OffLen(es[index]) - off;
    } else {
      len := OffLen(es[index]);
    }
  }

  /** GTE_ADVANCE_OFFSET */
  function Advance(offset: nat, e: Entry): nat {
    if HasOff(e) then OffLen(e) else offset + OffLen(e)
  }

  /** Advancing entry by entry gives the same offsets as looking each one up. */
  lemma AdvanceIsSum(es: seq<Entry>, lens: seq<nat>, i: nat)
    requires Stored(es, lens) && i < |es|
    ensures Advance(Sum(lens, i), es[i]) == Sum(lens, i + 1)
  {
    assert StoredAt(es, lens, i);
  }
}
