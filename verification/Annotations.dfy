/** Annotation bitsets: one bit per schema position. Names are appended to a schema and taken out of
    it; the bitsets already written stay as they are. */
module Annotations {
  import opened Common

  type Name = string

  /** A schema is a text array; its elements may be null. */
  type Schema = seq<Option<Name>>

  type Bits = seq<bv8>

  function Mask(k: nat): bv8 {
    if k == 0 then 1 else if k == 1 then 2 else if k == 2 then 4 else if k == 3 then 8
    else if k == 4 then 16 else if k == 5 then 32 else if k == 6 then 64 else 128
  }

  predicate InByte(b: bv8, k: nat) { b & Mask(k) != 0 }

  lemma ByteSet(b: bv8, k: nat, j: nat)
    requires k < 8 && j < 8
    ensures InByte(b | Mask(k), j) <==> j == k || InByte(b, j)
  {
  }

  lemma ByteCleared(b: bv8, k: nat, j: nat)
    requires k < 8 && j < 8
    ensures InByte(b & !Mask(k), j) <==> j != k && InByte(b, j)
  {
  }

  predicate Bit(bits: Bits, i: nat) { i / 8 < |bits| && InByte(bits[i / 8], i % 8) }

  function ByteSize(s: Schema): nat { (|s| + 7) / 8 }

  /** As many bytes as the positions need and no more. */
  lemma SizeIs(s: Schema)
    ensures 8 * ByteSize(s) >= |s| && (s != [] ==> 8 * (ByteSize(s) - 1) < |s|)
  {
  }

  function SetBit(bits: Bits, i: nat): Bits
    requires i / 8 < |bits|
  {
    bits[i / 8 := bits[i / 8] | Mask(i % 8)]
  }

  function ClearBit(bits: Bits, i: nat): Bits
    requires i / 8 < |bits|
  {
    bits[i / 8 := bits[i / 8] & !Mask(i % 8)]
  }

  /** Position k of a byte is its bit of value 2 to the k. */
  lemma MaskIs(k: nat)
    requires k < 8
    ensures Mask(k) == 1 << k && Mask(k) as int == [1, 2, 4, 8, 16, 32, 64, 128][k]
  {
  }

  /** Setting or clearing one bit changes no other. */
  lemma OneBit(bits: Bits, i: nat, j: nat)
    requires i / 8 < |bits|
    ensures Bit(SetBit(bits, i), j) <==> j == i || Bit(bits, j)
    ensures Bit(ClearBit(bits, i), j) <==> j != i && Bit(bits, j)
  {
    if j / 8 == i / 8 {
      ByteSet(bits[i / 8], i % 8, j % 8);
      ByteCleared(bits[i / 8], i % 8, j % 8);
    }
  }

  // ---------------------------------------------------------------- names

  /** The first position of a name, or -1. */
  function Position(s: Schema, name: Name): (p: int)
    ensures -1 <= p < |s|
    ensures p >= 0 ==> s[p] == Some(name) && forall k :: 0 <= k < p ==> s[k] != Some(name)
    ensures p == -1 ==> forall k :: 0 <= k < |s| ==> s[k] != Some(name)
  {
    if s == [] then -1
    else
    var p := Position(s[..|s| - 1], name);
    if p >= 0 then p else if s[|s| - 1] == Some(name) then |s| - 1 else -1
  }

  predicate FirstAt(s: Schema, i: nat) {
    i < |s| && s[i].Some? && Position(s, s[i].value) == i
  }

  /** No stale bits: only schema positions are set, each name at its first. */
  ghost predicate Clean(bits: Bits, s: Schema) {
    forall i: nat :: Bit(bits, i) ==> FirstAt(s, i)
  }

  predicate ShownAt(bits: Bits, s: Schema, n: Name, i: nat) {
    i < |s| && s[i] == Some(n) && Bit(bits, i)
  }

  /** The annotations a reader of the bitset finds: a name whose bit is set. */
  ghost predicate Shows(bits: Bits, s: Schema, n: Name) {
    exists i: nat :: ShownAt(bits, s, n, i)
  }

  lemma CleanShows(bits: Bits, s: Schema, n: Name)
    requires Clean(bits, s)
    ensures Shows(bits, s, n) <==> Position(s, n) >= 0 && Bit(bits, Position(s, n))
  {
    if i: nat :| ShownAt(bits, s, n, i) {
      assert FirstAt(s, i);
    }
    if Position(s, n) >= 0 && Bit(bits, Position(s, n)) {
      assert ShownAt(bits, s, n, Position(s, n));
    }
  }

  function Zero(n: nat): (r: Bits)
    ensures |r| == n
  {
    seq(n, _ => 0)
  }

  lemma ZeroHasNone(n: nat, i: nat)
    ensures !Bit(Zero(n), i)
  {
    assert (0 as bv8) & Mask(i % 8) == 0;
  }

  /** The bytes of an older bitset in a clean buffer for the present schema. */
  function Recoded(was: Bits, size: nat): (r: Bits)
    ensures |r| == size
  {
    if |was| > size then was[..size] else was + Zero(size - |was|)
  }

  /** Every bit that fits the buffer is carried over. */
  lemma RecodedBit(was: Bits, size: nat, i: nat)
    ensures Bit(Recoded(was, size), i) <==> Bit(was, i) && i / 8 < size
  {
    var r := Recoded(was, size);
    if i / 8 < size && i / 8 >= |was| {
      assert (0 as bv8) & Mask(i % 8) == 0;
    }
  }

  // ---------------------------------------------------------------- one vertex and its label's schema

  /** A label's schema and the bitset one vertex was last written with. */
  datatype Tagged = Tagged(schema: Schema, bits: Bits)

  datatype Op = Grow(name: Name) | Drop(name: Name) | Add(name: Name) | Remove(name: Name)

  predicate Known(st: Tagged, name: Name) { Position(st.schema, name) >= 0 }

  predicate Stays(a: Option<Name>, name: Name) { a.Some? && a.value != name }

  /** The schema without a name: the gap is closed, and nulls go as well. */
  function Dropped(s: Schema, name: Name): (t: Schema)
    ensures |t| <= |s|
  {
    if s == [] then []
    else
    var t := Dropped(s[..|s| - 1], name);
    if Stays(s[|s| - 1], name) then t + [s[|s| - 1]] else t
  }

  /** A new name goes to the end of the schema, a dropped one closes the gap, and the bitset is left
      as it is; adding or removing an annotation writes a bitset for the present schema. */
  function Step(st: Tagged, op: Op): Tagged {
    match op
    case Grow(n) => if Known(st, n) then st else st.(schema := st.schema + [Some(n)])
    case Drop(n) => if Known(st, n) then st.(schema := Dropped(st.schema, n)) else st
    case Add(n) => if Known(st, n) then st.(bits := SetBit(Buffer(st), Position(st.schema, n))) else st
    case Remove(n) => if Known(st, n) then st.(bits := ClearBit(Buffer(st), Position(st.schema, n))) else st
  }

  function Buffer(st: Tagged): Bits { Recoded(st.bits, ByteSize(st.schema)) }

  /** Adding an annotation adds exactly that name, whatever the bitset holds. */
  lemma AddShows(st: Tagged, name: Name, n: Name)
    requires Known(st, name)
    ensures Shows(Step(st, Add(name)).bits, st.schema, n) <==> n == name || Shows(st.bits, st.schema, n)
  {
    var p, bits := Position(st.schema, name), Step(st, Add(name)).bits;
    forall i: nat | i < |st.schema| ensures Bit(bits, i) <==> i == p || Bit(st.bits, i) {
      RecodedBit(st.bits, ByteSize(st.schema), i);
      OneBit(Buffer(st), p, i);
    }
    assert ShownAt(bits, st.schema, name, p);
    if i: nat :| ShownAt(st.bits, st.schema, n, i) { assert ShownAt(bits, st.schema, n, i); }
    if i: nat :| ShownAt(bits, st.schema, n, i) { assert i != p ==> ShownAt(st.bits, st.schema, n, i); }
  }

  /** Removing one leaves every other name; the name itself goes unless a repeated entry of the
      schema shows it too. */
  lemma RemoveShows(st: Tagged, name: Name, n: Name)
    requires Known(st, name)
    ensures var bits := Step(st, Remove(name)).bits;
      if n != name then Shows(bits, st.schema, n) <==> Shows(st.bits, st.schema, n)
      else Shows(bits, st.schema, n) <==> exists i: nat :: i > Position(st.schema, n) && ShownAt(st.bits, st.schema, n, i)
  {
    var p, bits := Position(st.schema, name), Step(st, Remove(name)).bits;
    forall i: nat | i < |st.schema| ensures Bit(bits, i) <==> i != p && Bit(st.bits, i) {
      RecodedBit(st.bits, ByteSize(st.schema), i);
      OneBit(Buffer(st), p, i);
    }
    if i: nat :| ShownAt(bits, st.schema, n, i) {
      assert ShownAt(st.bits, st.schema, n, i);
      assert n == name ==> i > p;
    }
    if i: nat :| ShownAt(st.bits, st.schema, n, i) && i != p { assert ShownAt(bits, st.schema, n, i); }
  }

  /** Appending a name leaves every other name; the new one is found exactly when its bit was stale. */
  lemma GrowShows(st: Tagged, name: Name, n: Name)
    requires !Known(st, name)
    ensures Shows(st.bits, Step(st, Grow(name)).schema, n) <==>
      if n == name then Bit(st.bits, |st.schema|) else Shows(st.bits, st.schema, n)
  {
    var s, t := st.schema, Step(st, Grow(name)).schema;
    if i: nat :| ShownAt(st.bits, t, n, i) {
      assert n != name ==> ShownAt(st.bits, s, n, i);
      assert n == name ==> i == |s|;
    }
    if n == name && Bit(st.bits, |s|) { assert ShownAt(st.bits, t, n, |s|); }
    if i: nat :| ShownAt(st.bits, s, n, i) { assert ShownAt(st.bits, t, n, i); }
  }

  // ---------------------------------------------------------------- dropping a name

  /** The first position taken out when a name is dropped. */
  function Cut(s: Schema, name: Name): (c: nat)
    ensures c <= |s|
    ensures forall k :: 0 <= k < c ==> Stays(s[k], name)
    ensures c < |s| ==> !Stays(s[c], name)
    decreases |s|
  {
    if s == [] || !Stays(s[0], name) then 0
    else
    assert forall k :: 0 <= k < |s| - 1 ==> s[1..][k] == s[k + 1];
    1 + Cut(s[1..], name)
  }

  /** Where position j of the old schema went. */
  function NewPlace(s: Schema, name: Name, j: nat): nat
    requires j <= |s|
  {
    |Dropped(s[..j], name)|
  }

  lemma {:induction false} DroppedAt(s: Schema, name: Name, j: nat)
    requires j < |s| && Stays(s[j], name)
    ensures NewPlace(s, name, j) < |Dropped(s, name)| && Dropped(s, name)[NewPlace(s, name, j)] == s[j]
    decreases |s|
  {
    var n := |s| - 1;
    if j < n {
      DroppedAt(s[..n], name, j);
      assert s[..n][..j] == s[..j];
    } else {
      assert s[..j] == s[..n];
    }
  }

  /** Nothing moves up to the cut, and all else moves down. */
  lemma {:induction false} PlaceMoves(s: Schema, name: Name, j: nat)
    requires j <= |s|
    ensures NewPlace(s, name, j) <= j && (NewPlace(s, name, j) == j <==> j <= Cut(s, name))
  {
    if j > 0 {
      PlaceMoves(s, name, j - 1);
      assert s[..j][..j - 1] == s[..j - 1] && s[..j][j - 1] == s[j - 1];
    }
  }

  lemma {:induction false} DroppedFrom(s: Schema, name: Name, i: nat) returns (j: nat)
    requires i < |Dropped(s, name)|
    ensures j < |s| && Stays(s[j], name) && NewPlace(s, name, j) == i && Dropped(s, name)[i] == s[j]
    decreases |s|
  {
    var n := |s| - 1;
    if i < |Dropped(s[..n], name)| {
      j := DroppedFrom(s[..n], name, i);
      assert s[..n][..j] == s[..j];
    } else {
      j := n;
    }
  }

  lemma DroppedKnows(s: Schema, name: Name, n: Name)
    ensures Position(Dropped(s, name), n) >= 0 <==> n != name && Position(s, n) >= 0
  {
    if Position(Dropped(s, name), n) >= 0 {
      var j := DroppedFrom(s, name, Position(Dropped(s, name), n));
    }
    if n != name && Position(s, n) >= 0 {
      DroppedAt(s, name, Position(s, n));
    }
  }

  ghost predicate NoBitFrom(bits: Bits, c: nat) {
    forall i: nat :: i >= c ==> !Bit(bits, i)
  }

  lemma {:induction false} LastBit(bits: Bits, c: nat, top: nat) returns (i: nat)
    requires exists j: nat :: c <= j < top && Bit(bits, j)
    ensures c <= i < top && Bit(bits, i) && forall k: nat :: i < k < top ==> !Bit(bits, k)
  {
    if Bit(bits, top - 1) {
      i := top - 1;
    } else {
      i := LastBit(bits, c, top - 1);
    }
  }

  lemma HighestBit(bits: Bits, c: nat) returns (i: nat)
    requires !NoBitFrom(bits, c)
    ensures i >= c && Bit(bits, i) && NoBitFrom(bits, i + 1)
  {
    var j: nat :| j >= c && Bit(bits, j);
    i := LastBit(bits, c, 8 * |bits|);
  }

  /** Bits before the cut mean what they meant, under the shorter schema and every one it grows into. */
  lemma BelowCut(bits: Bits, s: Schema, name: Name, u: Schema, n: Name)
    requires NoBitFrom(bits, Cut(s, name)) && Dropped(s, name) <= u
    ensures Shows(bits, u, n) <==> Shows(bits, s, n)
  {
    forall i: nat | i < Cut(s, name) ensures i < |u| && u[i] == s[i] {
      PlaceMoves(s, name, i);
      DroppedAt(s, name, i);
    }
    if i: nat :| ShownAt(bits, u, n, i) { assert ShownAt(bits, s, n, i); }
    if i: nat :| ShownAt(bits, s, n, i) { assert ShownAt(bits, u, n, i); }
  }

  lemma CleanBelowCut(bits: Bits, s: Schema, name: Name)
    requires NoBitFrom(bits, Cut(s, name)) && Clean(bits, s)
    ensures Clean(bits, Dropped(s, name))
  {
    var t := Dropped(s, name);
    forall i: nat | Bit(bits, i) ensures FirstAt(t, i) {
      assert FirstAt(s, i);
      PlaceMoves(s, name, i);
      DroppedAt(s, name, i);
      var p := Position(t, t[i].value);
      if p < i {
        PlaceMoves(s, name, p);
        DroppedAt(s, name, p);
      }
    }
  }

  ghost predicate OthersKept(bits: Bits, s: Schema, t: Schema, name: Name) {
    forall n :: n != name ==> (Shows(bits, t, n) <==> Shows(bits, s, n))
  }

  /** A bitset without stale bits has none after a drop, and shows the same other names, exactly when
      no bit at or behind the first removed position was set. */
  lemma DropKeepsIff(bits: Bits, s: Schema, name: Name)
    requires Clean(bits, s)
    ensures Clean(bits, Dropped(s, name)) && OthersKept(bits, s, Dropped(s, name), name)
      <==> NoBitFrom(bits, Cut(s, name))
  {
    var t := Dropped(s, name);
    if NoBitFrom(bits, Cut(s, name)) {
      CleanBelowCut(bits, s, name);
      forall n ensures Shows(bits, t, n) <==> Shows(bits, s, n) { BelowCut(bits, s, name, t, n); }
    } else if Clean(bits, t) {
      var i := HighestBit(bits, Cut(s, name));
      assert FirstAt(t, i);
      Misread(bits, s, name, i);
    }
  }

  /** A position that stays, up to one at or behind the cut, ends before that one. */
  lemma MovedDown(s: Schema, name: Name, i: nat, j: nat)
    requires j < |s| && Stays(s[j], name) && j <= i && i >= Cut(s, name)
    ensures NewPlace(s, name, j) < i
  {
    PlaceMoves(s, name, j);
  }

  /** The highest bit, when at or behind the cut, now stands for a name that was not shown. */
  lemma Misread(bits: Bits, s: Schema, name: Name, i: nat)
    requires Clean(bits, s) && FirstAt(Dropped(s, name), i)
    requires i >= Cut(s, name) && Bit(bits, i) && NoBitFrom(bits, i + 1)
    ensures !OthersKept(bits, s, Dropped(s, name), name)
  {
    var t := Dropped(s, name);
    var from := DroppedFrom(s, name, i);
    var m := t[i].value;
    assert ShownAt(bits, t, m, i);
    CleanShows(bits, s, m);
    var j := Position(s, m);
    if j >= 0 && Bit(bits, j) {
      MovedDown(s, name, i, j);
      DroppedAt(s, name, j);
    }
    assert !Shows(bits, s, m);
  }

  ghost predicate NoRepeats(s: Schema) {
    forall i, j :: 0 <= i < j < |s| && s[i].Some? ==> s[i] != s[j]
  }

  /** The schemas a schema without repeats can grow into. */
  ghost predicate GrowsInto(t: Schema, u: Schema) {
    t <= u && NoRepeats(u) && forall i :: |t| <= i < |u| ==> u[i].Some?
  }

  /** Every name other than the dropped one keeps its meaning, now and whatever is appended later,
      exactly when no bit at or behind the first removed position was set. */
  lemma DropForeverIff(bits: Bits, s: Schema, name: Name)
    requires Clean(bits, s) && NoRepeats(s)
    ensures (forall u :: GrowsInto(Dropped(s, name), u) ==> OthersKept(bits, s, u, name))
      <==> NoBitFrom(bits, Cut(s, name))
  {
    var t := Dropped(s, name);
    if NoBitFrom(bits, Cut(s, name)) {
      forall u, n | GrowsInto(t, u) ensures Shows(bits, u, n) <==> Shows(bits, s, n) { BelowCut(bits, s, name, u, n); }
    } else {
      var i := HighestBit(bits, Cut(s, name));
      DroppedNoRepeats(s, name);
      if i < |t| {
        assert GrowsInto(t, t) && FirstAt(t, i);
        Misread(bits, s, name, i);
      } else {
        NewcomerFound(bits, s, name, i);
      }
    }
  }

  /** A bit behind the shorter schema shows a name that is appended later. */
  lemma NewcomerFound(bits: Bits, s: Schema, name: Name, i: nat)
    requires NoRepeats(Dropped(s, name)) && AllNames(Dropped(s, name)) && i >= |Dropped(s, name)| && Bit(bits, i)
    ensures exists u :: GrowsInto(Dropped(s, name), u) && !OthersKept(bits, s, u, name)
  {
    var t := Dropped(s, name);
    var u := t + FreshNames(Longest(s, name), i + 1 - |t|);
    FreshGrows(s, name, i + 1 - |t|);
    var n := u[i].value;
    NotFresh(s, name, n);
    assert ShownAt(bits, u, n, i);
    assert !Shows(bits, s, n);
    assert !OthersKept(bits, s, u, name);
  }

  predicate AllNames(s: Schema) { forall i :: 0 <= i < |s| ==> s[i].Some? }

  lemma DroppedNoRepeats(s: Schema, name: Name)
    requires NoRepeats(s)
    ensures NoRepeats(Dropped(s, name)) && AllNames(Dropped(s, name))
  {
    if s != [] {
      var front, last := s[..|s| - 1], s[|s| - 1];
      DroppedNoRepeats(front, name);
      var t := Dropped(front, name);
      forall i | 0 <= i < |t| ensures t[i] != last {
        var j := DroppedFrom(front, name, i);
      }
    }
  }

  /** A length no name of the schema exceeds. */
  function Longest(s: Schema, name: Name): nat {
    if s == [] then |name|
    else
    var n := Longest(s[..|s| - 1], name);
    if s[|s| - 1].Some? && |s[|s| - 1].value| > n then |s[|s| - 1].value| else n
  }

  function FreshNames(above: nat, k: nat): (t: Schema)
    ensures |t| == k && forall i :: 0 <= i < k ==> t[i].Some? && |t[i].value| == above + 1 + i
  {
    seq(k, i requires 0 <= i < k => Some(seq(above + 1 + i, _ => 'x')))
  }

  lemma {:induction false} NotFresh(s: Schema, name: Name, n: Name)
    requires |n| > Longest(s, name)
    ensures n != name && forall i :: 0 <= i < |s| ==> s[i] != Some(n)
  {
    if s != [] { NotFresh(s[..|s| - 1], name, n); }
  }

  lemma FreshGrows(s: Schema, name: Name, k: nat)
    requires NoRepeats(Dropped(s, name)) && AllNames(Dropped(s, name))
    ensures GrowsInto(Dropped(s, name), Dropped(s, name) + FreshNames(Longest(s, name), k))
  {
    var t, fresh_ := Dropped(s, name), FreshNames(Longest(s, name), k);
    var u := t + fresh_;
    forall i, j | 0 <= i < j < |u| ensures u[i] != u[j] {
      if i < |t| <= j {
        NotFresh(s, name, u[j].value);
        var from := DroppedFrom(s, name, i);
      }
    }
  }

  /** With names a, b, c and a vertex that has c, dropping b loses c, and the name appended next is
      found on the vertex although nobody added it. */
  lemma DropMisreads(a: Name, b: Name, c: Name, d: Name)
    requires a != b && a != c && b != c && d != a && d != b && d != c
    ensures var s := [Some(a), Some(b), Some(c)];
      var st := Tagged(s, Encoded(s, [Some(c)]));
      var after := Step(Step(st, Drop(b)), Grow(d));
      && Shows(st.bits, st.schema, c) && after == Tagged([Some(a), Some(c), Some(d)], st.bits)
      && !Shows(after.bits, after.schema, c) && Shows(after.bits, after.schema, d)
  {
    var s: Schema := [Some(a), Some(b), Some(c)];
    var st := Tagged(s, Encoded(s, [Some(c)]));
    assert s[0] == Some(a) && s[1] == Some(b) && s[2] == Some(c);
    assert Position(s, b) == 1 && Position(s, c) == 2;
    EncodedOne(s, c);
    assert ShownAt(st.bits, s, c, 2);
    DroppedMiddle(a, b, c);
    assert Step(st, Drop(b)) == Tagged([Some(a), Some(c)], st.bits);
    OnlySecondBit(st.bits, a, c, d);
  }

  lemma DroppedMiddle(a: Name, b: Name, c: Name)
    requires a != b && c != b
    ensures Dropped([Some(a), Some(b), Some(c)], b) == [Some(a), Some(c)]
  {
    var none: Schema := [];
    DroppedLast(none, Some(a), b);
    DroppedLast([Some(a)], Some(b), b);
    DroppedLast([Some(a), Some(b)], Some(c), b);
    assert none + [Some(a)] == [Some(a)];
    assert [Some(a)] + [Some(b)] == [Some(a), Some(b)];
    assert [Some(a), Some(b)] + [Some(c)] == [Some(a), Some(b), Some(c)];
  }

  lemma DroppedLast(s: Schema, last: Option<Name>, name: Name)
    ensures Dropped(s + [last], name) == Dropped(s, name) + if Stays(last, name) then [last] else []
  {
    assert (s + [last])[..|s|] == s;
  }

  lemma OnlySecondBit(bits: Bits, a: Name, c: Name, d: Name)
    requires a != c && a != d && c != d && forall i: nat :: Bit(bits, i) <==> i == 2
    ensures var after := Step(Tagged([Some(a), Some(c)], bits), Grow(d));
      && after == Tagged([Some(a), Some(c), Some(d)], bits)
      && !Shows(bits, after.schema, c) && Shows(bits, after.schema, d)
  {
    var t: Schema := [Some(a), Some(c)];
    assert t[0] == Some(a) && t[1] == Some(c);
    assert Position(t, d) == -1;
    GrowShows(Tagged(t, bits), d, d);
    GrowShows(Tagged(t, bits), d, c);
  }

  // ---------------------------------------------------------------- runs

  /** What the operations mean: the names the label knows, and those the vertex has. */
  datatype View = View(known: set<Name>, has: set<Name>)

  function StepView(v: View, op: Op): View {
    match op
    case Grow(n) => v.(known := v.known + {n})
    case Drop(n) => View(v.known - {n}, v.has - {n})
    case Add(n) => if n in v.known then v.(has := v.has + {n}) else v
    case Remove(n) => v.(has := v.has - {n})
  }

  ghost predicate Matches(st: Tagged, v: View) {
    && Clean(st.bits, st.schema)
    && forall n :: (n in v.known <==> Known(st, n)) && (n in v.has <==> Shows(st.bits, st.schema, n))
  }

  /** What can be looked up before the call: dropping a name is safe for this vertex. */
  ghost predicate Safe(st: Tagged, op: Op) {
    op.Drop? && Known(st, op.name) ==> NoBitFrom(st.bits, Cut(st.schema, op.name))
  }

  ghost predicate SafeRun(st: Tagged, ops: seq<Op>)
    decreases |ops|
  {
    ops == [] || (Safe(st, ops[0]) && SafeRun(Step(st, ops[0]), ops[1..]))
  }

  ghost predicate MatchesAlong(st: Tagged, v: View, ops: seq<Op>)
    decreases |ops|
  {
    Matches(st, v) && (ops == [] || MatchesAlong(Step(st, ops[0]), StepView(v, ops[0]), ops[1..]))
  }

  /** The bitset follows its meaning through a whole run exactly when every drop on the way was safe. */
  lemma {:induction false} RunIff(st: Tagged, v: View, ops: seq<Op>)
    requires Matches(st, v)
    ensures MatchesAlong(st, v, ops) <==> SafeRun(st, ops)
    decreases |ops|
  {
    if ops != [] {
      StepIff(st, v, ops[0]);
      if Safe(st, ops[0]) { RunIff(Step(st, ops[0]), StepView(v, ops[0]), ops[1..]); }
    }
  }

  lemma StepIff(st: Tagged, v: View, op: Op)
    requires Matches(st, v)
    ensures Matches(Step(st, op), StepView(v, op)) <==> Safe(st, op)
  {
    if !op.Drop? { CleanStep(st, op); }
    KnownStep(st, op);
    match op {
      case Grow(n) =>
        forall m ensures m in v.has <==> Shows(st.bits, Step(st, op).schema, m) {
          if !Known(st, n) { GrowShows(st, n, m); CleanShows(st.bits, st.schema, m); }
          assert m in v.has <==> Shows(st.bits, st.schema, m);
        }
      case Drop(n) =>
        DropStep(st, v, n);
      case Add(n) =>
        if Known(st, n) {
          forall m ensures m in StepView(v, op).has <==> Shows(Step(st, op).bits, st.schema, m) { AddShows(st, n, m); }
        }
      case Remove(n) =>
        forall m ensures m in StepView(v, op).has <==> Shows(Step(st, op).bits, st.schema, m) {
          if Known(st, n) {
            RemoveShows(st, n, m);
          }
          CleanShows(st.bits, st.schema, n);
          assert forall i: nat :: ShownAt(st.bits, st.schema, n, i) ==> FirstAt(st.schema, i);
        }
    }
  }

  lemma DropStep(st: Tagged, v: View, name: Name)
    requires Matches(st, v)
    ensures Matches(Step(st, Drop(name)), StepView(v, Drop(name))) <==> Safe(st, Drop(name))
  {
    var s, t, v' := st.schema, Step(st, Drop(name)).schema, StepView(v, Drop(name));
    KnownStep(st, Drop(name));
    forall n ensures n in v'.known <==> Known(Step(st, Drop(name)), n) {
      assert n in v.known <==> Known(st, n);
    }
    assert Position(t, name) == -1;
    assert !Shows(st.bits, t, name);
    assert forall n :: n in v.has <==> Shows(st.bits, s, n);
    if Known(st, name) {
      DropKeepsIff(st.bits, s, name);
    } else {
      assert name !in v.has by {
        if i: nat :| ShownAt(st.bits, s, name, i) {}
      }
    }
    assert (forall n :: n in v'.has <==> Shows(st.bits, t, n)) <==> OthersKept(st.bits, s, t, name);
  }

  lemma KnownStep(st: Tagged, op: Op)
    ensures forall n :: Known(Step(st, op), n) <==>
      (Known(st, n) || (op.Grow? && op.name == n)) && !(op.Drop? && op.name == n)
  {
    forall n ensures Known(Step(st, op), n) <==>
      (Known(st, n) || (op.Grow? && op.name == n)) && !(op.Drop? && op.name == n)
    {
      if op.Drop? {
        DroppedKnows(st.schema, op.name, n);
      } else if op.Grow? && !Known(st, op.name) {
        var t := Step(st, op).schema;
        assert t[|st.schema|] == Some(op.name);
        if Known(st, n) { assert t[Position(st.schema, n)] == Some(n); }
      }
    }
  }

  /** Only a drop can leave stale bits. */
  lemma CleanStep(st: Tagged, op: Op)
    requires Clean(st.bits, st.schema) && !op.Drop?
    ensures Clean(Step(st, op).bits, Step(st, op).schema)
  {
    var st' := Step(st, op);
    forall i: nat | Bit(st'.bits, i) ensures FirstAt(st'.schema, i) {
      if op.Grow? {
        assert FirstAt(st.schema, i);
        if !Known(st, op.name) {
          assert forall k :: 0 <= k < |st.schema| ==> st'.schema[k] == st.schema[k];
        }
      } else if Known(st, op.name) {
        RecodedBit(st.bits, ByteSize(st.schema), i);
        OneBit(Buffer(st), Position(st.schema, op.name), i);
        assert Bit(st.bits, i) ==> FirstAt(st.schema, i);
      }
    }
  }

  // ---------------------------------------------------------------- the operations on the tables

  method FindBit(s: Schema, name: Name) returns (pos: int)
    ensures pos == Position(s, name)
  {
    var i := 0;
    while i < |s|
      invariant 0 <= i <= |s| && forall k :: 0 <= k < i ==> s[k] != Some(name)
    {
      if s[i] == Some(name) {
        return i;
      }
      i := i + 1;
    }
    pos := -1;
  }

  /** A fresh bitset for the names the schema has. */
  function Encoded(s: Schema, names: seq<Option<Name>>): (bits: Bits)
    ensures |bits| == ByteSize(s)
  {
    if names == [] then Zero(ByteSize(s))
    else
    var bits, last := Encoded(s, names[..|names| - 1]), names[|names| - 1];
    if last.Some? && Position(s, last.value) >= 0 then SetBit(bits, Position(s, last.value)) else bits
  }

  lemma {:induction false} EncodedBits(s: Schema, names: seq<Option<Name>>, i: nat)
    ensures Bit(Encoded(s, names), i) <==> FirstAt(s, i) && s[i] in names
  {
    if names == [] {
      ZeroHasNone(ByteSize(s), i);
    } else {
      var n := |names| - 1;
      EncodedBits(s, names[..n], i);
      if names[n].Some? && Position(s, names[n].value) >= 0 {
        OneBit(Encoded(s, names[..n]), Position(s, names[n].value), i);
      }
      assert names == names[..n] + [names[n]];
    }
  }

  lemma EncodedOne(s: Schema, name: Name)
    requires Position(s, name) >= 0
    ensures forall i: nat :: Bit(Encoded(s, [Some(name)]), i) <==> i == Position(s, name)
  {
    forall i: nat ensures Bit(Encoded(s, [Some(name)]), i) <==> i == Position(s, name) {
      EncodedBits(s, [Some(name)], i);
    }
  }

  lemma EncodedShows(s: Schema, names: seq<Option<Name>>)
    ensures Clean(Encoded(s, names), s)
    ensures forall n :: Shows(Encoded(s, names), s, n) <==> Some(n) in names && Position(s, n) >= 0
  {
    var bits := Encoded(s, names);
    forall i: nat ensures Bit(bits, i) ==> FirstAt(s, i) { EncodedBits(s, names, i); }
    forall n ensures Shows(bits, s, n) <==> Some(n) in names && Position(s, n) >= 0 {
      CleanShows(bits, s, n);
      if Position(s, n) >= 0 { EncodedBits(s, names, Position(s, n)); }
    }
  }

  /** np_internal_insert_vertex: a fresh bitset for the given names, refused for an unknown one. */
  method EncodeNames(s: Schema, names: seq<Option<Name>>) returns (ok: bool, bits: Bits)
    ensures ok <==> forall i :: 0 <= i < |names| && names[i].Some? ==> Position(s, names[i].value) >= 0
    ensures ok ==> bits == Encoded(s, names) && Clean(bits, s)
    ensures ok ==> forall name :: Shows(bits, s, name) <==> Some(name) in names
  {
    bits := Zero(ByteSize(s));
    var i := 0;
    assert names[..0] == [];
    while i < |names|
      invariant 0 <= i <= |names| && bits == Encoded(s, names[..i])
      invariant forall k :: 0 <= k < i && names[k].Some? ==> Position(s, names[k].value) >= 0
    {
      assert names[..i + 1][..i] == names[..i] && names[..i + 1][i] == names[i];
      if names[i].Some? {
        var pos := FindBit(s, names[i].value);
        if pos == -1 {
          return false, bits;
        }
        bits := SetBit(bits, pos);
      }
      i := i + 1;
    }
    assert names[..i] == names;
    EncodedShows(s, names);
    ok := true;
  }

  /** One vertex of a label: the label's schema and the bitset the vertex was last written with. */
  class VertexAnnotations {
    var schema: Schema
    var bits: Bits

    ghost function Abs(): Tagged
      reads this
    {
      Tagged(schema, bits)
    }

    constructor (s: Schema)
      ensures schema == s && Clean(bits, schema) && forall n :: !Shows(bits, schema, n)
    {
      schema, bits := s, [];
    }

    /** np_apply_add_annotation_to_tuple */
    method GrowSchema(name: Name) returns (added: bool)
      modifies `schema
      ensures (added <==> !Known(old(Abs()), name)) && Abs() == Step(old(Abs()), Grow(name))
      ensures forall n :: Shows(bits, schema, n) <==>
        if added && n == name then Bit(bits, |old(schema)|) else Shows(bits, old(schema), n)
    {
      ghost var st := Abs();
      var pos := FindBit(schema, name);
      added := pos == -1;
      if added {
        forall n ensures Shows(bits, schema + [Some(name)], n) <==>
          if n == name then Bit(bits, |schema|) else Shows(bits, schema, n)
        {
          GrowShows(st, name, n);
        }
        schema := schema + [Some(name)];
      }
    }

    /** np_apply_drop_annotation_to_tuple: every entry is copied but the nulls and the name. */
    method DropName(name: Name) returns (dropped: bool)
      modifies `schema
      ensures (dropped <==> Known(old(Abs()), name)) && Abs() == Step(old(Abs()), Drop(name))
      ensures dropped && old(Clean(bits, schema)) ==>
        (Clean(bits, schema) && OthersKept(bits, old(schema), schema, name) <==> NoBitFrom(bits, Cut(old(schema), name)))
    {
      dropped := false;
      var kept: Schema := [];
      var i := 0;
      assert schema[..0] == [];
      while i < |schema|
        invariant 0 <= i <= |schema| && kept == Dropped(schema[..i], name)
        invariant dropped <==> Some(name) in schema[..i]
      {
        assert schema[..i + 1][..i] == schema[..i] && schema[..i + 1][i] == schema[i];
        assert schema[..i + 1] == schema[..i] + [schema[i]];
        if schema[i].Some? {
          if schema[i].value == name {
            dropped := true;
          } else {
            kept := kept + [schema[i]];
          }
        }
        i := i + 1;
      }
      assert schema[..i] == schema;
      if dropped {
        if Clean(bits, schema) { DropKeepsIff(bits, schema, name); }
        schema := kept;
      }
    }

    /** Copy the old bits into a buffer for the present schema and set one. */
    method AddAnnotation(name: Name) returns (ok: bool)
      modifies `bits
      ensures (ok <==> Known(old(Abs()), name)) && Abs() == Step(old(Abs()), Add(name))
      ensures ok ==> |bits| == ByteSize(schema)
      ensures ok ==> forall n :: Shows(bits, schema, n) <==> n == name || Shows(old(bits), schema, n)
    {
      ghost var st := Abs();
      var pos := FindBit(schema, name);
      ok := pos != -1;
      if ok {
        bits := SetBit(Recoded(bits, ByteSize(schema)), pos);
        forall n ensures Shows(bits, schema, n) <==> n == name || Shows(st.bits, schema, n) { AddShows(st, name, n); }
      }
    }

    method RemoveAnnotation(name: Name) returns (ok: bool)
      modifies `bits
      ensures (ok <==> Known(old(Abs()), name)) && Abs() == Step(old(Abs()), Remove(name))
      ensures ok ==> |bits| == ByteSize(schema)
      ensures ok ==> forall n :: n != name ==> (Shows(bits, schema, n) <==> Shows(old(bits), schema, n))
      ensures ok ==> (Shows(bits, schema, name) <==>
        exists i: nat :: i > Position(schema, name) && ShownAt(old(bits), schema, name, i))
    {
      ghost var st := Abs();
      var pos := FindBit(schema, name);
      ok := pos != -1;
      if ok {
        bits := ClearBit(Recoded(bits, ByteSize(schema)), pos);
        forall n ensures n != name ==> (Shows(bits, schema, n) <==> Shows(st.bits, schema, n)) { RemoveShows(st, name, n); }
        RemoveShows(st, name, name);
      }
    }
  }

  // ---------------------------------------------------------------- carrying annotations to another label

  /** The decoder asks for the byte of every schema position; `beyond` is what lies behind the bitset. */
  function ByteAt(bits: Bits, k: nat, beyond: nat -> bv8): bv8 {
    if k < |bits| then bits[k] else beyond(k)
  }

  predicate ReadAt(bits: Bits, s: Schema, beyond: nat -> bv8, n: Name, i: nat) {
    i < |s| && s[i] == Some(n) && InByte(ByteAt(bits, i / 8, beyond), i % 8)
  }

  ghost predicate ReadsName(bits: Bits, s: Schema, beyond: nat -> bv8, n: Name) {
    exists i: nat :: ReadAt(bits, s, beyond, n, i)
  }

  ghost predicate ReadBefore(bits: Bits, s: Schema, beyond: nat -> bv8, n: Name, limit: nat) {
    exists i: nat :: i < limit && ReadAt(bits, s, beyond, n, i)
  }

  lemma ReadNext(bits: Bits, s: Schema, beyond: nat -> bv8, n: Name, i: nat)
    requires i < |s|
    ensures ReadBefore(bits, s, beyond, n, i + 1) <==> ReadBefore(bits, s, beyond, n, i) || ReadAt(bits, s, beyond, n, i)
  {
  }

  /** Decoding a bitset into names. */
  method Decode(bits: Bits, s: Schema, beyond: nat -> bv8) returns (names: seq<Name>)
    ensures forall n :: n in names <==> ReadsName(bits, s, beyond, n)
  {
    names := [];
    var i := 0;
    while i < |s|
      invariant 0 <= i <= |s|
      invariant forall n :: n in names <==> ReadBefore(bits, s, beyond, n, i)
    {
      forall n ensures ReadBefore(bits, s, beyond, n, i + 1) <==>
          ReadBefore(bits, s, beyond, n, i) || ReadAt(bits, s, beyond, n, i) {
        ReadNext(bits, s, beyond, n, i);
      }
      if s[i].Some? && InByte(ByteAt(bits, i / 8, beyond), i % 8) {
        assert ReadAt(bits, s, beyond, s[i].value, i);
        names := names + [s[i].value];
      }
      i := i + 1;
    }
  }

  /** The name of some schema position behind the end of the bitset that no earlier bit shows. */
  ghost predicate Exposed(bits: Bits, s: Schema, n: Name) {
    !Shows(bits, s, n) && exists i: nat :: BehindEnd(bits, s, n, i)
  }

  predicate BehindEnd(bits: Bits, s: Schema, n: Name, i: nat) {
    i < |s| && s[i] == Some(n) && i / 8 >= |bits|
  }

  ghost predicate ReadsRight(bits: Bits, s: Schema, n: Name) {
    forall beyond: nat -> bv8 {:trigger ReadsName(bits, s, beyond, n)} :: ReadsName(bits, s, beyond, n) <==> Shows(bits, s, n)
  }

  /** The decoder finds a name exactly when the bitset shows it, whatever lies behind the bitset,
      except for names of schema positions the bitset does not reach. */
  lemma DecodeIff(bits: Bits, s: Schema, n: Name)
    ensures ReadsRight(bits, s, n) <==> !Exposed(bits, s, n)
  {
    forall beyond: nat -> bv8, i: nat ensures ShownAt(bits, s, n, i) ==> ReadAt(bits, s, beyond, n, i) {}
    if Exposed(bits, s, n) {
      var i: nat :| BehindEnd(bits, s, n, i);
      var beyond: nat -> bv8 := _ => 255;
      assert InByte(255, i % 8);
      assert ReadAt(bits, s, beyond, n, i);
      assert ReadsName(bits, s, beyond, n);
    } else {
      forall beyond: nat -> bv8 ensures ReadsName(bits, s, beyond, n) <==> Shows(bits, s, n) {
        if i: nat :| ReadAt(bits, s, beyond, n, i) {
          assert BehindEnd(bits, s, n, i) || ShownAt(bits, s, n, i);
        }
        if i: nat :| ShownAt(bits, s, n, i) { assert ReadAt(bits, s, beyond, n, i); }
      }
    }
  }

  /** A vertex written under eight names is asked for a second byte once the schema has nine. */
  lemma NinthName(s: Schema, names: seq<Option<Name>>, ninth: Name)
    requires |s| == 8 && Position(s, ninth) == -1
    ensures var st := Step(Tagged(s, Encoded(s, names)), Grow(ninth));
      && !Shows(st.bits, st.schema, ninth) && !ReadsRight(st.bits, st.schema, ninth)
  {
    var st0 := Tagged(s, Encoded(s, names));
    var st := Step(st0, Grow(ninth));
    GrowShows(st0, ninth, ninth);
    assert BehindEnd(st.bits, st.schema, ninth, 8);
    DecodeIff(st.bits, st.schema, ninth);
  }

  /** np_internal_remove_vertex_label: decode, keep what the target's schema has.
      None as a target schema is a label without annotations. */
  method Port(bits: Bits, s: Schema, target: Option<Schema>, beyond: nat -> bv8) returns (carried: seq<Name>)
    ensures forall n :: n in carried <==>
      target.Some? && ReadsName(bits, s, beyond, n) && Position(target.value, n) >= 0
  {
    var extracted := Decode(bits, s, beyond);
    carried := [];
    if target == None {
      return;
    }
    var i := 0;
    while i < |extracted|
      invariant 0 <= i <= |extracted|
      invariant forall n :: n in carried <==> n in extracted[..i] && Position(target.value, n) >= 0
    {
      assert extracted[..i + 1] == extracted[..i] + [extracted[i]];
      var pos := FindBit(target.value, extracted[i]);
      if pos >= 0 {
        carried := carried + [extracted[i]];
      }
      i := i + 1;
    }
    assert extracted[..i] == extracted;
  }

  /** Decode, keep, encode for the target. */
  method PortAndEncode(bits: Bits, s: Schema, target: Schema, beyond: nat -> bv8) returns (ok: bool, moved: Bits)
    ensures ok && Clean(moved, target)
    ensures forall n :: Shows(moved, target, n) <==> ReadsName(bits, s, beyond, n) && Position(target, n) >= 0
  {
    var carried := Port(bits, s, Some(target), beyond);
    var names := seq(|carried|, i requires 0 <= i < |carried| => Some(carried[i]));
    assert forall n :: Some(n) in names <==> n in carried by {
      forall n | n in carried ensures Some(n) in names {
        var i :| 0 <= i < |carried| && carried[i] == n;
        assert names[i] == Some(n);
      }
    }
    assert forall i :: 0 <= i < |names| ==> names[i].value in carried;
    ok, moved := EncodeNames(target, names);
  }

  ghost predicate Carries(bits: Bits, s: Schema, target: Schema, n: Name) {
    Position(target, n) >= 0 ==> ReadsRight(bits, s, n)
  }

  /** Whatever lies behind the bitset, the new vertex has exactly the annotations of the old one that
      its label knows, exactly when the bitset reaches every name the two schemas share. */
  lemma PortIff(bits: Bits, s: Schema, target: Schema)
    ensures (forall n :: Carries(bits, s, target, n)) <==>
      forall n :: Position(target, n) >= 0 ==> !Exposed(bits, s, n)
  {
    forall n ensures Carries(bits, s, target, n) <==> (Position(target, n) >= 0 ==> !Exposed(bits, s, n)) {
      DecodeIff(bits, s, n);
    }
  }
}
