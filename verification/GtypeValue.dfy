/** gtype values in memory, and the byte string the binary format gives each of them. */
module GtypeValue {
  import opened GtypeEntry
  import opened GtypeKeys

  /** Scalars keep their payload as bytes; `raw` marks the array that wraps a root scalar. */
  datatype Value =
    | Null
    | Bool(b: bool)
    | Str(s: Bytes)
    | Num(d: Bytes)
    | Ext(tag: nat, p: Bytes)
    | Arr(elems: seq<Value>, raw: bool)
    | Obj(pairs: seq<Pair<Value>>)

  predicate IsContainer(v: Value) { v.Arr? || v.Obj? }

  const TIMESTAMP := 2

  /** The extended types: what is stored of each, and how many bytes are reserved for it
      (a TimeTzADT has four bytes of struct padding). */
  function PayloadLen(tag: nat): nat {
    if tag == 4 then 4
    else if tag == 6 then 12
    else if tag == 7 then 16
    else if tag == 9 || tag == 10 then 22
    else if tag == 11 then 6
    else 8
  }

  function ReservedLen(tag: nat): nat { if tag == 6 then 16 else PayloadLen(tag) }

  predicate KnownTag(tag: nat) { tag <= 12 && tag != 8 }

  /** What the builders guarantee: bounded strings, numerics that carry their own size, known
      extended types, and raw arrays of one scalar at the root only. */
  ghost predicate Ok(v: Value, root: bool)
    decreases v
  {
    match v
    case Null => true
    case Bool(_) => true
    case Str(s) => |s| <= OFFLENMASK
    case Num(d) => 4 <= |d| < TYPE_UNIT - 4 && ReadU32(d, 0) == 4 * |d|
    case Ext(tag, p) => KnownTag(tag) && |p| == PayloadLen(tag)
    case Arr(es, raw) =>
      (raw ==> root && |es| == 1 && !IsContainer(es[0])) && forall i :: 0 <= i < |es| ==> Ok(es[i], false)
    case Obj(ps) =>
      forall i :: 0 <= i < |ps| ==> |ps[i].key| <= OFFLENMASK && Ok(ps[i].value, false)
  }

  // ---------------------------------------------------------------- words and padding

  function U32(x: nat): (r: Bytes)
    ensures |r| == 4
  {
    [x % 256, x / 0x100 % 256, x / 0x1_0000 % 256, x / 0x100_0000 % 256]
  }

  function ReadU32(mem: Bytes, pos: nat): nat
    requires pos + 4 <= |mem|
  {
    (mem[pos] as nat) + 0x100 * (mem[pos + 1] as nat)
    + 0x1_0000 * (mem[pos + 2] as nat) + 0x100_0000 * (mem[pos + 3] as nat)
  }

  lemma ReadBack(mem: Bytes, pos: nat, x: nat)
    requires pos + 4 <= |mem| && mem[pos..pos + 4] == U32(x) && x < 0x1_0000_0000
    ensures ReadU32(mem, pos) == x
  {
    var w, u := mem[pos..pos + 4], U32(x);
    assert mem[pos] == u[0] && mem[pos + 1] == u[1] && mem[pos + 2] == u[2] && mem[pos + 3] == u[3] by {
      assert w[0] == mem[pos] && w[1] == mem[pos + 1] && w[2] == mem[pos + 2] && w[3] == mem[pos + 3];
    }
    BytesOf(x);
  }

  lemma BytesOf(x: nat)
    requires x < 0x1_0000_0000
    ensures x == x % 256 + 0x100 * (x / 0x100 % 256) + 0x1_0000 * (x / 0x1_0000 % 256)
                 + 0x100_0000 * (x / 0x100_0000 % 256)
  {
  }

  function IntAlign(n: nat): nat { (n + 3) / 4 * 4 }

  function Pad(off: nat): (r: Bytes)
    ensures |r| == IntAlign(off) - off && |r| < 4
  {
    seq(IntAlign(off) - off, _ => 0)
  }

  // ---------------------------------------------------------------- the format

  /** Children of a container in stored order: elements, or all keys and then all values. */
  function Count(v: Value): nat
    requires IsContainer(v)
  {
    if v.Arr? then |v.elems| else 2 * |v.pairs|
  }

  predicate IsKey(v: Value, i: nat)
    requires IsContainer(v) && i < Count(v)
  {
    v.Obj? && i < |v.pairs|
  }

  /** The child that is not a key. */
  function Kid(v: Value, i: nat): (c: Value)
    requires IsContainer(v) && i < Count(v) && !IsKey(v, i)
    ensures c < v
  {
    if v.Arr? then v.elems[i] else v.pairs[i - |v.pairs|].value
  }

  function Child(v: Value, i: nat): Value
    requires IsContainer(v) && i < Count(v)
  {
    if IsKey(v, i) then Str(v.pairs[i].key) else Kid(v, i)
  }

  const FSCALAR := 0x1000_0000
  const FOBJECT := 0x2000_0000
  const FARRAY := 0x4000_0000
  const CMASK := 0x07FF_FFFF

  function Header(v: Value): nat
    requires IsContainer(v)
  {
    if v.Obj? then |v.pairs| + FOBJECT else |v.elems| + FARRAY + if v.raw then FSCALAR else 0
  }

  /** The bytes a value adds to a buffer of length `off`. */
  function Enc(v: Value, off: nat): Bytes
    decreases v, 6
  {
    match v
    case Null => []
    case Bool(_) => []
    case Str(s) => s
    case Num(d) => Pad(off) + d
    case Ext(tag, p) => Pad(off) + U32(tag) + p + Zeros(tag)
    case _ => Pad(off) + Body(v)
  }

  function Zeros(tag: nat): Bytes { seq(ReservedLen(tag) - PayloadLen(tag), _ => 0) }

  /** A container: header, entries, data. It starts aligned, so offsets inside count from its data. */
  function Body(v: Value): Bytes
    requires IsContainer(v)
    decreases v, 5
  {
    U32(Header(v)) + Entries(v, Count(v)) + Data(v, Count(v))
  }

  function Entries(v: Value, k: nat): (r: Bytes)
    requires IsContainer(v) && k <= Count(v)
    ensures |r| == 4 * k
    decreases v, 4, k
  {
    if k == 0 then [] else Entries(v, k - 1) + U32(EntryAt(v, k - 1))
  }

  /** Every STRIDE-th child stores the end offset so far. */
  function EntryAt(v: Value, i: nat): Entry
    requires IsContainer(v) && i < Count(v)
    decreases v, 3
  {
    if i % STRIDE == 0 then AsOffset(MetaAt(v, i), Total(v, i + 1)) else MetaAt(v, i)
  }

  function Total(v: Value, k: nat): nat
    requires IsContainer(v) && k <= Count(v)
    decreases v, 2, k
  {
    if k == 0 then 0 else Total(v, k - 1) + OffLen(MetaAt(v, k - 1))
  }

  function MetaAt(v: Value, i: nat): Entry
    requires IsContainer(v) && i < Count(v)
    decreases v, 1
  {
    if IsKey(v, i) then Make(IS_STRING, |v.pairs[i].key|) else Meta(Kid(v, i), |Data(v, i)|)
  }

  function Data(v: Value, k: nat): Bytes
    requires IsContainer(v) && k <= Count(v)
    decreases v, 0, k
  {
    if k == 0 then [] else Data(v, k - 1) + Piece(v, k - 1, |Data(v, k - 1)|)
  }

  function Piece(v: Value, i: nat, off: nat): Bytes
    requires IsContainer(v) && i < Count(v)
    decreases v, 0, 0
  {
    if IsKey(v, i) then v.pairs[i].key else Enc(Kid(v, i), off)
  }

  /** The entry a converter hands to its caller. GTV_TIMESTAMP leaves its padding out. */
  function Meta(v: Value, off: nat): Entry
    decreases v, 7
  {
    match v
    case Null => Make(IS_NULL, 0)
    case Bool(b) => Make(if b then IS_TRUE else IS_FALSE, 0)
    case Str(s) => Make(IS_STRING, |s|)
    case Num(d) => Make(IS_NUMERIC, |Pad(off)| + |d|)
    case Ext(tag, p) => Make(IS_GTYPE, (if tag == TIMESTAMP then 0 else |Pad(off)|) + 4 + ReservedLen(tag))
    case _ => Make(IS_CONTAINER, |Enc(v, off)|)
  }

  // ---------------------------------------------------------------- stored lengths

  /** A timestamp that needs padding: the one child whose stored length is short. */
  predicate Misplaced(v: Value, i: nat)
    requires IsContainer(v) && i < Count(v)
  {
    !IsKey(v, i) && Kid(v, i).Ext? && Kid(v, i).tag == TIMESTAMP && |Data(v, i)| % 4 != 0
  }

  /** A reader adds up the stored lengths and aligns the sum for all but strings: it comes to where the
      child's bytes are, if it has any. */
  predicate Reached(v: Value, i: nat)
    requires IsContainer(v) && i < Count(v)
  {
    match Child(v, i)
    case Null => true
    case Bool(_) => true
    case Str(s) => s == [] || Total(v, i) == |Data(v, i)|
    case _ => IntAlign(Total(v, i)) == IntAlign(|Data(v, i)|)
  }

  /** Every child is where the entries say, at every depth. */
  ghost predicate Placed(v: Value)
    decreases v
  {
    IsContainer(v) ==>
      forall i :: 0 <= i < Count(v) ==> Reached(v, i) && (!IsKey(v, i) ==> Placed(Kid(v, i)))
  }

  /** No timestamp needs padding, at any depth. */
  ghost predicate Padless(v: Value)
    decreases v
  {
    IsContainer(v) ==>
      forall i :: 0 <= i < Count(v) ==> !Misplaced(v, i) && (!IsKey(v, i) ==> Padless(Kid(v, i)))
  }

  /** The encoder refuses containers that are longer. */
  ghost predicate Fits(v: Value)
    requires IsContainer(v)
  {
    |Body(v)| <= OFFLENMASK
  }

  lemma DataStep(v: Value, k: nat)
    requires IsContainer(v) && k < Count(v)
    ensures Data(v, k + 1) == Data(v, k) + Piece(v, k, |Data(v, k)|)
  {
  }

  lemma EncContainer(c: Value, off: nat)
    requires IsContainer(c)
    ensures Enc(c, off) == Pad(off) + Body(c)
  {
  }

  lemma {:induction false} DataGrows(v: Value, i: nat, k: nat)
    requires IsContainer(v) && i <= k <= Count(v)
    ensures Data(v, i) <= Data(v, k)
    decreases k
  {
    if i < k { DataGrows(v, i, k - 1); }
  }

  lemma PieceShort(v: Value, i: nat)
    requires IsContainer(v) && i < Count(v) && Fits(v)
    ensures |Piece(v, i, |Data(v, i)|)| <= |Data(v, i + 1)| <= |Data(v, Count(v))| <= OFFLENMASK
  {
    DataGrows(v, i + 1, Count(v));
  }

  lemma OkKid(v: Value, i: nat, root: bool)
    requires Ok(v, root) && IsContainer(v) && i < Count(v)
    ensures IsKey(v, i) ==> |v.pairs[i].key| <= OFFLENMASK
    ensures !IsKey(v, i) ==> Ok(Kid(v, i), false)
  {
  }

  /** A child's entry states exactly the bytes it takes, unless it is a timestamp that needed padding. */
  lemma LengthExactIff(v: Value, i: nat, root: bool)
    requires Ok(v, root) && IsContainer(v) && i < Count(v) && Fits(v)
    ensures OffLen(MetaAt(v, i)) == |Piece(v, i, |Data(v, i)|)| <==> !Misplaced(v, i)
    ensures OffLen(MetaAt(v, i)) <= |Piece(v, i, |Data(v, i)|)| <= OFFLENMASK
    ensures exists t: nat, len: nat :: t < 8 && len <= OFFLENMASK && MetaAt(v, i) == Make(t, len)
  {
    PieceShort(v, i);
    OkKid(v, i, root);
    var off := |Data(v, i)|;
    if IsKey(v, i) {
      Fields(IS_STRING, |v.pairs[i].key|, 0);
    } else {
      MetaLength(Kid(v, i), off);
    }
  }

  lemma MetaLength(c: Value, off: nat)
    requires Ok(c, false) && |Enc(c, off)| <= OFFLENMASK
    ensures OffLen(Meta(c, off)) == |Enc(c, off)| <==> !(c.Ext? && c.tag == TIMESTAMP && off % 4 != 0)
    ensures OffLen(Meta(c, off)) <= |Enc(c, off)|
    ensures exists t: nat, len: nat :: t < 8 && len <= OFFLENMASK && Meta(c, off) == Make(t, len)
  {
    var t, len := TypeBits(c), MetaLen(c, off);
    assert Meta(c, off) == Make(t, len);
    Fields(t, len, 0);
  }

  function TypeBits(c: Value): (t: nat)
    ensures t < 8
  {
    match c
    case Null => IS_NULL
    case Bool(b) => if b then IS_TRUE else IS_FALSE
    case Str(_) => IS_STRING
    case Num(_) => IS_NUMERIC
    case Ext(_, _) => IS_GTYPE
    case _ => IS_CONTAINER
  }

  function MetaLen(c: Value, off: nat): nat {
    match c
    case Null => 0
    case Bool(_) => 0
    case Str(s) => |s|
    case Num(d) => |Pad(off)| + |d|
    case Ext(tag, _) => (if tag == TIMESTAMP then 0 else |Pad(off)|) + 4 + ReservedLen(tag)
    case _ => |Enc(c, off)|
  }

  /** The running total is the data appended so far exactly when no timestamp needed padding. */
  lemma {:induction false} TotalExactIff(v: Value, k: nat, root: bool)
    requires Ok(v, root) && IsContainer(v) && k <= Count(v) && Fits(v)
    ensures Total(v, k) <= |Data(v, k)| <= OFFLENMASK
    ensures Total(v, k) == |Data(v, k)| <==> forall i :: 0 <= i < k ==> !Misplaced(v, i)
  {
    DataGrows(v, k, Count(v));
    if k > 0 {
      TotalExactIff(v, k - 1, root);
      LengthExactIff(v, k - 1, root);
    }
  }

  // ---------------------------------------------------------------- reading a container back

  ghost predicate At(mem: Bytes, p: nat, b: Bytes) {
    p + |b| <= |mem| && mem[p..p + |b|] == b
  }

  /** A container lies at an aligned position. */
  ghost predicate Holds(mem: Bytes, pos: nat, v: Value) {
    IsContainer(v) && pos % 4 == 0 && At(mem, pos, Body(v))
  }

  function DataPos(pos: nat, v: Value): nat
    requires IsContainer(v)
  {
    pos + 4 + 4 * Count(v)
  }

  lemma AtSplit(mem: Bytes, p: nat, a: Bytes, b: Bytes)
    requires At(mem, p, a + b)
    ensures At(mem, p, a) && At(mem, p + |a|, b)
  {
    var w := mem[p..p + |a + b|];
    assert mem[p..p + |a|] == w[..|a|] == a;
    assert mem[p + |a|..p + |a| + |b|] == w[|a|..] == b;
  }

  lemma BodyAt(mem: Bytes, pos: nat, v: Value)
    requires Holds(mem, pos, v)
    ensures At(mem, pos, U32(Header(v))) && At(mem, pos + 4, Entries(v, Count(v)))
    ensures At(mem, DataPos(pos, v), Data(v, Count(v)))
  {
    AtSplit(mem, pos, U32(Header(v)) + Entries(v, Count(v)), Data(v, Count(v)));
    AtSplit(mem, pos, U32(Header(v)), Entries(v, Count(v)));
  }

  lemma {:induction false} EntriesAt(mem: Bytes, p: nat, v: Value, k: nat, i: nat)
    requires IsContainer(v) && i < k <= Count(v) && At(mem, p, Entries(v, k))
    ensures At(mem, p + 4 * i, U32(EntryAt(v, i)))
    decreases k
  {
    AtSplit(mem, p, Entries(v, k - 1), U32(EntryAt(v, k - 1)));
    if i < k - 1 { EntriesAt(mem, p, v, k - 1, i); }
  }

  lemma {:induction false} DataAt(mem: Bytes, p: nat, v: Value, k: nat, i: nat)
    requires IsContainer(v) && i < k <= Count(v) && At(mem, p, Data(v, k))
    ensures At(mem, p + |Data(v, i)|, Piece(v, i, |Data(v, i)|))
    decreases k
  {
    DataStep(v, k - 1);
    AtSplit(mem, p, Data(v, k - 1), Piece(v, k - 1, |Data(v, k - 1)|));
    if i < k - 1 { DataAt(mem, p, v, k - 1, i); }
  }

  /** A child's bytes are where its offset says. */
  lemma PieceAt(mem: Bytes, pos: nat, v: Value, i: nat)
    requires Holds(mem, pos, v) && i < Count(v)
    ensures At(mem, DataPos(pos, v) + |Data(v, i)|, Piece(v, i, |Data(v, i)|))
  {
    BodyAt(mem, pos, v);
    DataAt(mem, DataPos(pos, v), v, Count(v), i);
  }

  /** A nested container is found by aligning its offset. */
  lemma KidAt(mem: Bytes, pos: nat, v: Value, i: nat)
    requires Holds(mem, pos, v) && i < Count(v) && !IsKey(v, i) && IsContainer(Kid(v, i))
    ensures Holds(mem, DataPos(pos, v) + IntAlign(|Data(v, i)|), Kid(v, i))
  {
    var off := |Data(v, i)|;
    PieceAt(mem, pos, v, i);
    EncContainer(Kid(v, i), off);
    AtSplit(mem, DataPos(pos, v) + off, Pad(off), Body(Kid(v, i)));
  }

  /** The words after the header. */
  function Words(mem: Bytes, pos: nat, n: nat): (r: seq<Entry>)
    requires pos + 4 + 4 * n <= |mem|
    ensures |r| == n && forall i :: 0 <= i < n ==> r[i] == ReadU32(mem, pos + 4 + 4 * i)
  {
    seq(n, i requires 0 <= i < n => ReadU32(mem, pos + 4 + 4 * i))
  }

  /** The lengths the entries state, and the offsets they add up to. */
  ghost function Lens(v: Value): (r: seq<nat>)
    requires IsContainer(v)
    ensures |r| == Count(v) && forall i :: 0 <= i < |r| ==> r[i] == OffLen(MetaAt(v, i))
  {
    seq(Count(v), i requires 0 <= i < Count(v) => OffLen(MetaAt(v, i)))
  }

  ghost function Offs(v: Value): (r: seq<nat>)
    requires IsContainer(v)
    ensures |r| == Count(v) + 1 && forall i :: 0 <= i < |r| ==> r[i] == Total(v, i)
  {
    seq(Count(v) + 1, i requires 0 <= i <= Count(v) => Total(v, i))
  }

  lemma SumLens(v: Value, k: nat)
    requires IsContainer(v) && k <= Count(v)
    ensures Sum(Lens(v), k) == Total(v, k)
  {
    forall i | 0 <= i < Count(v) ensures Steps(Offs(v), Lens(v), i) {
      assert Lens(v)[i] == OffLen(MetaAt(v, i)) && Offs(v)[i + 1] == Total(v, i + 1);
    }
    SumOfSteps(Offs(v), Lens(v), k);
    assert Offs(v)[k] == Total(v, k);
  }

  lemma EntryIs(v: Value, i: nat, root: bool)
    requires Ok(v, root) && IsContainer(v) && i < Count(v) && Fits(v)
    ensures EntryAt(v, i) < 0x1_0000_0000 && TypeOf(EntryAt(v, i)) == TypeOf(MetaAt(v, i))
    ensures HasOff(EntryAt(v, i)) <==> i % STRIDE == 0
    ensures OffLen(EntryAt(v, i)) == if i % STRIDE == 0 then Total(v, i + 1) else Lens(v)[i]
  {
    LengthExactIff(v, i, root);
    TotalExactIff(v, i + 1, root);
    var t: nat, len: nat :| t < 8 && len <= OFFLENMASK && MetaAt(v, i) == Make(t, len);
    Fields(t, len, Total(v, i + 1));
  }

  lemma EntrySmall(v: Value, i: nat, root: bool)
    requires Ok(v, root) && IsContainer(v) && i < Count(v) && Fits(v)
    ensures EntryAt(v, i) < 0x1_0000_0000
  {
    EntryIs(v, i, root);
  }

  lemma ReadAt(mem: Bytes, p: nat, x: nat)
    requires At(mem, p, U32(x)) && x < 0x1_0000_0000
    ensures p + 4 <= |mem| && ReadU32(mem, p) == x
  {
    ReadBack(mem, p, x);
  }

  lemma WordIs(mem: Bytes, pos: nat, v: Value, i: nat, root: bool)
    requires Holds(mem, pos, v) && Ok(v, root) && Fits(v) && i < Count(v)
    ensures pos + 8 + 4 * i <= |mem| && ReadU32(mem, pos + 4 + 4 * i) == EntryAt(v, i)
  {
    BodyAt(mem, pos, v);
    EntriesAt(mem, pos + 4, v, Count(v), i);
    EntrySmall(v, i, root);
    ReadAt(mem, pos + 4 + 4 * i, EntryAt(v, i));
  }

  lemma EntryStored(es: seq<Entry>, v: Value, i: nat, root: bool)
    requires Ok(v, root) && IsContainer(v) && Fits(v) && |es| == Count(v)
    requires i < |es| && es[i] == EntryAt(v, i)
    ensures StoredAt(es, Lens(v), i)
  {
    EntryIs(v, i, root);
    SumLens(v, i + 1);
  }

  /** Header and entries of a container, read in place. */
  ghost predicate Framed(mem: Bytes, pos: nat, v: Value)
    requires IsContainer(v)
  {
    && pos % 4 == 0 && DataPos(pos, v) <= |mem|
    && ReadU32(mem, pos) == Header(v)
    && Words(mem, pos, Count(v)) == seq(Count(v), i requires 0 <= i < Count(v) => EntryAt(v, i))
  }

  lemma HoldsFramed(mem: Bytes, pos: nat, v: Value)
    requires Holds(mem, pos, v) && Ok(v, true) && Fits(v)
    ensures Framed(mem, pos, v)
  {
    BodyAt(mem, pos, v);
    assert |Body(v)| >= 4 + 4 * Count(v);
    ReadAt(mem, pos, Header(v));
    var es := Words(mem, pos, Count(v));
    forall i | 0 <= i < |es| ensures es[i] == EntryAt(v, i) { WordIs(mem, pos, v, i, true); }
  }

  /** The words of a stored container are its entries, and the entry invariant holds of them. */
  lemma WordsStored(mem: Bytes, pos: nat, v: Value, root: bool)
    requires IsContainer(v) && Framed(mem, pos, v) && Ok(v, root) && Fits(v)
    ensures var es := Words(mem, pos, Count(v));
      Stored(es, Lens(v)) && forall i :: 0 <= i < |es| ==> es[i] == EntryAt(v, i)
  {
    var es := Words(mem, pos, Count(v));
    forall i | 0 <= i < |es| ensures StoredAt(es, Lens(v), i) { EntryStored(es, v, i, root); }
  }

  // ---------------------------------------------------------------- which values are placed

  /** As long as no timestamp before it needed padding, a child is reached. */
  lemma ReachedBefore(v: Value, i: nat, root: bool)
    requires Ok(v, root) && IsContainer(v) && i < Count(v) && Fits(v)
    requires forall j :: 0 <= j < i ==> !Misplaced(v, j)
    ensures Reached(v, i)
  {
    TotalExactIff(v, i, root);
  }

  lemma {:induction false} PadlessPlaced(v: Value, root: bool)
    requires Ok(v, root) && (IsContainer(v) ==> Fits(v)) && Padless(v)
    ensures Placed(v)
    decreases v
  {
    if IsContainer(v) {
      forall i | 0 <= i < Count(v) ensures Reached(v, i) && (!IsKey(v, i) ==> Placed(Kid(v, i))) {
        ReachedBefore(v, i, root);
        if !IsKey(v, i) {
          OkKid(v, i, root);
          KidFits(v, i);
          PadlessPlaced(Kid(v, i), false);
        }
      }
    }
  }

  lemma KidFits(v: Value, i: nat)
    requires IsContainer(v) && i < Count(v) && !IsKey(v, i) && Fits(v)
    ensures IsContainer(Kid(v, i)) ==> Fits(Kid(v, i))
  {
    PieceShort(v, i);
    if IsContainer(Kid(v, i)) { EncContainer(Kid(v, i), |Data(v, i)|); }
  }

  predicate NoBytes(c: Value) { c.Null? || c.Bool? || c == Str([]) }

  /** A container may have one padded timestamp if nothing with bytes follows it. */
  lemma LateTimestamp(v: Value, k: nat, root: bool)
    requires Ok(v, root) && IsContainer(v) && k < Count(v) && Fits(v)
    requires forall j :: 0 <= j < k ==> !Misplaced(v, j)
    requires forall i :: k < i < Count(v) ==> NoBytes(Child(v, i))
    ensures forall i :: 0 <= i < Count(v) ==> Reached(v, i)
  {
    forall i | 0 <= i < Count(v) ensures Reached(v, i) {
      if i <= k { ReachedBefore(v, i, root); } else { assert NoBytes(Child(v, i)); }
    }
  }

  /** Aligned and a whole number of words long, wherever it starts. */
  predicate WholeWords(c: Value) {
    match c
    case Null => true
    case Bool(_) => true
    case Str(s) => s == []
    case Num(d) => |d| % 4 == 0
    case Ext(tag, _) => ReservedLen(tag) % 4 == 0
    case _ => |Body(c)| % 4 == 0
  }

  ghost predicate SameAligned(v: Value, i: nat)
    requires IsContainer(v) && i <= Count(v)
  {
    IntAlign(Total(v, i)) == IntAlign(|Data(v, i)|)
  }

  /** Behind a padded timestamp the aligned offsets agree again, and go on agreeing over children of
      whole words. */
  lemma WordsAfter(v: Value, i: nat, root: bool)
    requires Ok(v, root) && IsContainer(v) && i < Count(v) && !IsKey(v, i) && Fits(v)
    requires SameAligned(v, i) && WholeWords(Kid(v, i))
    ensures SameAligned(v, i + 1)
  {
    var c, off := Kid(v, i), |Data(v, i)|;
    OkKid(v, i, root);
    PieceShort(v, i);
    DataStep(v, i);
    TotalExactIff(v, i, root);
    StatedLength(c, off);
    WholeStep(Total(v, i), off, c);
  }

  lemma StatedLength(c: Value, off: nat)
    requires Ok(c, false) && |Enc(c, off)| <= OFFLENMASK
    ensures OffLen(Meta(c, off)) == MetaLen(c, off)
  {
    assert Meta(c, off) == Make(TypeBits(c), MetaLen(c, off));
    MetaLength(c, off);
    Fields(TypeBits(c), MetaLen(c, off), 0);
  }

  lemma WholeStep(total: nat, off: nat, c: Value)
    requires total <= off && IntAlign(total) == IntAlign(off) && Ok(c, false) && WholeWords(c)
    ensures IntAlign(total + MetaLen(c, off)) == IntAlign(off + |Enc(c, off)|)
  {
    if IsContainer(c) { EncContainer(c, off); }
    if !NoBytes(c) && !c.Str? {
      var n := if c.Num? then |c.d| else if c.Ext? then 4 + ReservedLen(c.tag) else if IsContainer(c) then |Body(c)| else 0;
      assert |Enc(c, off)| == |Pad(off)| + n && n % 4 == 0;
      WholeSum(total, off, n);
    }
  }

  lemma WholeSum(total: nat, off: nat, n: nat)
    requires total <= off && IntAlign(total) == IntAlign(off) && n % 4 == 0
    ensures IntAlign(total + |Pad(off)| + n) == IntAlign(off) + n
    ensures IntAlign(total + n) == IntAlign(off) + n && IntAlign(off + |Pad(off)| + n) == IntAlign(off) + n
  {
    var k := n / 4;
    assert n == 4 * k;
  }

  /** All children from k on are found although timestamps before them were padded, if they and
      those between are whole words. */
  lemma {:induction false} ReachedAfter(v: Value, k: nat, i: nat, root: bool)
    requires Ok(v, root) && IsContainer(v) && k <= i < Count(v) && Fits(v) && SameAligned(v, k)
    requires forall j :: k <= j <= i ==> !IsKey(v, j) && WholeWords(Kid(v, j))
    ensures Reached(v, i) && SameAligned(v, i)
    decreases i
  {
    if k < i {
      ReachedAfter(v, k, i - 1, root);
      WordsAfter(v, i - 1, root);
    }
  }
}
