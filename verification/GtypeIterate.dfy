/** The cursor over a stored gtype, and the token stream it must give. */
module GtypeIterate {
  import opened Common
  import opened GtypeEntry
  import opened GtypeKeys
  import opened GtypeValue
  import opened GtypeEncode

  datatype Token =
    | BeginArray(n: nat, raw: bool)
    | EndArray
    | BeginObject(n: nat)
    | EndObject
    | Key(k: Bytes)
    | Elem(e: Value)
    | Val(e: Value)
    | Done

  /** The in-order traversal of a container. */
  function Tokens(v: Value): seq<Token>
    requires IsContainer(v)
    decreases v, 1, 0
  {
    if v.Arr? then [BeginArray(|v.elems|, v.raw)] + ElemTokens(v, 0)
    else [BeginObject(|v.pairs|)] + PairTokens(v, 0)
  }

  function ElemTokens(v: Value, i: nat): seq<Token>
    requires v.Arr? && i <= |v.elems|
    decreases v, 0, |v.elems| - i
  {
    if i == |v.elems| then [EndArray]
    else (if IsContainer(v.elems[i]) then Tokens(v.elems[i]) else [Elem(v.elems[i])]) + ElemTokens(v, i + 1)
  }

  function PairTokens(v: Value, i: nat): seq<Token>
    requires v.Obj? && i <= |v.pairs|
    decreases v, 0, |v.pairs| - i, 1
  {
    if i == |v.pairs| then [EndObject] else [Key(v.pairs[i].key)] + ValueTokens(v, i)
  }

  function ValueTokens(v: Value, i: nat): seq<Token>
    requires v.Obj? && i < |v.pairs|
    decreases v, 0, |v.pairs| - i, 0
  {
    var c := v.pairs[i].value;
    (if IsContainer(c) then Tokens(c) else [Val(c)]) + PairTokens(v, i + 1)
  }

  // ---------------------------------------------------------------- one child

  /** A child as fill_gtype_value returns it; a nested container stays binary. */
  datatype Filled = Scalar(v: Value) | Binary(pos: nat) | Invalid

  function Shown(base: nat, off: nat, c: Value): Filled {
    if IsContainer(c) then Binary(base + IntAlign(off)) else Scalar(c)
  }

  /** A container whose header and entries can be read in place, and whose children lie, at every
      depth, where the stored lengths say. */
  ghost predicate Readable(mem: Bytes, pos: nat, v: Value)
    decreases v, 1
  {
    && IsContainer(v) && Ok(v, true) && Fits(v) && Framed(mem, pos, v)
    && forall i :: 0 <= i < Count(v) ==> ChildThere(mem, pos, v, i)
  }

  ghost predicate ChildThere(mem: Bytes, pos: nat, v: Value, i: nat)
    requires IsContainer(v) && i < Count(v)
    decreases v, 0
  {
    && Lies(mem, DataPos(pos, v), Total(v, i), Child(v, i))
    && (!IsKey(v, i) && IsContainer(Kid(v, i)) ==> Readable(mem, DataPos(pos, v) + IntAlign(Total(v, i)), Kid(v, i)))
  }

  lemma KidReadable(mem: Bytes, pos: nat, v: Value, i: nat)
    requires Readable(mem, pos, v) && i < Count(v) && IsContainer(Child(v, i))
    ensures Readable(mem, DataPos(pos, v) + IntAlign(Total(v, i)), Child(v, i))
  {
    assert ChildThere(mem, pos, v, i);
  }

  /** The bytes of a placed value are readable as that value. */
  lemma {:induction false} PlacedReadable(mem: Bytes, pos: nat, v: Value)
    requires Holds(mem, pos, v) && Ok(v, true) && Fits(v) && Placed(v)
    ensures Readable(mem, pos, v)
    decreases v
  {
    HoldsFramed(mem, pos, v);
    forall i | 0 <= i < Count(v) ensures ChildThere(mem, pos, v, i) {
      ChildLies(mem, pos, v, i);
      if !IsKey(v, i) && IsContainer(Kid(v, i)) {
        KidAt(mem, pos, v, i);
        OkKid(v, i, true);
        OkRoot(Kid(v, i));
        KidFits(v, i);
        PlacedReadable(mem, DataPos(pos, v) + IntAlign(|Data(v, i)|), Kid(v, i));
      }
    }
  }

  lemma ChildLies(mem: Bytes, pos: nat, v: Value, i: nat)
    requires Holds(mem, pos, v) && Ok(v, true) && Fits(v) && i < Count(v) && Reached(v, i)
    ensures Lies(mem, DataPos(pos, v), Total(v, i), Child(v, i))
  {
    PieceAt(mem, pos, v, i);
    OkChild(v, i);
    PieceOf(v, i, |Data(v, i)|);
    PieceLies(mem, DataPos(pos, v), |Data(v, i)|, Child(v, i));
    TotalExactIff(v, i, true);
    LiesMoved(mem, DataPos(pos, v), Total(v, i), |Data(v, i)|, Child(v, i));
  }

  lemma LiesMoved(mem: Bytes, base: nat, total: nat, off: nat, c: Value)
    requires Lies(mem, base, off, c) && total <= off
    requires match c
      case Null => true
      case Bool(_) => true
      case Str(s) => s == [] || total == off
      case _ => IntAlign(total) == IntAlign(off)
    ensures Lies(mem, base, total, c)
  {
  }

  lemma OkRoot(c: Value)
    requires Ok(c, false)
    ensures Ok(c, true)
  {
  }

  lemma HeaderFields(mem: Bytes, pos: nat, v: Value)
    requires Readable(mem, pos, v)
    ensures pos + 4 <= |mem|
    ensures var h := ReadU32(mem, pos);
      && h % (CMASK + 1) == (if v.Obj? then |v.pairs| else |v.elems|)
      && (h / FSCALAR % 2 == 1 <==> v.Arr? && v.raw)
      && (h / FOBJECT % 2 == 1 <==> v.Obj?)
      && (h / FARRAY % 2 == 1 <==> v.Arr?)
  {
    HeaderBits(if v.Obj? then |v.pairs| else |v.elems|, v);
  }

  lemma HeaderBits(n: nat, v: Value)
    requires IsContainer(v) && Fits(v) && n == if v.Obj? then |v.pairs| else |v.elems|
    ensures Header(v) < 0x1_0000_0000 && Header(v) % (CMASK + 1) == n
    ensures Header(v) / FSCALAR % 2 == 1 <==> v.Arr? && v.raw
    ensures Header(v) / FOBJECT % 2 == 1 <==> v.Obj?
    ensures Header(v) / FARRAY % 2 == 1 <==> v.Arr?
  {
    assert |Body(v)| >= 4 + 4 * n;
  }

  /** The type bits of a child's entry. */
  lemma ChildType(v: Value, i: nat)
    requires IsContainer(v) && Ok(v, true) && Fits(v) && i < Count(v)
    ensures TypeOf(EntryAt(v, i)) == TypeBits(Child(v, i))
  {
    EntryIs(v, i, true);
    var off := |Data(v, i)|;
    PieceShort(v, i);
    OkKid(v, i, true);
    if IsKey(v, i) {
      Fields(IS_STRING, |v.pairs[i].key|, 0);
    } else {
      MetaType(Kid(v, i), off);
    }
  }

  lemma MetaType(c: Value, off: nat)
    requires Ok(c, false) && |Enc(c, off)| <= OFFLENMASK
    ensures TypeOf(Meta(c, off)) == TypeBits(c)
  {
    MetaLength(c, off);
    assert Meta(c, off) == Make(TypeBits(c), MetaLen(c, off));
    MetaLenShort(c, off);
    Fields(TypeBits(c), MetaLen(c, off), 0);
  }

  lemma MetaLenShort(c: Value, off: nat)
    requires Ok(c, false) && |Enc(c, off)| <= OFFLENMASK
    ensures MetaLen(c, off) <= OFFLENMASK
  {
  }

  lemma SizeAt(mem: Bytes, p: nat, d: Bytes)
    requires At(mem, p, d) && |d| >= 4
    ensures p + 4 <= |mem| && ReadU32(mem, p) == ReadU32(d, 0)
  {
    var w := mem[p..p + |d|];
    assert w[0] == mem[p] && w[1] == mem[p + 1] && w[2] == mem[p + 2] && w[3] == mem[p + 3];
  }

  /** A scalar's payload can be read at data offset `off`. */
  ghost predicate Lies(mem: Bytes, base: nat, off: nat, c: Value) {
    var p := base + IntAlign(off);
    match c
    case Str(s) => At(mem, base + off, s)
    case Num(d) => At(mem, p, d) && p + 4 <= |mem| && ReadU32(mem, p) == 4 * |d|
    case Ext(tag, b) =>
      && KnownTag(tag) && |b| == PayloadLen(tag)
      && At(mem, p + 4, b) && p + 4 <= |mem| && ReadU32(mem, p) == tag
    case _ => true
  }

  lemma PieceLies(mem: Bytes, base: nat, off: nat, c: Value)
    requires Ok(c, false) && At(mem, base + off, Enc(c, off))
    ensures Lies(mem, base, off, c)
  {
    if c.Num? {
      NumLies(mem, base, off, c);
    } else if c.Ext? {
      ExtLies(mem, base, off, c);
    }
  }

  lemma NumLies(mem: Bytes, base: nat, off: nat, c: Value)
    requires c.Num? && Ok(c, false) && At(mem, base + off, Enc(c, off))
    ensures Lies(mem, base, off, c)
  {
    AtSplit(mem, base + off, Pad(off), c.d);
    SizeAt(mem, base + IntAlign(off), c.d);
  }

  lemma ExtLies(mem: Bytes, base: nat, off: nat, c: Value)
    requires c.Ext? && Ok(c, false) && At(mem, base + off, Enc(c, off))
    ensures Lies(mem, base, off, c)
  {
    AtSplit(mem, base + off, Pad(off) + U32(c.tag) + c.p, Zeros(c.tag));
    AtSplit(mem, base + off, Pad(off) + U32(c.tag), c.p);
    AtSplit(mem, base + off, Pad(off), U32(c.tag));
    ReadAt(mem, base + off + |Pad(off)|, c.tag);
  }

  /** np_deserialize_extended_type */
  method DeserializeExtended(mem: Bytes, base: nat, offset: nat, ghost c: Value) returns (f: Filled)
    requires c.Ext? && Lies(mem, base, offset, c)
    ensures f == Scalar(c)
  {
    var p := base + IntAlign(offset);
    var tag := ReadU32(mem, p);
    if !KnownTag(tag) {
      return Invalid;
    }
    f := Scalar(Ext(tag, mem[p + 4..p + 4 + PayloadLen(tag)]));
  }

  /** fill_gtype_value: any child, given only its index and its data offset. */
  method FillValue(mem: Bytes, children: seq<Entry>, index: nat, base: nat, offset: nat,
                   ghost lens: seq<nat>, ghost c: Value)
    returns (f: Filled)
    requires Stored(children, lens) && index < |children| && TypeOf(children[index]) == TypeBits(c)
    requires Lies(mem, base, offset, c) && (c.Str? ==> lens[index] == |c.s|)
    ensures f == Shown(base, offset, c)
  {
    var t := TypeOf(children[index]);
    if t == IS_NULL {
      f := Scalar(Null);
    } else if t == IS_STRING {
      var len := GetLength(children, index, lens);
      f := Scalar(Str(mem[base + offset..base + offset + len]));
    } else if t == IS_NUMERIC {
      var p := base + IntAlign(offset);
      var size := ReadU32(mem, p) / 4;
      f := Scalar(Num(mem[p..p + size]));
    } else if t == IS_GTYPE {
      f := DeserializeExtended(mem, base, offset, c);
    } else if t == IS_TRUE {
      f := Scalar(Bool(true));
    } else if t == IS_FALSE {
      f := Scalar(Bool(false));
    } else {
      f := Binary(base + IntAlign(offset));
    }
  }

  lemma PieceOf(v: Value, i: nat, off: nat)
    requires IsContainer(v) && i < Count(v)
    ensures Piece(v, i, off) == Enc(Child(v, i), off)
    ensures Child(v, i).Str? ==> Piece(v, i, off) == Child(v, i).s
  {
  }

  lemma OkChild(v: Value, i: nat)
    requires IsContainer(v) && Ok(v, true) && i < Count(v)
    ensures Ok(Child(v, i), false)
  {
    OkKid(v, i, true);
  }

  /** Every child of a readable container can be filled from its entry and its offset. */
  lemma FillReady(mem: Bytes, pos: nat, v: Value, i: nat)
    requires Readable(mem, pos, v) && i < Count(v)
    ensures DataPos(pos, v) <= |mem| && Stored(Words(mem, pos, Count(v)), Lens(v))
    ensures Words(mem, pos, Count(v))[i] == EntryAt(v, i)
    ensures Child(v, i).Str? ==> Lens(v)[i] == |Child(v, i).s|
  {
    WordsStored(mem, pos, v, true);
    StringLength(v, i);
  }

  lemma StringLength(v: Value, i: nat)
    requires IsContainer(v) && Ok(v, true) && Fits(v) && i < Count(v)
    ensures Child(v, i).Str? ==> Lens(v)[i] == |Child(v, i).s|
  {
    LengthExactIff(v, i, true);
    PieceOf(v, i, |Data(v, i)|);
  }

  // ---------------------------------------------------------------- the cursor

  datatype State = ArrayStart | ArrayElem | ObjectStart | ObjectKey | ObjectValue

  /** One gtype_iterator: a container and the progress in it. */
  datatype Frame = Frame(pos: nat, num: nat, isScalar: bool, base: nat, index: nat,
                         dataOff: nat, valOff: nat, state: State)

  function Width(v: Value): nat
    requires IsContainer(v)
  {
    if v.Arr? then |v.elems| else |v.pairs|
  }

  ghost predicate FrameOk(mem: Bytes, f: Frame, v: Value) {
    && Readable(mem, f.pos, v)
    && f.num == Width(v) && f.base == DataPos(f.pos, v)
    && (f.isScalar <==> v.Arr? && v.raw)
    && match f.state
       case ArrayStart => v.Arr?
       case ArrayElem => v.Arr? && f.index <= f.num && f.dataOff == Total(v, f.index)
       case ObjectStart => v.Obj?
       case ObjectKey => v.Obj? && f.index <= f.num && Offsets(f, v)
       case ObjectValue => v.Obj? && f.index < f.num && Offsets(f, v)
  }

  ghost predicate Offsets(f: Frame, v: Value)
    requires v.Obj? && f.index <= |v.pairs| == f.num
  {
    f.dataOff == Total(v, f.index) && f.valOff == Total(v, f.num + f.index)
  }

  /** The tokens a frame still owes. */
  ghost function Left(mem: Bytes, f: Frame, v: Value): seq<Token>
    requires FrameOk(mem, f, v)
  {
    match f.state
    case ArrayStart => Tokens(v)
    case ArrayElem => ElemTokens(v, f.index)
    case ObjectStart => Tokens(v)
    case ObjectKey => PairTokens(v, f.index)
    case ObjectValue => ValueTokens(v, f.index)
  }

  ghost predicate StackOk(mem: Bytes, fs: seq<Frame>, vs: seq<Value>) {
    |fs| == |vs| && forall i :: 0 <= i < |fs| ==> FrameOk(mem, fs[i], vs[i])
  }

  /** Innermost frame first. */
  ghost function LeftAll(mem: Bytes, fs: seq<Frame>, vs: seq<Value>): seq<Token>
    requires StackOk(mem, fs, vs)
  {
    if fs == [] then []
    else
      var n := |fs| - 1;
      Left(mem, fs[n], vs[n]) + LeftAll(mem, fs[..n], vs[..n])
  }

  lemma OnTop(mem: Bytes, fs: seq<Frame>, vs: seq<Value>, f: Frame, v: Value)
    requires StackOk(mem, fs, vs) && FrameOk(mem, f, v)
    ensures StackOk(mem, fs + [f], vs + [v])
    ensures LeftAll(mem, fs + [f], vs + [v]) == Left(mem, f, v) + LeftAll(mem, fs, vs)
  {
    assert (fs + [f])[..|fs|] == fs && (vs + [v])[..|vs|] == vs;
  }

  /** iterator_from_container */
  method FromContainer(mem: Bytes, pos: nat, ghost v: Value) returns (f: Frame)
    requires Readable(mem, pos, v)
    ensures FrameOk(mem, f, v) && Left(mem, f, v) == Tokens(v)
    ensures f.state == if v.Arr? then ArrayStart else ObjectStart
  {
    HeaderFields(mem, pos, v);
    var h := ReadU32(mem, pos);
    var num := h % (CMASK + 1);
    if h / FARRAY % 2 == 1 {
      f := Frame(pos, num, h / FSCALAR % 2 == 1, pos + 4 + 4 * num, 0, 0, 0, ArrayStart);
    } else {
      f := Frame(pos, num, false, pos + 4 + 4 * num * 2, 0, 0, 0, ObjectStart);
    }
  }

  /** fill_gtype_value on a frame's child, reading the entry words in place. */
  method Fill(mem: Bytes, f: Frame, count: nat, index: nat, offset: nat, ghost v: Value) returns (r: Filled)
    requires Readable(mem, f.pos, v) && index < Count(v) == count
    requires f.base == DataPos(f.pos, v) && offset == Total(v, index)
    ensures r == Shown(f.base, offset, Child(v, index))
  {
    FillReady(mem, f.pos, v, index);
    ChildType(v, index);
    assert ChildThere(mem, f.pos, v, index);
    r := FillValue(mem, Words(mem, f.pos, count), index, f.base, offset, Lens(v), Child(v, index));
  }

  /** GTE_ADVANCE_OFFSET on a frame's child. */
  method Skip(mem: Bytes, f: Frame, count: nat, index: nat, offset: nat, ghost v: Value) returns (next: nat)
    requires Readable(mem, f.pos, v) && index < Count(v) == count && offset == Total(v, index)
    ensures next == Total(v, index + 1)
  {
    WordsStored(mem, f.pos, v, true);
    SumLens(v, index);
    SumLens(v, index + 1);
    AdvanceIsSum(Words(mem, f.pos, count), Lens(v), index);
    next := Advance(offset, Words(mem, f.pos, count)[index]);
  }

  lemma TopFrame(mem: Bytes, fs: seq<Frame>, vs: seq<Value>)
    requires StackOk(mem, fs, vs) && fs != []
    ensures var n := |fs| - 1; FrameOk(mem, fs[n], vs[n]) && StackOk(mem, fs[..n], vs[..n])
    ensures var n := |fs| - 1; LeftAll(mem, fs, vs) == Left(mem, fs[n], vs[n]) + LeftAll(mem, fs[..n], vs[..n])
  {
  }

  function Item(c: Value, inArray: bool): seq<Token> {
    if IsContainer(c) then Tokens(c) else [if inArray then Elem(c) else Val(c)]
  }

  lemma StartFrame(mem: Bytes, f: Frame, v: Value, f': Frame)
    requires FrameOk(mem, f, v) && (f.state == ArrayStart || f.state == ObjectStart)
    requires v.Arr? ==> f' == f.(index := 0, dataOff := 0, valOff := 0, state := ArrayElem)
    requires v.Obj? ==> f' == f.(index := 0, dataOff := 0, valOff := Total(v, f.num), state := ObjectKey)
    ensures FrameOk(mem, f', v)
    ensures Left(mem, f, v) == [if v.Arr? then BeginArray(f.num, f.isScalar) else BeginObject(f.num)] + Left(mem, f', v)
  {
  }

  lemma ElemFrame(mem: Bytes, f: Frame, v: Value, f': Frame)
    requires FrameOk(mem, f, v) && f.state == ArrayElem && f.index < f.num
    requires f' == f.(index := f.index + 1, dataOff := Total(v, f.index + 1))
    ensures FrameOk(mem, f', v) && Child(v, f.index) == v.elems[f.index]
    ensures Left(mem, f, v) == Item(v.elems[f.index], true) + Left(mem, f', v)
  {
  }

  lemma ValueFrame(mem: Bytes, f: Frame, v: Value, f': Frame)
    requires FrameOk(mem, f, v) && f.state == ObjectValue
    requires f' == f.(index := f.index + 1, dataOff := Total(v, f.index + 1),
                      valOff := Total(v, f.num + f.index + 1), state := ObjectKey)
    ensures FrameOk(mem, f', v) && Child(v, f.num + f.index) == v.pairs[f.index].value
    ensures Left(mem, f, v) == Item(v.pairs[f.index].value, false) + Left(mem, f', v)
  {
  }

  lemma KeyFrame(mem: Bytes, f: Frame, v: Value, f': Frame)
    requires FrameOk(mem, f, v) && f.state == ObjectKey && f.index < f.num && f' == f.(state := ObjectValue)
    ensures FrameOk(mem, f', v) && Child(v, f.index) == Str(v.pairs[f.index].key)
    ensures Left(mem, f, v) == [Key(v.pairs[f.index].key)] + Left(mem, f', v)
  {
  }

  lemma FillBase(mem: Bytes, pos: nat, v: Value)
    requires Readable(mem, pos, v) && v.Obj?
    ensures DataPos(pos, v) <= |mem| && Stored(Words(mem, pos, Count(v)), Lens(v))
    ensures Sum(Lens(v), |v.pairs|) == Total(v, |v.pairs|)
  {
    WordsStored(mem, pos, v, true);
    SumLens(v, |v.pairs|);
  }

  /** Where the values of an object begin. */
  method ValueBase(mem: Bytes, f: Frame, ghost v: Value) returns (valOff: nat)
    requires FrameOk(mem, f, v) && f.state == ObjectStart
    ensures valOff == Total(v, f.num)
  {
    ghost var looked;
    FillBase(mem, f.pos, v);
    valOff, looked := GetOffset(Words(mem, f.pos, 2 * f.num), f.num, Lens(v));
  }

  /** One element: what is stored there, and the frame behind it. */
  method StepElem(mem: Bytes, f: Frame, ghost v: Value) returns (r: Filled, f': Frame)
    requires FrameOk(mem, f, v) && f.state == ArrayElem && f.index < f.num
    ensures FrameOk(mem, f', v) && Left(mem, f, v) == Item(v.elems[f.index], true) + Left(mem, f', v)
    ensures Given(mem, r, v.elems[f.index])
  {
    r := Fill(mem, f, f.num, f.index, f.dataOff, v);
    var dataOff := Skip(mem, f, f.num, f.index, f.dataOff, v);
    f' := f.(index := f.index + 1, dataOff := dataOff);
    ElemFrame(mem, f, v, f');
    if r.Binary? { KidReadable(mem, f.pos, v, f.index); }
  }

  method StepName(mem: Bytes, f: Frame, ghost v: Value) returns (tok: Token, f': Frame)
    requires FrameOk(mem, f, v) && f.state == ObjectKey && f.index < f.num
    ensures tok == Key(v.pairs[f.index].key)
    ensures FrameOk(mem, f', v) && Left(mem, f, v) == [tok] + Left(mem, f', v)
  {
    var r := Fill(mem, f, 2 * f.num, f.index, f.dataOff, v);
    f' := f.(state := ObjectValue);
    KeyFrame(mem, f, v, f');
    tok := Key(r.v.s);
  }

  method StepValue(mem: Bytes, f: Frame, ghost v: Value) returns (r: Filled, f': Frame)
    requires FrameOk(mem, f, v) && f.state == ObjectValue
    ensures FrameOk(mem, f', v) && Left(mem, f, v) == Item(v.pairs[f.index].value, false) + Left(mem, f', v)
    ensures Given(mem, r, v.pairs[f.index].value)
  {
    r := FillMember(mem, f, v);
    f' := NextPair(mem, f, v);
  }

  method FillMember(mem: Bytes, f: Frame, ghost v: Value) returns (r: Filled)
    requires FrameOk(mem, f, v) && f.state == ObjectValue
    ensures Given(mem, r, v.pairs[f.index].value)
  {
    r := Fill(mem, f, 2 * f.num, f.num + f.index, f.valOff, v);
    assert Child(v, f.num + f.index) == v.pairs[f.index].value;
    if r.Binary? { KidReadable(mem, f.pos, v, f.num + f.index); }
  }

  method NextPair(mem: Bytes, f: Frame, ghost v: Value) returns (f': Frame)
    requires FrameOk(mem, f, v) && f.state == ObjectValue
    ensures FrameOk(mem, f', v) && Left(mem, f, v) == Item(v.pairs[f.index].value, false) + Left(mem, f', v)
  {
    var dataOff := Skip(mem, f, 2 * f.num, f.index, f.dataOff, v);
    var valOff := Skip(mem, f, 2 * f.num, f.num + f.index, f.valOff, v);
    f' := f.(index := f.index + 1, dataOff := dataOff, valOff := valOff, state := ObjectKey);
    ValueFrame(mem, f, v, f');
  }

  /** A child as the cursor got it: a scalar itself, or where a container can be read. */
  ghost predicate Given(mem: Bytes, r: Filled, c: Value) {
    if IsContainer(c) then r.Binary? && Readable(mem, r.pos, c) else r == Scalar(c)
  }

  class Iterator {
    const mem: Bytes
    var stack: seq<Frame>
    ghost var vals: seq<Value>

    ghost predicate Valid()
      reads this
    {
      StackOk(mem, stack, vals)
    }

    /** The tokens still to come. */
    ghost function Remaining(): seq<Token>
      reads this
      requires Valid()
    {
      LeftAll(mem, stack, vals)
    }

    /** gtype_iterator_init */
    constructor (g: Bytes, pos: nat, ghost v: Value)
      requires Readable(g, pos, v)
      ensures Valid() && mem == g && Remaining() == Tokens(v)
    {
      mem := g;
      new;
      var f := FromContainer(g, pos, v);
      OnTop(g, [], [], f, v);
      stack, vals := [f], [v];
    }

    /** Advance the innermost frame, having dealt with `item`. */
    method Put(f: Frame, ghost item: seq<Token>)
      requires Valid() && stack != []
      requires var n := |stack| - 1;
        FrameOk(mem, f, vals[n]) && Left(mem, stack[n], vals[n]) == item + Left(mem, f, vals[n])
      modifies this
      ensures Valid() && old(Remaining()) == item + Remaining()
    {
      var n := |stack| - 1;
      TopFrame(mem, stack, vals);
      OnTop(mem, stack[..n], vals[..n], f, vals[n]);
      Associate(item, Left(mem, f, vals[n]), LeftAll(mem, stack[..n], vals[..n]));
      stack, vals := stack[..n] + [f], vals[..n] + [vals[n]];
    }

    method StartArray() returns (tok: Token)
      requires Valid() && stack != [] && stack[|stack| - 1].state == ArrayStart
      modifies this
      ensures Valid() && tok != Done && old(Remaining()) == [tok] + Remaining()
    {
      var f := stack[|stack| - 1];
      ghost var v := vals[|stack| - 1];
      tok := BeginArray(f.num, f.isScalar);
      var f' := f.(index := 0, dataOff := 0, valOff := 0, state := ArrayElem);
      StartFrame(mem, f, v, f');
      Put(f', [tok]);
    }

    method StartObject() returns (tok: Token)
      requires Valid() && stack != [] && stack[|stack| - 1].state == ObjectStart
      modifies this
      ensures Valid() && tok != Done && old(Remaining()) == [tok] + Remaining()
    {
      var f := stack[|stack| - 1];
      ghost var v := vals[|stack| - 1];
      tok := BeginObject(f.num);
      var valOff := ValueBase(mem, f, v);
      var f' := f.(index := 0, dataOff := 0, valOff := valOff, state := ObjectKey);
      StartFrame(mem, f, v, f');
      Put(f', [tok]);
    }

    /** A nested container: a new innermost frame, which begins in a start state. */
    method Descend(pos: nat, ghost c: Value) returns (tok: Token)
      requires Valid() && Readable(mem, pos, c)
      modifies this
      ensures Valid() && tok != Done && Tokens(c) + old(Remaining()) == [tok] + Remaining()
    {
      var f := FromContainer(mem, pos, c);
      OnTop(mem, stack, vals, f, c);
      stack, vals := stack + [f], vals + [c];
      if f.state == ArrayStart {
        tok := StartArray();
      } else {
        tok := StartObject();
      }
    }

    /** free_and_get_parent, after the frame's last token. */
    method Leave(tok: Token)
      requires Valid() && stack != []
      requires var n := |stack| - 1; Left(mem, stack[n], vals[n]) == [tok]
      modifies this
      ensures Valid() && old(Remaining()) == [tok] + Remaining()
    {
      TopFrame(mem, stack, vals);
      stack, vals := stack[..|stack| - 1], vals[..|stack| - 1];
    }

    method NextElem() returns (tok: Token)
      requires Valid() && stack != [] && stack[|stack| - 1].state == ArrayElem
      modifies this
      ensures Valid() && tok != Done && old(Remaining()) == [tok] + Remaining()
    {
      var f := stack[|stack| - 1];
      ghost var v := vals[|stack| - 1];
      if f.index >= f.num {
        tok := EndArray;
        Leave(tok);
        return;
      }
      var r, f' := StepElem(mem, f, v);
      Put(f', Item(v.elems[f.index], true));
      if r.Binary? {
        tok := Descend(r.pos, v.elems[f.index]);
      } else {
        tok := Elem(r.v);
      }
    }

    method NextKey() returns (tok: Token)
      requires Valid() && stack != [] && stack[|stack| - 1].state == ObjectKey
      modifies this
      ensures Valid() && tok != Done && old(Remaining()) == [tok] + Remaining()
    {
      var f := stack[|stack| - 1];
      ghost var v := vals[|stack| - 1];
      if f.index >= f.num {
        tok := EndObject;
        Leave(tok);
        return;
      }
      var f';
      tok, f' := StepName(mem, f, v);
      Put(f', [tok]);
    }

    method NextValue() returns (tok: Token)
      requires Valid() && stack != [] && stack[|stack| - 1].state == ObjectValue
      modifies this
      ensures Valid() && tok != Done && old(Remaining()) == [tok] + Remaining()
    {
      var f := stack[|stack| - 1];
      ghost var v := vals[|stack| - 1];
      var r, f' := StepValue(mem, f, v);
      Put(f', Item(v.pairs[f.index].value, false));
      if r.Binary? {
        tok := Descend(r.pos, v.pairs[f.index].value);
      } else {
        tok := Val(r.v);
      }
    }

    /** gtype_iterator_next without skip_nested. */
    method Next() returns (tok: Token)
      requires Valid()
      modifies this
      ensures Valid()
      ensures old(stack) == [] ==> tok == Done && Remaining() == []
      ensures old(stack) != [] ==> tok != Done && old(Remaining()) == [tok] + Remaining()
    {
      if stack == [] {
        return Done;
      }
      match stack[|stack| - 1].state
      case ArrayStart => tok := StartArray();
      case ObjectStart => tok := StartObject();
      case ArrayElem => tok := NextElem();
      case ObjectKey => tok := NextKey();
      case ObjectValue => tok := NextValue();
    }
  }

  /** Iterating a stored gtype to the end emits exactly the traversal of the value it encodes. */
  method IterateAll(g: Bytes, pos: nat, ghost v: Value) returns (toks: seq<Token>)
    requires Readable(g, pos, v)
    ensures toks == Tokens(v)
  {
    var it := new Iterator(g, pos, v);
    ghost var all := it.Remaining();
    toks := [];
    while true
      invariant it.Valid() && toks + it.Remaining() == all
      decreases |it.Remaining()|
    {
      var tok := it.Next();
      if tok == Done {
        break;
      }
      Associate(toks, [tok], it.Remaining());
      toks := toks + [tok];
    }
  }
}
