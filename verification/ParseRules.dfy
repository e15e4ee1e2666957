/** The grammar of gtype text over lexemes, as parse trees and as a deterministic recognizer. */
module ParseRules {
  import opened Common
  import opened GtypeEntry
  import opened GtypeKeys
  import opened GtypeValue
  import opened GtypePush
  import opened LexRules

  /** Conversions the server's type library does: a kind and a text to a value, or an error. */
  type Library = (Kind, Bytes) -> Option<Value>

  // ---------------------------------------------------------------- scalars

  /** 64-bit integers are stored little-endian in two's complement. */
  function LittleEndian(n: nat, k: nat): (r: Bytes)
    ensures |r| == k
  {
    if k == 0 then [] else [n % 256] + LittleEndian(n / 256, k - 1)
  }

  const TWO_63 := 0x8000_0000_0000_0000
  const TWO_64 := 0x1_0000_0000_0000_0000

  function IntBytes(n: int): Bytes { LittleEndian(n % TWO_64, 8) }

  function IntVal(n: int): Value { Ext(0, IntBytes(n)) }

  /** The number a run of digits stands for. */
  function Decimal(b: Bytes): nat {
    if b == [] then 0 else Decimal(b[..|b| - 1]) * 10 + if IsDigit(b[|b| - 1]) then b[|b| - 1] - ZERO else 0
  }

  /** A text the lexer calls an integer: digits behind an optional sign. */
  predicate PlainInt(b: Bytes) {
    if b != [] && b[0] == MINUS then b[1..] != [] && DigitRun(b[1..]) == |b| - 1 else b != [] && DigitRun(b) == |b|
  }

  function IntOf(b: Bytes): int
    requires PlainInt(b)
  {
    if b[0] == MINUS then -(Decimal(b[1..]) as int) else Decimal(b)
  }

  /** The library converts to scalars only. */
  function Converted(r: Option<Value>): (o: Option<Value>)
    ensures o.Some? ==> !IsContainer(o.value)
  {
    if r.Some? && IsContainer(r.value) then None else r
  }

  /** The switch of gtype_in_scalar. */
  function Scalar(k: Kind, text: Bytes, lib: Library): (o: Option<Value>)
    ensures o.Some? ==> !IsContainer(o.value)
  {
    match k
    case STRING => if |text| <= OFFLENMASK then Some(Str(text)) else None
    case TRUE => Some(Bool(true))
    case FALSE => Some(Bool(false))
    case NULL => Some(Null)
    case INTEGER =>
      if !PlainInt(text) then Converted(lib(INTEGER, text))
      else if -TWO_63 <= IntOf(text) < TWO_63 then Some(IntVal(IntOf(text)))
      else None
    case _ => Converted(lib(k, text))
  }

  /** The names a typecast may use. */
  const NUMERIC_NAME: Bytes := [110, 117, 109, 101, 114, 105, 99]
  const INTEGER_NAME: Bytes := [105, 110, 116, 101, 103, 101, 114]
  const INT_NAME: Bytes := [105, 110, 116]
  const FLOAT_NAME: Bytes := [102, 108, 111, 97, 116]
  const TIMESTAMP_NAME: Bytes := [116, 105, 109, 101, 115, 116, 97, 109, 112]
  const DATE_NAME: Bytes := [100, 97, 116, 101]
  const TIME_NAME: Bytes := [116, 105, 109, 101]
  const INTERVAL_NAME: Bytes := [105, 110, 116, 101, 114, 118, 97, 108]
  const INET_NAME: Bytes := [105, 110, 101, 116]
  const CIDR_NAME: Bytes := [99, 105, 100, 114]
  const MACADDR_NAME: Bytes := [109, 97, 99, 97, 100, 100, 114]
  const TEXT_NAME: Bytes := [116, 101, 120, 116]
  const TZ: Bytes := [116, 122]

  function CastName(a: Bytes): Option<Kind> {
    var k := NumberName(a);
    if k.Some? then k else
    var t := TimeName(a);
    if t.Some? then t else
    var n := AddressName(a);
    if n.Some? then n else
    if SameName(a, TEXT_NAME) then Some(STRING) else None
  }

  function NumberName(a: Bytes): Option<Kind> {
    if SameName(a, NUMERIC_NAME) then Some(NUMERIC)
    else if SameName(a, INTEGER_NAME) || SameName(a, INT_NAME) then Some(INTEGER)
    else if SameName(a, FLOAT_NAME) then Some(FLOAT)
    else None
  }

  function TimeName(a: Bytes): Option<Kind> {
    if SameName(a, TIMESTAMP_NAME) then Some(Kind.TIMESTAMP)
    else if SameName(a, TIMESTAMP_NAME + TZ) then Some(TIMESTAMPTZ)
    else if SameName(a, DATE_NAME) then Some(DATE)
    else if SameName(a, TIME_NAME) then Some(TIME)
    else if SameName(a, TIME_NAME + TZ) then Some(TIMETZ)
    else if SameName(a, INTERVAL_NAME) then Some(INTERVAL)
    else None
  }

  function AddressName(a: Bytes): Option<Kind> {
    if SameName(a, INET_NAME) then Some(INET)
    else if SameName(a, CIDR_NAME) then Some(CIDR)
    else if SameName(a, MACADDR_NAME) then Some(MACADDR)
    else if SameName(a, MACADDR_NAME + [56]) then Some(MACADDR8)
    else None
  }

  /** gtype_in_scalar: a typecast of anything but null decides the kind. */
  function ScalarOf(x: Lexeme, ann: Option<Bytes>, lib: Library): (o: Option<Value>)
    requires x.Lexeme?
    ensures o.Some? ==> !IsContainer(o.value)
  {
    if ann == None || x.kind == NULL then Scalar(x.kind, x.text, lib)
    else match CastName(ann.value)
      case None => None
      case Some(k) => Scalar(k, x.text, lib)
  }

  predicate IsScalarKind(k: Kind) {
    k == TRUE || k == FALSE || k == NULL || k == INTEGER || k == FLOAT || k == STRING || k == INET
  }

  // ---------------------------------------------------------------- parse trees

  datatype Tree =
    | Leaf(x: Lexeme, ann: Option<Bytes>)
    | Elems(kids: seq<Tree>)
    | Fields(pairs: seq<Pair<Tree>>)

  /** Scalars convert, keys are short enough. */
  ghost predicate Legal(t: Tree, lib: Library)
    decreases t
  {
    match t
    case Leaf(x, ann) => x.Lexeme? && IsScalarKind(x.kind) && ScalarOf(x, ann, lib) != None
    case Elems(kids) => forall i :: 0 <= i < |kids| ==> Legal(kids[i], lib)
    case Fields(ps) => forall i :: 0 <= i < |ps| ==> |ps[i].key| <= OFFLENMASK && Legal(ps[i].value, lib)
  }

  /** The lexemes of a tree. */
  function Yield(t: Tree): seq<Lexeme>
    decreases t, 1, 0, 0
  {
    match t
    case Leaf(x, ann) => [x] + if ann == None then [] else [Mark(ANNOTATION), Lexeme(IDENTIFIER, ann.value)]
    case Elems(kids) => [Mark(ARRAY_START)] + (if kids == [] then [Mark(ARRAY_END)] else YieldElems(t, 0))
    case Fields(ps) => [Mark(OBJECT_START)] + (if ps == [] then [Mark(OBJECT_END)] else YieldFields(t, 0))
  }

  /** From element i on, up to the closing bracket. */
  function YieldElems(t: Tree, i: nat): seq<Lexeme>
    requires t.Elems? && i < |t.kids|
    decreases t, 0, |t.kids| - i, 1
  {
    YieldElem(t.kids[i]) + ElemsTail(t, i + 1)
  }

  function YieldElem(t: Tree): seq<Lexeme>
    decreases t, 2, 0, 0
  {
    Yield(t)
  }

  function ElemsTail(t: Tree, i: nat): (r: seq<Lexeme>)
    requires t.Elems? && i <= |t.kids|
    ensures r != [] && r[0].Lexeme? && r[0] != Mark(ANNOTATION)
    decreases t, 0, |t.kids| - i, 2
  {
    if i == |t.kids| then [Mark(ARRAY_END)] else [Mark(COMMA)] + YieldElems(t, i)
  }

  function YieldField(f: Pair<Tree>): seq<Lexeme>
    decreases f.value, 2, 0, 0
  {
    [Lexeme(STRING, f.key), Mark(COLON)] + Yield(f.value)
  }

  function YieldFields(t: Tree, i: nat): seq<Lexeme>
    requires t.Fields? && i < |t.pairs|
    decreases t, 0, |t.pairs| - i, 1
  {
    YieldField(t.pairs[i]) + FieldsTail(t, i + 1)
  }

  function FieldsTail(t: Tree, i: nat): (r: seq<Lexeme>)
    requires t.Fields? && i <= |t.pairs|
    ensures r != [] && r[0].Lexeme? && r[0] != Mark(ANNOTATION)
    decreases t, 0, |t.pairs| - i, 2
  {
    if i == |t.pairs| then [Mark(OBJECT_END)] else [Mark(COMMA)] + YieldFields(t, i)
  }

  /** The document a tree stands for, pairs in the order written. */
  function Meaning(t: Tree, lib: Library): Value
    decreases t, 1, 0
  {
    match t
    case Leaf(x, ann) => if x.Lexeme? && ScalarOf(x, ann, lib) != None then ScalarOf(x, ann, lib).value else Null
    case Elems(kids) => Arr(MeaningElems(t, |kids|, lib), false)
    case Fields(ps) => Obj(MeaningPairs(t, |ps|, lib))
  }

  function MeaningElems(t: Tree, k: nat, lib: Library): seq<Value>
    requires t.Elems? && k <= |t.kids|
    decreases t, 0, k
  {
    if k == 0 then [] else MeaningElems(t, k - 1, lib) + [Meaning(t.kids[k - 1], lib)]
  }

  function MeaningPairs(t: Tree, k: nat, lib: Library): seq<Pair<Value>>
    requires t.Fields? && k <= |t.pairs|
    decreases t, 0, k
  {
    if k == 0 then []
    else MeaningPairs(t, k - 1, lib) + [Pair(t.pairs[k - 1].key, Meaning(t.pairs[k - 1].value, lib))]
  }

  // ---------------------------------------------------------------- the recognizer

  datatype Parsed = Good(t: Tree, rest: seq<Lexeme>) | Fail

  /** Every accepted lexeme makes the lexer look at the next one, which may not be one. */
  predicate Ready(s: seq<Lexeme>) { s != [] && s[0].Lexeme? }

  predicate Starts(s: seq<Lexeme>, m: Kind) { s != [] && s[0] == Mark(m) && Ready(s[1..]) }

  function ParseScalar(s: seq<Lexeme>, lib: Library): (p: Parsed)
    requires Ready(s)
    ensures p.Good? ==> Ready(p.rest) && |p.rest| < |s|
  {
    var x, r := s[0], s[1..];
    if !IsScalarKind(x.kind) || !Ready(r) then Fail
    else if r[0] == Mark(ANNOTATION) then
      if Ready(r[1..]) && r[1].kind == IDENTIFIER && Ready(r[2..]) && ScalarOf(x, Some(r[1].text), lib) != None
      then Good(Leaf(x, Some(r[1].text)), r[2..]) else Fail
    else if ScalarOf(x, None, lib) != None then Good(Leaf(x, None), r) else Fail
  }

  function ParseValue(s: seq<Lexeme>, lib: Library): (p: Parsed)
    requires Ready(s)
    ensures p.Good? ==> Ready(p.rest) && |p.rest| < |s|
    decreases |s|, 1
  {
    if s[0] == Mark(OBJECT_START) then
      if !Starts(s, OBJECT_START) then Fail
      else if Starts(s[1..], OBJECT_END) then Good(Fields([]), s[2..])
      else ParseFields(s[1..], [], lib)
    else if s[0] == Mark(ARRAY_START) then
      if !Starts(s, ARRAY_START) then Fail
      else if Starts(s[1..], ARRAY_END) then Good(Elems([]), s[2..])
      else ParseElems(s[1..], [], lib)
    else ParseScalar(s, lib)
  }

  /** parse_array_element */
  function ParseElem(s: seq<Lexeme>, lib: Library): (p: Parsed)
    requires Ready(s)
    ensures p.Good? ==> Ready(p.rest) && |p.rest| < |s|
    decreases |s|, 2
  {
    ParseValue(s, lib)
  }

  function ParseElems(s: seq<Lexeme>, acc: seq<Tree>, lib: Library): (p: Parsed)
    requires Ready(s)
    ensures p.Good? ==> Ready(p.rest) && |p.rest| < |s|
    decreases |s|, 3
  {
    match ParseElem(s, lib)
    case Fail => Fail
    case Good(t, r) =>
      if Starts(r, COMMA) then ParseElems(r[1..], acc + [t], lib)
      else if Starts(r, ARRAY_END) then Good(Elems(acc + [t]), r[1..])
      else Fail
  }

  datatype ParsedField = GoodField(f: Pair<Tree>, rest: seq<Lexeme>) | NoField

  /** parse_object_field */
  function ParseField(s: seq<Lexeme>, lib: Library): (p: ParsedField)
    requires Ready(s)
    ensures p.GoodField? ==> Ready(p.rest) && |p.rest| < |s|
    decreases |s|, 2
  {
    if s[0].kind != STRING || !Starts(s[1..], COLON) || |s[0].text| > OFFLENMASK then NoField
    else match ParseValue(s[2..], lib)
      case Fail => NoField
      case Good(t, r) => GoodField(Pair(s[0].text, t), r)
  }

  function ParseFields(s: seq<Lexeme>, acc: seq<Pair<Tree>>, lib: Library): (p: Parsed)
    requires Ready(s)
    ensures p.Good? ==> Ready(p.rest) && |p.rest| < |s|
    decreases |s|, 3
  {
    match ParseField(s, lib)
    case NoField => Fail
    case GoodField(f, r) =>
      if Starts(r, COMMA) then ParseFields(r[1..], acc + [f], lib)
      else if Starts(r, OBJECT_END) then Good(Fields(acc + [f]), r[1..])
      else Fail
  }

  /** A whole text: one value and the end. */
  function ParseAll(s: seq<Lexeme>, lib: Library): Option<Tree> {
    if !Ready(s) then None
    else match ParseValue(s, lib)
      case Fail => None
      case Good(t, r) => if r[0].kind == END then Some(t) else None
  }

  // ---------------------------------------------------------------- recognizer and trees agree

  /** Whatever is recognized is the text of the tree returned, which is legal. */
  lemma {:induction false} Sound(s: seq<Lexeme>, lib: Library)
    requires Ready(s) && ParseValue(s, lib).Good?
    ensures var p := ParseValue(s, lib); s == Yield(p.t) + p.rest && Legal(p.t, lib)
    decreases |s|, 1
  {
    var p := ParseValue(s, lib);
    if s[0] == Mark(OBJECT_START) {
      if Starts(s[1..], OBJECT_END) {
        assert s == [s[0], s[1]] + s[2..];
      } else {
        SoundFields(s[1..], [], lib);
        assert s == [s[0]] + s[1..];
      }
    } else if s[0] == Mark(ARRAY_START) {
      if Starts(s[1..], ARRAY_END) {
        assert s == [s[0], s[1]] + s[2..];
      } else {
        SoundElems(s[1..], [], lib);
        assert s == [s[0]] + s[1..];
      }
    } else {
      SoundScalar(s, lib);
    }
  }

  lemma SoundScalar(s: seq<Lexeme>, lib: Library)
    requires Ready(s) && ParseScalar(s, lib).Good?
    ensures var p := ParseScalar(s, lib); s == Yield(p.t) + p.rest && Legal(p.t, lib)
  {
    var r := s[1..];
    if r[0] == Mark(ANNOTATION) {
      assert s == [s[0], s[1], s[2]] + s[3..];
      assert s[2] == Lexeme(IDENTIFIER, r[1].text);
      assert r[2..] == s[3..];
    } else {
      assert s == [s[0]] + r;
    }
  }

  lemma {:induction false} SoundElem(s: seq<Lexeme>, lib: Library)
    requires Ready(s) && ParseElem(s, lib).Good?
    ensures var p := ParseElem(s, lib); s == YieldElem(p.t) + p.rest && Legal(p.t, lib)
    decreases |s|, 2
  {
    Sound(s, lib);
  }

  lemma JoinElems(t: Tree, i: nat, s: seq<Lexeme>, q: seq<Lexeme>, r: seq<Lexeme>)
    requires t.Elems? && i < |t.kids| && s == YieldElem(t.kids[i]) + q && q != []
    requires i + 1 == |t.kids| ==> q[0] == Mark(ARRAY_END) && q[1..] == r
    requires i + 1 < |t.kids| ==> q[0] == Mark(COMMA) && q[1..] == YieldElems(t, i + 1) + r
    ensures s == YieldElems(t, i) + r
  {
    assert q == [q[0]] + q[1..];
    assert q == ElemsTail(t, i + 1) + r;
  }

  lemma JoinFields(t: Tree, i: nat, s: seq<Lexeme>, q: seq<Lexeme>, r: seq<Lexeme>)
    requires t.Fields? && i < |t.pairs| && s == YieldField(t.pairs[i]) + q && q != []
    requires i + 1 == |t.pairs| ==> q[0] == Mark(OBJECT_END) && q[1..] == r
    requires i + 1 < |t.pairs| ==> q[0] == Mark(COMMA) && q[1..] == YieldFields(t, i + 1) + r
    ensures s == YieldFields(t, i) + r
  {
    assert q == [q[0]] + q[1..];
    assert q == FieldsTail(t, i + 1) + r;
  }

  lemma {:induction false} SoundElems(s: seq<Lexeme>, acc: seq<Tree>, lib: Library)
    requires Ready(s) && ParseElems(s, acc, lib).Good?
    requires forall i :: 0 <= i < |acc| ==> Legal(acc[i], lib)
    ensures var p := ParseElems(s, acc, lib);
      && p.t.Elems? && |acc| < |p.t.kids| && acc <= p.t.kids && Legal(p.t, lib)
      && s == YieldElems(p.t, |acc|) + p.rest
    decreases |s|, 3
  {
    var q := ParseElem(s, lib);
    SoundElem(s, lib);
    var p := ParseElems(s, acc, lib);
    var acc' := acc + [q.t];
    if Starts(q.rest, COMMA) {
      SoundElems(q.rest[1..], acc', lib);
      assert p.t.kids[|acc|] == acc'[|acc|];
    }
    JoinElems(p.t, |acc|, s, q.rest, p.rest);
  }

  lemma {:induction false} SoundField(s: seq<Lexeme>, lib: Library)
    requires Ready(s) && ParseField(s, lib).GoodField?
    ensures var p := ParseField(s, lib);
      s == YieldField(p.f) + p.rest && |p.f.key| <= OFFLENMASK && Legal(p.f.value, lib)
    decreases |s|, 2
  {
    Sound(s[2..], lib);
    var q := ParseValue(s[2..], lib);
    JoinField(s, Pair(s[0].text, q.t), q.rest);
  }

  lemma JoinField(s: seq<Lexeme>, f: Pair<Tree>, r: seq<Lexeme>)
    requires |s| >= 2 && s[0] == Lexeme(STRING, f.key) && s[1] == Mark(COLON) && s[2..] == Yield(f.value) + r
    ensures s == YieldField(f) + r
  {
    assert s == [s[0], s[1]] + s[2..];
  }

  lemma {:induction false} SoundFields(s: seq<Lexeme>, acc: seq<Pair<Tree>>, lib: Library)
    requires Ready(s) && ParseFields(s, acc, lib).Good?
    requires forall i :: 0 <= i < |acc| ==> |acc[i].key| <= OFFLENMASK && Legal(acc[i].value, lib)
    ensures var p := ParseFields(s, acc, lib);
      && p.t.Fields? && |acc| < |p.t.pairs| && acc <= p.t.pairs && Legal(p.t, lib)
      && s == YieldFields(p.t, |acc|) + p.rest
    decreases |s|, 3
  {
    var q := ParseField(s, lib);
    SoundField(s, lib);
    var p := ParseFields(s, acc, lib);
    var acc' := acc + [q.f];
    if Starts(q.rest, COMMA) {
      SoundFields(q.rest[1..], acc', lib);
      assert p.t.pairs[|acc|] == acc'[|acc|];
    }
    JoinFields(p.t, |acc|, s, q.rest, p.rest);
  }

  /** Every legal tree's text is recognized as that tree, so no text has two trees. */
  lemma {:induction false} Complete(t: Tree, r: seq<Lexeme>, lib: Library)
    requires Legal(t, lib) && Ready(r) && r[0] != Mark(ANNOTATION)
    ensures Ready(Yield(t) + r) && ParseValue(Yield(t) + r, lib) == Good(t, r)
    decreases t, 1, 1
  {
    match t
    case Leaf(x, ann) => CompleteLeaf(x, ann, r, lib);
    case Elems(_) => CompleteArray(t, r, lib);
    case Fields(_) => CompleteObject(t, r, lib);
  }

  lemma Front(x: Lexeme, y: seq<Lexeme>, r: seq<Lexeme>)
    ensures var s := ([x] + y) + r; s == [x] + (y + r) && s[0] == x && s[1..] == y + r
  {
  }

  lemma Last(x: Lexeme, r: seq<Lexeme>)
    ensures ([x] + r)[0] == x && ([x] + r)[1..] == r
  {
  }

  lemma {:induction false} CompleteArray(t: Tree, r: seq<Lexeme>, lib: Library)
    requires t.Elems? && Legal(t, lib) && Ready(r)
    ensures Ready(Yield(t) + r) && ParseValue(Yield(t) + r, lib) == Good(t, r)
    decreases t, 1, 0
  {
    if t.kids == [] {
      Front(Mark(ARRAY_START), [Mark(ARRAY_END)], r);
      Last(Mark(ARRAY_END), r);
      assert (Yield(t) + r)[2..] == r;
    } else {
      CompleteElems(t, 0, r, lib);
      Front(Mark(ARRAY_START), YieldElems(t, 0), r);
      assert t.kids[..0] == [];
    }
  }

  lemma {:induction false} CompleteObject(t: Tree, r: seq<Lexeme>, lib: Library)
    requires t.Fields? && Legal(t, lib) && Ready(r)
    ensures Ready(Yield(t) + r) && ParseValue(Yield(t) + r, lib) == Good(t, r)
    decreases t, 1, 0
  {
    if t.pairs == [] {
      Front(Mark(OBJECT_START), [Mark(OBJECT_END)], r);
      Last(Mark(OBJECT_END), r);
      assert (Yield(t) + r)[2..] == r;
    } else {
      CompleteFields(t, 0, r, lib);
      Front(Mark(OBJECT_START), YieldFields(t, 0), r);
      assert t.pairs[..0] == [];
    }
  }

  lemma CompleteLeaf(x: Lexeme, ann: Option<Bytes>, r: seq<Lexeme>, lib: Library)
    requires Legal(Leaf(x, ann), lib) && Ready(r) && r[0] != Mark(ANNOTATION)
    ensures Ready(Yield(Leaf(x, ann)) + r) && ParseValue(Yield(Leaf(x, ann)) + r, lib) == Good(Leaf(x, ann), r)
  {
    var s := Yield(Leaf(x, ann)) + r;
    if ann == None {
      assert s[1..] == r;
    } else {
      assert s[1] == Mark(ANNOTATION) && s[2] == Lexeme(IDENTIFIER, ann.value);
      assert s[1..][1..] == s[2..] && s[1..][2..] == s[3..] == r;
    }
  }

  /** A tree's text begins neither with a closing mark nor with an annotation. */
  lemma YieldHead(t: Tree, lib: Library)
    requires Legal(t, lib)
    ensures Yield(t) != [] && Yield(t)[0].Lexeme?
    ensures var k := Yield(t)[0].kind; IsScalarKind(k) || k == ARRAY_START || k == OBJECT_START
  {
  }

  lemma {:induction false} CompleteElem(t: Tree, r: seq<Lexeme>, lib: Library)
    requires Legal(t, lib) && Ready(r) && r[0] != Mark(ANNOTATION)
    ensures Ready(YieldElem(t) + r) && !Starts(YieldElem(t) + r, ARRAY_END)
    ensures ParseElem(YieldElem(t) + r, lib) == Good(t, r)
    decreases t, 2, 0
  {
    YieldHead(t, lib);
    Complete(t, r, lib);
  }

  lemma {:induction false} CompleteElems(t: Tree, i: nat, r: seq<Lexeme>, lib: Library)
    requires t.Elems? && i < |t.kids| && Legal(t, lib) && Ready(r)
    ensures Ready(YieldElems(t, i) + r) && !Starts(YieldElems(t, i) + r, ARRAY_END)
    ensures ParseElems(YieldElems(t, i) + r, t.kids[..i], lib) == Good(t, r)
    decreases t, 0, |t.kids| - i
  {
    var kid, n, tail := t.kids[i], |t.kids|, ElemsTail(t, i + 1);
    CompleteElem(kid, tail + r, lib);
    Associate(YieldElem(kid), tail, r);
    Taken(t.kids, i);
    if i + 1 == n {
      Last(Mark(ARRAY_END), r);
    } else {
      Front(Mark(COMMA), YieldElems(t, i + 1), r);
      CompleteElems(t, i + 1, r, lib);
    }
  }

  lemma Taken<T>(s: seq<T>, i: nat)
    requires i < |s|
    ensures s[..i + 1] == s[..i] + [s[i]] && s[..|s|] == s
  {
  }

  lemma {:induction false} CompleteField(f: Pair<Tree>, r: seq<Lexeme>, lib: Library)
    requires |f.key| <= OFFLENMASK && Legal(f.value, lib) && Ready(r) && r[0] != Mark(ANNOTATION)
    ensures Ready(YieldField(f) + r) && !Starts(YieldField(f) + r, OBJECT_END)
    ensures ParseField(YieldField(f) + r, lib) == GoodField(f, r)
    decreases f.value, 2, 0
  {
    var s := YieldField(f) + r;
    Complete(f.value, r, lib);
    assert s[2..] == Yield(f.value) + r;
    assert s[1..] == [Mark(COLON)] + s[2..];
    assert s[1..][1..] == s[2..];
  }

  lemma {:induction false} CompleteFields(t: Tree, i: nat, r: seq<Lexeme>, lib: Library)
    requires t.Fields? && i < |t.pairs| && Legal(t, lib) && Ready(r)
    ensures Ready(YieldFields(t, i) + r) && !Starts(YieldFields(t, i) + r, OBJECT_END)
    ensures ParseFields(YieldFields(t, i) + r, t.pairs[..i], lib) == Good(t, r)
    decreases t, 0, |t.pairs| - i
  {
    var f, n, tail := t.pairs[i], |t.pairs|, FieldsTail(t, i + 1);
    CompleteField(f, tail + r, lib);
    Associate(YieldField(f), tail, r);
    Taken(t.pairs, i);
    if i + 1 == n {
      Last(Mark(OBJECT_END), r);
    } else {
      Front(Mark(COMMA), YieldFields(t, i + 1), r);
      CompleteFields(t, i + 1, r, lib);
    }
  }

  /** A text is accepted exactly when it is the text of a legal tree, and then the tree is that one. */
  lemma AcceptedIff(s: seq<Lexeme>, t: Tree, lib: Library)
    requires forall i :: 0 <= i < |s| && s[i].Lexeme? && s[i].kind == END ==> i == |s| - 1
    ensures ParseAll(s, lib) == Some(t) <==>
      Legal(t, lib) && s != [] && s[|s| - 1].Lexeme? && s[|s| - 1].kind == END && s[..|s| - 1] == Yield(t)
  {
    if ParseAll(s, lib) == Some(t) {
      Sound(s, lib);
      var r := ParseValue(s, lib).rest;
      assert s[|s| - |r|] == r[0];
      assert s[..|s| - 1] == Yield(t);
    }
    if Legal(t, lib) && s != [] && s[|s| - 1].Lexeme? && s[|s| - 1].kind == END && s[..|s| - 1] == Yield(t) {
      var r := [s[|s| - 1]];
      assert s == Yield(t) + r;
      Complete(t, r, lib);
    }
  }
}
