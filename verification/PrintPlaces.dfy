/** Where a scalar's text stands in the text of a whole value. */
module PrintPlaces {
  import opened Common
  import opened GtypeKeys
  import opened GtypeValue
  import opened LexRules
  import opened Printer

  // ---------------------------------------------------------------- containers

  /** Texts separated by a comma and a blank: the first, and what follows one. */
  function Joined(texts: seq<Bytes>): Bytes {
    if texts == [] then [] else texts[0] + Following(texts[1..])
  }

  function Following(texts: seq<Bytes>): Bytes {
    if texts == [] then [] else [44, 32] + texts[0] + Following(texts[1..])
  }

  function ElemTexts(v: Value, show: Display): (r: seq<Bytes>)
    requires v.Arr?
    ensures |r| == |v.elems| && forall i :: 0 <= i < |r| ==> r[i] == TextOf(v.elems[i], show)
  {
    seq(|v.elems|, i requires 0 <= i < |v.elems| => TextOf(v.elems[i], show))
  }

  /** A key's literal, a colon and a blank, the value. */
  function PairTexts(v: Value, show: Display): (r: seq<Bytes>)
    requires v.Obj?
    ensures |r| == |v.pairs|
    ensures forall i :: 0 <= i < |r| ==> r[i] == KeyText(v.pairs[i].key) + TextOf(v.pairs[i].value, show)
  {
    seq(|v.pairs|, i requires 0 <= i < |v.pairs| => KeyText(v.pairs[i].key) + TextOf(v.pairs[i].value, show))
  }

  function KeyText(key: Bytes): Bytes { Escape(CString(key)) + [58, 32] }

  lemma {:induction false} ElemsFollow(v: Value, i: nat, show: Display)
    requires v.Arr? && i <= |v.elems|
    ensures ElemsText(v, i, false, show) == Following(ElemTexts(v, show)[i..]) + [93]
    decreases |v.elems| - i
  {
    var rest := ElemTexts(v, show)[i..];
    if i < |v.elems| {
      ElemsFollow(v, i + 1, show);
      assert rest[1..] == ElemTexts(v, show)[i + 1..] && rest[0] == TextOf(v.elems[i], show);
      Associate([44, 32] + rest[0], Following(rest[1..]), [93]);
    } else {
      assert [] + [93] == [93];
    }
  }

  lemma {:induction false} PairsFollow(v: Value, i: nat, show: Display)
    requires v.Obj? && i <= |v.pairs|
    ensures PairsText(v, i, false, show) == Following(PairTexts(v, show)[i..]) + [125]
    decreases |v.pairs| - i
  {
    var rest := PairTexts(v, show)[i..];
    if i < |v.pairs| {
      PairsFollow(v, i + 1, show);
      assert rest[1..] == PairTexts(v, show)[i + 1..];
      PairHeadIs(v.pairs[i].key, false);
      Associate([44, 32], KeyText(v.pairs[i].key), TextOf(v.pairs[i].value, show));
      Associate([44, 32] + rest[0], Following(rest[1..]), [125]);
    } else {
      assert [] + [125] == [125];
    }
  }

  lemma PairHeadIs(key: Bytes, first: bool)
    ensures PairHead(key, first) == (if first then [] else [44, 32]) + KeyText(key)
  {
    Associate(Separator(first), Escape(CString(key)), COLON_SPACE);
  }

  /** A root array around a bare scalar is printed as that scalar. */
  predicate Bare(v: Value) { v.Arr? && v.raw && |v.elems| == 1 && !IsContainer(v.elems[0]) }

  /** An array is its elements' texts in brackets, in order. */
  lemma ArrayText(v: Value, show: Display)
    requires v.Arr? && !Bare(v)
    ensures TextOf(v, show) == [91] + (Joined(ElemTexts(v, show)) + [93])
  {
    var texts := ElemTexts(v, show);
    if v.elems == [] {
      assert [] + [93] == [93];
    } else {
      ElemsFollow(v, 1, show);
      assert [] + texts[0] == texts[0];
      Associate(texts[0], Following(texts[1..]), [93]);
    }
  }

  /** An object is its pairs' texts in braces, in order. */
  lemma ObjectText(v: Value, show: Display)
    requires v.Obj?
    ensures TextOf(v, show) == [123] + (Joined(PairTexts(v, show)) + [125])
  {
    var texts := PairTexts(v, show);
    if v.pairs == [] {
      assert [] + [125] == [125];
    } else {
      PairsFollow(v, 1, show);
      PairHeadIs(v.pairs[0].key, true);
      assert [] + KeyText(v.pairs[0].key) == KeyText(v.pairs[0].key);
      Associate(texts[0], Following(texts[1..]), [125]);
    }
  }

  // ---------------------------------------------------------------- one place

  /** The way from a value down to a scalar: positions of elements and of pairs. */
  type Path = seq<nat>

  predicate Leads(v: Value, path: Path)
    decreases |path|
  {
    if path == [] then !IsContainer(v)
    else match v
      case Arr(es, raw) => path[0] < |es| && Leads(es[path[0]], path[1..])
      case Obj(ps) => path[0] < |ps| && Leads(ps[path[0]].value, path[1..])
      case _ => false
  }

  /** The value with another scalar at that place. */
  function With(v: Value, path: Path, c: Value): Value
    requires Leads(v, path)
    decreases |path|
  {
    if path == [] then c
    else if v.Arr? then Arr(v.elems[path[0] := With(v.elems[path[0]], path[1..], c)], v.raw)
    else Obj(v.pairs[path[0] := Pair(v.pairs[path[0]].key, With(v.pairs[path[0]].value, path[1..], c))])
  }

  function Preceding(texts: seq<Bytes>): Bytes { if texts == [] then [] else Joined(texts) + [44, 32] }

  /** What is written before the place: brackets, braces, everything that precedes it, and its keys. */
  function Before(v: Value, path: Path, show: Display): Bytes
    requires Leads(v, path)
    decreases |path|
  {
    if path == [] || Bare(v) then []
    else if v.Arr? then [91] + (Preceding(ElemTexts(v, show)[..path[0]]) + Before(v.elems[path[0]], path[1..], show))
    else [123] + (Preceding(PairTexts(v, show)[..path[0]]) + (KeyText(v.pairs[path[0]].key) + Before(v.pairs[path[0]].value, path[1..], show)))
  }

  function Behind(v: Value, path: Path, show: Display): Bytes
    requires Leads(v, path)
    decreases |path|
  {
    if path == [] || Bare(v) then []
    else if v.Arr? then Behind(v.elems[path[0]], path[1..], show) + (Following(ElemTexts(v, show)[path[0] + 1..]) + [93])
    else Behind(v.pairs[path[0]].value, path[1..], show) + (Following(PairTexts(v, show)[path[0] + 1..]) + [125])
  }

  lemma {:induction false} FollowingSplit(a: seq<Bytes>, x: Bytes, b: seq<Bytes>)
    ensures Following(a + [x] + b) == Following(a) + ([44, 32] + x) + Following(b)
    decreases |a|
  {
    var all := a + [x] + b;
    if a == [] {
      assert all[0] == x && all[1..] == b;
      assert Following([]) + ([44, 32] + x) == [44, 32] + x;
    } else {
      FollowingSplit(a[1..], x, b);
      assert all[0] == a[0] && all[1..] == a[1..] + [x] + b;
      Associate([44, 32] + a[0], Following(a[1..]), [44, 32] + x);
      Associate([44, 32] + a[0], Following(a[1..]) + ([44, 32] + x), Following(b));
    }
  }

  lemma JoinedSplit(a: seq<Bytes>, x: Bytes, b: seq<Bytes>)
    ensures Joined(a + [x] + b) == Preceding(a) + x + Following(b)
  {
    var all := a + [x] + b;
    if a == [] {
      assert all[0] == x && all[1..] == b;
      assert [] + x == x;
    } else {
      FollowingSplit(a[1..], x, b);
      assert all[0] == a[0] && all[1..] == a[1..] + [x] + b;
      Associate(a[0], Following(a[1..]), [44, 32] + x);
      Associate(a[0] + Following(a[1..]), [44, 32], x);
      Associate(a[0], Following(a[1..]) + ([44, 32] + x), Following(b));
    }
  }

  lemma Wrapped(open: Bytes, before: Bytes, b: Bytes, t: Bytes, e: Bytes, behind: Bytes, close: Bytes)
    ensures open + (before + (b + t + e) + behind + close) == (open + (before + b)) + t + (e + (behind + close))
  {
    assert (before + (b + t + e)) == (before + b) + t + e;
  }

  /** The text of an element or pair between the others. */
  lemma TextsWith(texts: seq<Bytes>, i: nat, x: Bytes)
    requires i < |texts|
    ensures Joined(texts[i := x]) == Preceding(texts[..i]) + x + Following(texts[i + 1..])
  {
    assert texts[i := x] == texts[..i] + [x] + texts[i + 1..];
    JoinedSplit(texts[..i], x, texts[i + 1..]);
  }

  /** The scalar's text stands between the two, whatever scalar is put there. */
  lemma {:induction false} TextInPlace(v: Value, path: Path, c: Value, show: Display)
    requires Leads(v, path) && !IsContainer(c)
    ensures TextOf(With(v, path, c), show) == Before(v, path, show) + ScalarText(c, show) + Behind(v, path, show)
    decreases |path|
  {
    var t := ScalarText(c, show);
    if path == [] {
      assert [] + t + [] == t;
    } else if v.Arr? {
      ElemInPlace(v, path, c, show);
    } else {
      PairInPlace(v, path, c, show);
    }
  }

  /** A container's text around the text of one member. */
  lemma Assemble(open: Bytes, texts: seq<Bytes>, i: nat, b: Bytes, t: Bytes, e: Bytes, close: Bytes)
    requires i < |texts|
    ensures open + (Joined(texts[i := b + t + e]) + close)
      == (open + (Preceding(texts[..i]) + b)) + t + (e + (Following(texts[i + 1..]) + close))
  {
    TextsWith(texts, i, b + t + e);
    Wrapped(open, Preceding(texts[..i]), b, t, e, Following(texts[i + 1..]), close);
  }

  lemma ElemTextsWith(v: Value, path: Path, c: Value, x: Bytes, show: Display)
    requires Leads(v, path) && path != [] && v.Arr? && TextOf(With(v.elems[path[0]], path[1..], c), show) == x
    ensures With(v, path, c).Arr? && ElemTexts(With(v, path, c), show) == ElemTexts(v, show)[path[0] := x]
  {
  }

  lemma PairTextsWith(v: Value, path: Path, c: Value, x: Bytes, show: Display)
    requires Leads(v, path) && path != [] && v.Obj? && TextOf(With(v.pairs[path[0]].value, path[1..], c), show) == x
    ensures With(v, path, c).Obj?
    ensures PairTexts(With(v, path, c), show) == PairTexts(v, show)[path[0] := KeyText(v.pairs[path[0]].key) + x]
  {
  }

  lemma BareWith(v: Value, path: Path, c: Value, show: Display)
    requires Leads(v, path) && path != [] && Bare(v) && !IsContainer(c)
    ensures TextOf(With(v, path, c), show) == ScalarText(c, show)
  {
    assert path[0] == 0 && path[1..] == [];
    assert With(v, path, c).elems[0] == c;
  }

  lemma {:induction false} ElemInPlace(v: Value, path: Path, c: Value, show: Display)
    requires Leads(v, path) && !IsContainer(c) && path != [] && v.Arr?
    ensures TextOf(With(v, path, c), show) == Before(v, path, show) + ScalarText(c, show) + Behind(v, path, show)
    decreases |path|, 0
  {
    var t := ScalarText(c, show);
    if Bare(v) {
      BareWith(v, path, c, show);
      assert [] + t + [] == t;
    } else {
      var kid, rest := v.elems[path[0]], path[1..];
      StillNotBare(v, path, c);
      TextInPlace(kid, rest, c, show);
      ArrayText(With(v, path, c), show);
      ElemTextsWith(v, path, c, Before(kid, rest, show) + t + Behind(kid, rest, show), show);
      Assemble([91], ElemTexts(v, show), path[0], Before(kid, rest, show), t, Behind(kid, rest, show), [93]);
    }
  }

  lemma StillNotBare(v: Value, path: Path, c: Value)
    requires Leads(v, path) && path != [] && v.Arr? && !Bare(v) && !IsContainer(c)
    ensures !Bare(With(v, path, c))
  {
    if path[1..] != [] { assert IsContainer(v.elems[path[0]]); }
  }

  lemma {:induction false} PairInPlace(v: Value, path: Path, c: Value, show: Display)
    requires Leads(v, path) && !IsContainer(c) && path != [] && v.Obj?
    ensures TextOf(With(v, path, c), show) == Before(v, path, show) + ScalarText(c, show) + Behind(v, path, show)
    decreases |path|, 0
  {
    var kid, rest := v.pairs[path[0]].value, path[1..];
    TextInPlace(kid, rest, c, show);
    PairAround(v, path, c, Before(kid, rest, show), ScalarText(c, show), Behind(kid, rest, show), show);
  }

  lemma PairAround(v: Value, path: Path, c: Value, b: Bytes, t: Bytes, e: Bytes, show: Display)
    requires Leads(v, path) && path != [] && v.Obj? && TextOf(With(v.pairs[path[0]].value, path[1..], c), show) == b + t + e
    ensures var texts, key := PairTexts(v, show), KeyText(v.pairs[path[0]].key);
      TextOf(With(v, path, c), show) ==
        ([123] + (Preceding(texts[..path[0]]) + (key + b))) + t + (e + (Following(texts[path[0] + 1..]) + [125]))
  {
    var key := KeyText(v.pairs[path[0]].key);
    PairTextsWith(v, path, c, b + t + e, show);
    ObjectText(With(v, path, c), show);
    KeyFirst(key, b, t, e);
    Assemble([123], PairTexts(v, show), path[0], key + b, t, e, [125]);
  }

  lemma KeyFirst(key: Bytes, b: Bytes, t: Bytes, e: Bytes)
    ensures key + (b + t + e) == key + b + t + e
  {
  }

  /** A library value is printed as the library shows it, at its place, at every nesting; so two that the
      library shows differently make different texts. */
  lemma ShownInPlace(v: Value, path: Path, c: Value, d: Value, show: Display)
    requires Leads(v, path) && (c.Num? || (c.Ext? && c.tag != 0)) && (d.Num? || (d.Ext? && d.tag != 0))
    ensures TextOf(With(v, path, c), show) == Before(v, path, show) + show(c) + Behind(v, path, show)
    ensures TextOf(With(v, path, c), show) == TextOf(With(v, path, d), show) <==> show(c) == show(d)
  {
    TextInPlace(v, path, c, show);
    TextInPlace(v, path, d, show);
    Cancel(Before(v, path, show), show(c), show(d), Behind(v, path, show));
  }

  lemma Cancel(a: Bytes, x: Bytes, y: Bytes, b: Bytes)
    ensures a + x + b == a + y + b <==> x == y
  {
    if a + x + b == a + y + b {
      assert |x| == |y|;
      forall i | 0 <= i < |x| ensures x[i] == y[i] { assert (a + x + b)[|a| + i] == (a + y + b)[|a| + i]; }
    }
  }
}
