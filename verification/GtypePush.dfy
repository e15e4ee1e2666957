/** The parse state: containers under construction, fed by tokens. */
module GtypePush {
  import opened Common
  import opened GtypeEntry
  import opened GtypeKeys
  import opened GtypeValue
  import opened GtypeEncode
  import opened GtypeIterate

  /** A container being built; an object also holds the key of the pair being filled. */
  datatype Part = PArr(elems: seq<Value>, raw: bool) | PObj(pairs: seq<Pair<Value>>, key: Bytes)

  /** The stack, innermost part last, and what the last push returned. `Stuck` is a failed assertion
      or a push to an empty stack. */
  datatype Build = Build(stack: seq<Part>, res: Option<Value>) | Stuck

  function Append(stack: seq<Part>, v: Value): seq<Part>
    requires stack != []
  {
    var n := |stack| - 1;
    match stack[n]
    case PArr(es, raw) => stack[..n] + [PArr(es + [v], raw)]
    case PObj(ps, key) => stack[..n] + [PObj(ps + [Pair(key, v)], key)]
  }

  function Finished(p: Part): Value {
    match p
    case PArr(es, raw) => Arr(es, raw)
    case PObj(ps, _) => Obj(Normalize(ps))
  }

  /** An array's end closes whatever is open, and leaves the pairs of an object as they came. */
  function AsBuilt(p: Part): Value {
    match p
    case PArr(es, raw) => Arr(es, raw)
    case PObj(ps, _) => Obj(ps)
  }

  /** Pop a finished container into its parent. */
  function Close(stack: seq<Part>, v: Value): Build {
    Build(if stack == [] then [] else Append(stack, v), Some(v))
  }

  /** One push. */
  function Step(b: Build, tok: Token): Build {
    if b.Stuck? then Stuck else
    var s, n := b.stack, |b.stack| - 1;
    match tok
    case BeginArray(_, raw) => Build(s + [PArr([], raw)], None)
    case BeginObject(_) => Build(s + [PObj([], [])], None)
    case Key(k) => if s != [] && s[n].PObj? then Build(s[..n] + [s[n].(key := k)], None) else Stuck
    case Val(v) => if s != [] && s[n].PObj? && !IsContainer(v) then Build(Append(s, v), None) else Stuck
    case Elem(v) => if s != [] && s[n].PArr? && !IsContainer(v) then Build(Append(s, v), None) else Stuck
    case EndObject => if s != [] && s[n].PObj? then Close(s[..n], Finished(s[n])) else Stuck
    case EndArray => if s != [] then Close(s[..n], AsBuilt(s[n])) else Stuck
    case Done => Stuck
  }

  function Run(b: Build, toks: seq<Token>): Build
    decreases |toks|
  {
    if toks == [] then b else Run(Step(b, toks[0]), toks[1..])
  }

  lemma {:induction false} RunConcat(b: Build, x: seq<Token>, y: seq<Token>)
    ensures Run(b, x + y) == Run(Run(b, x), y)
    decreases |x|
  {
    if x == [] {
      assert x + y == y;
    } else {
      assert (x + y)[0] == x[0] && (x + y)[1..] == x[1..] + y;
      RunConcat(Step(b, x[0]), x[1..], y);
    }
  }

  lemma RunCons(b: Build, t: Token, y: seq<Token>)
    ensures Run(b, [t] + y) == Run(Step(b, t), y)
  {
    assert ([t] + y)[1..] == y;
  }

  // ---------------------------------------------------------------- what the tokens of a value build

  /** Every object normalised, innermost first. */
  function Norm(v: Value): Value
    decreases v, 1, 0
  {
    match v
    case Arr(es, raw) => Arr(NormElems(v, |es|), raw)
    case Obj(ps) => Obj(Normalize(NormPairs(v, |ps|)))
    case _ => v
  }

  function NormElems(v: Value, k: nat): seq<Value>
    requires v.Arr? && k <= |v.elems|
    decreases v, 0, k
  {
    if k == 0 then [] else NormElems(v, k - 1) + [Norm(v.elems[k - 1])]
  }

  function NormPairs(v: Value, k: nat): seq<Pair<Value>>
    requires v.Obj? && k <= |v.pairs|
    decreases v, 0, k
  {
    if k == 0 then []
    else NormPairs(v, k - 1) + [Pair(v.pairs[k - 1].key, Norm(v.pairs[k - 1].value))]
  }

  /** Every object strictly increasing by (length, bytes). */
  ghost predicate Sorted(v: Value)
    decreases v
  {
    match v
    case Arr(es, _) => forall i :: 0 <= i < |es| ==> Sorted(es[i])
    case Obj(ps) => Increasing(ps) && forall i :: 0 <= i < |ps| ==> Sorted(ps[i].value)
    case _ => true
  }

  lemma {:induction false} SortedNorm(v: Value)
    requires Sorted(v)
    ensures Norm(v) == v
    decreases v
  {
    match v
    case Arr(es, raw) =>
      forall i | 0 <= i < |es| ensures Norm(es[i]) == es[i] { SortedNorm(es[i]); }
      SameElems(v, |es|);
    case Obj(ps) =>
      forall i | 0 <= i < |ps| ensures Norm(ps[i].value) == ps[i].value { SortedNorm(ps[i].value); }
      SamePairs(v, |ps|);
      assert ps[..|ps|] == ps;
      NormalizeStable(ps);
    case _ =>
  }

  lemma {:induction false} SameElems(v: Value, k: nat)
    requires v.Arr? && k <= |v.elems| && forall i :: 0 <= i < |v.elems| ==> Norm(v.elems[i]) == v.elems[i]
    ensures NormElems(v, k) == v.elems[..k]
  {
    if k > 0 { SameElems(v, k - 1); }
  }

  lemma {:induction false} SamePairs(v: Value, k: nat)
    requires v.Obj? && k <= |v.pairs|
    requires forall i :: 0 <= i < |v.pairs| ==> Norm(v.pairs[i].value) == v.pairs[i].value
    ensures NormPairs(v, k) == v.pairs[..k]
  {
    if k > 0 { SamePairs(v, k - 1); }
  }

  /** Normalising leaves no object out of order, so normalising again changes nothing. */
  lemma {:induction false} NormSorted(v: Value)
    ensures Sorted(Norm(v))
    decreases v
  {
    match v
    case Arr(es, raw) =>
      forall i | 0 <= i < |es| ensures Sorted(Norm(es[i])) { NormSorted(es[i]); }
      ElemsOf(v, |es|);
    case Obj(ps) =>
      forall i | 0 <= i < |ps| ensures Sorted(Norm(ps[i].value)) { NormSorted(ps[i].value); }
      PairsOf(v, |ps|);
      var qs := NormPairs(v, |ps|);
      NormalizeIs(qs);
      forall i | 0 <= i < |Normalize(qs)| ensures Sorted(Normalize(qs)[i].value) {
        assert Normalize(qs)[i] in Normalize(qs);
        assert LastOf(qs, Normalize(qs)[i]);
      }
    case _ =>
  }

  lemma {:induction false} ElemsOf(v: Value, k: nat)
    requires v.Arr? && k <= |v.elems|
    ensures |NormElems(v, k)| == k && forall i :: 0 <= i < k ==> NormElems(v, k)[i] == Norm(v.elems[i])
  {
    if k > 0 { ElemsOf(v, k - 1); }
  }

  lemma {:induction false} PairsOf(v: Value, k: nat)
    requires v.Obj? && k <= |v.pairs|
    ensures |NormPairs(v, k)| == k
    ensures forall i :: 0 <= i < k ==> NormPairs(v, k)[i] == Pair(v.pairs[i].key, Norm(v.pairs[i].value))
  {
    if k > 0 { PairsOf(v, k - 1); }
  }

  /** Pushing the tokens of a container closes it, normalised, into whatever was open. */
  lemma {:induction false} Rebuild(v: Value, s: seq<Part>, r: Option<Value>)
    requires IsContainer(v)
    ensures Run(Build(s, r), Tokens(v)) == Close(s, Norm(v))
    decreases v, 1, 0
  {
    if v.Arr? {
      RunCons(Build(s, r), BeginArray(|v.elems|, v.raw), ElemTokens(v, 0));
      RebuildElems(v, 0, s, None);
    } else {
      RunCons(Build(s, r), BeginObject(|v.pairs|), PairTokens(v, 0));
      RebuildPairs(v, 0, s, [], None);
    }
  }

  lemma Appends(s: seq<Part>, p: Part, c: Value)
    ensures Append(s + [p], c) == s + [if p.PArr? then PArr(p.elems + [c], p.raw) else PObj(p.pairs + [Pair(p.key, c)], p.key)]
  {
    assert (s + [p])[..|s|] == s;
  }

  /** One element or value, container or scalar. */
  lemma {:induction false} RebuildItem(c: Value, s: seq<Part>, p: Part, r: Option<Value>)
    ensures var b := Run(Build(s + [p], r), Item(c, p.PArr?)); b.Build? && b.stack == Append(s + [p], Norm(c))
    decreases c, 2, 0
  {
    if IsContainer(c) {
      Rebuild(c, s + [p], r);
    } else {
      RunCons(Build(s + [p], r), if p.PArr? then Elem(c) else Val(c), []);
    }
  }

  lemma {:induction false} RebuildElems(v: Value, i: nat, s: seq<Part>, r: Option<Value>)
    requires v.Arr? && i <= |v.elems|
    ensures Run(Build(s + [PArr(NormElems(v, i), v.raw)], r), ElemTokens(v, i)) == Close(s, Norm(v))
    decreases v, 0, |v.elems| - i
  {
    var p := PArr(NormElems(v, i), v.raw);
    var b := Build(s + [p], r);
    if i == |v.elems| {
      RunCons(b, EndArray, []);
      assert (s + [p])[..|s|] == s;
    } else {
      RebuildItem(v.elems[i], s, p, r);
      Appends(s, p, Norm(v.elems[i]));
      var b' := Run(b, Item(v.elems[i], true));
      RunConcat(b, Item(v.elems[i], true), ElemTokens(v, i + 1));
      RebuildElems(v, i + 1, s, b'.res);
    }
  }

  lemma StepKey(s: seq<Part>, p: Part, k: Bytes, r: Option<Value>)
    requires p.PObj?
    ensures Step(Build(s + [p], r), Key(k)) == Build(s + [PObj(p.pairs, k)], None)
  {
    assert (s + [p])[..|s|] == s;
  }

  lemma EndPairs(v: Value, s: seq<Part>, key: Bytes, r: Option<Value>)
    requires v.Obj?
    ensures Run(Build(s + [PObj(NormPairs(v, |v.pairs|), key)], r), [EndObject]) == Close(s, Norm(v))
  {
    var p := PObj(NormPairs(v, |v.pairs|), key);
    RunCons(Build(s + [p], r), EndObject, []);
    assert (s + [p])[..|s|] == s;
  }

  lemma {:induction false} RebuildPairs(v: Value, i: nat, s: seq<Part>, key: Bytes, r: Option<Value>)
    requires v.Obj? && i <= |v.pairs|
    ensures Run(Build(s + [PObj(NormPairs(v, i), key)], r), PairTokens(v, i)) == Close(s, Norm(v))
    decreases v, 0, |v.pairs| - i, 1
  {
    if i == |v.pairs| {
      EndPairs(v, s, key, r);
    } else {
      var k := v.pairs[i].key;
      RunCons(Build(s + [PObj(NormPairs(v, i), key)], r), Key(k), ValueTokens(v, i));
      StepKey(s, PObj(NormPairs(v, i), key), k, r);
      RebuildValue(v, i, s);
    }
  }

  lemma {:induction false} RebuildValue(v: Value, i: nat, s: seq<Part>)
    requires v.Obj? && i < |v.pairs|
    ensures Run(Build(s + [PObj(NormPairs(v, i), v.pairs[i].key)], None), ValueTokens(v, i)) == Close(s, Norm(v))
    decreases v, 0, |v.pairs| - i, 0
  {
    var k, c := v.pairs[i].key, v.pairs[i].value;
    var p := PObj(NormPairs(v, i), k);
    RebuildItem(c, s, p, None);
    Appends(s, p, Norm(c));
    var b := Run(Build(s + [p], None), Item(c, false));
    RunConcat(Build(s + [p], None), Item(c, false), PairTokens(v, i + 1));
    RebuildPairs(v, i + 1, s, k, b.res);
  }

  /** The token stream of a sorted value rebuilds exactly that value. */
  lemma TokensRebuild(v: Value)
    requires IsContainer(v) && Sorted(v)
    ensures Run(Build([], None), Tokens(v)) == Build([], Some(v))
  {
    Rebuild(v, [], None);
    SortedNorm(v);
  }

  // ---------------------------------------------------------------- pushing a binary value

  /** A binary value's tokens are pushed without the array they began with, so without its raw flag. */
  function Plain(tok: Token): Token {
    if tok.BeginArray? then BeginArray(tok.n, false) else tok
  }

  function Plains(toks: seq<Token>): (r: seq<Token>)
    ensures |r| == |toks| && forall i :: 0 <= i < |r| ==> r[i] == Plain(toks[i])
  {
    seq(|toks|, i requires 0 <= i < |toks| => Plain(toks[i]))
  }

  lemma PlainsConcat(x: seq<Token>, y: seq<Token>)
    ensures Plains(x + y) == Plains(x) + Plains(y)
  {
  }

  function Unraw(v: Value): Value { if v.Arr? then Arr(v.elems, false) else v }

  lemma {:induction false} PlainTokens(v: Value, root: bool)
    requires IsContainer(v) && Ok(v, root)
    ensures Plains(Tokens(v)) == Tokens(Unraw(v))
    decreases v, 1, 0
  {
    if v.Arr? {
      PlainElems(v, 0, root);
      PlainsConcat([BeginArray(|v.elems|, v.raw)], ElemTokens(v, 0));
    } else {
      PlainPairs(v, 0, root);
      PlainsConcat([BeginObject(|v.pairs|)], PairTokens(v, 0));
    }
  }

  lemma PlainItem(c: Value, inArray: bool)
    requires Ok(c, false)
    ensures Plains(Item(c, inArray)) == Item(c, inArray)
    decreases c, 2, 0
  {
    if IsContainer(c) {
      PlainTokens(c, false);
      assert Unraw(c) == c;
    }
  }

  lemma {:induction false} PlainElems(v: Value, i: nat, root: bool)
    requires v.Arr? && Ok(v, root) && i <= |v.elems|
    ensures Plains(ElemTokens(v, i)) == ElemTokens(Unraw(v), i)
    decreases v, 0, |v.elems| - i
  {
    if i < |v.elems| {
      PlainItem(v.elems[i], true);
      PlainElems(v, i + 1, root);
      PlainsConcat(Item(v.elems[i], true), ElemTokens(v, i + 1));
    }
  }

  lemma {:induction false} PlainPairs(v: Value, i: nat, root: bool)
    requires v.Obj? && Ok(v, root) && i <= |v.pairs|
    ensures Plains(PairTokens(v, i)) == PairTokens(v, i)
    decreases v, 0, |v.pairs| - i
  {
    if i < |v.pairs| {
      var k, item := [Key(v.pairs[i].key)], Item(v.pairs[i].value, false);
      PlainItem(v.pairs[i].value, false);
      PlainPairs(v, i + 1, root);
      PlainsConcat(item, PairTokens(v, i + 1));
      PlainsConcat(k, ValueTokens(v, i));
    }
  }

  /** Pushing a stored value's tokens gives the value back, unless it was a wrapped scalar: that one
      comes back as an ordinary array. */
  lemma BinaryRebuildIff(v: Value)
    requires IsContainer(v) && Ok(v, true) && Sorted(v)
    ensures Run(Build([], None), Plains(Tokens(v))) == Build([], Some(v)) <==> !(v.Arr? && v.raw)
  {
    PlainTokens(v, true);
    Rebuild(Unraw(v), [], None);
    assert Sorted(Unraw(v));
    SortedNorm(Unraw(v));
  }

  // ---------------------------------------------------------------- the parse state

  class ParseState {
    var stack: seq<Part>

    constructor ()
      ensures stack == []
    {
      stack := [];
    }

    /** append_element and append_value: a value goes to the innermost part. */
    method AppendValue(v: Value)
      requires stack != []
      modifies this
      ensures stack == Append(old(stack), v)
    {
      var n := |stack| - 1;
      match stack[n]
      case PArr(es, raw) => stack := stack[..n] + [PArr(es + [v], raw)];
      case PObj(ps, key) => stack := stack[..n] + [PObj(ps + [Pair(key, v)], key)];
    }

    /** push_gtype_value_scalar; false where an assertion would fail. */
    method Push(tok: Token) returns (ok: bool, res: Option<Value>)
      modifies this
      ensures ok <==> Step(Build(old(stack), None), tok).Build?
      ensures ok ==> Step(Build(old(stack), None), tok) == Build(stack, res)
    {
      ok, res := true, None;
      var n := |stack| - 1;
      match tok
      case BeginArray(_, raw) => stack := stack + [PArr([], raw)];
      case BeginObject(_) => stack := stack + [PObj([], [])];
      case Key(k) =>
        if stack == [] || !stack[n].PObj? {
          return false, None;
        }
        stack := stack[..n] + [stack[n].(key := k)];
      case Val(v) =>
        if stack == [] || !stack[n].PObj? || IsContainer(v) {
          return false, None;
        }
        AppendValue(v);
      case Elem(v) =>
        if stack == [] || !stack[n].PArr? || IsContainer(v) {
          return false, None;
        }
        AppendValue(v);
      case EndObject =>
        if stack == [] || !stack[n].PObj? {
          return false, None;
        }
        var pairs := UniquePairs(stack[n].pairs);
        res := Some(Obj(pairs));
        Pop(Obj(pairs));
      case EndArray =>
        if stack == [] {
          return false, None;
        }
        var v := AsBuilt(stack[n]);
        res := Some(v);
        Pop(v);
      case Done => ok := false;
    }

    /** The finished container becomes a member of its parent. */
    method Pop(v: Value)
      requires stack != []
      modifies this
      ensures Build(stack, Some(v)) == Close(old(stack)[..|old(stack)| - 1], v)
    {
      stack := stack[..|stack| - 1];
      if stack != [] {
        AppendValue(v);
      }
    }

    /** Push every token of an iterator. */
    method Drain(it: Iterator, ghost end: Build) returns (res: Option<Value>)
      requires it.Valid() && Run(Build(stack, None), Plains(it.Remaining())) == end && end.Build?
      modifies this, it
      ensures Build(stack, res) == end
    {
      res := None;
      while true
        invariant it.Valid() && Run(Build(stack, res), Plains(it.Remaining())) == end
        decreases |it.Remaining()|
      {
        ghost var b := Build(stack, res);
        var tok := it.Next();
        if tok == Done {
          break;
        }
        PushedPlain(b, tok, it.Remaining());
        var ok;
        ok, res := Push(Plain(tok));
      }
    }

    /** push_gtype_value of a binary value. */
    method PushBinary(g: Bytes, pos: nat, ghost v: Value) returns (res: Option<Value>)
      requires Readable(g, pos, v)
      modifies this
      ensures Build(stack, res) == Close(old(stack), Norm(Unraw(v)))
    {
      PlainTokens(v, true);
      Rebuild(Unraw(v), stack, None);
      var it := new Iterator(g, pos, v);
      res := Drain(it, Close(stack, Norm(Unraw(v))));
    }
  }

  lemma {:induction false} StuckStays(toks: seq<Token>)
    ensures Run(Stuck, toks) == Stuck
    decreases |toks|
  {
    if toks != [] { StuckStays(toks[1..]); }
  }

  /** The next push of a run that ends well succeeds. */
  lemma PushedNext(b: Build, tok: Token, rest: seq<Token>)
    requires b.Build? && Run(b, [tok] + rest).Build?
    ensures Step(b, tok).Build? && Step(b, tok) == Step(Build(b.stack, None), tok)
    ensures Run(b, [tok] + rest) == Run(Step(b, tok), rest)
  {
    RunCons(b, tok, rest);
    StuckStays(rest);
  }

  lemma PushedPlain(b: Build, tok: Token, rest: seq<Token>)
    requires b.Build? && Run(b, Plains([tok] + rest)).Build?
    ensures Step(b, Plain(tok)).Build? && Step(b, Plain(tok)) == Step(Build(b.stack, None), Plain(tok))
    ensures Run(b, Plains([tok] + rest)) == Run(Step(b, Plain(tok)), Plains(rest))
  {
    PlainsConcat([tok], rest);
    assert Plains([tok]) == [Plain(tok)];
    PushedNext(b, Plain(tok), Plains(rest));
  }

  // ---------------------------------------------------------------- the round trip

  /** Iterate a stored gtype and push every token, raw flags included. */
  method Reload(g: Bytes, pos: nat, ghost v: Value) returns (r: Option<Value>)
    requires Readable(g, pos, v)
    ensures r == Some(Norm(v))
  {
    var toks := IterateAll(g, pos, v);
    Rebuild(v, [], None);
    r := PushAll(toks, Close([], Norm(v)));
  }

  method PushAll(toks: seq<Token>, ghost end: Build) returns (r: Option<Value>)
    requires Run(Build([], None), toks) == end && end.Build?
    ensures r == end.res
  {
    var state := new ParseState();
    r := None;
    var i := 0;
    assert toks[0..] == toks;
    while i < |toks|
      invariant 0 <= i <= |toks| && Run(Build(state.stack, r), toks[i..]) == end
    {
      assert toks[i..] == [toks[i]] + toks[i + 1..];
      PushedNext(Build(state.stack, r), toks[i], toks[i + 1..]);
      var ok;
      ok, r := state.Push(toks[i]);
      i := i + 1;
    }
  }

  lemma RootOk(v: Value)
    requires Ok(v, true) && Sorted(v)
    ensures Ok(Root(v), true) && Sorted(Root(v)) && Norm(Root(v)) == Root(v)
  {
    assert IsContainer(v) || (Ok(v, false) && Sorted(v));
    assert Sorted(Root(v));
    SortedNorm(Root(v));
  }

  /** Encoding, iterating and pushing returns the value: every nesting, width and alignment, raw
      scalars included, as long as the container fits and every child is where its entries say. */
  method RoundTrip(v: Value) returns (ok: bool, r: Option<Value>)
    requires Ok(v, true) && Sorted(v) && (|Body(Root(v))| <= OFFLENMASK ==> GtypeValue.Placed(Root(v)))
    ensures ok <==> |Body(Root(v))| <= OFFLENMASK
    ensures ok ==> r == Some(Root(v))
  {
    var g;
    r := None;
    ok, g := ValueToGtype(v);
    if ok {
      RootOk(v);
      PlacedReadable(g, 4, Root(v));
      r := Reload(g, 4, Root(v));
    }
  }

  // ---------------------------------------------------------------- a timestamp that needed padding

  function StampArray(p: Bytes, last: Bytes): Value { Arr([Str([1]), Ext(TIMESTAMP, p), Str(last)], false) }

  /** An unaligned timestamp's entry is short by its padding. */
  lemma MisplacedTimestamp(p: Bytes)
    requires |p| == 8
    ensures var v := StampArray(p, [2]);
      Ok(v, true) && Sorted(v) && Fits(v) && Misplaced(v, 1) && Total(v, 2) == 13 && !Reached(v, 2)
      && Data(v, 3) == [1] + [0, 0, 0] + U32(TIMESTAMP) + p + [2]
  {
    var ts := Ext(TIMESTAMP, p);
    var v := StampArray(p, [2]);
    StampParts(p, [2]);
    assert [1] + ([0, 0, 0] + U32(TIMESTAMP) + p) + [2] == [1] + [0, 0, 0] + U32(TIMESTAMP) + p + [2];
  }

  lemma StampParts(p: Bytes, last: Bytes)
    requires |p| == 8 && |last| == 1
    ensures var v := StampArray(p, last);
      && Data(v, 1) == [1] && Data(v, 2) == [1] + ([0, 0, 0] + U32(TIMESTAMP) + p) && Data(v, 3) == Data(v, 2) + last
      && MetaAt(v, 0) == Make(IS_STRING, 1) && MetaAt(v, 1) == Make(IS_GTYPE, 12) && MetaAt(v, 2) == Make(IS_STRING, 1)
      && Total(v, 0) == 0 && Total(v, 1) == 1 && Total(v, 2) == 13 && Total(v, 3) == 14
  {
    var ts := Ext(TIMESTAMP, p);
    var v := StampArray(p, last);
    DataStep(v, 0);
    assert Data(v, 1) == [1];
    assert Pad(1) == [0, 0, 0] && Zeros(TIMESTAMP) == [];
    assert Enc(ts, 1) == [0, 0, 0] + U32(TIMESTAMP) + p;
    assert Kid(v, 1) == ts && Piece(v, 1, 1) == Enc(ts, 1);
    DataStep(v, 1);
    DataStep(v, 2);
    assert Meta(ts, 1) == Make(IS_GTYPE, 12);
  }

  lemma StampOk(p: Bytes, last: Bytes)
    requires |p| == 8 && |last| == 1
    ensures var v := StampArray(p, last); Ok(v, true) && Sorted(v) && Fits(v) && Norm(v) == v
  {
    StampParts(p, last);
    var v := StampArray(p, last);
    assert |Body(v)| == 4 + 12 + 17;
    SortedNorm(v);
  }

  /** The string behind the timestamp is read three bytes early: it comes out as the timestamp's
      sixth byte. */
  lemma StampMisread(mem: Bytes, pos: nat, p: Bytes)
    requires |p| == 8 && Holds(mem, pos, StampArray(p, [2]))
    ensures Readable(mem, pos, StampArray(p, [p[5]]))
  {
    var v, w := StampArray(p, [2]), StampArray(p, [p[5]]);
    StampOk(p, [2]);
    StampOk(p, [p[5]]);
    HoldsFramed(mem, pos, v);
    SameFrame(mem, pos, p);
    StampParts(p, [2]);
    StampParts(p, [p[5]]);
    var base := DataPos(pos, v);
    BodyAt(mem, pos, v);
    LastByte(mem, base, p);
    forall i | 0 <= i < 3 ensures ChildThere(mem, pos, w, i) {
      if i < 2 {
        ReachedBefore(v, i, true);
        ChildLies(mem, pos, v, i);
      }
    }
  }

  lemma SameFrame(mem: Bytes, pos: nat, p: Bytes)
    requires |p| == 8 && Framed(mem, pos, StampArray(p, [2]))
    ensures Framed(mem, pos, StampArray(p, [p[5]]))
  {
    var v, w := StampArray(p, [2]), StampArray(p, [p[5]]);
    StampParts(p, [2]);
    StampParts(p, [p[5]]);
    var es := Words(mem, pos, 3);
    forall i | 0 <= i < 3 ensures es[i] == EntryAt(w, i) {
      assert es[i] == EntryAt(v, i);
    }
  }

  lemma LastByte(mem: Bytes, base: nat, p: Bytes)
    requires |p| == 8 && At(mem, base, [1] + ([0, 0, 0] + U32(TIMESTAMP) + p) + [2])
    ensures At(mem, base + 13, [p[5]])
  {
    var d := [1] + ([0, 0, 0] + U32(TIMESTAMP) + p) + [2];
    assert d[13] == p[5];
    assert mem[base..base + |d|][13] == mem[base + 13];
    assert mem[base + 13..base + 14] == [p[5]];
  }

  /** Storing and reloading that array returns another value unless the byte happens to be the same. */
  method StampReload(p: Bytes) returns (ok: bool, r: Option<Value>)
    requires |p| == 8
    ensures ok && r == Some(StampArray(p, [p[5]]))
    ensures r == Some(StampArray(p, [2])) <==> p[5] == 2
  {
    var v := StampArray(p, [2]);
    StampOk(p, [2]);
    StampOk(p, [p[5]]);
    var g;
    ok, g := ValueToGtype(v);
    StampMisread(g, 4, p);
    r := Reload(g, 4, StampArray(p, [p[5]]));
    assert [p[5]][0] == p[5] && [2 as Byte][0] == 2;
  }
}
