/** The recursive-descent parser and the actions that build a value while it reads. */
module Parser {
  import opened Common
  import opened GtypeKeys
  import opened GtypeValue
  import opened GtypeEncode
  import opened GtypeIterate
  import opened GtypePush
  import opened LexRules
  import opened Lexer
  import opened ParseRules

  // ---------------------------------------------------------------- what the actions build

  function BuiltElems(kids: seq<Tree>, lib: Library): (r: seq<Value>)
    ensures |r| == |kids| && forall i :: 0 <= i < |kids| ==> r[i] == Norm(Meaning(kids[i], lib))
  {
    seq(|kids|, i requires 0 <= i < |kids| => Norm(Meaning(kids[i], lib)))
  }

  function BuiltPairs(ps: seq<Pair<Tree>>, lib: Library): (r: seq<Pair<Value>>)
    ensures |r| == |ps| && forall i :: 0 <= i < |ps| ==> r[i] == Pair(ps[i].key, Norm(Meaning(ps[i].value, lib)))
  {
    seq(|ps|, i requires 0 <= i < |ps| => Pair(ps[i].key, Norm(Meaning(ps[i].value, lib))))
  }

  lemma {:induction false} MeansElems(t: Tree, k: nat, lib: Library)
    requires t.Elems? && k <= |t.kids|
    ensures |MeaningElems(t, k, lib)| == k
    ensures forall i :: 0 <= i < k ==> MeaningElems(t, k, lib)[i] == Meaning(t.kids[i], lib)
  {
    if k > 0 { MeansElems(t, k - 1, lib); }
  }

  lemma {:induction false} MeansPairs(t: Tree, k: nat, lib: Library)
    requires t.Fields? && k <= |t.pairs|
    ensures |MeaningPairs(t, k, lib)| == k
    ensures forall i :: 0 <= i < k ==>
      MeaningPairs(t, k, lib)[i] == Pair(t.pairs[i].key, Meaning(t.pairs[i].value, lib))
  {
    if k > 0 { MeansPairs(t, k - 1, lib); }
  }

  lemma NormOfElems(kids: seq<Tree>, lib: Library)
    ensures Norm(Meaning(Elems(kids), lib)) == Arr(BuiltElems(kids, lib), false)
  {
    var t := Elems(kids);
    var v := Meaning(t, lib);
    MeansElems(t, |kids|, lib);
    ElemsOf(v, |kids|);
    assert NormElems(v, |kids|) == BuiltElems(kids, lib);
  }

  lemma NormOfFields(ps: seq<Pair<Tree>>, lib: Library)
    ensures Norm(Meaning(Fields(ps), lib)) == Obj(Normalize(BuiltPairs(ps, lib)))
  {
    var t := Fields(ps);
    var v := Meaning(t, lib);
    MeansPairs(t, |ps|, lib);
    NormsPairs(v, ps, lib);
  }

  lemma NormsPairs(v: Value, ps: seq<Pair<Tree>>, lib: Library)
    requires v.Obj? && |v.pairs| == |ps|
    requires forall i :: 0 <= i < |ps| ==> v.pairs[i] == Pair(ps[i].key, Meaning(ps[i].value, lib))
    ensures NormPairs(v, |ps|) == BuiltPairs(ps, lib)
  {
    PairsOf(v, |ps|);
  }

  lemma ElemAdded(s: seq<Part>, kids: seq<Tree>, t: Tree, lib: Library)
    ensures Append(s + [PArr(BuiltElems(kids, lib), false)], Norm(Meaning(t, lib)))
      == s + [PArr(BuiltElems(kids + [t], lib), false)]
  {
    Appends(s, PArr(BuiltElems(kids, lib), false), Norm(Meaning(t, lib)));
    assert BuiltElems(kids + [t], lib) == BuiltElems(kids, lib) + [Norm(Meaning(t, lib))];
  }

  lemma PairAdded(s: seq<Part>, ps: seq<Pair<Tree>>, key: Bytes, t: Tree, lib: Library)
    ensures Append(s + [PObj(BuiltPairs(ps, lib), key)], Norm(Meaning(t, lib)))
      == s + [PObj(BuiltPairs(ps + [Pair(key, t)], lib), key)]
  {
    Appends(s, PObj(BuiltPairs(ps, lib), key), Norm(Meaning(t, lib)));
    assert BuiltPairs(ps + [Pair(key, t)], lib) == BuiltPairs(ps, lib) + [Pair(key, Norm(Meaning(t, lib)))];
  }

  /** What a parsed value leaves: a finished root, or one more member of the open container. */
  ghost predicate Built(before: seq<Part>, after: seq<Part>, res: Option<Value>, v: Value) {
    if before == [] then after == [] && res == Some(Norm(Root(v))) else after == Append(before, Norm(v))
  }

  // ---------------------------------------------------------------- the grammar, case by case

  /** What follows an opening bracket. */
  ghost function ArrayTail(s: seq<Lexeme>, lib: Library): (p: Parsed)
    requires Ready(s)
    ensures p.Good? ==> Ready(p.rest) && |p.rest| < |s|
  {
    if !Ready(s[1..]) then Fail
    else if s[1] != Mark(ARRAY_END) then ParseElems(s[1..], [], lib)
    else if Ready(s[2..]) then Good(Elems([]), s[2..])
    else Fail
  }

  lemma ArrayCases(s: seq<Lexeme>, lib: Library)
    requires Ready(s) && s[0] == Mark(ARRAY_START)
    ensures ParseRules.ParseValue(s, lib) == ArrayTail(s, lib)
  {
    if Ready(s[1..]) {
      assert s[1..][0] == s[1] && s[1..][1..] == s[2..];
      if s[1] == Mark(ARRAY_END) && !Ready(s[2..]) { EndIsNoElem(s[1..], lib); }
    }
  }

  lemma EndIsNoElem(s: seq<Lexeme>, lib: Library)
    requires Ready(s) && s[0] == Mark(ARRAY_END)
    ensures ParseElems(s, [], lib) == Fail
  {
    assert ParseRules.ParseScalar(s, lib) == Fail;
    assert ParseRules.ParseValue(s, lib) == Fail;
    assert ParseRules.ParseElem(s, lib) == Fail;
  }

  ghost function ObjectTail(s: seq<Lexeme>, lib: Library): (p: Parsed)
    requires Ready(s)
    ensures p.Good? ==> Ready(p.rest) && |p.rest| < |s|
  {
    if !Ready(s[1..]) then Fail
    else if s[1].kind == STRING then ParseFields(s[1..], [], lib)
    else if s[1] == Mark(OBJECT_END) && Ready(s[2..]) then Good(Fields([]), s[2..])
    else Fail
  }

  lemma ObjectCases(s: seq<Lexeme>, lib: Library)
    requires Ready(s) && s[0] == Mark(OBJECT_START)
    ensures ParseRules.ParseValue(s, lib) == ObjectTail(s, lib)
  {
    if Ready(s[1..]) {
      assert s[1..][0] == s[1] && s[1..][1..] == s[2..];
      if s[1].kind != STRING { assert ParseField(s[1..], lib) == NoField; }
    }
  }

  lemma ElemsCases(s: seq<Lexeme>, acc: seq<Tree>, lib: Library)
    requires Ready(s)
    ensures var q := ParseRules.ParseElem(s, lib);
      ParseElems(s, acc, lib) ==
        if q.Fail? || !Ready(q.rest[1..]) then Fail
        else if q.rest[0] == Mark(COMMA) then ParseElems(q.rest[1..], acc + [q.t], lib)
        else if q.rest[0] == Mark(ARRAY_END) then Good(Elems(acc + [q.t]), q.rest[1..])
        else Fail
  {
  }

  lemma FieldsCases(s: seq<Lexeme>, acc: seq<Pair<Tree>>, lib: Library)
    requires Ready(s)
    ensures var q := ParseField(s, lib);
      ParseFields(s, acc, lib) ==
        if q.NoField? || !Ready(q.rest[1..]) then Fail
        else if q.rest[0] == Mark(COMMA) then ParseFields(q.rest[1..], acc + [q.f], lib)
        else if q.rest[0] == Mark(OBJECT_END) then Good(Fields(acc + [q.f]), q.rest[1..])
        else Fail
  {
  }

  class TextParser {
    const lex: LexContext
    const state: ParseState
    const lib: Library
    var res: Option<Value>

    constructor (text: Bytes, utf8: bool, library: Library)
      ensures fresh(lex) && fresh(state) && lex.Valid() && state.stack == []
      ensures lex.input == text && lex.utf8 == utf8 && lib == library && lex.tokenEnd == 0 && lex.level == 0
    {
      lex := new LexContext(text, utf8);
      state := new ParseState();
      lib, res := library, None;
    }

    /** gtype_in_scalar: a bare scalar becomes a wrapped root, any other a member. */
    method InScalar(v: Value)
      requires !IsContainer(v)
      modifies this, state
      ensures Built(old(state.stack), state.stack, res, v)
    {
      RawScalar(v);
      if state.stack == [] {
        InRoot(v);
      } else {
        var ok;
        ok, res := state.Push(if state.stack[|state.stack| - 1].PArr? then Elem(v) else Val(v));
      }
    }

    method InRoot(v: Value)
      requires !IsContainer(v) && state.stack == []
      modifies this, state
      ensures state.stack == [] && res == Some(Arr([v], true))
    {
      RawPushes(v);
      var ok;
      ok, res := state.Push(BeginArray(1, true));
      ok, res := state.Push(Elem(v));
      ok, res := state.Push(EndArray);
    }

    /** A text ahead that the reference parses to p. */
    ghost predicate Matches(ok: bool, p: Parsed, level: int)
      reads this, lex
    {
      lex.Valid() && (ok <==> p.Good?) && (ok ==> lex.Ahead() == p.rest && lex.level == level)
    }

    /** parse_scalar_annotation */
    method ParseAnnotation() returns (ok: bool, ann: Option<Bytes>)
      requires lex.Valid()
      modifies lex
      ensures lex.Valid() && lex.level == old(lex.level)
      ensures var s := old(lex.Ahead());
        if s[0] != Mark(ANNOTATION) then ok && ann == None && lex.Ahead() == s
        else if Ready(s[1..]) && s[1].kind == IDENTIFIER && Ready(s[2..])
        then ok && ann == Some(s[1].text) && lex.Ahead() == s[2..]
        else !ok
    {
      ghost var s := lex.Ahead();
      ok, ann := true, None;
      if lex.kind == ANNOTATION {
        ok := lex.Next();
        if !ok || lex.kind != IDENTIFIER {
          return false, None;
        }
        ann := Some(lex.input[lex.tokenStart..lex.tokenEnd]);
        ok := lex.Next();
        assert s[1..][1..] == s[2..];
      }
    }

    /** parse_scalar */
    method ParseScalar() returns (ok: bool)
      requires lex.Valid() && Ready(lex.Ahead())
      modifies this, lex, state
      ensures Matches(ok, ParseRules.ParseScalar(old(lex.Ahead()), lib), old(lex.level))
      ensures var p := ParseRules.ParseScalar(old(lex.Ahead()), lib);
        ok ==> Built(old(state.stack), state.stack, res, Meaning(p.t, lib))
    {
      var x, ann;
      ok, x, ann := TakeScalar();
      if !ok {
        return;
      }
      var v := ScalarOf(x, ann, lib);
      if v == None {
        return false;
      }
      InScalar(v.value);
    }

    /** The lexeme of a scalar and the typecast behind it. */
    method TakeScalar() returns (ok: bool, x: Lexeme, ann: Option<Bytes>)
      requires lex.Valid() && Ready(lex.Ahead())
      modifies lex
      ensures lex.Valid() && lex.level == old(lex.level)
      ensures var s := old(lex.Ahead()); var r := s[1..];
        if !IsScalarKind(s[0].kind) || !Ready(r) then !ok
        else if r[0] != Mark(ANNOTATION) then ok && x == s[0] && ann == None && lex.Ahead() == r
        else if Ready(r[1..]) && r[1].kind == IDENTIFIER && Ready(r[2..])
        then ok && x == s[0] && ann == Some(r[1].text) && lex.Ahead() == r[2..]
        else !ok
    {
      var k := lex.kind;
      x, ann := Lexeme(k, if k == STRING then lex.strval else lex.input[lex.tokenStart..lex.tokenEnd]), None;
      if !IsScalarKind(k) {
        return false, x, ann;
      }
      ok := lex.Next();
      if ok { ok, ann := ParseAnnotation(); }
    }

    /** The switch that starts every value. */
    method ParseValue() returns (ok: bool)
      requires lex.Valid() && Ready(lex.Ahead())
      modifies this, lex, state
      ensures Matches(ok, ParseRules.ParseValue(old(lex.Ahead()), lib), old(lex.level))
      ensures var p := ParseRules.ParseValue(old(lex.Ahead()), lib);
        ok ==> Built(old(state.stack), state.stack, res, Meaning(p.t, lib))
      decreases |lex.Ahead()|, 2
    {
      if lex.kind == OBJECT_START {
        ok := ParseObject();
      } else if lex.kind == ARRAY_START {
        ok := ParseArray();
      } else {
        ok := ParseScalar();
      }
    }

    /** parse_array_element */
    method ParseArrayElement() returns (ok: bool)
      requires lex.Valid() && Ready(lex.Ahead())
      modifies this, lex, state
      ensures Matches(ok, ParseRules.ParseElem(old(lex.Ahead()), lib), old(lex.level))
      ensures var p := ParseRules.ParseElem(old(lex.Ahead()), lib);
        ok ==> Built(old(state.stack), state.stack, res, Meaning(p.t, lib))
      decreases |lex.Ahead()|, 3
    {
      ok := ParseValue();
    }

    /** The loop of parse_array, from its first element to the closing bracket. */
    method ParseElements(ghost outer: seq<Part>) returns (ok: bool)
      requires lex.Valid() && Ready(lex.Ahead()) && state.stack == outer + [PArr(BuiltElems([], lib), false)]
      modifies this, lex, state
      ensures Matches(ok, ParseElems(old(lex.Ahead()), [], lib), old(lex.level))
      ensures var p := ParseElems(old(lex.Ahead()), [], lib);
        ok ==> p.t.Elems? && state.stack == outer + [PArr(BuiltElems(p.t.kids, lib), false)]
      decreases |lex.Ahead()|, 5
    {
      ghost var s := lex.Ahead();
      ghost var acc: seq<Tree> := [];
      var more := true;
      while more
        invariant lex.Valid() && lex.level == old(lex.level)
        invariant Ready(lex.Ahead()) && |lex.Ahead()| <= |s|
        invariant more ==> state.stack == outer + [PArr(BuiltElems(acc, lib), false)]
        invariant more ==> ParseElems(s, [], lib) == ParseElems(lex.Ahead(), acc, lib)
        invariant !more ==> ParseElems(s, [], lib) == Good(Elems(acc), lex.Ahead())
        invariant !more ==> state.stack == outer + [PArr(BuiltElems(acc, lib), false)]
        decreases more, |lex.Ahead()|
      {
        ghost var q := ParseRules.ParseElem(lex.Ahead(), lib);
        ok, more := ElementAndMark(outer, acc);
        if !ok {
          return;
        }
        acc := acc + [q.t];
      }
      ok := true;
    }

    /** One element and the comma or closing bracket behind it. */
    method ElementAndMark(ghost outer: seq<Part>, ghost acc: seq<Tree>) returns (ok: bool, more: bool)
      requires lex.Valid() && Ready(lex.Ahead()) && state.stack == outer + [PArr(BuiltElems(acc, lib), false)]
      modifies this, lex, state
      ensures lex.Valid()
      ensures var s := old(lex.Ahead());
        var q := ParseRules.ParseElem(s, lib);
        && (!ok ==> ParseElems(s, acc, lib) == Fail)
        && (ok ==> q.Good? && Ready(lex.Ahead()) && |lex.Ahead()| < |s| && lex.level == old(lex.level))
        && (ok ==> state.stack == outer + [PArr(BuiltElems(acc + [q.t], lib), false)])
        && (ok && more ==> ParseElems(s, acc, lib) == ParseElems(lex.Ahead(), acc + [q.t], lib))
        && (ok && !more ==> ParseElems(s, acc, lib) == Good(Elems(acc + [q.t]), lex.Ahead()))
      decreases |lex.Ahead()|, 4
    {
      ghost var s := lex.Ahead();
      ghost var q := ParseRules.ParseElem(s, lib);
      ElemsCases(s, acc, lib);
      more := false;
      ok := ParseArrayElement();
      if !ok {
        return;
      }
      ElemAdded(outer, acc, q.t, lib);
      ok, more := TakeMark(ARRAY_END);
    }

    /** parse_array */
    method ParseArray() returns (ok: bool)
      requires lex.Valid() && Ready(lex.Ahead()) && lex.Ahead()[0] == Mark(ARRAY_START)
      modifies this, lex, state
      ensures Matches(ok, ParseRules.ParseValue(old(lex.Ahead()), lib), old(lex.level))
      ensures var p := ParseRules.ParseValue(old(lex.Ahead()), lib);
        ok ==> Built(old(state.stack), state.stack, res, Meaning(p.t, lib))
      decreases |lex.Ahead()|, 1
    {
      ghost var outer := state.stack;
      ArrayCases(lex.Ahead(), lib);
      ok, res := state.Push(BeginArray(0, false));
      lex.level := lex.level + 1;
      ghost var kids;
      ok, kids := ArrayBody(outer);
      if !ok {
        return;
      }
      lex.level := lex.level - 1;
      EndsArray(outer, kids, lib);
      ok, res := state.Push(EndArray);
    }

    /** parse_array from its opening bracket to its closing one. */
    method ArrayBody(ghost outer: seq<Part>) returns (ok: bool, ghost kids: seq<Tree>)
      requires lex.Valid() && Ready(lex.Ahead()) && lex.Ahead()[0] == Mark(ARRAY_START)
      requires state.stack == outer + [PArr([], false)]
      modifies this, lex, state
      ensures Matches(ok, ArrayTail(old(lex.Ahead()), lib), old(lex.level))
      ensures ok ==> ArrayTail(old(lex.Ahead()), lib).t == Elems(kids)
      ensures ok ==> state.stack == outer + [PArr(BuiltElems(kids, lib), false)]
      decreases |lex.Ahead()|, 0
    {
      kids := [];
      assert BuiltElems([], lib) == [];
      ok := lex.Next();
      if !ok {
        return;
      }
      if lex.kind != ARRAY_END {
        ghost var p := ParseElems(lex.Ahead(), [], lib);
        ok := ParseElements(outer);
        if ok { kids := p.t.kids; }
      } else {
        ok := lex.Next();
      }
    }

    /** parse_object_field up to its colon. */
    method ParseFieldName() returns (ok: bool, fname: Bytes)
      requires lex.Valid() && Ready(lex.Ahead())
      modifies lex
      ensures lex.Valid() && lex.level == old(lex.level)
      ensures var s := old(lex.Ahead());
        && (ok <==> s[0].kind == STRING && Starts(s[1..], COLON))
        && (ok ==> fname == s[0].text && lex.Ahead() == s[2..])
    {
      ghost var s := lex.Ahead();
      if lex.kind != STRING {
        return false, [];
      }
      fname := lex.strval;
      ok := lex.Next();
      if !ok || lex.kind != COLON {
        return false, [];
      }
      ok := lex.Next();
      assert s[1..][1..] == s[2..];
    }

    /** parse_object_field, with gtype_in_object_field_start. */
    method ParseObjectField(ghost outer: seq<Part>, ghost acc: seq<Pair<Tree>>, ghost key: Bytes) returns (ok: bool)
      requires lex.Valid() && Ready(lex.Ahead()) && state.stack == outer + [PObj(BuiltPairs(acc, lib), key)]
      modifies this, lex, state
      ensures var p := ParseField(old(lex.Ahead()), lib);
        && lex.Valid() && (ok <==> p.GoodField?)
        && (ok ==> lex.Ahead() == p.rest && lex.level == old(lex.level))
        && (ok ==> state.stack == outer + [PObj(BuiltPairs(acc + [p.f], lib), p.f.key)])
      decreases |lex.Ahead()|, 3
    {
      ghost var s := lex.Ahead();
      var fname;
      ok, fname := ParseFieldName();
      if !ok || |fname| > GtypeEntry.OFFLENMASK {
        return false;
      }
      ghost var q := ParseRules.ParseValue(s[2..], lib);
      StepKey(outer, PObj(BuiltPairs(acc, lib), key), fname, None);
      ok, res := state.Push(Key(fname));
      ok := ParseValue();
      if ok { PairAdded(outer, acc, fname, q.t, lib); }
    }

    /** The loop of parse_object, from its first field to the closing brace. */
    method ParseObjectFields(ghost outer: seq<Part>) returns (ok: bool, ghost key: Bytes)
      requires lex.Valid() && Ready(lex.Ahead()) && state.stack == outer + [PObj(BuiltPairs([], lib), [])]
      modifies this, lex, state
      ensures Matches(ok, ParseFields(old(lex.Ahead()), [], lib), old(lex.level))
      ensures var p := ParseFields(old(lex.Ahead()), [], lib);
        ok ==> p.t.Fields? && state.stack == outer + [PObj(BuiltPairs(p.t.pairs, lib), key)]
      decreases |lex.Ahead()|, 5
    {
      ghost var s := lex.Ahead();
      ghost var acc: seq<Pair<Tree>> := [];
      key := [];
      var more := true;
      while more
        invariant lex.Valid() && lex.level == old(lex.level)
        invariant Ready(lex.Ahead()) && |lex.Ahead()| <= |s|
        invariant state.stack == outer + [PObj(BuiltPairs(acc, lib), key)]
        invariant more ==> ParseFields(s, [], lib) == ParseFields(lex.Ahead(), acc, lib)
        invariant !more ==> ParseFields(s, [], lib) == Good(Fields(acc), lex.Ahead())
        decreases more, |lex.Ahead()|
      {
        ghost var q := ParseField(lex.Ahead(), lib);
        ok, more := FieldAndMark(outer, acc, key);
        if !ok {
          return;
        }
        acc, key := acc + [q.f], q.f.key;
      }
      ok := true;
    }

    /** One field and the comma or closing brace behind it. */
    method FieldAndMark(ghost outer: seq<Part>, ghost acc: seq<Pair<Tree>>, ghost key: Bytes)
      returns (ok: bool, more: bool)
      requires lex.Valid() && Ready(lex.Ahead()) && state.stack == outer + [PObj(BuiltPairs(acc, lib), key)]
      modifies this, lex, state
      ensures lex.Valid()
      ensures var s := old(lex.Ahead());
        var q := ParseField(s, lib);
        && (!ok ==> ParseFields(s, acc, lib) == Fail)
        && (ok ==> q.GoodField? && Ready(lex.Ahead()) && |lex.Ahead()| < |s| && lex.level == old(lex.level))
        && (ok ==> state.stack == outer + [PObj(BuiltPairs(acc + [q.f], lib), q.f.key)])
        && (ok && more ==> ParseFields(s, acc, lib) == ParseFields(lex.Ahead(), acc + [q.f], lib))
        && (ok && !more ==> ParseFields(s, acc, lib) == Good(Fields(acc + [q.f]), lex.Ahead()))
      decreases |lex.Ahead()|, 4
    {
      FieldsCases(lex.Ahead(), acc, lib);
      more := false;
      ok := ParseObjectField(outer, acc, key);
      if ok { ok, more := TakeMark(OBJECT_END); }
    }

    /** The comma or the closing mark behind a member. */
    method TakeMark(close: Kind) returns (ok: bool, more: bool)
      requires lex.Valid() && Ready(lex.Ahead()) && (close == OBJECT_END || close == ARRAY_END)
      modifies lex
      ensures lex.Valid() && lex.level == old(lex.level)
      ensures var s := old(lex.Ahead());
        && (ok <==> (s[0] == Mark(COMMA) || s[0] == Mark(close)) && Ready(s[1..]))
        && (ok ==> lex.Ahead() == s[1..] && (more <==> s[0] == Mark(COMMA)))
    {
      more := lex.kind == COMMA;
      if !more && lex.kind != close {
        return false, false;
      }
      ok := lex.Next();
    }

    /** parse_object */
    method ParseObject() returns (ok: bool)
      requires lex.Valid() && Ready(lex.Ahead()) && lex.Ahead()[0] == Mark(OBJECT_START)
      modifies this, lex, state
      ensures Matches(ok, ParseRules.ParseValue(old(lex.Ahead()), lib), old(lex.level))
      ensures var p := ParseRules.ParseValue(old(lex.Ahead()), lib);
        ok ==> Built(old(state.stack), state.stack, res, Meaning(p.t, lib))
      decreases |lex.Ahead()|, 1
    {
      ghost var outer := state.stack;
      ObjectCases(lex.Ahead(), lib);
      ok, res := state.Push(BeginObject(0));
      lex.level := lex.level + 1;
      ghost var ps, key;
      ok, ps, key := ObjectBody(outer);
      if !ok {
        return;
      }
      lex.level := lex.level - 1;
      EndsObject(outer, ps, key, lib);
      ok, res := state.Push(EndObject);
    }

    /** parse_object from its opening brace to its closing one. */
    method ObjectBody(ghost outer: seq<Part>) returns (ok: bool, ghost ps: seq<Pair<Tree>>, ghost key: Bytes)
      requires lex.Valid() && Ready(lex.Ahead()) && lex.Ahead()[0] == Mark(OBJECT_START)
      requires state.stack == outer + [PObj([], [])]
      modifies this, lex, state
      ensures Matches(ok, ObjectTail(old(lex.Ahead()), lib), old(lex.level))
      ensures ok ==> ObjectTail(old(lex.Ahead()), lib).t == Fields(ps)
      ensures ok ==> state.stack == outer + [PObj(BuiltPairs(ps, lib), key)]
      decreases |lex.Ahead()|, 0
    {
      ps, key := [], [];
      assert BuiltPairs([], lib) == [];
      ok := lex.Next();
      if !ok {
        return;
      }
      if lex.kind == STRING {
        ghost var p := ParseFields(lex.Ahead(), [], lib);
        ok, key := ParseObjectFields(outer);
        if ok { ps := p.t.pairs; }
      } else if lex.kind == OBJECT_END {
        ok := lex.Next();
      } else {
        ok := false;
      }
    }

    /** parse_gtype: exactly the texts of the grammar are accepted; then the actions have been well
        bracketed, the nesting level is back, and the result is the document with every object
        normalised. */
    method ParseGtype() returns (ok: bool)
      requires lex.Valid() && lex.tokenEnd == 0 && state.stack == []
      modifies this, lex, state
      ensures var t := ParseAll(Stream(lex.input, lex.utf8), lib);
        && (ok <==> t.Some?)
        && (ok ==> state.stack == [] && lex.level == old(lex.level) && res == Some(Norm(Root(Meaning(t.value, lib)))))
    {
      ghost var s := Stream(lex.input, lex.utf8);
      ok := lex.First();
      if !ok {
        return;
      }
      ok := ParseValue();
      if !ok {
        return;
      }
      ok := ExpectEnd();
    }

    /** lex_expect of the end, which looks for a lexeme behind it once more. */
    method ExpectEnd() returns (ok: bool)
      requires lex.Valid()
      modifies lex
      ensures lex.level == old(lex.level) && ok == (old(lex.kind) == END)
    {
      ok := lex.kind == END;
      if ok {
        var again := lex.Lex();
      }
    }
  }

  /** Closing the array of the elements built so far. */
  lemma EndsArray(outer: seq<Part>, kids: seq<Tree>, lib: Library)
    ensures var b := Step(Build(outer + [PArr(BuiltElems(kids, lib), false)], None), EndArray);
      b.Build? && Built(outer, b.stack, b.res, Meaning(Elems(kids), lib))
  {
    NormOfElems(kids, lib);
    assert (outer + [PArr(BuiltElems(kids, lib), false)])[..|outer|] == outer;
  }

  lemma EndsObject(outer: seq<Part>, ps: seq<Pair<Tree>>, key: Bytes, lib: Library)
    ensures var b := Step(Build(outer + [PObj(BuiltPairs(ps, lib), key)], None), EndObject);
      b.Build? && Built(outer, b.stack, b.res, Meaning(Fields(ps), lib))
  {
    NormOfFields(ps, lib);
    assert (outer + [PObj(BuiltPairs(ps, lib), key)])[..|outer|] == outer;
  }

  /** The three pushes that wrap a bare scalar. */
  lemma RawPushes(v: Value)
    requires !IsContainer(v)
    ensures Step(Build([], None), BeginArray(1, true)) == Build([PArr([], true)], None)
    ensures Step(Build([PArr([], true)], None), Elem(v)) == Build([PArr([v], true)], None)
    ensures Step(Build([PArr([v], true)], None), EndArray) == Build([], Some(Arr([v], true)))
  {
    RawScalar(v);
    RawEnd(v);
    var none: seq<Part> := [];
    assert none + [PArr([], true)] == [PArr([], true)];
  }

  lemma RawEnd(v: Value)
    ensures Step(Build([PArr([v], true)], None), EndArray) == Build([], Some(Arr([v], true)))
  {
    var s: seq<Part> := [PArr([v], true)];
    assert s[..0] == [];
  }

  lemma RawScalar(v: Value)
    requires !IsContainer(v)
    ensures Norm(Root(v)) == Arr([v], true) && Norm(v) == v
    ensures Append([PArr([], true)], v) == [PArr([v], true)]
  {
    var a := Arr([v], true);
    assert NormElems(a, 0) == [] && NormElems(a, 1) == [Norm(v)];
    var s: seq<Part> := [PArr([], true)];
    assert s[..0] == [];
  }
}
