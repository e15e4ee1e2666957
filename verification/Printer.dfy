/** gtype to text: escaping, and the loop over iterator tokens that writes separators and brackets. */
module Printer {
  import opened Common
  import opened GtypeKeys
  import opened GtypeValue
  import opened GtypeIterate
  import opened LexRules
  import opened ParseRules

  // ---------------------------------------------------------------- scalars

  function HexDigit(n: nat): Byte
    requires n < 16
  {
    if n < 10 then 48 + n else 97 + n - 10
  }

  /** One byte of a string literal. */
  function EscapeByte(c: Byte): Bytes {
    if c == 8 then [BACKSLASH, 98]
    else if c == 12 then [BACKSLASH, 102]
    else if c == 10 then [BACKSLASH, 110]
    else if c == 13 then [BACKSLASH, 114]
    else if c == 9 then [BACKSLASH, 116]
    else if c == QUOTE || c == BACKSLASH then [BACKSLASH, c]
    else if c < 32 then [BACKSLASH, 117, ZERO, ZERO, HexDigit(c / 16), HexDigit(c % 16)]
    else [c]
  }

  function EscapeBody(s: Bytes): Bytes {
    if s == [] then [] else EscapeByte(s[0]) + EscapeBody(s[1..])
  }

  function Escape(s: Bytes): Bytes { [QUOTE] + EscapeBody(s) + [QUOTE] }

  /** A C string ends at its first NUL. */
  function CString(s: Bytes): Bytes {
    if s == [] || s[0] == 0 then [] else [s[0]] + CString(s[1..])
  }

  /** int8out */
  function Decimals(n: nat): Bytes {
    if n < 10 then [ZERO + n] else Decimals(n / 10) + [ZERO + n % 10]
  }

  function IntText(n: int): Bytes {
    if n < 0 then [MINUS] + Decimals(-n) else Decimals(n)
  }

  function FromLittleEndian(p: Bytes): nat {
    if p == [] then 0 else p[0] + 256 * FromLittleEndian(p[1..])
  }

  function IntOfBytes(p: Bytes): int {
    var n := FromLittleEndian(p);
    if n >= TWO_63 then n - TWO_64 else n
  }

  /** Output of the types the server's library prints. */
  type Display = Value -> Bytes

  /** gtype_put_escaped_value */
  function ScalarText(v: Value, show: Display): Bytes {
    match v
    case Null => NULL_WORD
    case Str(s) => Escape(CString(s))
    case Bool(b) => if b then TRUE_WORD else FALSE_WORD
    case Ext(tag, p) => if tag == 0 then IntText(IntOfBytes(p)) else show(v)
    case _ => show(v)
  }

  // ---------------------------------------------------------------- the text of a value

  const COMMA_SPACE: Bytes := [44, 32]
  const COLON_SPACE: Bytes := [58, 32]

  function Separator(first: bool): Bytes { if first then [] else COMMA_SPACE }

  /** Elements and pairs joined by ", ", a root scalar bare. */
  function TextOf(v: Value, show: Display): Bytes
    decreases v, 1, 0
  {
    match v
    case Arr(es, raw) =>
      if raw && |es| == 1 && !IsContainer(es[0]) then ScalarText(es[0], show)
      else [91] + ElemsText(v, 0, true, show)
    case Obj(_) => [123] + PairsText(v, 0, true, show)
    case _ => ScalarText(v, show)
  }

  function ElemsText(v: Value, i: nat, first: bool, show: Display): Bytes
    requires v.Arr? && i <= |v.elems|
    decreases v, 0, |v.elems| - i
  {
    if i == |v.elems| then [93]
    else Separator(first) + TextOf(v.elems[i], show) + ElemsText(v, i + 1, false, show)
  }

  function PairsText(v: Value, i: nat, first: bool, show: Display): Bytes
    requires v.Obj? && i <= |v.pairs|
    decreases v, 0, |v.pairs| - i
  {
    if i == |v.pairs| then [125]
    else PairHead(v.pairs[i].key, first) + TextOf(v.pairs[i].value, show) + PairsText(v, i + 1, false, show)
  }

  function PairHead(key: Bytes, first: bool): Bytes { Separator(first) + Escape(CString(key)) + COLON_SPACE }

  // ---------------------------------------------------------------- the loop over tokens

  /** What the loop still writes for the tokens to come: `first` and `raw` are its flags, and the
      token after a key is written without a separator. */
  function Emit(first: bool, raw: bool, toks: seq<Token>, show: Display): Bytes
    decreases |toks|
  {
    if toks == [] then [] else
    var rest := toks[1..];
    match toks[0]
    case BeginArray(_, r) => Separator(first) + (if r then [] else [91]) + Emit(true, raw || r, rest, show)
    case BeginObject(_) => Separator(first) + [123] + Emit(true, raw, rest, show)
    case Key(k) =>
      Separator(first) + ScalarText(Str(k), show) + COLON_SPACE
        + if rest != [] && rest[0].Val? then ScalarText(rest[0].e, show) + Emit(false, raw, rest[1..], show)
          else Emit(true, raw, rest, show)
    case Elem(e) => Separator(first) + ScalarText(e, show) + Emit(false, raw, rest, show)
    case EndArray => (if raw then [] else [93]) + Emit(false, raw, rest, show)
    case EndObject => [125] + Emit(false, raw, rest, show)
    case Val(_) => []
    case Done => []
  }

  lemma EmitCons(first: bool, raw: bool, t: Token, rest: seq<Token>, show: Display)
    ensures ([t] + rest)[0] == t && ([t] + rest)[1..] == rest
  {
  }

  /** The tokens of a nested container come out as its text. */
  lemma {:induction false} EmitTokens(v: Value, first: bool, rest: seq<Token>, show: Display)
    requires IsContainer(v) && Ok(v, false)
    ensures Emit(first, false, Tokens(v) + rest, show)
      == Separator(first) + TextOf(v, show) + Emit(false, false, rest, show)
    decreases v, 1, 0
  {
    if v.Arr? {
      var b := BeginArray(|v.elems|, v.raw);
      Associate([b], ElemTokens(v, 0), rest);
      EmitCons(first, false, b, ElemTokens(v, 0) + rest, show);
      EmitElems(v, 0, true, rest, show);
      Associate(Separator(first), [91], ElemsText(v, 0, true, show) + Emit(false, false, rest, show));
      Associate(Separator(first) + [91], ElemsText(v, 0, true, show), Emit(false, false, rest, show));
      Associate(Separator(first), [91], ElemsText(v, 0, true, show));
    } else {
      var b := BeginObject(|v.pairs|);
      Associate([b], PairTokens(v, 0), rest);
      EmitCons(first, false, b, PairTokens(v, 0) + rest, show);
      EmitPairs(v, 0, true, rest, show);
      Associate(Separator(first) + [123], PairsText(v, 0, true, show), Emit(false, false, rest, show));
      Associate(Separator(first), [123], PairsText(v, 0, true, show));
    }
  }

  lemma {:induction false} EmitElems(v: Value, i: nat, first: bool, rest: seq<Token>, show: Display)
    requires v.Arr? && !v.raw && Ok(v, false) && i <= |v.elems|
    ensures Emit(first, false, ElemTokens(v, i) + rest, show)
      == ElemsText(v, i, first, show) + Emit(false, false, rest, show)
    decreases v, 0, |v.elems| - i
  {
    if i == |v.elems| {
      EmitCons(first, false, EndArray, rest, show);
    } else {
      var c, tail := v.elems[i], ElemTokens(v, i + 1) + rest;
      Associate(Item(c, true), ElemTokens(v, i + 1), rest);
      EmitElems(v, i + 1, false, rest, show);
      if IsContainer(c) {
        EmitTokens(c, first, tail, show);
      } else {
        EmitCons(first, false, Elem(c), tail, show);
      }
      Associate(Separator(first) + TextOf(c, show), ElemsText(v, i + 1, false, show), Emit(false, false, rest, show));
    }
  }

  lemma EmitKey(k: Bytes, toks: seq<Token>, first: bool, show: Display)
    ensures Emit(first, false, [Key(k)] + toks, show) == PairHead(k, first) + AfterKey(toks, show)
  {
    EmitCons(first, false, Key(k), toks, show);
  }

  lemma {:induction false} EmitPairs(v: Value, i: nat, first: bool, rest: seq<Token>, show: Display)
    requires v.Obj? && Ok(v, false) && i <= |v.pairs|
    ensures Emit(first, false, PairTokens(v, i) + rest, show)
      == PairsText(v, i, first, show) + Emit(false, false, rest, show)
    decreases v, 0, |v.pairs| - i
  {
    if i == |v.pairs| {
      EmitCons(first, false, EndObject, rest, show);
    } else {
      var k, c, tail := v.pairs[i].key, v.pairs[i].value, PairTokens(v, i + 1) + rest;
      Associate([Key(k)], ValueTokens(v, i), rest);
      Associate(Item(c, false), PairTokens(v, i + 1), rest);
      EmitKey(k, ValueTokens(v, i) + rest, first, show);
      EmitPairs(v, i + 1, false, rest, show);
      EmitValue(c, tail, show);
      Associate(PairHead(k, first), TextOf(c, show), Emit(false, false, tail, show));
      Associate(PairHead(k, first) + TextOf(c, show), PairsText(v, i + 1, false, show), Emit(false, false, rest, show));
    }
  }

  /** What follows a key. */
  function AfterKey(toks: seq<Token>, show: Display): Bytes {
    if toks != [] && toks[0].Val? then ScalarText(toks[0].e, show) + Emit(false, false, toks[1..], show)
    else Emit(true, false, toks, show)
  }

  lemma {:induction false} EmitValue(c: Value, tail: seq<Token>, show: Display)
    requires Ok(c, false)
    ensures AfterKey(Item(c, false) + tail, show) == TextOf(c, show) + Emit(false, false, tail, show)
    decreases c, 2, 0
  {
    if IsContainer(c) {
      EmitTokens(c, true, tail, show);
      assert Separator(true) + TextOf(c, show) == TextOf(c, show);
      assert (Tokens(c) + tail)[0] == Tokens(c)[0];
    } else {
      EmitCons(true, false, Val(c), tail, show);
    }
  }

  /** The whole token stream comes out as the text of the value. */
  lemma EmitRoot(v: Value, show: Display)
    requires IsContainer(v) && Ok(v, true)
    ensures Emit(true, false, Tokens(v), show) == TextOf(v, show)
  {
    if v.Arr? && v.raw {
      var e := v.elems[0];
      assert ElemTokens(v, 1) == [EndArray] && ElemTokens(v, 0) == [Elem(e)] + [EndArray];
      EmitCons(true, false, BeginArray(1, true), [Elem(e)] + [EndArray], show);
      EmitCons(true, true, Elem(e), [EndArray], show);
      assert Emit(false, true, [EndArray], show) == [];
    } else {
      assert Ok(v, false);
      EmitTokens(v, true, [], show);
      assert Tokens(v) + [] == Tokens(v);
      assert Separator(true) + TextOf(v, show) == TextOf(v, show);
    }
  }

  // ---------------------------------------------------------------- the printer

  /** escape_gtype: stops at the NUL that ends the C string. */
  method EscapeGtype(buf: Bytes, str: Bytes) returns (out: Bytes)
    ensures out == buf + Escape(CString(str))
  {
    out := buf + [QUOTE];
    var p := 0;
    assert str[0..] == str;
    while p < |str| && str[p] != 0
      invariant 0 <= p <= |str|
      invariant out + EscapeBody(CString(str[p..])) == buf + [QUOTE] + EscapeBody(CString(str))
    {
      EscapeStep(str, p);
      Associate(out, EscapeByte(str[p]), EscapeBody(CString(str[p + 1..])));
      out := out + EscapeByte(str[p]);
      p := p + 1;
    }
    out := out + [QUOTE];
    Associate(buf, [QUOTE], EscapeBody(CString(str)));
    Associate(buf, [QUOTE] + EscapeBody(CString(str)), [QUOTE]);
  }

  lemma EscapeStep(str: Bytes, p: nat)
    requires p < |str| && str[p] != 0
    ensures EscapeBody(CString(str[p..])) == EscapeByte(str[p]) + EscapeBody(CString(str[p + 1..]))
  {
    var c := CString(str[p..]);
    assert str[p..][1..] == str[p + 1..];
    assert c[1..] == CString(str[p + 1..]);
  }

  /** gtype_put_escaped_value */
  method PutEscapedValue(buf: Bytes, v: Value, show: Display) returns (out: Bytes)
    ensures out == buf + ScalarText(v, show)
  {
    match v
    case Null => out := buf + NULL_WORD;
    case Str(s) => out := EscapeGtype(buf, s);
    case Bool(b) => out := buf + if b then TRUE_WORD else FALSE_WORD;
    case Ext(tag, p) => out := buf + if tag == 0 then IntText(IntOfBytes(p)) else show(v);
    case _ => out := buf + show(v);
  }

  /** Values come only behind keys, and behind a key comes a value or a container. */
  predicate Shaped(toks: seq<Token>)
    decreases |toks|
  {
    toks == [] ||
    match toks[0]
    case Val(_) => false
    case Done => false
    case Key(_) =>
      toks[1..] != [] && (if toks[1].Val? then Shaped(toks[2..])
                          else (toks[1].BeginArray? || toks[1].BeginObject?) && Shaped(toks[1..]))
    case _ => Shaped(toks[1..])
  }

  lemma {:induction false} ShapedTokens(v: Value, rest: seq<Token>)
    requires IsContainer(v) && Shaped(rest)
    ensures Shaped(Tokens(v) + rest)
    decreases v, 1, 0
  {
    if v.Arr? {
      Associate([BeginArray(|v.elems|, v.raw)], ElemTokens(v, 0), rest);
      EmitCons(true, false, BeginArray(|v.elems|, v.raw), ElemTokens(v, 0) + rest, _ => []);
      ShapedElems(v, 0, rest);
    } else {
      Associate([BeginObject(|v.pairs|)], PairTokens(v, 0), rest);
      EmitCons(true, false, BeginObject(|v.pairs|), PairTokens(v, 0) + rest, _ => []);
      ShapedPairs(v, 0, rest);
    }
  }

  lemma {:induction false} ShapedElems(v: Value, i: nat, rest: seq<Token>)
    requires v.Arr? && i <= |v.elems| && Shaped(rest)
    ensures Shaped(ElemTokens(v, i) + rest)
    decreases v, 0, |v.elems| - i
  {
    if i == |v.elems| {
      EmitCons(true, false, EndArray, rest, _ => []);
    } else {
      var c, tail := v.elems[i], ElemTokens(v, i + 1) + rest;
      Associate(Item(c, true), ElemTokens(v, i + 1), rest);
      ShapedElems(v, i + 1, rest);
      if IsContainer(c) { ShapedTokens(c, tail); } else { EmitCons(true, false, Elem(c), tail, _ => []); }
    }
  }

  lemma {:induction false} ShapedPairs(v: Value, i: nat, rest: seq<Token>)
    requires v.Obj? && i <= |v.pairs| && Shaped(rest)
    ensures Shaped(PairTokens(v, i) + rest)
    decreases v, 0, |v.pairs| - i
  {
    if i == |v.pairs| {
      EmitCons(true, false, EndObject, rest, _ => []);
    } else {
      var k, c, tail := v.pairs[i].key, v.pairs[i].value, PairTokens(v, i + 1) + rest;
      Associate([Key(k)], ValueTokens(v, i), rest);
      Associate(Item(c, false), PairTokens(v, i + 1), rest);
      ShapedPairs(v, i + 1, rest);
      ShapedValue(c, k, tail);
    }
  }

  lemma {:induction false} ShapedValue(c: Value, k: Bytes, tail: seq<Token>)
    requires Shaped(tail)
    ensures Shaped([Key(k)] + (Item(c, false) + tail))
    decreases c, 2, 0
  {
    var s := [Key(k)] + (Item(c, false) + tail);
    assert s[1..] == Item(c, false) + tail;
    if IsContainer(c) {
      ShapedTokens(c, tail);
      assert s[1] == Tokens(c)[0];
    } else {
      assert s[1] == Val(c) && s[2..] == tail;
    }
  }

  /** The loop's variables: what is written, its flags, and a token to run again with. */
  datatype Writer = Writer(out: Bytes, first: bool, raw: bool, again: seq<Token>)

  ghost predicate Writes(w: Writer, toks: seq<Token>, text: Bytes, show: Display) {
    |w.again| <= 1 && Shaped(w.again + toks) && w.out + Emit(w.first, w.raw, w.again + toks, show) == text
  }

  lemma Glue3(a: Bytes, b: Bytes, c: Bytes, d: Bytes)
    ensures a + (b + c + d) == (a + b + c) + d
  {
  }

  /** A turn that leaves no token to run again with. */
  lemma Turned(w: Writer, tok: Token, rest: seq<Token>, w': Writer, rest': seq<Token>, text: Bytes, show: Display)
    requires w.again == [] && Writes(w.(again := [tok]), rest, text, show) && w'.again == []
    requires match tok
      case BeginArray(_, r) =>
        rest' == rest && w' == Writer(w.out + Separator(w.first) + (if r then [] else [91]), true, w.raw || r, [])
      case BeginObject(_) => rest' == rest && w' == Writer(w.out + Separator(w.first) + [123], true, w.raw, [])
      case Elem(e) =>
        rest' == rest && w' == Writer(w.out + Separator(w.first) + ScalarText(e, show), false, w.raw, [])
      case EndArray => rest' == rest && w' == Writer(w.out + (if w.raw then [] else [93]), false, w.raw, [])
      case EndObject => rest' == rest && w' == Writer(w.out + [125], false, w.raw, [])
      case _ => false
    ensures Writes(w', rest', text, show)
  {
    EmitCons(w.first, w.raw, tok, rest, show);
    assert [] + rest == rest;
    var more := Emit(w'.first, w'.raw, rest, show);
    match tok
    case BeginArray(_, r) => Glue3(w.out, Separator(w.first), if r then [] else [91], more);
    case BeginObject(_) => Glue3(w.out, Separator(w.first), [123], more);
    case Elem(e) => Glue3(w.out, Separator(w.first), ScalarText(e, show), more);
    case EndArray => Associate(w.out, if w.raw then [] else [93], more);
    case EndObject => Associate(w.out, [125], more);
    case _ =>
  }

  /** The turn of a key, with the token read behind it. */
  lemma TurnedKey(w: Writer, k: Bytes, next: Token, rest: seq<Token>, text: Bytes, show: Display)
    requires w.again == [] && Writes(w.(again := [Key(k)]), [next] + rest, text, show)
    ensures var out := w.out + Separator(w.first) + ScalarText(Str(k), show) + COLON_SPACE;
      if next.Val? then Writes(Writer(out + ScalarText(next.e, show), false, w.raw, []), rest, text, show)
      else Writes(Writer(out, true, w.raw, [next]), rest, text, show)
  {
    EmitCons(w.first, w.raw, Key(k), [next] + rest, show);
    EmitCons(w.first, w.raw, next, rest, show);
    var all := [Key(k)] + ([next] + rest);
    assert all[1..] == [next] + rest && all[2..] == rest && all[1] == next;
    assert [] + rest == rest;
    var head := Separator(w.first) + ScalarText(Str(k), show) + COLON_SPACE;
    var out := w.out + Separator(w.first) + ScalarText(Str(k), show) + COLON_SPACE;
    assert out == w.out + head;
    if next.Val? {
      var more := Emit(false, w.raw, rest, show);
      Associate(head, ScalarText(next.e, show), more);
      Associate(w.out, head, ScalarText(next.e, show) + more);
      Associate(out, ScalarText(next.e, show), more);
    } else {
      Associate(w.out, head, Emit(true, w.raw, [next] + rest, show));
    }
  }

  /** One turn of the switch of gtype_to_cstring_worker; after a key it reads one token more, and
      asks to run again with it unless it was a value. */
  method PrintToken(it: Iterator, w: Writer, tok: Token, show: Display, ghost text: Bytes)
    returns (ok: bool, w': Writer)
    requires it.Valid() && w.again == [] && Writes(w.(again := [tok]), it.Remaining(), text, show)
    modifies it
    ensures ok && it.Valid() && Writes(w', it.Remaining(), text, show)
    ensures |it.Remaining()| + |w'.again| <= old(|it.Remaining()|)
  {
    ghost var rest := it.Remaining();
    assert ([tok] + rest)[0] == tok && ([tok] + rest)[1..] == rest;
    var out := w.out + Separator(w.first);
    ok := true;
    match tok {
      case BeginArray(_, r) => w' := Writer(out + (if r then [] else [91]), true, w.raw || r, []);
      case BeginObject(_) => w' := Writer(out + [123], true, w.raw, []);
      case Key(k) =>
        out := PutEscapedValue(out, Str(k), show);
        out := out + COLON_SPACE;
        var next := it.Next();
        assert rest == [next] + it.Remaining();
        TurnedKey(w, k, next, it.Remaining(), text, show);
        if next.Val? {
          out := PutEscapedValue(out, next.e, show);
          w' := Writer(out, false, w.raw, []);
        } else {
          w' := Writer(out, true, w.raw, [next]);
        }
        return;
      case Elem(e) =>
        out := PutEscapedValue(out, e, show);
        w' := Writer(out, false, w.raw, []);
      case EndArray => w' := Writer(w.out + (if w.raw then [] else [93]), false, w.raw, []);
      case EndObject => w' := Writer(w.out + [125], false, w.raw, []);
      case _ =>
        return false, w;
    }
    Turned(w, tok, rest, w', rest, text, show);
  }

  /** gtype_to_cstring: what is written is the text of the value. */
  method ToCString(g: Bytes, pos: nat, show: Display, ghost v: Value) returns (ok: bool, out: Bytes)
    requires Readable(g, pos, v)
    ensures ok && out == TextOf(v, show)
  {
    ghost var text := TextOf(v, show);
    EmitRoot(v, show);
    ShapedTokens(v, []);
    assert Tokens(v) + [] == Tokens(v);
    var it := new Iterator(g, pos, v);
    var w := Writer([], true, false, []);
    assert [] + it.Remaining() == it.Remaining();
    ok := true;
    while true
      invariant it.Valid() && ok && Writes(w, it.Remaining(), text, show)
      decreases |it.Remaining()| + |w.again|
    {
      var tok;
      if w.again != [] {
        tok := w.again[0];
        w := w.(again := []);
      } else {
        ghost var toks := it.Remaining();
        tok := it.Next();
        assert [] + toks == toks;
        if tok == Done {
          break;
        }
      }
      ok, w := PrintToken(it, w, tok, show, text);
    }
    out := w.out;
    assert w.again + [] == [];
  }
}
