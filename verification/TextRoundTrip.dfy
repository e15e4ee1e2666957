/** Printed text lexes to the lexemes of the value's parse tree, and so parses back to the value. */
module TextRoundTrip {
  import opened Common
  import opened GtypeEntry
  import opened GtypeKeys
  import opened GtypeValue
  import opened GtypeEncode
  import opened GtypeIterate
  import opened GtypePush
  import opened LexRules
  import opened LexMeaning
  import opened Lexer
  import opened ParseRules
  import opened Parser
  import opened Printer

  // ---------------------------------------------------------------- strings

  predicate NoNul(s: Bytes) { forall i :: 0 <= i < |s| ==> s[i] != 0 }

  lemma {:induction false} CStringAll(s: Bytes)
    requires NoNul(s)
    ensures CString(s) == s
  {
    if s != [] { CStringAll(s[1..]); }
  }

  lemma AfterOne(c: Byte, k: nat, s: Bytes, n: nat)
    ensures After([c], k, Literal(s, n)) == Literal([c] + s, k + n)
  {
  }

  /** One escaped byte gives the byte back, whatever follows. */
  lemma UnescapeByte(c: Byte, b: Bytes, utf8: bool)
    requires c != 0
    ensures StringBody(EscapeByte(c) + b, -1, utf8) == After([c], |EscapeByte(c)|, StringBody(b, -1, utf8))
  {
    var e := EscapeByte(c);
    var s := e + b;
    assert s[|e|..] == b;
    if c < 32 && |e| == 6 {
      UnescapeUnit(c, b, utf8);
    } else if |e| == 2 {
      assert s[0] == BACKSLASH && s[1] == e[1] && e[1] != 117;
      assert Escaped(e[1]) == [c];
    } else {
      assert s[0] == c;
    }
  }

  lemma UnescapeUnit(c: Byte, b: Bytes, utf8: bool)
    requires 0 < c < 32
    ensures var s := [BACKSLASH, 117, ZERO, ZERO, HexDigit(c / 16), HexDigit(c % 16)] + b;
      StringBody(s, -1, utf8) == After([c], 6, StringBody(b, -1, utf8))
  {
    var s := [BACKSLASH, 117, ZERO, ZERO, HexDigit(c / 16), HexDigit(c % 16)] + b;
    var d := s[2..];
    assert d[0] == ZERO && d[1] == ZERO && d[2] == HexDigit(c / 16) && d[3] == HexDigit(c % 16);
    assert Code(d) == c;
    assert UnitOf(c, -1, utf8) == Char([c]);
    assert s[6..] == b;
  }

  /** Lexing the escaped form of a string returns it and stops exactly at the closing quote. */
  lemma {:induction false} Unescape(s: Bytes, rest: Bytes, utf8: bool)
    requires NoNul(s)
    ensures StringBody(EscapeBody(s) + ([QUOTE] + rest), -1, utf8) == Literal(s, |EscapeBody(s)| + 1)
    decreases |s|
  {
    var tail := [QUOTE] + rest;
    if s == [] {
      assert EscapeBody(s) + tail == tail && tail[0] == QUOTE;
    } else {
      Unescape(s[1..], rest, utf8);
      Associate(EscapeByte(s[0]), EscapeBody(s[1..]), tail);
      UnescapeByte(s[0], EscapeBody(s[1..]) + tail, utf8);
      AfterOne(s[0], |EscapeByte(s[0])|, s[1..], |EscapeBody(s[1..])| + 1);
      assert [s[0]] + s[1..] == s;
    }
  }

  // ---------------------------------------------------------------- integers

  lemma {:induction false} DecimalsAre(n: nat)
    ensures Decimals(n) != [] && forall i :: 0 <= i < |Decimals(n)| ==> IsDigit(Decimals(n)[i])
    ensures Decimal(Decimals(n)) == n
    ensures Decimals(n)[0] == ZERO <==> n == 0
    ensures n == 0 ==> |Decimals(n)| == 1
    decreases n
  {
    var d := Decimals(n);
    if n < 10 {
      assert d[..0] == [];
    } else {
      DecimalsAre(n / 10);
      assert d[..|d| - 1] == Decimals(n / 10);
    }
  }

  lemma {:induction false} DigitsThenStop(d: Bytes, rest: Bytes)
    requires forall i :: 0 <= i < |d| ==> IsDigit(d[i])
    requires rest == [] || !IsDigit(rest[0])
    ensures DigitRun(d + rest) == |d|
    decreases |d|
  {
    if d == [] {
      assert d + rest == rest;
    } else {
      DigitsThenStop(d[1..], rest);
      assert (d + rest)[1..] == d[1..] + rest;
    }
  }

  lemma NumberIs(n: nat, rest: Bytes)
    requires Ends(rest)
    ensures Number(Decimals(n) + rest) == Numeral(INTEGER, |Decimals(n)|, true)
  {
    var d := Decimals(n);
    var b := d + rest;
    DecimalsAre(n);
    DigitsThenStop(d, rest);
    assert b[0] == d[0];
    assert Whole(b) == Numeral(INTEGER, |d|, true);
    assert b[|d|..] == rest;
    assert Fraction(b, Whole(b)) == Whole(b);
    assert Suffix(b, Whole(b)) == Whole(b);
    assert WordRun(rest) == 0;
  }

  lemma IntLexes(n: int, rest: Bytes, utf8: bool)
    requires Ends(rest)
    ensures LexAt(IntText(n) + rest, utf8) == Found(Lexeme(INTEGER, IntText(n)), |IntText(n)|)
  {
    IntToken(n, rest, utf8);
    assert (IntText(n) + rest)[0] == IntText(n)[0];
    NoBlankFirst(IntText(n) + rest, utf8);
  }

  lemma IntToken(n: int, rest: Bytes, utf8: bool)
    requires Ends(rest)
    ensures LexRules.Token(IntText(n) + rest, utf8) == Found(Lexeme(INTEGER, IntText(n)), |IntText(n)|)
    ensures IntText(n) != [] && !IsSpace(IntText(n)[0])
  {
    var m: nat := if n < 0 then -n else n;
    DecimalsAre(m);
    if n < 0 {
      MinusToken(m, rest, utf8);
    } else {
      PlainToken(m, rest, utf8);
    }
  }

  lemma PlainToken(m: nat, rest: Bytes, utf8: bool)
    requires Ends(rest)
    ensures LexRules.Token(Decimals(m) + rest, utf8) == Found(Lexeme(INTEGER, Decimals(m)), |Decimals(m)|)
  {
    var d, b := Decimals(m), Decimals(m) + rest;
    DecimalsAre(m);
    NumberIs(m, rest);
    assert b[0] == d[0] && b[0..] == b && b[..|d|] == d;
    assert LexRules.Token(b, utf8) == NumberToken(b, 0);
  }

  lemma MinusToken(m: nat, rest: Bytes, utf8: bool)
    requires Ends(rest)
    ensures var t := [MINUS] + Decimals(m);
      LexRules.Token(t + rest, utf8) == Found(Lexeme(INTEGER, t), |t|)
  {
    var d, t := Decimals(m), [MINUS] + Decimals(m);
    var b := t + rest;
    DecimalsAre(m);
    NumberIs(m, rest);
    MinusFirst(d, rest);
    assert LexRules.Token(b, utf8) == NumberToken(b, 1);
  }

  lemma MinusFirst(d: Bytes, rest: Bytes)
    requires d != []
    ensures var t := [MINUS] + d; var b := t + rest;
      b[0] == MINUS && b[1] == d[0] && b[1..] == d + rest && b[..|t|] == t
  {
  }

  /** Digits without a zero in front of others, behind a minus exactly for negative numbers. */
  lemma IntShape(n: int)
    ensures n >= 0 ==> WholeText(IntText(n))
    ensures n < 0 ==> IntText(n)[0] == '-' as int && WholeText(IntText(n)[1..]) && IntText(n)[1..] != [48]
  {
    DecimalsAre(if n < 0 then -n else n);
    var d := Decimals(if n < 0 then -n else n);
    assert d == [48] ==> Decimal(d) == 0;
  }

  lemma IntReads(n: int)
    ensures PlainInt(IntText(n)) && IntOf(IntText(n)) == n
  {
    var t := IntText(n);
    var m: nat := if n < 0 then -n else n;
    DecimalsAre(m);
    DigitsThenStop(Decimals(m), []);
    assert Decimals(m) + [] == Decimals(m);
    if n < 0 { assert t[1..] == Decimals(m); }
  }

  lemma {:induction false} LittleEndianBack(p: Bytes)
    ensures LittleEndian(FromLittleEndian(p), |p|) == p
    decreases |p|
  {
    if p != [] {
      LowByte(p[0], FromLittleEndian(p[1..]));
      LittleEndianBack(p[1..]);
      assert p == [p[0]] + p[1..];
    }
  }

  lemma LowByte(c: Byte, n: nat)
    ensures (c + 256 * n) % 256 == c && (c + 256 * n) / 256 == n
  {
  }

  function Bound(k: nat): nat { if k == 0 then 1 else 256 * Bound(k - 1) }

  lemma {:induction false} Bounded(p: Bytes)
    ensures FromLittleEndian(p) < Bound(|p|)
    decreases |p|
  {
    if p != [] { Bounded(p[1..]); }
  }

  /** Eight bytes hold a 64-bit number, and the number gives the bytes back. */
  lemma Int64Back(p: Bytes)
    requires |p| == 8
    ensures -TWO_63 <= IntOfBytes(p) < TWO_63 && IntBytes(IntOfBytes(p)) == p
  {
    Bounded(p);
    assert Bound(8) == TWO_64 by {
      assert Bound(4) == 0x1_0000_0000;
      assert Bound(5) == 256 * Bound(4);
      assert Bound(6) == 256 * Bound(5);
      assert Bound(7) == 256 * Bound(6);
    }
    LittleEndianBack(p);
    assert IntOfBytes(p) % TWO_64 == FromLittleEndian(p);
  }

  // ---------------------------------------------------------------- values

  /** A value of a library type whose printed text is one float or address lexeme that the library
      reads back as the value. */
  ghost predicate ReadsBack(v: Value, lib: Library, show: Display) {
    && (v.Num? || (v.Ext? && v.tag != 0 && v.tag != GtypeValue.TIMESTAMP)) && Ok(v, false)
    && if FloatLexeme(show(v)) then lib(FLOAT, show(v)) == Some(v)
       else AddressLexeme(show(v)) && lib(INET, show(v)) == Some(v)
  }

  /** Built from null, booleans, 64-bit integers, NUL-free strings, library values that read back, arrays
      and objects. */
  ghost predicate Printable(v: Value, lib: Library, show: Display)
    decreases v
  {
    match v
    case Null => true
    case Bool(_) => true
    case Str(s) => NoNul(s) && |s| <= OFFLENMASK
    case Num(_) => ReadsBack(v, lib, show)
    case Ext(tag, p) => if tag == 0 then |p| == 8 else ReadsBack(v, lib, show)
    case Arr(es, raw) => !raw && forall i :: 0 <= i < |es| ==> Printable(es[i], lib, show)
    case Obj(ps) =>
      forall i :: 0 <= i < |ps| ==> NoNul(ps[i].key) && |ps[i].key| <= OFFLENMASK && Printable(ps[i].value, lib, show)
  }

  ghost function LexemeOf(v: Value, show: Display): Lexeme {
    match v
    case Null => Lexeme(NULL, NULL_WORD)
    case Bool(b) => if b then Lexeme(TRUE, TRUE_WORD) else Lexeme(FALSE, FALSE_WORD)
    case Str(s) => Lexeme(STRING, s)
    case Ext(tag, p) => if tag == 0 then Lexeme(INTEGER, IntText(IntOfBytes(p))) else LibraryLexeme(show(v))
    case _ => LibraryLexeme(show(v))
  }

  ghost function LibraryLexeme(t: Bytes): Lexeme { Lexeme(if FloatLexeme(t) then FLOAT else INET, t) }

  /** The parse tree of a value's text. */
  ghost function TreeOf(v: Value, show: Display): Tree
    decreases v
  {
    match v
    case Arr(es, _) => Elems(seq(|es|, i requires 0 <= i < |es| => TreeOf(es[i], show)))
    case Obj(ps) => Fields(seq(|ps|, i requires 0 <= i < |ps| => Pair(ps[i].key, TreeOf(ps[i].value, show))))
    case _ => Leaf(LexemeOf(v, show), None)
  }

  lemma WordLexes(w: Bytes, k: Kind, rest: Bytes, utf8: bool)
    requires (w == TRUE_WORD && k == TRUE) || (w == FALSE_WORD && k == FALSE) || (w == NULL_WORD && k == NULL)
    requires Ends(rest)
    ensures LexAt(w + rest, utf8) == Found(Lexeme(k, w), |w|)
  {
    var b := w + rest;
    WordThenStop(w, rest);
    assert b[..|w|] == w && b[0] == w[0] && b[0..] == b;
    assert SpaceRun(b) == 0;
    assert WordKind(w) == k by {
      assert |NAN_WORD| == 3 && |INF_WORD| == 3 && |INFINITY_WORD| == 8;
      assert TRUE_WORD[0] != FALSE_WORD[0] && TRUE_WORD[0] != NULL_WORD[0] && NULL_WORD[0] != FALSE_WORD[0];
    }
  }

  lemma {:induction false} WordThenStop(w: Bytes, rest: Bytes)
    requires Ends(rest) && forall i :: 0 <= i < |w| ==> IsWord(w[i])
    ensures WordRun(w + rest) == |w|
    decreases |w|
  {
    if w == [] {
      assert w + rest == rest;
    } else {
      WordThenStop(w[1..], rest);
      assert (w + rest)[1..] == w[1..] + rest;
    }
  }

  lemma StringLexes(s: Bytes, rest: Bytes, utf8: bool)
    requires NoNul(s)
    ensures LexAt(Escape(s) + rest, utf8) == Found(Lexeme(STRING, s), |Escape(s)|)
  {
    var b := Escape(s) + rest;
    Unescape(s, rest, utf8);
    assert b[1..] == EscapeBody(s) + ([QUOTE] + rest);
    assert b[0] == QUOTE;
    NoBlankFirst(b, utf8);
  }

  lemma {:induction false} CStringHas(s: Bytes)
    ensures NoNul(CString(s)) && (CString(s) == s <==> NoNul(s))
    decreases |s|
  {
    if s != [] {
      CStringHas(s[1..]);
      assert s == [s[0]] + s[1..];
    }
  }

  /** A string's printed literal reads back as the string up to its first NUL, so as the string itself
      exactly when it holds none. */
  lemma LiteralIff(s: Bytes, rest: Bytes, utf8: bool)
    ensures var f := LexAt(Escape(CString(s)) + rest, utf8);
      && f.Found? && f.used == |Escape(CString(s))|
      && (f.lex == Lexeme(STRING, s) <==> NoNul(s))
  {
    CStringHas(s);
    StringLexes(CString(s), rest, utf8);
  }

  lemma ScalarLexes(v: Value, rest: Bytes, utf8: bool, show: Display, lib: Library)
    requires Printable(v, lib, show) && !IsContainer(v) && Ends(rest)
    ensures LexAt(ScalarText(v, show) + rest, utf8) == Found(LexemeOf(v, show), |ScalarText(v, show)|)
  {
    match v
    case Null => WordLexes(NULL_WORD, NULL, rest, utf8);
    case Bool(b) => WordLexes(if b then TRUE_WORD else FALSE_WORD, if b then TRUE else FALSE, rest, utf8);
    case Str(s) =>
      CStringAll(s);
      StringLexes(s, rest, utf8);
    case Ext(tag, p) =>
      if tag == 0 { IntLexes(IntOfBytes(p), rest, utf8); } else { LibraryLexes(v, rest, utf8, show, lib); }
    case Num(_) => LibraryLexes(v, rest, utf8, show, lib);
  }

  lemma LibraryLexes(v: Value, rest: Bytes, utf8: bool, show: Display, lib: Library)
    requires ReadsBack(v, lib, show) && Ends(rest)
    ensures LexAt(show(v) + rest, utf8) == Found(LibraryLexeme(show(v)), |show(v)|)
  {
    if FloatLexeme(show(v)) { FloatLexes(show(v), rest, utf8); } else { AddressLexes(show(v), rest, utf8); }
  }

  // ---------------------------------------------------------------- the stream of a text

  lemma StreamAfter(t: Bytes, rest: Bytes, x: Lexeme, utf8: bool)
    requires LexAt(t + rest, utf8) == Found(x, |t|) && x.Lexeme? && x.kind != END
    ensures Stream(t + rest, utf8) == [x] + Stream(rest, utf8)
  {
    StreamStep(t + rest, utf8);
    assert (t + rest)[|t|..] == rest;
  }

  /** One-character lexemes; a colon counts as one unless another follows. */
  lemma MarkStream(c: Byte, k: Kind, rest: Bytes, utf8: bool)
    requires (Punctuation(c) == k && k != IDENTIFIER) || (c == 58 && k == COLON && rest != [] && rest[0] != 58)
    ensures Stream([c] + rest, utf8) == [Mark(k)] + Stream(rest, utf8)
  {
    var b := [c] + rest;
    assert b[0] == c && b[0..] == b && SpaceRun(b) == 0;
    assert c == 58 ==> b[1] == rest[0];
    StreamAfter([c], rest, Mark(k), utf8);
  }

  lemma SpaceStream(rest: Bytes, utf8: bool)
    ensures Stream([32] + rest, utf8) == Stream(rest, utf8)
  {
    BlankLexes(32, rest, utf8);
    StreamStep([32] + rest, utf8);
    StreamStep(rest, utf8);
    Beyond(32, rest, LexAt(rest, utf8));
  }

  lemma Beyond(c: Byte, rest: Bytes, f: Found)
    ensures f.Found? && f.used <= |rest| ==> ([c] + rest)[1 + f.used..] == rest[f.used..]
  {
  }

  lemma CommaStream(rest: Bytes, utf8: bool)
    ensures Stream(COMMA_SPACE + rest, utf8) == [Mark(COMMA)] + Stream(rest, utf8)
  {
    assert COMMA_SPACE + rest == [44] + ([32] + rest);
    MarkStream(44, COMMA, [32] + rest, utf8);
    SpaceStream(rest, utf8);
  }

  lemma ColonStream(rest: Bytes, utf8: bool)
    ensures Stream(COLON_SPACE + rest, utf8) == [Mark(COLON)] + Stream(rest, utf8)
  {
    assert COLON_SPACE + rest == [58] + ([32] + rest);
    MarkStream(58, COLON, [32] + rest, utf8);
    SpaceStream(rest, utf8);
  }

  lemma LeafShape(v: Value, show: Display)
    requires !IsContainer(v)
    ensures TextOf(v, show) == ScalarText(v, show) && Yield(TreeOf(v, show)) == [LexemeOf(v, show)]
    ensures LexemeOf(v, show).Lexeme? && LexemeOf(v, show).kind != END
  {
  }

  lemma ScalarStream(v: Value, rest: Bytes, utf8: bool, show: Display, lib: Library)
    requires Printable(v, lib, show) && !IsContainer(v) && Ends(rest)
    ensures Stream(TextOf(v, show) + rest, utf8) == Yield(TreeOf(v, show)) + Stream(rest, utf8)
  {
    LeafShape(v, show);
    ScalarLexes(v, rest, utf8, show, lib);
    StreamAfter(TextOf(v, show), rest, LexemeOf(v, show), utf8);
  }

  /** The text of a value lexes to the lexemes of its tree. */
  lemma {:induction false} TextStream(v: Value, rest: Bytes, utf8: bool, show: Display, lib: Library)
    requires Printable(v, lib, show) && Ends(rest)
    ensures Stream(TextOf(v, show) + rest, utf8) == Yield(TreeOf(v, show)) + Stream(rest, utf8)
    decreases v, 1, 0, 0
  {
    if v.Arr? {
      ArrayStream(v, rest, utf8, show, lib);
    } else if v.Obj? {
      ObjectStream(v, rest, utf8, show, lib);
    } else {
      ScalarStream(v, rest, utf8, show, lib);
    }
  }

  /** Text and lexemes of a container, bracket first. */
  lemma ArrayShape(v: Value, show: Display, lib: Library)
    requires v.Arr? && Printable(v, lib, show)
    ensures TextOf(v, show) == [91] + ElemsText(v, 0, true, show)
    ensures Yield(TreeOf(v, show)) == [Mark(ARRAY_START)] + if v.elems == [] then [Mark(ARRAY_END)] else YieldElems(TreeOf(v, show), 0)
  {
  }

  lemma ObjectShape(v: Value, show: Display)
    requires v.Obj?
    ensures TextOf(v, show) == [123] + PairsText(v, 0, true, show)
    ensures Yield(TreeOf(v, show)) == [Mark(OBJECT_START)] + if v.pairs == [] then [Mark(OBJECT_END)] else YieldFields(TreeOf(v, show), 0)
  {
  }

  lemma ElemsFirst(v: Value, show: Display)
    requires v.Arr? && v.elems != []
    ensures ElemsText(v, 0, true, show) == TextOf(v.elems[0], show) + ElemsText(v, 1, false, show)
  {
    assert Separator(true) + TextOf(v.elems[0], show) == TextOf(v.elems[0], show);
  }

  lemma ElemsNext(v: Value, i: nat, show: Display)
    requires v.Arr? && i < |v.elems|
    ensures ElemsText(v, i, false, show)
      == COMMA_SPACE + (TextOf(v.elems[i], show) + ElemsText(v, i + 1, false, show))
  {
    Associate(COMMA_SPACE, TextOf(v.elems[i], show), ElemsText(v, i + 1, false, show));
  }

  lemma PairsFirst(v: Value, show: Display)
    requires v.Obj? && v.pairs != []
    ensures PairsText(v, 0, true, show) == PairText(v, 0, show) + PairsText(v, 1, false, show)
  {
    assert Separator(true) + Escape(CString(v.pairs[0].key)) == Escape(CString(v.pairs[0].key));
  }

  lemma PairsNext(v: Value, i: nat, show: Display)
    requires v.Obj? && i < |v.pairs|
    ensures PairsText(v, i, false, show) == COMMA_SPACE + (PairText(v, i, show) + PairsText(v, i + 1, false, show))
  {
    var e, text := Escape(CString(v.pairs[i].key)), TextOf(v.pairs[i].value, show);
    Associate(COMMA_SPACE, e, COLON_SPACE);
    Associate(COMMA_SPACE, e + COLON_SPACE, text);
    Associate(COMMA_SPACE, PairText(v, i, show), PairsText(v, i + 1, false, show));
  }

  lemma {:induction false} ArrayStream(v: Value, rest: Bytes, utf8: bool, show: Display, lib: Library)
    requires v.Arr? && Printable(v, lib, show)
    ensures Stream(TextOf(v, show) + rest, utf8) == Yield(TreeOf(v, show)) + Stream(rest, utf8)
    decreases v, 0, |v.elems| + 1, 0
  {
    ArrayShape(v, show, lib);
    Associate([91], ElemsText(v, 0, true, show), rest);
    MarkStream(91, ARRAY_START, ElemsText(v, 0, true, show) + rest, utf8);
    if v.elems == [] {
      MarkStream(93, ARRAY_END, rest, utf8);
      Associate([Mark(ARRAY_START)], [Mark(ARRAY_END)], Stream(rest, utf8));
    } else {
      ElemsFirst(v, show);
      ElemsStream(v, 0, rest, utf8, show, lib);
      Associate([Mark(ARRAY_START)], YieldElems(TreeOf(v, show), 0), Stream(rest, utf8));
    }
  }

  lemma {:induction false} ElemsStream(v: Value, i: nat, rest: Bytes, utf8: bool, show: Display, lib: Library)
    requires v.Arr? && Printable(v, lib, show) && i < |v.elems|
    ensures Stream((TextOf(v.elems[i], show) + ElemsText(v, i + 1, false, show)) + rest, utf8)
      == YieldElems(TreeOf(v, show), i) + Stream(rest, utf8)
    decreases v, 0, |v.elems| - i, 0
  {
    var t, c, tail := TreeOf(v, show), v.elems[i], ElemsText(v, i + 1, false, show);
    Associate(TextOf(c, show), tail, rest);
    TextStream(c, tail + rest, utf8, show, lib);
    ElemsTailStream(v, i + 1, rest, utf8, show, lib);
    assert YieldElem(t.kids[i]) == Yield(TreeOf(c, show));
    Associate(YieldElem(t.kids[i]), ElemsTail(t, i + 1), Stream(rest, utf8));
  }

  lemma {:induction false} ElemsTailStream(v: Value, i: nat, rest: Bytes, utf8: bool, show: Display, lib: Library)
    requires v.Arr? && Printable(v, lib, show) && i <= |v.elems|
    ensures Stream(ElemsText(v, i, false, show) + rest, utf8) == ElemsTail(TreeOf(v, show), i) + Stream(rest, utf8)
    decreases v, 0, |v.elems| - i, 1
  {
    var t := TreeOf(v, show);
    if i == |v.elems| {
      MarkStream(93, ARRAY_END, rest, utf8);
    } else {
      var body := TextOf(v.elems[i], show) + ElemsText(v, i + 1, false, show);
      ElemsNext(v, i, show);
      Associate(COMMA_SPACE, body, rest);
      CommaStream(body + rest, utf8);
      ElemsStream(v, i, rest, utf8, show, lib);
      Associate([Mark(COMMA)], YieldElems(t, i), Stream(rest, utf8));
    }
  }

  lemma {:induction false} ObjectStream(v: Value, rest: Bytes, utf8: bool, show: Display, lib: Library)
    requires v.Obj? && Printable(v, lib, show)
    ensures Stream(TextOf(v, show) + rest, utf8) == Yield(TreeOf(v, show)) + Stream(rest, utf8)
    decreases v, 0, |v.pairs| + 1, 0
  {
    ObjectShape(v, show);
    Associate([123], PairsText(v, 0, true, show), rest);
    MarkStream(123, OBJECT_START, PairsText(v, 0, true, show) + rest, utf8);
    if v.pairs == [] {
      MarkStream(125, OBJECT_END, rest, utf8);
      Associate([Mark(OBJECT_START)], [Mark(OBJECT_END)], Stream(rest, utf8));
    } else {
      PairsFirst(v, show);
      PairsStream(v, 0, rest, utf8, show, lib);
      Associate([Mark(OBJECT_START)], YieldFields(TreeOf(v, show), 0), Stream(rest, utf8));
    }
  }

  function PairText(v: Value, i: nat, show: Display): Bytes
    requires v.Obj? && i < |v.pairs|
  {
    Escape(CString(v.pairs[i].key)) + COLON_SPACE + TextOf(v.pairs[i].value, show)
  }

  lemma KeyStream(key: Bytes, b: Bytes, utf8: bool)
    requires NoNul(key)
    ensures Stream((Escape(CString(key)) + COLON_SPACE) + b, utf8)
      == [Lexeme(STRING, key), Mark(COLON)] + Stream(b, utf8)
  {
    CStringAll(key);
    Associate(Escape(key), COLON_SPACE, b);
    StringLexes(key, COLON_SPACE + b, utf8);
    StreamAfter(Escape(key), COLON_SPACE + b, Lexeme(STRING, key), utf8);
    ColonStream(b, utf8);
    Associate([Lexeme(STRING, key)], [Mark(COLON)], Stream(b, utf8));
  }

  lemma {:induction false} PairStream(f: Pair<Value>, rest: Bytes, utf8: bool, show: Display, lib: Library)
    requires NoNul(f.key) && Printable(f.value, lib, show) && Ends(rest)
    ensures Stream((Escape(CString(f.key)) + COLON_SPACE + TextOf(f.value, show)) + rest, utf8)
      == YieldField(Pair(f.key, TreeOf(f.value, show))) + Stream(rest, utf8)
    decreases f.value, 2, 0, 0
  {
    Associate(Escape(CString(f.key)) + COLON_SPACE, TextOf(f.value, show), rest);
    KeyStream(f.key, TextOf(f.value, show) + rest, utf8);
    TextStream(f.value, rest, utf8, show, lib);
    Associate([Lexeme(STRING, f.key), Mark(COLON)], Yield(TreeOf(f.value, show)), Stream(rest, utf8));
  }

  lemma {:induction false} PairsStream(v: Value, i: nat, rest: Bytes, utf8: bool, show: Display, lib: Library)
    requires v.Obj? && Printable(v, lib, show) && i < |v.pairs|
    ensures Stream((PairText(v, i, show) + PairsText(v, i + 1, false, show)) + rest, utf8)
      == YieldFields(TreeOf(v, show), i) + Stream(rest, utf8)
    decreases v, 0, |v.pairs| - i, 0
  {
    var t, tail := TreeOf(v, show), PairsText(v, i + 1, false, show);
    Associate(PairText(v, i, show), tail, rest);
    PairStream(v.pairs[i], tail + rest, utf8, show, lib);
    PairsTailStream(v, i + 1, rest, utf8, show, lib);
    assert t.pairs[i] == Pair(v.pairs[i].key, TreeOf(v.pairs[i].value, show));
    Associate(YieldField(t.pairs[i]), FieldsTail(t, i + 1), Stream(rest, utf8));
  }

  lemma {:induction false} PairsTailStream(v: Value, i: nat, rest: Bytes, utf8: bool, show: Display, lib: Library)
    requires v.Obj? && Printable(v, lib, show) && i <= |v.pairs|
    ensures Stream(PairsText(v, i, false, show) + rest, utf8) == FieldsTail(TreeOf(v, show), i) + Stream(rest, utf8)
    ensures Ends(PairsText(v, i, false, show) + rest)
    decreases v, 0, |v.pairs| - i, 1
  {
    var t := TreeOf(v, show);
    if i == |v.pairs| {
      MarkStream(125, OBJECT_END, rest, utf8);
    } else {
      var body := PairText(v, i, show) + PairsText(v, i + 1, false, show);
      PairsNext(v, i, show);
      Associate(COMMA_SPACE, body, rest);
      CommaStream(body + rest, utf8);
      PairsStream(v, i, rest, utf8, show, lib);
      Associate([Mark(COMMA)], YieldFields(t, i), Stream(rest, utf8));
    }
  }

  // ---------------------------------------------------------------- print, then parse

  lemma {:induction false} TreeMeans(v: Value, lib: Library, show: Display)
    requires Printable(v, lib, show)
    ensures Legal(TreeOf(v, show), lib) && Meaning(TreeOf(v, show), lib) == v
    decreases v
  {
    match v
    case Arr(es, _) =>
      forall i | 0 <= i < |es| ensures MeansBack(es[i], lib, show) { TreeMeans(es[i], lib, show); }
      ArrMeans(v, lib, show);
    case Obj(ps) =>
      forall i | 0 <= i < |ps| ensures MeansBack(ps[i].value, lib, show) { TreeMeans(ps[i].value, lib, show); }
      ObjMeans(v, lib, show);
    case Ext(tag, p) =>
      if tag == 0 {
        Int64Back(p);
        IntReads(IntOfBytes(p));
      } else {
        LibraryMeans(v, lib, show);
      }
    case Num(_) => LibraryMeans(v, lib, show);
    case _ =>
  }

  lemma LibraryMeans(v: Value, lib: Library, show: Display)
    requires ReadsBack(v, lib, show)
    ensures var t := Leaf(LibraryLexeme(show(v)), None); Legal(t, lib) && Meaning(t, lib) == v
  {
  }

  ghost predicate MeansBack(v: Value, lib: Library, show: Display) {
    Printable(v, lib, show) && Legal(TreeOf(v, show), lib) && Meaning(TreeOf(v, show), lib) == v
  }

  lemma ArrMeans(v: Value, lib: Library, show: Display)
    requires Printable(v, lib, show) && v.Arr? && forall i :: 0 <= i < |v.elems| ==> MeansBack(v.elems[i], lib, show)
    ensures MeansBack(v, lib, show)
  {
    var t := TreeOf(v, show);
    forall i | 0 <= i < |v.elems| ensures Legal(t.kids[i], lib) && Meaning(t.kids[i], lib) == v.elems[i] {
      assert MeansBack(v.elems[i], lib, show);
    }
    MeansElems(t, |v.elems|, lib);
    assert MeaningElems(t, |v.elems|, lib) == v.elems;
  }

  lemma ObjMeans(v: Value, lib: Library, show: Display)
    requires Printable(v, lib, show) && v.Obj? && forall i :: 0 <= i < |v.pairs| ==> MeansBack(v.pairs[i].value, lib, show)
    ensures MeansBack(v, lib, show)
  {
    var t := TreeOf(v, show);
    forall i | 0 <= i < |v.pairs| ensures Legal(t.pairs[i].value, lib) && Meaning(t.pairs[i].value, lib) == v.pairs[i].value {
      assert MeansBack(v.pairs[i].value, lib, show);
    }
    MeansPairs(t, |v.pairs|, lib);
    assert MeaningPairs(t, |v.pairs|, lib) == v.pairs;
  }

  /** The text of a printable value has exactly one parse, and its meaning is the value. */
  lemma TextParses(v: Value, utf8: bool, lib: Library, show: Display)
    requires Printable(v, lib, show)
    ensures ParseAll(Stream(TextOf(v, show), utf8), lib) == Some(TreeOf(v, show)) && Meaning(TreeOf(v, show), lib) == v
  {
    TreeMeans(v, lib, show);
    TextStream(v, [], utf8, show, lib);
    assert TextOf(v, show) + [] == TextOf(v, show);
    Complete(TreeOf(v, show), [Mark(END)], lib);
  }

  lemma {:induction false} PrintableStores(v: Value, root: bool, lib: Library, show: Display)
    requires Printable(v, lib, show)
    ensures Ok(v, root) && Padless(v)
    decreases v
  {
    match v
    case Arr(es, _) =>
      forall i | 0 <= i < |es| ensures Ok(es[i], false) && Padless(es[i]) { PrintableStores(es[i], false, lib, show); }
    case Obj(ps) =>
      forall i | 0 <= i < |ps| ensures Ok(ps[i].value, false) && Padless(ps[i].value) {
        PrintableStores(ps[i].value, false, lib, show);
      }
    case _ =>
  }

  lemma RootPrints(v: Value, lib: Library, show: Display)
    requires Printable(v, lib, show)
    ensures Ok(Root(v), true) && Padless(Root(v)) && TextOf(Root(v), show) == TextOf(v, show)
  {
    PrintableStores(v, true, lib, show);
  }

  /** Store, print, parse: the value comes back, bare scalars included. */
  method PrintAndParse(v: Value, utf8: bool, lib: Library, show: Display) returns (ok: bool, r: Option<Value>)
    requires Printable(v, lib, show) && Sorted(v)
    ensures ok <==> |Body(Root(v))| <= OFFLENMASK
    ensures ok ==> r == Some(Root(v))
  {
    RootPrints(v, lib, show);
    TextParses(v, utf8, lib, show);
    var g, text, parsed;
    r := None;
    ok, g := ValueToGtype(v);
    if ok {
      PadlessPlaced(Root(v), true);
      PlacedReadable(g, 4, Root(v));
      ok, text := ToCString(g, 4, show, Root(v));
      var parser := new TextParser(text, utf8, lib);
      parsed := parser.ParseGtype();
      r := parser.res;
      RootOk(v);
    }
  }
}
