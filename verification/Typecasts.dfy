/** What a typecast behind a scalar makes of it, said of whole texts. */
module Typecasts {
  import opened Common
  import opened GtypeKeys
  import opened GtypeValue
  import opened LexRules
  import opened LexMeaning
  import opened ParseRules
  import opened Printer
  import opened TextRoundTrip

  /** The names a cast may use, written in any case. */
  function Cast(word: string): Option<Kind> {
    var k := NumberCast(word);
    if k.Some? then k else
    var t := TimeCast(word);
    if t.Some? then t else
    var n := AddressCast(word);
    if n.Some? then n else
    if word == "text" then Some(STRING) else None
  }

  function NumberCast(word: string): Option<Kind> {
    if word == "numeric" then Some(NUMERIC)
    else if word == "integer" || word == "int" then Some(INTEGER)
    else if word == "float" then Some(FLOAT)
    else None
  }

  function TimeCast(word: string): Option<Kind> {
    if word == "timestamp" then Some(Kind.TIMESTAMP)
    else if word == "timestamptz" then Some(TIMESTAMPTZ)
    else if word == "date" then Some(DATE)
    else if word == "time" then Some(TIME)
    else if word == "timetz" then Some(TIMETZ)
    else if word == "interval" then Some(INTERVAL)
    else None
  }

  function AddressCast(word: string): Option<Kind> {
    if word == "inet" then Some(INET)
    else if word == "cidr" then Some(CIDR)
    else if word == "macaddr" then Some(MACADDR)
    else if word == "macaddr8" then Some(MACADDR8)
    else None
  }

  lemma CastNameIs(a: Bytes)
    ensures CastName(a) == Cast(Spelled(a))
  {
    NumberNames(a);
    TimeNames(a);
    AddressNames(a);
    SpelledIs(a, TEXT_NAME, "text");
  }

  lemma NumberNames(a: Bytes)
    ensures NumberName(a) == NumberCast(Spelled(a))
  {
    SpelledIs(a, NUMERIC_NAME, "numeric");
    SpelledIs(a, INTEGER_NAME, "integer");
    SpelledIs(a, INT_NAME, "int");
    SpelledIs(a, FLOAT_NAME, "float");
  }

  lemma TimeNames(a: Bytes)
    ensures TimeName(a) == TimeCast(Spelled(a))
  {
    SpelledIs(a, TIMESTAMP_NAME, "timestamp");
    SpelledIs(a, TIMESTAMP_NAME + TZ, "timestamptz");
    SpelledIs(a, DATE_NAME, "date");
    SpelledIs(a, TIME_NAME, "time");
    SpelledIs(a, TIME_NAME + TZ, "timetz");
    SpelledIs(a, INTERVAL_NAME, "interval");
  }

  lemma AddressNames(a: Bytes)
    ensures AddressName(a) == AddressCast(Spelled(a))
  {
    SpelledIs(a, INET_NAME, "inet");
    SpelledIs(a, CIDR_NAME, "cidr");
    SpelledIs(a, MACADDR_NAME, "macaddr");
    SpelledIs(a, MACADDR_NAME + [56], "macaddr8");
  }

  const COLONS: Bytes := [58, 58]

  /** A word that may stand behind the colons. */
  ghost predicate CastWord(name: Bytes) { WordText(name) && WordMeans(name) == IDENTIFIER }

  ghost predicate Means(text: Bytes, utf8: bool, lib: Library, v: Value) {
    var t := ParseAll(Stream(text, utf8), lib);
    t.Some? && Meaning(t.value, lib) == v
  }

  ghost predicate IsRefused(text: Bytes, utf8: bool, lib: Library) { ParseAll(Stream(text, utf8), lib) == None }

  lemma ColonsLex(t: Bytes, utf8: bool)
    ensures LexAt(COLONS + t, utf8) == Found(Mark(ANNOTATION), 2)
  {
    var b := COLONS + t;
    assert b[0] == 58 && b[1] == 58;
    NoBlankFirst(b, utf8);
  }

  lemma ColonsStream(name: Bytes, utf8: bool)
    requires CastWord(name)
    ensures Stream(COLONS + name, utf8) == [Mark(ANNOTATION), Lexeme(IDENTIFIER, name), Mark(END)]
  {
    ColonsLex(name, utf8);
    StreamAfter(COLONS, name, Mark(ANNOTATION), utf8);
    WordLexeme(name, [], utf8);
    assert name + [] == name;
    StreamAfter(name, [], Lexeme(IDENTIFIER, name), utf8);
    assert Stream([], utf8) == [Mark(END)];
  }

  lemma CastStream(t: Bytes, x: Lexeme, name: Bytes, utf8: bool, lib: Library)
    requires x.Lexeme? && IsScalarKind(x.kind) && CastWord(name)
    requires LexAt(t + (COLONS + name), utf8) == Found(x, |t|)
    ensures ParseAll(Stream(t + (COLONS + name), utf8), lib) ==
      if ScalarOf(x, Some(name), lib) == None then None else Some(Leaf(x, Some(name)))
  {
    ColonsStream(name, utf8);
    StreamAfter(t, COLONS + name, x, utf8);
    FourLexemes(x, Lexeme(IDENTIFIER, name));
    ParsedCast(x, name, lib);
  }

  lemma FourLexemes(x: Lexeme, y: Lexeme)
    ensures [x] + [Mark(ANNOTATION), y, Mark(END)] == [x, Mark(ANNOTATION), y, Mark(END)]
  {
  }

  lemma ParsedCast(x: Lexeme, name: Bytes, lib: Library)
    requires x.Lexeme? && IsScalarKind(x.kind)
    ensures ParseAll([x, Mark(ANNOTATION), Lexeme(IDENTIFIER, name), Mark(END)], lib) ==
      if ScalarOf(x, Some(name), lib) == None then None else Some(Leaf(x, Some(name)))
  {
    var s := [x, Mark(ANNOTATION), Lexeme(IDENTIFIER, name), Mark(END)];
    var r := s[1..];
    assert r[0] == Mark(ANNOTATION) && r[1] == Lexeme(IDENTIFIER, name) && r[2..] == [Mark(END)];
    assert r[1..][0] == r[1];
    assert ParseRules.ParseValue(s, lib) == ParseRules.ParseScalar(s, lib);
  }

  /** Digits, perhaps behind a minus; the number they spell, zeros in front counting for nothing. */
  ghost predicate DigitsText(t: Bytes) {
    (t != [] && AllDigits(t)) || (|t| > 1 && t[0] == '-' as int && AllDigits(t[1..]))
  }

  lemma PlainIntIs(t: Bytes)
    ensures PlainInt(t) <==> DigitsText(t)
  {
    RunIs(t, |t|);
    assert t[..|t|] == t;
    if t != [] {
      RunIs(t[1..], |t| - 1);
      assert t[1..][..|t| - 1] == t[1..];
    }
  }

  lemma {:induction false} ZeroInFront(t: Bytes)
    ensures Decimal([48] + t) == Decimal(t)
    decreases |t|
  {
    var b := [48] + t;
    if t == [] {
      assert b[..0] == [];
    } else {
      ZeroInFront(t[..|t| - 1]);
      assert b[..|b| - 1] == [48] + t[..|t| - 1] && b[|b| - 1] == t[|t| - 1];
    }
  }

  /** The value a scalar's text has under a cast: the text itself, the integer it spells, or what the
      library makes of it. */
  ghost predicate CastOf(text: Bytes, cast: Option<Kind>, whole: Bytes, utf8: bool, lib: Library) {
    match cast
    case None => IsRefused(whole, utf8, lib)
    case Some(k) =>
      if k == STRING then |text| <= 0x0FFF_FFFF ==> Means(whole, utf8, lib, Str(text))
      else if k == INTEGER then
        && (forall n :: -0x8000_0000_0000_0000 <= n < 0x8000_0000_0000_0000 && text == IntText(n) ==>
          Means(whole, utf8, lib, IntVal(n)))
        && (!DigitsText(text) ==> LibraryCast(k, text, whole, utf8, lib))
      else LibraryCast(k, text, whole, utf8, lib)
  }

  ghost predicate LibraryCast(k: Kind, text: Bytes, whole: Bytes, utf8: bool, lib: Library) {
    && (forall v :: lib(k, text) == Some(v) && !IsContainer(v) ==> Means(whole, utf8, lib, v))
    && (lib(k, text) == None ==> IsRefused(whole, utf8, lib))
  }

  /** The cast alone decides, whatever kind of lexeme it stands behind. */
  lemma CastDecides(t: Bytes, x: Lexeme, name: Bytes, utf8: bool, lib: Library)
    requires x.Lexeme? && IsScalarKind(x.kind) && x.kind != NULL && CastWord(name)
    requires LexAt(t + (COLONS + name), utf8) == Found(x, |t|)
    ensures CastOf(x.text, Cast(Spelled(name)), t + (COLONS + name), utf8, lib)
  {
    CastNameIs(name);
    CastStream(t, x, name, utf8, lib);
    CastApplies(x, name, CastName(name), t + (COLONS + name), utf8, lib);
  }

  lemma CastApplies(x: Lexeme, name: Bytes, cast: Option<Kind>, whole: Bytes, utf8: bool, lib: Library)
    requires x.Lexeme? && x.kind != NULL && cast == CastName(name)
    requires ParseAll(Stream(whole, utf8), lib) ==
      if ScalarOf(x, Some(name), lib) == None then None else Some(Leaf(x, Some(name)))
    ensures CastOf(x.text, cast, whole, utf8, lib)
  {
    match cast
    case None =>
    case Some(k) =>
      KindsCast(name);
      KindApplies(x, name, k, whole, utf8, lib);
  }

  lemma KindsCast(name: Bytes)
    ensures CastName(name) != Some(TRUE) && CastName(name) != Some(FALSE) && CastName(name) != Some(NULL)
  {
  }

  lemma KindApplies(x: Lexeme, name: Bytes, k: Kind, whole: Bytes, utf8: bool, lib: Library)
    requires x.Lexeme? && x.kind != NULL && CastName(name) == Some(k) && k != TRUE && k != FALSE && k != NULL
    requires ParseAll(Stream(whole, utf8), lib) ==
      if ScalarOf(x, Some(name), lib) == None then None else Some(Leaf(x, Some(name)))
    ensures CastOf(x.text, Some(k), whole, utf8, lib)
  {
    assert ScalarOf(x, Some(name), lib) == Scalar(k, x.text, lib);
    ScalarMeans(k, x.text, lib);
  }

  /** The conversions, kind by kind. */
  lemma ScalarMeans(k: Kind, text: Bytes, lib: Library)
    ensures k == STRING && |text| <= 0x0FFF_FFFF ==> Scalar(k, text, lib) == Some(Str(text))
    ensures k == INTEGER ==> forall n :: text == IntText(n) ==> Scalar(k, text, lib) == InRange(n)
    ensures (k == INTEGER && !DigitsText(text)) || (k != STRING && k != INTEGER && k != TRUE && k != FALSE && k != NULL) ==>
      && (forall v :: lib(k, text) == Some(v) && !IsContainer(v) ==> Scalar(k, text, lib) == Some(v))
      && (lib(k, text) == None ==> Scalar(k, text, lib) == None)
  {
    PlainIntIs(text);
    if k == INTEGER {
      forall n | text == IntText(n) ensures Scalar(k, text, lib) == InRange(n) { IntReads(n); }
    }
  }

  function InRange(n: int): Option<Value> {
    if -0x8000_0000_0000_0000 <= n < 0x8000_0000_0000_0000 then Some(IntVal(n)) else None
  }

  /** A string literal under a cast. */
  lemma StringCast(s: Bytes, name: Bytes, utf8: bool, lib: Library)
    requires NoNul(s) && CastWord(name)
    ensures CastOf(s, Cast(Spelled(name)), Escape(s) + (COLONS + name), utf8, lib)
  {
    StringLexes(s, COLONS + name, utf8);
    CastDecides(Escape(s), Lexeme(STRING, s), name, utf8, lib);
  }

  /** An integer under a cast. */
  lemma IntCast(n: int, name: Bytes, utf8: bool, lib: Library)
    requires CastWord(name)
    ensures CastOf(IntText(n), Cast(Spelled(name)), IntText(n) + (COLONS + name), utf8, lib)
  {
    IntLexes(n, COLONS + name, utf8);
    CastDecides(IntText(n), Lexeme(INTEGER, IntText(n)), name, utf8, lib);
  }

  /** A float or an address under a cast. */
  lemma FloatCast(t: Bytes, name: Bytes, utf8: bool, lib: Library)
    requires (FloatLexeme(t) || AddressLexeme(t)) && CastWord(name)
    ensures CastOf(t, Cast(Spelled(name)), t + (COLONS + name), utf8, lib)
  {
    if FloatLexeme(t) {
      FloatLexes(t, COLONS + name, utf8);
      CastDecides(t, Lexeme(FLOAT, t), name, utf8, lib);
    } else {
      AddressLexes(t, COLONS + name, utf8);
      CastDecides(t, Lexeme(INET, t), name, utf8, lib);
    }
  }

  /** A boolean word under a cast. */
  lemma BoolCast(w: Bytes, name: Bytes, utf8: bool, lib: Library)
    requires WordText(w) && (Plain(w) == "true" || Plain(w) == "false") && CastWord(name)
    ensures CastOf(w, Cast(Spelled(name)), w + (COLONS + name), utf8, lib)
  {
    WordLexeme(w, COLONS + name, utf8);
    WordNames(w);
    CastDecides(w, Lexeme(WordMeans(w), w), name, utf8, lib);
  }

  /** No cast changes null, not even one that is none. */
  lemma NullCast(w: Bytes, name: Bytes, utf8: bool, lib: Library)
    requires WordText(w) && Plain(w) == "null" && CastWord(name)
    ensures Means(w + (COLONS + name), utf8, lib, Null)
  {
    WordLexeme(w, COLONS + name, utf8);
    WordNames(w);
    CastStream(w, Lexeme(NULL, w), name, utf8, lib);
  }

  lemma WordNames(w: Bytes)
    ensures Plain(w) == "true" ==> WordMeans(w) == TRUE
    ensures Plain(w) == "false" ==> WordMeans(w) == FALSE
    ensures Plain(w) == "null" ==> WordMeans(w) == NULL
  {
    if Plain(w) == "true" || Plain(w) == "false" || Plain(w) == "null" {
      assert |Spelled(w)| == |Plain(w)| && |"nan"| == 3 && |"inf"| == 3 && |"infinity"| == 8;
      assert Plain(w)[0] == w[0] as char;
      assert "true"[0] != "null"[0];
    }
  }

  // ---------------------------------------------------------------- without a cast

  /** The same lexemes without a cast: each by its own kind. */
  lemma BareInteger(n: int, utf8: bool, lib: Library)
    ensures -0x8000_0000_0000_0000 <= n < 0x8000_0000_0000_0000 ==> Means(IntText(n), utf8, lib, IntVal(n))
    ensures !(-0x8000_0000_0000_0000 <= n < 0x8000_0000_0000_0000) ==> IsRefused(IntText(n), utf8, lib)
  {
    IntLexes(n, [], utf8);
    ScalarMeans(INTEGER, IntText(n), lib);
    BareStream(IntText(n), Lexeme(INTEGER, IntText(n)), utf8, lib);
  }

  lemma BareLibrary(t: Bytes, v: Value, utf8: bool, lib: Library)
    requires !IsContainer(v)
    ensures FloatLexeme(t) && lib(FLOAT, t) == Some(v) ==> Means(t, utf8, lib, v)
    ensures AddressLexeme(t) && lib(INET, t) == Some(v) ==> Means(t, utf8, lib, v)
  {
    if FloatLexeme(t) {
      FloatLexes(t, [], utf8);
      ScalarMeans(FLOAT, t, lib);
      BareStream(t, Lexeme(FLOAT, t), utf8, lib);
    }
    if AddressLexeme(t) {
      AddressLexes(t, [], utf8);
      ScalarMeans(INET, t, lib);
      BareStream(t, Lexeme(INET, t), utf8, lib);
    }
  }

  lemma BareStream(t: Bytes, x: Lexeme, utf8: bool, lib: Library)
    requires x.Lexeme? && IsScalarKind(x.kind) && LexAt(t + [], utf8) == Found(x, |t|)
    ensures ParseAll(Stream(t, utf8), lib) == if ScalarOf(x, None, lib) == None then None else Some(Leaf(x, None))
  {
    assert t + [] == t;
    StreamAfter(t, [], x, utf8);
    assert Stream([], utf8) == [Mark(END)];
    var s := [x] + [Mark(END)];
    assert s[1..] == [Mark(END)];
    assert ParseRules.ParseValue(s, lib) == ParseRules.ParseScalar(s, lib);
  }

  /** A float that the library prints as a float or as an integer comes back from its text exactly when
      it printed as a float: one without a fraction comes back as an integer. */
  lemma FloatBackIff(p: Bytes, utf8: bool, lib: Library, show: Display)
    requires |p| == 8 && lib(FLOAT, show(Ext(1, p))) == Some(Ext(1, p))
    requires FloatLexeme(show(Ext(1, p)))
      || exists n :: -0x8000_0000_0000_0000 <= n < 0x8000_0000_0000_0000 && show(Ext(1, p)) == IntText(n)
    ensures Means(TextOf(Ext(1, p), show), utf8, lib, Ext(1, p)) <==> FloatLexeme(show(Ext(1, p)))
  {
    var t := show(Ext(1, p));
    BareLibrary(t, Ext(1, p), utf8, lib);
    if !FloatLexeme(t) {
      var n :| -0x8000_0000_0000_0000 <= n < 0x8000_0000_0000_0000 && t == IntText(n);
      BareInteger(n, utf8, lib);
    }
  }
}
