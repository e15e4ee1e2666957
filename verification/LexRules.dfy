/** What one lexeme of gtype text is: the reference the lexer's loops are proved against. All
    functions look at the text from the current position on. */
module LexRules {
  import opened GtypeKeys

  datatype Kind =
    | STRING | INTEGER | FLOAT | NUMERIC | TIMESTAMP | TIMESTAMPTZ | DATE | TIME | TIMETZ | INTERVAL
    | INET | CIDR | MACADDR | MACADDR8
    | OBJECT_START | OBJECT_END | ARRAY_START | ARRAY_END | COMMA | COLON | ANNOTATION | IDENTIFIER
    | TRUE | FALSE | NULL | END

  /** A lexeme; strings are de-escaped, and punctuation carries no text. */
  datatype Lexeme = Lexeme(kind: Kind, text: Bytes) | Bad

  function Mark(k: Kind): Lexeme { Lexeme(k, []) }

  predicate HasText(k: Kind) {
    k == INTEGER || k == FLOAT || k == INET || k == IDENTIFIER || k == TRUE || k == FALSE || k == NULL
  }

  /** A lexeme and the number of bytes up to its end. */
  datatype Found = Found(lex: Lexeme, used: nat) | Nothing

  /** "true", "false", "null", "nan", "inf", "infinity" */
  const TRUE_WORD: Bytes := [116, 114, 117, 101]
  const FALSE_WORD: Bytes := [102, 97, 108, 115, 101]
  const NULL_WORD: Bytes := [110, 117, 108, 108]
  const NAN_WORD: Bytes := [110, 97, 110]
  const INF_WORD: Bytes := [105, 110, 102]
  const INFINITY_WORD: Bytes := [105, 110, 102, 105, 110, 105, 116, 121]

  const QUOTE: Byte := 34
  const BACKSLASH: Byte := 92
  const ZERO: Byte := 48
  const MINUS: Byte := 45
  const DOT: Byte := 46

  predicate IsSpace(c: Byte) { c == 32 || c == 9 || c == 10 || c == 13 }

  predicate IsDigit(c: Byte) { 48 <= c <= 57 }

  predicate IsLetter(c: Byte) { 97 <= c <= 122 || 65 <= c <= 90 }

  /** GTYPE_ALPHANUMERIC_CHAR */
  predicate IsWord(c: Byte) { IsLetter(c) || IsDigit(c) || c == 95 || c >= 128 }

  function Low(c: Byte): Byte { if 65 <= c <= 90 then c + 32 else c }

  /** pg_strcasecmp == 0 against a lower-case name. */
  predicate SameName(b: Bytes, name: Bytes) {
    |b| == |name| && forall i :: 0 <= i < |b| ==> Low(b[i]) == name[i]
  }

  function SpaceRun(b: Bytes): (n: nat)
    ensures n <= |b|
  {
    if b != [] && IsSpace(b[0]) then 1 + SpaceRun(b[1..]) else 0
  }

  function DigitRun(b: Bytes): (n: nat)
    ensures n <= |b|
  {
    if b != [] && IsDigit(b[0]) then 1 + DigitRun(b[1..]) else 0
  }

  function LetterRun(b: Bytes): (n: nat)
    ensures n <= |b|
  {
    if b != [] && IsLetter(b[0]) then 1 + LetterRun(b[1..]) else 0
  }

  function WordRun(b: Bytes): (n: nat)
    ensures n <= |b|
  {
    if b != [] && IsWord(b[0]) then 1 + WordRun(b[1..]) else 0
  }

  /** Digits and dots, as in an address. */
  function AddressRun(b: Bytes): (n: nat)
    ensures n <= |b|
  {
    if b != [] && (IsDigit(b[0]) || b[0] == DOT) then 1 + AddressRun(b[1..]) else 0
  }

  // ---------------------------------------------------------------- strings

  /** What follows an opening quote: the value up to the closing quote, and the bytes used. */
  datatype Literal = Literal(val: Bytes, used: nat) | Broken

  /** Put bytes and a length in front. */
  function After(val: Bytes, used: nat, r: Literal): Literal {
    if r.Broken? then Broken else Literal(val + r.val, used + r.used)
  }

  /** The value of a hexadecimal digit, or 16. */
  function Hex(c: Byte): nat {
    if IsDigit(c) then c - 48
    else if 97 <= c <= 102 then c - 97 + 10
    else if 65 <= c <= 70 then c - 65 + 10
    else 16
  }

  /** Four hexadecimal digits, or nothing. */
  function Code(b: Bytes): (ch: int)
    ensures -1 <= ch < 0x1_0000
  {
    if |b| < 4 || Hex(b[0]) == 16 || Hex(b[1]) == 16 || Hex(b[2]) == 16 || Hex(b[3]) == 16 then -1
    else ((Hex(b[0]) * 16 + Hex(b[1])) * 16 + Hex(b[2])) * 16 + Hex(b[3])
  }

  /** unicode_to_utf8 */
  function Utf8(ch: nat): Bytes
    requires ch < 0x11_0000
  {
    if ch <= 0x7F then [ch]
    else if ch <= 0x7FF then [0xC0 + ch / 0x40, 0x80 + ch % 0x40]
    else if ch <= 0xFFFF then [0xE0 + ch / 0x1000, 0x80 + ch / 0x40 % 0x40, 0x80 + ch % 0x40]
    else [0xF0 + ch / 0x4_0000, 0x80 + ch / 0x1000 % 0x40, 0x80 + ch / 0x40 % 0x40, 0x80 + ch % 0x40]
  }

  /** What one \u escape does, given a pending high surrogate (or -1). */
  datatype Unit = Pending(hi: nat) | Char(bytes: Bytes) | Refused

  function UnitOf(ch: nat, hi: int, utf8: bool): (u: Unit)
    requires ch < 0x1_0000 && -1 <= hi <= 0x3FF * 0x400
    ensures u.Pending? ==> u.hi <= 0x3FF * 0x400
  {
    if 0xD800 <= ch <= 0xDBFF then
      if hi != -1 then Refused else Pending((ch - 0xD800) * 0x400)
    else if 0xDC00 <= ch <= 0xDFFF then
      if hi == -1 then Refused else Written(0x1_0000 + hi + (ch - 0xDC00), utf8)
    else if hi != -1 then Refused
    else Written(ch, utf8)
  }

  function Written(ch: nat, utf8: bool): (u: Unit)
    requires ch < 0x11_0000
    ensures !u.Pending?
  {
    if ch == 0 then Refused
    else if utf8 then Char(Utf8(ch))
    else if ch <= 0x7F then Char([ch])
    else Refused
  }

  /** The single-character escapes; \x and \0 to \9 keep their backslash. */
  function Escaped(c: Byte): Bytes {
    if c == QUOTE || c == BACKSLASH || c == 47 then [c]
    else if c == 98 then [8]
    else if c == 102 then [12]
    else if c == 110 then [10]
    else if c == 114 then [13]
    else if c == 116 then [9]
    else if c == 120 || IsDigit(c) then [BACKSLASH, c]
    else []
  }

  /** gtype_lex_string from after the opening quote. */
  function StringBody(b: Bytes, hi: int, utf8: bool): (r: Literal)
    requires -1 <= hi <= 0x3FF * 0x400
    ensures r.Literal? ==> 0 < r.used <= |b|
  {
    if b == [] then Broken
    else if b[0] == QUOTE then if hi != -1 then Broken else Literal([], 1)
    else if b[0] < 32 then Broken
    else if b[0] == BACKSLASH then
      if |b| < 2 then Broken
      else if b[1] == 117 then
        var ch := Code(b[2..]);
        if ch == -1 then Broken
        else match UnitOf(ch, hi, utf8)
          case Refused => Broken
          case Pending(h) => After([], 6, StringBody(b[6..], h, utf8))
          case Char(bytes) => After(bytes, 6, StringBody(b[6..], -1, utf8))
      else if hi != -1 || Escaped(b[1]) == [] then Broken
      else After(Escaped(b[1]), 2, StringBody(b[2..], -1, utf8))
    else if hi != -1 then Broken
    else After([b[0]], 1, StringBody(b[1..], -1, utf8))
  }

  // ---------------------------------------------------------------- numbers

  /** Part of a number: its kind so far, the bytes used, and whether it is still well formed. */
  datatype Numeral = Numeral(kind: Kind, used: nat, ok: bool)

  /** The digits before the point. */
  function Whole(b: Bytes): (p: Numeral)
    ensures p.used <= |b|
  {
    if b != [] && b[0] == ZERO then Numeral(INTEGER, 1, true)
    else if b != [] && IsDigit(b[0]) then Numeral(INTEGER, DigitRun(b), true)
    else Numeral(INTEGER, 0, false)
  }

  /** A point and the digits after it. */
  function Fraction(b: Bytes, p: Numeral): (q: Numeral)
    requires p.used <= |b|
    ensures p.used <= q.used <= |b|
  {
    if p.used == |b| || b[p.used] != DOT then p
    else
    var run := DigitRun(b[p.used + 1..]);
    Numeral(FLOAT, p.used + 1 + run, p.ok && run > 0)
  }

  /** A second point makes it an address, with an optional mask; else an exponent may follow. */
  function Suffix(b: Bytes, p: Numeral): (q: Numeral)
    requires p.used <= |b|
    ensures p.used <= q.used <= |b|
  {
    if p.used == |b| then p
    else if b[p.used] == DOT then Mask(b, Address(b, p))
    else if b[p.used] == 101 || b[p.used] == 69 then Exponent(b, p)
    else p
  }

  function Address(b: Bytes, p: Numeral): (q: Numeral)
    requires p.used < |b|
    ensures p.used < q.used <= |b|
  {
    var at := p.used + 1;
    var run := if at < |b| && IsDigit(b[at]) then AddressRun(b[at..]) else 0;
    Numeral(INET, at + run, p.ok && run > 0)
  }

  function Exponent(b: Bytes, p: Numeral): (q: Numeral)
    requires p.used < |b|
    ensures p.used < q.used <= |b|
  {
    var next := p.used + 1;
    var at := if next < |b| && (b[next] == 43 || b[next] == MINUS) then next + 1 else next;
    var run := DigitRun(b[at..]);
    Numeral(FLOAT, at + run, p.ok && run > 0)
  }

  function Mask(b: Bytes, p: Numeral): (q: Numeral)
    requires p.used <= |b|
    ensures p.used <= q.used <= |b|
  {
    if p.used == |b| || b[p.used] != 47 then p
    else
    var run := DigitRun(b[p.used + 1..]);
    Numeral(INET, p.used + 1 + run, p.ok && run > 0)
  }

  /** gtype_lex_number from after the sign; letters and digits behind it spoil it. */
  function Number(b: Bytes): (p: Numeral)
    ensures p.used <= |b|
  {
    var q := Suffix(b, Fraction(b, Whole(b)));
    Numeral(q.kind, q.used + WordRun(b[q.used..]), q.ok && WordRun(b[q.used..]) == 0)
  }

  // ---------------------------------------------------------------- one lexeme

  function WordKind(w: Bytes): Kind {
    if SameName(w, NAN_WORD) || SameName(w, INF_WORD) || SameName(w, INFINITY_WORD) then FLOAT
    else if w == TRUE_WORD then TRUE
    else if w == NULL_WORD then NULL
    else if w == FALSE_WORD then FALSE
    else IDENTIFIER
  }

  /** The one-character lexemes. */
  function Punctuation(c: Byte): (k: Kind)
    ensures k.IDENTIFIER? || k.OBJECT_START? || k.OBJECT_END? || k.ARRAY_START? || k.ARRAY_END? || k.COMMA?
  {
    if c == 123 then OBJECT_START
    else if c == 125 then OBJECT_END
    else if c == 91 then ARRAY_START
    else if c == 93 then ARRAY_END
    else if c == 44 then COMMA
    else IDENTIFIER
  }

  ghost predicate Proper(b: Bytes, f: Found) {
    f.Found? ==> 0 < f.used <= |b| && f.lex.Lexeme? && f.lex.kind != END
  }

  function StringToken(b: Bytes, utf8: bool): (f: Found)
    requires b != []
    ensures Proper(b, f)
  {
    var r := StringBody(b[1..], -1, utf8);
    if r.Broken? then Nothing else Found(Lexeme(STRING, r.val), 1 + r.used)
  }

  /** -inf and -infinity */
  function NegativeWord(b: Bytes): (f: Found)
    requires |b| > 1
    ensures Proper(b, f)
  {
    var n := LetterRun(b[1..]);
    var w := b[1..1 + n];
    if SameName(w, INF_WORD) || SameName(w, INFINITY_WORD) then Found(Lexeme(FLOAT, b[..1 + n]), 1 + n) else Nothing
  }

  /** A number after `sign` bytes. */
  function NumberToken(b: Bytes, sign: nat): (f: Found)
    requires sign <= |b|
    ensures Proper(b, f)
  {
    var p := Number(b[sign..]);
    NumberUses(b[sign..]);
    if p.ok then Found(Lexeme(p.kind, b[..sign + p.used]), sign + p.used) else Nothing
  }

  function WordToken(b: Bytes): (f: Found)
    ensures Proper(b, f)
  {
    var n := WordRun(b);
    if n == 0 then Nothing else Found(Lexeme(WordKind(b[..n]), b[..n]), n)
  }

  /** gtype_lex after the white space. */
  function Token(b: Bytes, utf8: bool): (f: Found)
    requires b != []
    ensures Proper(b, f)
  {
    var c := b[0];
    if Punctuation(c) != IDENTIFIER then Found(Mark(Punctuation(c)), 1)
    else if c == 58 then
      if |b| > 1 && b[1] == 58 then Found(Mark(ANNOTATION), 2) else Found(Mark(COLON), 1)
    else if c == QUOTE then StringToken(b, utf8)
    else if c == MINUS then
      if |b| > 1 && (b[1] == 105 || b[1] == 73) then NegativeWord(b) else NumberToken(b, 1)
    else if IsDigit(c) then NumberToken(b, 0)
    else WordToken(b)
  }

  lemma NumberUses(b: Bytes)
    ensures Number(b).ok ==> Number(b).used > 0
    ensures Number(b).kind == INTEGER || Number(b).kind == FLOAT || Number(b).kind == INET
  {
    var w := Whole(b);
    var f := Fraction(b, w);
    var s := Suffix(b, f);
    assert w.ok ==> w.used > 0;
  }

  /** gtype_lex */
  function LexAt(b: Bytes, utf8: bool): (f: Found)
    ensures f.Found? ==> f.used <= |b| && f.lex.Lexeme? && (f.lex.kind != END ==> f.used > 0)
  {
    var w := SpaceRun(b);
    if w == |b| then Found(Mark(END), w)
    else
    var f := Token(b[w..], utf8);
    if f.Nothing? then Nothing else Found(f.lex, w + f.used)
  }

  /** All lexemes up to the end of the text or the first that is not one. */
  function Stream(b: Bytes, utf8: bool): (r: seq<Lexeme>)
    ensures r != []
    decreases |b|
  {
    var f := LexAt(b, utf8);
    if f.Nothing? then [Bad]
    else if f.lex.kind == END then [f.lex]
    else [f.lex] + Stream(b[f.used..], utf8)
  }
}
