/** What the accepted numbers and escapes are, said without reference to how they are scanned. */
module LexMeaning {
  import opened GtypeKeys
  import opened LexRules
  import opened Printer

  // ---------------------------------------------------------------- numbers

  ghost predicate AllDigits(t: Bytes) { forall i :: 0 <= i < |t| ==> IsDigit(t[i]) }

  /** A single zero, or digits that do not begin with one. */
  ghost predicate WholeText(t: Bytes) { t != [] && AllDigits(t) && (|t| > 1 ==> t[0] != ZERO) }

  /** The bytes that would still belong to the lexeme. */
  predicate GoesOn(b: Bytes, n: nat) { n < |b| && (IsWord(b[n]) || b[n] == DOT) }

  lemma {:induction false} RunIs(b: Bytes, n: nat)
    requires n <= |b|
    ensures DigitRun(b) == n <==> AllDigits(b[..n]) && (n == |b| || !IsDigit(b[n]))
    decreases |b|
  {
    if b != [] && IsDigit(b[0]) && n > 0 {
      RunIs(b[1..], n - 1);
      assert b[..n] == [b[0]] + b[1..][..n - 1];
    } else if b != [] && IsDigit(b[0]) {
      assert b[..0] == [];
    } else if n > 0 {
      assert b[..n][0] == b[0];
    }
  }

  lemma WordStops(b: Bytes, n: nat)
    requires n <= |b|
    ensures WordRun(b[n..]) == 0 <==> n == |b| || !IsWord(b[n])
  {
  }

  /** An integer lexeme is a whole number that ends where neither a word character nor a point
      follows, and every such text is one. */
  lemma IntegerIff(b: Bytes, n: nat)
    requires n <= |b|
    ensures Number(b) == Numeral(INTEGER, n, true) <==> WholeText(b[..n]) && !GoesOn(b, n)
  {
    RunIs(b, n);
    WordStops(b, n);
    var w := Whole(b);
    if Number(b) == Numeral(INTEGER, n, true) {
      assert Suffix(b, Fraction(b, w)).used <= n;
      assert w.used == n;
      assert b[..1] <= b[..n];
    }
    if WholeText(b[..n]) && !GoesOn(b, n) {
      assert b[..n][0] == b[0];
      assert w == Numeral(INTEGER, n, true) by {
        if b[0] == ZERO { assert n == 1; }
      }
      assert Fraction(b, w) == w && Suffix(b, w) == w;
    }
  }

  /** A point and digits. */
  ghost predicate FractionText(t: Bytes) { |t| > 1 && t[0] == DOT && AllDigits(t[1..]) }

  /** An e, an optional sign and digits. */
  ghost predicate ExponentText(t: Bytes) {
    |t| > 1 && (t[0] == 101 || t[0] == 69)
    && (AllDigits(t[1..]) || (|t| > 2 && (t[1] == 43 || t[1] == MINUS) && AllDigits(t[2..])))
  }

  /** A whole number up to i, a fraction up to j and an exponent up to n, one of them at least,
      ending where the number could not go on. */
  ghost predicate FloatAt(b: Bytes, i: nat, j: nat, n: nat) {
    && i <= j <= n <= |b| && i < n
    && WholeText(b[..i])
    && (i == j || FractionText(b[i..j]))
    && (j == n || ExponentText(b[j..n]))
    && (if j == n then !GoesOn(b, n) else n == |b| || !IsWord(b[n]))
  }

  lemma DigitsOfRun(b: Bytes, at: nat)
    requires at <= |b|
    ensures AllDigits(b[at..at + DigitRun(b[at..])])
  {
    var n := DigitRun(b[at..]);
    RunIs(b[at..], n);
    assert b[at..][..n] == b[at..at + n];
  }

  /** A float lexeme is a whole number with a fraction, an exponent or both, and every such text
      is one. */
  lemma FloatIff(b: Bytes, n: nat)
    ensures Number(b) == Numeral(FLOAT, n, true) <==> exists i, j :: FloatAt(b, i, j, n)
  {
    if Number(b) == Numeral(FLOAT, n, true) {
      FloatIs(b);
    }
    if i, j :| FloatAt(b, i, j, n) {
      IsFloat(b, i, j, n);
    }
  }

  lemma FloatIs(b: Bytes)
    requires Number(b).ok && Number(b).kind == FLOAT
    ensures var w := Whole(b); FloatAt(b, w.used, Fraction(b, w).used, Number(b).used)
  {
    var w := Whole(b);
    var f := Fraction(b, w);
    var s := Suffix(b, f);
    WordStops(b, s.used);
    WholeIs(b);
    FractionIs(b, w);
    if s != f { ExponentIs(b, f); }
  }

  lemma IsFloat(b: Bytes, i: nat, j: nat, n: nat)
    requires FloatAt(b, i, j, n)
    ensures Number(b) == Numeral(FLOAT, n, true)
  {
    WholeOf(b, i);
    var w := Numeral(INTEGER, i, true);
    assert Fraction(b, w) == Numeral(if i == j then INTEGER else FLOAT, j, true) by {
      if i < j { FractionOf(b, i, j); }
    }
    if j < n { ExponentOf(b, Fraction(b, w), n); }
    WordStops(b, n);
  }

  lemma WholeOf(b: Bytes, i: nat)
    requires i <= |b| && WholeText(b[..i]) && (i < |b| ==> !IsDigit(b[i]))
    ensures Whole(b) == Numeral(INTEGER, i, true)
  {
    assert b[..i][0] == b[0];
    RunIs(b, i);
  }

  lemma FractionOf(b: Bytes, i: nat, j: nat)
    requires i < j <= |b| && FractionText(b[i..j]) && (j < |b| ==> !IsDigit(b[j]))
    ensures Fraction(b, Numeral(INTEGER, i, true)) == Numeral(FLOAT, j, true)
  {
    assert b[i..j][0] == b[i] && b[i..j][1..] == b[i + 1..][..j - i - 1];
    RunIs(b[i + 1..], j - i - 1);
  }

  lemma ExponentOf(b: Bytes, p: Numeral, n: nat)
    requires p.ok && p.used < n <= |b| && ExponentText(b[p.used..n]) && (n < |b| ==> !IsDigit(b[n]))
    ensures Suffix(b, p) == Numeral(FLOAT, n, true)
  {
    var t := b[p.used..n];
    var next := p.used + 1;
    assert t[0] == b[p.used] && t[1] == b[next];
    if AllDigits(t[1..]) {
      assert t[1..][0] == b[next];
      DigitsUpTo(b, next, n, t[1..]);
    } else {
      DigitsUpTo(b, next + 1, n, t[2..]);
    }
  }

  lemma DigitsUpTo(b: Bytes, at: nat, n: nat, digits: Bytes)
    requires at <= n <= |b| && digits == b[at..n] && AllDigits(digits) && (n < |b| ==> !IsDigit(b[n]))
    ensures DigitRun(b[at..]) == n - at
  {
    assert b[at..][..n - at] == digits;
    RunIs(b[at..], n - at);
  }

  lemma WholeIs(b: Bytes)
    requires Whole(b).ok
    ensures WholeText(b[..Whole(b).used])
  {
    RunIs(b, DigitRun(b));
    var n := Whole(b).used;
    assert b[..n][0] == b[0];
  }

  lemma FractionIs(b: Bytes, p: Numeral)
    requires p.used <= |b| && p.kind == INTEGER && Fraction(b, p).ok
    ensures var f := Fraction(b, p); f == p || (f.kind == FLOAT && FractionText(b[p.used..f.used]))
  {
    var f := Fraction(b, p);
    if f != p {
      DigitsOfRun(b, p.used + 1);
      assert b[p.used..f.used][1..] == b[p.used + 1..f.used];
    }
  }

  lemma ExponentIs(b: Bytes, p: Numeral)
    requires p.used < |b| && (b[p.used] == 101 || b[p.used] == 69) && Exponent(b, p).ok
    ensures ExponentText(b[p.used..Exponent(b, p).used])
  {
    var e := Exponent(b, p);
    var t := b[p.used..e.used];
    var next := p.used + 1;
    if next < |b| && (b[next] == 43 || b[next] == MINUS) {
      DigitsOfRun(b, next + 1);
      assert t[2..] == b[next + 1..e.used];
    } else {
      DigitsOfRun(b, next);
      assert t[1..] == b[next..e.used];
    }
  }

  // ---------------------------------------------------------------- \u escapes

  /** The code point of a UTF-8 sequence, read by its lead byte. */
  function Decoded(b: Bytes): int
    requires WellFormed(b)
  {
    if |b| == 1 then Bits(b[0], 0)
    else if |b| == 2 then Bits(b[0], 0xC0) * 0x40 + Bits(b[1], 0x80)
    else if |b| == 3 then Bits(b[0], 0xE0) * 0x1000 + Bits(b[1], 0x80) * 0x40 + Bits(b[2], 0x80)
    else Bits(b[0], 0xF0) * 0x4_0000 + Bits(b[1], 0x80) * 0x1000 + Bits(b[2], 0x80) * 0x40 + Bits(b[3], 0x80)
  }

  /** The payload behind the tag of a UTF-8 byte. */
  function Bits(c: Byte, tag: nat): int { c as int - tag }

  /** Lead byte by length, continuation bytes behind it. */
  predicate WellFormed(b: Bytes) {
    && 1 <= |b| <= 4
    && (forall i :: 1 <= i < |b| ==> 0x80 <= b[i] <= 0xBF)
    && (if |b| == 1 then b[0] < 0x80
        else if |b| == 2 then 0xC0 <= b[0] < 0xE0
        else if |b| == 3 then 0xE0 <= b[0] < 0xF0
        else 0xF0 <= b[0] < 0xF8)
  }

  /** The bytes written for a code point are well-formed UTF-8 and decode to it. */
  lemma Utf8Back(ch: nat)
    requires ch < 0x11_0000
    ensures WellFormed(Utf8(ch)) && Decoded(Utf8(ch)) == ch
  {
    if ch > 0xFFFF {
      Sixes(ch);
    } else if ch > 0x7FF {
      Sixes(ch);
    }
  }

  lemma Sixes(ch: nat)
    ensures ch / 0x40 == ch / 0x1000 * 0x40 + ch / 0x40 % 0x40
    ensures ch / 0x1000 == ch / 0x4_0000 * 0x40 + ch / 0x1000 % 0x40
  {
    Shift(ch, 0x40);
    Shift(ch, 0x1000);
  }

  lemma Shift(ch: nat, m: nat)
    requires m == 0x40 || m == 0x1000
    ensures ch / m / 0x40 == ch / (m * 0x40)
  {
  }

  /** A hexadecimal digit in either case. */
  predicate Spells(c: Byte, d: nat)
    requires d < 16
  {
    c == "0123456789abcdef"[d] as int || c == "0123456789ABCDEF"[d] as int
  }

  lemma HexSpells(c: Byte, d: nat)
    requires d < 16
    ensures Hex(c) == d <==> Spells(c, d)
  {
    assert "0123456789abcdef"[d] as int == (if d < 10 then 48 + d else 87 + d);
    assert "0123456789ABCDEF"[d] as int == (if d < 10 then 48 + d else 55 + d);
  }

  /** Four digits for a number, the most significant first. */
  predicate Spells4(h: Bytes, n: nat) {
    && n < 0x1_0000 && |h| == 4 && Spells(h[0], n / 0x1000) && Spells(h[1], n / 0x100 % 16)
    && Spells(h[2], n / 16 % 16) && Spells(h[3], n % 16)
  }

  lemma CodeBack(n: nat, h: Bytes, b: Bytes)
    requires Spells4(h, n)
    ensures Code(h + b) == n
  {
    var s := h + b;
    assert s[0] == h[0] && s[1] == h[1] && s[2] == h[2] && s[3] == h[3];
    HexSpells(h[0], n / 0x1000);
    HexSpells(h[1], n / 0x100 % 16);
    HexSpells(h[2], n / 16 % 16);
    HexSpells(h[3], n % 16);
    Nibbles(n);
  }

  lemma Nibbles(n: nat)
    requires n < 0x1_0000
    ensures ((n / 0x1000 * 16 + n / 0x100 % 16) * 16 + n / 16 % 16) * 16 + n % 16 == n
  {
  }

  predicate EscapeOf(e: Bytes, n: nat) { |e| == 6 && e[0] == 92 && e[1] == 'u' as int && Spells4(e[2..], n) }

  lemma EscapeStarts(e: Bytes, n: nat, rest: Bytes)
    requires EscapeOf(e, n)
    ensures var s := e + rest;
      |s| >= 6 && s[0] == BACKSLASH && s[1] == 117 && Code(s[2..]) == n && s[6..] == rest
  {
    var s := e + rest;
    assert s[2..] == e[2..] + rest;
    CodeBack(n, e[2..], rest);
  }

  /** A code point outside the surrogates, other than zero, written as one escape. */
  lemma PlainEscape(e: Bytes, ch: nat, rest: Bytes)
    requires EscapeOf(e, ch) && ch != 0 && !(0xD800 <= ch <= 0xDFFF)
    ensures StringBody(e + rest, -1, true) == After(Utf8(ch), 6, StringBody(rest, -1, true))
  {
    EscapeStarts(e, ch, rest);
    assert UnitOf(ch, -1, true) == Char(Utf8(ch));
  }

  /** In another encoding only seven-bit code points can be written. */
  lemma OtherEncoding(e: Bytes, ch: nat, rest: Bytes)
    requires EscapeOf(e, ch) && !(0xD800 <= ch <= 0xDFFF)
    ensures StringBody(e + rest, -1, false) ==
      if 1 <= ch < 0x80 then After([ch], 6, StringBody(rest, -1, false)) else Broken
  {
    EscapeStarts(e, ch, rest);
  }

  /** Zero is refused. */
  lemma NulEscape(e: Bytes, rest: Bytes, utf8: bool)
    requires EscapeOf(e, 0)
    ensures StringBody(e + rest, -1, utf8).Broken?
  {
    EscapeStarts(e, 0, rest);
  }

  /** Every code point above FFFF, written as a pair of surrogates, reads as its UTF-8 form. */
  lemma PairEscape(e: Bytes, f: Bytes, cp: nat, rest: Bytes)
    requires 0x1_0000 <= cp < 0x11_0000
    requires EscapeOf(e, 0xD800 + (cp - 0x1_0000) / 0x400) && EscapeOf(f, 0xDC00 + (cp - 0x1_0000) % 0x400)
    ensures StringBody(e + (f + rest), -1, true) == After(Utf8(cp), 12, StringBody(rest, -1, true))
  {
    var x, y := (cp - 0x1_0000) / 0x400, (cp - 0x1_0000) % 0x400;
    PairUnits(cp);
    PairRead(e, f, 0xD800 + x, 0xDC00 + y, x * 0x400, Utf8(cp), rest);
  }

  lemma PairRead(e: Bytes, f: Bytes, hi: nat, lo: nat, pending: nat, bytes: Bytes, rest: Bytes)
    requires pending <= 0x3FF * 0x400 && EscapeOf(e, hi) && EscapeOf(f, lo)
    requires UnitOf(hi, -1, true) == Pending(pending) && UnitOf(lo, pending, true) == Char(bytes)
    ensures StringBody(e + (f + rest), -1, true) == After(bytes, 12, StringBody(rest, -1, true))
  {
    PairHead(e, f + rest, hi, pending);
    PairTail(f, rest, pending, lo, bytes);
    AfterTwice(bytes, StringBody(rest, -1, true));
  }

  lemma AfterTwice(bytes: Bytes, r: Literal)
    ensures After([], 6, After(bytes, 6, r)) == After(bytes, 12, r)
  {
    if r.Literal? { assert [] + (bytes + r.val) == bytes + r.val; }
  }

  lemma PairUnits(cp: nat)
    requires 0x1_0000 <= cp < 0x11_0000
    ensures var x, y := (cp - 0x1_0000) / 0x400, (cp - 0x1_0000) % 0x400;
      && x <= 0x3FF && UnitOf(0xD800 + x, -1, true) == Pending(x * 0x400)
      && UnitOf(0xDC00 + y, x * 0x400, true) == Char(Utf8(cp))
  {
  }

  lemma PairHead(e: Bytes, t: Bytes, hi: nat, pending: nat)
    requires pending <= 0x3FF * 0x400 && EscapeOf(e, hi) && UnitOf(hi, -1, true) == Pending(pending)
    ensures StringBody(e + t, -1, true) == After([], 6, StringBody(t, pending, true))
  {
    EscapeStarts(e, hi, t);
  }

  lemma PairTail(f: Bytes, rest: Bytes, pending: nat, lo: nat, bytes: Bytes)
    requires pending <= 0x3FF * 0x400 && EscapeOf(f, lo) && UnitOf(lo, pending, true) == Char(bytes)
    ensures StringBody(f + rest, pending, true) == After(bytes, 6, StringBody(rest, -1, true))
  {
    EscapeStarts(f, lo, rest);
  }

  /** The text goes on with an escape of a low surrogate. */
  predicate LowFollows(rest: Bytes) {
    |rest| >= 2 && rest[0] == BACKSLASH && rest[1] == 117 && 0xDC00 <= Code(rest[2..]) <= 0xDFFF
  }

  /** A surrogate that is not part of a pair is refused, whatever follows it. */
  lemma LoneSurrogate(e: Bytes, ch: nat, rest: Bytes)
    requires EscapeOf(e, ch) && 0xD800 <= ch <= 0xDFFF && (ch <= 0xDBFF ==> !LowFollows(rest))
    ensures StringBody(e + rest, -1, true).Broken?
  {
    EscapeStarts(e, ch, rest);
    if ch <= 0xDBFF {
      assert UnitOf(ch, -1, true) == Pending((ch - 0xD800) * 0x400);
      PendingRefused((ch - 0xD800) * 0x400, rest);
    }
  }

  lemma PendingRefused(hi: nat, rest: Bytes)
    requires hi <= 0x3FF * 0x400 && !LowFollows(rest)
    ensures StringBody(rest, hi, true).Broken?
  {
    if |rest| >= 2 && rest[0] == BACKSLASH && rest[1] == 117 && Code(rest[2..]) != -1 {
      assert UnitOf(Code(rest[2..]), hi, true) == Refused;
    }
  }

  // ---------------------------------------------------------------- short escapes

  /** What a backslash and a letter stand for; a code of 256 and more keeps the backslash. */
  function ShortEscape(c: char): int {
    match c
    case '"' => 34
    case '\\' => 92
    case '/' => 47
    case 'b' => 8
    case 'f' => 12
    case 'n' => 10
    case 'r' => 13
    case 't' => 9
    case _ => if c == 'x' || '0' <= c <= '9' then 256 else -1
  }

  /** A backslash and one character: the usual letters, a kept backslash before x and digits, and an
      error for anything else. */
  lemma ShortEscapes(c: Byte, rest: Bytes, utf8: bool)
    requires c != 'u' as int
    ensures var code := ShortEscape(c as char);
      StringBody([92, c] + rest, -1, utf8) ==
        if code == -1 then Broken
        else After(if code == 256 then [92, c] else [code], 2, StringBody(rest, -1, utf8))
  {
    var b := [92, c] + rest;
    assert b[0] == 92 && b[1] == c && b[2..] == rest;
    assert (c as char) as int == c;
  }

  /** Inside a literal every byte from the blank on stands for itself, but for the quote that ends it and
      the backslash; bytes below the blank and the end of the text are errors. */
  lemma PlainBytes(c: Byte, rest: Bytes, utf8: bool)
    requires c != '\\' as int
    ensures StringBody([c] + rest, -1, utf8) ==
      if c == '"' as int then Literal([], 1)
      else if c < ' ' as int then Broken
      else After([c], 1, StringBody(rest, -1, utf8))
    ensures StringBody([], -1, utf8) == Broken && StringBody([92], -1, utf8) == Broken
  {
    assert ([c] + rest)[1..] == rest;
  }

  /** What the printer writes for a byte: the short escapes, four hexadecimal digits for other control
      bytes, and anything else as it is. */
  function WrittenAs(c: Byte): Bytes {
    if c == 8 then ['\\' as int, 'b' as int]
    else if c == 9 then ['\\' as int, 't' as int]
    else if c == 10 then ['\\' as int, 'n' as int]
    else if c == 12 then ['\\' as int, 'f' as int]
    else if c == 13 then ['\\' as int, 'r' as int]
    else if c == '"' as int || c == '\\' as int then ['\\' as int, c]
    else if c < ' ' as int then
      ['\\' as int, 'u' as int, '0' as int, '0' as int, '0' as int + c / 16, "0123456789abcdef"[c % 16] as int]
    else [c]
  }

  lemma EscapeByteIs(c: Byte)
    ensures EscapeByte(c) == WrittenAs(c)
  {
    var d := c % 16;
    assert "0123456789abcdef"[d] as int == (if d < 10 then 48 + d else 87 + d);
  }

  // ---------------------------------------------------------------- words

  predicate WordChar(c: Byte) {
    'a' as int <= c <= 'z' as int || 'A' as int <= c <= 'Z' as int || '0' as int <= c <= '9' as int
    || c == '_' as int || c >= 128
  }

  function Lowered(c: Byte): char {
    if 'A' as int <= c <= 'Z' as int then (c - ('A' as int) + ('a' as int)) as char else c as char
  }

  function Spelled(w: Bytes): (r: string)
    ensures |r| == |w| && forall i :: 0 <= i < |w| ==> r[i] == Lowered(w[i])
  {
    seq(|w|, i requires 0 <= i < |w| => Lowered(w[i]))
  }

  function Plain(w: Bytes): (r: string)
    ensures |r| == |w| && forall i :: 0 <= i < |w| ==> r[i] == w[i] as char
  {
    seq(|w|, i requires 0 <= i < |w| => w[i] as char)
  }

  /** A lower-case name as bytes. */
  predicate IsAscii(name: Bytes, w: string) {
    |name| == |w| && forall i :: 0 <= i < |w| ==> name[i] as char == w[i] && !('A' <= w[i] <= 'Z')
  }

  lemma SpelledIs(b: Bytes, name: Bytes, w: string)
    requires IsAscii(name, w)
    ensures SameName(b, name) <==> Spelled(b) == w
    ensures b == name <==> Plain(b) == w
  {
    if SameName(b, name) {
      forall i | 0 <= i < |b| ensures Spelled(b)[i] == w[i] {
        assert Low(b[i]) == name[i];
        assert Lowered(b[i]) == (Low(b[i]) as char);
      }
    }
    if Spelled(b) == w {
      forall i | 0 <= i < |b| ensures Low(b[i]) == name[i] {
        assert Lowered(b[i]) == w[i];
        assert (Low(b[i]) as char) == Lowered(b[i]) && (Low(b[i]) as char) as int == Low(b[i]);
        assert (name[i] as char) as int == name[i];
      }
    }
    if Plain(b) == w {
      forall i | 0 <= i < |b| ensures b[i] == name[i] {
        assert (b[i] as char) as int == b[i] && (name[i] as char) as int == name[i];
      }
      assert b == name;
    }
  }

  /** The words that are not identifiers; those for floats in any case. */
  function WordMeans(w: Bytes): Kind {
    if Spelled(w) == "nan" || Spelled(w) == "inf" || Spelled(w) == "infinity" then FLOAT
    else if Plain(w) == "true" then TRUE
    else if Plain(w) == "null" then NULL
    else if Plain(w) == "false" then FALSE
    else IDENTIFIER
  }

  lemma WordKindIs(w: Bytes)
    ensures WordKind(w) == WordMeans(w)
  {
    SpelledIs(w, NAN_WORD, "nan");
    SpelledIs(w, INF_WORD, "inf");
    SpelledIs(w, INFINITY_WORD, "infinity");
    SpelledIs(w, TRUE_WORD, "true");
    SpelledIs(w, NULL_WORD, "null");
    SpelledIs(w, FALSE_WORD, "false");
  }

  /** A word begins with no digit and ends before the first character that cannot belong to it. */
  ghost predicate WordText(w: Bytes) {
    w != [] && !('0' as int <= w[0] <= '9' as int) && forall i :: 0 <= i < |w| ==> WordChar(w[i])
  }

  ghost predicate WordEnds(rest: Bytes) { rest == [] || !WordChar(rest[0]) }

  lemma {:induction false} WordRunIs(w: Bytes, rest: Bytes)
    requires (forall i :: 0 <= i < |w| ==> WordChar(w[i])) && WordEnds(rest)
    ensures WordRun(w + rest) == |w|
    decreases |w|
  {
    if w == [] {
      assert w + rest == rest;
    } else {
      WordRunIs(w[1..], rest);
      assert (w + rest)[1..] == w[1..] + rest;
    }
  }

  lemma NoBlankFirst(b: Bytes, utf8: bool)
    requires b != [] && !IsSpace(b[0])
    ensures LexAt(b, utf8) == Token(b, utf8)
  {
    assert SpaceRun(b) == 0 && b[0..] == b;
  }

  /** Every word is one lexeme, of the kind its spelling says. */
  lemma WordLexeme(w: Bytes, rest: Bytes, utf8: bool)
    requires WordText(w) && WordEnds(rest)
    ensures LexAt(w + rest, utf8) == Found(Lexeme(WordMeans(w), w), |w|)
  {
    WordRunIs(w, rest);
    WordKindIs(w);
    FrontOf(w, rest);
    TokenFirst(w + rest, utf8);
  }

  predicate LetterChar(c: Byte) { 'a' as int <= c <= 'z' as int || 'A' as int <= c <= 'Z' as int }

  lemma {:induction false} LetterRunIs(w: Bytes, rest: Bytes)
    requires (forall i :: 0 <= i < |w| ==> LetterChar(w[i])) && (rest == [] || !LetterChar(rest[0]))
    ensures LetterRun(w + rest) == |w|
    decreases |w|
  {
    if w == [] {
      assert w + rest == rest;
    } else {
      LetterRunIs(w[1..], rest);
      assert (w + rest)[1..] == w[1..] + rest;
    }
  }

  /** A minus and a word of letters that begins with an i: an infinity or an error. */
  lemma NegativeLexeme(w: Bytes, rest: Bytes, utf8: bool)
    requires w != [] && (w[0] == 'i' as int || w[0] == 'I' as int) && forall i :: 0 <= i < |w| ==> LetterChar(w[i])
    requires rest == [] || !LetterChar(rest[0])
    ensures LexAt([45] + (w + rest), utf8) ==
      if Spelled(w) == "inf" || Spelled(w) == "infinity" then Found(Lexeme(FLOAT, [45] + w), 1 + |w|) else Nothing
  {
    var b := [45] + (w + rest);
    assert b[0] == 45 && b[1..] == w + rest && b[1] == w[0];
    LetterRunIs(w, rest);
    assert b[1..1 + |w|] == w && b[..1 + |w|] == [45] + w;
    SpelledIs(w, INF_WORD, "inf");
    SpelledIs(w, INFINITY_WORD, "infinity");
    NoBlankFirst(b, utf8);
    assert Token(b, utf8) == NegativeWord(b);
  }

  // ---------------------------------------------------------------- white space

  predicate Blank(c: Byte) { c == ' ' as int || c == '\t' as int || c == '\n' as int || c == '\r' as int }

  lemma BlankRun(c: Byte, rest: Bytes)
    requires Blank(c)
    ensures var b, n := [c] + rest, SpaceRun(rest);
      SpaceRun(b) == 1 + n && b[SpaceRun(b)..] == rest[n..]
  {
    var b, n := [c] + rest, SpaceRun(rest);
    assert b[1..] == rest;
    assert b[1 + n..] == b[1..][n..];
  }

  /** Blanks, tabs and line ends before a lexeme count for nothing. */
  lemma BlankLexes(c: Byte, rest: Bytes, utf8: bool)
    requires Blank(c)
    ensures var f := LexAt(rest, utf8);
      LexAt([c] + rest, utf8) == if f.Nothing? then Nothing else Found(f.lex, 1 + f.used)
  {
    BlankRun(c, rest);
  }

  /** Other control characters are errors. */
  lemma ControlRefused(c: Byte, rest: Bytes, utf8: bool)
    requires (c < 32 || c == 127) && !Blank(c)
    ensures LexAt([c] + rest, utf8).Nothing?
  {
    var b := [c] + rest;
    assert b[0] == c;
    NoBlankFirst(b, utf8);
    assert WordRun(b) == 0;
  }

  // ---------------------------------------------------------------- addresses

  ghost predicate DigitsOrPoints(t: Bytes) { forall i :: 0 <= i < |t| ==> IsDigit(t[i]) || t[i] == DOT }

  /** A whole number up to i, a fraction up to j, a point, a digit and more digits and points up to k, and
      up to n a slash and digits or nothing, ending where it could not go on. */
  ghost predicate AddressAt(b: Bytes, i: nat, j: nat, k: nat, n: nat) {
    && i < j < k <= n <= |b| && WholeText(b[..i]) && FractionText(b[i..j])
    && b[j] == DOT && k > j + 1 && IsDigit(b[j + 1]) && DigitsOrPoints(b[j + 1..k])
    && (if k == n then !GoesOn(b, n) && (n == |b| || b[n] != '/' as int)
        else b[k] == '/' as int && k + 1 < n && AllDigits(b[k + 1..n]) && (n == |b| || !IsWord(b[n])))
  }

  lemma DigitsOrPointsNext(b: Bytes, n: nat)
    requires 0 < n <= |b|
    ensures DigitsOrPoints(b[..n]) <==> (IsDigit(b[0]) || b[0] == DOT) && DigitsOrPoints(b[1..][..n - 1])
  {
    var t, u := b[..n], b[1..][..n - 1];
    assert t == [b[0]] + u;
    assert t[0] == b[0] && forall i :: 0 <= i < |u| ==> u[i] == t[i + 1];
    assert forall i :: 0 < i < n ==> t[i] == u[i - 1];
  }

  lemma {:induction false} AddressRunIs(b: Bytes, n: nat)
    requires n <= |b|
    ensures AddressRun(b) == n <==> DigitsOrPoints(b[..n]) && (n == |b| || !(IsDigit(b[n]) || b[n] == DOT))
    decreases |b|
  {
    if n > 0 {
      DigitsOrPointsNext(b, n);
      AddressRunIs(b[1..], n - 1);
      if n < |b| { assert b[1..][n - 1] == b[n]; }
    } else {
      assert DigitsOrPoints(b[..0]);
    }
  }

  /** An address lexeme is such a text, and every such text is one. */
  lemma AddressIff(b: Bytes, n: nat)
    ensures Number(b) == Numeral(INET, n, true) <==> exists i, j, k :: AddressAt(b, i, j, k, n)
  {
    if Number(b) == Numeral(INET, n, true) { AddressIs(b); }
    if i, j, k :| AddressAt(b, i, j, k, n) { IsAddress(b, i, j, k, n); }
  }

  lemma AddressIs(b: Bytes)
    requires Number(b).ok && Number(b).kind == INET
    ensures exists i, j, k :: AddressAt(b, i, j, k, Number(b).used)
  {
    var w := Whole(b);
    var f := Fraction(b, w);
    var a := Address(b, f);
    var s := Suffix(b, f);
    WordStops(b, s.used);
    WholeIs(b);
    FractionIs(b, w);
    assert s == Mask(b, a);
    AddressPart(b, f);
    if s != a { MaskPart(b, a); }
    assert AddressAt(b, w.used, f.used, a.used, s.used);
  }

  lemma AddressPart(b: Bytes, p: Numeral)
    requires p.used < |b| && Address(b, p).ok
    ensures var a := Address(b, p);
      && a.used > p.used + 1 && IsDigit(b[p.used + 1]) && DigitsOrPoints(b[p.used + 1..a.used])
      && (a.used == |b| || !(IsDigit(b[a.used]) || b[a.used] == DOT))
  {
    var at := p.used + 1;
    var rest := b[at..];
    AddressRunIs(rest, AddressRun(rest));
    assert rest[..AddressRun(rest)] == b[at..at + AddressRun(rest)];
  }

  lemma MaskPart(b: Bytes, p: Numeral)
    requires p.used <= |b| && Mask(b, p) != p && Mask(b, p).ok
    ensures var s := Mask(b, p); b[p.used] == 47 && p.used + 1 < s.used && AllDigits(b[p.used + 1..s.used])
  {
    DigitsOfRun(b, p.used + 1);
  }

  lemma IsAddress(b: Bytes, i: nat, j: nat, k: nat, n: nat)
    requires AddressAt(b, i, j, k, n)
    ensures Number(b) == Numeral(INET, n, true)
  {
    assert b[i..j][0] == b[i];
    WholeOf(b, i);
    FractionOf(b, i, j);
    AddressOf(b, j, k);
    if k < n { DigitsUpTo(b, k + 1, n, b[k + 1..n]); }
    WordStops(b, n);
  }

  lemma AddressOf(b: Bytes, j: nat, k: nat)
    requires j + 1 < k <= |b| && b[j] == DOT && IsDigit(b[j + 1]) && DigitsOrPoints(b[j + 1..k])
    requires k == |b| || !(IsDigit(b[k]) || b[k] == DOT)
    ensures Address(b, Numeral(FLOAT, j, true)) == Numeral(INET, k, true)
  {
    var rest := b[j + 1..];
    assert rest[..k - j - 1] == b[j + 1..k];
    AddressRunIs(rest, k - j - 1);
  }

  // ---------------------------------------------------------------- what the library may print

  /** The texts that are one float lexeme wherever a value may end. */
  ghost predicate FloatLexeme(t: Bytes) {
    || FloatText(t)
    || (t != [] && t[0] == MINUS && FloatText(t[1..]))
    || (WordText(t) && WordMeans(t) == FLOAT)
    || (t != [] && t[0] == MINUS && NegativeInfinity(t[1..]))
  }

  ghost predicate FloatText(t: Bytes) { exists i: nat, j: nat :: FloatAt(t, i, j, |t|) }

  ghost predicate NegativeInfinity(w: Bytes) {
    (Spelled(w) == "inf" || Spelled(w) == "infinity") && forall i :: 0 <= i < |w| ==> LetterChar(w[i])
  }

  ghost predicate AddressLexeme(t: Bytes) { exists i: nat, j: nat, k: nat :: AddressAt(t, i, j, k, |t|) }

  /** What may follow a value inside a text. */
  predicate Ends(rest: Bytes) { rest == [] || rest[0] == 44 || rest[0] == 93 || rest[0] == 125 || rest[0] == 58 }

  lemma FloatBefore(t: Bytes, rest: Bytes, i: nat, j: nat)
    requires FloatAt(t, i, j, |t|) && Ends(rest)
    ensures FloatAt(t + rest, i, j, |t|)
  {
    var b := t + rest;
    assert b[..i] == t[..i] && b[i..j] == t[i..j] && b[j..|t|] == t[j..];
    assert t[j..|t|] == t[j..];
  }

  lemma AddressBefore(t: Bytes, rest: Bytes, i: nat, j: nat, k: nat)
    requires AddressAt(t, i, j, k, |t|) && Ends(rest)
    ensures AddressAt(t + rest, i, j, k, |t|)
  {
    var b := t + rest;
    assert b[..i] == t[..i] && b[i..j] == t[i..j] && b[j + 1..k] == t[j + 1..k];
    if k < |t| { assert b[k + 1..|t|] == t[k + 1..|t|]; }
  }

  lemma FrontOf(t: Bytes, rest: Bytes)
    requires t != []
    ensures (t + rest)[0] == t[0] && (t + rest)[..|t|] == t && (t + rest)[1..] == t[1..] + rest && (t + rest)[0..] == t + rest
  {
  }

  /** By its first byte a lexeme is a number, a number behind a minus, or a word. */
  lemma TokenFirst(b: Bytes, utf8: bool)
    requires b != []
    ensures IsDigit(b[0]) ==> LexAt(b, utf8) == NumberToken(b, 0)
    ensures b[0] == MINUS && |b| > 1 && IsDigit(b[1]) ==> LexAt(b, utf8) == NumberToken(b, 1)
    ensures WordChar(b[0]) && !IsDigit(b[0]) ==> LexAt(b, utf8) == WordToken(b)
  {
    if WordChar(b[0]) || b[0] == MINUS { NoBlankFirst(b, utf8); }
  }

  lemma NumberLexes(t: Bytes, k: Kind, rest: Bytes, utf8: bool)
    requires t != [] && IsDigit(t[0]) && Number(t + rest) == Numeral(k, |t|, true)
    ensures LexAt(t + rest, utf8) == Found(Lexeme(k, t), |t|)
  {
    FrontOf(t, rest);
    TokenFirst(t + rest, utf8);
  }

  lemma MinusLexes(t: Bytes, k: Kind, rest: Bytes, utf8: bool)
    requires |t| > 1 && t[0] == MINUS && IsDigit(t[1]) && Number(t[1..] + rest) == Numeral(k, |t| - 1, true)
    ensures LexAt(t + rest, utf8) == Found(Lexeme(k, t), |t|)
  {
    FrontOf(t, rest);
    assert (t + rest)[1] == t[1];
    TokenFirst(t + rest, utf8);
  }

  lemma FloatTextLexes(t: Bytes, rest: Bytes)
    requires FloatText(t) && Ends(rest)
    ensures t != [] && IsDigit(t[0]) && Number(t + rest) == Numeral(FLOAT, |t|, true)
  {
    var i: nat, j: nat :| FloatAt(t, i, j, |t|);
    FloatBefore(t, rest, i, j);
    FloatIff(t + rest, |t|);
    assert t[..i][0] == t[0];
  }

  lemma NegativeLexes(t: Bytes, rest: Bytes, utf8: bool)
    requires t != [] && t[0] == MINUS && NegativeInfinity(t[1..]) && Ends(rest)
    ensures LexAt(t + rest, utf8) == Found(Lexeme(FLOAT, t), |t|)
  {
    var w := t[1..];
    assert t == [45] + w && Spelled(w)[0] == Lowered(w[0]);
    assert t + rest == [45] + (w + rest);
    NegativeLexeme(w, rest, utf8);
  }

  lemma FloatLexes(t: Bytes, rest: Bytes, utf8: bool)
    requires FloatLexeme(t) && Ends(rest)
    ensures LexAt(t + rest, utf8) == Found(Lexeme(FLOAT, t), |t|)
  {
    if FloatText(t) {
      FloatTextLexes(t, rest);
      NumberLexes(t, FLOAT, rest, utf8);
    } else if t != [] && t[0] == MINUS && FloatText(t[1..]) {
      FloatTextLexes(t[1..], rest);
      MinusLexes(t, FLOAT, rest, utf8);
    } else if WordText(t) && WordMeans(t) == FLOAT {
      WordLexeme(t, rest, utf8);
    } else {
      NegativeLexes(t, rest, utf8);
    }
  }

  lemma AddressLexes(t: Bytes, rest: Bytes, utf8: bool)
    requires AddressLexeme(t) && Ends(rest)
    ensures LexAt(t + rest, utf8) == Found(Lexeme(INET, t), |t|)
  {
    var i: nat, j: nat, k: nat :| AddressAt(t, i, j, k, |t|);
    AddressBefore(t, rest, i, j, k);
    AddressIff(t + rest, |t|);
    assert t[..i][0] == t[0];
    NumberLexes(t, INET, rest, utf8);
  }
}
