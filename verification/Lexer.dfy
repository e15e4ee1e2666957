/** The lexer: positions in the input, moved by loops. */
module Lexer {
  import opened GtypeKeys
  import opened LexRules

  lemma Drop(b: Bytes, i: nat, j: nat)
    requires i <= j <= |b|
    ensures b[i..][j - i..] == b[j..] && (j < |b| ==> b[j..][0] == b[j] && b[j..][1..] == b[j + 1..])
  {
  }

  lemma SliceOf(b: Bytes, i: nat, j: nat, n: nat)
    requires i <= j <= i + n <= |b|
    ensures b[i..][..n] == b[i..i + n] && b[i..i + n][j - i..] == b[j..i + n]
  {
  }

  /** An escape at s puts `val` in front of what follows at `next`. */
  ghost predicate EscapeStep(input: Bytes, utf8: bool, s: nat, hi: int, next: nat, pending: int, val: Bytes)
    requires s <= next <= |input| && -1 <= hi <= 0x3FF * 0x400 && -1 <= pending <= 0x3FF * 0x400
  {
    StringBody(input[s..], hi, utf8) == After(val, next - s, StringBody(input[next..], pending, utf8))
  }

  lemma NumberTokenIs(input: Bytes, s: nat, sign: nat, k: Kind, e: nat, ok: bool)
    requires s + sign <= e <= |input|
    requires var p := Number(input[s + sign..]); ok == p.ok && k == p.kind && e == s + sign + p.used
    ensures NumberToken(input[s..], sign) == if ok then Found(Lexeme(k, input[s..e]), e - s) else Nothing
  {
    assert input[s..][sign..] == input[s + sign..];
    assert input[s..][..e - s] == input[s..e];
  }

  lemma StringStops(input: Bytes, s: nat, hi: int, utf8: bool)
    requires s <= |input| && -1 <= hi <= 0x3FF * 0x400
    ensures s == |input| ==> StringBody(input[s..], hi, utf8).Broken?
    ensures s < |input| && input[s] < 32 ==> StringBody(input[s..], hi, utf8).Broken?
    ensures s < |input| && hi != -1 && input[s] != BACKSLASH ==> StringBody(input[s..], hi, utf8).Broken?
    ensures s < |input| && hi == -1 && input[s] == QUOTE ==> StringBody(input[s..], hi, utf8) == Literal([], 1)
  {
  }

  lemma StreamStep(b: Bytes, utf8: bool)
    ensures var f, s := LexAt(b, utf8), Stream(b, utf8);
      if f.Nothing? then s == [Bad]
      else s == [f.lex] + if f.lex.kind == END then [] else Stream(b[f.used..], utf8)
  {
  }

  class LexContext {
    const input: Bytes
    const utf8: bool
    var tokenStart: nat
    var tokenEnd: nat
    var kind: Kind
    var strval: Bytes
    var level: int

    ghost predicate Valid()
      reads `tokenStart, `tokenEnd
    {
      tokenStart <= tokenEnd <= |input|
    }

    /** The look-ahead lexeme. */
    ghost function Current(): Lexeme
      reads `tokenStart, `tokenEnd, `kind, `strval
      requires Valid()
    {
      Lexeme(kind, if kind == STRING then strval else if HasText(kind) then input[tokenStart..tokenEnd] else [])
    }

    /** make_gtype_lex_context_cstring_len */
    constructor (text: Bytes, isUtf8: bool)
      ensures Valid() && input == text && utf8 == isUtf8 && tokenEnd == 0 && level == 0
    {
      input, utf8 := text, isUtf8;
      tokenStart, tokenEnd, kind, strval, level := 0, 0, END, [], 0;
    }

    method DigitsFrom(p: nat) returns (q: nat)
      requires p <= |input|
      ensures q == p + DigitRun(input[p..]) <= |input|
    {
      q := p;
      while q < |input| && IsDigit(input[q])
        invariant p <= q <= |input| && q + DigitRun(input[q..]) == p + DigitRun(input[p..])
      {
        Drop(input, p, q);
        q := q + 1;
      }
    }

    method AddressFrom(p: nat) returns (q: nat)
      requires p <= |input|
      ensures q == p + AddressRun(input[p..]) <= |input|
    {
      q := p;
      while q < |input| && (IsDigit(input[q]) || input[q] == DOT)
        invariant p <= q <= |input| && q + AddressRun(input[q..]) == p + AddressRun(input[p..])
      {
        Drop(input, p, q);
        q := q + 1;
      }
    }

    method WordFrom(p: nat) returns (q: nat)
      requires p <= |input|
      ensures q == p + WordRun(input[p..]) <= |input|
    {
      q := p;
      while q < |input| && IsWord(input[q])
        invariant p <= q <= |input| && q + WordRun(input[q..]) == p + WordRun(input[p..])
      {
        Drop(input, p, q);
        q := q + 1;
      }
    }

    method LettersFrom(p: nat) returns (q: nat)
      requires p <= |input|
      ensures q == p + LetterRun(input[p..]) <= |input|
    {
      q := p;
      while q < |input| && IsLetter(input[q])
        invariant p <= q <= |input| && q + LetterRun(input[q..]) == p + LetterRun(input[p..])
      {
        Drop(input, p, q);
        q := q + 1;
      }
    }

    method SpacesFrom(p: nat) returns (q: nat)
      requires p <= |input|
      ensures q == p + SpaceRun(input[p..]) <= |input|
    {
      q := p;
      while q < |input| && IsSpace(input[q])
        invariant p <= q <= |input| && q + SpaceRun(input[q..]) == p + SpaceRun(input[p..])
      {
        Drop(input, p, q);
        q := q + 1;
      }
    }

    /** The digits before the point. */
    method LexWhole(s: nat) returns (p: Numeral)
      requires s <= |input|
      ensures p == Whole(input[s..])
    {
      p := Numeral(INTEGER, 0, false);
      if s < |input| && input[s] == ZERO {
        p := Numeral(INTEGER, 1, true);
      } else if s < |input| && IsDigit(input[s]) {
        var q := DigitsFrom(s);
        p := Numeral(INTEGER, q - s, true);
      }
    }

    method LexFraction(s: nat, p: Numeral) returns (r: Numeral)
      requires s + p.used <= |input|
      ensures r == Fraction(input[s..], p)
    {
      var at := s + p.used;
      r := p;
      if at < |input| && input[at] == DOT {
        Drop(input, s, at + 1);
        var q := DigitsFrom(at + 1);
        r := Numeral(FLOAT, q - s, p.ok && q > at + 1);
      }
    }

    /** A second point: an address, with an optional mask. */
    method LexAddress(s: nat, p: Numeral) returns (r: Numeral)
      requires s + p.used < |input|
      ensures r == Mask(input[s..], Address(input[s..], p))
    {
      var q := s + p.used + 1;
      var ok := p.ok;
      Drop(input, s, q);
      if q == |input| || !IsDigit(input[q]) {
        ok := false;
      } else {
        q := AddressFrom(q);
      }
      r := LexMask(s, Numeral(INET, q - s, ok));
    }

    method LexMask(s: nat, p: Numeral) returns (r: Numeral)
      requires s + p.used <= |input| && p.kind == INET
      ensures r == Mask(input[s..], p)
    {
      var q := s + p.used;
      r := p;
      if q < |input| && input[q] == 47 {
        Drop(input, s, q + 1);
        var e := DigitsFrom(q + 1);
        r := Numeral(INET, e - s, p.ok && e > q + 1);
      }
    }

    method LexExponent(s: nat, p: Numeral) returns (r: Numeral)
      requires s + p.used < |input|
      ensures r == Exponent(input[s..], p)
    {
      var q := s + p.used + 1;
      if q < |input| && (input[q] == 43 || input[q] == MINUS) {
        q := q + 1;
      }
      Drop(input, s, q);
      var e := DigitsFrom(q);
      r := Numeral(FLOAT, e - s, p.ok && e > q);
    }

    method LexSuffix(s: nat, p: Numeral) returns (r: Numeral)
      requires s + p.used <= |input|
      ensures r == Suffix(input[s..], p)
    {
      var at := s + p.used;
      r := p;
      if at < |input| && input[at] == DOT {
        r := LexAddress(s, p);
      } else if at < |input| && (input[at] == 101 || input[at] == 69) {
        r := LexExponent(s, p);
      }
    }

    /** gtype_lex_number */
    method LexNumber(s: nat) returns (ok: bool)
      requires Valid() && tokenStart <= s <= |input|
      modifies `kind, `tokenEnd
      ensures Valid()
      ensures var p := Number(input[s..]); ok == p.ok && kind == p.kind && tokenEnd == s + p.used
      ensures ok ==> tokenEnd > s && (kind == INTEGER || kind == FLOAT || kind == INET)
    {
      NumberUses(input[s..]);
      var p := LexWhole(s);
      p := LexFraction(s, p);
      p := LexSuffix(s, p);
      var at := s + p.used;
      Drop(input, s, at);
      var e := WordFrom(at);
      kind, tokenEnd, ok := p.kind, e, p.ok && e == at;
    }

    /** A word behind a minus sign. */
    method LexNegativeWord() returns (ok: bool)
      requires Valid() && tokenStart + 1 < |input|
      modifies `kind, `tokenEnd
      ensures IsAt(ok, NegativeWord(input[tokenStart..]))
    {
      var s := tokenStart + 1;
      Drop(input, tokenStart, s);
      var p := LettersFrom(s);
      tokenEnd, kind := p, FLOAT;
      SliceOf(input, tokenStart, s, p - tokenStart);
      ok := SameName(input[s..p], INF_WORD) || SameName(input[s..p], INFINITY_WORD);
    }

    method LexWord() returns (ok: bool)
      requires Valid() && tokenStart < |input|
      modifies `kind, `tokenEnd
      ensures IsAt(ok, WordToken(input[tokenStart..]))
    {
      var p := WordFrom(tokenStart);
      SliceOf(input, tokenStart, tokenStart, p - tokenStart);
      tokenEnd, kind := p, WordKind(input[tokenStart..p]);
      ok := p > tokenStart;
    }

    /** gtype_lex */
    method Lex() returns (ok: bool)
      requires Valid()
      modifies `tokenStart, `tokenEnd, `kind, `strval
      ensures Valid()
      ensures var f := LexAt(input[old(tokenEnd)..], utf8);
        (ok <==> f.Found?) && (ok ==> Current() == f.lex && tokenEnd == old(tokenEnd) + f.used)
    {
      var s := SpacesFrom(tokenEnd);
      Drop(input, tokenEnd, s);
      if s == |input| {
        tokenStart, tokenEnd, kind := s, s, END;
        return true;
      }
      tokenStart, tokenEnd := s, s;
      ok := LexToken();
    }

    /** The look-ahead is what the reference found from tokenStart on. */
    ghost predicate IsAt(ok: bool, f: Found)
      reads `tokenStart, `tokenEnd, `kind, `strval
    {
      Valid() && (ok <==> f.Found?) && (ok ==> Current() == f.lex && tokenEnd == tokenStart + f.used)
    }

    method LexPunctuation() returns (ok: bool)
      requires Valid() && tokenStart < |input|
      requires Punctuation(input[tokenStart]) != IDENTIFIER || input[tokenStart] == 58
      modifies `tokenEnd, `kind
      ensures IsAt(ok, Token(input[tokenStart..], utf8))
    {
      var s, c := tokenStart, input[tokenStart];
      ok := true;
      if c != 58 {
        tokenEnd, kind := s + 1, Punctuation(c);
      } else if s + 1 < |input| && input[s + 1] == 58 {
        tokenEnd, kind := s + 2, ANNOTATION;
      } else {
        tokenEnd, kind := s + 1, COLON;
      }
    }

    method LexNumberToken(sign: nat) returns (ok: bool)
      requires Valid() && tokenStart + sign <= |input|
      modifies `tokenEnd, `kind
      ensures IsAt(ok, NumberToken(input[tokenStart..], sign))
    {
      ok := LexNumber(tokenStart + sign);
      NumberTokenIs(input, tokenStart, sign, kind, tokenEnd, ok);
    }

    method LexStringToken() returns (ok: bool)
      requires Valid() && tokenStart < |input| && input[tokenStart] == QUOTE
      modifies `tokenEnd, `kind, `strval
      ensures IsAt(ok, StringToken(input[tokenStart..], utf8))
    {
      Drop(input, tokenStart, tokenStart + 1);
      tokenEnd := tokenStart;
      ok := LexString();
      kind := STRING;
    }

    /** The look-ahead and everything behind it. */
    ghost function Ahead(): (r: seq<Lexeme>)
      reads `tokenStart, `tokenEnd, `kind, `strval
      requires Valid()
      ensures r != [] && r[0] == Current()
    {
      [Current()] + if kind == END then [] else Stream(input[tokenEnd..], utf8)
    }

    /** gtype_lex, seen from the stream of what is behind the position. */
    method Shift() returns (ok: bool)
      requires Valid()
      modifies `tokenStart, `tokenEnd, `kind, `strval
      ensures Valid()
      ensures var s := Stream(input[old(tokenEnd)..], utf8); (ok <==> s[0].Lexeme?) && (ok ==> Ahead() == s)
    {
      ghost var end := tokenEnd;
      StreamStep(input[end..], utf8);
      ok := Lex();
      if ok && kind != END { Drop(input, end, tokenEnd); }
    }

    /** Accept the look-ahead and move on; the next lexeme may be an error. */
    method Next() returns (ok: bool)
      requires Valid() && kind != END
      modifies `tokenStart, `tokenEnd, `kind, `strval
      ensures Valid()
      ensures ok <==> old(Ahead())[1..][0].Lexeme?
      ensures ok ==> Ahead() == old(Ahead())[1..]
    {
      ghost var was, end := Ahead(), tokenEnd;
      assert was[1..] == Stream(input[end..], utf8);
      ok := Shift();
    }

    /** The first lexeme. */
    method First() returns (ok: bool)
      requires Valid() && tokenEnd == 0
      modifies `tokenStart, `tokenEnd, `kind, `strval
      ensures Valid()
      ensures (ok <==> Stream(input, utf8)[0].Lexeme?) && (ok ==> Ahead() == Stream(input, utf8))
    {
      ok := Shift();
      assert input[0..] == input;
    }

    /** The lexeme that starts at tokenStart. */
    method LexToken() returns (ok: bool)
      requires Valid() && tokenStart < |input|
      modifies `tokenEnd, `kind, `strval
      ensures IsAt(ok, Token(input[tokenStart..], utf8))
    {
      var s, c := tokenStart, input[tokenStart];
      ghost var b := input[s..];
      if Punctuation(c) != IDENTIFIER || c == 58 {
        ok := LexPunctuation();
      } else if c == QUOTE {
        ok := LexStringToken();
      } else if c == MINUS {
        if s + 1 < |input| && (input[s + 1] == 105 || input[s + 1] == 73) {
          ok := LexNegativeWord();
        } else {
          ok := LexNumberToken(1);
        }
      } else if IsDigit(c) {
        ok := LexNumberToken(0);
      } else {
        ok := LexWord();
      }
    }

    /** Four hexadecimal digits of a \u escape. */
    method LexCode(p: nat) returns (ch: int)
      requires p <= |input|
      ensures ch == Code(input[p..])
    {
      ch := 0;
      var i := 0;
      ghost var b := input[p..];
      while i < 4
        invariant 0 <= i <= 4 && |b| >= i && 0 <= ch
        invariant forall k :: 0 <= k < i ==> Hex(b[k]) != 16
        invariant ch == Digits(b[..i])
      {
        if p + i >= |input| || Hex(input[p + i]) == 16 {
          return -1;
        }
        assert b[i] == input[p + i] && b[..i + 1][..i] == b[..i];
        ch := ch * 16 + Hex(input[p + i]);
        i := i + 1;
      }
      FourDigits(b);
    }

    /** The part of gtype_lex_string after a backslash at s. */
    method LexEscape(s: nat, hi: int) returns (ok: bool, next: nat, pending: int)
      requires Valid() && s < |input| && input[s] == BACKSLASH && -1 <= hi <= 0x3FF * 0x400
      modifies `strval
      ensures !ok ==> StringBody(input[s..], hi, utf8).Broken?
      ensures ok ==> s < next <= |input| && -1 <= pending <= 0x3FF * 0x400 && old(strval) <= strval
      ensures ok ==> EscapeStep(input, utf8, s, hi, next, pending, strval[|old(strval)|..])
    {
      next, pending := s, -1;
      if s + 1 >= |input| {
        return false, s, -1;
      }
      if input[s + 1] == 117 {
        Drop(input, s, s + 2);
        var ch := LexCode(s + 2);
        if ch == -1 {
          return false, s, -1;
        }
        assert s + 6 <= |input|;
        Drop(input, s, s + 6);
        next := s + 6;
        match UnitOf(ch, hi, utf8)
        case Refused => return false, s, -1;
        case Pending(h) => pending := h;
        case Char(bytes) => strval := strval + bytes;
      } else {
        if hi != -1 || Escaped(input[s + 1]) == [] {
          return false, s, -1;
        }
        Drop(input, s, s + 2);
        strval := strval + Escaped(input[s + 1]);
        next := s + 2;
      }
      ok := true;
    }

    /** One byte or escape at s that is not the closing quote. */
    method LexUnit(s: nat, hi: int) returns (ok: bool, next: nat, pending: int)
      requires Valid() && s < |input| && input[s] != QUOTE && -1 <= hi <= 0x3FF * 0x400
      modifies `strval
      ensures !ok ==> StringBody(input[s..], hi, utf8).Broken?
      ensures ok ==> s < next <= |input| && -1 <= pending <= 0x3FF * 0x400 && old(strval) <= strval
      ensures ok ==> EscapeStep(input, utf8, s, hi, next, pending, strval[|old(strval)|..])
    {
      StringStops(input, s, hi, utf8);
      if input[s] < 32 {
        return false, s, hi;
      }
      if input[s] == BACKSLASH {
        ok, next, pending := LexEscape(s, hi);
        return;
      }
      if hi != -1 {
        return false, s, hi;
      }
      Drop(input, s, s);
      strval := strval + [input[s]];
      ok, next, pending := true, s + 1, -1;
    }

    /** gtype_lex_string */
    method LexString() returns (ok: bool)
      requires Valid() && tokenStart < |input| && input[tokenStart] == QUOTE
      modifies `strval, `tokenEnd
      ensures var r := StringBody(input[tokenStart + 1..], -1, utf8);
        (ok <==> r.Literal?) && (ok ==> strval == r.val && tokenEnd == tokenStart + 1 + r.used)
      ensures !ok ==> tokenEnd == old(tokenEnd)
    {
      strval := [];
      var start := tokenStart + 1;
      var s, hi: int := start, -1;
      ghost var all := StringBody(input[start..], -1, utf8);
      while s < |input| && input[s] != QUOTE
        invariant start <= s <= |input| && -1 <= hi <= 0x3FF * 0x400
        invariant all == After(strval, s - start, StringBody(input[s..], hi, utf8))
        invariant tokenEnd == old(tokenEnd)
      {
        ghost var acc, was := strval, s;
        ok, s, hi := LexUnit(s, hi);
        if !ok {
          return;
        }
        Joined(acc, strval, was - start, s - was, StringBody(input[s..], hi, utf8));
      }
      StringStops(input, s, hi, utf8);
      ok := s < |input| && hi == -1;
      if ok {
        tokenEnd := s + 1;
      }
    }
  }

  lemma Joined(acc: Bytes, grown: Bytes, m: nat, k: nat, r: Literal)
    requires acc <= grown
    ensures After(acc, m, After(grown[|acc|..], k, r)) == After(grown, m + k, r)
  {
    if r.Literal? { assert acc + (grown[|acc|..] + r.val) == grown + r.val; }
  }

  function Digits(b: Bytes): nat
    requires forall k :: 0 <= k < |b| ==> Hex(b[k]) != 16
  {
    if b == [] then 0 else Digits(b[..|b| - 1]) * 16 + Hex(b[|b| - 1])
  }

  lemma FourDigits(b: Bytes)
    requires |b| >= 4 && forall k :: 0 <= k < 4 ==> Hex(b[k]) != 16
    ensures Digits(b[..4]) == Code(b)
  {
    assert b[..4][..3] == b[..3] && b[..3][..2] == b[..2] && b[..2][..1] == b[..1] && b[..1][..0] == [];
    assert Digits(b[..1]) == Hex(b[0]);
    assert Digits(b[..2]) == Hex(b[0]) * 16 + Hex(b[1]);
    assert Digits(b[..3]) == Digits(b[..2]) * 16 + Hex(b[2]);
  }
}
