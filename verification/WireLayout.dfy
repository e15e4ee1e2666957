/** The stored form byte by byte, as another reader of the same pages would expect it. */
module WireLayout {
  import opened GtypeEntry
  import opened GtypeKeys
  import opened GtypeValue
  import opened GtypeEncode
  import opened LexRules
  import opened ParseRules

  /** Words are stored least significant byte first. */
  lemma WordBytes(a: Byte, b: Byte, c: Byte, d: Byte)
    ensures U32(Word(a, b, c, d)) == [a, b, c, d]
  {
    var x: nat := Word(a, b, c, d);
    var y: nat := b + 0x100 * c + 0x1_0000 * d;
    var z: nat := c + 0x100 * d;
    Divide(x, 0x100, y, a);
    Divide(x, 0x1_0000, z, a + 0x100 * b);
    Divide(x, 0x100_0000, d, a + 0x100 * b + 0x1_0000 * c);
    Divide(y, 0x100, z, b);
    Divide(z, 0x100, d, c);
  }

  lemma Divide(x: nat, m: nat, q: nat, r: nat)
    requires (m == 0x100 && x == 0x100 * q + r) || (m == 0x1_0000 && x == 0x1_0000 * q + r)
      || (m == 0x100_0000 && x == 0x100_0000 * q + r)
    requires r < m
    ensures x / m == q && x % m == r
  {
    if m == 0x100 {
      assert x / 0x100 == q;
    } else if m == 0x1_0000 {
      assert x / 0x1_0000 == q;
    } else {
      assert x / 0x100_0000 == q;
    }
  }

  /** The type bits of a child. */
  function TypeCode(c: Value): nat {
    match c
    case Str(_) => 0
    case Num(_) => 1
    case Bool(b) => if b then 3 else 2
    case Null => 4
    case Ext(_, _) => 6
    case _ => 5
  }

  /** Bit 31 marks every 32nd entry, bits 28 to 30 are the type, and the low 28 bits are a length or, in
      the marked ones, the end of the child's data. */
  lemma EntryBits(v: Value, i: nat, root: bool)
    requires Ok(v, root) && IsContainer(v) && i < Count(v) && Fits(v)
    ensures var e := EntryAt(v, i);
      && e < 0x1_0000_0000
      && e / 0x8000_0000 == (if i % 32 == 0 then 1 else 0)
      && e / 0x1000_0000 % 8 == TypeCode(Child(v, i))
      && e % 0x1000_0000 == (if i % 32 == 0 then Total(v, i + 1) else Total(v, i + 1) - Total(v, i))
  {
    EntryIs(v, i, root);
    OkKid(v, i, root);
    PieceShort(v, i);
    var m := MetaAt(v, i);
    if IsKey(v, i) {
      GtypeEntry.Fields(0, |v.pairs[i].key|, 0);
    } else {
      var c, off := Kid(v, i), |Data(v, i)|;
      assert m == Make(TypeBits(c), MetaLen(c, off));
      MetaLength(c, off);
      MetaLenFits(c, off);
      GtypeEntry.Fields(TypeBits(c), MetaLen(c, off), 0);
    }
  }

  lemma MetaLenFits(c: Value, off: nat)
    requires Ok(c, false) && |Enc(c, off)| <= OFFLENMASK
    ensures MetaLen(c, off) <= OFFLENMASK
  {
  }

  /** The header counts elements or pairs; bit 30 is for arrays, 29 for objects, 28 for a wrapped scalar. */
  lemma HeaderWord(v: Value, root: bool)
    requires Ok(v, root) && IsContainer(v) && Fits(v)
    ensures v.Obj? ==> Header(v) == 0x2000_0000 + |v.pairs|
    ensures v.Arr? && !v.raw ==> Header(v) == 0x4000_0000 + |v.elems|
    ensures v.Arr? && v.raw ==> Header(v) == 0x5000_0001
  {
  }

  lemma SmallArray()
    ensures var v := Arr([Null, Bool(true), Str([97])], false);
      Data(v, 3) == [97] && EntryAt(v, 0) == 0xC000_0000 && EntryAt(v, 1) == 0x3000_0000 && EntryAt(v, 2) == 1
  {
    var v := Arr([Null, Bool(true), Str([97])], false);
    DataStep(v, 0);
    DataStep(v, 1);
    DataStep(v, 2);
    assert Data(v, 1) == [] && Data(v, 2) == [] && Data(v, 3) == [97];
    assert MetaAt(v, 0) == 0x4000_0000 && MetaAt(v, 1) == 0x3000_0000 && MetaAt(v, 2) == 1;
  }

  lemma SmallObject()
    ensures var v := Obj([Pair([97], Bool(false)), Pair([98], Str([99, 100]))]);
      Data(v, 4) == [97, 98, 99, 100] && EntryAt(v, 0) == 0x8000_0001 && EntryAt(v, 1) == 1
      && EntryAt(v, 2) == 0x2000_0000 && EntryAt(v, 3) == 2
  {
    var v := Obj([Pair([97], Bool(false)), Pair([98], Str([99, 100]))]);
    DataStep(v, 0);
    DataStep(v, 1);
    DataStep(v, 2);
    DataStep(v, 3);
    assert Data(v, 1) == [97] && Data(v, 2) == [97, 98] && Data(v, 3) == [97, 98] && Data(v, 4) == [97, 98, 99, 100];
    assert MetaAt(v, 0) == 1 && MetaAt(v, 1) == 1 && MetaAt(v, 2) == 0x2000_0000 && MetaAt(v, 3) == 2;
  }

  /** One object written out: {"a": false, "b": "cd"}, all keys before all values. */
  lemma ObjectBytes()
    ensures var v := Obj([Pair([97], Bool(false)), Pair([98], Str([99, 100]))]);
      Body(v) == [2, 0, 0, 32] + ([1, 0, 0, 128] + [1, 0, 0, 0] + [0, 0, 0, 32] + [2, 0, 0, 0]) + [97, 98, 99, 100]
  {
    var v := Obj([Pair([97], Bool(false)), Pair([98], Str([99, 100]))]);
    SmallObject();
    WordBytes(2, 0, 0, 32);
    WordBytes(1, 0, 0, 128);
    WordBytes(1, 0, 0, 0);
    WordBytes(0, 0, 0, 32);
    WordBytes(2, 0, 0, 0);
    ThreeEntries(v);
    EntriesNext(v, 3);
  }

  lemma EntriesNext(v: Value, k: nat)
    requires IsContainer(v) && k < Count(v)
    ensures Entries(v, k + 1) == Entries(v, k) + U32(EntryAt(v, k))
  {
  }

  lemma ThreeEntries(v: Value)
    requires IsContainer(v) && Count(v) >= 3
    ensures Entries(v, 3) == U32(EntryAt(v, 0)) + U32(EntryAt(v, 1)) + U32(EntryAt(v, 2))
  {
    EntriesNext(v, 0);
    EntriesNext(v, 1);
    EntriesNext(v, 2);
    assert [] + U32(EntryAt(v, 0)) == U32(EntryAt(v, 0));
  }

  /** One array written out: null, true and "a". */
  lemma ArrayBytes()
    ensures var v := Arr([Null, Bool(true), Str([97])], false);
      Body(v) == [3, 0, 0, 64] + ([0, 0, 0, 192] + [0, 0, 0, 48] + [1, 0, 0, 0]) + [97]
  {
    var v := Arr([Null, Bool(true), Str([97])], false);
    SmallArray();
    WordBytes(3, 0, 0, 64);
    WordBytes(0, 0, 0, 192);
    WordBytes(0, 0, 0, 48);
    WordBytes(1, 0, 0, 0);
    ThreeEntries(v);
  }

  lemma {:induction false} LowByteFirst(n: nat, k: nat)
    requires k > 0
    ensures LittleEndian(n, k)[0] == n % 256 && LittleEndian(n, k)[1..] == LittleEndian(n / 256, k - 1)
  {
  }

  function Word(a: nat, b: nat, c: nat, d: nat): nat { a + 0x100 * b + 0x1_0000 * c + 0x100_0000 * d }

  lemma {:induction false} ByteOf(n: nat, k: nat, i: nat, rest: nat)
    requires i < k && rest == Shifted(n, i)
    ensures LittleEndian(n, k)[i] == rest % 256
  {
    LowByteFirst(n, k);
    if i > 0 { ByteOf(n / 256, k - 1, i - 1, rest); }
  }

  function Shifted(n: nat, i: nat): nat { if i == 0 then n else Shifted(n / 256, i - 1) }

  lemma {:induction false} ShiftedNext(n: nat, i: nat)
    ensures Shifted(n, i + 1) == Shifted(n, i) / 256
  {
    if i > 0 { ShiftedNext(n / 256, i - 1); }
  }

  function TwosComplement(n: int): int { if n < 0 then n + 0x1_0000_0000_0000_0000 else n }

  /** A 64-bit integer is the word 0 and its two's complement, least significant byte first. */
  lemma IntegerBytes(n: int)
    requires -0x8000_0000_0000_0000 <= n < 0x8000_0000_0000_0000
    ensures IntVal(n).Ext? && IntVal(n).tag == 0 && |IntVal(n).p| == 8
    ensures TwosComplement(n) == Word(IntVal(n).p[0], IntVal(n).p[1], IntVal(n).p[2], IntVal(n).p[3])
      + 0x1_0000_0000 * Word(IntVal(n).p[4], IntVal(n).p[5], IntVal(n).p[6], IntVal(n).p[7])
  {
    var u: nat := n % 0x1_0000_0000_0000_0000;
    assert TwosComplement(n) == u;
    assert IntVal(n).p == LittleEndian(u, 8);
    forall i | 0 <= i < 8 ensures Shifted(u, i) == 256 * Shifted(u, i + 1) + LittleEndian(u, 8)[i] as nat { DigitAt(u, i); }
    Horner(u, LittleEndian(u, 8));
  }

  lemma DigitAt(u: nat, i: nat)
    requires i < 8
    ensures Shifted(u, i) == 256 * Shifted(u, i + 1) + LittleEndian(u, 8)[i] as nat
  {
    ByteOf(u, 8, i, Shifted(u, i));
    ShiftedNext(u, i);
    Divide(Shifted(u, i), 0x100, Shifted(u, i) / 256, Shifted(u, i) % 256);
  }

  lemma Horner(u: nat, p: Bytes)
    requires |p| == 8 && u < 0x1_0000_0000_0000_0000
    requires forall i :: 0 <= i < 8 ==> Shifted(u, i) == 256 * Shifted(u, i + 1) + p[i] as nat
    ensures u == Word(p[0], p[1], p[2], p[3]) + 0x1_0000_0000 * Word(p[4], p[5], p[6], p[7])
  {
    assert Shifted(u, 0) == u;
    var one, two, three, four := Shifted(u, 1), Shifted(u, 2), Shifted(u, 3), Shifted(u, 4);
    var five, six, seven, eight := Shifted(u, 5), Shifted(u, 6), Shifted(u, 7), Shifted(u, 8);
    assert u == 256 * one + p[0] as nat && one == 256 * two + p[1] as nat && two == 256 * three + p[2] as nat && three == 256 * four + p[3] as nat;
    assert four == 256 * five + p[4] as nat && five == 256 * six + p[5] as nat && six == 256 * seven + p[6] as nat && seven == 256 * eight + p[7] as nat;
    assert eight == 0;
  }

  /** An extended value is padding to a word, its tag as a word, its payload, and for a time with time
      zone four bytes more. */
  lemma ExtendedBytes(tag: nat, p: Bytes, off: nat)
    requires Ok(Ext(tag, p), false)
    ensures Enc(Ext(tag, p), off) == ZeroBytes((4 - off % 4) % 4) + [tag, 0, 0, 0] + p + ZeroBytes(if tag == 6 then 4 else 0)
  {
    WordBytes(tag, 0, 0, 0);
    PadIs(off);
    assert Zeros(tag) == ZeroBytes(if tag == 6 then 4 else 0);
  }

  /** The stored length of an extended value counts its padding, except for tag 2, the timestamp. */
  lemma ExtendedLength(tag: nat, p: Bytes, off: nat)
    requires Ok(Ext(tag, p), false)
    ensures Meta(Ext(tag, p), off) == 0x6000_0000 + |Enc(Ext(tag, p), off)| - if tag == 2 then (4 - off % 4) % 4 else 0
  {
    PadIs(off);
  }

  function ZeroBytes(n: nat): Bytes { seq(n, _ => 0) }

  lemma PadIs(off: nat)
    ensures Pad(off) == ZeroBytes((4 - off % 4) % 4)
  {
    assert IntAlign(off) - off == (4 - off % 4) % 4;
  }

  /** The payload sizes of the twelve extended types. */
  lemma PayloadSizes(tag: nat, p: Bytes)
    requires Ok(Ext(tag, p), false)
    ensures tag == 0 || tag == 1 || tag == 2 || tag == 3 || tag == 5 || tag == 12 ==> |p| == 8
    ensures tag == 4 ==> |p| == 4
    ensures tag == 6 ==> |p| == 12
    ensures tag == 7 ==> |p| == 16
    ensures tag == 9 || tag == 10 ==> |p| == 22
    ensures tag == 11 ==> |p| == 6
    ensures tag <= 12 && tag != 8
  {
  }
}
