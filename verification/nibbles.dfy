/**
 The nibble helpers shared by the emulator and the ALU-ROM builder
 (`get_low`, `get_high` and `construct_address`; both programs carry the
 same three definitions), written with the Python operators of module Bits
 and proved equal to their closed forms in `%` and `/`.
 */
module Nibbles {
  import opened Bits

  /** A byte, the element type of a Python bytearray. */
  type Byte = x: int | 0 <= x < 0x100

  predicate IsNibble(x: int) {
    0 <= x < 0x10
  }

  /** get_low: `byte & 0x0f`, the low four bits. */
  function GetLow(byte: int): (r: int)
    ensures r == byte % 16
  {
    LowMask(byte, 4);
    BitAnd(byte, 0x0f)
  }

  /** get_high: `(byte & 0xf0) >> 4`, bits 4 to 7. */
  function GetHigh(byte: int): (r: int)
    ensures r == (byte / 16) % 16
  {
    HighMask(byte);
    ShiftRight(BitAnd(byte, 0xf0), 4)
  }

  lemma HighMask(x: int)
    ensures BitAnd(x, 0xf0) == 16 * ((x / 16) % 16)
  {
    AndEvenMask(x, 0x78);
    AndEvenMask(x / 2, 0x3c);
    AndEvenMask(x / 2 / 2, 0x1e);
    AndEvenMask(x / 2 / 2 / 2, 0x0f);
    Pow2Step(x, 4);
    Pow2Step(x / 2, 3);
    Pow2Step(x / 2 / 2, 2);
    Pow2Step(x / 2 / 2 / 2, 1);
    LowMask(x / 16, 4);
  }

  /** construct_address: the low nibbles of a, b, c and d packed, low to high,
      into one 16-bit value `a | b << 4 | c << 8 | d << 12`. Omitted
      arguments are 0, as in emulator.py's `construct_address`. */
  function ConstructAddress(a: int := 0, b: int := 0, c: int := 0, d: int := 0): (r: int)
    ensures r == a % 16 + 16 * (b % 16) + 256 * (c % 16) + 4096 * (d % 16)
    ensures 0 <= r < 0x10000
  {
    assert Pow2(4) == 16 && Pow2(8) == 256 && Pow2(12) == 4096;
    var ab := BitOr(GetLow(a), ShiftLeft(GetLow(b), 4));
    OrDisjoint(GetLow(a), GetLow(b), 4);
    var abc := BitOr(ab, ShiftLeft(GetLow(c), 8));
    OrDisjoint(ab, GetLow(c), 8);
    OrDisjoint(abc, GetLow(d), 12);
    BitOr(abc, ShiftLeft(GetLow(d), 12))
  }

  /** On nibbles, construct_address is the base-16 number with those digits. */
  lemma PackNibbles(a: int, b: int, c: int, d: int)
    requires IsNibble(a) && IsNibble(b) && IsNibble(c) && IsNibble(d)
    ensures ConstructAddress(a, b, c, d) == a + 16 * b + 256 * c + 4096 * d
  {
    DivModUnique(a, 16, 0, a);
    DivModUnique(b, 16, 0, b);
    DivModUnique(c, 16, 0, c);
    DivModUnique(d, 16, 0, d);
  }

  lemma Pow2Values()
    ensures Pow2(0) == 1 && Pow2(4) == 16 && Pow2(8) == 256 && Pow2(12) == 4096
    ensures Pow2(16) == 0x10000
  {
    assert Pow2(12) == 4096;
  }

  /** A byte is its low nibble plus sixteen times its high nibble. */
  lemma SplitByte(byte: int)
    requires 0 <= byte < 0x100
    ensures GetLow(byte) + 16 * GetHigh(byte) == byte
  {
    DivModUnique(byte / 16, 16, 0, byte / 16);
  }

  /** Splitting a byte into its nibbles and packing them again gives the
      byte back (a memory read followed by a memory write keeps the cell). */
  lemma ByteSplitJoin(byte: Byte)
    ensures ConstructAddress(GetLow(byte), GetHigh(byte)) == byte
  {
    SplitByte(byte);
    PackNibbles(GetLow(byte), GetHigh(byte), 0, 0);
  }

  /** Packing two nibbles into a byte and splitting it again gives the
      nibbles back, reduced modulo 16 (a memory write followed by a memory
      read restores the low nibbles of the two memory registers). */
  lemma ByteJoinSplit(lo: int, hi: int)
    ensures 0 <= ConstructAddress(lo, hi) < 0x100
    ensures GetLow(ConstructAddress(lo, hi)) == lo % 16
    ensures GetHigh(ConstructAddress(lo, hi)) == hi % 16
  {
    var l, h := lo % 16, hi % 16;
    assert ConstructAddress(lo, hi) == l + 16 * h;
    NibblesOf(l, h);
  }

  /** The nibbles of the byte with digits l and h. */
  lemma NibblesOf(l: int, h: int)
    requires IsNibble(l) && IsNibble(h)
    ensures GetLow(l + 16 * h) == l && GetHigh(l + 16 * h) == h
  {
    DivModUnique(l + 16 * h, 16, h, l);
    DivModUnique(h, 16, 0, h);
  }

  /** A value's base-16 digits at positions 0, 1 and 2 and the rest above. */
  lemma Digits(v: int)
    ensures v == v % 16 + 16 * ((v / 16) % 16) + 256 * (v / 256)
  {
    DivDiv(v, 16, 16);
  }

  /** Digits 2 and 3 of a 16-bit value. */
  lemma HighDigits(v: int)
    requires 0 <= v < 0x10000
    ensures v / 256 == (v / 256) % 16 + 16 * ((v / 4096) % 16)
  {
    DivDiv(v, 256, 16);
    assert 0 <= v / 4096 < 16;
    DivModUnique(v / 4096, 16, 0, v / 4096);
  }

  /** Every 16-bit value is the packing of its four nibbles. */
  lemma WordSplitJoin(v: int)
    requires 0 <= v < 0x10000
    ensures ConstructAddress(GetLow(ShiftRight(v, 0)), GetLow(ShiftRight(v, 4)),
                             GetLow(ShiftRight(v, 8)), GetLow(ShiftRight(v, 12))) == v
  {
    Pow2Values();
    var n0, n1, n2, n3 := v % 16, (v / 16) % 16, (v / 256) % 16, (v / 4096) % 16;
    assert GetLow(ShiftRight(v, 0)) == n0;
    assert GetLow(ShiftRight(v, 4)) == n1;
    assert GetLow(ShiftRight(v, 8)) == n2;
    assert GetLow(ShiftRight(v, 12)) == n3;
    PackNibbles(n0, n1, n2, n3);
    Digits(v);
    HighDigits(v);
  }

  /** The ALU key packs (A, B, op): on nibble triples it is a bijection onto
      0..4095, with inverse (key % 16, (key / 16) % 16, key / 256). */
  lemma KeyDecode(a: int, b: int, op: int)
    requires IsNibble(a) && IsNibble(b) && IsNibble(op)
    ensures 0 <= ConstructAddress(a, b, op) < 0x1000
    ensures ConstructAddress(a, b, op) % 16 == a
    ensures (ConstructAddress(a, b, op) / 16) % 16 == b
    ensures ConstructAddress(a, b, op) / 256 == op
  {
    var key := a + 16 * b + 256 * op;
    PackNibbles(a, b, op, 0);
    DivModUnique(key, 16, b + 16 * op, a);
    DivModUnique(b + 16 * op, 16, op, b);
    DivModUnique(key, 256, op, a + 16 * b);
  }

  lemma KeyEncode(key: int)
    requires 0 <= key < 0x1000
    ensures IsNibble(key % 16) && IsNibble((key / 16) % 16) && IsNibble(key / 256)
    ensures ConstructAddress(key % 16, (key / 16) % 16, key / 256) == key
  {
    Digits(key);
    PackNibbles(key % 16, (key / 16) % 16, key / 256, 0);
  }

  lemma KeyInjective(a: int, b: int, op: int, a': int, b': int, op': int)
    requires IsNibble(a) && IsNibble(b) && IsNibble(op)
    requires IsNibble(a') && IsNibble(b') && IsNibble(op')
    requires ConstructAddress(a, b, op) == ConstructAddress(a', b', op')
    ensures a == a' && b == b' && op == op'
  {
    KeyDecode(a, b, op);
    KeyDecode(a', b', op');
  }
}
