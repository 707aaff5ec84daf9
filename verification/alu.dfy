/**
 The ALU-ROM builder: a 4096-entry table giving, for operands A and B and
 opcode op (all nibbles), the result of ALU operation op at key
 `A | B << 4 | op << 8`. Opcode 15 uses B to select one of 16 unary
 operations applied to A.
 */
module AluRom {
  import opened Bits
  import opened Nibbles

  const AluRomSize := 0x1000

  /** alu_unary_ops[u](a). */
  function UnaryOp(u: int, a: int): (r: int)
    requires IsNibble(u) && IsNibble(a)
    ensures IsNibble(r)
  {
    if u == 0 then (if a != 0 then 0 else 1)
    // get_low(~a): Python's ~a is -a - 1
    else if u == 1 then GetLow(-a - 1)
    else 0
  }

  /** alu_ops[op](a, b). */
  function BinaryOp(op: int, a: int, b: int): (r: int)
    requires IsNibble(op) && IsNibble(a) && IsNibble(b)
    ensures IsNibble(r)
  {
    BitwiseBound(a, b, 4);
    Pow2Values();
    if op == 0 then GetLow(a + b)
    else if op == 1 then GetHigh(a + b)
    else if op == 2 then GetLow(a * b)
    else if op == 3 then GetHigh(a * b)
    else if op == 4 then BitAnd(a, b)
    else if op == 5 then BitOr(a, b)
    else if op == 6 then BitXor(a, b)
    else if op == 15 then UnaryOp(b, a)
    else 0
  }

  /** The table the builder produces: 4096 bytes, and at the key of every
      nibble triple (A, B, op) the value alu_ops[op](A, B). */
  ghost predicate IsAluRom(rom: seq<Byte>) {
    && |rom| == AluRomSize
    && forall a, b, op | IsNibble(a) && IsNibble(b) && IsNibble(op) ::
         KeyDecode(a, b, op);
         rom[ConstructAddress(a, b, op)] == BinaryOp(op, a, b)
  }

  /** The entry at a key, read through the key's three nibbles. */
  function Entry(key: int): (r: Byte)
    requires 0 <= key < AluRomSize
  {
    KeyEncode(key);
    BinaryOp(key / 256, key % 16, (key / 16) % 16)
  }

  /** The builder's three nested loops over op, B and A, filling a zeroed
      4096-byte buffer at `construct_address(A, B, op)`. The loops visit the
      keys in increasing order, which is what the invariants record. */
  method BuildAluRom() returns (rom: seq<Byte>)
    ensures IsAluRom(rom)
  {
    rom := seq(AluRomSize, _ => 0);
    for op := 0 to 16
      invariant |rom| == AluRomSize
      invariant forall k | 0 <= k < AluRomSize :: rom[k] == if k < 256 * op then Entry(k) else 0
    {
      for b := 0 to 16
        invariant |rom| == AluRomSize
        invariant forall k | 0 <= k < AluRomSize ::
          rom[k] == if k < 256 * op + 16 * b then Entry(k) else 0
      {
        for a := 0 to 16
          invariant |rom| == AluRomSize
          invariant forall k | 0 <= k < AluRomSize ::
            rom[k] == if k < 256 * op + 16 * b + a then Entry(k) else 0
        {
          KeyDecode(a, b, op);
          PackNibbles(a, b, op, 0);
          rom := rom[ConstructAddress(a, b, op) := BinaryOp(op, a, b)];
        }
      }
    }
    forall a, b, op | IsNibble(a) && IsNibble(b) && IsNibble(op)
      ensures rom[ConstructAddress(a, b, op)] == BinaryOp(op, a, b)
    {
      KeyDecode(a, b, op);
    }
  }

  // -----------------------------------------------------------------------
  // What the table holds

  /** Every one of the 4096 entries is a nibble. */
  lemma EntriesAreNibbles(rom: seq<Byte>)
    requires IsAluRom(rom)
    ensures forall k | 0 <= k < |rom| :: IsNibble(rom[k])
  {
    forall k | 0 <= k < |rom|
      ensures IsNibble(rom[k])
    {
      KeyEncode(k);
    }
  }

  /** The loop defines every key exactly once: two tables with the builder's
      contents are the same table. */
  lemma Unique(rom1: seq<Byte>, rom2: seq<Byte>)
    requires IsAluRom(rom1) && IsAluRom(rom2)
    ensures rom1 == rom2
  {
    forall k | 0 <= k < AluRomSize
      ensures rom1[k] == rom2[k]
    {
      KeyEncode(k);
    }
  }

  /** Reading the table at the key of a nibble triple. */
  lemma Lookup(rom: seq<Byte>, a: int, b: int, op: int)
    requires IsAluRom(rom) && IsNibble(a) && IsNibble(b) && IsNibble(op)
    ensures 0 <= ConstructAddress(a, b, op) < |rom|
    ensures rom[ConstructAddress(a, b, op)] == BinaryOp(op, a, b)
  {
    KeyDecode(a, b, op);
  }

  /** Ops 0 and 1 are the low nibble and the carry of the sum. */
  lemma AddEntries(rom: seq<Byte>, a: int, b: int)
    requires IsAluRom(rom) && IsNibble(a) && IsNibble(b)
    ensures rom[ConstructAddress(a, b, 0)] == (a + b) % 16
    ensures rom[ConstructAddress(a, b, 1)] == if a + b >= 16 then 1 else 0
    ensures 16 * rom[ConstructAddress(a, b, 1)] + rom[ConstructAddress(a, b, 0)] == a + b
  {
    Lookup(rom, a, b, 0);
    Lookup(rom, a, b, 1);
    AddOps(a, b);
  }

  lemma AddOps(a: int, b: int)
    requires IsNibble(a) && IsNibble(b)
    ensures BinaryOp(1, a, b) == if a + b >= 16 then 1 else 0
    ensures 16 * BinaryOp(1, a, b) + BinaryOp(0, a, b) == a + b
  {
    SplitByte(a + b);
    DivModUnique(a + b, 16, if a + b >= 16 then 1 else 0, if a + b >= 16 then a + b - 16 else a + b);
  }

  /** Ops 2 and 3 are the low and high nibbles of the product. */
  lemma MulEntries(rom: seq<Byte>, a: int, b: int)
    requires IsAluRom(rom) && IsNibble(a) && IsNibble(b)
    ensures rom[ConstructAddress(a, b, 2)] == (a * b) % 16
    ensures 16 * rom[ConstructAddress(a, b, 3)] + rom[ConstructAddress(a, b, 2)] == a * b
  {
    Lookup(rom, a, b, 2);
    Lookup(rom, a, b, 3);
    MulOps(a, b);
  }

  lemma MulOps(a: int, b: int)
    requires IsNibble(a) && IsNibble(b)
    ensures 16 * BinaryOp(3, a, b) + BinaryOp(2, a, b) == a * b
  {
    MulMonotone(a, b, 15);
    MulMonotone(15, a, 15);
    SplitByte(a * b);
  }

  /** Ops 4, 5 and 6 are bitwise AND, OR and XOR: bit i of the entry is the
      conjunction, disjunction or difference of bit i of A and B. */
  lemma LogicEntries(rom: seq<Byte>, a: int, b: int, i: nat)
    requires IsAluRom(rom) && IsNibble(a) && IsNibble(b)
    ensures Bit(rom[ConstructAddress(a, b, 4)], i) <==> Bit(a, i) && Bit(b, i)
    ensures Bit(rom[ConstructAddress(a, b, 5)], i) <==> Bit(a, i) || Bit(b, i)
    ensures Bit(rom[ConstructAddress(a, b, 6)], i) <==> Bit(a, i) != Bit(b, i)
    ensures rom[ConstructAddress(a, b, 5)] + rom[ConstructAddress(a, b, 4)] == a + b
    ensures rom[ConstructAddress(a, b, 6)] + 2 * rom[ConstructAddress(a, b, 4)] == a + b
  {
    KeyDecode(a, b, 4);
    KeyDecode(a, b, 5);
    KeyDecode(a, b, 6);
    AndBits(a, b, i);
    OrBits(a, b, i);
    XorBits(a, b, i);
    OrPlusAnd(a, b);
    XorPlusAnd(a, b);
  }

  /** Ops 7 to 14 are reserved and give 0. */
  lemma ReservedEntries(rom: seq<Byte>, a: int, b: int, op: int)
    requires IsAluRom(rom) && IsNibble(a) && IsNibble(b)
    requires 7 <= op <= 14
    ensures rom[ConstructAddress(a, b, op)] == 0
  {
    KeyDecode(a, b, op);
  }

  /** Op 15 applies the unary operation selected by B to A: logical NOT for
      B = 0, the nibble complement for B = 1, and 0 for the reserved rest. */
  lemma UnaryEntries(rom: seq<Byte>, a: int, b: int)
    requires IsAluRom(rom) && IsNibble(a) && IsNibble(b)
    ensures b == 0 ==> rom[ConstructAddress(a, b, 15)] == if a == 0 then 1 else 0
    ensures b == 1 ==> rom[ConstructAddress(a, b, 15)] == 15 - a
    ensures b >= 2 ==> rom[ConstructAddress(a, b, 15)] == 0
  {
    KeyDecode(a, b, 15);
    DivModUnique(-a - 1, 16, -1, 15 - a);
  }
}
