/**
 Properties of the emulator that relate several operations: round trips of
 the address register, of the memory commands and of instruction decoding;
 what one cycle changes; and the nibble invariant of the register file.
 */
module EmulatorProperties {
  import opened Bits
  import opened Nibbles
  import AluRom
  import opened Emulator

  // -----------------------------------------------------------------------
  // Construction

  /** An image of exactly the buffer's size is taken as is. */
  lemma LoadImageExact(bytes: seq<Byte>, size: nat)
    requires |bytes| == size
    ensures LoadImage(Some(bytes), size) == bytes
  {
  }

  /** Normalising an already normalised image changes nothing. */
  lemma LoadImageIdempotent(image: Option<seq<Byte>>, size: nat)
    ensures LoadImage(Some(LoadImage(image, size)), size) == LoadImage(image, size)
  {
  }

  // -----------------------------------------------------------------------
  // The address register

  /** The setter sees its argument only modulo 65536: this is what makes
      decrementing address 0 (the setter receives -1) give 65535, and
      incrementing 65535 (it receives 65536) give 0. */
  lemma SetAddressModulo(registers: seq<Byte>, address: int)
    requires |registers| == RegisterCount
    ensures SetAddress(registers, address) == SetAddress(registers, address % MemorySize)
  {
    SetAddressDigits(address);
  }

  /** The two wrap-arounds of the address register. */
  lemma AddressWraps(c: Cpu)
    requires Valid(c)
    ensures Address(c.registers) == 0xffff ==> Address(IncrementAddressCmd(c).registers) == 0
    ensures Address(c.registers) == 0 ==> Address(DecrementAddressCmd(c).registers) == 0xffff
  {
    DivModUnique(0x10000, MemorySize, 1, 0);
    DivModUnique(-1, MemorySize, -1, 0xffff);
  }

  // -----------------------------------------------------------------------
  // Memory commands

  /** Writing memory and reading it back restores the low nibbles of the two
      memory registers. */
  lemma WriteThenRead(c: Cpu, isRam: int -> bool)
    requires Valid(c) && isRam(Address(c.registers))
    ensures MemoryReadCmd(MemoryWriteCmd(c, isRam)).registers[RegMemLow] == c.registers[RegMemLow] % 16
    ensures MemoryReadCmd(MemoryWriteCmd(c, isRam)).registers[RegMemHigh] == c.registers[RegMemHigh] % 16
  {
    var w := MemoryWriteCmd(c, isRam);
    var byte := w.memory[Address(c.registers)];
    ByteJoinSplit(c.registers[RegMemLow], c.registers[RegMemHigh]);
    assert byte == ConstructAddress(c.registers[RegMemLow], c.registers[RegMemHigh]);
  }

  /** Under the default guard every address is RAM, so a memory-write
      cycle (byte 0x17) always stores the packed memory registers. */
  lemma DefaultGuardWrites(c: Cpu)
    requires Valid(c) && c.memory[c.pc] == 0x17
    ensures Step(c, IsRam).memory[Address(c.registers)]
            == c.registers[RegMemLow] % 16 + 16 * (c.registers[RegMemHigh] % 16)
    ensures Step(c, IsRam).registers == c.registers
  {
    var fetched := c.(pc := NextPc(c.pc));
    assert Decode(0x17) == Invoke(1);
    assert Step(c, IsRam) == MemoryWriteCmd(fetched, IsRam);
  }

  /** Reading memory and writing it back leaves memory as it was. */
  lemma ReadThenWrite(c: Cpu, isRam: int -> bool)
    requires Valid(c) && isRam(Address(c.registers))
    ensures MemoryWriteCmd(MemoryReadCmd(c), isRam).memory == c.memory
  {
    var address := Address(c.registers);
    ByteSplitJoin(c.memory[address]);
  }

  // -----------------------------------------------------------------------
  // Decoding

  /** Every byte is an instruction, and decoding loses nothing. */
  lemma EncodeDecode(b: Byte)
    ensures Encode(Decode(b)) == b
  {
    ByteSplitJoin(b);
  }

  lemma DecodeEncode(ins: Instruction)
    requires WellFormed(ins)
    ensures Decode(Encode(ins)) == ins
  {
    match ins
    case LoadImmediate(v) =>
      ByteJoinSplit(RegImmediate, v);
      DivModUnique(v, 16, 0, v);
    case Invoke(i) =>
      ByteJoinSplit(RegAluResult, i);
      DivModUnique(i, 16, 0, i);
    case Move(s, d) =>
      ByteJoinSplit(d, s);
      DivModUnique(s, 16, 0, s);
      DivModUnique(d, 16, 0, d);
  }

  // -----------------------------------------------------------------------
  // One cycle

  /** A load-immediate or a move: the program counter advances modulo
      65536, register dst = byte % 16 receives the source nibble itself
      (destination 0), the ALU ROM entry at the key of registers 4, 5 and 6
      (source 7) or register src = byte / 16; memory, the ALU ROM, the halt
      flag and the other fifteen registers are unchanged. */
  lemma StepDataMove(c: Cpu, isRam: int -> bool)
    requires Valid(c)
    requires c.memory[c.pc] % 16 != RegAluResult
    ensures
      var src, dst := c.memory[c.pc] / 16, c.memory[c.pc] % 16;
      var value :=
        if dst == RegImmediate then src
        else if src == RegAluResult then c.aluRom[AluKey(c.registers)]
        else c.registers[src];
      Step(c, isRam) == c.(pc := (c.pc + 1) % MemorySize, registers := c.registers[dst := value])
  {
    var byte := c.memory[c.pc];
    assert byte / 16 < 16;
    DivModUnique(byte / 16, 16, 0, byte / 16);
  }

  /** Where the program counter goes: to the address for jump and
      jump-and-link, to the address for a conditional jump exactly when the
      control register is 0, and to the next byte (modulo 65536) for every
      other instruction, halt included. */
  lemma StepPc(c: Cpu, isRam: int -> bool)
    requires Valid(c)
    ensures
      var ins := Decode(c.memory[c.pc]);
      var r := Step(c, isRam);
      && (ins == Invoke(4) || ins == Invoke(6) ==> r.pc == Address(c.registers))
      && (ins == Invoke(5) ==>
            r.pc == if c.registers[RegControl] == 0 then Address(c.registers) else (c.pc + 1) % MemorySize)
      && (!(ins.Invoke? && 4 <= ins.index <= 6) ==> r.pc == (c.pc + 1) % MemorySize)
  {
    var fetched := c.(pc := NextPc(c.pc));
    assert Step(c, isRam) == Execute(Decode(c.memory[c.pc]), fetched, isRam);
    match Decode(c.memory[c.pc])
    case LoadImmediate(v) =>
    case Move(src, dst) =>
    case Invoke(i) =>
      var r := RunCommand(Commands[i], fetched, isRam);
      assert Step(c, isRam) == r;
      if i == 4 {
        assert r == JumpCmd(fetched);
      } else if i == 5 {
        assert r == JumpIfCmd(fetched);
      } else if i == 6 {
        assert r == JumpAndLinkCmd(fetched);
      } else {
        assert Commands[i] !in {Jump, JumpIf, JumpAndLink};
      }
  }

  /** Jumps change nothing but the program counter. */
  lemma StepJumpFrame(c: Cpu, isRam: int -> bool)
    requires Valid(c)
    requires Decode(c.memory[c.pc]) in {Invoke(4), Invoke(5), Invoke(6)}
    ensures Step(c, isRam) == c.(pc := Step(c, isRam).pc)
  {
    var fetched := c.(pc := NextPc(c.pc));
    var i := Decode(c.memory[c.pc]).index;
    assert Step(c, isRam) == RunCommand(Commands[i], fetched, isRam);
  }

  /** A halt instruction marks the CPU halted, and a run stops right after it. */
  lemma StepHalt(c: Cpu, isRam: int -> bool, fuel: nat)
    requires Valid(c) && !c.halted
    requires Decode(c.memory[c.pc]) == Invoke(15)
    ensures Step(c, isRam).halted
    ensures Run(c, isRam, fuel + 1) == Step(c, isRam)
  {
    HaltedStays(Step(c, isRam), isRam, fuel);
  }

  /** A halted CPU runs no further cycles. */
  lemma HaltedStays(c: Cpu, isRam: int -> bool, fuel: nat)
    requires Valid(c) && c.halted
    ensures Run(c, isRam, fuel) == c
  {
  }

  /** With opcode 0 in register 6, moving the ALU result into a register
      stores the low nibble of A + B (so A = 3, B = 4 gives 7). */
  lemma StepAluAdd(c: Cpu, isRam: int -> bool)
    requires Valid(c) && AluRom.IsAluRom(c.aluRom)
    requires IsNibble(c.registers[RegAluA]) && IsNibble(c.registers[RegAluB])
    requires c.registers[RegAluOp] == 0
    requires c.memory[c.pc] / 16 == RegAluResult
    requires c.memory[c.pc] % 16 != RegImmediate && c.memory[c.pc] % 16 != RegAluResult
    ensures Step(c, isRam).registers[c.memory[c.pc] % 16]
            == (c.registers[RegAluA] as int + c.registers[RegAluB] as int) % 16
  {
    var a, b := c.registers[RegAluA] as int, c.registers[RegAluB] as int;
    StepDataMove(c, isRam);
    AluRom.AddEntries(c.aluRom, a, b);
    PackNibbles(a, b, 0, 0);
  }

  // -----------------------------------------------------------------------
  // The nibble invariant

  /** Registers are stored without masking, so they stay nibbles only
      because the ALU ROM does (the contracts of Step and Run). A CPU built
      with the generated ALU ROM keeps nibbles in every register for as
      long as it runs, whatever the program. */
  lemma GeneratedRomKeepsNibbles(rom: seq<Byte>, program: Option<seq<Byte>>,
                                 isRam: int -> bool, fuel: nat)
    requires AluRom.IsAluRom(rom)
    ensures AllNibbles(Run(New(Some(rom), program), isRam, fuel).registers)
  {
    var c := New(Some(rom), program);
    LoadImageExact(rom, AluRom.AluRomSize);
    AluRom.EntriesAreNibbles(rom);
  }
}
