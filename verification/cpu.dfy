/**
 The CPU of the emulator: sixteen byte-sized registers, 64 KiB of memory, a
 program counter and the 4096-byte ALU ROM. Every instruction is one byte
 whose high nibble names a source and whose low nibble names a destination.
 Moving into register 0 loads the source nibble itself, moving into register
 7 runs the command numbered by the source, and any other move copies a
 register, where reading register 7 looks up the ALU ROM.
 */
module Emulator {
  import opened Bits
  import opened Nibbles
  import AluRom

  const RegImmediate := 0x0
  const RegControl   := 0x1
  const RegMemLow    := 0x2
  const RegMemHigh   := 0x3
  const RegAluA      := 0x4
  const RegAluB      := 0x5
  const RegAluOp     := 0x6
  const RegAluResult := 0x7
  const RegAddress0  := 0x8
  const RegAddress1  := 0x9
  const RegAddress2  := 0xA
  const RegAddress3  := 0xB

  const RegisterCount := 0x10
  const MemorySize := 0x10000

  datatype Option<T> = None | Some(value: T)

  /** The state of a CPU instance. `halted` records that the halt command
      has ended the run. */
  datatype Cpu = Cpu(pc: int, registers: seq<Byte>, memory: seq<Byte>, aluRom: seq<Byte>, halted: bool)

  /** The shape every CPU instance keeps from construction on. */
  predicate Valid(c: Cpu) {
    && 0 <= c.pc < MemorySize
    && |c.registers| == RegisterCount
    && |c.memory| == MemorySize
    && |c.aluRom| == AluRom.AluRomSize
  }

  predicate AllNibbles(s: seq<Byte>) {
    forall i | 0 <= i < |s| :: IsNibble(s[i])
  }

  /** CPU.is_ram, the write guard of the memory-write command: every address
      is writable. Step and Run take the guard as a parameter, so that a
      variant with read-only regions is the same model with another guard. */
  function IsRam(address: int): (r: bool)
    ensures r
  {
    true
  }

  // -----------------------------------------------------------------------
  // Construction

  /** How the constructor turns an optional image into a buffer of `size`
      bytes: no image gives zeros; an image is truncated to `size` bytes and
      padded with zeros up to `size`. */
  function LoadImage(image: Option<seq<Byte>>, size: nat): (r: seq<Byte>)
    ensures |r| == size
    ensures forall i | 0 <= i < size ::
      r[i] == if image.Some? && i < |image.value| then image.value[i] else 0
  {
    match image
    case None => seq(size, _ => 0)
    case Some(bytes) =>
      var kept := if |bytes| <= size then bytes else bytes[..size];
      kept + seq(size - |kept|, _ => 0)
  }

  /** CPU(alu_rom, rom): a 4096-byte ALU ROM and 65536 bytes of memory from
      the two images, and zeroed registers and program counter. */
  function New(aluImage: Option<seq<Byte>>, program: Option<seq<Byte>>): (c: Cpu)
    ensures Valid(c) && c.pc == 0 && !c.halted
    ensures forall i | 0 <= i < RegisterCount :: c.registers[i] == 0
    ensures forall i | 0 <= i < MemorySize ::
      c.memory[i] == if program.Some? && i < |program.value| then program.value[i] else 0
    ensures forall i | 0 <= i < AluRom.AluRomSize ::
      c.aluRom[i] == if aluImage.Some? && i < |aluImage.value| then aluImage.value[i] else 0
  {
    Cpu(0, seq(RegisterCount, _ => 0), LoadImage(program, MemorySize),
        LoadImage(aluImage, AluRom.AluRomSize), false)
  }

  // -----------------------------------------------------------------------
  // The address register

  /** The `address` getter: the low nibbles of registers 8 (lowest) to 11
      (highest) as one 16-bit value. */
  function Address(registers: seq<Byte>): (r: int)
    requires |registers| == RegisterCount
    ensures 0 <= r < MemorySize
    ensures r == registers[RegAddress0] as int % 16 + 16 * (registers[RegAddress1] as int % 16)
                 + 256 * (registers[RegAddress2] as int % 16) + 4096 * (registers[RegAddress3] as int % 16)
  {
    ConstructAddress(registers[RegAddress0], registers[RegAddress1],
                     registers[RegAddress2], registers[RegAddress3])
  }

  /** The `address` setter: nibble i of the value, `(address >> 4i) & 0xf`,
      into register 8 + i. Any integer is accepted; the setter keeps it
      modulo 65536, so reading the address back gives exactly the value
      written whenever that value is in 0..65535. */
  function SetAddress(registers: seq<Byte>, address: int): (r: seq<Byte>)
    requires |registers| == RegisterCount
    ensures |r| == RegisterCount
    ensures forall i | 0 <= i < RegisterCount && !(RegAddress0 <= i <= RegAddress3) ::
      r[i] == registers[i]
    ensures forall i | RegAddress0 <= i <= RegAddress3 :: IsNibble(r[i])
    ensures Address(r) == address % MemorySize
  {
    var n0 := GetLow(ShiftRight(address, 0));
    var n1 := GetLow(ShiftRight(address, 4));
    var n2 := GetLow(ShiftRight(address, 8));
    var n3 := GetLow(ShiftRight(address, 12));
    SetAddressDigits(address);
    registers[RegAddress0 := n0][RegAddress1 := n1][RegAddress2 := n2][RegAddress3 := n3]
  }

  /** The four nibbles the setter stores depend only on the value modulo
      65536, and pack back into it. */
  lemma SetAddressDigits(address: int)
    ensures GetLow(ShiftRight(address, 0)) == GetLow(ShiftRight(address % MemorySize, 0))
    ensures GetLow(ShiftRight(address, 4)) == GetLow(ShiftRight(address % MemorySize, 4))
    ensures GetLow(ShiftRight(address, 8)) == GetLow(ShiftRight(address % MemorySize, 8))
    ensures GetLow(ShiftRight(address, 12)) == GetLow(ShiftRight(address % MemorySize, 12))
    ensures ConstructAddress(GetLow(ShiftRight(address, 0)), GetLow(ShiftRight(address, 4)),
                             GetLow(ShiftRight(address, 8)), GetLow(ShiftRight(address, 12)))
            == address % MemorySize
  {
    Pow2Values();
    DigitOfModulo(address, 1, 0x10000);
    DigitOfModulo(address, 16, 0x1000);
    DigitOfModulo(address, 256, 0x100);
    DigitOfModulo(address, 4096, 0x10);
    WordSplitJoin(address % MemorySize);
  }

  /** For p dividing 65536 with room for one more digit, digit (v / p) % 16
      is the same for v and for v modulo 65536. */
  lemma DigitOfModulo(v: int, p: int, m: int)
    requires p > 0 && m > 0 && p * m == 0x10000 && m % 16 == 0
    ensures (v / p) % 16 == ((v % 0x10000) / p) % 16
  {
    var q, w := v / 0x10000, v % 0x10000;
    MulDistributes(p, m, q, w / p);
    DivModUnique(v, p, m * q + w / p, w % p);
    var m' := m / 16;
    MulDistributes(16, m', q, 0);
    DivModUnique(m * q + w / p, 16, m' * q + (w / p) / 16, (w / p) % 16);
  }

  // -----------------------------------------------------------------------
  // Commands

  /** The side effects selected by the source nibble of a move into
      register 7. */
  datatype Command =
    | MemoryRead | MemoryWrite | IncrementAddress | DecrementAddress
    | Jump | JumpIf | JumpAndLink | Noop | Break | Halt

  /** The `commands` table, indexed by the source nibble. */
  const Commands: seq<Command> := [
    MemoryRead, MemoryWrite, IncrementAddress, DecrementAddress,
    Jump, JumpIf, JumpAndLink, Noop,
    Noop, Noop, Noop, Noop,
    Noop, Noop, Break, Halt
  ]

  /** cmd_memory_read: the byte at the address, split into its low nibble
      (register 2) and high nibble (register 3). */
  function MemoryReadCmd(c: Cpu): (r: Cpu)
    requires Valid(c)
    ensures Valid(r)
    ensures r == c.(registers := r.registers)
    ensures forall i | 0 <= i < RegisterCount && i != RegMemLow && i != RegMemHigh ::
      r.registers[i] == c.registers[i]
    ensures r.registers[RegMemLow] as int + 16 * r.registers[RegMemHigh] as int
            == c.memory[Address(c.registers)]
    ensures IsNibble(r.registers[RegMemLow]) && IsNibble(r.registers[RegMemHigh])
  {
    var byte := c.memory[Address(c.registers)];
    SplitByte(byte);
    c.(registers := c.registers[RegMemLow := GetLow(byte)][RegMemHigh := GetHigh(byte)])
  }

  /** cmd_memory_write: unless the guard refuses the address, the byte
      packed from the low nibbles of registers 2 (low) and 3 (high) is
      stored at the address; nothing else changes. */
  function MemoryWriteCmd(c: Cpu, isRam: int -> bool): (r: Cpu)
    requires Valid(c)
    ensures Valid(r)
    ensures r == c.(memory := r.memory)
    ensures !isRam(Address(c.registers)) ==> r == c
    ensures forall j | 0 <= j < MemorySize && j != Address(c.registers) :: r.memory[j] == c.memory[j]
    ensures isRam(Address(c.registers)) ==>
      r.memory[Address(c.registers)]
        == c.registers[RegMemLow] % 16 + 16 * (c.registers[RegMemHigh] % 16)
  {
    var address := Address(c.registers);
    if !isRam(address) then c
    else
      ByteJoinSplit(c.registers[RegMemLow], c.registers[RegMemHigh]);
      var byte := ConstructAddress(c.registers[RegMemLow], c.registers[RegMemHigh]);
      c.(memory := c.memory[address := byte])
  }

  /** cmd_increment_address: address + 1, wrapping from 65535 to 0. */
  function IncrementAddressCmd(c: Cpu): (r: Cpu)
    requires Valid(c)
    ensures Valid(r)
    ensures r == c.(registers := r.registers)
    ensures Address(r.registers) == (Address(c.registers) + 1) % MemorySize
    ensures forall i | 0 <= i < RegisterCount && !(RegAddress0 <= i <= RegAddress3) ::
      r.registers[i] == c.registers[i]
    ensures forall i | RegAddress0 <= i <= RegAddress3 :: IsNibble(r.registers[i])
  {
    c.(registers := SetAddress(c.registers, Address(c.registers) + 1))
  }

  /** cmd_decrement_address: address - 1, wrapping from 0 to 65535 (the
      setter receives -1 and masks it). */
  function DecrementAddressCmd(c: Cpu): (r: Cpu)
    requires Valid(c)
    ensures Valid(r)
    ensures r == c.(registers := r.registers)
    ensures Address(r.registers) == (Address(c.registers) - 1) % MemorySize
    ensures forall i | 0 <= i < RegisterCount && !(RegAddress0 <= i <= RegAddress3) ::
      r.registers[i] == c.registers[i]
    ensures forall i | RegAddress0 <= i <= RegAddress3 :: IsNibble(r.registers[i])
  {
    c.(registers := SetAddress(c.registers, Address(c.registers) - 1))
  }

  /** cmd_jmp: pc := address. */
  function JumpCmd(c: Cpu): (r: Cpu)
    requires Valid(c)
    ensures Valid(r)
    ensures r == c.(pc := Address(c.registers))
  {
    c.(pc := Address(c.registers))
  }

  /** cmd_jmpif: jump exactly when the control register is zero. */
  function JumpIfCmd(c: Cpu): (r: Cpu)
    requires Valid(c)
    ensures Valid(r)
    ensures c.registers[RegControl] == 0 ==> r == c.(pc := Address(c.registers))
    ensures c.registers[RegControl] != 0 ==> r == c
  {
    if c.registers[RegControl] == 0 then JumpCmd(c) else c
  }

  /** cmd_jal. emulator.py assigns the old pc to a misspelled attribute
      (`self.addres`) that nothing reads, so the only observable effect is
      the jump: pc := address, with every register left as it was. */
  function JumpAndLinkCmd(c: Cpu): (r: Cpu)
    requires Valid(c)
    ensures Valid(r)
    ensures r == c.(pc := Address(c.registers))
  {
    c.(pc := Address(c.registers))
  }

  /** Runs one command on a CPU whose pc has already been advanced. The
      diagnostics of break and halt are output and not modelled: break
      changes nothing and halt marks the CPU halted. */
  function RunCommand(cmd: Command, c: Cpu, isRam: int -> bool): (r: Cpu)
    requires Valid(c)
    ensures Valid(r)
    ensures r.aluRom == c.aluRom
    ensures r.halted <==> c.halted || cmd == Halt
    ensures cmd == Noop || cmd == Break ==> r == c
    ensures AllNibbles(c.registers) ==> AllNibbles(r.registers)
  {
    match cmd
    case MemoryRead => MemoryReadCmd(c)
    case MemoryWrite => MemoryWriteCmd(c, isRam)
    case IncrementAddress => IncrementAddressCmd(c)
    case DecrementAddress => DecrementAddressCmd(c)
    case Jump => JumpCmd(c)
    case JumpIf => JumpIfCmd(c)
    case JumpAndLink => JumpAndLinkCmd(c)
    case Noop => c
    case Break => c
    case Halt => c.(halted := true)
  }

  // -----------------------------------------------------------------------
  // Decoding

  /** The three cases of an instruction byte. */
  datatype Instruction =
    | LoadImmediate(value: int)
    | Invoke(index: int)
    | Move(src: int, dst: int)

  predicate WellFormed(ins: Instruction) {
    match ins
    case LoadImmediate(v) => IsNibble(v)
    case Invoke(i) => IsNibble(i)
    case Move(s, d) => IsNibble(s) && IsNibble(d) && d != RegImmediate && d != RegAluResult
  }

  /** Decode: source = high nibble, destination = low nibble; destination 0
      is a load-immediate, destination 7 a command, anything else a move. */
  function Decode(instruction: Byte): (ins: Instruction)
    ensures WellFormed(ins)
    ensures instruction % 16 == RegImmediate ==> ins == LoadImmediate(instruction / 16)
    ensures instruction % 16 == RegAluResult ==> ins == Invoke(instruction / 16)
    ensures instruction % 16 != RegImmediate && instruction % 16 != RegAluResult ==>
      ins == Move(instruction / 16, instruction % 16)
  {
    DivModUnique(instruction / 16, 16, 0, instruction / 16);
    var src := GetHigh(instruction);
    var dst := GetLow(instruction);
    if dst == RegImmediate then LoadImmediate(src)
    else if dst == RegAluResult then Invoke(src)
    else Move(src, dst)
  }

  /** The byte of an instruction: `src << 4 | dst`. */
  function Encode(ins: Instruction): (b: Byte)
    requires WellFormed(ins)
  {
    match ins
    case LoadImmediate(v) => ByteJoinSplit(RegImmediate, v); ConstructAddress(RegImmediate, v)
    case Invoke(i) => ByteJoinSplit(RegAluResult, i); ConstructAddress(RegAluResult, i)
    case Move(s, d) => ByteJoinSplit(d, s); ConstructAddress(d, s)
  }

  // -----------------------------------------------------------------------
  // The cycle

  /** The fetch stage's advance: pc moves on by one, modulo 65536. */
  function NextPc(pc: int): (r: int)
    ensures r == (pc + 1) % MemorySize
  {
    LowMask(pc + 1, 16);
    Pow2Values();
    BitAnd(pc + 1, 0xffff)
  }

  /** The ALU ROM key of the current operands: `A | B << 4 | OP << 8`. */
  function AluKey(registers: seq<Byte>): (k: int)
    requires |registers| == RegisterCount
    ensures 0 <= k < AluRom.AluRomSize
    ensures k == registers[RegAluA] as int % 16 + 16 * (registers[RegAluB] as int % 16)
                 + 256 * (registers[RegAluOp] as int % 16)
  {
    ConstructAddress(registers[RegAluA], registers[RegAluB], registers[RegAluOp])
  }

  /** The value a move reads from register src: register 7 stores nothing;
      reading it looks up the ALU ROM at the current key. */
  function ReadSource(c: Cpu, src: int): (r: Byte)
    requires Valid(c) && IsNibble(src)
    ensures src != RegAluResult ==> r == c.registers[src]
    ensures src == RegAluResult ==>
      r == c.aluRom[c.registers[RegAluA] as int % 16 + 16 * (c.registers[RegAluB] as int % 16)
                    + 256 * (c.registers[RegAluOp] as int % 16)]
    ensures AllNibbles(c.registers) && AllNibbles(c.aluRom) ==> IsNibble(r)
  {
    if src == RegAluResult then c.aluRom[AluKey(c.registers)] else c.registers[src]
  }

  /** The execute stage, on a CPU whose pc has already been advanced. The
      value a move stores is not masked: a register holds whatever byte the
      ALU ROM supplies. */
  function Execute(ins: Instruction, c: Cpu, isRam: int -> bool): (r: Cpu)
    requires Valid(c) && WellFormed(ins)
    ensures Valid(r)
    ensures r.aluRom == c.aluRom
    ensures AllNibbles(c.registers) && AllNibbles(c.aluRom) ==> AllNibbles(r.registers)
  {
    match ins
    case LoadImmediate(v) => c.(registers := c.registers[RegImmediate := v])
    case Invoke(i) => RunCommand(Commands[i], c, isRam)
    case Move(src, dst) => c.(registers := c.registers[dst := ReadSource(c, src)])
  }

  /** CPU.cycle: fetch the byte at pc, advance pc modulo 65536, decode and
      execute. */
  function Step(c: Cpu, isRam: int -> bool): (r: Cpu)
    requires Valid(c)
    ensures Valid(r)
    ensures r.aluRom == c.aluRom
    ensures AllNibbles(c.registers) && AllNibbles(c.aluRom) ==> AllNibbles(r.registers)
  {
    var instruction := c.memory[c.pc];
    Execute(Decode(instruction), c.(pc := NextPc(c.pc)), isRam)
  }

  /** At most `fuel` cycles, stopping once the CPU has halted. */
  function Run(c: Cpu, isRam: int -> bool, fuel: nat): (r: Cpu)
    requires Valid(c)
    ensures Valid(r)
    ensures r.aluRom == c.aluRom
    ensures AllNibbles(c.registers) && AllNibbles(c.aluRom) ==> AllNibbles(r.registers)
    decreases fuel
  {
    if fuel == 0 || c.halted then c else Run(Step(c, isRam), isRam, fuel - 1)
  }
}
