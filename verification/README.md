# aqua CPU emulator and ALU-ROM builder in Dafny

This project models the two programs that define the instruction set of the
aqua CPU. The CPU is tiny: it has 16 registers, 64 KiB of memory, and every
instruction is a single byte.

- `emulator.py` holds `CPU`. Its `cycle` fetches the byte at `pc`, advances
  `pc` modulo 65536 and splits the byte into a source (high nibble) and a
  destination (low nibble). The byte then does one of three things:
  - destination 0 loads the source nibble into register 0;
  - destination 7 runs command number `src` from a 16-entry table
    (memory read and write, address increment and decrement, jump,
    conditional jump, jump-and-link, break, halt, no-ops);
  - any other destination copies register `src` into register `dst`.
    Reading register 7 instead looks up the ALU ROM at the key
    `A | B << 4 | OP << 8`, built from registers 4, 5 and 6.

  Registers 8 to 11 together form the 16-bit address register.
- `makeAluROM.py` fills the 4096-byte ALU ROM with 16 binary operations.
  Opcode 15 uses B to pick one of 16 unary operations.

The model has five modules:

- `Bits` (bits.dfy) models Python's `&`, `|`, `^`, `>>` and `<<`. `&` works
  over all integers, in two's complement. This matters because the address
  setter masks `-1` and the builder masks `~a`. Each operator comes with its
  bit-level meaning: `&`, `|` and `^` bit by bit, `>>` as moving every bit
  down by k places, and `<<` as a shift that `>>` undoes.
- `Nibbles` (nibbles.dfy) models `get_low`, `get_high` and `construct_address`,
  which both programs define identically.
- `AluRom` (alu.dfy) models the operation tables and the table-filling loop.
- `Emulator` (cpu.dfy) models the CPU state, the constructor, the address
  register, the commands, decoding, `cycle` (`Step`) and a fuel-bounded `Run`.
- `EmulatorProperties` (properties.dfy) holds the lemmas that relate several
  operations.

Three behaviours of the code are easy to misread:

- A move stores its value without masking. The registers therefore hold
  bytes, not nibbles. They stay nibbles only because every ALU-ROM byte is
  a nibble (the contracts of `Step` and `Run`).
- `cmd_jal` stores the old `pc` in a misspelled attribute (`self.addres`)
  that nothing reads. The model's jump-and-link is therefore exactly a
  jump: `pc := address`, with no register changed.
- `is_ram` always returns true. It is an overridable hook, so `Step` and
  `Run` take it as a parameter `isRam`, and `Emulator.IsRam` is the
  default.

## Model

| member | source | states |
|---|---|---|
| Bits.ShiftRightBits | emulator.py:71-74 | bit i of `x >> k` is bit i + k of x, for every integer x |
| Bits.ShiftLeftRight | emulator.py:30-31 | `(x << k) >> k == x` for every non-negative x, and the k low bits of `x << k` are clear |
| Bits.OrDisjoint | emulator.py:30-31 | OR-ing `lo` with `hi << k` gives `lo + hi * 2^k` whenever `lo < 2^k`, so packing nibbles loses nothing |
| Bits.LowMask | emulator.py:71-74 | `x & (2^k - 1)` is `x mod 2^k` for every integer x, negative ones included (Python's two's complement `&`) |
| Bits.AndBits | makeAluROM.py:22 | bit i of `a & b` is set exactly when bit i is set in both a and b |
| Bits.OrBits | makeAluROM.py:23 | bit i of `a OR b` is set exactly when bit i is set in a or in b |
| Bits.XorBits | makeAluROM.py:24 | bit i of `a ^ b` is set exactly when bit i of a and bit i of b differ |
| Bits.OrPlusAnd | makeAluROM.py:22-23 | `(a OR b) + (a AND b) == a + b` |
| Bits.XorPlusAnd | makeAluROM.py:22-24 | `(a XOR b) + 2 * (a AND b) == a + b` |
| Bits.BitwiseBound | makeAluROM.py:22-24 | AND, OR and XOR of two k-bit values are k-bit values |
| Nibbles.GetLow | emulator.py:24-25 | `get_low(x)` is `x mod 16` for every integer x |
| Nibbles.GetHigh | emulator.py:27-28 | `get_high(x)` is `(x div 16) mod 16` for every integer x |
| Nibbles.ConstructAddress | emulator.py:30-31 | the result is the base-16 number whose digits are the low nibbles of a, b, c, d (low to high), so it lies in 0..65535 |
| Nibbles.PackNibbles | emulator.py:30-31 | on nibble arguments `construct_address` is `a + 16b + 256c + 4096d` |
| Nibbles.SplitByte | emulator.py:24-28 | a byte equals its low nibble plus 16 times its high nibble |
| Nibbles.ByteSplitJoin | emulator.py:24-31 | packing a byte's two nibbles gives the byte back |
| Nibbles.ByteJoinSplit | emulator.py:24-31 | packing two values and splitting the byte returns their low nibbles |
| Nibbles.WordSplitJoin | emulator.py:62-74 | every value in 0..65535 is the packing of its four nibbles `(v >> 4i) & 0xf` |
| Nibbles.KeyDecode | makeAluROM.py:12-13 | the key of a nibble triple (A, B, op) is below 4096, and A, B and op can be read back from it |
| Nibbles.KeyEncode | makeAluROM.py:55-58 | every key in 0..4095 is the key of a nibble triple, so the loop reaches every index |
| Nibbles.KeyInjective | makeAluROM.py:55-58 | distinct nibble triples have distinct keys, so no index is written twice |
| AluRom.UnaryOp | makeAluROM.py:36-53 | every unary operation gives a nibble |
| AluRom.BinaryOp | makeAluROM.py:17-34 | every binary operation, including the unary dispatch of op 15, gives a nibble |
| AluRom.BuildAluRom | makeAluROM.py:55-58 | the nested loops over a zeroed 4096-byte buffer produce the table holding `alu_ops[op](A, B)` at the key of every nibble triple |
| AluRom.EntriesAreNibbles | makeAluROM.py:15-58 | every one of the 4096 entries is in 0..15 |
| AluRom.Unique | makeAluROM.py:55-58 | the contents are fixed at every index: two tables that meet the loop's specification are equal |
| AluRom.AddEntries | makeAluROM.py:18-19 | op 0 gives `(A + B) mod 16` and op 1 gives the carry, 1 exactly when `A + B >= 16`, so `16 * op1 + op0 == A + B` |
| AluRom.MulEntries | makeAluROM.py:20-21 | op 2 gives `(A * B) mod 16` and `16 * op3 + op2 == A * B` |
| AluRom.LogicEntries | makeAluROM.py:22-24 | ops 4, 5 and 6 are bitwise AND, OR and XOR of A and B, bit by bit |
| AluRom.ReservedEntries | makeAluROM.py:25-32 | ops 7 to 14 give 0 for every A and B |
| AluRom.UnaryEntries | makeAluROM.py:33-53 | op 15 with B = 0 gives 1 exactly when A = 0; with B = 1 it gives `15 - A`; with B in 2..15 it gives 0 |
| Emulator.LoadImage | emulator.py:43-57 | the buffer has exactly `size` bytes: the image's bytes where it has them, zero elsewhere, and all zeros without an image |
| Emulator.New | emulator.py:42-60 | a new CPU has pc 0, sixteen zero registers, 65536 bytes of memory holding the program image then zeros, and a 4096-byte ALU ROM holding the ALU image then zeros |
| Emulator.Address | emulator.py:62-67 | the address is the base-16 number whose digits are the low nibbles of registers 8 (lowest) to 11, so it lies in 0..65535 even when those registers hold full bytes |
| Emulator.IsRam | emulator.py:39-40 | the default guard accepts every address |
| Emulator.SetAddress | emulator.py:69-74 | writing any integer v leaves the address equal to `v mod 65536`, so values in 0..65535 round-trip; only registers 8 to 11 change, and each gets a nibble |
| Emulator.DigitOfModulo | emulator.py:71-74 | each nibble `(v >> 4i) & 0xf` that the setter stores is the same for v and for `v mod 65536` |
| Emulator.MemoryReadCmd | emulator.py:76-79 | registers 2 and 3 receive the low and high nibbles of the byte at the address; nothing else changes |
| Emulator.MemoryWriteCmd | emulator.py:81-84 | when the guard allows it, only the byte at the address changes, to `MEM_LOW mod 16 + 16 * (MEM_HIGH mod 16)`; when the guard refuses, nothing changes |
| Emulator.IncrementAddressCmd | emulator.py:86-87 | the address becomes `(address + 1) mod 65536`; only registers 8 to 11 change |
| Emulator.DecrementAddressCmd | emulator.py:89-90 | the address becomes `(address - 1) mod 65536`; only registers 8 to 11 change |
| Emulator.JumpCmd | emulator.py:92-93 | pc becomes the address and nothing else changes |
| Emulator.JumpIfCmd | emulator.py:95-98 | when the control register is 0, pc becomes the address; otherwise the CPU is unchanged |
| Emulator.JumpAndLinkCmd | emulator.py:100-101 | pc becomes the address and nothing else observable changes |
| Emulator.RunCommand | emulator.py:103-134 | no command changes the ALU ROM; only halt sets the halt flag; no-ops and break change nothing; no command makes a nibble register hold more than 15 |
| Emulator.NextPc | emulator.py:139-140 | `(pc + 1) & 0xffff` is `(pc + 1) mod 65536` |
| Emulator.Decode | emulator.py:141-143 | a byte with low nibble 0 loads its high nibble, one with low nibble 7 runs command `byte / 16`, and any other moves register `byte / 16` into register `byte % 16` |
| Emulator.ReadSource | emulator.py:150-153 | a move reads register src, except that source 7 reads the ALU-ROM byte at the key packed from the low nibbles of registers 4, 5 and 6; with nibble registers and an all-nibble ROM the value read is a nibble |
| Emulator.AluKey | emulator.py:150-151 | the ALU key from registers 4, 5 and 6 is the base-16 number of their low nibbles, always below 4096 |
| Emulator.Execute | emulator.py:144-154 | executing an instruction keeps the CPU's shape and the ALU ROM; if every register and every ALU-ROM byte is at most 15, every register is at most 15 afterwards, since the stored value is the source nibble, a register or an ALU-ROM byte |
| Emulator.Step | emulator.py:136-154 | a cycle keeps every CPU invariant: pc stays in 0..65535, the register file, memory and ALU ROM keep their sizes, the ALU ROM is unchanged, and with an all-nibble ALU ROM the registers stay nibbles |
| Emulator.Run | emulator.py:165-166 | any number of cycles keeps the same invariants, the nibble invariant of the registers included |
| EmulatorProperties.LoadImageExact | emulator.py:49 | an image of exactly the buffer's size is taken unchanged |
| EmulatorProperties.LoadImageIdempotent | emulator.py:49 | normalising an image twice gives the same buffer as normalising it once |
| EmulatorProperties.SetAddressModulo | emulator.py:69-74 | setting the address to v gives the same registers as setting it to `v mod 65536` |
| EmulatorProperties.AddressWraps | emulator.py:86-90 | incrementing address 65535 gives 0, and decrementing address 0 gives 65535 |
| EmulatorProperties.WriteThenRead | emulator.py:76-84 | a memory write followed by a memory read restores the low nibbles of registers 2 and 3 |
| EmulatorProperties.DefaultGuardWrites | emulator.py:81-84 | under the default guard, a cycle on byte 0x17 stores the packed low nibbles of registers 2 and 3 at the address and leaves the registers alone |
| EmulatorProperties.ReadThenWrite | emulator.py:76-84 | a memory read followed by a memory write leaves memory as it was |
| EmulatorProperties.EncodeDecode | emulator.py:141-143 | every byte decodes to an instruction, and re-encoding that instruction gives the byte back |
| EmulatorProperties.DecodeEncode | emulator.py:141-143 | every well-formed instruction encodes to a byte that decodes back to it |
| EmulatorProperties.StepDataMove | emulator.py:136-154 | a load-immediate or move advances pc modulo 65536 and writes only register `dst`; memory, the ALU ROM and the other 15 registers are unchanged. The value is the source nibble for a load-immediate, the ALU-ROM byte for source 7, and register `src` otherwise |
| EmulatorProperties.StepPc | emulator.py:136-148 | after a cycle pc is the address for commands 4 and 6, the address exactly when the control register is 0 for command 5, and `(pc + 1) mod 65536` for every other byte |
| EmulatorProperties.StepJumpFrame | emulator.py:92-101 | the three jump commands change nothing but pc |
| EmulatorProperties.StepHalt | emulator.py:107-111 | a halt instruction sets the halt flag, and a run executes nothing after it |
| EmulatorProperties.HaltedStays | emulator.py:107-111 | a halted CPU runs no further cycles |
| EmulatorProperties.StepAluAdd | emulator.py:150-154 | with the generated ROM and opcode 0, moving from register 7 stores `(A + B) mod 16` |
| EmulatorProperties.GeneratedRomKeepsNibbles | emulator.py:42-60 | a CPU built with the generated ALU ROM keeps every register in 0..15 for any program and any number of cycles |

## Left out

- The diagnostics of `cmd_break` and `cmd_halt` are left out: the `print`, the `hexdump` through the external `hd` tool, and `sys.exit`. They are output and process control. Break is modelled as no state change. Halt is modelled as setting the `halted` flag, which `Run` respects.
- The file-object branches of the constructor (`hasattr(..., "read")`) are left out. They are I/O, and they normalise the bytes they read in the same way as the bytes branch.
- The `__main__` command line and its unbounded `while True` loop are left out. `Run` takes a fuel bound instead.
- Writing the table to a file in `makeAluROM.py` is left out because it is I/O. The table is the value that `BuildAluRom` returns.
- Emulator.JumpAndLinkCmd: does not keep the old pc anywhere. The source's assignment to `self.addres` creates an attribute that nothing reads, so no link register is modelled.
- Emulator.IsRam: an overriding `is_ram` that reads the CPU's own state is not covered. The guard is modelled as a function of the address alone.
- Python raises `ValueError` when a value outside 0..255 is stored in a `bytearray`. The model has no such path, because every value the code stores is provably a byte.
