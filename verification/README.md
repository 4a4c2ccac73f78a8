# CHIP-8 interpreter core: opcode fields, machine state, ROM copy, fetch

A Dafny model of two files of a CHIP-8 interpreter written in Rust.

- `instruction.dfy` (module `Instruction`) models `src/instruction.rs`. An
  `Opcode` wraps a raw 16-bit instruction word. Its five accessors `oxoo`,
  `ooyo`, `ooon`, `oonn` and `onnn` mask and shift the word to get the
  operand fields x, y, n, nn and nnn. In Cowgod's Chip-8 Technical
  Reference, section 3.0, these are the fields x, y, n, kk and nnn. The
  accessors keep the source's bit operations on `bv16`. Their contracts
  give each field's arithmetic meaning: a hex digit of the word, its low
  byte, or its low twelve bits. The contracts also give the bounds that
  make x and y valid register indices and nnn a valid address. The lemmas
  show that the fields reassemble into the word. The group nibble and the
  fields x, y, n determine the word, and every choice of nibbles is some
  word (`Assemble`).
- `emulator.dfy` (module `Emulator`) models `src/emulator.rs`. The machine
  state is the class `Emulator`, with the source's fields: a 4096-byte
  `memory` array, the 16 registers `v`, `i`, `pc`, a 16-entry `stack`,
  `sp` and the two timers. `Emulator::new` is the constructor. The copy loop
  of `rom_read` is the method `RomRead`. The big-endian fetch of
  `instruction_read` is the function `InstructionRead`. The functions
  `InitialMemory` and `Loaded` say what memory holds after creation and
  after a ROM copy, and the methods are proved to produce exactly that.
  `Program` reads a ROM as its sequence of big-endian words. The lemmas show
  that the word fetched at `0x200 + 2j` after loading is the ROM's j-th
  word. They also show which fetched byte each opcode field comes from.

The Rust source does not compile as written. The model follows its evident
intent: `memory: [u8; 4096]`, a stack of sixteen `u16` entries (from
`[0; 16]` in `new`), `as u8` casts in `ooon` and `oonn`, and `crate::`
imports.

The font table `FONTSET` is used by `new` but is not defined in the files
modelled. The constructor therefore takes the font as a parameter `font`,
and requires it to fit below the program start (`|font| <= 0x200`). This is
the interpreter's reserved area, where the conventional 80-byte font lives.

A ROM longer than `4096 - 0x200` bytes does not fit: the copy loop indexes
`memory[0x200 + loc]` with no check of its own and would panic. The model
makes the size bound a precondition of `RomRead`. Likewise
`instruction_read` indexes `memory[pc]` and `memory[pc + 1]` unchecked, so
`InstructionRead` requires `pc + 1 < 4096`.

## Model

| member | source | states |
|---|---|---|
| `Instruction.Opcode.Oxoo` | src/instruction.rs:5-7 | x is the second hex digit of the word, `(w / 0x100) % 0x10`, so always below 16, a valid register index |
| `Instruction.Opcode.Ooyo` | src/instruction.rs:9-11 | y is the third hex digit of the word, `(w / 0x10) % 0x10`, always below 16 |
| `Instruction.Opcode.Ooon` | src/instruction.rs:13-15 | n is the last hex digit of the word, `w % 0x10`, always below 16 |
| `Instruction.Opcode.Oonn` | src/instruction.rs:17-19 | nn is the low byte of the word, `w % 0x100` |
| `Instruction.Opcode.Onnn` | src/instruction.rs:21-23 | nnn is the low twelve bits, `w % 0x1000`, always below 4096, so a valid memory address |
| `Instruction.Reassembly` | src/instruction.rs:5-23 | nn = y·16 + n, nnn = x·256 + nn, and the word = group·4096 + nnn, for every word |
| `Instruction.FieldsDetermineOpcode` | src/instruction.rs:5-23 | two words with the same group nibble and the same x, y and n are the same word: extraction loses nothing |
| `Instruction.Assemble` | src/instruction.rs:5-23 | the word built from any four nibbles has exactly those nibbles as its group, x, y and n: every field combination occurs |
| `Instruction.ExampleABCD` | src/instruction.rs:5-23 | for 0xABCD: x = 0xB, y = 0xC, n = 0xD, nn = 0xCD, nnn = 0xBCD |
| `Emulator.InitialMemory` | src/emulator.rs:26-45 | memory of a new machine: 4096 bytes, the font at addresses below its length, zero everywhere else |
| `Emulator.Loaded` | src/emulator.rs:49-51 | memory after the ROM copy: byte k of the ROM at 0x200 + k, every other byte as before |
| `Emulator.BigEndian` | src/emulator.rs:56-57 | the fetched word is hi·256 + lo, and its high and low bytes give hi and lo back |
| `Emulator.FetchedFields` | src/emulator.rs:56-57 | of a fetched word, the group and x are the two digits of the first byte, y and n those of the second, and nn is the second byte |
| `Emulator.Program` | src/emulator.rs:49-57 | a ROM holds one instruction word per two bytes |
| `Emulator.ProgramAt` | src/emulator.rs:49-57 | the j-th instruction word of a ROM is its bytes 2j and 2j + 1, high byte first |
| `Emulator.LoadedProgramFetch` | src/emulator.rs:47-59 | after the ROM copy, the word fetched at 0x200 + 2j is the ROM's j-th word, whatever memory held before |
| `Emulator.Emulator.constructor` | src/emulator.rs:26-45 | memory is `InitialMemory(font)`, all registers, stack entries, `sp` and both timers are zero, and `pc` and `i` are 0x200 |
| `Emulator.Emulator.RomRead` | src/emulator.rs:47-53 | memory becomes `Loaded(old memory, rom)`; all other fields, the registers and the stack are unchanged; requires the ROM to fit in 4096 - 0x200 bytes |
| `Emulator.Emulator.InstructionRead` | src/emulator.rs:55-59 | the word at `pc` is `memory[pc]·256 + memory[pc + 1]`, high byte first; reads the state and changes nothing; requires `pc + 1 < 4096` |
| `Emulator.FirstInstruction` | src/emulator.rs:26-59 | a new machine with a ROM copied in fetches the ROM's first word; for a one-byte ROM, that byte followed by zero; for an empty ROM, zero |

## Left out

- File I/O in `rom_read` (`File::open`, reading the byte stream, `io::Result`
  errors): `RomRead` copies a byte sequence it is given.
- `rom_read` takes the machine by value and returns it inside `Ok`. The
  model updates the same object in place, which is what the caller observes.
- `Instruction::new`, the decoder `instruction_read` hands the word to, is
  not part of this model. `InstructionRead` returns the fetched word.
- The `display` and `keyboard` fields and their `new` calls: their types are
  not part of this model.
- `sleep` and `Duration` are imported but not used by the modelled code.
  Timer decrementing and the driving loop do not appear in it.
- The contents of `FONTSET`: the font is a constructor parameter of at most
  0x200 bytes.
- The `u16` addition `pc + 1` in `instruction_read` is computed as an
  integer. It could overflow only at `pc = 0xFFFF`, which the
  precondition `pc + 1 < 4096` already excludes.
