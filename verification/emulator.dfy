/**
  The machine state of the CHIP-8 interpreter, how it is created, how a ROM
  is copied into it and how an instruction word is fetched from it.

  The state is an object whose memory is updated in place, so it is a class
  over arrays. Alongside it, functions on `seq<Byte>` say what the memory
  holds after each step; the class's methods are proved to produce exactly
  that, and the lemmas about the functions say what a program then sees.
*/
module Emulator {

  import opened Instruction

  /** Bytes of addressable memory. */
  const MemorySize := 4096
  /** General registers V0..VF. */
  const RegisterCount := 16
  /** Saved return addresses. */
  const StackSize := 16
  /** Where programs are loaded and where execution starts; the bytes below
      it belong to the interpreter (the font lives there). */
  const ProgramStart := 0x200

  /** Memory as a freshly created machine holds it: the font at address 0
      and zero everywhere else. */
  function InitialMemory(font: seq<Byte>): (mem: seq<Byte>)
    requires |font| <= ProgramStart
    ensures |mem| == MemorySize
    ensures forall a :: 0 <= a < |font| ==> mem[a] == font[a]
    ensures forall a :: |font| <= a < MemorySize ==> mem[a] == 0
  {
    font + seq(MemorySize - |font|, _ => 0)
  }

  /** Memory after a ROM is copied over `mem` at the program start: the ROM
      occupies ProgramStart .. ProgramStart + |rom| and every other byte is
      kept. */
  function Loaded(mem: seq<Byte>, rom: seq<Byte>): (r: seq<Byte>)
    requires |mem| == MemorySize
    requires |rom| <= MemorySize - ProgramStart
    ensures |r| == MemorySize
    ensures forall k :: 0 <= k < |rom| ==> r[ProgramStart + k] == rom[k]
    ensures forall a :: 0 <= a < ProgramStart ==> r[a] == mem[a]
    ensures forall a :: ProgramStart + |rom| <= a < MemorySize ==> r[a] == mem[a]
  {
    mem[..ProgramStart] + rom + mem[ProgramStart + |rom|..]
  }

  /** The 16-bit word stored high byte first as the two bytes hi, lo. The
      word gives both bytes back. */
  function BigEndian(hi: Byte, lo: Byte): (w: Word)
    ensures w as int == hi as int * 0x100 + lo as int
    ensures (w >> 8) as Byte == hi && (w & 0x00FF) as Byte == lo
  {
    JoinValue(hi, lo);
    JoinBytes(hi, lo);
    ((hi as Word) << 8) | (lo as Word)
  }

  lemma JoinValue(hi: Byte, lo: Byte)
    ensures (((hi as Word) << 8) | (lo as Word)) as int == hi as int * 0x100 + lo as int
  {
  }

  lemma JoinBytes(hi: Byte, lo: Byte)
    ensures var w := ((hi as Word) << 8) | (lo as Word);
      (w >> 8) as Byte == hi && (w & 0x00FF) as Byte == lo
  {
  }

  /** The operand fields of a fetched word: the group and x come from the
      first byte, y and n from the second, and nn is the second byte. */
  lemma FetchedFields(hi: Byte, lo: Byte)
    ensures var op := Opcode(BigEndian(hi, lo));
      && op.Group() == hi as int / 0x10 && op.Oxoo() == hi as int % 0x10
      && op.Ooyo() == lo as int / 0x10 && op.Ooon() as int == lo as int % 0x10
      && op.Oonn() == lo
  {
    var w := BigEndian(hi, lo);
    Digits(w as int, hi as int / 0x10, hi as int % 0x10, lo as int / 0x10, lo as int % 0x10);
  }

  /** A ROM read as the instruction words it holds, two bytes each, high
      byte first; an odd last byte starts no word. */
  function Program(rom: seq<Byte>): (ops: seq<Word>)
    ensures |ops| == |rom| / 2
    decreases |rom|
  {
    if |rom| < 2 then [] else [BigEndian(rom[0], rom[1])] + Program(rom[2..])
  }

  /** The j-th word of a program is made of bytes 2j and 2j+1. */
  lemma {:induction false} ProgramAt(rom: seq<Byte>, j: nat)
    requires j < |rom| / 2
    ensures Program(rom)[j] == BigEndian(rom[2 * j], rom[2 * j + 1])
    decreases j
  {
    if j > 0 {
      ProgramAt(rom[2..], j - 1);
    }
  }

  /** After a ROM is loaded, the word fetched at ProgramStart + 2j is the
      j-th instruction of the ROM, whatever the memory held before. */
  lemma LoadedProgramFetch(mem: seq<Byte>, rom: seq<Byte>, j: nat)
    requires |mem| == MemorySize
    requires |rom| <= MemorySize - ProgramStart
    requires j < |rom| / 2
    ensures var m := Loaded(mem, rom);
      BigEndian(m[ProgramStart + 2 * j], m[ProgramStart + 2 * j + 1]) == Program(rom)[j]
  {
    ProgramAt(rom, j);
  }

  /** The interpreter's state. The display and keyboard are not modelled. */
  class Emulator {
    var memory: array<Byte>
    var v: array<Byte>
    var i: Word
    var pc: Word
    var stack: array<Word>
    var sp: Byte
    var delayTimer: Byte
    var soundTimer: Byte

    /** Fixed sizes of the buffers; memory and registers are distinct arrays. */
    ghost predicate Valid()
      reads this
    {
      && memory.Length == MemorySize
      && v.Length == RegisterCount
      && stack.Length == StackSize
      && memory != v
    }

    /** A fresh machine: everything zero except the font at the bottom of
        memory and pc and i, which both point at the program start. */
    constructor (font: seq<Byte>)
      requires |font| <= ProgramStart
      ensures Valid() && fresh(memory) && fresh(v) && fresh(stack)
      ensures memory[..] == InitialMemory(font)
      ensures v[..] == seq(RegisterCount, _ => 0)
      ensures stack[..] == seq(StackSize, _ => 0)
      ensures i as int == ProgramStart && pc as int == ProgramStart
      ensures sp == 0 && delayTimer == 0 && soundTimer == 0
    {
      var mem := new Byte[MemorySize](_ => 0);
      for k := 0 to |font|
        invariant forall a :: 0 <= a < k ==> mem[a] == font[a]
        invariant forall a :: k <= a < MemorySize ==> mem[a] == 0
      {
        mem[k] := font[k];
      }
      assert mem[..] == InitialMemory(font);
      memory := mem;
      v := new Byte[RegisterCount](_ => 0);
      i := 0x200;
      pc := 0x200;
      stack := new Word[StackSize](_ => 0);
      sp := 0;
      delayTimer := 0;
      soundTimer := 0;
    }

    /** Copies the ROM into memory from the program start on; nothing else
        changes. */
    method RomRead(rom: seq<Byte>)
      requires Valid()
      requires |rom| <= MemorySize - ProgramStart
      modifies memory
      ensures Valid()
      ensures memory[..] == Loaded(old(memory[..]), rom)
      ensures unchanged(this) && unchanged(v) && unchanged(stack)
    {
      for loc := 0 to |rom|
        invariant forall k :: 0 <= k < loc ==> memory[ProgramStart + k] == rom[k]
        invariant forall a :: 0 <= a < ProgramStart ==> memory[a] == old(memory[a])
        invariant forall a :: ProgramStart + loc <= a < MemorySize ==> memory[a] == old(memory[a])
      {
        memory[ProgramStart + loc] := rom[loc];
      }
      assert memory[..] == Loaded(old(memory[..]), rom);
    }

    /** The instruction word at pc, high byte first. Reads the state and
        changes nothing. */
    function InstructionRead(): (op: Word)
      reads this, memory
      requires Valid()
      requires pc as int + 1 < MemorySize
      ensures op as int == memory[pc as int] as int * 0x100 + memory[pc as int + 1] as int
    {
      BigEndian(memory[pc as int], memory[pc as int + 1])
    }
  }

  /** A machine created with `font`, loaded with `rom`, then asked for its
      first instruction: that is the ROM's first word, or what the zeroed
      memory makes of a ROM shorter than a word. */
  method FirstInstruction(font: seq<Byte>, rom: seq<Byte>) returns (op: Word)
    requires |font| <= ProgramStart
    requires |rom| <= MemorySize - ProgramStart
    ensures |rom| >= 2 ==> op == Program(rom)[0]
    ensures |rom| == 1 ==> op == BigEndian(rom[0], 0)
    ensures rom == [] ==> op == 0
  {
    var e := new Emulator(font);
    e.RomRead(rom);
    op := e.InstructionRead();
    ghost var m := Loaded(InitialMemory(font), rom);
    assert e.memory[..] == m;
    assert op == BigEndian(m[ProgramStart], m[ProgramStart + 1]);
    if |rom| >= 2 {
      LoadedProgramFetch(InitialMemory(font), rom, 0);
    } else if |rom| == 1 {
      assert m[ProgramStart] == rom[0] && m[ProgramStart + 1] == 0;
    } else {
      assert m[ProgramStart] == 0 && m[ProgramStart + 1] == 0;
      assert BigEndian(0, 0) == 0;
    }
  }
}
