/**
  Operand fields of a CHIP-8 instruction word.

  An instruction is one 16-bit big-endian word. Its operands sit at fixed
  places (Cowgod's Chip-8 Technical Reference, section 3.0):

      15..12   11..8   7..4   3..0
      ------   -----   ----   ----
      group      x      y      n
                        |-- nn --|
               |------- nnn -----|

  `Opcode` wraps the raw word; its five accessors mask and shift it, exactly
  as the interpreter does. Their contracts give the arithmetic meaning of
  each field (a base-16 digit, the low byte, the low twelve bits), and the
  lemmas below show that the fields reassemble into the word they came from.
*/
module Instruction {

  type Byte = bv8
  type Word = bv16

  /** A raw 16-bit instruction word. Every word has well-defined fields,
      whether or not it encodes a recognised instruction. */
  datatype Opcode = Opcode(word: Word) {

    /** Bits 11..8: the register index x, the second hex digit of the word. */
    function Oxoo(): (x: nat)
      ensures x < 16
      ensures x == (word as int / 0x100) % 0x10
    {
      Layout(word);
      ((word & 0x0F00) >> 8) as nat
    }

    /** Bits 7..4: the register index y, the third hex digit of the word. */
    function Ooyo(): (y: nat)
      ensures y < 16
      ensures y == (word as int / 0x10) % 0x10
    {
      Layout(word);
      ((word & 0x00F0) >> 4) as nat
    }

    /** Bits 3..0: the 4-bit immediate n, the last hex digit of the word. */
    function Ooon(): (n: Byte)
      ensures n < 16
      ensures n as int == word as int % 0x10
    {
      Layout(word);
      (word & 0x000F) as Byte
    }

    /** Bits 7..0: the byte immediate nn, i.e. the low byte of the word. */
    function Oonn(): (nn: Byte)
      ensures nn as int == word as int % 0x100
    {
      Layout(word);
      (word & 0x00FF) as Byte
    }

    /** Bits 11..0: the 12-bit address nnn, always inside the 4096-byte memory. */
    function Onnn(): (nnn: Word)
      ensures nnn < 0x1000
      ensures nnn as int == word as int % 0x1000
    {
      Layout(word);
      word & 0x0FFF
    }

    /** Bits 15..12: the instruction group, the first hex digit of the word.
        The interpreter's `Opcode` has no such accessor; this one is here only
        to state that the fields reassemble into the whole word. */
    function Group(): (g: nat)
      ensures g < 16
      ensures g == word as int / 0x1000
    {
      GroupLayout(word);
      (word >> 12) as nat
    }
  }

  /** The masks and shifts above cut a word into its four hex digits, read
      as integer division and remainder by powers of sixteen. The splitting
      is proved on the bit-vector side (the Split lemmas), the reading on the
      integer side (Digits); the solver handles each side alone well and
      the two mixed badly. */
  lemma Layout(w: Word)
    ensures ((w & 0x0F00) >> 8) as int == (w as int / 0x100) % 0x10
    ensures ((w & 0x00F0) >> 4) as int == (w as int / 0x10) % 0x10
    ensures (w & 0x000F) as int == w as int % 0x10
    ensures (w & 0x00FF) as int == w as int % 0x100
    ensures (w & 0x0FFF) as int == w as int % 0x1000
  {
    NibbleBounds(w);
    LowByteSplit(w);
    AddressSplit(w);
    WordSplit(w);
    Digits(w as int, (w >> 12) as int, ((w & 0x0F00) >> 8) as int, ((w & 0x00F0) >> 4) as int, (w & 0x000F) as int);
  }

  /** The same reading for the top digit, kept apart to keep its proof small. */
  lemma GroupLayout(w: Word)
    ensures (w >> 12) as int < 0x10
    ensures (w >> 12) as int == w as int / 0x1000
  {
    NibbleBounds(w);
    AddressBound(w);
    WordSplit(w);
    DivMod4096(w as int, (w >> 12) as int, (w & 0x0FFF) as int);
  }

  lemma AddressBound(w: Word)
    ensures (w & 0x0FFF) as int < 0x1000
  {
  }

  lemma NibbleBounds(w: Word)
    ensures (w >> 12) as int < 0x10 && ((w & 0x0F00) >> 8) as int < 0x10
    ensures ((w & 0x00F0) >> 4) as int < 0x10 && (w & 0x000F) as int < 0x10
  {
  }

  lemma LowByteSplit(w: Word)
    ensures (w & 0x00FF) as int == ((w & 0x00F0) >> 4) as int * 0x10 + (w & 0x000F) as int
  {
  }

  lemma AddressSplit(w: Word)
    ensures (w & 0x0FFF) as int == ((w & 0x0F00) >> 8) as int * 0x100 + (w & 0x00FF) as int
  {
  }

  lemma WordSplit(w: Word)
    ensures w as int == (w >> 12) as int * 0x1000 + (w & 0x0FFF) as int
  {
  }

  /** Integer reading of a number written with the four hex digits g x y n. */
  lemma Digits(v: int, g: int, x: int, y: int, n: int)
    requires 0 <= g < 0x10 && 0 <= x < 0x10 && 0 <= y < 0x10 && 0 <= n < 0x10
    requires v == g * 0x1000 + x * 0x100 + y * 0x10 + n
    ensures v / 0x1000 == g && (v / 0x100) % 0x10 == x && (v / 0x10) % 0x10 == y && v % 0x10 == n
    ensures v % 0x100 == y * 0x10 + n && v % 0x1000 == x * 0x100 + y * 0x10 + n
  {
    DivMod16(v, g * 0x100 + x * 0x10 + y, n);
    DivMod16(v / 0x10, g * 0x10 + x, y);
    DivMod256(v, g * 0x10 + x, y * 0x10 + n);
    DivMod16(v / 0x100, g, x);
    DivMod4096(v, g, x * 0x100 + y * 0x10 + n);
  }

  lemma DivMod16(v: int, q: int, r: int)
    requires 0 <= r < 0x10 && v == q * 0x10 + r
    ensures v / 0x10 == q && v % 0x10 == r
  {
  }

  lemma DivMod256(v: int, q: int, r: int)
    requires 0 <= r < 0x100 && v == q * 0x100 + r
    ensures v / 0x100 == q && v % 0x100 == r
  {
  }

  lemma DivMod4096(v: int, q: int, r: int)
    requires 0 <= r < 0x1000 && v == q * 0x1000 + r
    ensures v / 0x1000 == q && v % 0x1000 == r
  {
  }

  /** The word whose group and fields x, y and n are the given nibbles:
      every choice of nibbles is some word, and extraction gives them back. */
  function Assemble(g: Word, x: Word, y: Word, n: Word): (op: Opcode)
    requires g < 16 && x < 16 && y < 16 && n < 16
    ensures op.Group() == g as nat && op.Oxoo() == x as nat && op.Ooyo() == y as nat && op.Ooon() == n as Byte
  {
    Opcode((g << 12) | (x << 8) | (y << 4) | n)
  }

  /** The wider fields are made of the narrower ones, and the word is its
      group followed by nnn. */
  lemma Reassembly(op: Opcode)
    ensures op.Oonn() as int == op.Ooyo() * 0x10 + op.Ooon() as int
    ensures op.Onnn() as int == op.Oxoo() * 0x100 + op.Oonn() as int
    ensures op.word as int == op.Group() * 0x1000 + op.Onnn() as int
  {
    var g, x, y, n := op.Group(), op.Oxoo(), op.Ooyo(), op.Ooon() as int;
    var nn, nnn := op.Oonn() as int, op.Onnn() as int;
    var w := op.word as int;
    Recombine(w, g, x, y, n, nn, nnn);
  }

  lemma Recombine(w: int, g: int, x: int, y: int, n: int, nn: int, nnn: int)
    requires 0 <= w < 0x10000
    requires g == w / 0x1000 && x == (w / 0x100) % 0x10 && y == (w / 0x10) % 0x10 && n == w % 0x10
    requires nn == w % 0x100 && nnn == w % 0x1000
    ensures nn == y * 0x10 + n && nnn == x * 0x100 + nn && w == g * 0x1000 + nnn
  {
  }

  /** Extraction loses nothing: the group and the fields x, y, n determine the word. */
  lemma FieldsDetermineOpcode(a: Opcode, b: Opcode)
    requires a.Group() == b.Group() && a.Oxoo() == b.Oxoo()
    requires a.Ooyo() == b.Ooyo() && a.Ooon() == b.Ooon()
    ensures a == b
  {
    Reassembly(a);
    Reassembly(b);
    AsIntInjective(a.word, b.word);
  }

  lemma AsIntInjective(u: Word, v: Word)
    requires u as int == v as int
    ensures u == v
  {
    assert (u as int) as Word == u;
    assert (v as int) as Word == v;
  }

  /** The fields of 0xABCD. */
  lemma ExampleABCD()
    ensures Opcode(0xABCD).Oxoo() == 0xB
    ensures Opcode(0xABCD).Ooyo() == 0xC
    ensures Opcode(0xABCD).Ooon() == 0xD
    ensures Opcode(0xABCD).Oonn() == 0xCD
    ensures Opcode(0xABCD).Onnn() == 0xBCD
  {
  }
}
