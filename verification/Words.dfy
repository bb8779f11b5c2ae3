/** Sixteen-bit quantities kept in two bytes, as the 6502 code adds and subtracts them. */
module Words {
  import opened Wire

  datatype Word = Word(lo: byte, hi: byte) {
    function Value(): nat { hi * 0x100 + lo }
  }

  const ZERO := Word(0, 0)

  lemma ZeroValue()
    ensures ZERO.Value() == 0
  {}

  /** What stays in the register, and what goes to the carry. */
  function Wrap(x: nat): (b: byte)
    requires x < 0x200
    ensures b == if x < 0x100 then x else x - 0x100
  {
    x % 0x100
  }

  function Carry(x: nat): nat {
    if x < 0x100 then 0 else 1
  }

  /** CLC, ADC on the low byte, ADC #0 on the high byte. */
  function AddByte(w: Word, n: byte): (s: Word)
    ensures s.Value() == w.Value() + n - if w.Value() + n < 0x10000 then 0 else 0x10000
  {
    hide Wrap;
    Word(Wrap(w.lo + n), Wrap(w.hi + Carry(w.lo + n)))
  }

  /** CLC, ADC on both bytes with the carry between them. */
  function Add(w: Word, v: Word): (s: Word)
    ensures s.Value() == w.Value() + v.Value() - if w.Value() + v.Value() < 0x10000 then 0 else 0x10000
  {
    hide Wrap;
    Word(Wrap(w.lo + v.lo), Wrap(w.hi + v.hi + Carry(w.lo + v.lo)))
  }

  /** SEC, SBC on the low byte, SBC with the borrow on the high byte: adding the complement. */
  function Subtract(w: Word, v: Word): (d: Word)
    ensures d.Value() == w.Value() - v.Value() + if w.Value() >= v.Value() then 0 else 0x10000
  {
    hide Wrap;
    var lo := w.lo + (0xFF - v.lo) + 1;
    Word(Wrap(lo), Wrap(w.hi + (0xFF - v.hi) + Carry(lo)))
  }
}
