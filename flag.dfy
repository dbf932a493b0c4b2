/**
 * The flags the emulator keeps in its 32-bit flags word, each with the bit
 * position it was declared with and the two masks computed from it once:
 * `1 << bitIndex` to set or test the flag and its complement to clear it.
 * The positions are those of the program, not of the 8086 (OVERFLOW at 8
 * and TRAP at 11, for instance, are kept as declared).
 */
module Flags {

  datatype Flag =
    | Carry
    | Parity
    | AuxiliaryCarry
    | Zero
    | Sign
    | Overflow
    | InterruptEnable
    | Direction
    | Trap

  /** The declared bit position, a Java `int`: every one lies in 0..11. */
  function BitIndex(f: Flag): (i: bv32)
    ensures i < 12
  {
    match f
    case Carry => 0
    case Parity => 2
    case AuxiliaryCarry => 4
    case Zero => 6
    case Sign => 7
    case Overflow => 8
    case InterruptEnable => 9
    case Direction => 10
    case Trap => 11
  }

  /** `1 << bitIndex`: a single set bit, inside the low 12 bits. */
  function SetTestMask(f: Flag): (m: bv32)
    ensures m != 0 && m & (m - 1) == 0
    ensures m < 0x1000
  {
    (1 as bv32) << BitIndex(f)
  }

  /** `~setTestMask`: every bit except the flag's own. */
  function ClearMask(f: Flag): (m: bv32)
    ensures m & SetTestMask(f) == 0
    ensures m | SetTestMask(f) == 0xFFFF_FFFF
  {
    !SetTestMask(f)
  }

  /** The nine positions are pairwise distinct, so the masks share no bit. */
  lemma MasksDisjoint(f: Flag, g: Flag)
    requires f != g
    ensures BitIndex(f) != BitIndex(g)
    ensures SetTestMask(f) & SetTestMask(g) == 0
  {
  }
}
