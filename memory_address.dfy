/**
 * A memory operand: an addressing mode and a displacement, compared and
 * printed by those two alone; and the operand type the decoder hands to
 * the emulator, either a register or a memory operand.
 */
module MemoryAddresses {
  import opened JavaLang
  import opened Registers
  import opened EffectiveAddresses

  /** The record `MemoryAddress(mode, displacement)`; equality is that of the pair. */
  datatype MemoryAddress = MemoryAddress(mode: EffectiveAddress, displacement: Int32)

  /** An operand the decoder resolves: a register or a memory location. */
  datatype Address = Reg(register: Register) | Mem(memory: MemoryAddress)

  /**
   * `toString`: "[disp]" for DIRECT; otherwise "[mode]" followed, inside
   * the brackets, by " - |disp|" or " + disp" when the displacement is
   * not 0.
   */
  function ToString(a: MemoryAddress): (s: string)
    ensures |s| >= 2 && s[0] == '[' && s[|s| - 1] == ']'
  {
    var disp := a.displacement;
    if a.mode == Direct then
      "[" + IntToString(disp) + "]"
    else
      "[" + Text(a.mode) + (if disp != 0 then (if disp < 0 then " - " else " + ") + IntToString(Abs(disp)) else "") + "]"
  }

  /** What lies between the brackets. */
  function Inner(s: string): string
    requires |s| >= 2
  {
    s[1..|s| - 1]
  }

  /** A DIRECT address shows the displacement in decimal, with a minus sign when negative. */
  lemma DirectShowsDisplacement(d: Int32)
    ensures var inner := Inner(ToString(MemoryAddress(Direct, d)));
      if d >= 0 then IsDigits(inner) && DigitsValue(inner) == d
      else |inner| >= 2 && inner[0] == '-' && IsDigits(inner[1..]) && DigitsValue(inner[1..]) == -(d as int)
  {
    var inner := Inner(ToString(MemoryAddress(Direct, d)));
    if d >= 0 {
      assert inner == NatToString(d);
      NatToStringRoundTrip(d);
    } else {
      assert inner == "-" + NatToString(-(d as int));
      assert inner[1..] == NatToString(-(d as int));
      NatToStringRoundTrip(-(d as int));
    }
  }

  /** With displacement 0 a base/index mode shows just its text. */
  lemma ZeroDisplacementShowsMode(m: EffectiveAddress)
    requires m != Direct
    ensures ToString(MemoryAddress(m, 0)) == "[" + Text(m) + "]"
  {
  }

  /**
   * A non-zero displacement follows the mode text as " + n" or " - n",
   * where the digits of n read back as the displacement's magnitude.
   */
  lemma SignedDisplacementShown(m: EffectiveAddress, d: Int32)
    requires m != Direct && d != 0 && d != -0x8000_0000
    ensures var s := ToString(MemoryAddress(m, d));
      var n := if d < 0 then -d else d;
      s == "[" + Text(m) + (if d < 0 then " - " else " + ") + NatToString(n) + "]" &&
      DigitsValue(NatToString(n)) == n
  {
    NatToStringRoundTrip(if d < 0 then -d else d);
  }

  /**
   * `Math.abs` leaves the most negative `int` negative, so that one
   * displacement shows two minus signs.
   */
  lemma MostNegativeDisplacementShown(m: EffectiveAddress)
    requires m != Direct
    ensures ToString(MemoryAddress(m, -0x8000_0000)) == "[" + Text(m) + " - -" + NatToString(0x8000_0000) + "]"
  {
  }
}
