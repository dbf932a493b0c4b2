/**
 * The emulator's 32-bit flags word and the three operations on it:
 * `setFlag` ORs in a flag's set/test mask, `clearFlag` ANDs with its clear
 * mask, and `getFlag` tests the flag's bit.
 */
module FlagWords {
  import opened Flags

  /** `getFlag`: the flag's bit of the flags word. */
  predicate FlagSet(flags: bv32, f: Flag) {
    flags & SetTestMask(f) != 0
  }

  /** `setFlag(flag, value)`: `setFlag(flag)` when `value`, `clearFlag(flag)` otherwise. */
  function WithFlag(flags: bv32, f: Flag, value: bool): bv32 {
    if value then flags | SetTestMask(f) else flags & ClearMask(f)
  }

  /** `setFlag(f)` sets the flag and keeps every other bit. */
  lemma SetFlagSets(flags: bv32, f: Flag)
    ensures FlagSet(WithFlag(flags, f, true), f)
    ensures WithFlag(flags, f, true) & ClearMask(f) == flags & ClearMask(f)
  {
  }

  /** `clearFlag(f)` clears the flag and keeps every other bit. */
  lemma ClearFlagClears(flags: bv32, f: Flag)
    ensures !FlagSet(WithFlag(flags, f, false), f)
    ensures WithFlag(flags, f, false) & ClearMask(f) == flags & ClearMask(f)
  {
  }

  /** After `setFlag(f, v)`, `getFlag(f)` is `v`. */
  lemma WithFlagReads(flags: bv32, f: Flag, value: bool)
    ensures FlagSet(WithFlag(flags, f, value), f) == value
  {
    if value {
      SetFlagSets(flags, f);
    } else {
      ClearFlagClears(flags, f);
    }
  }

  /** `setFlag(f, v)` leaves every other flag as it was, the masks being disjoint. */
  lemma WithFlagKeeps(flags: bv32, f: Flag, g: Flag, value: bool)
    requires f != g
    ensures FlagSet(WithFlag(flags, f, value), g) == FlagSet(flags, g)
  {
    MasksDisjoint(f, g);
  }

  /**
   * After `setFlag(f, v)`, `getFlag(f)` is `v`, every other bit of the
   * flags word is as before, and so every other flag is too.
   */
  lemma WithFlagSetsOnlyIt(flags: bv32, f: Flag, value: bool)
    ensures FlagSet(WithFlag(flags, f, value), f) == value
    ensures WithFlag(flags, f, value) & ClearMask(f) == flags & ClearMask(f)
    ensures forall g :: g != f ==> FlagSet(WithFlag(flags, f, value), g) == FlagSet(flags, g)
  {
    if value {
      SetFlagSets(flags, f);
    } else {
      ClearFlagClears(flags, f);
    }
    forall g | g != f
      ensures FlagSet(WithFlag(flags, f, value), g) == FlagSet(flags, g)
    {
      WithFlagKeeps(flags, f, g, value);
    }
  }

  /** The four `setFlag` calls of `add`, in order: CARRY, SIGN, ZERO, PARITY. */
  function SetArithmeticFlags(flags: bv32, carry: bool, sign: bool, zero: bool, parity: bool): bv32 {
    WithFlag(WithFlag(WithFlag(WithFlag(flags, Carry, carry), Sign, sign), Zero, zero), Parity, parity)
  }

  /** After the four calls each of the four flags holds its value. */
  lemma SetArithmeticFlagsReads(flags: bv32, carry: bool, sign: bool, zero: bool, parity: bool)
    ensures var r := SetArithmeticFlags(flags, carry, sign, zero, parity);
      FlagSet(r, Carry) == carry && FlagSet(r, Sign) == sign &&
      FlagSet(r, Zero) == zero && FlagSet(r, Parity) == parity
  {
    var c := WithFlag(flags, Carry, carry);
    var s := WithFlag(c, Sign, sign);
    var z := WithFlag(s, Zero, zero);
    WithFlagReads(z, Parity, parity);
    WithFlagReads(s, Zero, zero);
    WithFlagKeeps(z, Parity, Zero, parity);
    WithFlagReads(c, Sign, sign);
    WithFlagKeeps(s, Zero, Sign, zero);
    WithFlagKeeps(z, Parity, Sign, parity);
    WithFlagReads(flags, Carry, carry);
    WithFlagKeeps(c, Sign, Carry, sign);
    WithFlagKeeps(s, Zero, Carry, zero);
    WithFlagKeeps(z, Parity, Carry, parity);
  }

  /** The four calls leave the five other flags as they were. */
  lemma SetArithmeticFlagsKeeps(flags: bv32, carry: bool, sign: bool, zero: bool, parity: bool)
    ensures var r := SetArithmeticFlags(flags, carry, sign, zero, parity);
      FlagSet(r, AuxiliaryCarry) == FlagSet(flags, AuxiliaryCarry) &&
      FlagSet(r, Overflow) == FlagSet(flags, Overflow) &&
      FlagSet(r, InterruptEnable) == FlagSet(flags, InterruptEnable) &&
      FlagSet(r, Direction) == FlagSet(flags, Direction) &&
      FlagSet(r, Trap) == FlagSet(flags, Trap)
  {
    var c := WithFlag(flags, Carry, carry);
    var s := WithFlag(c, Sign, sign);
    var z := WithFlag(s, Zero, zero);
    WithFlagKeeps(flags, Carry, AuxiliaryCarry, carry);
    WithFlagKeeps(c, Sign, AuxiliaryCarry, sign);
    WithFlagKeeps(s, Zero, AuxiliaryCarry, zero);
    WithFlagKeeps(z, Parity, AuxiliaryCarry, parity);
    WithFlagKeeps(flags, Carry, Overflow, carry);
    WithFlagKeeps(c, Sign, Overflow, sign);
    WithFlagKeeps(s, Zero, Overflow, zero);
    WithFlagKeeps(z, Parity, Overflow, parity);
    WithFlagKeeps(flags, Carry, InterruptEnable, carry);
    WithFlagKeeps(c, Sign, InterruptEnable, sign);
    WithFlagKeeps(s, Zero, InterruptEnable, zero);
    WithFlagKeeps(z, Parity, InterruptEnable, parity);
    WithFlagKeeps(flags, Carry, Direction, carry);
    WithFlagKeeps(c, Sign, Direction, sign);
    WithFlagKeeps(s, Zero, Direction, zero);
    WithFlagKeeps(z, Parity, Direction, parity);
    WithFlagKeeps(flags, Carry, Trap, carry);
    WithFlagKeeps(c, Sign, Trap, sign);
    WithFlagKeeps(s, Zero, Trap, zero);
    WithFlagKeeps(z, Parity, Trap, parity);
  }
}
