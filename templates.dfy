/**
 * Bit templates and the matchers compiled from them. A template is eight
 * characters, most significant bit first: `0` and `1` are fixed bits, and
 * each other letter marks one bit of a named field (`d`, `w`, `s`, `v`,
 * `z` single bits; `r` register, `g` segment register, `m` mode, `n`
 * register-or-memory). Compiling collects, per position, the bit
 * `0x80 >> i` into the fixed mask and value or into the field's mask; a
 * multi-bit field's shift is set each time one of its characters is met,
 * so it ends as `7 - i` for the field's last (rightmost) character.
 */
module Templates {
  import opened Results
  import opened Operations

  /** A template after whitespace removal: exactly eight characters. */
  type Template = t: string | |t| == 8 witness "00000000"

  /** A shift recorded by the compiler, `7 - i` for a position `i`, or 0. */
  type Shift = s: nat | s < 8

  /** The bit of template position `i`, `0x80 >> i` (position 0 is the most significant bit). */
  function Bit(i: nat): bv8
    requires i < 8
  {
    [0x80, 0x40, 0x20, 0x10, 0x08, 0x04, 0x02, 0x01][i]
  }

  /** The table is `0x80 >> i`, so the loops' `bit >>= 1` walks it position by position. */
  lemma BitIsShift(i: nat)
    requires i < 8
    ensures Bit(i) == (0x80 as bv8) >> i
    ensures i < 7 ==> Bit(i + 1) == Bit(i) >> 1
  {
  }

  /** Position `i`'s bit is set in `x`. */
  predicate HasPosition(x: bv8, i: nat)
    requires i < 8
  {
    x & Bit(i) != 0
  }

  // ---------------------------------------------------------------------
  // What the per-character loops accumulate, after the first n characters

  /** `mask |= bit` for every position before `n` holding `c`. */
  function MaskOf(t: Template, n: nat, c: char): bv8
    requires n <= 8
  {
    if n == 0 then 0 else MaskOf(t, n - 1, c) | (if t[n - 1] == c then Bit(n - 1) else 0)
  }

  /** `mask = bit` for every position before `n` holding `c`: the last one's bit, or 0. */
  function LastBit(t: Template, n: nat, c: char): bv8
    requires n <= 8
  {
    if n == 0 then 0 else if t[n - 1] == c then Bit(n - 1) else LastBit(t, n - 1, c)
  }

  /** `shift = 7 - i` for every position before `n` holding `c`, starting from `init`. */
  function LastShift(t: Template, n: nat, c: char, init: Shift): Shift
    requires n <= 8
  {
    if n == 0 then init else if t[n - 1] == c then 7 - (n - 1) else LastShift(t, n - 1, c, init)
  }

  /** The fixed mask as the loop accumulates it: `mask |= bit` at every `0` or `1` before `n`. */
  function FixedMaskUpTo(t: Template, n: nat): bv8
    requires n <= 8
  {
    if n == 0 then 0 else FixedMaskUpTo(t, n - 1) | (if t[n - 1] == '0' || t[n - 1] == '1' then Bit(n - 1) else 0)
  }

  /** `mask |= bit` at every position before `n` holding `c`, starting from `init`. */
  function MaskFrom(t: Template, n: nat, c: char, init: bv8): bv8
    requires n <= 8
  {
    if n == 0 then init else MaskFrom(t, n - 1, c, init) | (if t[n - 1] == c then Bit(n - 1) else 0)
  }

  /** The fixed mask: positions holding `0` or `1`. */
  function FixedMask(t: Template): bv8 {
    MaskOf(t, 8, '0') | MaskOf(t, 8, '1')
  }

  /** The fixed value: positions holding `1`. */
  function FixedValue(t: Template): bv8 {
    MaskOf(t, 8, '1')
  }

  // ---------------------------------------------------------------------
  // Matchers

  /** Compiled from the first-byte template of a table line. */
  datatype OpcodeMatcher = OpcodeMatcher(
    fixedMask: bv8, fixedValue: bv8,
    dMask: bv8, wMask: bv8, sMask: bv8, vMask: bv8, zMask: bv8,
    segMask: bv8, segShift: Shift,
    regMask: bv8, regShift: Shift,
    op: Option<Op>)
  {
    /** `matches(byteValue)`: the byte agrees with the fixed bits. */
    predicate Matches(b: bv8) {
      b & fixedMask == fixedValue
    }
  }

  /** Compiled from the second-byte (mod/reg/rm) template of a table line. */
  datatype ModRegRmMatcher = ModRegRmMatcher(
    fixedMask: bv8, fixedValue: bv8,
    modMask: bv8, modShift: Shift,
    rmMask: bv8, rmShift: Shift,
    regMask: bv8, regShift: Shift,
    segMask: bv8, segShift: Shift,
    op: Op)
  {
    /** `matches(byteValue)`: the byte agrees with the fixed bits. */
    predicate Matches(b: bv8) {
      b & fixedMask == fixedValue
    }

    /** `matchesReg(reg)`: the byte whose bits 5..3 are `reg` and whose other bits are 0 agrees with the fixed bits. */
    predicate MatchesReg(reg: bv8) {
      (reg << 3) & fixedMask == fixedValue
    }
  }

  /**
   * The first-byte loop of the compiler: fixed bits, the single-bit fields
   * d/w/s/v/z, and the segment and register fields. The matcher carries
   * `op` only when the line has no second template (`op` is then null).
   */
  function OpcodeMatcherOf(t: Template, op: Option<Op>): OpcodeMatcher
  {
    OpcodeMatcher(
      FixedMask(t), FixedValue(t),
      LastBit(t, 8, 'd'), LastBit(t, 8, 'w'), LastBit(t, 8, 's'), LastBit(t, 8, 'v'), LastBit(t, 8, 'z'),
      MaskOf(t, 8, 'g'), LastShift(t, 8, 'g', 0),
      MaskOf(t, 8, 'r'), LastShift(t, 8, 'r', 0),
      op)
  }

  /**
   * The second-byte loop. The register and segment mask and shift are the
   * same local variables the first loop filled: this loop ORs into the
   * masks and overwrites the shifts only where its own template has `r` or
   * `g`, so the second matcher keeps whatever the first template put there.
   */
  function ModRegRmMatcherOf(t: Template, regMask: bv8, regShift: Shift, segMask: bv8, segShift: Shift, op: Op): ModRegRmMatcher
  {
    ModRegRmMatcher(
      FixedMask(t), FixedValue(t),
      MaskOf(t, 8, 'm'), LastShift(t, 8, 'm', 0),
      MaskOf(t, 8, 'n'), LastShift(t, 8, 'n', 0),
      regMask | MaskOf(t, 8, 'r'), LastShift(t, 8, 'r', regShift),
      segMask | MaskOf(t, 8, 'g'), LastShift(t, 8, 'g', segShift),
      op)
  }

  /** Accumulating both fixed letters at once gives the two masks ORed. */
  lemma {:induction false} FixedMaskUpToIsFixedMask(t: Template, n: nat)
    requires n <= 8
    ensures FixedMaskUpTo(t, n) == MaskOf(t, n, '0') | MaskOf(t, n, '1')
  {
    if n > 0 {
      FixedMaskUpToIsFixedMask(t, n - 1);
    }
  }

  /** Accumulating from `init` gives `init` ORed with the letter's mask. */
  lemma {:induction false} MaskFromIsOr(t: Template, n: nat, c: char, init: bv8)
    requires n <= 8
    ensures MaskFrom(t, n, c, init) == init | MaskOf(t, n, c)
  {
    if n > 0 {
      MaskFromIsOr(t, n - 1, c, init);
    }
  }

  // One character of the compiler's per-character loops, stated on the
  // values of an accumulator before and after it

  lemma NextBit(i: nat, bit: bv8)
    requires i < 8 && bit == Bit(i)
    ensures i + 1 < 8 ==> bit >> 1 == Bit(i + 1)
  {
    BitIsShift(i);
  }

  lemma FixedAdvance(t: Template, i: nat, bit: bv8, prev: bv8, next: bv8)
    requires i < 8 && bit == Bit(i) && prev == FixedMaskUpTo(t, i)
    requires next == if t[i] == '0' || t[i] == '1' then prev | bit else prev
    ensures next == FixedMaskUpTo(t, i + 1)
  {
  }

  lemma MaskAdvance(t: Template, i: nat, c: char, bit: bv8, prev: bv8, next: bv8)
    requires i < 8 && bit == Bit(i) && prev == MaskOf(t, i, c)
    requires next == if t[i] == c then prev | bit else prev
    ensures next == MaskOf(t, i + 1, c)
  {
  }

  lemma MaskFromAdvance(t: Template, i: nat, c: char, bit: bv8, init: bv8, prev: bv8, next: bv8)
    requires i < 8 && bit == Bit(i) && prev == MaskFrom(t, i, c, init)
    requires next == if t[i] == c then prev | bit else prev
    ensures next == MaskFrom(t, i + 1, c, init)
  {
  }

  lemma LastBitAdvance(t: Template, i: nat, c: char, bit: bv8, prev: bv8, next: bv8)
    requires i < 8 && bit == Bit(i) && prev == LastBit(t, i, c)
    requires next == if t[i] == c then bit else prev
    ensures next == LastBit(t, i + 1, c)
  {
  }

  lemma ShiftAdvance(t: Template, i: nat, c: char, init: Shift, prev: Shift, next: Shift)
    requires i < 8 && prev == LastShift(t, i, c, init)
    requires next == if t[i] == c then 7 - i else prev
    ensures next == LastShift(t, i + 1, c, init)
  {
  }

  // ---------------------------------------------------------------------
  // Bit-level facts

  lemma BitsDistinct(i: nat, k: nat)
    requires i < 8 && k < 8
    ensures HasPosition(Bit(i), k) <==> i == k
  {
  }

  /** Two bytes are equal when they agree at every position. */
  lemma BytesEqual(x: bv8, y: bv8)
    requires forall p :: 0 <= p < 8 ==> HasPosition(x, p) == HasPosition(y, p)
    ensures x == y
  {
    assert HasPosition(x, 0) == HasPosition(y, 0);
    assert HasPosition(x, 1) == HasPosition(y, 1);
    assert HasPosition(x, 2) == HasPosition(y, 2);
    assert HasPosition(x, 3) == HasPosition(y, 3);
    assert HasPosition(x, 4) == HasPosition(y, 4);
    assert HasPosition(x, 5) == HasPosition(y, 5);
    assert HasPosition(x, 6) == HasPosition(y, 6);
    assert HasPosition(x, 7) == HasPosition(y, 7);
  }

  lemma AndPosition(x: bv8, y: bv8, p: nat)
    requires p < 8
    ensures HasPosition(x & y, p) == (HasPosition(x, p) && HasPosition(y, p))
  {
  }

  lemma OrPosition(x: bv8, y: bv8, p: nat)
    requires p < 8
    ensures HasPosition(x | y, p) == (HasPosition(x, p) || HasPosition(y, p))
  {
  }

  /** Position `k` of a field's mask is set exactly when the template holds the field's letter there. */
  lemma {:induction false} MaskOfPosition(t: Template, n: nat, c: char, k: nat)
    requires n <= 8 && k < 8
    ensures HasPosition(MaskOf(t, n, c), k) <==> (k < n && t[k] == c)
  {
    if n > 0 {
      MaskOfPosition(t, n - 1, c, k);
      MaskOfStep(t, n, c, k);
    }
  }

  lemma MaskOfStep(t: Template, n: nat, c: char, k: nat)
    requires 0 < n <= 8 && k < 8
    ensures HasPosition(MaskOf(t, n, c), k) <==> HasPosition(MaskOf(t, n - 1, c), k) || (t[n - 1] == c && n - 1 == k)
  {
    MaskStep(MaskOf(t, n - 1, c), t[n - 1] == c, n - 1, k);
  }

  /** One step of `mask |= bit`: position `k` is set afterwards when it was before or the step's bit is `k`. */
  lemma MaskStep(prev: bv8, hit: bool, i: nat, k: nat)
    requires i < 8 && k < 8
    ensures HasPosition(prev | (if hit then Bit(i) else 0), k) <==> HasPosition(prev, k) || (hit && i == k)
  {
    var bit: bv8 := if hit then Bit(i) else 0;
    OrPosition(prev, bit, k);
    if hit {
      BitsDistinct(i, k);
    } else {
      ZeroHasNoPosition(k);
    }
  }

  lemma ZeroHasNoPosition(k: nat)
    requires k < 8
    ensures !HasPosition(0, k)
  {
  }

  // ---------------------------------------------------------------------
  // Properties of compiled templates

  /** The byte agrees with every `0` and `1` of the template. */
  ghost predicate AgreesWith(t: Template, b: bv8) {
    forall p :: 0 <= p < 8 ==>
      (t[p] == '0' ==> !HasPosition(b, p)) && (t[p] == '1' ==> HasPosition(b, p))
  }

  /** A byte passes the fixed-bit test exactly when it agrees with every fixed position. */
  lemma FixedBitsMatchExactly(t: Template, b: bv8)
    ensures (b & FixedMask(t) == FixedValue(t)) <==> AgreesWith(t, b)
  {
    forall p | 0 <= p < 8
      ensures HasPosition(FixedMask(t), p) == (t[p] == '0' || t[p] == '1')
      ensures HasPosition(FixedValue(t), p) == (t[p] == '1')
    {
      MaskOfPosition(t, 8, '0', p);
      MaskOfPosition(t, 8, '1', p);
      OrPosition(MaskOf(t, 8, '0'), MaskOf(t, 8, '1'), p);
    }
    MatchByPositions(t, b, FixedMask(t), FixedValue(t));
  }

  lemma MatchByPositions(t: Template, b: bv8, mask: bv8, value: bv8)
    requires forall p :: 0 <= p < 8 ==> HasPosition(mask, p) == (t[p] == '0' || t[p] == '1')
    requires forall p :: 0 <= p < 8 ==> HasPosition(value, p) == (t[p] == '1')
    ensures (b & mask == value) <==> AgreesWith(t, b)
  {
    forall p | 0 <= p < 8
      ensures HasPosition(b & mask, p) == (HasPosition(b, p) && HasPosition(mask, p))
    {
      AndPosition(b, mask, p);
    }
    if AgreesWith(t, b) {
      BytesEqual(b & mask, value);
    }
  }

  /** The fixed value lies inside the fixed mask, so some byte (the value itself) matches. */
  lemma FixedValueMatches(t: Template)
    ensures FixedValue(t) & FixedMask(t) == FixedValue(t)
    ensures AgreesWith(t, FixedValue(t))
  {
    forall p | 0 <= p < 8
      ensures HasPosition(FixedValue(t), p) == (t[p] == '1')
    {
      MaskOfPosition(t, 8, '1', p);
    }
    FixedBitsMatchExactly(t, FixedValue(t));
  }

  /** `OpcodeMatcher.matches(b)` holds exactly when `b` agrees with the first template's fixed bits. */
  lemma OpcodeMatchesExactly(t: Template, op: Option<Op>, b: bv8)
    ensures OpcodeMatcherOf(t, op).Matches(b) <==> AgreesWith(t, b)
  {
    FixedBitsMatchExactly(t, b);
  }

  /** `ModRegRmMatcher.matches(b)` holds exactly when `b` agrees with the second template's fixed bits. */
  lemma ModRegRmMatchesExactly(t: Template, rm: bv8, rs: Shift, sm: bv8, ss: Shift, op: Op, b: bv8)
    ensures ModRegRmMatcherOf(t, rm, rs, sm, ss, op).Matches(b) <==> AgreesWith(t, b)
  {
    var m := ModRegRmMatcherOf(t, rm, rs, sm, ss, op);
    assert m.fixedMask == FixedMask(t) && m.fixedValue == FixedValue(t);
    SecondMatcherMatches(t, m, b);
  }

  lemma FixedBitsMatch(t: Template, mask: bv8, value: bv8, b: bv8)
    requires mask == FixedMask(t) && value == FixedValue(t)
    ensures (b & mask == value) <==> AgreesWith(t, b)
  {
    FixedBitsMatchExactly(t, b);
  }

  lemma SecondMatcherMatches(t: Template, m: ModRegRmMatcher, b: bv8)
    requires m.fixedMask == FixedMask(t) && m.fixedValue == FixedValue(t)
    ensures m.Matches(b) <==> AgreesWith(t, b)
  {
    FixedBitsMatch(t, m.fixedMask, m.fixedValue, b);
  }

  /**
   * `ModRegRmMatcher.matchesReg(j)` holds exactly when the byte `j << 3`
   * agrees with the second template's fixed bits.
   */
  lemma MatchesRegExactly(t: Template, rm: bv8, rs: Shift, sm: bv8, ss: Shift, op: Op, j: bv8)
    ensures ModRegRmMatcherOf(t, rm, rs, sm, ss, op).MatchesReg(j) <==> AgreesWith(t, j << 3)
  {
    var m := ModRegRmMatcherOf(t, rm, rs, sm, ss, op);
    assert m.fixedMask == FixedMask(t) && m.fixedValue == FixedValue(t);
    FixedBitsMatchExactly(t, j << 3);
  }

  /** Different letters compile to masks without a common bit. */
  lemma FieldMasksDisjoint(t: Template, c: char, e: char)
    requires c != e
    ensures MaskOf(t, 8, c) & MaskOf(t, 8, e) == 0
  {
    forall p | 0 <= p < 8
      ensures HasPosition(MaskOf(t, 8, c) & MaskOf(t, 8, e), p) == HasPosition(0, p)
    {
      MaskOfPosition(t, 8, c, p);
      MaskOfPosition(t, 8, e, p);
      AndPosition(MaskOf(t, 8, c), MaskOf(t, 8, e), p);
    }
    BytesEqual(MaskOf(t, 8, c) & MaskOf(t, 8, e), 0);
  }

  /**
   * A field's shift is `7 - i` for the rightmost position `i` holding its
   * letter, and the starting value when the letter does not occur.
   */
  lemma {:induction false} LastShiftIsRightmost(t: Template, n: nat, c: char, init: Shift)
    requires n <= 8
    ensures (forall p :: 0 <= p < n ==> t[p] != c) ==> LastShift(t, n, c, init) == init
    ensures (exists p :: 0 <= p < n && t[p] == c) ==>
      var i := 7 - LastShift(t, n, c, init);
      i < n && t[i] == c && forall p :: i < p < n ==> t[p] != c
  {
    if n > 0 {
      LastShiftIsRightmost(t, n - 1, c, init);
    }
  }

  /**
   * A field whose `width` (at most 3) letters occupy positions lo..lo+width-1
   * and nowhere else: its mask holds just those bits, so once shifted its
   * value is below `2^width`.
   */
  predicate FieldFits(mask: bv8, shift: Shift, width: nat)
    requires width <= 3
  {
    (mask >> shift) < ((1 as bv8) << width)
  }

  /** `(b & mask) >> shift` of a field that fits in `width` bits is below `2^width`. */
  lemma FieldValueBelow(b: bv8, mask: bv8, shift: Shift, width: nat)
    requires width <= 3 && FieldFits(mask, shift, width)
    ensures ((b & mask) >> shift) as int < [1, 2, 4, 8][width]
  {
    var s: bv8 := shift as bv8;
    var w: bv8 := width as bv8;
    assert (mask >> shift) == (mask >> s);
    assert ((b & mask) >> shift) == ((b & mask) >> s);
    assert ((1 as bv8) << width) == ((1 as bv8) << w);
    BvFieldBelow(b, mask, s, w);
  }

  lemma BvFieldBelow(b: bv8, mask: bv8, s: bv8, w: bv8)
    requires s < 8 && w <= 3 && (mask >> s) < ((1 as bv8) << w)
    ensures ((b & mask) >> s) < ((1 as bv8) << w)
    ensures ((1 as bv8) << w) as int == [1, 2, 4, 8][w]
  {
  }

  /** The letter `c` fills exactly positions lo..lo+width-1 of the template. */
  ghost predicate ContiguousField(t: Template, c: char, lo: nat, width: nat) {
    lo + width <= 8 &&
    forall p :: 0 <= p < 8 ==> (t[p] == c <==> lo <= p < lo + width)
  }

  /**
   * A contiguous field of at most three letters compiles to a mask and a
   * shift (`7` minus its last position) that select a value below
   * `2^width`: a 3-bit register field indexes an 8-entry table, a 2-bit
   * segment field a 4-entry one.
   */
  lemma ContiguousFieldFits(t: Template, c: char, lo: nat, width: nat, init: Shift)
    requires 1 <= width <= 3 && ContiguousField(t, c, lo, width)
    ensures LastShift(t, 8, c, init) == 8 - lo - width
    ensures FieldFits(MaskOf(t, 8, c), LastShift(t, 8, c, init), width)
  {
    LastShiftIsRightmost(t, 8, c, init);
    assert t[lo + width - 1] == c;
    var i := 7 - LastShift(t, 8, c, init);
    assert lo <= i < lo + width;
    forall p | 0 <= p < 8
      ensures HasPosition(MaskOf(t, 8, c), p) == (lo <= p < lo + width)
    {
      MaskOfPosition(t, 8, c, p);
    }
    RunFits(MaskOf(t, 8, c), lo, width);
  }

  lemma RunFits(mask: bv8, lo: nat, width: nat)
    requires 1 <= width <= 3 && lo + width <= 8
    requires forall p :: 0 <= p < 8 ==> HasPosition(mask, p) == (lo <= p < lo + width)
    ensures FieldFits(mask, 8 - lo - width, width)
  {
    assert HasPosition(mask, 0) == (lo <= 0 < lo + width);
    assert HasPosition(mask, 1) == (lo <= 1 < lo + width);
    assert HasPosition(mask, 2) == (lo <= 2 < lo + width);
    assert HasPosition(mask, 3) == (lo <= 3 < lo + width);
    assert HasPosition(mask, 4) == (lo <= 4 < lo + width);
    assert HasPosition(mask, 5) == (lo <= 5 < lo + width);
    assert HasPosition(mask, 6) == (lo <= 6 < lo + width);
    assert HasPosition(mask, 7) == (lo <= 7 < lo + width);
  }

  /** A letter that does not occur contributes no bit. */
  lemma AbsentLetterMask(t: Template, c: char)
    requires forall p :: 0 <= p < 8 ==> t[p] != c
    ensures MaskOf(t, 8, c) == 0
  {
    forall p | 0 <= p < 8
      ensures HasPosition(MaskOf(t, 8, c), p) == HasPosition(0, p)
    {
      MaskOfPosition(t, 8, c, p);
      ZeroHasNoPosition(p);
    }
    BytesEqual(MaskOf(t, 8, c), 0);
  }
}
