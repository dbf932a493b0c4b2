/**
 * Properties of one `decode` call: which inputs are illegal, how many
 * bytes each addressing mode and immediate consumes, how flags route the
 * operands, and that
 * well-formed templates never index past a lookup table.
 */
module DecoderProperties {
  import opened Results
  import opened JavaLang
  import opened Registers
  import opened EffectiveAddresses
  import opened MemoryAddresses
  import opened Operations
  import opened Templates
  import opened TableCompiler
  import opened StreamDecoding

  // ---------------------------------------------------------------------
  // Illegal instructions

  /** A first byte that no line's first template matches is an illegal instruction. */
  lemma UnmatchedFirstByteIsIllegal(entries: seq<Entry>, order: seq<OpcodeFlag>, input: seq<bv8>, pos: nat)
    requires pos < |input|
    requires forall k :: 0 <= k < |entries| ==> !entries[k].opcode.Matches(input[pos])
    ensures DecodeAt(entries, order, input, pos) == Err(IllegalOpcode(input[pos]))
  {
    LastPrimaryIsLastMatch(entries, input[pos]);
  }

  /**
   * After a first byte whose line has a second template, a second byte
   * whose bits 5..3 select an entry no line filled is an illegal
   * instruction, reported with both bytes.
   */
  lemma {:induction false} UnmatchedSecondByteIsIllegal(entries: seq<Entry>, order: seq<OpcodeFlag>, input: seq<bv8>, pos: nat, o: OpcodeMatcher)
    requires pos + 1 < |input|
    requires LastPrimary(entries, input[pos]) == Some(o) && o.op.None? && FirstByte(o, input[pos], pos + 1).Ok?
    requires forall k :: 0 <= k < |entries| ==> !FillsSecondary(entries[k], input[pos], (input[pos + 1] >> 3) & 7)
    ensures DecodeAt(entries, order, input, pos) == Err(IllegalModRegRm(input[pos], input[pos + 1]))
  {
    var b1 := input[pos];
    assert ReadU8(input, pos) == Ok(Read(b1 as int, pos + 1));
    var first := FirstByte(o, b1, pos + 1).value;
    LastSecondaryIsLastMatch(entries, b1, (input[pos + 1] >> 3) & 7);
    assert SecondByte(entries, b1, input, first) == Err(IllegalModRegRm(b1, input[pos + 1]));
  }

  /** With no byte left, decoding ends with the end-of-input error, not an illegal instruction. */
  lemma NoByteIsEndOfInput(entries: seq<Entry>, order: seq<OpcodeFlag>, input: seq<bv8>, pos: nat)
    requires pos >= |input|
    ensures DecodeAt(entries, order, input, pos) == Err(EndOfInput)
  {
  }

  // ---------------------------------------------------------------------
  // Addressing modes

  /** Mode 3 names a register from the word or byte table by width, and consumes nothing. */
  lemma RegisterMode(rm: nat, isWide: bool, input: seq<bv8>, pos: nat)
    requires rm < 8
    ensures ModeOperand(3, rm, isWide, input, pos) ==
      Ok(Operand(Some(Reg(if isWide then WordRegisterTable[rm] else ByteRegisterTable[rm])), pos))
  {
  }

  /** Only mode 3 yields a register operand. */
  lemma OnlyModeThreeIsRegister(mode: nat, rm: nat, isWide: bool, input: seq<bv8>, pos: nat)
    requires ModeOperand(mode, rm, isWide, input, pos).Ok?
    ensures var a := ModeOperand(mode, rm, isWide, input, pos).value.rm;
      (a.Some? && a.value.Reg?) <==> mode == 3
    ensures ModeOperand(mode, rm, isWide, input, pos).value.rm.None? <==> mode > 3
  {
  }

  /** Mode 0 with rm 6 is a direct address: the next two bytes, low byte first. */
  lemma DirectMode(isWide: bool, input: seq<bv8>, pos: nat)
    ensures ModeOperand(0, 6, isWide, input, pos).Ok? <==> pos + 2 <= |input|
    ensures pos + 2 <= |input| ==>
      (ModeOperand(0, 6, isWide, input, pos) ==
       Ok(Operand(Some(Mem(MemoryAddress(Direct, input[pos] as int + 256 * input[pos + 1] as int))), pos + 2)))
  {
    ReadU16Consumes(input, pos);
  }

  /** Mode 0 with another rm is the base/index mode numbered rm, without displacement. */
  lemma NoDisplacementMode(rm: nat, isWide: bool, input: seq<bv8>, pos: nat)
    requires rm < 8 && rm != 6
    ensures ModeOperand(0, rm, isWide, input, pos) == Ok(Operand(Some(Mem(MemoryAddress(MemTable[rm], 0))), pos))
  {
  }

  /** Mode 1 adds one signed byte, in -128..127, to the mode numbered rm. */
  lemma ByteDisplacementMode(rm: nat, isWide: bool, input: seq<bv8>, pos: nat)
    requires rm < 8
    ensures ModeOperand(1, rm, isWide, input, pos).Ok? <==> pos + 1 <= |input|
    ensures pos + 1 <= |input| ==>
      var r := ModeOperand(1, rm, isWide, input, pos).value;
      var d := r.rm.value.memory.displacement;
      r.next == pos + 1 && r.rm.value.Mem? && r.rm.value.memory.mode == MemTable[rm] &&
      -128 <= d < 128 && (d - input[pos] as int) % 256 == 0
  {
    ReadS8Consumes(input, pos);
  }

  /** Mode 2 adds one unsigned word, in 0..65535, read low byte first, to the mode numbered rm. */
  lemma WordDisplacementMode(rm: nat, isWide: bool, input: seq<bv8>, pos: nat)
    requires rm < 8
    ensures ModeOperand(2, rm, isWide, input, pos).Ok? <==> pos + 2 <= |input|
    ensures pos + 2 <= |input| ==>
      var r := ModeOperand(2, rm, isWide, input, pos).value;
      r.next == pos + 2 &&
      r.rm == Some(Mem(MemoryAddress(MemTable[rm], input[pos] as int + 256 * input[pos + 1] as int))) &&
      0 <= r.rm.value.memory.displacement < 0x10000
  {
    ReadU16Consumes(input, pos);
  }

  // ---------------------------------------------------------------------
  // Immediates and operand routing

  /** DATAW reads a word when wide and a signed byte when narrow. */
  lemma DataWReads(sx: bool, input: seq<bv8>, st: Operands)
    ensures var p := st.pos; var r := FlagStep(DataW, sx, input, st);
      if st.isWide then
        (r.Ok? <==> p + 2 <= |input|) &&
        (r.Ok? ==> r.value.pos == p + 2 && r.value.immediate == input[p] as int + 256 * input[p + 1] as int)
      else
        (r.Ok? <==> p + 1 <= |input|) &&
        (r.Ok? ==> r.value.pos == p + 1 && r.value.immediate == SignedByte(input[p] as int))
  {
    ReadU16Consumes(input, st.pos);
  }

  /** DATAS reads a signed byte when wide with `s` set, a word when wide without it, and an unsigned byte when narrow. */
  lemma DataSReads(sx: bool, input: seq<bv8>, st: Operands)
    ensures var p := st.pos; var r := FlagStep(DataS, sx, input, st);
      if st.isWide && sx then
        (r.Ok? <==> p + 1 <= |input|) &&
        (r.Ok? ==> r.value.pos == p + 1 && r.value.immediate == SignedByte(input[p] as int))
      else if st.isWide then
        (r.Ok? <==> p + 2 <= |input|) &&
        (r.Ok? ==> r.value.pos == p + 2 && r.value.immediate == input[p] as int + 256 * input[p + 1] as int)
      else
        (r.Ok? <==> p + 1 <= |input|) &&
        (r.Ok? ==> r.value.pos == p + 1 && r.value.immediate == input[p] as int)
  {
    ReadU16Consumes(input, st.pos);
  }

  /** An immediate-reading flag overwrites the immediate: what it finds there does not matter. */
  lemma ImmediateOverwritten(f: OpcodeFlag, sx: bool, input: seq<bv8>, st: Operands, x: Int32)
    requires ReadsImmediate(f)
    ensures FlagStep(f, sx, input, st).Ok? == FlagStep(f, sx, input, st.(immediate := x)).Ok?
    ensures FlagStep(f, sx, input, st).Ok? ==>
      FlagStep(f, sx, input, st.(immediate := x)).value == FlagStep(f, sx, input, st).value
  {
  }

  /**
   * When several immediate-reading flags are applied, the last one decides
   * the immediate: the flags applied after constant `k` leave it as it was.
   */
  lemma {:induction false} LastImmediateWins(order: seq<OpcodeFlag>, n: nat, k: nat, flags: set<OpcodeFlag>, sx: bool, input: seq<bv8>, st: Operands)
    requires k < n <= |order|
    requires forall j :: k < j < n && order[j] in flags ==> !ReadsImmediate(order[j])
    requires ApplyFlags(order, n, flags, sx, input, st).Ok?
    ensures ApplyFlags(order, k + 1, flags, sx, input, st).Ok?
    ensures ApplyFlags(order, n, flags, sx, input, st).value.immediate == ApplyFlags(order, k + 1, flags, sx, input, st).value.immediate
  {
    if n > k + 1 {
      LastImmediateWins(order, n - 1, k, flags, sx, input, st);
    }
  }

  /**
   * TO_ACC and FROM_ACC put AX (wide) or AL into the empty register slot,
   * or else into the r/m slot, and set the direction to match.
   */
  lemma AccumulatorRouting(sx: bool, input: seq<bv8>, st: Operands)
    ensures var acc := if st.isWide then AX else AL;
      var to := FlagStep(ToAcc, sx, input, st).value;
      var from := FlagStep(FromAcc, sx, input, st).value;
      FlagStep(ToAcc, sx, input, st).Ok? && FlagStep(FromAcc, sx, input, st).Ok? &&
      to.pos == st.pos && from.pos == st.pos &&
      if st.reg.None? then
        to == st.(reg := Some(acc), isToReg := true) && from == st.(reg := Some(acc), isToReg := false)
      else
        to == st.(rm := Some(Reg(acc)), isToReg := false) && from == st.(rm := Some(Reg(acc)), isToReg := true)
  {
  }

  // ---------------------------------------------------------------------
  // Table bounds

  /** The first matcher's register field fits in 3 bits and its segment field in 2. */
  predicate OpcodeFieldsFit(o: OpcodeMatcher) {
    FieldFits(o.regMask, o.regShift, 3) && FieldFits(o.segMask, o.segShift, 2)
  }

  /** The second matcher's register and r/m fields fit in 3 bits, its segment field in 2. */
  predicate ModRegRmFieldsFit(m: ModRegRmMatcher) {
    FieldFits(m.regMask, m.regShift, 3) && FieldFits(m.segMask, m.segShift, 2) && FieldFits(m.rmMask, m.rmShift, 3)
  }

  /** Every field of a compiled line indexes inside its lookup table. */
  predicate EntryFits(e: Entry) {
    OpcodeFieldsFit(e.opcode) && (e.modRegRm.Some? ==> ModRegRmFieldsFit(e.modRegRm.value))
  }

  /** With fitting fields the first byte always yields its register or segment operand. */
  lemma FirstByteInRange(o: OpcodeMatcher, b1: bv8, pos: nat)
    requires OpcodeFieldsFit(o)
    ensures FirstByte(o, b1, pos).Ok?
  {
    FieldValueBelow(b1, o.regMask, o.regShift, 3);
    FieldValueBelow(b1, o.segMask, o.segShift, 2);
  }

  /** With fitting fields the second byte's register field never fails. */
  lemma SecondRegisterInRange(m: ModRegRmMatcher, b2: bv8, st: Operands)
    requires ModRegRmFieldsFit(m)
    ensures SecondRegister(m, b2, st).Ok?
  {
    FieldValueBelow(b2, m.regMask, m.regShift, 3);
    FieldValueBelow(b2, m.segMask, m.segShift, 2);
  }

  /** With rm below 8 the only way an addressing mode fails is by running out of input. */
  lemma ModeOperandOnlyEnds(mode: nat, rm: nat, isWide: bool, input: seq<bv8>, pos: nat)
    requires rm < 8
    ensures ModeOperand(mode, rm, isWide, input, pos).Err? ==> ModeOperand(mode, rm, isWide, input, pos).error == EndOfInput
  {
    ReadU16Consumes(input, pos);
    ReadS8Consumes(input, pos);
  }

  /** A flag case fails only by running out of input. */
  lemma FlagStepOnlyEnds(f: OpcodeFlag, sx: bool, input: seq<bv8>, st: Operands)
    ensures FlagStep(f, sx, input, st).Err? ==> FlagStep(f, sx, input, st).error == EndOfInput
  {
    ReadU8Consumes(input, st.pos);
    ReadS8Consumes(input, st.pos);
    ReadU16Consumes(input, st.pos);
    ReadS16Consumes(input, st.pos);
  }

  /** The whole flag loop fails only by running out of input. */
  lemma {:induction false} ApplyFlagsOnlyEnds(order: seq<OpcodeFlag>, n: nat, flags: set<OpcodeFlag>, sx: bool, input: seq<bv8>, st: Operands)
    requires n <= |order|
    ensures ApplyFlags(order, n, flags, sx, input, st).Err? ==> ApplyFlags(order, n, flags, sx, input, st).error == EndOfInput
  {
    if n > 0 {
      ApplyFlagsOnlyEnds(order, n - 1, flags, sx, input, st);
      var prev := ApplyFlags(order, n - 1, flags, sx, input, st);
      if prev.Ok? {
        FlagStepOnlyEnds(order[n - 1], sx, input, prev.value);
      }
    }
  }

  /** A second matcher whose fields fit fails only by running out of input. */
  lemma ModRegRmStageOnlyEnds(m: ModRegRmMatcher, b2: bv8, input: seq<bv8>, st: Operands)
    requires ModRegRmFieldsFit(m)
    ensures ModRegRmStage(m, b2, input, st).Err? ==> ModRegRmStage(m, b2, input, st).error == EndOfInput
  {
    var mode := FieldValue(b2, m.modMask, m.modShift);
    var rm := FieldValue(b2, m.rmMask, m.rmShift);
    SecondRegisterInRange(m, b2, st);
    FieldValueBelow(b2, m.rmMask, m.rmShift, 3);
    var regs := SecondRegister(m, b2, st).value;
    var operand := ModeOperand(mode, rm, regs.isWide, input, st.pos);
    ModeOperandOnlyEnds(mode, rm, regs.isWide, input, st.pos);
    if operand.Err? {
      assert ModRegRmStage(m, b2, input, st) == Err(operand.error);
    } else {
      assert ModRegRmStage(m, b2, input, st).Ok?;
    }
  }

  /** The second-byte stage of fitting entries fails only as an illegal instruction or by running out of input. */
  lemma SecondByteErrors(entries: seq<Entry>, b1: bv8, input: seq<bv8>, st: Operands)
    requires forall k :: 0 <= k < |entries| ==> EntryFits(entries[k])
    ensures SecondByte(entries, b1, input, st).Err? ==> !SecondByte(entries, b1, input, st).error.IndexOutOfRange?
  {
    if st.pos < |input| {
      var b2 := input[st.pos];
      var j := (b2 >> 3) & 7;
      LastSecondaryIsLastMatch(entries, b1, j);
      if LastSecondary(entries, b1, j).Some? {
        var k :| 0 <= k < |entries| && FillsSecondary(entries[k], b1, j) && LastSecondary(entries, b1, j) == entries[k].modRegRm &&
          forall k' :: k < k' < |entries| ==> !FillsSecondary(entries[k'], b1, j);
        assert EntryFits(entries[k]);
        ModRegRmStageOnlyEnds(entries[k].modRegRm.value, b2, input, st.(pos := st.pos + 1));
      }
    }
  }

  /**
   * When every compiled line's fields fit, `decode` never indexes past a
   * register, segment or address table: it fails only as an illegal
   * instruction or at the end of the input.
   */
  lemma {:induction false} FittingTablesStayInRange(entries: seq<Entry>, order: seq<OpcodeFlag>, input: seq<bv8>, pos: nat)
    requires forall k :: 0 <= k < |entries| ==> EntryFits(entries[k])
    ensures DecodeAt(entries, order, input, pos).Err? ==> !DecodeAt(entries, order, input, pos).error.IndexOutOfRange?
  {
    if pos < |input| {
      var b1 := input[pos];
      LastPrimaryIsLastMatch(entries, b1);
      if LastPrimary(entries, b1).Some? {
        var k :| 0 <= k < |entries| && entries[k].opcode.Matches(b1) && LastPrimary(entries, b1) == Some(entries[k].opcode) &&
          forall k' :: k < k' < |entries| ==> !entries[k'].opcode.Matches(b1);
        assert EntryFits(entries[k]);
        DecodeWithStaysInRange(entries, order, input, b1, entries[k].opcode, pos + 1);
      }
    }
  }

  /** The part of `decode` after the primary lookup, for a fitting first matcher. */
  lemma DecodeWithStaysInRange(entries: seq<Entry>, order: seq<OpcodeFlag>, input: seq<bv8>, b1: bv8, o: OpcodeMatcher, pos: nat)
    requires forall k :: 0 <= k < |entries| ==> EntryFits(entries[k])
    requires OpcodeFieldsFit(o)
    ensures DecodeWith(entries, order, input, b1, o, pos).Err? ==> !DecodeWith(entries, order, input, b1, o, pos).error.IndexOutOfRange?
  {
    OpcodeStageStaysInRange(entries, input, b1, o, pos);
    var staged := OpcodeStage(entries, input, b1, o, pos);
    if staged.Ok? {
      ApplyFlagsOnlyEnds(order, |order|, staged.value.op.flags, b1 & o.sMask != 0, input, staged.value.st);
    }
  }

  /** The opcode bytes of a fitting first matcher fail only as an illegal instruction or at the end of the input. */
  lemma OpcodeStageStaysInRange(entries: seq<Entry>, input: seq<bv8>, b1: bv8, o: OpcodeMatcher, pos: nat)
    requires forall k :: 0 <= k < |entries| ==> EntryFits(entries[k])
    requires OpcodeFieldsFit(o)
    ensures OpcodeStage(entries, input, b1, o, pos).Err? ==> !OpcodeStage(entries, input, b1, o, pos).error.IndexOutOfRange?
  {
    FirstByteInRange(o, b1, pos);
    if o.op.None? {
      SecondByteErrors(entries, b1, input, FirstByte(o, b1, pos).value);
    }
  }

  // ---------------------------------------------------------------------
  // Truncation and coverage

  /**
   * A first byte whose line has a second template, at the last position
   * of the stream, ends with the end-of-input error rather than an
   * illegal instruction.
   */
  lemma TruncatedSecondByte(entries: seq<Entry>, order: seq<OpcodeFlag>, input: seq<bv8>, pos: nat, o: OpcodeMatcher)
    requires pos + 1 == |input|
    requires LastPrimary(entries, input[pos]) == Some(o) && o.op.None? && FirstByte(o, input[pos], pos + 1).Ok?
    ensures DecodeAt(entries, order, input, pos) == Err(EndOfInput)
  {
  }

  /**
   * Every populated slot is covered: with fitting entries, a one-byte
   * stream whose byte some line matches either decodes or runs out of
   * input, and is never reported as an illegal instruction.
   */
  lemma CoverageCompleteness(entries: seq<Entry>, order: seq<OpcodeFlag>, b1: bv8)
    requires forall k :: 0 <= k < |entries| ==> EntryFits(entries[k])
    requires LastPrimary(entries, b1).Some?
    ensures DecodeAt(entries, order, [b1], 0).Ok? || DecodeAt(entries, order, [b1], 0).error == EndOfInput
  {
    var input := [b1];
    LastPrimaryIsLastMatch(entries, b1);
    var k :| 0 <= k < |entries| && entries[k].opcode.Matches(b1) && LastPrimary(entries, b1) == Some(entries[k].opcode) &&
      forall k' :: k < k' < |entries| ==> !entries[k'].opcode.Matches(b1);
    assert EntryFits(entries[k]);
    assert DecodeAt(entries, order, input, 0) == DecodeWith(entries, order, input, b1, entries[k].opcode, 1);
    OneByteAfterLookup(entries, order, b1, entries[k].opcode);
  }

  /** The rest of `decode` on a one-byte stream, once a fitting first matcher is selected. */
  lemma OneByteAfterLookup(entries: seq<Entry>, order: seq<OpcodeFlag>, b1: bv8, o: OpcodeMatcher)
    requires OpcodeFieldsFit(o)
    ensures DecodeWith(entries, order, [b1], b1, o, 1).Ok? || DecodeWith(entries, order, [b1], b1, o, 1).error == EndOfInput
  {
    var input := [b1];
    FirstByteInRange(o, b1, 1);
    var first := FirstByte(o, b1, 1).value;
    if o.op.None? {
      assert SecondByte(entries, b1, input, first) == Err(EndOfInput);
    } else {
      assert OpcodeStage(entries, input, b1, o, 1) == Ok(Stage(o.op.value, first));
      ApplyFlagsOnlyEnds(order, |order|, o.op.value.flags, b1 & o.sMask != 0, input, first);
    }
  }
}
