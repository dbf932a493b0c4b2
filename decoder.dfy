/**
 * The decoder as the program runs it: an object holding the primary and
 * secondary tables, filled in place line by line by the table compiler,
 * and a `decode` that advances an input cursor and writes the decoded
 * instruction into a mutable decode state. Each method is proved against
 * the value-level definitions of the table compiler and stream decoder.
 */
module Decoding {
  import opened Results
  import opened JavaLang
  import opened Registers
  import opened EffectiveAddresses
  import opened MemoryAddresses
  import opened Operations
  import opened Templates
  import opened TableCompiler
  import opened StreamDecoding

  /** The fields `decode` assigns; its other fields are not part of this model. */
  class DecodeState {
    var opcode: Option<Opcode>
    var isToReg: bool
    var isWide: bool
    var isRotateCL: bool
    var isWhileZero: bool
    var reg: Option<Register>
    var rm: Option<Address>
    var immediate: Int32

    constructor ()
      ensures Record() == Decoded(None, false, false, false, false, None, None, 0)
    {
      opcode, isToReg, isWide, isRotateCL, isWhileZero := None, false, false, false, false;
      reg, rm, immediate := None, None, 0;
    }

    /** The fields as one value. */
    function Record(): Decoded
      reads this
    {
      Decoded(opcode, isToReg, isWide, isRotateCL, isWhileZero, reg, rm, immediate)
    }

    /** The assignments that end `decode`: every field takes its value from `rec`. */
    method Store(rec: Decoded)
      modifies this
      ensures Record() == rec
    {
      opcode, isToReg, isWide, isRotateCL, isWhileZero := rec.opcode, rec.isToReg, rec.isWide, rec.isRotateCL, rec.isWhileZero;
      reg, rm, immediate := rec.reg, rec.rm, rec.immediate;
    }
  }

  // ---------------------------------------------------------------------
  // The table compiler's loops

  /**
   * The flag loop: each constant, in declaration order, whose name occurs
   * in the upper-cased remainder is collected and its name deleted; text
   * left over refuses the line.
   */
  method CollectFlags(order: seq<OpcodeFlag>, rest: string) returns (r: Result<set<OpcodeFlag>, TableError>)
    ensures r == ParseFlags(order, rest)
  {
    var flagsString := ToUpper(rest);
    var flags: set<OpcodeFlag> := {};
    for k := 0 to |order|
      invariant ScanFlags(order, ToUpper(rest), k) == FlagScan(flags, flagsString)
    {
      var name := Name(order[k]);
      if Contains(flagsString, name) {
        flags := flags + {order[k]};
        flagsString := DeleteAll(flagsString, name);
      }
    }
    if flagsString != "" {
      return Err(UnhandledFlags(rest));
    }
    return Ok(flags);
  }

  /**
   * The field-letter rewrites and the per-character loops of one pattern
   * line. The second loop ORs into the same register and segment locals
   * as the first.
   */
  method Compile(first: Template, second: Option<Template>, op: Op) returns (e: Entry)
    ensures e == CompileEntry(first, second, op)
  {
    var opcodeMatcher := CompileOpcodeByte(RewriteOpcodeByte(first), if second.None? then Some(op) else None);
    if second.None? {
      return Entry(opcodeMatcher, None);
    }
    var modRegRmMatcher := CompileModRegRmByte(RewriteModRegRmByte(second.value),
      opcodeMatcher.regMask, opcodeMatcher.regShift, opcodeMatcher.segMask, opcodeMatcher.segShift, op);
    return Entry(opcodeMatcher, Some(modRegRmMatcher));
  }

  /** The first-byte loop, `bit` walking from `0x80` down one position per character. */
  method CompileOpcodeByte(opcodeByte: Template, op: Option<Op>) returns (m: OpcodeMatcher)
    ensures m == OpcodeMatcherOf(opcodeByte, op)
  {
    var opcodeMask, opcodeValue, dMask, wMask, sMask, vMask, zMask: bv8 := 0, 0, 0, 0, 0, 0, 0;
    var segMask, regMask: bv8 := 0, 0;
    var segShift, regShift: Shift := 0, 0;
    var bit: bv8 := 0x80;
    var i: nat := 0;
    while i < 8
      invariant i <= 8 && (i < 8 ==> bit == Bit(i))
      invariant opcodeMask == FixedMaskUpTo(opcodeByte, i)
      invariant opcodeValue == MaskOf(opcodeByte, i, '1')
      invariant dMask == LastBit(opcodeByte, i, 'd') && wMask == LastBit(opcodeByte, i, 'w')
      invariant sMask == LastBit(opcodeByte, i, 's') && vMask == LastBit(opcodeByte, i, 'v')
      invariant zMask == LastBit(opcodeByte, i, 'z')
      invariant segMask == MaskOf(opcodeByte, i, 'g') && segShift == LastShift(opcodeByte, i, 'g', 0)
      invariant regMask == MaskOf(opcodeByte, i, 'r') && regShift == LastShift(opcodeByte, i, 'r', 0)
    {
      var c := opcodeByte[i];
      ghost var fixed0, value0, d0, w0, s0, v0, z0 := opcodeMask, opcodeValue, dMask, wMask, sMask, vMask, zMask;
      ghost var seg0, segShift0, reg0, regShift0 := segMask, segShift, regMask, regShift;
      if c == '0' {
        opcodeMask := opcodeMask | bit;
      } else if c == '1' {
        opcodeMask := opcodeMask | bit;
        opcodeValue := opcodeValue | bit;
      } else if c == 'w' {
        wMask := bit;
      } else if c == 'd' {
        dMask := bit;
      } else if c == 's' {
        sMask := bit;
      } else if c == 'v' {
        vMask := bit;
      } else if c == 'z' {
        zMask := bit;
      } else if c == 'g' {
        segMask := segMask | bit;
        segShift := 7 - i;
      } else if c == 'r' {
        regMask := regMask | bit;
        regShift := 7 - i;
      }
      FixedAdvance(opcodeByte, i, bit, fixed0, opcodeMask);
      MaskAdvance(opcodeByte, i, '1', bit, value0, opcodeValue);
      LastBitAdvance(opcodeByte, i, 'd', bit, d0, dMask);
      LastBitAdvance(opcodeByte, i, 'w', bit, w0, wMask);
      LastBitAdvance(opcodeByte, i, 's', bit, s0, sMask);
      LastBitAdvance(opcodeByte, i, 'v', bit, v0, vMask);
      LastBitAdvance(opcodeByte, i, 'z', bit, z0, zMask);
      MaskAdvance(opcodeByte, i, 'g', bit, seg0, segMask);
      ShiftAdvance(opcodeByte, i, 'g', 0, segShift0, segShift);
      MaskAdvance(opcodeByte, i, 'r', bit, reg0, regMask);
      ShiftAdvance(opcodeByte, i, 'r', 0, regShift0, regShift);
      NextBit(i, bit);
      bit := bit >> 1;
      i := i + 1;
    }
    FixedMaskUpToIsFixedMask(opcodeByte, 8);
    return OpcodeMatcher(opcodeMask, opcodeValue, dMask, wMask, sMask, vMask, zMask,
      segMask, segShift, regMask, regShift, op);
  }

  /**
   * The second-byte loop, starting from the register and segment masks
   * and shifts the first loop left behind.
   */
  method CompileModRegRmByte(modRegRmByte: Template, regMask0: bv8, regShift0: Shift, segMask0: bv8, segShift0: Shift, op: Op)
    returns (m: ModRegRmMatcher)
    ensures m == ModRegRmMatcherOf(modRegRmByte, regMask0, regShift0, segMask0, segShift0, op)
  {
    var modRegRmMask, modRegRmValue, modMask, rmMask: bv8 := 0, 0, 0, 0;
    var modShift, rmShift: Shift := 0, 0;
    var regMask, regShift, segMask, segShift := regMask0, regShift0, segMask0, segShift0;
    var bit: bv8 := 0x80;
    var i: nat := 0;
    while i < 8
      invariant i <= 8 && (i < 8 ==> bit == Bit(i))
      invariant modRegRmMask == FixedMaskUpTo(modRegRmByte, i)
      invariant modRegRmValue == MaskOf(modRegRmByte, i, '1')
      invariant modMask == MaskOf(modRegRmByte, i, 'm') && modShift == LastShift(modRegRmByte, i, 'm', 0)
      invariant rmMask == MaskOf(modRegRmByte, i, 'n') && rmShift == LastShift(modRegRmByte, i, 'n', 0)
      invariant segMask == MaskFrom(modRegRmByte, i, 'g', segMask0) && segShift == LastShift(modRegRmByte, i, 'g', segShift0)
      invariant regMask == MaskFrom(modRegRmByte, i, 'r', regMask0) && regShift == LastShift(modRegRmByte, i, 'r', regShift0)
    {
      var c := modRegRmByte[i];
      ghost var fixed0, value0, mod0, modShift0, rm0, rmShift0 := modRegRmMask, modRegRmValue, modMask, modShift, rmMask, rmShift;
      ghost var seg0, segShiftBefore, reg0, regShiftBefore := segMask, segShift, regMask, regShift;
      if c == '0' {
        modRegRmMask := modRegRmMask | bit;
      } else if c == '1' {
        modRegRmMask := modRegRmMask | bit;
        modRegRmValue := modRegRmValue | bit;
      } else if c == 'm' {
        modMask := modMask | bit;
        modShift := 7 - i;
      } else if c == 'n' {
        rmMask := rmMask | bit;
        rmShift := 7 - i;
      } else if c == 'g' {
        segMask := segMask | bit;
        segShift := 7 - i;
      } else if c == 'r' {
        regMask := regMask | bit;
        regShift := 7 - i;
      }
      FixedAdvance(modRegRmByte, i, bit, fixed0, modRegRmMask);
      MaskAdvance(modRegRmByte, i, '1', bit, value0, modRegRmValue);
      MaskAdvance(modRegRmByte, i, 'm', bit, mod0, modMask);
      ShiftAdvance(modRegRmByte, i, 'm', 0, modShift0, modShift);
      MaskAdvance(modRegRmByte, i, 'n', bit, rm0, rmMask);
      ShiftAdvance(modRegRmByte, i, 'n', 0, rmShift0, rmShift);
      MaskFromAdvance(modRegRmByte, i, 'g', bit, segMask0, seg0, segMask);
      ShiftAdvance(modRegRmByte, i, 'g', segShift0, segShiftBefore, segShift);
      MaskFromAdvance(modRegRmByte, i, 'r', bit, regMask0, reg0, regMask);
      ShiftAdvance(modRegRmByte, i, 'r', regShift0, regShiftBefore, regShift);
      NextBit(i, bit);
      bit := bit >> 1;
      i := i + 1;
    }
    FixedMaskUpToIsFixedMask(modRegRmByte, 8);
    MaskFromIsOr(modRegRmByte, 8, 'g', segMask0);
    MaskFromIsOr(modRegRmByte, 8, 'r', regMask0);
    return ModRegRmMatcher(modRegRmMask, modRegRmValue, modMask, modShift, rmMask, rmShift,
      regMask, regShift, segMask, segShift, op);
  }

  // ---------------------------------------------------------------------
  // The decoder object

  /**
   * The two lookup tables: a primary slot per first byte, and per first
   * byte a row of eight secondary entries indexed by bits 5..3 of the
   * second byte. `entries` records, for the proof only, the lines
   * installed so far; the tables are always the ones those lines fill.
   */
  class Decoder {
    const opcodeMatchers: array<Option<OpcodeMatcher>>
    const modRegRmTable: array2<Option<ModRegRmMatcher>>
    ghost var entries: seq<Entry>

    ghost predicate Valid()
      reads this, opcodeMatchers, modRegRmTable
    {
      opcodeMatchers.Length == 256 &&
      modRegRmTable.Length0 == 256 && modRegRmTable.Length1 == 8 &&
      (forall i {:trigger opcodeMatchers[i]} :: 0 <= i < 256 ==> opcodeMatchers[i] == LastPrimary(entries, i as bv8)) &&
      (forall i, j {:trigger modRegRmTable[i, j]} :: 0 <= i < 256 && 0 <= j < 8 ==> modRegRmTable[i, j] == LastSecondary(entries, i as bv8, j as bv8))
    }

    /** Empty tables: no line installed yet. */
    constructor ()
      ensures Valid() && entries == []
      ensures fresh(opcodeMatchers) && fresh(modRegRmTable)
    {
      opcodeMatchers := new Option<OpcodeMatcher>[256](_ => None);
      modRegRmTable := new Option<ModRegRmMatcher>[256, 8]((_, _) => None);
      entries := [];
    }

    /**
     * The table fill of one line: every first byte its opcode matcher
     * matches takes that matcher, and, for a two-template line, every
     * entry of that byte's row whose index the second matcher accepts
     * takes the second matcher.
     */
    method Install(e: Entry)
      requires Valid()
      modifies this, opcodeMatchers, modRegRmTable
      ensures Valid() && entries == old(entries) + [e]
    {
      ghost var prev := entries;
      entries := entries + [e];
      for i := 0 to 256
        invariant entries == prev + [e]
        invariant forall k :: 0 <= k < i ==> opcodeMatchers[k] == LastPrimary(entries, k as bv8)
        invariant forall k :: i <= k < 256 ==> opcodeMatchers[k] == LastPrimary(prev, k as bv8)
        invariant forall k, j :: 0 <= k < i && 0 <= j < 8 ==> modRegRmTable[k, j] == LastSecondary(entries, k as bv8, j as bv8)
        invariant forall k, j :: i <= k < 256 && 0 <= j < 8 ==> modRegRmTable[k, j] == LastSecondary(prev, k as bv8, j as bv8)
      {
        InstallSlot(prev, e, i);
      }
    }

    /**
     * `decoder(instructionTable)`: the lines of the table compiled in
     * order into fresh tables. A section line sets the mnemonic of the
     * lines after it; the first line that cannot be compiled ends the
     * build with its error.
     */
    static method Build(declared: set<string>, order: seq<OpcodeFlag>, lines: seq<string>) returns (r: Result<Decoder, TableError>)
      ensures CompileUpTo(declared, order, lines, |lines|).Err? ==> r == Err(CompileUpTo(declared, order, lines, |lines|).error)
      ensures CompileUpTo(declared, order, lines, |lines|).Ok? ==>
        r.Ok? && fresh(r.value) && fresh(r.value.opcodeMatchers) && fresh(r.value.modRegRmTable) &&
        r.value.Valid() && r.value.entries == CompileUpTo(declared, order, lines, |lines|).value.entries
    {
      var d := new Decoder();
      var opcode: Option<Opcode> := None;
      var n: nat := 0;
      while n < |lines|
        invariant n <= |lines|
        invariant fresh(d) && fresh(d.opcodeMatchers) && fresh(d.modRegRmTable) && d.Valid()
        invariant CompileUpTo(declared, order, lines, n) == Ok(TableState(opcode, d.entries))
        decreases |lines| - n
      {
        var next := d.CompileLineAt(declared, order, lines, n, opcode);
        if next.Err? {
          ErrorPersists(declared, order, lines, n + 1, |lines|);
          return Err(next.error);
        }
        opcode := next.value;
        n := n + 1;
      }
      return Ok(d);
    }

    /** One iteration of the line loop: the mnemonic in effect after line `n`, or that line's error. */
    method CompileLineAt(declared: set<string>, order: seq<OpcodeFlag>, lines: seq<string>, n: nat, opcode: Option<Opcode>)
      returns (r: Result<Option<Opcode>, TableError>)
      requires Valid() && n < |lines| && CompileUpTo(declared, order, lines, n) == Ok(TableState(opcode, entries))
      modifies this, opcodeMatchers, modRegRmTable
      ensures Valid()
      ensures r.Err? ==> CompileUpTo(declared, order, lines, n + 1) == Err(r.error)
      ensures r.Ok? ==> CompileUpTo(declared, order, lines, n + 1) == Ok(TableState(r.value, entries))
    {
      var line := lines[n];
      match Classify(line)
      case Skip =>
        return Ok(opcode);
      case Section(name) =>
        var code := OpcodeValueOf(declared, name);
        if code.None? {
          return Err(UnknownMnemonic(name));
        }
        return Ok(code);
      case Pattern(text) =>
        var split := SplitTemplates(text);
        if split.Err? {
          return Err(split.error);
        }
        var flags := CollectFlags(order, split.value.rest);
        if flags.Err? {
          return Err(flags.error);
        }
        var e := Compile(split.value.first, split.value.second, Op(opcode, flags.value));
        Install(e);
        return Ok(opcode);
    }

    /** One pass of the fill loop: slot `i` and its row now agree with the lines including `e`, and nothing else moves. */
    method InstallSlot(ghost prev: seq<Entry>, e: Entry, i: nat)
      requires i < 256 && opcodeMatchers.Length == 256 && modRegRmTable.Length0 == 256 && modRegRmTable.Length1 == 8
      requires opcodeMatchers[i] == LastPrimary(prev, i as bv8)
      requires forall j :: 0 <= j < 8 ==> modRegRmTable[i, j] == LastSecondary(prev, i as bv8, j as bv8)
      modifies opcodeMatchers, modRegRmTable
      ensures opcodeMatchers[i] == LastPrimary(prev + [e], i as bv8)
      ensures forall j :: 0 <= j < 8 ==> modRegRmTable[i, j] == LastSecondary(prev + [e], i as bv8, j as bv8)
      ensures forall k :: 0 <= k < 256 && k != i ==> opcodeMatchers[k] == old(opcodeMatchers[k])
      ensures forall k, j :: 0 <= k < 256 && k != i && 0 <= j < 8 ==> modRegRmTable[k, j] == old(modRegRmTable[k, j])
    {
      LastPrimaryAppend(prev, e, i as bv8);
      if e.opcode.Matches(i as bv8) {
        opcodeMatchers[i] := Some(e.opcode);
        if e.modRegRm.Some? {
          FillRow(prev, e, i);
        }
      }
      forall j | 0 <= j < 8
        ensures modRegRmTable[i, j] == LastSecondary(prev + [e], i as bv8, j as bv8)
      {
        LastSecondaryAppend(prev, e, i as bv8, j as bv8);
      }
    }

    /** The inner loop of the table fill, on the row of first byte `i`. */
    method FillRow(ghost prev: seq<Entry>, e: Entry, i: nat)
      requires i < 256 && modRegRmTable.Length0 == 256 && modRegRmTable.Length1 == 8
      requires e.modRegRm.Some? && e.opcode.Matches(i as bv8)
      modifies modRegRmTable
      ensures forall j :: 0 <= j < 8 ==>
        modRegRmTable[i, j] == if e.modRegRm.value.MatchesReg(j as bv8) then e.modRegRm else old(modRegRmTable[i, j])
      ensures forall k, j :: 0 <= k < 256 && k != i && 0 <= j < 8 ==> modRegRmTable[k, j] == old(modRegRmTable[k, j])
    {
      for j := 0 to 8
        invariant forall j' :: 0 <= j' < j ==>
          modRegRmTable[i, j'] == if e.modRegRm.value.MatchesReg(j' as bv8) then e.modRegRm else old(modRegRmTable[i, j'])
        invariant forall j' :: j <= j' < 8 ==> modRegRmTable[i, j'] == old(modRegRmTable[i, j'])
        invariant forall k, j' :: 0 <= k < 256 && k != i && 0 <= j' < 8 ==> modRegRmTable[k, j'] == old(modRegRmTable[k, j'])
      {
        if e.modRegRm.value.MatchesReg(j as bv8) {
          modRegRmTable[i, j] := e.modRegRm;
        }
      }
    }

    // ---------------------------------------------------------------------
    // decode

    /**
     * `decode(decodeState, in)`: one instruction from the bytes at `pos`.
     * The first byte selects its primary slot; a slot without an
     * operation reads the second byte and selects the secondary entry;
     * the flags of the operation, in declaration order, read the
     * operands. The decode state is written only when the whole
     * instruction was read, and `next` is the cursor after it.
     */
    method Decode(order: seq<OpcodeFlag>, ds: DecodeState, input: seq<bv8>, pos: nat) returns (r: Outcome<DecodeError>, next: nat)
      requires Valid()
      modifies ds
      ensures var spec := DecodeAt(entries, order, input, pos);
        (r.Pass? <==> spec.Ok?) &&
        (r.Pass? ==> ds.Record() == spec.value.record && next == spec.value.next) &&
        (r.Fail? ==> r.error == spec.error && unchanged(ds))
    {
      next := pos;
      var b1 := ReadU8(input, pos);
      if b1.Err? {
        return Fail(b1.error), next;
      }
      var byte1 := input[pos];
      var found := opcodeMatchers[byte1 as int];
      assert found == LastPrimary(entries, byte1);
      if found.None? {
        return Fail(IllegalOpcode(byte1)), next;
      }
      var step := DecodeOperands(order, byte1, found.value, input, b1.value.next);
      if step.Err? {
        return Fail(step.error), next;
      }
      ds.Store(step.value.record);
      return Pass, step.value.next;
    }

    /**
     * The body of `decode` once the first byte has selected the matcher
     * `o`: the opcode bytes, then the flag loop. The result is the record
     * `decode` stores and the cursor after the instruction.
     */
    method DecodeOperands(order: seq<OpcodeFlag>, byte1: bv8, o: OpcodeMatcher, input: seq<bv8>, pos: nat) returns (r: Result<Step, DecodeError>)
      requires Valid()
      ensures r == DecodeWith(entries, order, input, byte1, o, pos)
    {
      var staged := OpcodeBytes(byte1, o, input, pos);
      match staged {
        case Err(e) => r := Err(e);
        case Ok(stage) => r := FlagLoop(order, byte1, o, stage, input);
      }
    }

    /**
     * The flag loop of `decode` and the record it stores, after the
     * opcode bytes; the `s`, `v` and `z` bits come from the first byte.
     */
    static method FlagLoop(order: seq<OpcodeFlag>, byte1: bv8, o: OpcodeMatcher, stage: Stage, input: seq<bv8>)
      returns (r: Result<Step, DecodeError>)
      ensures r == Finish(byte1, o, stage, ApplyFlags(order, |order|, stage.op.flags, byte1 & o.sMask != 0, input, stage.st))
    {
      var isSignExtend := byte1 & o.sMask != 0;
      var isRotateCL := byte1 & o.vMask != 0;
      var isWhileZero := byte1 & o.zMask != 0;
      var flagged := RunFlags(order, stage.op.flags, isSignExtend, stage.st, input);
      match flagged {
        case Err(e) => r := Err(e);
        case Ok(last) =>
          var rec := Decoded(stage.op.code, last.isToReg, last.isWide, isRotateCL, isWhileZero, last.reg, last.rm, last.immediate);
          r := Ok(Step(rec, last.pos));
          assert r == Finish(byte1, o, stage, flagged);
      }
    }

    /**
     * The opcode bytes of `decode`: the first byte's fields, then, when
     * `o` carries no operation, the second byte and its secondary entry.
     */
    method OpcodeBytes(byte1: bv8, o: OpcodeMatcher, input: seq<bv8>, pos: nat) returns (r: Result<Stage, DecodeError>)
      requires Valid()
      ensures r == OpcodeStage(entries, input, byte1, o, pos)
    {
      var first := FirstByteFields(o, byte1, pos);
      if first.Err? {
        return Err(first.error);
      }
      if o.op.Some? {
        return Ok(Stage(o.op.value, first.value));
      }
      r := SecondByteStage(byte1, first.value, input);
    }

    /**
     * The first byte's fields: the direction (the `d` bit, or else whether
     * there is a register field), the `w` bit, and the register or segment
     * register its field selects; a segment register forces the width to
     * wide.
     */
    static method FirstByteFields(o: OpcodeMatcher, byte1: bv8, pos: nat) returns (r: Result<Operands, DecodeError>)
      ensures r == FirstByte(o, byte1, pos)
    {
      var isToReg := if o.dMask != 0 then byte1 & o.dMask != 0 else o.regMask != 0;
      var isWide := byte1 & o.wMask != 0;
      var reg: Option<Register> := None;
      if o.regMask != 0 {
        var regValue := FieldValue(byte1, o.regMask, o.regShift);
        if regValue >= 8 {
          return Err(IndexOutOfRange(regValue));
        }
        reg := Some(if isWide then WordRegisterTable[regValue] else ByteRegisterTable[regValue]);
      } else if o.segMask != 0 {
        var segValue := FieldValue(byte1, o.segMask, o.segShift);
        if segValue >= 4 {
          return Err(IndexOutOfRange(segValue));
        }
        reg := Some(SegmentRegisterTable[segValue]);
        isWide := true;
      }
      return Ok(Operands(isToReg, isWide, reg, None, 0, pos));
    }

    /**
     * The `op == null` branch of `decode`: read the second byte at
     * `first.pos`, select the secondary entry by its bits 5..3, take its
     * register or segment field and read the r/m operand.
     */
    method SecondByteStage(byte1: bv8, first: Operands, input: seq<bv8>) returns (r: Result<Stage, DecodeError>)
      requires Valid()
      ensures r == SecondByte(entries, byte1, input, first)
    {
      var b2 := ReadU8(input, first.pos);
      if b2.Err? {
        return Err(b2.error);
      }
      var byte2 := input[first.pos];
      var found := modRegRmTable[byte1 as int, ((byte2 >> 3) & 7) as int];
      assert found == LastSecondary(entries, byte1, (byte2 >> 3) & 7);
      if found.None? {
        return Err(IllegalModRegRm(byte1, byte2));
      }
      r := ModRegRm(found.value, byte2, first.(pos := b2.value.next), input);
    }

    /**
     * The selected secondary entry applied to the second byte: its
     * register or segment field replaces the first byte's, then the mod
     * and r/m fields select the operand, read from `st.pos` on.
     */
    static method ModRegRm(m: ModRegRmMatcher, byte2: bv8, st: Operands, input: seq<bv8>) returns (r: Result<Stage, DecodeError>)
      ensures r == ModRegRmStage(m, byte2, input, st)
    {
      var mode := FieldValue(byte2, m.modMask, m.modShift);
      var rm := FieldValue(byte2, m.rmMask, m.rmShift);
      var isWide, reg := st.isWide, st.reg;
      if m.regMask != 0 {
        var regValue := FieldValue(byte2, m.regMask, m.regShift);
        if regValue >= 8 {
          return Err(IndexOutOfRange(regValue));
        }
        reg := Some(if isWide then WordRegisterTable[regValue] else ByteRegisterTable[regValue]);
      } else if m.segMask != 0 {
        var segValue := FieldValue(byte2, m.segMask, m.segShift);
        if segValue >= 4 {
          return Err(IndexOutOfRange(segValue));
        }
        reg := Some(SegmentRegisterTable[segValue]);
        isWide := true;
      }
      var regs := st.(isWide := isWide, reg := reg);
      assert SecondRegister(m, byte2, st) == Ok(regs);
      var operand := ReadModeOperand(mode, rm, isWide, input, st.pos);
      if operand.Err? {
        return Err(operand.error);
      }
      return Ok(Stage(m.op, regs.(rm := operand.value.rm, pos := operand.value.next)));
    }

    /**
     * The flag loop of `decode`: the flags of the operation in declaration
     * order, each reading its operand or adjusting the register, the r/m
     * operand and the direction; `sx` is the first byte's `s` bit.
     */
    static method RunFlags(order: seq<OpcodeFlag>, flags: set<OpcodeFlag>, sx: bool, st: Operands, input: seq<bv8>)
      returns (r: Result<Operands, DecodeError>)
      ensures r == ApplyFlags(order, |order|, flags, sx, input, st)
    {
      var cur := st;
      for k := 0 to |order|
        invariant ApplyFlags(order, k, flags, sx, input, st) == Ok(cur)
      {
        var flag := order[k];
        if flag in flags {
          var next := FlagCase(flag, sx, cur, input);
          if next.Err? {
            FlagErrorPersists(order, k + 1, |order|, flags, sx, input, st);
            return Err(next.error);
          }
          cur := next.value;
        }
      }
      return Ok(cur);
    }

    /**
     * One case of the flag switch on the locals of `decode`: a reading
     * flag reads its operand at the cursor, the accumulator flags put the
     * accumulator of the current width in the empty register slot (or in
     * the r/m operand) and set the direction, the segment flags set the
     * direction, and other flags do nothing.
     */
    static method FlagCase(flag: OpcodeFlag, sx: bool, st: Operands, input: seq<bv8>) returns (r: Result<Operands, DecodeError>)
      ensures r == FlagStep(flag, sx, input, st)
    {
      var isToReg, isWide, reg, rmAddr, immediate, pos := st.isToReg, st.isWide, st.reg, st.rm, st.immediate, st.pos;
      var acc := if isWide then AX else AL;
      match flag {
        case ToAcc =>
          if reg.None? {
            reg, isToReg := Some(acc), true;
          } else {
            rmAddr, isToReg := Some(Reg(acc)), false;
          }
        case FromAcc =>
          if reg.None? {
            reg, isToReg := Some(acc), false;
          } else {
            rmAddr, isToReg := Some(Reg(acc)), true;
          }
        case ToSr => isToReg := true;
        case FromSr => isToReg := false;
        case OtherFlag(_) =>
        case AddrW =>
          var v := Readers(flag, isWide, sx, input, pos);
          if v.Err? {
            return Err(v.error);
          }
          rmAddr, pos := Some(Mem(MemoryAddress(Direct, v.value.value))), v.value.next;
        case DataW | DataS | UInt8 | UInt16 | SInt8 | SInt16 =>
          var v := Readers(flag, isWide, sx, input, pos);
          if v.Err? {
            return Err(v.error);
          }
          immediate, pos := v.value.value, v.value.next;
      }
      return Ok(Operands(isToReg, isWide, reg, rmAddr, immediate, pos));
    }

    /**
     * The `switch (mod)` of `decode`: the r/m operand, reading any
     * displacement at `pos`; a mode value outside 0..3 leaves the operand
     * null.
     */
    static method ReadModeOperand(mode: nat, rm: nat, isWide: bool, input: seq<bv8>, pos: nat) returns (r: Result<Operand, DecodeError>)
      ensures r == ModeOperand(mode, rm, isWide, input, pos)
    {
      var operand: Option<Address> := None;
      var next := pos;
      if mode == 0 {
        if rm == 6 {
          var d :- ReadU16(input, pos);
          operand, next := Some(Mem(MemoryAddress(Direct, d.value))), d.next;
        } else {
          if rm >= 8 {
            return Err(IndexOutOfRange(rm));
          }
          operand := Some(Mem(MemoryAddress(MemTable[rm], 0)));
        }
      } else if mode == 1 {
        if rm >= 8 {
          return Err(IndexOutOfRange(rm));
        }
        var d :- ReadS8(input, pos);
        operand, next := Some(Mem(MemoryAddress(MemTable[rm], d.value))), d.next;
      } else if mode == 2 {
        if rm >= 8 {
          return Err(IndexOutOfRange(rm));
        }
        var d :- ReadU16(input, pos);
        operand, next := Some(Mem(MemoryAddress(MemTable[rm], d.value))), d.next;
      } else if mode == 3 {
        if rm >= 8 {
          return Err(IndexOutOfRange(rm));
        }
        operand := Some(Reg(if isWide then WordRegisterTable[rm] else ByteRegisterTable[rm]));
      }
      return Ok(Operand(operand, next));
    }
  }
}
