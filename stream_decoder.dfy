/**
 * What `decode` computes for one instruction, stated on values: the
 * input is a byte sequence and a cursor, and each step returns the new
 * cursor with its result or fails with the error the decoder throws.
 */
module StreamDecoding {
  import opened Results
  import opened JavaLang
  import opened Registers
  import opened EffectiveAddresses
  import opened MemoryAddresses
  import opened Operations
  import opened Templates
  import opened TableCompiler

  /** The segment registers in the order a 2-bit `sr` field numbers them. */
  const SegmentRegisterTable: seq<Register> := [ES, CS, SS, DS]
  /** The byte registers in the order a 3-bit `reg` field numbers them when `w` is 0. */
  const ByteRegisterTable: seq<Register> := [AL, CL, DL, BL, AH, CH, DH, BH]
  /** The word registers in the order a 3-bit `reg` field numbers them when `w` is 1. */
  const WordRegisterTable: seq<Register> := [AX, CX, DX, BX, SP, BP, SI, DI]
  /** The base/index modes in the order the r/m field numbers them. */
  const MemTable: seq<EffectiveAddress> := [BxSi, BxDi, BpSi, BpDi, Si, Di, Bp, Bx]

  /** `MEM_TABLE[rm]` is the mode declared at position `rm`. */
  lemma MemTableFollowsDeclarationOrder(rm: nat)
    requires rm < 8
    ensures |MemTable| == 8 && Ordinal(MemTable[rm]) == rm && MemTable[rm] != Direct
  {
  }

  /**
   * Byte register `i` is the low half of word register `i` for i < 4 and
   * the high half of word register `i - 4` otherwise; word and byte tables
   * hold word and byte registers.
   */
  lemma RegisterTablesAlias(i: nat)
    requires i < 8
    ensures IsByteRegister(ByteRegisterTable[i]) && !IsByteRegister(WordRegisterTable[i])
    ensures WordOf(ByteRegisterTable[i]) == WordRegisterTable[i % 4]
    ensures IsHighHalf(ByteRegisterTable[i]) <==> i >= 4
  {
  }

  /** The exceptions `decode` can end in. */
  datatype DecodeError =
    | EndOfInput                              // `readU8` finds no byte
    | IllegalOpcode(byte1: bv8)               // empty primary slot
    | IllegalModRegRm(byte1: bv8, byte2: bv8) // empty secondary entry
    | IndexOutOfRange(index: int)             // a field value past the end of a lookup table

  // ---------------------------------------------------------------------
  // Byte readers

  /** A value read and the cursor after it. */
  datatype Read = Read(value: Int32, next: nat)

  function ReadU8(input: seq<bv8>, pos: nat): (r: Result<Read, DecodeError>)
    ensures r.Ok? ==> 0 <= r.value.value < 256
    ensures r.Ok? ==> pos < |input| && r.value.next == pos + 1
    ensures r.Err? ==> pos >= |input| && r.error == EndOfInput
  {
    if pos < |input| then Ok(Read(input[pos] as int, pos + 1)) else Err(EndOfInput)
  }

  /** The `(byte)` cast of an unsigned byte value. */
  function SignedByte(u: int): (v: Int32)
    requires 0 <= u < 256
    ensures -128 <= v < 128 && (v - u) % 256 == 0
  {
    if u < 128 then u else u - 256
  }

  /** The `(short)` cast of an unsigned 16-bit value. */
  function SignedWord(u: int): (v: Int32)
    requires 0 <= u < 0x10000
    ensures -0x8000 <= v < 0x8000 && (v - u) % 0x10000 == 0
  {
    if u < 0x8000 then u else u - 0x10000
  }

  function ReadS8(input: seq<bv8>, pos: nat): (r: Result<Read, DecodeError>)
    ensures r.Ok? ==> -128 <= r.value.value < 128 && r.value.next == pos + 1
    ensures r.Err? ==> r.error == EndOfInput
  {
    match ReadU8(input, pos)
    case Err(e) => Err(e)
    case Ok(b) => Ok(Read(SignedByte(b.value), b.next))
  }

  /** `readU8(in) | (readU8(in) << 8)`: the first byte is the low one. */
  function ReadU16(input: seq<bv8>, pos: nat): (r: Result<Read, DecodeError>)
    ensures r.Ok? ==> 0 <= r.value.value < 0x10000 && r.value.next == pos + 2
    ensures r.Err? ==> r.error == EndOfInput
  {
    match ReadU8(input, pos)
    case Err(e) => Err(e)
    case Ok(lo) =>
      match ReadU8(input, lo.next)
      case Err(e) => Err(e)
      case Ok(hi) => Ok(Read(lo.value + 256 * hi.value, hi.next))
  }

  function ReadS16(input: seq<bv8>, pos: nat): (r: Result<Read, DecodeError>)
    ensures r.Ok? ==> -0x8000 <= r.value.value < 0x8000 && r.value.next == pos + 2
    ensures r.Err? ==> r.error == EndOfInput
  {
    match ReadU16(input, pos)
    case Err(e) => Err(e)
    case Ok(w) => Ok(Read(SignedWord(w.value), w.next))
  }

  /** For a byte below 256, `lo | hi << 8` is `lo + 256 * hi`. */
  lemma LittleEndianOr(lo: bv8, hi: bv8)
    ensures ((lo as bv16) | ((hi as bv16) << 8)) as int == lo as int + 256 * hi as int
  {
  }

  /** `readU8` consumes one byte and fails with end of input exactly when none remains. */
  lemma ReadU8Consumes(input: seq<bv8>, pos: nat)
    ensures ReadU8(input, pos).Ok? <==> pos + 1 <= |input|
    ensures ReadU8(input, pos).Err? ==> ReadU8(input, pos).error == EndOfInput
    ensures pos + 1 <= |input| ==> ReadU8(input, pos) == Ok(Read(input[pos] as int, pos + 1))
  {
  }

  /** `readS8` consumes one byte and returns it sign extended, in -128..127. */
  lemma ReadS8Consumes(input: seq<bv8>, pos: nat)
    ensures ReadS8(input, pos).Ok? <==> pos + 1 <= |input|
    ensures ReadS8(input, pos).Err? ==> ReadS8(input, pos).error == EndOfInput
    ensures pos + 1 <= |input| ==>
      var r := ReadS8(input, pos).value;
      r.next == pos + 1 && -128 <= r.value < 128 && (r.value - input[pos] as int) % 256 == 0
  {
  }

  /** `readU16` consumes two bytes, low byte first, and fails with end of input when fewer remain. */
  lemma ReadU16Consumes(input: seq<bv8>, pos: nat)
    ensures ReadU16(input, pos).Ok? <==> pos + 2 <= |input|
    ensures ReadU16(input, pos).Err? ==> ReadU16(input, pos).error == EndOfInput
    ensures pos + 2 <= |input| ==>
      ReadU16(input, pos) == Ok(Read(input[pos] as int + 256 * input[pos + 1] as int, pos + 2))
  {
  }

  /** `readS16` consumes two bytes and returns their little-endian value sign extended, in -32768..32767. */
  lemma ReadS16Consumes(input: seq<bv8>, pos: nat)
    ensures ReadS16(input, pos).Ok? <==> pos + 2 <= |input|
    ensures ReadS16(input, pos).Err? ==> ReadS16(input, pos).error == EndOfInput
    ensures pos + 2 <= |input| ==>
      var r := ReadS16(input, pos).value;
      r.next == pos + 2 && -0x8000 <= r.value < 0x8000 &&
      (r.value - (input[pos] as int + 256 * input[pos + 1] as int)) % 0x10000 == 0
  {
    ReadU16Consumes(input, pos);
  }

  // ---------------------------------------------------------------------
  // Decoding steps

  /** The record `decode` writes into the decode state. */
  datatype Decoded = Decoded(
    opcode: Option<Opcode>,
    isToReg: bool, isWide: bool, isRotateCL: bool, isWhileZero: bool,
    reg: Option<Register>, rm: Option<Address>,
    immediate: Int32)

  /** The locals of `decode` between steps, with the cursor. */
  datatype Operands = Operands(
    isToReg: bool, isWide: bool,
    reg: Option<Register>, rm: Option<Address>,
    immediate: Int32, pos: nat)

  /** `(b & mask) >> shift`. */
  function FieldValue(b: bv8, mask: bv8, shift: Shift): nat {
    ((b & mask) >> shift) as int
  }

  /** `isWide ? WORD_REGISTER_TABLE[i] : BYTE_REGISTER_TABLE[i]`. */
  function RegisterAt(isWide: bool, i: nat): (r: Result<Register, DecodeError>)
    ensures r.Err? <==> i >= 8
    ensures r.Ok? ==> r.value == (if isWide then WordRegisterTable[i] else ByteRegisterTable[i])
  {
    if i < 8 then Ok(if isWide then WordRegisterTable[i] else ByteRegisterTable[i]) else Err(IndexOutOfRange(i))
  }

  /** `SEGMENT_REGISTER_TABLE[i]`. */
  function SegmentAt(i: nat): (r: Result<Register, DecodeError>)
    ensures r.Err? <==> i >= 4
    ensures r.Ok? ==> r.value == SegmentRegisterTable[i]
  {
    if i < 4 then Ok(SegmentRegisterTable[i]) else Err(IndexOutOfRange(i))
  }

  /** `MEM_TABLE[i]`. */
  function MemAt(i: nat): (r: Result<EffectiveAddress, DecodeError>)
    ensures r.Err? <==> i >= 8
    ensures r.Ok? ==> Ordinal(r.value) == i
  {
    if i < 8 then Ok(MemTable[i]) else Err(IndexOutOfRange(i))
  }

  /**
   * The first byte's direction and width bits and its register or segment
   * field. Without a `d` bit the direction is "to register" exactly when
   * the byte carries a register field; a segment operand forces the width
   * to wide.
   */
  function FirstByte(o: OpcodeMatcher, b1: bv8, pos: nat): (r: Result<Operands, DecodeError>)
    ensures r.Ok? ==> r.value.pos == pos && r.value.rm.None? && r.value.immediate == 0
    ensures r.Ok? ==> r.value.isToReg == (if o.dMask != 0 then b1 & o.dMask != 0 else o.regMask != 0)
    ensures r.Ok? ==> r.value.isWide == ((b1 & o.wMask != 0) || (o.regMask == 0 && o.segMask != 0))
    ensures r.Ok? ==> (r.value.reg.Some? <==> o.regMask != 0 || o.segMask != 0)
    ensures r.Err? <==>
      (o.regMask != 0 && FieldValue(b1, o.regMask, o.regShift) >= 8) ||
      (o.regMask == 0 && o.segMask != 0 && FieldValue(b1, o.segMask, o.segShift) >= 4)
  {
    var isToReg := if o.dMask != 0 then b1 & o.dMask != 0 else o.regMask != 0;
    var isWide := b1 & o.wMask != 0;
    if o.regMask != 0 then
      var reg :- RegisterAt(isWide, FieldValue(b1, o.regMask, o.regShift));
      Ok(Operands(isToReg, isWide, Some(reg), None, 0, pos))
    else if o.segMask != 0 then
      var reg :- SegmentAt(FieldValue(b1, o.segMask, o.segShift));
      Ok(Operands(isToReg, true, Some(reg), None, 0, pos))
    else
      Ok(Operands(isToReg, isWide, None, None, 0, pos))
  }

  /** The r/m operand and the cursor after its displacement. */
  datatype Operand = Operand(rm: Option<Address>, next: nat)

  /**
   * The `switch (mod)`: mode 0 is a base/index mode without displacement,
   * or a 16-bit direct address when rm is 6; mode 1 adds a signed byte,
   * mode 2 an unsigned word; mode 3 names a register; any other value of
   * the mode field leaves the operand empty.
   */
  function ModeOperand(mode: nat, rm: nat, isWide: bool, input: seq<bv8>, pos: nat): (r: Result<Operand, DecodeError>)
    ensures r.Ok? ==> r.value.next >= pos
  {
    if mode == 0 then
      if rm == 6 then
        var d :- ReadU16(input, pos);
        Ok(Operand(Some(Mem(MemoryAddress(Direct, d.value))), d.next))
      else
        var ea :- MemAt(rm);
        Ok(Operand(Some(Mem(MemoryAddress(ea, 0))), pos))
    else if mode == 1 then
      var ea :- MemAt(rm);
      var d :- ReadS8(input, pos);
      Ok(Operand(Some(Mem(MemoryAddress(ea, d.value))), d.next))
    else if mode == 2 then
      var ea :- MemAt(rm);
      var d :- ReadU16(input, pos);
      Ok(Operand(Some(Mem(MemoryAddress(ea, d.value))), d.next))
    else if mode == 3 then
      var reg :- RegisterAt(isWide, rm);
      Ok(Operand(Some(Reg(reg)), pos))
    else
      Ok(Operand(None, pos))
  }

  /** The operation in effect and the locals after the opcode bytes. */
  datatype Stage = Stage(op: Op, st: Operands)

  /**
   * The second byte: read it, pick the secondary entry by its bits 5..3,
   * then its register or segment field and the r/m operand.
   */
  function SecondByte(entries: seq<Entry>, b1: bv8, input: seq<bv8>, st: Operands): (r: Result<Stage, DecodeError>)
    ensures r.Ok? ==> r.value.st.pos >= st.pos + 1
  {
    var r2 :- ReadU8(input, st.pos);
    var b2 := input[st.pos];
    match LastSecondary(entries, b1, (b2 >> 3) & 7)
    case None => Err(IllegalModRegRm(b1, b2))
    case Some(m) => ModRegRmStage(m, b2, input, st.(pos := r2.next))
  }

  /**
   * The selected second matcher applied to the second byte: its register
   * or segment field, then the mod and r/m fields and any displacement,
   * read from `st.pos` on.
   */
  function ModRegRmStage(m: ModRegRmMatcher, b2: bv8, input: seq<bv8>, st: Operands): (r: Result<Stage, DecodeError>)
    ensures r.Ok? ==> r.value.st.pos >= st.pos
  {
    var mode := FieldValue(b2, m.modMask, m.modShift);
    var rm := FieldValue(b2, m.rmMask, m.rmShift);
    var regs :- SecondRegister(m, b2, st);
    var operand :- ModeOperand(mode, rm, regs.isWide, input, st.pos);
    Ok(Stage(m.op, regs.(rm := operand.rm, pos := operand.next)))
  }

  /** The second byte's register or segment field, which replaces the first byte's. */
  function SecondRegister(m: ModRegRmMatcher, b2: bv8, st: Operands): (r: Result<Operands, DecodeError>)
    ensures r.Ok? ==> r.value.isWide == (st.isWide || (m.regMask == 0 && m.segMask != 0))
    ensures r.Ok? ==> r.value.isToReg == st.isToReg && r.value.rm == st.rm && r.value.pos == st.pos
    ensures r.Ok? ==> r.value.immediate == st.immediate
    ensures r.Ok? && m.regMask == 0 && m.segMask == 0 ==> r.value.reg == st.reg
  {
    if m.regMask != 0 then
      var reg :- RegisterAt(st.isWide, FieldValue(b2, m.regMask, m.regShift));
      Ok(st.(reg := Some(reg)))
    else if m.segMask != 0 then
      var reg :- SegmentAt(FieldValue(b2, m.segMask, m.segShift));
      Ok(st.(reg := Some(reg), isWide := true))
    else
      Ok(st)
  }

  /** The flags whose case reads an immediate. */
  predicate ReadsImmediate(f: OpcodeFlag) {
    f.DataW? || f.DataS? || f.UInt8? || f.UInt16? || f.SInt8? || f.SInt16?
  }

  /** The flags whose case reads from the stream: the immediates and the direct address. */
  predicate ReadsOperand(f: OpcodeFlag) {
    f.AddrW? || ReadsImmediate(f)
  }

  /** The reader a flag case calls, chosen by the width and the first byte's `s` bit. */
  function Readers(f: OpcodeFlag, isWide: bool, sx: bool, input: seq<bv8>, pos: nat): (r: Result<Read, DecodeError>)
    requires ReadsOperand(f)
    ensures r.Ok? ==> pos < r.value.next <= pos + 2
    ensures r.Err? ==> r.error == EndOfInput
  {
    match f
    case AddrW => if isWide then ReadU16(input, pos) else ReadU8(input, pos)
    case DataW => if isWide then ReadU16(input, pos) else ReadS8(input, pos)
    case DataS => if isWide then (if sx then ReadS8(input, pos) else ReadU16(input, pos)) else ReadU8(input, pos)
    case UInt8 => ReadU8(input, pos)
    case UInt16 => ReadU16(input, pos)
    case SInt8 => ReadS8(input, pos)
    case SInt16 => ReadS16(input, pos)
  }

  /** One case of the flag switch; `sx` is the first byte's `s` bit. */
  function FlagStep(f: OpcodeFlag, sx: bool, input: seq<bv8>, st: Operands): (r: Result<Operands, DecodeError>)
    ensures r.Ok? ==> r.value.pos >= st.pos
    ensures r.Ok? ==> r.value.isWide == st.isWide
    ensures r.Ok? && !ReadsImmediate(f) ==> r.value.immediate == st.immediate
  {
    if ReadsOperand(f) then
      var d :- Readers(f, st.isWide, sx, input, st.pos);
      if f.AddrW? then Ok(st.(rm := Some(Mem(MemoryAddress(Direct, d.value))), pos := d.next))
      else Ok(st.(immediate := d.value, pos := d.next))
    else
      var acc := if st.isWide then AX else AL;
      match f
      case ToAcc =>
        if st.reg.None? then Ok(st.(reg := Some(acc), isToReg := true))
        else Ok(st.(rm := Some(Reg(acc)), isToReg := false))
      case FromAcc =>
        if st.reg.None? then Ok(st.(reg := Some(acc), isToReg := false))
        else Ok(st.(rm := Some(Reg(acc)), isToReg := true))
      case ToSr => Ok(st.(isToReg := true))
      case FromSr => Ok(st.(isToReg := false))
      case _ => Ok(st)
  }

  /** The flag loop after the first `n` constants in declaration order; only those in `flags` act. */
  function ApplyFlags(order: seq<OpcodeFlag>, n: nat, flags: set<OpcodeFlag>, sx: bool, input: seq<bv8>, st: Operands): (r: Result<Operands, DecodeError>)
    requires n <= |order|
    ensures r.Ok? ==> r.value.pos >= st.pos && r.value.isWide == st.isWide
  {
    if n == 0 then Ok(st)
    else
      match ApplyFlags(order, n - 1, flags, sx, input, st)
      case Err(e) => Err(e)
      case Ok(prev) => if order[n - 1] in flags then FlagStep(order[n - 1], sx, input, prev) else Ok(prev)
  }

  /** A flag case that throws ends the loop: the error is the result of every longer run. */
  lemma {:induction false} FlagErrorPersists(order: seq<OpcodeFlag>, k: nat, n: nat, flags: set<OpcodeFlag>, sx: bool, input: seq<bv8>, st: Operands)
    requires k <= n <= |order| && ApplyFlags(order, k, flags, sx, input, st).Err?
    ensures ApplyFlags(order, n, flags, sx, input, st) == ApplyFlags(order, k, flags, sx, input, st)
  {
    if n > k {
      FlagErrorPersists(order, k, n - 1, flags, sx, input, st);
    }
  }

  /** The result of one call of `decode` and the cursor after the instruction. */
  datatype Step = Step(record: Decoded, next: nat)

  /** `decode` on the bytes from `pos` on, with the tables the compiled entries fill. */
  function DecodeAt(entries: seq<Entry>, order: seq<OpcodeFlag>, input: seq<bv8>, pos: nat): (r: Result<Step, DecodeError>)
    ensures r.Ok? ==> r.value.next > pos
  {
    var r1 :- ReadU8(input, pos);
    var b1 := input[pos];
    match LastPrimary(entries, b1)
    case None => Err(IllegalOpcode(b1))
    case Some(o) => DecodeWith(entries, order, input, b1, o, r1.next)
  }

  /**
   * The rest of `decode` once the first byte `b1` has selected the
   * matcher `o`, with the cursor at `pos`: the opcode bytes, then the
   * flag loop over the operation's flags.
   */
  function DecodeWith(entries: seq<Entry>, order: seq<OpcodeFlag>, input: seq<bv8>, b1: bv8, o: OpcodeMatcher, pos: nat): (r: Result<Step, DecodeError>)
    ensures r.Ok? ==> r.value.next >= pos
  {
    AfterOpcode(order, input, b1, o, OpcodeStage(entries, input, b1, o, pos))
  }

  /** The flag loop over the operation's flags once the opcode bytes are read. */
  function AfterOpcode(order: seq<OpcodeFlag>, input: seq<bv8>, b1: bv8, o: OpcodeMatcher, staged: Result<Stage, DecodeError>): (r: Result<Step, DecodeError>)
    ensures r.Ok? ==> staged.Ok? && r.value.next >= staged.value.st.pos
  {
    match staged
    case Err(e) => Err(e)
    case Ok(stage) => Finish(b1, o, stage, ApplyFlags(order, |order|, stage.op.flags, b1 & o.sMask != 0, input, stage.st))
  }

  /**
   * The opcode bytes: the first byte's fields, then the second byte when
   * `o` carries no operation.
   */
  function OpcodeStage(entries: seq<Entry>, input: seq<bv8>, b1: bv8, o: OpcodeMatcher, pos: nat): (r: Result<Stage, DecodeError>)
    ensures r.Ok? ==> r.value.st.pos >= pos
    ensures r.Ok? && o.op.Some? ==> r.value.op == o.op.value && r.value.st.pos == pos
  {
    var first :- FirstByte(o, b1, pos);
    if o.op.Some? then Ok(Stage(o.op.value, first)) else SecondByte(entries, b1, input, first)
  }

  /**
   * The end of `decode` once the flag loop has run: its error, or the
   * record built from the loop's locals, the operation's mnemonic and
   * the first byte's `v` and `z` bits, with the cursor the loop left.
   */
  function Finish(b1: bv8, o: OpcodeMatcher, stage: Stage, flagged: Result<Operands, DecodeError>): (r: Result<Step, DecodeError>)
    ensures flagged.Err? <==> r.Err?
    ensures flagged.Err? ==> r.error == flagged.error
    ensures r.Ok? ==> r.value.next == flagged.value.pos && r.value.record.opcode == stage.op.code
  {
    match flagged
    case Err(e) => Err(e)
    case Ok(last) =>
      Ok(Step(Decoded(stage.op.code, last.isToReg, last.isWide, b1 & o.vMask != 0, b1 & o.zMask != 0,
                      last.reg, last.rm, last.immediate), last.pos))
  }
}
