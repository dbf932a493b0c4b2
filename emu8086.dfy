/**
 * The state of the 8086 emulator and the instructions it executes: a
 * 24-byte little-endian register file in which the byte registers alias
 * halves of AX..DX, a 64 KiB little-endian memory, a 32-bit flags word, and
 * `mov` and `add` on the operands the decoder leaves in its decode state.
 *
 * The state is specified as a value (`Machine`) by the functions of this
 * module; the class `Emu8086` holds it in arrays and a field and its
 * methods are proved to change it exactly as those functions say.
 */
module Emulation {
  import opened Results
  import opened JavaLang
  import opened Registers
  import opened Flags
  import opened FlagWords
  import opened EffectiveAddresses
  import opened MemoryAddresses
  import opened ParityTables
  import SD = StreamDecoding
  import D = Decoding

  /** Size in bytes of the memory (`64 * 1024`). */
  const MemorySize: nat := 0x1_0000

  /**
   * The unchecked exceptions `mov` and `add` can raise: an operand the
   * decode state leaves null, and a memory index outside the buffer.
   */
  datatype EmuError = NullOperand | MemoryOutOfBounds(index: int)

  /** A byte of the register file or the memory, read unsigned. */
  type Byte = x: int | 0 <= x < 0x100

  /** `(byte) x`, read unsigned: the low 8 bits of `x`. */
  function Low8(x: int): Byte {
    x % 0x100
  }

  /** The little-endian 16-bit value of two bytes. */
  function Word(lo: Byte, hi: Byte): nat {
    lo  + 0x100 * hi 
  }

  /** The number of values a register holds: 256 for a byte register, 65536 for a word register. */
  function RegisterRange(r: Register): nat {
    if IsByteRegister(r) then 0x100 else 0x1_0000
  }

  /** The number of values a memory operand holds, by its width. */
  function MemoryRange(wide: bool): nat {
    if wide then 0x1_0000 else 0x100
  }

  /** Bytes a memory operand of this width spans. */
  function Width(wide: bool): nat {
    if wide then 2 else 1
  }

  // ---------------------------------------------------------------------
  // The register file

  /**
   * `get(Register, ByteBuffer)`: a byte register reads its one byte,
   * unsigned; a word register reads the little-endian `char` at its offset.
   */
  function ReadRegister(file: seq<Byte>, r: Register): (v: nat)
    requires |file| == RegisterFileSize
    ensures v < RegisterRange(r)
  {
    if IsByteRegister(r) then file[ByteIndex(r)] 
    else Word(file[Offset(r)], file[Offset(r) + 1])
  }

  /**
   * `set(Register, int)`: a byte register stores `(byte) value` at its
   * byte; a word register stores `(char) value` little-endian at its
   * offset.
   */
  function WriteRegister(file: seq<Byte>, r: Register, value: int): (f: seq<Byte>)
    requires |file| == RegisterFileSize
    ensures |f| == RegisterFileSize
  {
    if IsByteRegister(r) then file[ByteIndex(r) := Low8(value)]
    else file[Offset(r) := Low8(value)][Offset(r) + 1 := Low8(value / 0x100)]
  }

  /** A remainder is determined by any quotient-and-rest split of `x` with the rest in range. */
  lemma RemainderOfSplit(x: int, q: int, rest: int)
    requires 0 <= rest < 0x1_0000 && x == 0x1_0000 * q + rest
    ensures x % 0x1_0000 == rest
  {
  }

  /** The low byte and the next byte of `x` make up its low 16 bits. */
  lemma WordOfLowBytes(x: int)
    ensures Word(Low8(x), Low8(x / 0x100)) == x % 0x1_0000
  {
    var q := x / 0x100;
    assert x == 0x100 * q + x % 0x100;
    assert q == 0x100 * (q / 0x100) + q % 0x100;
    assert x == 0x1_0000 * (q / 0x100) + (0x100 * (q % 0x100) + x % 0x100);
    RemainderOfSplit(x, q / 0x100, 0x100 * (q % 0x100) + x % 0x100);
  }

  /** The low and high bytes of a word are its remainder and quotient by 256. */
  lemma WordHalves(lo: Byte, hi: Byte)
    ensures Word(lo, hi) % 0x100 == lo && Word(lo, hi) / 0x100 == hi
  {
  }

  /** A register reads back what was written to it, truncated to its width. */
  lemma ReadAfterWrite(file: seq<Byte>, r: Register, value: int)
    requires |file| == RegisterFileSize
    ensures ReadRegister(WriteRegister(file, r, value), r) == value % RegisterRange(r)
  {
    if !IsByteRegister(r) {
      WordOfLowBytes(value);
    }
  }

  /** A write changes only the bytes of the register written. */
  lemma WriteOnlyTouchesSpan(file: seq<Byte>, r: Register, value: int)
    requires |file| == RegisterFileSize
    ensures forall k :: 0 <= k < RegisterFileSize && k !in Span(r) ==> WriteRegister(file, r, value)[k] == file[k]
  {
  }

  /** A register that shares no byte with the one written keeps its value. */
  lemma DisjointRegisterKept(file: seq<Byte>, r: Register, s: Register, value: int)
    requires |file| == RegisterFileSize
    requires Span(r) !! Span(s)
    ensures ReadRegister(WriteRegister(file, r, value), s) == ReadRegister(file, s)
  {
    WriteOnlyTouchesSpan(file, r, value);
    var f := WriteRegister(file, r, value);
    if IsByteRegister(s) {
      assert ByteIndex(s) in Span(s);
    } else {
      assert Offset(s) in Span(s) && Offset(s) + 1 in Span(s);
    }
  }

  /**
   * Writing AL, BL, CL or DL changes only the low byte of AX, BX, CX or DX;
   * writing AH, BH, CH or DH only the high byte; every register outside
   * that word, SP, BP, SI, DI and the segment registers among them, keeps
   * its value.
   */
  lemma ByteWriteAliasesWord(file: seq<Byte>, r: Register, value: int)
    requires |file| == RegisterFileSize
    requires IsByteRegister(r)
    ensures var w, before, after := WordOf(r), ReadRegister(file, WordOf(r)), ReadRegister(WriteRegister(file, r, value), WordOf(r));
      if IsHighHalf(r) then after % 0x100 == before % 0x100 && after / 0x100 == value % 0x100
      else after / 0x100 == before / 0x100 && after % 0x100 == value % 0x100
    ensures forall s :: !IsByteRegister(s) && s != WordOf(r) ==> ReadRegister(WriteRegister(file, r, value), s) == ReadRegister(file, s)
  {
    var w, f := WordOf(r), WriteRegister(file, r, value);
    WordHalves(file[Offset(w)], file[Offset(w) + 1]);
    WordHalves(f[Offset(w)], f[Offset(w) + 1]);
    forall s | !IsByteRegister(s) && s != WordOf(r)
      ensures ReadRegister(WriteRegister(file, r, value), s) == ReadRegister(file, s)
    {
      ByteRegisterAliases(r, s);
      DisjointRegisterKept(file, r, s, value);
    }
  }

  /** After a word write, its low half reads the low byte of the value and its high half the next byte. */
  lemma WordWriteSplitsIntoHalves(file: seq<Byte>, r: Register, value: int)
    requires |file| == RegisterFileSize
    requires IsByteRegister(r)
    ensures ReadRegister(WriteRegister(file, WordOf(r), value), r) ==
      if IsHighHalf(r) then value % 0x1_0000 / 0x100 else value % 0x100
  {
    WordOfLowBytes(value);
  }

  // ---------------------------------------------------------------------
  // Memory

  /** The index range `ByteBuffer` accepts for an access of this width at `ea`. */
  predicate InBounds(mem: seq<Byte>, ea: int, wide: bool) {
    0 <= ea && ea + Width(wide) <= |mem|
  }

  /**
   * `get(MemoryAddress)` at a computed index: the little-endian `char` when
   * wide, the unsigned byte otherwise; an index outside the buffer throws.
   */
  function ReadMemory(mem: seq<Byte>, ea: int, wide: bool): (r: Result<nat, EmuError>)
    ensures r.Err? <==> !InBounds(mem, ea, wide)
    ensures r.Err? ==> r.error == MemoryOutOfBounds(ea)
    ensures r.Ok? ==> r.value < MemoryRange(wide)
  {
    if !InBounds(mem, ea, wide) then Err(MemoryOutOfBounds(ea))
    else if wide then Ok(Word(mem[ea], mem[ea + 1]))
    else Ok(mem[ea] )
  }

  /**
   * `set(MemoryAddress, int)` at a computed index: `(char) value`
   * little-endian when wide, `(byte) value` otherwise; an index outside the
   * buffer throws before anything is written.
   */
  function WriteMemory(mem: seq<Byte>, ea: int, wide: bool, value: int): (r: Result<seq<Byte>, EmuError>)
    ensures r.Err? <==> !InBounds(mem, ea, wide)
    ensures r.Err? ==> r.error == MemoryOutOfBounds(ea)
    ensures r.Ok? ==> |r.value| == |mem|
  {
    if !InBounds(mem, ea, wide) then Err(MemoryOutOfBounds(ea))
    else if wide then Ok(mem[ea := Low8(value)][ea + 1 := Low8(value / 0x100)])
    else Ok(mem[ea := Low8(value)])
  }

  /**
   * A memory write that succeeds reads back the value truncated to the
   * width, and leaves every byte outside `ea .. ea + width` as it was.
   */
  lemma MemoryReadAfterWrite(mem: seq<Byte>, ea: int, wide: bool, value: int)
    requires InBounds(mem, ea, wide)
    ensures ReadMemory(WriteMemory(mem, ea, wide, value).value, ea, wide) == Ok(value % MemoryRange(wide))
    ensures forall k :: 0 <= k < |mem| && !(ea <= k < ea + Width(wide)) ==> WriteMemory(mem, ea, wide, value).value[k] == mem[k]
  {
    if wide {
      WordOfLowBytes(value);
    }
  }

  // ---------------------------------------------------------------------
  // Effective addresses

  /**
   * `effectiveAddress`: the base of the mode plus the displacement, as a
   * Java `int` sum. The bases are as the program declares them, BP_DI
   * included, which adds BP and SI.
   */
  function EffectiveAddressOf(file: seq<Byte>, a: MemoryAddress): Int32
    requires |file| == RegisterFileSize
  {
    WrapInt32(Base(file, a.mode) + a.displacement)
  }

  /** The `switch` of `effectiveAddress`: the base each mode adds to the displacement. */
  function Base(file: seq<Byte>, mode: EffectiveAddress): (b: nat)
    requires |file| == RegisterFileSize
    ensures b < 2 * 0x1_0000 - 1
  {
    match mode
    case BxSi => ReadRegister(file, BX) + ReadRegister(file, SI)
    case BxDi => ReadRegister(file, BX) + ReadRegister(file, DI)
    case BpSi => ReadRegister(file, BP) + ReadRegister(file, SI)
    case BpDi => ReadRegister(file, BP) + ReadRegister(file, SI)
    case Si => ReadRegister(file, SI)
    case Di => ReadRegister(file, DI)
    case Bp => ReadRegister(file, BP)
    case Bx => ReadRegister(file, BX)
    case Direct => 0
  }

  /** The register a two-letter name in a mode's text names. */
  function NamedRegister(name: string): Option<Register> {
    if name == "BX" then Some(BX)
    else if name == "BP" then Some(BP)
    else if name == "SI" then Some(SI)
    else if name == "DI" then Some(DI)
    else None
  }

  /** The terms of a mode's text: "X + Y" has two, a lone name one, the empty text none. */
  function Terms(t: string): seq<string> {
    if |t| == 7 && t[2] == ' ' && t[3] == '+' && t[4] == ' ' then [[t[0], t[1]], [t[5], t[6]]]
    else if t == "" then []
    else [t]
  }

  /** The sum of the registers named by `names`. */
  function SumOfNamed(file: seq<Byte>, names: seq<string>): int
    requires |file| == RegisterFileSize
  {
    if names == [] then 0
    else
      NamedValue(file, names[0]) + SumOfNamed(file, names[1..])
  }

  /** The value a name contributes to a sum: its register's, or 0. */
  function NamedValue(file: seq<Byte>, name: string): nat
    requires |file| == RegisterFileSize
  {
    match NamedRegister(name)
    case Some(r) => ReadRegister(file, r)
    case None => 0
  }

  lemma SumOfOne(file: seq<Byte>, x: string)
    requires |file| == RegisterFileSize
    ensures SumOfNamed(file, [x]) == NamedValue(file, x)
  {
    assert [x][1..] == [];
  }

  lemma SumOfTwo(file: seq<Byte>, x: string, y: string)
    requires |file| == RegisterFileSize
    ensures SumOfNamed(file, [x, y]) == NamedValue(file, x) + NamedValue(file, y)
  {
    assert [x, y][1..] == [y];
    SumOfOne(file, y);
  }

  /**
   * Every mode but BP_DI has as its base the sum of the registers its
   * text names (DIRECT names none, so its base is 0); BP_DI, whose text
   * names BP and DI, adds BP and SI.
   */
  lemma BaseFollowsText(file: seq<Byte>, mode: EffectiveAddress)
    requires |file| == RegisterFileSize
    ensures mode != BpDi ==> Base(file, mode) == SumOfNamed(file, Terms(Text(mode)))
    ensures mode == BpDi ==>
      Terms(Text(mode)) == ["BP", "DI"] && Base(file, mode) == ReadRegister(file, BP) + ReadRegister(file, SI)
  {
    var t := Terms(Text(mode));
    match mode {
      case BxSi => assert t == ["BX", "SI"]; SumOfTwo(file, "BX", "SI");
      case BxDi => assert t == ["BX", "DI"]; SumOfTwo(file, "BX", "DI");
      case BpSi => assert t == ["BP", "SI"]; SumOfTwo(file, "BP", "SI");
      case BpDi => assert t == ["BP", "DI"];
      case Si => assert t == ["SI"]; SumOfOne(file, "SI");
      case Di => assert t == ["DI"]; SumOfOne(file, "DI");
      case Bp => assert t == ["BP"]; SumOfOne(file, "BP");
      case Bx => assert t == ["BX"]; SumOfOne(file, "BX");
      case Direct => assert t == [];
    }
  }

  /**
   * With the displacements the decoder produces (-128..65535) the `int`
   * sum cannot wrap: the address is the base plus the displacement
   * exactly; DIRECT's is the displacement itself.
   */
  lemma EffectiveAddressExact(file: seq<Byte>, a: MemoryAddress)
    requires |file| == RegisterFileSize
    requires -0x80 <= a.displacement < 0x1_0000
    ensures EffectiveAddressOf(file, a) == Base(file, a.mode) + a.displacement
    ensures a.mode == Direct ==> EffectiveAddressOf(file, a) == a.displacement
  {
  }

  // ---------------------------------------------------------------------
  // The machine

  /** The emulator's state as a value: register file, memory and flags word. */
  datatype Machine = Machine(file: seq<Byte>, mem: seq<Byte>, flags: bv32)

  /** The sizes the buffers are allocated with. */
  predicate Sized(m: Machine) {
    |m.file| == RegisterFileSize && |m.mem| == MemorySize
  }

  /** `get(Address)`: a register reads itself, a memory operand reads at its effective address. */
  function GetOperand(m: Machine, a: Address, wide: bool): (r: Result<nat, EmuError>)
    requires Sized(m)
    ensures r.Ok? ==> r.value < 0x1_0000
  {
    match a
    case Reg(reg) => Ok(ReadRegister(m.file, reg))
    case Mem(addr) => ReadMemory(m.mem, EffectiveAddressOf(m.file, addr), wide)
  }

  /** `set(Address, int)`: a register or a memory operand written, the rest of the machine kept. */
  function SetOperand(m: Machine, a: Address, value: int, wide: bool): (r: Result<Machine, EmuError>)
    requires Sized(m)
    ensures r.Ok? ==> Sized(r.value) && r.value.flags == m.flags
    ensures a.Reg? ==> r.Ok?
  {
    match a
    case Reg(reg) => Ok(m.(file := WriteRegister(m.file, reg, value)))
    case Mem(addr) =>
      var mem :- WriteMemory(m.mem, EffectiveAddressOf(m.file, addr), wide, value);
      Ok(m.(mem := mem))
  }

  /** A decode state's optional operand; null throws when used. */
  function Present(a: Option<Address>): Result<Address, EmuError> {
    match a
    case Some(x) => Ok(x)
    case None => Err(NullOperand)
  }

  /** The register operand, as an address. */
  function RegAddress(reg: Option<Register>): Option<Address> {
    match reg
    case Some(r) => Some(Reg(r))
    case None => None
  }

  /** The number of values an operand holds once stored. */
  function OperandRange(a: Address, wide: bool): nat {
    match a
    case Reg(r) => RegisterRange(r)
    case Mem(_) => MemoryRange(wide)
  }

  /** A stored operand reads back the value truncated to its width. */
  lemma OperandReadAfterWrite(m: Machine, a: Address, value: int, wide: bool)
    requires Sized(m)
    requires SetOperand(m, a, value, wide).Ok?
    ensures a.Reg? ==> GetOperand(SetOperand(m, a, value, wide).value, a, wide) == Ok(value % OperandRange(a, wide))
    ensures a.Mem? ==> SetOperand(m, a, value, wide).value.file == m.file
    ensures a.Mem? ==> GetOperand(SetOperand(m, a, value, wide).value, a, wide) == Ok(value % OperandRange(a, wide))
  {
    match a {
      case Reg(r) => ReadAfterWrite(m.file, r, value);
      case Mem(addr) =>
        MemoryReadAfterWrite(m.mem, EffectiveAddressOf(m.file, addr), wide, value);
    }
  }

  /** What `mov` and `add` pick from the decode state: the destination and the source value. */
  datatype Selection = Selection(target: Address, source: int)

  // ---------------------------------------------------------------------
  // mov

  /**
   * `mov`: with no r/m operand the immediate goes to the register, with no
   * register it goes to the r/m operand; otherwise the r/m operand is
   * copied into the register when `isToReg` and the register into the
   * r/m operand when not. A null operand or a memory index outside the
   * buffer throws and leaves the machine unchanged.
   */
  function MovResult(m: Machine, d: SD.Decoded): (r: Result<Machine, EmuError>)
    requires Sized(m)
    ensures r.Ok? ==> Sized(r.value) && r.value.flags == m.flags
  {
    if d.rm.None? then
      var reg :- Present(RegAddress(d.reg));
      SetOperand(m, reg, d.immediate, d.isWide)
    else if d.reg.None? then
      SetOperand(m, d.rm.value, d.immediate, d.isWide)
    else if d.isToReg then
      var v :- GetOperand(m, d.rm.value, d.isWide);
      SetOperand(m, Reg(d.reg.value), v, d.isWide)
    else
      var v :- GetOperand(m, Reg(d.reg.value), d.isWide);
      SetOperand(m, d.rm.value, v, d.isWide)
  }

  /** The operand `mov` writes and the value it writes there. */
  function MovSelection(m: Machine, d: SD.Decoded): (r: Result<Selection, EmuError>)
    requires Sized(m)
    ensures d.rm.None? && d.reg.None? ==> r == Err(NullOperand)
    ensures r.Ok? && d.rm.Some? && d.reg.Some? ==> r.value.source < 0x1_0000
  {
    if d.rm.None? then
      var reg :- Present(RegAddress(d.reg));
      Ok(Selection(reg, d.immediate))
    else if d.reg.None? then Ok(Selection(d.rm.value, d.immediate))
    else if d.isToReg then
      var v :- GetOperand(m, d.rm.value, d.isWide);
      Ok(Selection(Reg(d.reg.value), v))
    else
      var v :- GetOperand(m, Reg(d.reg.value), d.isWide);
      Ok(Selection(d.rm.value, v))
  }

  /**
   * `mov` is the selection of its operands followed by the store: a failed
   * selection is the result, otherwise the result is the store's. After a
   * `mov` that completes, its destination reads the source value truncated
   * to the destination's width, and the flags are untouched.
   */
  lemma MovStoresSource(m: Machine, d: SD.Decoded)
    requires Sized(m)
    ensures MovSelection(m, d).Err? ==> MovResult(m, d) == Err(MovSelection(m, d).error)
    ensures MovSelection(m, d).Ok? ==>
      MovResult(m, d) == SetOperand(m, MovSelection(m, d).value.target, MovSelection(m, d).value.source, d.isWide)
    ensures MovResult(m, d).Ok? ==> MovSelection(m, d).Ok?
    ensures MovResult(m, d).Ok? ==>
      var s := MovSelection(m, d).value;
      GetOperand(MovResult(m, d).value, s.target, d.isWide) == Ok(s.source % OperandRange(s.target, d.isWide)) &&
      MovResult(m, d).value.flags == m.flags
  {
    if MovResult(m, d).Ok? {
      var s := MovSelection(m, d).value;
      OperandReadAfterWrite(m, s.target, s.source, d.isWide);
    }
  }

  /** A register-to-register `mov` always completes, copying the source register's value. */
  lemma MovBetweenRegisters(m: Machine, d: SD.Decoded, s: Register)
    requires Sized(m)
    requires d.reg.Some? && d.rm == Some(Reg(s))
    ensures MovResult(m, d).Ok?
    ensures MovResult(m, d).value.mem == m.mem
    ensures d.isToReg ==> ReadRegister(MovResult(m, d).value.file, d.reg.value) == ReadRegister(m.file, s) % RegisterRange(d.reg.value)
    ensures !d.isToReg ==> ReadRegister(MovResult(m, d).value.file, s) == ReadRegister(m.file, d.reg.value) % RegisterRange(s)
  {
    if d.isToReg {
      ReadAfterWrite(m.file, d.reg.value, ReadRegister(m.file, s));
    } else {
      ReadAfterWrite(m.file, s, ReadRegister(m.file, d.reg.value));
    }
  }

  // ---------------------------------------------------------------------
  // add

  /**
   * The operands of `add`: the register and the immediate when there is
   * no r/m operand, the r/m operand and the immediate when there is no
   * register; otherwise both operands, the destination chosen by `isToReg`.
   */
  function AddOperands(m: Machine, d: SD.Decoded): (r: Result<(Address, int, int), EmuError>)
    requires Sized(m)
    ensures d.rm.None? && d.reg.None? ==> r == Err(NullOperand)
    ensures r.Ok? ==> r.value.1 < 0x1_0000
    ensures r.Ok? && d.rm.Some? && d.reg.Some? ==> r.value.2 < 0x1_0000
  {
    if d.rm.None? then
      var reg :- Present(RegAddress(d.reg));
      var op1 :- GetOperand(m, reg, d.isWide);
      Ok((reg, op1, d.immediate as int))
    else if d.reg.None? then
      var op1 :- GetOperand(m, d.rm.value, d.isWide);
      Ok((d.rm.value, op1, d.immediate as int))
    else
      var op1 :- GetOperand(m, Reg(d.reg.value), d.isWide);
      var op2 :- GetOperand(m, d.rm.value, d.isWide);
      Ok((if d.isToReg then Reg(d.reg.value) else d.rm.value, op1, op2))
  }

  /** CARRY as `add` tests it: bit 8 of the sum for a word, bit 4 for a byte. */
  predicate AddCarry(result: Int32, wide: bool) {
    if wide then HasBit(result, 0x100) else HasBit(result, 0x10)
  }

  /** SIGN as `add` tests it: bit 7 of the sum for a word, bit 3 for a byte. */
  predicate AddSign(result: Int32, wide: bool) {
    if wide then HasBit(result, 0x80) else HasBit(result, 0x8)
  }

  /** `getParity(result)`: the parity-table entry for the sum's low byte. */
  predicate LowByteParity(result: Int32) {
    EvenParity((result % 0x100) as bv32)
  }

  /** The flags word after the four `setFlag` calls of `add`. */
  function AddFlags(flags: bv32, result: Int32, wide: bool): bv32 {
    SetArithmeticFlags(flags, AddCarry(result, wide), AddSign(result, wide), result == 0, LowByteParity(result))
  }

  /** The machine after an `add` and whether the `add` completed. */
  datatype Effect = Effect(after: Machine, outcome: Outcome<EmuError>)

  /**
   * `add`: read both operands, sum them as `int`s, set the four flags, and
   * store the sum. A failing read throws with the machine unchanged; a
   * failing store throws after the flags are set.
   */
  function AddResult(m: Machine, d: SD.Decoded): (e: Effect)
    requires Sized(m)
    ensures Sized(e.after)
    ensures AddOperands(m, d).Err? ==> e == Effect(m, Fail(AddOperands(m, d).error))
  {
    match AddOperands(m, d)
    case Err(err) => Effect(m, Fail(err))
    case Ok((target, op1, op2)) =>
      var result := WrapInt32(op1 + op2);
      var flagged := m.(flags := AddFlags(m.flags, result, d.isWide));
      match SetOperand(flagged, target, result, d.isWide)
      case Ok(after) => Effect(after, Pass)
      case Err(err) => Effect(flagged, Fail(err))
  }

  /**
   * The flags after `add`: ZERO exactly when the sum is 0, PARITY the
   * parity of the sum's low byte, CARRY and SIGN the program's bit tests,
   * and AUXILIARY_CARRY, OVERFLOW, INTERRUPT_ENABLE, DIRECTION and TRAP
   * unchanged.
   */
  lemma AddFlagsMeaning(flags: bv32, result: Int32, wide: bool)
    ensures var r := AddFlags(flags, result, wide);
      (FlagSet(r, Zero) <==> result == 0) &&
      FlagSet(r, Parity) == LowByteParity(result) &&
      FlagSet(r, Carry) == AddCarry(result, wide) &&
      FlagSet(r, Sign) == AddSign(result, wide)
    ensures var r := AddFlags(flags, result, wide);
      FlagSet(r, AuxiliaryCarry) == FlagSet(flags, AuxiliaryCarry) &&
      FlagSet(r, Overflow) == FlagSet(flags, Overflow) &&
      FlagSet(r, InterruptEnable) == FlagSet(flags, InterruptEnable) &&
      FlagSet(r, Direction) == FlagSet(flags, Direction) &&
      FlagSet(r, Trap) == FlagSet(flags, Trap)
  {
    var carry, sign, parity := AddCarry(result, wide), AddSign(result, wide), LowByteParity(result);
    SetArithmeticFlagsReads(flags, carry, sign, result == 0, parity);
    SetArithmeticFlagsKeeps(flags, carry, sign, result == 0, parity);
  }

  /** Once the operands are read, `add` is the store of the sum into the flagged machine. */
  lemma AddResultStores(m: Machine, d: SD.Decoded, target: Address, op1: int, op2: int)
    requires Sized(m)
    requires AddOperands(m, d) == Ok((target, op1, op2))
    ensures var flagged := m.(flags := AddFlags(m.flags, WrapInt32(op1 + op2), d.isWide));
      var stored := SetOperand(flagged, target, WrapInt32(op1 + op2), d.isWide);
      AddResult(m, d) == if stored.Ok? then Effect(stored.value, Pass) else Effect(flagged, Fail(stored.error))
  {
  }

  /**
   * Once both operands are read, `add` sets the flags from their `int` sum
   * whether or not the store succeeds; a store to a register always
   * succeeds, and a completed store holds the sum truncated to the
   * destination's width.
   */
  lemma AddStoresSum(m: Machine, d: SD.Decoded, target: Address, op1: int, op2: int)
    requires Sized(m)
    requires AddOperands(m, d) == Ok((target, op1, op2))
    ensures AddResult(m, d).after.flags == AddFlags(m.flags, WrapInt32(op1 + op2), d.isWide)
    ensures target.Reg? ==> AddResult(m, d).outcome.Pass?
    ensures AddResult(m, d).outcome.Pass? ==>
      GetOperand(AddResult(m, d).after, target, d.isWide) == Ok(WrapInt32(op1 + op2) % OperandRange(target, d.isWide))
  {
    var result := WrapInt32(op1 + op2);
    var flagged := m.(flags := AddFlags(m.flags, result, d.isWide));
    var stored := SetOperand(flagged, target, result, d.isWide);
    AddResultStores(m, d, target, op1, op2);
    if stored.Ok? {
      OperandReadAfterWrite(flagged, target, result, d.isWide);
    }
  }

  // ---------------------------------------------------------------------
  // The emulator object

  /**
   * `Emu8086`: the register file and the memory as little-endian byte
   * buffers written in place, and the flags word. The decode state that
   * `mov` and `add` read is passed to them as the `Decoded` value `decode`
   * left; the static parity table is held as a field.
   */
  class Emu8086 {
    const registerFile: array<Byte>
    const memory: array<Byte>
    var flags: bv32
    const parityTable: ParityTable

    ghost predicate Valid()
      reads this, parityTable, parityTable.table
    {
      registerFile.Length == RegisterFileSize && memory.Length == MemorySize &&
      registerFile != memory && parityTable.Valid()
    }

    /** The buffers and the flags word, as a `Machine` value. */
    function State(): Machine
      reads this, registerFile, memory
    {
      Machine(registerFile[..], memory[..], flags)
    }

    /** The buffers are allocated zeroed, and the flags word starts at 0. */
    constructor ()
      ensures Valid() && fresh(registerFile) && fresh(memory)
      ensures State() == Machine(seq(RegisterFileSize, _ => 0), seq(MemorySize, _ => 0), 0)
    {
      registerFile := new Byte[RegisterFileSize](_ => 0);
      memory := new Byte[MemorySize](_ => 0);
      flags := 0;
      parityTable := new ParityTable();
    }

    /** `getFlag(flag)`: whether the flag's bit of the flags word is set. */
    function GetFlag(f: Flag): bool
      reads this
    {
      FlagSet(flags, f)
    }

    /** `setFlag(flag)`: OR in the flag's set/test mask; the flag reads set, every other bit is kept. */
    method SetFlag(f: Flag)
      requires Valid()
      modifies this
      ensures Valid()
      ensures flags == WithFlag(old(flags), f, true)
      ensures GetFlag(f) && flags & ClearMask(f) == old(flags) & ClearMask(f)
    {
      flags := flags | SetTestMask(f);
      SetFlagSets(old(flags), f);
    }

    /** `clearFlag(flag)`: AND with the flag's clear mask; the flag reads clear, every other bit is kept. */
    method ClearFlag(f: Flag)
      requires Valid()
      modifies this
      ensures Valid()
      ensures flags == WithFlag(old(flags), f, false)
      ensures !GetFlag(f) && flags & ClearMask(f) == old(flags) & ClearMask(f)
    {
      flags := flags & ClearMask(f);
      ClearFlagClears(old(flags), f);
    }

    /** `setFlag(flag, value)`: `setFlag(flag)` when `value`, `clearFlag(flag)` otherwise. */
    method SetFlagTo(f: Flag, value: bool)
      requires Valid()
      modifies this
      ensures Valid()
      ensures flags == WithFlag(old(flags), f, value)
    {
      if value {
        SetFlag(f);
      } else {
        ClearFlag(f);
      }
    }

    /** `get(Register)`: the unsigned byte at `-offset - 1`, or the little-endian `char` at `offset`. */
    method GetRegister(r: Register) returns (v: nat)
      requires Valid()
      ensures v == ReadRegister(registerFile[..], r)
    {
      var o := Offset(r);
      if o < 0 {
        v := registerFile[-o - 1];
      } else {
        v := Word(registerFile[o], registerFile[o + 1]);
      }
    }

    /** `set(Register, int)`: `(byte) value` at `-offset - 1`, or `(char) value` little-endian at `offset`. */
    method SetRegister(r: Register, value: int)
      requires Valid()
      modifies registerFile
      ensures Valid()
      ensures registerFile[..] == WriteRegister(old(registerFile[..]), r, value)
    {
      var o := Offset(r);
      if o < 0 {
        registerFile[-o - 1] := Low8(value);
      } else {
        registerFile[o] := Low8(value);
        registerFile[o + 1] := Low8(value / 0x100);
      }
    }

    /** `effectiveAddress(address)`: the base the mode selects plus the displacement, as an `int` sum. */
    method EffectiveAddress(a: MemoryAddress) returns (ea: Int32)
      requires Valid()
      ensures ea == EffectiveAddressOf(registerFile[..], a)
    {
      var base: int;
      match a.mode {
        case BxSi =>
          var x := GetRegister(BX);
          var y := GetRegister(SI);
          base := x + y;
        case BxDi =>
          var x := GetRegister(BX);
          var y := GetRegister(DI);
          base := x + y;
        case BpSi =>
          var x := GetRegister(BP);
          var y := GetRegister(SI);
          base := x + y;
        case BpDi =>
          var x := GetRegister(BP);
          var y := GetRegister(SI);
          base := x + y;
        case Si => base := GetRegister(SI);
        case Di => base := GetRegister(DI);
        case Bp => base := GetRegister(BP);
        case Bx => base := GetRegister(BX);
        case Direct => base := 0;
      }
      ea := WrapInt32(base + a.displacement);
    }

    /** `get(MemoryAddress)`: the `char` or the unsigned byte at the effective address; outside the buffer it throws. */
    method GetMemory(a: MemoryAddress, wide: bool) returns (r: Result<nat, EmuError>)
      requires Valid()
      ensures r == ReadMemory(memory[..], EffectiveAddressOf(registerFile[..], a), wide)
    {
      var ea := EffectiveAddress(a);
      if ea < 0 || ea + (if wide then 2 else 1) > memory.Length {
        r := Err(MemoryOutOfBounds(ea));
      } else if wide {
        r := Ok(Word(memory[ea], memory[ea + 1]));
      } else {
        r := Ok(memory[ea]);
      }
    }

    /**
     * `set(MemoryAddress, int)`: `(char) value` or `(byte) value` at the
     * effective address; outside the buffer it throws and writes nothing.
     */
    method SetMemory(a: MemoryAddress, value: int, wide: bool) returns (o: Outcome<EmuError>)
      requires Valid()
      modifies memory
      ensures Valid()
      ensures var r := WriteMemory(old(memory[..]), EffectiveAddressOf(registerFile[..], a), wide, value);
        (r.Ok? ==> o == Pass && memory[..] == r.value) &&
        (r.Err? ==> o == Fail(r.error) && memory[..] == old(memory[..]))
    {
      var ea := EffectiveAddress(a);
      if ea < 0 || ea + (if wide then 2 else 1) > memory.Length {
        o := Fail(MemoryOutOfBounds(ea));
      } else if wide {
        memory[ea] := Low8(value);
        memory[ea + 1] := Low8(value / 0x100);
        o := Pass;
      } else {
        memory[ea] := Low8(value);
        o := Pass;
      }
    }

    /** `get(Address)`: dispatch on register or memory operand. */
    method Get(a: Address, wide: bool) returns (r: Result<nat, EmuError>)
      requires Valid()
      ensures r == GetOperand(State(), a, wide)
    {
      match a {
        case Reg(reg) =>
          var v := GetRegister(reg);
          r := Ok(v);
        case Mem(addr) =>
          r := GetMemory(addr, wide);
      }
    }

    /** `set(Address, int)`: dispatch on register or memory operand; a throw leaves the state as it was. */
    method Set(a: Address, value: int, wide: bool) returns (o: Outcome<EmuError>)
      requires Valid()
      modifies registerFile, memory
      ensures Valid()
      ensures var r := SetOperand(old(State()), a, value, wide);
        (r.Ok? ==> o == Pass && State() == r.value) &&
        (r.Err? ==> o == Fail(r.error) && State() == old(State()))
    {
      match a {
        case Reg(reg) =>
          SetRegister(reg, value);
          o := Pass;
        case Mem(addr) =>
          o := SetMemory(addr, value, wide);
      }
    }

    /** `mov()` on the decode state `d`: the new state is the one `MovResult` specifies. */
    method Mov(d: SD.Decoded) returns (o: Outcome<EmuError>)
      requires Valid()
      modifies registerFile, memory
      ensures Valid()
      ensures var r := MovResult(old(State()), d);
        (r.Ok? ==> o == Pass && State() == r.value) &&
        (r.Err? ==> o == Fail(r.error) && State() == old(State()))
    {
      if d.rm.None? {
        if d.reg.None? {
          o := Fail(NullOperand);
          return;
        }
        o := Set(Reg(d.reg.value), d.immediate, d.isWide);
      } else if d.reg.None? {
        o := Set(d.rm.value, d.immediate, d.isWide);
      } else if d.isToReg {
        var v := Get(d.rm.value, d.isWide);
        if v.Err? {
          o := Fail(v.error);
          return;
        }
        o := Set(Reg(d.reg.value), v.value, d.isWide);
      } else {
        var v := Get(Reg(d.reg.value), d.isWide);
        o := Set(d.rm.value, v.value, d.isWide);
      }
    }

    /**
     * The operand reads of `add()`: the destination and the two values;
     * a null operand or a memory index outside the buffer throws.
     */
    method AddOperandsOf(d: SD.Decoded) returns (r: Result<(Address, int, int), EmuError>)
      requires Valid()
      ensures r == AddOperands(State(), d)
    {
      if d.rm.None? {
        if d.reg.None? {
          return Err(NullOperand);
        }
        var v := Get(Reg(d.reg.value), d.isWide);
        r := Ok((Reg(d.reg.value), v.value, d.immediate as int));
      } else if d.reg.None? {
        var v := Get(d.rm.value, d.isWide);
        if v.Err? {
          return Err(v.error);
        }
        r := Ok((d.rm.value, v.value, d.immediate as int));
      } else {
        var v1 := Get(Reg(d.reg.value), d.isWide);
        var v2 := Get(d.rm.value, d.isWide);
        if v2.Err? {
          return Err(v2.error);
        }
        r := Ok((if d.isToReg then Reg(d.reg.value) else d.rm.value, v1.value, v2.value));
      }
    }

    /** The four `setFlag` calls of `add()`: CARRY, SIGN, ZERO and PARITY from the sum, in that order. */
    method SetAddFlags(result: Int32, wide: bool)
      requires Valid()
      modifies this
      ensures Valid()
      ensures flags == AddFlags(old(flags), result, wide)
      ensures State() == old(State()).(flags := flags)
    {
      SetFlagTo(Carry, if wide then HasBit(result, 0x100) else HasBit(result, 0x10));
      SetFlagTo(Sign, if wide then HasBit(result, 0x80) else HasBit(result, 0x8));
      SetFlagTo(Zero, result == 0);
      SetFlagTo(Parity, parityTable.GetParity(result));
    }

    /**
     * `add()` on the decode state `d`: operands read, the four flags set
     * in order, the sum stored; the new state and the outcome are those
     * `AddResult` specifies.
     */
    method Add(d: SD.Decoded) returns (o: Outcome<EmuError>)
      requires Valid()
      modifies this, registerFile, memory
      ensures Valid()
      ensures State() == AddResult(old(State()), d).after
      ensures o == AddResult(old(State()), d).outcome
    {
      var operands := AddOperandsOf(d);
      if operands.Err? {
        o := Fail(operands.error);
        return;
      }
      var (target, op1, op2) := operands.value;
      var result := WrapInt32(op1 + op2);
      SetAddFlags(result, d.isWide);
      o := Set(target, result, d.isWide);
      AddResultStores(old(State()), d, target, op1, op2);
    }
  }
}
