/**
 * The 8086 register names and where each lives in the 24-byte register
 * file. A word register at offset `o` owns bytes `o` and `o + 1` (low byte
 * first); a byte register stores `-(index + 1)` as its offset, so that the
 * sign tells the two kinds apart and `-offset - 1` is the byte it owns.
 */
module Registers {

  datatype Register =
    | AL | AH | AX
    | BL | BH | BX
    | CL | CH | CX
    | DL | DH | DX
    | SP | BP | SI | DI
    | CS | DS | SS | ES

  /** The offset each register was declared with. */
  function Offset(r: Register): int {
    match r
    case AL => -1  case AH => -2  case AX => 0
    case BL => -3  case BH => -4  case BX => 2
    case CL => -5  case CH => -6  case CX => 4
    case DL => -7  case DH => -8  case DX => 6
    case SP => 8
    case BP => 10
    case SI => 12
    case DI => 14
    case CS => 16
    case DS => 18
    case SS => 20
    case ES => 22
  }

  /** Size in bytes of the register file. */
  const RegisterFileSize: nat := 24

  /** A byte register is one whose offset is negative. */
  predicate IsByteRegister(r: Register) {
    Offset(r) < 0
  }

  /** The one byte of the register file that a byte register owns. */
  function ByteIndex(r: Register): (i: nat)
    requires IsByteRegister(r)
    ensures i < 8
    ensures i % 2 == 1 <==> r in {AH, BH, CH, DH}
  {
    -Offset(r) - 1
  }

  /** The bytes of the register file a register reads and writes. */
  function Span(r: Register): set<int> {
    if IsByteRegister(r) then {ByteIndex(r)} else {Offset(r), Offset(r) + 1}
  }

  /** The high halves: AH, BH, CH and DH. */
  predicate IsHighHalf(r: Register) {
    r in {AH, BH, CH, DH}
  }

  /**
   * The word register a byte register is half of: AL and AH of AX, BL and
   * BH of BX, CL and CH of CX, DL and DH of DX.
   */
  function WordOf(r: Register): (w: Register)
    requires IsByteRegister(r)
    ensures !IsByteRegister(w) && w in {AX, BX, CX, DX}
    ensures ByteIndex(r) == Offset(w) + (if IsHighHalf(r) then 1 else 0)
  {
    match r
    case AL => AX  case AH => AX
    case BL => BX  case BH => BX
    case CL => CX  case CH => CX
    case DL => DX  case DH => DX
  }

  /** Every register's bytes lie inside the 24-byte register file. */
  lemma SpanInFile(r: Register)
    ensures forall k :: k in Span(r) ==> 0 <= k < RegisterFileSize
  {
  }

  /**
   * Word registers sit at distinct even offsets 0..22, so no two of them
   * share a byte.
   */
  lemma WordRegistersDisjoint(r: Register, s: Register)
    requires !IsByteRegister(r) && !IsByteRegister(s) && r != s
    ensures Offset(r) % 2 == 0 && 0 <= Offset(r) <= 22
    ensures Span(r) !! Span(s)
  {
  }

  /** Distinct byte registers own distinct bytes. */
  lemma ByteRegistersDisjoint(r: Register, s: Register)
    requires IsByteRegister(r) && IsByteRegister(s) && r != s
    ensures ByteIndex(r) != ByteIndex(s)
  {
  }

  /**
   * A byte register overlaps exactly one word register, the one it is half
   * of; SP, BP, SI, DI and the segment registers (offsets 8..23) have no
   * byte alias.
   */
  lemma ByteRegisterAliases(r: Register, s: Register)
    requires IsByteRegister(r) && !IsByteRegister(s)
    ensures ByteIndex(r) in Span(s) <==> s == WordOf(r)
  {
  }
}
