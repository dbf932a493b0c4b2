/**
 * The enumerations the decoder consults by name. Their constants are not
 * part of this model: a mnemonic is identified by its constant's name,
 * and the effect flags are the eleven the decoder acts on plus any others
 * the enumeration may declare, in a declaration order given as a value.
 */
module Operations {
  import opened Results

  /** A constant of the mnemonic enumeration, identified by its name. */
  datatype Opcode = Opcode(name: string)

  /**
   * `Opcode.valueOf(name)`: the constant with that name, if the
   * enumeration (whose constant names are `declared`) has one; otherwise
   * the lookup fails.
   */
  function OpcodeValueOf(declared: set<string>, name: string): (r: Option<Opcode>)
    ensures r.Some? <==> name in declared
    ensures r.Some? ==> r.value.name == name
  {
    if name in declared then Some(Opcode(name)) else None
  }

  /** The effect flags the decoder acts on, and any other declared flag. */
  datatype OpcodeFlag =
    | AddrW | DataW | DataS
    | UInt8 | UInt16 | SInt8 | SInt16
    | ToAcc | FromAcc | ToSr | FromSr
    | OtherFlag(flagName: string)

  /** The constant's name, as the table spells it (upper case). */
  function Name(f: OpcodeFlag): string {
    match f
    case AddrW => "ADDRW"
    case DataW => "DATAW"
    case DataS => "DATAS"
    case UInt8 => "UINT8"
    case UInt16 => "UINT16"
    case SInt8 => "SINT8"
    case SInt16 => "SINT16"
    case ToAcc => "TO_ACC"
    case FromAcc => "FROM_ACC"
    case ToSr => "TO_SR"
    case FromSr => "FROM_SR"
    case OtherFlag(n) => n
  }

  /**
   * What an enumeration's declaration guarantees: names are not empty and
   * no two constants share one.
   */
  predicate ValidFlagOrder(order: seq<OpcodeFlag>) {
    (forall i :: 0 <= i < |order| ==> Name(order[i]) != "") &&
    (forall i, j :: 0 <= i < j < |order| ==> Name(order[i]) != Name(order[j]))
  }

  /** The immutable pair of a mnemonic (possibly null) and its effect flags. */
  datatype Op = Op(code: Option<Opcode>, flags: set<OpcodeFlag>)
}
