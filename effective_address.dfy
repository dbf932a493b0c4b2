/**
 * The nine ways an 8086 memory operand names its address: eight
 * base/index combinations, in the order the r/m field numbers them, plus
 * DIRECT, whose address is the displacement alone.
 */
module EffectiveAddresses {

  datatype EffectiveAddress = BxSi | BxDi | BpSi | BpDi | Si | Di | Bp | Bx | Direct

  /** The text each mode was declared with; `toString` returns it. */
  function Text(e: EffectiveAddress): string {
    match e
    case BxSi => "BX + SI"
    case BxDi => "BX + DI"
    case BpSi => "BP + SI"
    case BpDi => "BP + DI"
    case Si => "SI"
    case Di => "DI"
    case Bp => "BP"
    case Bx => "BX"
    case Direct => ""
  }

  /** The declaration position of each mode. */
  function Ordinal(e: EffectiveAddress): (n: nat)
    ensures n < 9
    ensures n == 8 <==> e == Direct
  {
    match e
    case BxSi => 0
    case BxDi => 1
    case BpSi => 2
    case BpDi => 3
    case Si => 4
    case Di => 5
    case Bp => 6
    case Bx => 7
    case Direct => 8
  }

  /** The mode declared at position `n`. */
  function FromOrdinal(n: nat): (e: EffectiveAddress)
    requires n < 9
    ensures Ordinal(e) == n
  {
    [BxSi, BxDi, BpSi, BpDi, Si, Di, Bp, Bx, Direct][n]
  }

  /** Ordinals number the modes one to one: there are exactly nine. */
  lemma OrdinalRoundTrip(e: EffectiveAddress)
    ensures FromOrdinal(Ordinal(e)) == e
  {
  }

  /** Only DIRECT renders as the empty string. */
  lemma TextEmptyOnlyForDirect(e: EffectiveAddress)
    ensures Text(e) == "" <==> e == Direct
  {
  }
}
