/**
 * The byte parity table: `parity(i)` starts from "even" and toggles once
 * for each set bit among bits 0..7 of `i`; a static initializer stores
 * `parity(i)` for every byte value, and `getParity` looks up the low byte
 * of an `int`.
 */
module ParityTables {
  import opened JavaLang

  /** `(x & 1 << k) != 0`. */
  predicate BitOf(x: bv32, k: nat)
    requires k < 32
  {
    x & ((1 as bv32) << k) != 0
  }

  /** The number of set bits among bits 0..n-1 of `x`. */
  function OnesBelow(x: bv32, n: nat): nat
    requires n <= 32
  {
    if n == 0 then 0
    else OnesBelow(x, n - 1) + (if BitOf(x, n - 1) then 1 else 0)
  }

  /** True exactly when bits 0..7 of `x` hold an even number of ones. */
  predicate EvenParity(x: bv32) {
    OnesBelow(x, 8) % 2 == 0
  }

  /** `parity(int i)`, toggling a boolean for each set bit among bits 0..7. */
  method ComputeParity(i: bv32) returns (parity: bool)
    ensures parity == EvenParity(i)
  {
    parity := true;
    for j := 0 to 8
      invariant parity == (OnesBelow(i, j) % 2 == 0)
    {
      if i & ((1 as bv32) << j) != 0 {
        parity := !parity;
      }
    }
  }

  /** Only bits below `n` count, so any pattern of higher bits gives the same count. */
  lemma {:induction false} OnesBelowIgnoresHighBits(x: bv32, y: bv32, n: nat)
    requires n <= 32
    requires forall k: nat :: k < n ==> BitOf(x, k) == BitOf(y, k)
    ensures OnesBelow(x, n) == OnesBelow(y, n)
  {
    if n > 0 {
      OnesBelowIgnoresHighBits(x, y, n - 1);
      assert BitOf(x, n - 1) == BitOf(y, n - 1);
    }
  }

  lemma LowByteBit(x: bv32, k: nat)
    requires k < 8
    ensures BitOf(x & 0xFF, k) == BitOf(x, k)
  {
  }

  /** Bits above 7 do not affect the parity: it is that of the low byte. */
  lemma EvenParityOfLowByte(x: bv32)
    ensures EvenParity(x & 0xFF) == EvenParity(x)
  {
    forall k: nat | k < 8
      ensures BitOf(x & 0xFF, k) == BitOf(x, k)
    {
      LowByteBit(x, k);
    }
    OnesBelowIgnoresHighBits(x & 0xFF, x, 8);
  }

  /** The empty pattern has no ones. */
  lemma {:induction false} ZeroHasNoOnes(n: nat)
    requires n <= 32
    ensures OnesBelow(0, n) == 0
  {
    if n > 0 {
      ZeroHasNoOnes(n - 1);
    }
  }

  /** The parity of 0 is even. */
  lemma ParityOfZero()
    ensures EvenParity(0)
  {
    ZeroHasNoOnes(8);
  }

  lemma OtherBitKept(x: bv32, k: nat, j: nat)
    requires k < 8 && j < 8 && j != k
    ensures BitOf(x ^ ((1 as bv32) << k), j) == BitOf(x, j)
  {
    var mk, mj := (1 as bv32) << k, (1 as bv32) << j;
    assert mk & mj == 0;
    assert (x ^ mk) & mj == (x & mj) ^ (mk & mj);
    assert (x ^ mk) & mj == x & mj;
  }

  lemma FlippedBit(x: bv32, k: nat)
    requires k < 8
    ensures BitOf(x ^ ((1 as bv32) << k), k) == !BitOf(x, k)
  {
  }

  /** Flipping bit `k` changes the count of ones below `n > k` by exactly one. */
  lemma {:induction false} FlipChangesCount(x: bv32, y: bv32, k: nat, n: nat)
    requires k < n <= 8
    requires y == x ^ ((1 as bv32) << k)
    ensures if BitOf(x, k) then OnesBelow(y, n) + 1 == OnesBelow(x, n)
            else OnesBelow(y, n) == OnesBelow(x, n) + 1
  {
    if n - 1 == k {
      forall j: nat | j < k
        ensures BitOf(x, j) == BitOf(y, j)
      {
        OtherBitKept(x, k, j);
      }
      OnesBelowIgnoresHighBits(x, y, k);
      FlippedBit(x, k);
    } else {
      FlipChangesCount(x, y, k, n - 1);
      OtherBitKept(x, k, n - 1);
    }
  }

  /** Flipping any one of bits 0..7 flips the parity. */
  lemma FlipFlipsParity(x: bv32, k: nat)
    requires k < 8
    ensures EvenParity(x ^ ((1 as bv32) << k)) == !EvenParity(x)
  {
    FlipChangesCount(x, x ^ ((1 as bv32) << k), k, 8);
  }

  /** The class holding the static table `PARITY`. */
  class ParityTable {
    const table: array<bool>

    ghost predicate Valid()
      reads this, table
    {
      table.Length == 256 &&
      forall i :: 0 <= i < 256 ==> table[i] == EvenParity(i as bv32)
    }

    /** The static initializer: `PARITY[i] = parity(i)` for i in 0..255. */
    constructor ()
      ensures Valid() && fresh(table)
    {
      var t := new bool[256];
      for i := 0 to t.Length
        invariant forall k :: 0 <= k < i ==> t[k] == EvenParity(k as bv32)
      {
        t[i] := ComputeParity(i as bv32);
      }
      table := t;
    }

    /** `getParity(value)`: the table entry of `value & 0xFF`. */
    function GetParity(value: Int32): (p: bool)
      reads this, table
      requires Valid()
      ensures p == EvenParity((value % 256) as bv32)
    {
      table[value % 256]
    }
  }
}
