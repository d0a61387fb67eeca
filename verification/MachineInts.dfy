/** Rust's fixed-width integers.  Arithmetic on these types is checked by the verifier, so a method
    written over them is free of the overflow that a checked build of the program would panic on. */
module MachineInts {

  const U64_LIMIT: int := 0x1_0000_0000_0000_0000
  const U128_LIMIT: int := 0x1_0000_0000_0000_0000_0000_0000_0000_0000

  newtype uint16 = x: int | 0 <= x < 0x1_0000
  newtype uint32 = x: int | 0 <= x < 0x1_0000_0000
  newtype uint64 = x: int | 0 <= x < U64_LIMIT
  newtype uint128 = x: int | 0 <= x < U128_LIMIT
  newtype int64 = x: int | -0x8000_0000_0000_0000 <= x < 0x8000_0000_0000_0000
  newtype int128 = x: int | -(U128_LIMIT / 2) <= x < U128_LIMIT / 2

  /** The `as u32` cast: the low 32 bits in two's complement. */
  function TruncateToU32(x: int64): (r: uint32)
    ensures exists q: int :: x as int == q * 0x1_0000_0000 + r as int
  {
    assert x as int == (x as int / 0x1_0000_0000) * 0x1_0000_0000 + x as int % 0x1_0000_0000;
    ((x as int) % 0x1_0000_0000) as uint32
  }

  // ----- Shifts and bitwise or -----------------------------------------------------------------

  function ShiftLeft(x: nat, k: nat): nat {
    if k == 0 then x else 2 * ShiftLeft(x, k - 1)
  }

  /** `x << 8` on 128-bit words: what leaves them is dropped. */
  function ShiftByteLeft(x: uint128): uint128 {
    (ShiftLeft(x as nat, 8) % U128_LIMIT) as uint128
  }

  /** Bit by bit, from the lowest. */
  function BitOr(x: nat, y: nat): nat
    decreases x + y
  {
    if x == 0 && y == 0 then 0
    else 2 * BitOr(x / 2, y / 2) + if x % 2 == 1 || y % 2 == 1 then 1 else 0
  }

  lemma {:induction false} BitOrZero(x: nat)
    ensures BitOr(x, 0) == x
  {
    if x > 0 {
      BitOrZero(x / 2);
    }
  }

  /** Or-ing into bits that a shift has vacated is an addition. */
  lemma {:induction false} OrIntoVacated(x: nat, low: nat, k: nat)
    requires low < ShiftLeft(1, k)
    ensures BitOr(ShiftLeft(x, k), low) == ShiftLeft(x, k) + low
  {
    if k == 0 {
      BitOrZero(x);
    } else {
      OrIntoVacated(x, low / 2, k - 1);
    }
  }

  lemma ShiftByEight(x: nat)
    ensures ShiftLeft(x, 8) == 256 * x
  {
    assert ShiftLeft(x, 1) == 2 * x;
    assert ShiftLeft(x, 2) == 4 * x;
    assert ShiftLeft(x, 3) == 8 * x;
    assert ShiftLeft(x, 4) == 16 * x;
    assert ShiftLeft(x, 5) == 32 * x;
    assert ShiftLeft(x, 6) == 64 * x;
    assert ShiftLeft(x, 7) == 128 * x;
  }

  lemma ShiftAndOr(x: uint128, b: uint128)
    requires x as int * 256 + b as int < U128_LIMIT && b < 256
    ensures BitOr(ShiftByteLeft(x) as nat, b as nat) == x as int * 256 + b as int
  {
    ShiftByEight(x as nat);
    ShiftByEight(1);
    assert ShiftByteLeft(x) as nat == ShiftLeft(x as nat, 8);
    OrIntoVacated(x as nat, b as nat, 8);
  }
}
