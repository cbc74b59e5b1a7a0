/** Octets, results, and the fixed-width arithmetic of the original program. */
module Octets {

  type Octet = x: int | 0 <= x < 256

  const TWO31: int := 0x8000_0000
  const TWO32: int := 0x1_0000_0000
  const TWO63: int := 0x8000_0000_0000_0000
  const TWO64: int := 0x1_0000_0000_0000_0000

  datatype Option<+T> = None | Some(value: T)

  /** The exceptions which the parsing code can throw. */
  datatype Error = Eof | Overflow | Invalid

  datatype Result<+T> = Ok(value: T) | Err(error: Error)

  /** The outcome of parsing a sequence: a value and the octets left over, or an exception. */
  datatype Parsed<+T> = Done(value: T, rest: seq<Octet>) | Failed(error: Error)

  predicate IsInt32(x: int) { -0x8000_0000 <= x < 0x8000_0000 }

  predicate IsInt64(x: int) { -TWO63 <= x < TWO63 }

  predicate IsUInt64(x: int) { 0 <= x < TWO64 }

  function Abs(x: int): nat { if x < 0 then -x else x }

  type Int32 = x: int | -0x8000_0000 <= x < 0x8000_0000
  type Int64 = x: int | -0x8000_0000_0000_0000 <= x < 0x8000_0000_0000_0000
  type UInt64 = x: int | 0 <= x < 0x1_0000_0000_0000_0000

  /** Conversion of a wider integer to a 32-bit two's complement int. */
  function ToInt32(x: int): (r: Int32)
    ensures IsInt32(x) ==> r == x
  {
    var m := x % TWO32;
    if m < TWO31 then m else m - TWO32
  }

  /** Conversion of a signed integer to a 64-bit unsigned integer. */
  function ToUInt64(x: Int64): (r: UInt64)
    ensures r == x % TWO64
  {
    if x < 0 then x + TWO64 else x
  }

  /** Right shift, rounding towards minus infinity as an arithmetic shift does.
      A shift by the whole width or more gives 0 (or -1 if negative). */
  function Shr(v: int, n: nat): int {
    if n == 0 then v else Shr(v, n - 1) / 2
  }

  lemma ShrBy7(v: int, n: nat)
    ensures Shr(v, n + 7) == Shr(v, n) / 128
  {
    var a := Shr(v, n);
    assert Shr(v, n + 1) == a / 2;
    assert Shr(v, n + 2) == a / 2 / 2 == a / 4;
    assert Shr(v, n + 3) == a / 4 / 2 == a / 8;
    assert Shr(v, n + 4) == a / 8 / 2 == a / 16;
    assert Shr(v, n + 5) == a / 16 / 2 == a / 32;
    assert Shr(v, n + 6) == a / 32 / 2 == a / 64;
    assert Shr(v, n + 7) == a / 64 / 2 == a / 128;
  }

  lemma ShrBy8(v: int, n: nat)
    ensures Shr(v, n + 8) == Shr(v, n) / 256
  {
    ShrBy7(v, n);
    assert Shr(v, n + 8) == Shr(v, n + 7) / 2;
  }

  lemma {:induction false} ShrPositive(v: int, n: nat)
    requires 0 <= v
    ensures 0 <= Shr(v, n) <= v
  {
    if n == 0 {
    } else {
      ShrPositive(v, n - 1);
    }
  }

  /** Complementing commutes with shifting. */
  lemma {:induction false} ShrComplement(v: int, n: nat)
    ensures Shr(-v - 1, n) == -Shr(v, n) - 1
  {
    if n == 0 {
    } else {
      ShrComplement(v, n - 1);
    }
  }

  function Pow2(n: nat): nat {
    if n == 0 then 1 else 2 * Pow2(n - 1)
  }

  lemma {:induction false} ShrRange(v: int, n: nat, k: nat)
    requires 0 <= v + Pow2(n + k) && v < Pow2(n + k)
    ensures 0 <= Shr(v, n) + Pow2(k) && Shr(v, n) < Pow2(k)
  {
    if n == 0 {
    } else {
      assert n - 1 + (k + 1) == n + k;
      ShrRange(v, n - 1, k + 1);
    }
  }

  /** Shifting never takes a value out of a range which includes zero. */
  lemma {:induction false} ShrWithin(lo: int, hi: int, v: int, n: nat)
    requires lo <= v < hi && lo <= 0 < hi
    ensures lo <= Shr(v, n) < hi
  {
    if n == 0 {
    } else {
      ShrWithin(lo, hi, v, n - 1);
    }
  }

  lemma {:induction false} ShrWrapped(v: int, n: nat)
    requires n <= 64
    ensures Shr(v + Pow2(64), n) == Shr(v, n) + Pow2(64 - n)
  {
    if n == 0 {
    } else {
      ShrWrapped(v, n - 1);
      assert Pow2(64 - (n - 1)) == 2 * Pow2(64 - n);
    }
  }

  lemma Pow2Values()
    ensures Pow2(64) == TWO64 && Pow2(63) == TWO63 && Pow2(32) == TWO32 && Pow2(0) == 1
  {
    assert Pow2(8) == 256;
    assert Pow2(16) == 0x10000;
    assert Pow2(24) == 0x100_0000;
    assert Pow2(32) == TWO32;
    assert Pow2(40) == 0x100_0000_0000;
    assert Pow2(48) == 0x1_0000_0000_0000;
    assert Pow2(56) == 0x100_0000_0000_0000;
    assert Pow2(63) == TWO63;
  }

  /** Seven bits of a value can be taken from its 64-bit two's complement form. */
  lemma ShrTwosComplement(v: int, n: nat)
    requires IsInt64(v) && n <= 57
    ensures Shr(ToUInt64(v), n) % 128 == Shr(v, n) % 128
  {
    if v < 0 {
      assert Pow2(64) == TWO64 by { Pow2Values(); }
      ShrWrapped(v, n);
      assert 57 - n + 7 == 64 - n;
      Pow2By7(57 - n);
      AddMultiple(Shr(v, n), Pow2(57 - n));
    }
  }

  lemma AddMultiple(a: int, k: int)
    ensures (a + 128 * k) % 128 == a % 128
  {
  }

  lemma Pow2By7(n: nat)
    ensures Pow2(n + 7) == 128 * Pow2(n)
  {
    assert Pow2(n + 1) == 2 * Pow2(n);
    assert Pow2(n + 2) == 4 * Pow2(n);
    assert Pow2(n + 3) == 8 * Pow2(n);
    assert Pow2(n + 4) == 16 * Pow2(n);
    assert Pow2(n + 5) == 32 * Pow2(n);
    assert Pow2(n + 6) == 64 * Pow2(n);
  }
}
