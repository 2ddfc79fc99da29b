/** Machine integers and the small wrapper types the other modules share. */
module Machine {
  const U64_MAX: nat := 0xFFFF_FFFF_FFFF_FFFF
  const U32_MAX: nat := 0xFFFF_FFFF

  type u8 = x: int | 0 <= x < 256
  type u32 = x: int | 0 <= x <= 0xFFFF_FFFF
  type u64 = x: int | 0 <= x <= 0xFFFF_FFFF_FFFF_FFFF

  datatype Option<+T> = None | Some(value: T)

  /** `u64::saturating_add`. */
  function SatAdd(a: u64, b: u64): u64 {
    if a + b > U64_MAX then U64_MAX else a + b
  }

  /** `u64::saturating_sub`. */
  function SatSub(a: u64, b: u64): u64 {
    if a < b then 0 else a - b
  }

  /** A natural number clipped to the largest `u64`. */
  function Clip(n: nat): u64 {
    if n > U64_MAX then U64_MAX else n
  }

  /** A natural number reduced as a truncating cast to `u64` reduces it. */
  function Wrap(n: nat): u64 {
    n % (U64_MAX + 1)
  }

  /** A word sum may be reduced at every step or once at the end. */
  lemma WrapAdds(a: nat, b: nat)
    ensures Wrap(Wrap(a) + b) == Wrap(a + b)
  {
    var m := U64_MAX + 1;
    assert a == m * (a / m) + a % m;
    var q := (a % m + b) / m;
    assert a % m + b == m * q + (a % m + b) % m;
    WrapOf(a + b, a / m + q, (a % m + b) % m);
  }

  lemma MulMonotone(a: nat, x: nat, y: nat)
    requires x <= y
    ensures a * x <= a * y
  {
  }

  lemma WrapOf(n: nat, q: int, r: nat)
    requires n == (U64_MAX + 1) * q + r && r <= U64_MAX
    ensures Wrap(n) == r
  {
  }
}
