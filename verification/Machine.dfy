/** Fixed-width integer limits, the saturating operations of the engine, and common definitions. */
module Machine {
  const U16_COUNT: nat := 0x1_0000
  const U32_MAX: nat := 0xFFFF_FFFF
  const U64_MAX: nat := 0xFFFF_FFFF_FFFF_FFFF
  const U64_COUNT: nat := 0x1_0000_0000_0000_0000

  type u32 = n: nat | n <= U32_MAX
  type u64 = n: nat | n <= U64_MAX

  function SatSub(a: nat, b: nat): nat {
    if a <= b then 0 else a - b
  }

  function SatAdd32(a: nat, b: nat): u32 {
    if a + b <= U32_MAX then a + b else U32_MAX
  }

  function SatAdd64(a: nat, b: nat): u64 {
    if a + b <= U64_MAX then a + b else U64_MAX
  }

  /** Addition as a release build does it, without overflow checks. */
  function WrapAdd64(a: u64, b: u64): u64 {
    if a + b <= U64_MAX then a + b else a + b - U64_COUNT
  }

  ghost predicate Distinct<T>(s: seq<T>) {
    forall i, j :: 0 <= i < j < |s| ==> s[i] != s[j]
  }

  datatype Option<+T> = None | Some(value: T)

  datatype Result<+T, +E> = Ok(value: T) | Err(error: E)
}
