/**
  Fixed-width machine integers of the eBPF program, as ranges of `int`,
  with the two width-changing operations the handlers perform explicitly.
 */
module MachineInts {

  const U32_MODULUS: int := 0x1_0000_0000
  const U64_MODULUS: int := 0x1_0000_0000_0000_0000
  const U64_MAX: int := U64_MODULUS - 1

  type u8 = x: int | 0 <= x < 256
  type u32 = x: int | 0 <= x < U32_MODULUS
  type u64 = x: int | 0 <= x < U64_MODULUS
  /** The signed error codes BPF helpers return (`c_long`). */
  type i64 = x: int | -0x8000_0000_0000_0000 <= x < 0x8000_0000_0000_0000

  /**
    Rust's `n as u32` on an `i64`: keeps the low 32 bits of the two's-complement
    representation, that is, the unique `u32` congruent to `n` modulo 2^32.
   */
  function AsU32(n: i64): (r: u32)
    ensures (r - n) % U32_MODULUS == 0
    ensures 0 <= n < U32_MODULUS ==> r == n
    ensures -U32_MODULUS <= n < 0 ==> r == n + U32_MODULUS
  {
    n % U32_MODULUS
  }

  /**
    Addition modulo 2^64, as `u64::wrapping_add` computes it: the increment
    that `issue_event_id` evidently intends for the counter slot.
   */
  function WrappingAdd(a: u64, b: u64): (r: u64)
    ensures a + b < U64_MODULUS ==> r == a + b
    ensures a + b >= U64_MODULUS ==> r == a + b - U64_MODULUS
  {
    (a + b) % U64_MODULUS
  }

  /** Splitting a number into its low byte and the rest. */
  lemma DivModByte(low: nat, high: nat)
    requires low < 256
    ensures (low + 256 * high) % 256 == low && (low + 256 * high) / 256 == high
  {
  }
}
