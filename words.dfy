/** Machine words of the Cortex-M3 target and the optional-result wrapper
    shared by the other modules. C's unsigned arithmetic wraps modulo 2^width;
    here integers are unbounded, so every wrap is written out explicitly. */
module Words {

  const U16_MOD: int := 0x1_0000
  const U32_MOD: int := 0x1_0000_0000
  const U64_MOD: int := 0x1_0000_0000_0000_0000
  /** Largest value of a 32-bit signed `int`, the type a `uint16_t` is promoted to. */
  const INT32_MAX: int := 0x7FFF_FFFF

  type u16 = x: int | 0 <= x < U16_MOD
  type u32 = x: int | 0 <= x < U32_MOD

  datatype Option<T> = None | Some(value: T)

  /** The value C stores in a `uint32_t` when assigned the mathematical value `x`. */
  function Wrap32(x: int): (r: u32)
    ensures 0 <= x < U32_MOD ==> r == x
    ensures (r - x) % U32_MOD == 0
  {
    x % U32_MOD
  }
}
