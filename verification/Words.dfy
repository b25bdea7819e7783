/**
 Machine words as integers with explicit bounds.  A C operation that may wrap is
 written with `Wrap32` or `Wrap64`; where the result is merely given a word type,
 the verifier has shown that it does not wrap.
 */
module Words {
  const W32: int := 0x1_0000_0000
  const W63: int := 0x8000_0000_0000_0000
  const W64: int := 0x1_0000_0000_0000_0000

  type u32 = x: int | 0 <= x < 0x1_0000_0000
  type u64 = x: int | 0 <= x < 0x1_0000_0000_0000_0000

  function Wrap32(x: int): u32 {
    x % 0x1_0000_0000
  }

  function Wrap64(x: int): u64 {
    x % 0x1_0000_0000_0000_0000
  }

  function Low(x: u64): u32 {
    x % W32
  }

  function High(x: u64): u32 {
    x / W32
  }
}
