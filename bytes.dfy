/** Fixed-width integers as the Rust source uses them, and big-endian byte strings. */
module Bytes {

  type byte = x: int | 0 <= x < 0x100

  const U32_LIMIT: int := 0x1_0000_0000
  const I32_LIMIT: int := 0x8000_0000

  type u32 = x: int | 0 <= x < 0x1_0000_0000
  type i32 = x: int | -0x8000_0000 <= x < 0x8000_0000

  /** `n as u32` applied to a length `n`: only the low 32 bits survive. */
  function AsU32(n: nat): (r: u32)
    ensures r <= n
    ensures n < U32_LIMIT ==> r == n
    decreases n
  {
    if n < U32_LIMIT then n else AsU32(n - U32_LIMIT)
  }

  /** `AsU32` keeps the remainder modulo 2^32. */
  lemma {:induction false} AsU32IsLow32(n: nat)
    ensures AsU32(n) == n % U32_LIMIT
    decreases n
  {
    if n >= U32_LIMIT {
      AsU32IsLow32(n - U32_LIMIT);
    }
  }

  /** Adding two lengths in `u32` keeps the low 32 bits of their sum. */
  lemma {:induction false} AsU32Add(x: nat, y: nat)
    ensures AsU32(AsU32(x) + AsU32(y)) == AsU32(x + y)
    decreases x + y
  {
    if x >= U32_LIMIT {
      AsU32Add(x - U32_LIMIT, y);
      assert AsU32(x + y) == AsU32(x - U32_LIMIT + y);
    } else if y >= U32_LIMIT {
      AsU32Add(x, y - U32_LIMIT);
      assert AsU32(x + y) == AsU32(x + (y - U32_LIMIT));
    }
  }

  /** The 32-bit pattern that stores `n` in two's complement. */
  function TwosComplement32(n: i32): (r: u32)
    ensures n >= 0 ==> r == n
    ensures n < 0 ==> r >= I32_LIMIT
  {
    if n < 0 then n + U32_LIMIT else n
  }

  /** `n as i32` applied to a length `n`: the low 32 bits, read as two's complement. */
  function AsI32(n: nat): i32
  {
    var low := AsU32(n);
    if low < I32_LIMIT then low else low - U32_LIMIT
  }

  /**
   * A length below 2^31 survives `as i32`; one from 2^31 up to 2^32 turns negative; either way
   * the bits written for the result are the low 32 bits of the length.
   */
  lemma AsI32Cases(n: nat)
    ensures n < I32_LIMIT ==> AsI32(n) == n
    ensures I32_LIMIT <= n < U32_LIMIT ==> AsI32(n) < 0
    ensures TwosComplement32(AsI32(n)) == AsU32(n)
  {
  }

  function Pow256(n: nat): (r: nat)
    ensures r > 0
  {
    if n == 0 then 1 else 0x100 * Pow256(n - 1)
  }

  lemma Pow256Values()
    ensures Pow256(1) == 0x100 && Pow256(2) == 0x1_0000
    ensures Pow256(4) == U32_LIMIT && Pow256(8) == 0x1_0000_0000_0000_0000
  {
    assert Pow256(2) == 0x1_0000;
    assert Pow256(3) == 0x100_0000;
    assert Pow256(4) == U32_LIMIT;
    assert Pow256(6) == 0x1_0000_0000_0000;
  }

  /** The unsigned number whose big-endian bytes are `s`. */
  function BigEndian(s: seq<byte>): (r: nat)
    ensures r < Pow256(|s|)
  {
    if s == [] then 0 else BigEndian(s[..|s| - 1]) * 0x100 + s[|s| - 1]
  }

  /** The `width` big-endian bytes of `u`; `BigEndian` reads them back. */
  function ToBigEndian(u: nat, width: nat): (r: seq<byte>)
    requires u < Pow256(width)
    ensures |r| == width && BigEndian(r) == u
  {
    if width == 0 then []
    else
      var front := ToBigEndian(u / 0x100, width - 1);
      var r := front + [u % 0x100];
      assert r[..|r| - 1] == front;
      r
  }
}
