/**
 * Shared vocabulary of the model: an optional value (the source's `Option`,
 * and its null pointers), the little-endian byte layout of a 32-bit
 * register that the CPU identification and the descriptor code rely on,
 * and the wrap-around of `u32` arithmetic.
 */
module Base {

  /** The source's `Option<T>`; also used for a C pointer that may be null. */
  datatype Option<+T> = None | Some(value: T)

  /** `u32::to_le_bytes`: least significant byte first. */
  function LeBytes(w: bv32): (r: seq<bv8>)
    ensures |r| == 4
    ensures FromLeBytes(r) == w
  {
    [(w & 0xFF) as bv8, ((w >> 8) & 0xFF) as bv8, ((w >> 16) & 0xFF) as bv8, (w >> 24) as bv8]
  }

  /** `u32::from_le_bytes`, the inverse of `LeBytes`. */
  function FromLeBytes(b: seq<bv8>): bv32
    requires |b| == 4
  {
    (b[0] as bv32) | ((b[1] as bv32) << 8) | ((b[2] as bv32) << 16) | ((b[3] as bv32) << 24)
  }

  /** `char::is_ascii_graphic`: '!' through '~'. */
  predicate IsAsciiGraphic(c: char)
  {
    '!' <= c <= '~'
  }

  /** `n` copies of `x`. */
  function Repeat<T>(x: T, n: nat): (r: seq<T>)
    ensures |r| == n
    ensures forall i :: 0 <= i < n ==> r[i] == x
  {
    if n == 0 then [] else Repeat(x, n - 1) + [x]
  }

  /** The smaller of two integers. */
  function Min(a: int, b: int): (m: int)
    ensures m <= a && m <= b && (m == a || m == b)
  {
    if a < b then a else b
  }

  const U32_MOD: int := 0x1_0000_0000

  /** A value reduced to 32 unsigned bits, as `u32` arithmetic wraps. */
  function U32(x: int): (r: nat)
    ensures r < U32_MOD && (0 <= x < U32_MOD ==> r == x)
  {
    x % U32_MOD
  }

  /** Wrapping before or after adding `d` gives the same `u32`. */
  lemma U32Add(a: int, d: int)
    ensures U32(U32(a) + d) == U32(a + d)
  {
    var q := a / U32_MOD;
    assert a == q * U32_MOD + U32(a);
    assert U32(a) + d == (a + d) - q * U32_MOD;
  }
}
