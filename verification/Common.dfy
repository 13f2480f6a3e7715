/** Types shared by the models of the C sources: bytes, 32-bit unsigned words and optional results. */
module Common {

  type byte = x: int | 0 <= x < 256

  const U32: int := 0x1_0000_0000

  /** uint32_t */
  type u32 = x: int | 0 <= x < U32

  datatype Option<+T> = None | Some(value: T)

  /** uint32_t addition, which wraps around. */
  function Add32(a: u32, b: u32): u32 {
    if a + b < U32 then a + b else a + b - U32
  }

  function Min(a: int, b: int): int {
    if a <= b then a else b
  }

  function Max(a: int, b: int): int {
    if a >= b then a else b
  }

  function Pow2(n: nat): (p: nat)
    ensures p > 0
  {
    if n == 0 then 1 else 2 * Pow2(n - 1)
  }

  /** uint16_t stored little-endian. */
  function Le16(v: int): (s: seq<byte>)
    requires 0 <= v < 0x1_0000
  {
    [v % 256, v / 256]
  }

  /** `mem` with the bytes from `at` on replaced by `src`. */
  function Patch<T>(mem: seq<T>, at: nat, src: seq<T>): (mem': seq<T>)
    requires at + |src| <= |mem|
    ensures |mem'| == |mem|
    ensures mem'[..at] == mem[..at]
    ensures mem'[at..at + |src|] == src
    ensures mem'[at + |src|..] == mem[at + |src|..]
  {
    mem[..at] + src + mem[at + |src|..]
  }

  lemma PatchPrefix<T>(mem: seq<T>, at: nat, src: seq<T>)
    requires at + |src| <= |mem|
    ensures Patch(mem, at, src)[..at + |src|] == mem[..at] + src
  {
  }

  /** memcpy into an array that does not overlap the source. */
  method MemCpy(dst: array<byte>, at: nat, src: seq<byte>)
    requires at + |src| <= dst.Length
    modifies dst
    ensures dst[..] == Patch(old(dst[..]), at, src)
  {
    forall i | 0 <= i < |src| {
      dst[at + i] := src[i];
    }
  }

  lemma SubsetSize<T>(a: set<T>, b: set<T>)
    requires a <= b
    ensures |a| <= |b|
  {
    assert b == a + (b - a);
  }

  lemma MulGap(c: nat, a: int, b: int)
    ensures a < b ==> c * a + c <= c * b
    ensures a <= b ==> c * a <= c * b
  {
    if a < b {
      assert c * b == c * a + c * (b - a);
      assert b - a >= 1;
    }
  }

  /** Quotient and remainder are unique. */
  lemma DivIs(a: int, n: nat, q: int, r: int)
    requires n > 0 && a == n * q + r && 0 <= r < n
    ensures a / n == q && a % n == r
  {
    MulGap(n, q, a / n);
    MulGap(n, a / n, q);
  }
}
