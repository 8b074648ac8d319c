/**
 * The djb2 byte hash of src/utils.c (`dbs_hash`): a 64-bit accumulator that
 * starts at 5381 and folds every byte in as `hash * 33 + byte`, wrapping
 * around at 2^64 like the C `u64` it is computed in.
 */
module Djb2 {

  /** An unsigned byte (`u8`). */
  type U8 = x: int | 0 <= x < 256

  /** The width of the accumulator: arithmetic on `u64` is modulo 2^64. */
  const TWO_64: int := 0x1_0000_0000_0000_0000

  /** An unsigned 64-bit value (`u64`). */
  type U64 = x: int | 0 <= x < 0x1_0000_0000_0000_0000

  /** The initial accumulator value. */
  const SEED: U64 := 5381

  /** The hash of a whole byte string, defined by folding its bytes left to right. */
  function HashOf(s: seq<U8>): U64
  {
    if s == [] then SEED else (33 * HashOf(s[..|s| - 1]) + s[|s| - 1]) % TWO_64
  }

  /** Appending one byte multiplies the previous hash by 33 and adds the byte, modulo 2^64. */
  lemma {:induction false} HashOfAppend(s: seq<U8>, x: U8)
    ensures HashOf(s + [x]) == (33 * HashOf(s) + x) % TWO_64
  {
    assert (s + [x])[..|s|] == s;
  }

  /** The empty string hashes to the seed. */
  lemma HashOfEmpty()
    ensures HashOf([]) == 5381
  {
  }

  /** One byte x hashes to 5381 * 33 + x = 177573 + x, far below the wrap-around. */
  lemma {:induction false} HashOfOneByte(x: U8)
    ensures HashOf([x]) == 177573 + x
  {
    HashOfAppend([], x);
    assert [] + [x] == [x];
  }

  /** Reducing a summand modulo 2^64 first does not change the sum modulo 2^64. */
  lemma {:induction false} ModAddLeft(a: int, b: int)
    requires 0 <= a && 0 <= b
    ensures (a % TWO_64 + b) % TWO_64 == (a + b) % TWO_64
  {
    var q := a / TWO_64;
    assert a == q * TWO_64 + a % TWO_64;
    assert a + b == (a % TWO_64 + b) + q * TWO_64;
  }

  /**
   * The C step `((hash << 5) + hash) + buf[i]` on a u64: each of the shift and
   * the two additions wraps at 2^64, and together they give 33 * hash + byte
   * modulo 2^64.
   */
  lemma {:induction false} ShiftAddStep(h: U64, b: U8)
    ensures (((h * 32) % TWO_64 + h) % TWO_64 + b) % TWO_64 == (33 * h + b) % TWO_64
  {
    ModAddLeft(h * 32, h);
    ModAddLeft(h * 32 + h, b);
  }

  /**
   * `dbs_hash`: hashes `buf[0..len-1]`. A length of zero or less leaves the
   * seed untouched; `buf` is only read.
   */
  method Hash(buf: array<U8>, len: int) returns (h: U64)
    requires len <= buf.Length
    ensures len <= 0 ==> h == SEED
    ensures 0 <= len ==> h == HashOf(buf[..len])
  {
    h := SEED;
    var i := 0;
    while i < len
      invariant 0 <= i <= buf.Length
      invariant len <= 0 ==> i == 0
      invariant 0 <= len ==> i <= len
      invariant h == HashOf(buf[..i])
    {
      var shifted := (h * 32) % TWO_64;       // hash << 5, wrapping
      var sum := (shifted + h) % TWO_64;      // + hash, wrapping
      ShiftAddStep(h, buf[i]);
      HashOfAppend(buf[..i], buf[i]);
      assert buf[..i + 1] == buf[..i] + [buf[i]];
      h := (sum + buf[i]) % TWO_64;           // + buf[i], wrapping
      i := i + 1;
    }
  }
}
