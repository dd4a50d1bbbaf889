/**
 * Machine integers of the Rust source (u8, u64, i64) as subset types of `int`,
 * with the wrap-around, the reinterpreting casts and the little-endian byte
 * order written out.
 */
module Words {

  const BYTE_LIMIT: nat := 0x100
  const U64_LIMIT: nat := 0x1_0000_0000_0000_0000
  const I64_LIMIT: nat := 0x8000_0000_0000_0000

  type u8 = b: int | 0 <= b < 0x100
  type u32 = x: int | 0 <= x < 0x1_0000_0000
  type u64 = x: int | 0 <= x < 0x1_0000_0000_0000_0000
  type i64 = x: int | -0x8000_0000_0000_0000 <= x < 0x8000_0000_0000_0000

  /** `a.wrapping_add(b)` on u64, and `+` on u64 addresses in a release build. */
  function WrappingAdd(a: u64, b: u64): u64 {
    if a + b < U64_LIMIT then a + b else a + b - U64_LIMIT
  }

  /** `wrapping_add` is addition modulo 2^64. */
  lemma WrappingAddSpec(a: u64, b: u64)
    ensures WrappingAdd(a, b) == (a + b) % U64_LIMIT
  {
  }

  /** `a.wrapping_sub(b)` on u64. */
  function WrappingSub(a: u64, b: u64): u64 {
    if a >= b then a - b else a - b + U64_LIMIT
  }

  /** Subtraction undoes addition modulo 2^64. */
  lemma WrappingSubAdd(a: u64, b: u64)
    ensures WrappingSub(WrappingAdd(a, b), b) == a
    ensures WrappingSub(a, b) == (a - b) % U64_LIMIT
  {
  }

  /** `a - b` on i64 in a release build: the result wraps into the i64 range. */
  function WrappingSubI64(a: i64, b: i64): i64 {
    var d := a - b;
    if d < -(I64_LIMIT as int) then d + U64_LIMIT else if d >= I64_LIMIT then d - U64_LIMIT else d
  }

  /** `a + b` on i64 in a release build. */
  function WrappingAddI64(a: i64, b: i64): i64 {
    var d := a + b;
    if d < -(I64_LIMIT as int) then d + U64_LIMIT else if d >= I64_LIMIT then d - U64_LIMIT else d
  }

  /** The wrapping i64 operations are the mathematical ones modulo 2^64. */
  lemma WrappingI64Spec(a: i64, b: i64)
    ensures WrappingSubI64(a, b) % U64_LIMIT == (a - b) % U64_LIMIT
    ensures WrappingAddI64(a, b) % U64_LIMIT == (a + b) % U64_LIMIT
    ensures -(I64_LIMIT as int) <= a - b < I64_LIMIT ==> WrappingSubI64(a, b) == a - b
    ensures -(I64_LIMIT as int) <= a + b < I64_LIMIT ==> WrappingAddI64(a, b) == a + b
  {
  }

  /** `x as i64` for `x: u64`: the same 64 bits read as two's complement. */
  function AsI64(x: u64): (r: i64)
    ensures r % U64_LIMIT == x
    ensures 0 <= r <==> x < I64_LIMIT
  {
    if x < I64_LIMIT then x else x - U64_LIMIT
  }

  /** `x as u64` for `x: i64`. */
  function AsU64(x: i64): (r: u64)
    ensures r == x % U64_LIMIT
    ensures x >= 0 ==> r == x
  {
    if x >= 0 then x else x + U64_LIMIT
  }

  /** The i64 that a wrapping i64 computation with mathematical result `x` yields. */
  function WrapI64(x: int): (r: i64)
    ensures r % U64_LIMIT == x % U64_LIMIT
    ensures -0x8000_0000_0000_0000 <= x < 0x8000_0000_0000_0000 ==> r == x
  {
    AsI64(x % U64_LIMIT)
  }

  /** The two casts are inverse bijections between u64 and i64. */
  lemma CastsRoundTrip(x: u64, y: i64)
    ensures AsU64(AsI64(x)) == x
    ensures AsI64(AsU64(y)) == y
  {
  }

  function Pow256(n: nat): (r: nat)
    ensures r >= 1
  {
    if n == 0 then 1 else 256 * Pow256(n - 1)
  }

  lemma Pow256Eight()
    ensures Pow256(8) == U64_LIMIT
  {
  }

  /** The unsigned little-endian value of a byte string: `bs[0]` is least significant. */
  function LeValue(bs: seq<u8>): nat {
    if bs == [] then 0 else bs[0] + 256 * LeValue(bs[1..])
  }

  /** The `n` low bytes of `v`, least significant first (`to_le_bytes` for n == 8). */
  function LeBytes(v: nat, n: nat): (r: seq<u8>)
    ensures |r| == n
  {
    if n == 0 then [] else [v % 256] + LeBytes(v / 256, n - 1)
  }

  lemma {:induction false} LeValueBound(bs: seq<u8>)
    ensures LeValue(bs) < Pow256(|bs|)
  {
    if bs != [] {
      LeValueBound(bs[1..]);
    }
  }

  /** Encoding after decoding gives the bytes back. */
  lemma {:induction false} LeBytesOfValue(bs: seq<u8>)
    ensures LeBytes(LeValue(bs), |bs|) == bs
  {
    if bs != [] {
      var v := LeValue(bs);
      assert v % 256 == bs[0] && v / 256 == LeValue(bs[1..]);
      LeBytesOfValue(bs[1..]);
    }
  }

  /** Decoding after encoding gives the value back, for values that fit in `n` bytes. */
  lemma {:induction false} LeValueOfBytes(v: nat, n: nat)
    requires v < Pow256(n)
    ensures LeValue(LeBytes(v, n)) == v
  {
    if n > 0 {
      LeValueOfBytes(v / 256, n - 1);
    }
  }

  /** Trailing zero bytes do not change the value (zero extension). */
  lemma {:induction false} LeValueZeroExtend(bs: seq<u8>, k: nat)
    ensures LeValue(bs + seq(k, _ => 0)) == LeValue(bs)
  {
    if bs == [] {
      if k > 0 {
        var z: seq<u8> := seq(k, _ => 0);
        assert bs + z == z && z[0] == 0;
        assert z[1..] == [] + seq(k - 1, _ => 0);
        LeValueZeroExtend([], k - 1);
      }
    } else {
      assert (bs + seq(k, _ => 0))[1..] == bs[1..] + seq(k, _ => 0);
      LeValueZeroExtend(bs[1..], k);
    }
  }

  /** `u64::from_le_bytes` */
  function FromLeBytes(bs: seq<u8>): u64
    requires |bs| == 8
  {
    LeValueBound(bs);
    Pow256Eight();
    LeValue(bs)
  }

  /** `from_le_bytes` inverts `to_le_bytes`: the word's encoding is the bytes it came from. */
  lemma FromLeBytesSpec(bs: seq<u8>)
    requires |bs| == 8
    ensures LeBytes(FromLeBytes(bs), 8) == bs
  {
    LeBytesOfValue(bs);
  }
}
