/** Bytes as a sink receives them, and the fixed-width little-endian codec
    that reinterpreting a 32-bit integer as its bytes amounts to. */
module Bytes {

  type byte = b: int | 0 <= b < 256

  /** Two's-complement 32-bit signed integers (`i32`). */
  type int32 = i: int | -0x8000_0000 <= i < 0x8000_0000

  /** 32-bit unsigned integers (`u32`). */
  type uint32 = u: int | 0 <= u < 0x1_0000_0000

  /** `n` zero bytes. */
  function Zeros(n: nat): (r: seq<byte>)
    ensures |r| == n
    ensures forall i :: 0 <= i < n ==> r[i] == 0
  {
    seq(n, _ => 0)
  }

  ghost predicate AllZero(s: seq<byte>)
  {
    forall i :: 0 <= i < |s| ==> s[i] == 0
  }

  /** 256 to the power `k`: the number of distinct `k`-byte patterns. */
  function Pow256(k: nat): (r: nat)
    ensures r > 0
  {
    if k == 0 then 1 else 256 * Pow256(k - 1)
  }

  /** The `k` bytes of `n`, least significant first. */
  function EncodeLE(n: nat, k: nat): (r: seq<byte>)
    requires n < Pow256(k)
    ensures |r| == k
    decreases k
  {
    if k == 0 then [] else [n % 256] + EncodeLE(n / 256, k - 1)
  }

  /** The number whose little-endian bytes are `s`. */
  function DecodeLE(s: seq<byte>): (n: nat)
    ensures n < Pow256(|s|)
  {
    if s == [] then 0 else s[0] + 256 * DecodeLE(s[1..])
  }

  lemma {:induction false} DecodeEncodeLE(n: nat, k: nat)
    requires n < Pow256(k)
    ensures DecodeLE(EncodeLE(n, k)) == n
    decreases k
  {
    if k > 0 {
      var s := EncodeLE(n, k);
      assert s[1..] == EncodeLE(n / 256, k - 1);
      DecodeEncodeLE(n / 256, k - 1);
    }
  }

  lemma {:induction false} EncodeDecodeLE(s: seq<byte>)
    ensures EncodeLE(DecodeLE(s), |s|) == s
  {
    if s != [] {
      var n := DecodeLE(s);
      var t := DecodeLE(s[1..]);
      assert n == s[0] + 256 * t;
      assert n % 256 == s[0] && n / 256 == t;
      EncodeDecodeLE(s[1..]);
    }
  }

  lemma FourBytes()
    ensures Pow256(4) == 0x1_0000_0000
  {
  }

  /** Native (little-endian) bytes of a `u32`. */
  function EncodeU32(u: uint32): (r: seq<byte>)
    ensures r == [u % 0x100, u / 0x100 % 0x100, u / 0x1_0000 % 0x100, u / 0x100_0000]
  {
    FourBytes();
    EncodeLE(u, 4)
  }

  function DecodeU32(s: seq<byte>): (u: uint32)
    requires |s| == 4
  {
    FourBytes();
    DecodeLE(s)
  }

  /** Native bytes of an `i32`: the bytes of its two's-complement pattern. */
  function EncodeI32(i: int32): (r: seq<byte>)
    ensures |r| == 4
    ensures r[3] >= 0x80 <==> i < 0
  {
    EncodeU32(if i < 0 then i + 0x1_0000_0000 else i)
  }

  function DecodeI32(s: seq<byte>): (i: int32)
    requires |s| == 4
  {
    var u := DecodeU32(s);
    if u >= 0x8000_0000 then u - 0x1_0000_0000 else u
  }

  lemma U32RoundTrip(u: uint32, s: seq<byte>)
    requires |s| == 4
    ensures DecodeU32(EncodeU32(u)) == u
    ensures EncodeU32(DecodeU32(s)) == s
  {
    FourBytes();
    DecodeEncodeLE(u, 4);
    EncodeDecodeLE(s);
  }

  lemma I32RoundTrip(i: int32, s: seq<byte>)
    requires |s| == 4
    ensures DecodeI32(EncodeI32(i)) == i
    ensures EncodeI32(DecodeI32(s)) == s
  {
    U32RoundTrip(if i < 0 then i + 0x1_0000_0000 else i, s);
    U32RoundTrip(DecodeU32(s), s);
  }
}
