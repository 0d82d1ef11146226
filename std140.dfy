/** The `std140` primitives: the types that implement the `Std140` trait,
    their `ALIGNMENT` constants, their in-memory byte images (fields in
    declaration order, the matrices with their explicit padding fields), and
    the identity conversion every such type gets from `AsStd140`. */
module Std140 {
  import opened Bytes
  import opened Align

  datatype Option<T> = None | Some(value: T)

  /** Bits of a 32-bit float, treated as an opaque word. */
  type Word = s: seq<byte> | |s| == 4 witness [0, 0, 0, 0]

  /** Bits of a 64-bit float, treated as an opaque double word. */
  type DoubleWord = s: seq<byte> | |s| == 8 witness [0, 0, 0, 0, 0, 0, 0, 0]

  datatype Vec2 = Vec2(x: Word, y: Word)
  datatype Vec3 = Vec3(x: Word, y: Word, z: Word)
  datatype Vec4 = Vec4(x: Word, y: Word, z: Word, w: Word)

  /** Two columns; `padY` (`[f32; 2]`) pushes column `y` to byte 16. */
  datatype Mat2 = Mat2(x: Vec2, padY: (Word, Word), y: Vec2)

  /** Three columns, each of the last two preceded by one padding word. */
  datatype Mat3 = Mat3(x: Vec3, padY: Word, y: Vec3, padZ: Word, z: Vec3)

  datatype Mat4 = Mat4(x: Vec4, y: Vec4, z: Vec4, w: Vec4)

  /** The types with an `unsafe impl Std140`. */
  datatype Kind =
    | KindF32 | KindF64 | KindI32 | KindU32
    | KindVec2 | KindVec3 | KindVec4
    | KindMat2 | KindMat3 | KindMat4
  {
    predicate IsMatrix()
    {
      this == KindMat2 || this == KindMat3 || this == KindMat4
    }

    predicate IsVector()
    {
      this == KindVec2 || this == KindVec3 || this == KindVec4
    }
  }

  /** A value of one of those types. */
  datatype Value =
    | F32(f: Word)
    | F64(d: DoubleWord)
    | I32(i: int32)
    | U32(u: uint32)
    | V2(v2: Vec2)
    | V3(v3: Vec3)
    | V4(v4: Vec4)
    | M2(m2: Mat2)
    | M3(m3: Mat3)
    | M4(m4: Mat4)

  function KindOf(v: Value): Kind
  {
    match v
    case F32(_) => KindF32
    case F64(_) => KindF64
    case I32(_) => KindI32
    case U32(_) => KindU32
    case V2(_) => KindVec2
    case V3(_) => KindVec3
    case V4(_) => KindVec4
    case M2(_) => KindMat2
    case M3(_) => KindMat3
    case M4(_) => KindMat4
  }

  /** `Std140::ALIGNMENT`. No primitive aligns more strictly than a
      four-component vector, and every alignment divides its 16. */
  function AlignmentOf(k: Kind): (a: Alignment)
    ensures a <= 16 && IsAligned(16, a)
  {
    match k
    case KindF32 => 4
    case KindF64 => 8
    case KindI32 => 4
    case KindU32 => 4
    case KindVec2 => 8
    case KindVec3 => 16
    case KindVec4 => 16
    case KindMat2 => 16
    case KindMat3 => 16
    case KindMat4 => 16
  }

  /** `size_of`: the sum of the field sizes, fields laid in declaration order
      with no padding between them (every field is 4-aligned). This is NOT
      always a multiple of the alignment. */
  function SizeOf(k: Kind): (size: nat)
    ensures size > 0 && IsAligned(size, 4)
  {
    match k
    case KindF32 => 4
    case KindF64 => 8
    case KindI32 => 4
    case KindU32 => 4
    case KindVec2 => 8
    case KindVec3 => 12
    case KindVec4 => 16
    case KindMat2 => 24
    case KindMat3 => 44
    case KindMat4 => 64
  }

  /** A vector image: its components in declaration order, 4 bytes each. */
  function Vec2Bytes(v: Vec2): (r: seq<byte>)
    ensures |r| == 8
    ensures r[..4] == v.x && r[4..] == v.y
  {
    v.x + v.y
  }

  function Vec3Bytes(v: Vec3): (r: seq<byte>)
    ensures |r| == 12
    ensures r[..4] == v.x && r[4..8] == v.y && r[8..] == v.z
  {
    v.x + v.y + v.z
  }

  function Vec4Bytes(v: Vec4): (r: seq<byte>)
    ensures |r| == 16
    ensures r[..4] == v.x && r[4..8] == v.y && r[8..12] == v.z && r[12..] == v.w
  {
    v.x + v.y + v.z + v.w
  }

  /** A `Mat2` image: column `x` at byte 0, the `_pad_y` words at 8, column
      `y` at 16. */
  function Mat2Bytes(m: Mat2): (r: seq<byte>)
    ensures |r| == 24
    ensures r[..8] == Vec2Bytes(m.x) && r[16..24] == Vec2Bytes(m.y)
    ensures r[8..12] == m.padY.0 && r[12..16] == m.padY.1
  {
    Vec2Bytes(m.x) + m.padY.0 + m.padY.1 + Vec2Bytes(m.y)
  }

  /** A `Mat3` image: columns at bytes 0, 16 and 32, each of the last two
      preceded by its padding word. */
  function Mat3Bytes(m: Mat3): (r: seq<byte>)
    ensures |r| == 44
    ensures r[..12] == Vec3Bytes(m.x) && r[16..28] == Vec3Bytes(m.y) && r[32..44] == Vec3Bytes(m.z)
    ensures r[12..16] == m.padY && r[28..32] == m.padZ
  {
    Vec3Bytes(m.x) + m.padY + Vec3Bytes(m.y) + m.padZ + Vec3Bytes(m.z)
  }

  /** A `Mat4` image: columns at bytes 0, 16, 32 and 48. */
  function Mat4Bytes(m: Mat4): (r: seq<byte>)
    ensures |r| == 64
    ensures r[..16] == Vec4Bytes(m.x) && r[16..32] == Vec4Bytes(m.y)
    ensures r[32..48] == Vec4Bytes(m.z) && r[48..64] == Vec4Bytes(m.w)
  {
    var a, b, c, d := Vec4Bytes(m.x), Vec4Bytes(m.y), Vec4Bytes(m.z), Vec4Bytes(m.w);
    assert (a + b + c + d)[32..48] == c;
    assert (a + b + c + d)[48..64] == d;
    a + b + c + d
  }

  /** `bytes_of`: the value's in-memory image, field after field. */
  function BytesOf(v: Value): (r: seq<byte>)
    ensures |r| == SizeOf(KindOf(v))
  {
    match v
    case F32(f) => f
    case F64(d) => d
    case I32(i) => EncodeI32(i)
    case U32(u) => EncodeU32(u)
    case V2(a) => Vec2Bytes(a)
    case V3(a) => Vec3Bytes(a)
    case V4(a) => Vec4Bytes(a)
    case M2(m) => Mat2Bytes(m)
    case M3(m) => Mat3Bytes(m)
    case M4(m) => Mat4Bytes(m)
  }

  function Vec2From(s: seq<byte>): Vec2
    requires |s| == 8
  {
    Vec2(s[..4], s[4..8])
  }

  function Vec3From(s: seq<byte>): Vec3
    requires |s| == 12
  {
    Vec3(s[..4], s[4..8], s[8..12])
  }

  function Vec4From(s: seq<byte>): Vec4
    requires |s| == 16
  {
    Vec4(s[..4], s[4..8], s[8..12], s[12..16])
  }

  function Mat2From(s: seq<byte>): Mat2
    requires |s| == 24
  {
    Mat2(Vec2From(s[..8]), (s[8..12], s[12..16]), Vec2From(s[16..24]))
  }

  function Mat3From(s: seq<byte>): Mat3
    requires |s| == 44
  {
    Mat3(Vec3From(s[..12]), s[12..16], Vec3From(s[16..28]), s[28..32], Vec3From(s[32..44]))
  }

  function Mat4From(s: seq<byte>): Mat4
    requires |s| == 64
  {
    Mat4(Vec4From(s[..16]), Vec4From(s[16..32]), Vec4From(s[32..48]), Vec4From(s[48..64]))
  }

  /** Reading a value of type `k` back from its bytes. Every bit pattern of
      the right length is a value (the types are plain old data); any other
      length is not. */
  function FromBytes(k: Kind, s: seq<byte>): (r: Option<Value>)
    ensures r.Some? <==> |s| == SizeOf(k)
    ensures r.Some? ==> KindOf(r.value) == k
  {
    if |s| != SizeOf(k) then None
    else
      match k
      case KindF32 => Some(F32(s))
      case KindF64 => Some(F64(s))
      case KindI32 => Some(I32(DecodeI32(s)))
      case KindU32 => Some(U32(DecodeU32(s)))
      case KindVec2 => Some(V2(Vec2From(s)))
      case KindVec3 => Some(V3(Vec3From(s)))
      case KindVec4 => Some(V4(Vec4From(s)))
      case KindMat2 => Some(M2(Mat2From(s)))
      case KindMat3 => Some(M3(Mat3From(s)))
      case KindMat4 => Some(M4(Mat4From(s)))
  }

  lemma Vec2RoundTrip(v: Vec2, s: seq<byte>)
    requires |s| == 8
    ensures Vec2From(Vec2Bytes(v)) == v && Vec2Bytes(Vec2From(s)) == s
    ensures FromBytes(KindVec2, Vec2Bytes(v)) == Some(V2(v))
  {
    assert s == s[..4] + s[4..8];
  }

  lemma Vec3RoundTrip(v: Vec3, s: seq<byte>)
    requires |s| == 12
    ensures Vec3From(Vec3Bytes(v)) == v && Vec3Bytes(Vec3From(s)) == s
    ensures FromBytes(KindVec3, Vec3Bytes(v)) == Some(V3(v))
  {
    assert s == s[..4] + s[4..8] + s[8..12];
  }

  lemma Vec4RoundTrip(v: Vec4, s: seq<byte>)
    requires |s| == 16
    ensures Vec4From(Vec4Bytes(v)) == v && Vec4Bytes(Vec4From(s)) == s
    ensures FromBytes(KindVec4, Vec4Bytes(v)) == Some(V4(v))
  {
    assert s == s[..4] + s[4..8] + s[8..12] + s[12..16];
  }

  lemma Mat2RoundTrip(m: Mat2, s: seq<byte>)
    requires |s| == 24
    ensures Mat2From(Mat2Bytes(m)) == m && Mat2Bytes(Mat2From(s)) == s
    ensures FromBytes(KindMat2, Mat2Bytes(m)) == Some(M2(m))
  {
    var t := Mat2Bytes(m);
    Vec2RoundTrip(m.x, s[..8]);
    Vec2RoundTrip(m.y, s[16..24]);
    assert Mat2From(t).x == Vec2From(t[..8]);
    assert s == s[..8] + s[8..12] + s[12..16] + s[16..24];
  }

  lemma Mat3RoundTrip(m: Mat3, s: seq<byte>)
    requires |s| == 44
    ensures Mat3From(Mat3Bytes(m)) == m && Mat3Bytes(Mat3From(s)) == s
    ensures FromBytes(KindMat3, Mat3Bytes(m)) == Some(M3(m))
  {
    var t := Mat3Bytes(m);
    Vec3RoundTrip(m.x, s[..12]);
    Vec3RoundTrip(m.y, s[16..28]);
    Vec3RoundTrip(m.z, s[32..44]);
    assert s == s[..12] + s[12..16] + s[16..28] + s[28..32] + s[32..44];
  }

  lemma Mat4RoundTrip(m: Mat4, s: seq<byte>)
    requires |s| == 64
    ensures Mat4From(Mat4Bytes(m)) == m && Mat4Bytes(Mat4From(s)) == s
    ensures FromBytes(KindMat4, Mat4Bytes(m)) == Some(M4(m))
  {
    var t := Mat4Bytes(m);
    Vec4RoundTrip(m.x, s[..16]);
    Vec4RoundTrip(m.y, s[16..32]);
    Vec4RoundTrip(m.z, s[32..48]);
    Vec4RoundTrip(m.w, s[48..64]);
    assert s == s[..16] + s[16..32] + s[32..48] + s[48..64];
  }

  /** Re-reading a value's bytes yields the value, field for field. */
  lemma FromBytesOfBytes(v: Value)
    ensures FromBytes(KindOf(v), BytesOf(v)) == Some(v)
  {
    match v
    case F32(f) => assert FromBytes(KindF32, f) == Some(F32(f));
    case F64(d) => assert FromBytes(KindF64, d) == Some(F64(d));
    case I32(i) =>
      var s := EncodeI32(i);
      I32RoundTrip(i, s);
      assert FromBytes(KindI32, s) == Some(I32(DecodeI32(s)));
    case U32(u) =>
      var s := EncodeU32(u);
      U32RoundTrip(u, s);
      assert FromBytes(KindU32, s) == Some(U32(DecodeU32(s)));
    case V2(a) =>
      Vec2RoundTrip(a, Vec2Bytes(a));
    case V3(a) =>
      Vec3RoundTrip(a, Vec3Bytes(a));
    case V4(a) =>
      Vec4RoundTrip(a, Vec4Bytes(a));
    case M2(m) =>
      Mat2RoundTrip(m, Mat2Bytes(m));
    case M3(m) =>
      Mat3RoundTrip(m, Mat3Bytes(m));
    case M4(m) =>
      Mat4RoundTrip(m, Mat4Bytes(m));
  }

  /** A value read back from bytes has exactly those bytes. */
  lemma BytesOfFromBytes(k: Kind, s: seq<byte>)
    requires |s| == SizeOf(k)
    ensures BytesOf(FromBytes(k, s).value) == s
  {
    match k
    case KindI32 => I32RoundTrip(0, s);
    case KindU32 => U32RoundTrip(0, s);
    case KindVec2 => Vec2RoundTrip(Vec2From(s), s);
    case KindVec3 => Vec3RoundTrip(Vec3From(s), s);
    case KindVec4 => Vec4RoundTrip(Vec4From(s), s);
    case KindMat2 => Mat2RoundTrip(Mat2From(s), s);
    case KindMat3 => Mat3RoundTrip(Mat3From(s), s);
    case KindMat4 => Mat4RoundTrip(Mat4From(s), s);
    case _ =>
  }

  /** `AsStd140::as_std140` for a type that is already `Std140`: the type is
      its own `Std140Type` and the value is copied unchanged. */
  function AsStd140(v: Value): (r: Value)
    ensures KindOf(r) == KindOf(v)
    ensures BytesOf(r) == BytesOf(v)
  {
    v
  }

  /** Number of columns of a matrix type. */
  function Columns(k: Kind): nat
    requires k.IsMatrix()
  {
    match k
    case KindMat2 => 2
    case KindMat3 => 3
    case KindMat4 => 4
  }

  /** The type of a matrix's columns. */
  function ColumnKind(k: Kind): (c: Kind)
    requires k.IsMatrix()
    ensures c.IsVector() && !c.IsMatrix()
    ensures SizeOf(c) == 4 * Columns(k)
  {
    match k
    case KindMat2 => KindVec2
    case KindMat3 => KindVec3
    case KindMat4 => KindVec4
  }

  /** Column `c` of a matrix value. */
  function Column(v: Value, c: nat): (r: Value)
    requires KindOf(v).IsMatrix() && c < Columns(KindOf(v))
    ensures KindOf(r) == ColumnKind(KindOf(v))
  {
    match v
    case M2(m) => V2(if c == 0 then m.x else m.y)
    case M3(m) => V3(if c == 0 then m.x else if c == 1 then m.y else m.z)
    case M4(m) => V4(if c == 0 then m.x else if c == 1 then m.y else if c == 2 then m.z else m.w)
  }

  lemma Mat2Column(m: Mat2, c: nat)
    requires c < 2
    ensures BytesOf(M2(m))[16 * c .. 16 * c + 8] == BytesOf(Column(M2(m), c))
  {
    var r := Mat2Bytes(m);
    assert BytesOf(M2(m)) == r;
    assert BytesOf(Column(M2(m), c)) == Vec2Bytes(if c == 0 then m.x else m.y);
    if c == 0 { assert r[0..8] == r[..8]; }
  }

  lemma Mat3Column(m: Mat3, c: nat)
    requires c < 3
    ensures BytesOf(M3(m))[16 * c .. 16 * c + 12] == BytesOf(Column(M3(m), c))
  {
    var r := Mat3Bytes(m);
    assert BytesOf(M3(m)) == r;
    assert BytesOf(Column(M3(m), c)) == Vec3Bytes(if c == 0 then m.x else if c == 1 then m.y else m.z);
    if c == 0 { assert r[0..12] == r[..12]; }
  }

  lemma Mat4Column(m: Mat4, c: nat)
    requires c < 4
    ensures BytesOf(M4(m))[16 * c .. 16 * c + 16] == BytesOf(Column(M4(m), c))
  {
    var r := Mat4Bytes(m);
    assert BytesOf(M4(m)) == r;
    assert BytesOf(Column(M4(m), c)) == Vec4Bytes(if c == 0 then m.x else if c == 1 then m.y else if c == 2 then m.z else m.w);
    if c == 0 { assert r[0..16] == r[..16]; }
  }

  /** Column `c` of every matrix type starts at byte `16 * c` of the image
      and occupies the bytes of that column's vector. */
  lemma ColumnLayout(v: Value, c: nat)
    requires KindOf(v).IsMatrix() && c < Columns(KindOf(v))
    ensures 16 * c + SizeOf(ColumnKind(KindOf(v))) <= SizeOf(KindOf(v))
    ensures BytesOf(v)[16 * c .. 16 * c + SizeOf(ColumnKind(KindOf(v)))] == BytesOf(Column(v, c))
  {
    match v
    case M2(m) =>
      assert SizeOf(ColumnKind(KindMat2)) == 8;
      Mat2Column(m, c);
    case M3(m) =>
      assert SizeOf(ColumnKind(KindMat3)) == 12;
      Mat3Column(m, c);
    case M4(m) =>
      assert SizeOf(ColumnKind(KindMat4)) == 16;
      Mat4Column(m, c);
  }
}
