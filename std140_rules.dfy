/** The `std140` rules of section 7.6.2.2 ("Standard Uniform Block Layout")
    of the OpenGL 4.6 Core Profile specification, written independently of
    the crate's table, and the comparison between the two. */
module Std140Rules {
  import opened Bytes
  import opened Align
  import opened Std140

  /** N: the size of the basic machine type of one component. */
  function ComponentSize(k: Kind): nat
  {
    if k == KindF64 then 8 else 4
  }

  /** Components of a scalar or vector type. */
  function Components(k: Kind): nat
    requires !k.IsMatrix()
  {
    match k
    case KindVec2 => 2
    case KindVec3 => 3
    case KindVec4 => 4
    case KindF32 | KindF64 | KindI32 | KindU32 => 1
  }

  /** Base alignment. Rule 1: a scalar aligns to N. Rule 2: a two-component
      vector to 2N. Rule 3: a three- or four-component vector to 4N. Rule 5:
      a column-major matrix is an array of its column vectors, and by rule 4
      such an array aligns to its element's alignment rounded up to that of a
      vec4 (16 bytes). */
  function BaseAlignment(k: Kind): Alignment
    decreases if k.IsMatrix() then 1 else 0
  {
    if k.IsMatrix() then RoundUp(BaseAlignment(ColumnKind(k)), 16)
    else if Components(k) == 1 then ComponentSize(k)
    else if Components(k) == 2 then 2 * ComponentSize(k)
    else 4 * ComponentSize(k)
  }

  /** Rule 4: the stride between the columns of a matrix. */
  function ColumnStride(k: Kind): nat
    requires k.IsMatrix()
  {
    RoundUp(BaseAlignment(ColumnKind(k)), 16)
  }

  /** Bytes a member of type `k` occupies before the next member may start:
      N per component for scalars and vectors, one stride per column for a
      matrix (rule 4: the array is padded at its end to the stride). */
  function RuleSize(k: Kind): nat
  {
    match k
    case KindF32 | KindF64 | KindI32 | KindU32 => ComponentSize(k)
    case KindVec2 => 2 * ComponentSize(k)
    case KindVec3 => 3 * ComponentSize(k)
    case KindVec4 => 4 * ComponentSize(k)
    case KindMat2 => 2 * ColumnStride(k)
    case KindMat3 => 3 * ColumnStride(k)
    case KindMat4 => 4 * ColumnStride(k)
  }

  /** Every `ALIGNMENT` constant is the base alignment the rules assign. */
  lemma AlignmentFollowsRules(k: Kind)
    ensures AlignmentOf(k) == BaseAlignment(k)
  {
  }

  /** Rule 5: a matrix of C columns is an array of C vectors, each of C
      single-precision components. */
  lemma ColumnsAreVectors(k: Kind)
    requires k.IsMatrix()
    ensures Components(ColumnKind(k)) == Columns(k) >= 2
    ensures ComponentSize(ColumnKind(k)) == 4
  {
  }

  /** Matrix columns of every size are 16 bytes apart. */
  lemma ColumnStrideIs16(k: Kind)
    requires k.IsMatrix()
    ensures ColumnStride(k) == 16
  {
  }

  /** Rule 4: where column `c` of a matrix begins, `c` strides in. */
  function ColumnStart(k: Kind, c: nat): (start: nat)
    requires k.IsMatrix() && c < Columns(k)
    ensures start == 16 * c
  {
    ColumnStrideIs16(k);
    assert c * ColumnStride(k) == c * 16;
    c * ColumnStride(k)
  }

  /** Every column of a matrix value sits at its rule-4 start and holds that
      column vector's bytes. */
  lemma ColumnsAtRuleStride(v: Value, c: nat)
    requires KindOf(v).IsMatrix() && c < Columns(KindOf(v))
    ensures ColumnStart(KindOf(v), c) + SizeOf(ColumnKind(KindOf(v))) <= SizeOf(KindOf(v))
    ensures BytesOf(v)[ColumnStart(KindOf(v), c) .. ColumnStart(KindOf(v), c) + SizeOf(ColumnKind(KindOf(v)))]
         == BytesOf(Column(v, c))
  {
    ColumnLayout(v, c);
  }

  /** Rules 4 and 5 make a matrix one 16-byte stride per column. */
  lemma MatrixRuleSize(k: Kind)
    requires k.IsMatrix()
    ensures RuleSize(k) == 16 * Columns(k)
  {
    ColumnStrideIs16(k);
  }

  /** The crate's sizes against the rules: they agree everywhere except that
      `Mat2` and `Mat3` stop right after their last column, short of that
      column's stride. */
  lemma SizeAgainstRules(k: Kind)
    ensures SizeOf(k) <= RuleSize(k)
    ensures SizeOf(k) < RuleSize(k) <==> k == KindMat2 || k == KindMat3
    ensures k.IsMatrix() ==>
      RuleSize(k) - SizeOf(k) == ColumnStride(k) - SizeOf(ColumnKind(k))
  {
    match k
    case KindF32 => assert SizeOf(k) == RuleSize(k) == 4;
    case KindF64 => assert SizeOf(k) == RuleSize(k) == 8;
    case KindI32 => assert SizeOf(k) == RuleSize(k) == 4;
    case KindU32 => assert SizeOf(k) == RuleSize(k) == 4;
    case KindVec2 => assert SizeOf(k) == RuleSize(k) == 8;
    case KindVec3 => assert SizeOf(k) == RuleSize(k) == 12;
    case KindVec4 => assert SizeOf(k) == RuleSize(k) == 16;
    case KindMat2 =>
      MatrixRuleSize(k);
      ColumnStrideIs16(k);
      assert RuleSize(k) == 32 && SizeOf(k) == 24 && SizeOf(ColumnKind(k)) == 8;
    case KindMat3 =>
      MatrixRuleSize(k);
      ColumnStrideIs16(k);
      assert RuleSize(k) == 48 && SizeOf(k) == 44 && SizeOf(ColumnKind(k)) == 12;
    case KindMat4 =>
      MatrixRuleSize(k);
      ColumnStrideIs16(k);
      assert RuleSize(k) == 64 && SizeOf(k) == 64 && SizeOf(ColumnKind(k)) == 16;
  }

  /** The image a `std140` member of this type should have: the crate's
      image followed by the zero padding that completes the last column's
      stride. */
  function RuleBytes(v: Value): (r: seq<byte>)
    ensures SizeOf(KindOf(v)) <= |r| == RuleSize(KindOf(v))
  {
    var k := KindOf(v);
    SizeAgainstRules(k);
    BytesOf(v) + Zeros(RuleSize(k) - SizeOf(k))
  }

  /** The corrected image starts with the crate's image and is zero after
      it. */
  lemma RuleBytesExtendsImage(v: Value)
    ensures RuleBytes(v)[..SizeOf(KindOf(v))] == BytesOf(v)
    ensures AllZero(RuleBytes(v)[SizeOf(KindOf(v))..])
  {
    var k := KindOf(v);
    SizeAgainstRules(k);
    var image, pad := BytesOf(v), Zeros(RuleSize(k) - SizeOf(k));
    assert RuleBytes(v) == image + pad;
    assert (image + pad)[..|image|] == image;
    assert (image + pad)[|image|..] == pad;
  }

  /** A matrix's corrected image is a whole number of strides, so whatever
      follows it starts on a fresh 16-byte boundary. */
  lemma RuleBytesOfMatrixAligned(v: Value)
    requires KindOf(v).IsMatrix()
    ensures AlignmentOf(KindOf(v)) == 16
    ensures IsAligned(|RuleBytes(v)|, 16)
  {
    var k := KindOf(v);
    MatrixRuleSize(k);
    var n := |RuleBytes(v)|;
    assert n == 32 || n == 48 || n == 64;
  }

  lemma SliceOfPrefix(r: seq<byte>, n: nat, i: nat, j: nat)
    requires i <= j <= n <= |r|
    ensures r[i..j] == r[..n][i..j]
  {
  }

  /** The corrected image keeps every column where the crate puts it. */
  lemma RuleBytesColumns(v: Value, c: nat)
    requires KindOf(v).IsMatrix() && c < Columns(KindOf(v))
    ensures RuleBytes(v)[ColumnStart(KindOf(v), c) .. ColumnStart(KindOf(v), c) + SizeOf(ColumnKind(KindOf(v)))]
         == BytesOf(Column(v, c))
  {
    var k := KindOf(v);
    ColumnsAtRuleStride(v, c);
    RuleBytesExtendsImage(v);
    SliceOfPrefix(RuleBytes(v), SizeOf(k), ColumnStart(k, c), ColumnStart(k, c) + SizeOf(ColumnKind(k)));
  }
}
