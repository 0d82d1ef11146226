# crevice `std140` in Dafny

This project models the `std140` module of the crevice crate. The module lays
out values for GPU uniform buffers under the `std140` rules of GLSL, which
are section 7.6.2.2 of the OpenGL 4.6 Core Profile specification. It has
four parts:

- **The primitives.** These are `f32`, `f64`, `i32`, `u32`, `Vec2`, `Vec3`,
  `Vec4`, `Mat2`, `Mat3` and `Mat4`, each with its `Std140::ALIGNMENT`
  constant. Each one's byte image is its fields in declaration order, and
  the matrices carry their explicit padding fields.
- **`AsStd140`.** Every `Std140` type gets the blanket `AsStd140` impl, with
  an identity `as_std140`.
- **`Writer`.** This is a cursor over a byte sink. `write` first emits zero
  bytes until the cursor reaches the value's alignment, then emits the value
  itself. `len` reports the cursor.
- **The rules.** A reference statement of rules 1–5 of section 7.6.2.2. The
  crate's constants and images are measured against it.

Modules:

- `Bytes`: bytes, zero runs, and the little-endian encoding of 32-bit
  integers.
- `Align`: `align_offset`, the least padding that makes an offset a multiple
  of an alignment.
- `Std140`: the primitives, their alignment and size tables, their images,
  decoding, `as_std140`, and the matrix columns.
- `Std140Rules`: the `std140` rules and the comparison with the crate.
- `Std140Writer`:
  - the `Writer` class;
  - the specification of a whole sequence of writes (`Stream`);
  - the example from the `Writer` documentation.

The sink is the `sink` field of `Writer`: the bytes it has accepted through
this writer. The sink's `write_all` is nondeterministic. It accepts some
prefix of the buffer, and it succeeds exactly when it takes the whole
buffer. A ghost history `written` records the successful writes. `Valid()`
ties the sink and the cursor to `Stream(0, written)`. Every successful write
keeps `Valid()`.

`Stream` and `Valid()` are definitions and carry no contract of their own.
What they mean is stated by the members about them: `StreamLength`,
`StreamSplit` and `StreamPlacement` for `Stream`, and the constructor,
`Write` and `WriteEach` for `Valid()`.

## Model

| member | source | states |
|---|---|---|
| Align.AlignOffset | src/std140.rs:149 | the padding is less than the alignment, and cursor plus padding is a multiple of the alignment |
| Align.AlignOffsetIsLeast | src/std140.rs:149 | no offset between the cursor and cursor plus padding is aligned, so the padding is the least that aligns |
| Align.AlignedNeedsNoPadding | src/std140.rs:149-153 | an already aligned cursor gets no padding bytes at all |
| Align.RoundUp | src/std140.rs:149-153 | where the value starts: aligned, at or after the cursor, and less than one alignment beyond it |
| Bytes.Zeros | src/std140.rs:151-153 | the padding run has the requested length and every byte of it is 0 |
| Bytes.EncodeU32 | src/std140.rs:180-182 | the image of a `u32` is its four bytes, least significant first |
| Bytes.EncodeI32 | src/std140.rs:176-178 | the image of an `i32` is 4 bytes, and its top byte has the sign bit set exactly when the value is negative |
| Bytes.DecodeEncodeLE | src/std140.rs:176-182 | decoding the k-byte little-endian image of n gives n back |
| Bytes.EncodeDecodeLE | src/std140.rs:176-182 | encoding what a byte string decodes to gives the same byte string back |
| Bytes.U32RoundTrip | src/std140.rs:180-182 | a `u32` and its 4-byte image determine each other, both ways |
| Bytes.I32RoundTrip | src/std140.rs:176-178 | an `i32` and its 4-byte two's-complement image determine each other, both ways |
| Std140.AlignmentOf | src/std140.rs:168-269 | every `ALIGNMENT` constant is at most 16 and divides 16 |
| Std140.SizeOf | src/std140.rs:147 | every `size_of` is positive and a whole number of 4-byte words |
| Std140.Vec2Bytes | src/std140.rs:185-195 | a `Vec2` is 8 bytes: `x` at 0..4 and `y` at 4..8 |
| Std140.Vec3Bytes | src/std140.rs:197-209 | a `Vec3` is 12 bytes: `x`, `y` and `z` at 0, 4 and 8 |
| Std140.Vec4Bytes | src/std140.rs:211-224 | a `Vec4` is 16 bytes: `x`, `y`, `z` and `w` at 0, 4, 8 and 12 |
| Std140.Mat2Bytes | src/std140.rs:226-238 | a `Mat2` is 24 bytes: column `x` at 0..8, the two pad words at 8..16, column `y` at 16..24 |
| Std140.Mat3Bytes | src/std140.rs:240-254 | a `Mat3` is 44 bytes: columns at 0, 16 and 32, each 12 bytes, with a pad word at 12 and at 28 |
| Std140.Mat4Bytes | src/std140.rs:256-269 | a `Mat4` is 64 bytes: its four 16-byte columns in order |
| Std140.BytesOf | src/std140.rs:168-269 | the image of every primitive is exactly `size_of` its type long |
| Std140.FromBytes | src/std140.rs:168-269 | bytes are read as a value of a type exactly when their length is that type's size, and the value has that type |
| Std140.FromBytesOfBytes | src/std140.rs:184-269 | reading back a value's image gives the value, every field and padding word included |
| Std140.BytesOfFromBytes | src/std140.rs:184-269 | any byte string of a type's size is the image of the value read from it, so the images are exactly those byte strings |
| Std140.AsStd140 | src/std140.rs:62-71 | the converted value has the same type and the same bytes as the original |
| Std140.ColumnKind | src/std140.rs:226-262 | a matrix column is a `Vec2`, `Vec3` or `Vec4`, never a scalar or a matrix, and a `C`-column matrix's column is `4·C` bytes, which together pin `Vec2` for `Mat2`, `Vec3` for `Mat3` and `Vec4` for `Mat4` |
| Std140.Column | src/std140.rs:226-262 | column `c` of a matrix is a value of the matrix's column type |
| Std140.Mat2Column | src/std140.rs:226-231 | bytes 16c..16c+8 of a `Mat2` are column c |
| Std140.Mat3Column | src/std140.rs:240-247 | bytes 16c..16c+12 of a `Mat3` are column c |
| Std140.Mat4Column | src/std140.rs:256-262 | bytes 16c..16c+16 of a `Mat4` are column c |
| Std140.ColumnLayout | src/std140.rs:226-262 | every column of every matrix lies inside the image at byte 16c and holds that column's bytes |
| Std140Rules.AlignmentFollowsRules | src/std140.rs:168-269 | every `ALIGNMENT` constant equals the base alignment of rules 1–5 |
| Std140Rules.ColumnsAreVectors | src/std140.rs:226-262 | a matrix's column type has as many `f32` components as the matrix has columns, at least 2, each 4 bytes |
| Std140Rules.ColumnStrideIs16 | src/std140.rs:226-262 | every matrix's column stride under rule 4 is 16 bytes |
| Std140Rules.ColumnStart | src/std140.rs:226-262 | column c of a matrix begins c strides in, at byte 16c |
| Std140Rules.ColumnsAtRuleStride | src/std140.rs:226-262 | each column of the crate's matrix image sits at its rule-4 start and holds that column's bytes |
| Std140Rules.MatrixRuleSize | src/std140.rs:226-269 | under the rules a matrix occupies one 16-byte stride per column |
| Std140Rules.SizeAgainstRules | src/std140.rs:184-269 | the sizes from `size_of` never exceed the rules' sizes. They fall short exactly for `Mat2` and `Mat3`, by the part of the last column's stride the column leaves empty |
| Std140Rules.RuleBytes | src/std140.rs:226-254 | the corrected image has the rules' size, which is never less than `size_of` |
| Std140Rules.RuleBytesExtendsImage | src/std140.rs:226-254 | the corrected image starts with the crate's image and is zero after it |
| Std140Rules.RuleBytesOfMatrixAligned | src/std140.rs:226-269 | a matrix's corrected image is a multiple of 16 bytes, its own alignment |
| Std140Rules.RuleBytesColumns | src/std140.rs:226-262 | the corrected image keeps every column at byte 16c |
| Std140Writer.ToPadded | src/std140.rs:147-148 | what `write` takes from a value: the `ALIGNMENT` of its `Std140Type`, and a `size_of`-long image that reads back as the value |
| Std140Writer.Emission | src/std140.rs:149-158 | one successful write emits padding plus `size_of` bytes |
| Std140Writer.StreamLength | src/std140.rs:143-161 | a run of successful writes emits at least the values' bytes, and at most one alignment less one byte of padding more per value |
| Std140Writer.StreamAppend | src/std140.rs:143-161 | writing `xs` then `ys` emits the stream of `xs`, then the stream of `ys` from the cursor where `xs` left it |
| Std140Writer.StreamSnoc | src/std140.rs:143-161 | one more write appends its emission and leaves the earlier bytes alone |
| Std140Writer.StreamSplit | src/std140.rs:143-161 | a stream is the values before `i`, then value `i`'s emission, then the writes after it |
| Std140Writer.StreamPlacement | src/std140.rs:143-161 | in any run of writes, value `i` starts aligned, less than one alignment after the previous value's end. The bytes in between are zero, and the value's bytes follow unchanged |
| Std140Writer.Writer.constructor | src/std140.rs:139-141 | a new writer has emitted nothing, its cursor is 0, and it is valid |
| Std140Writer.Writer.Len | src/std140.rs:163-165 | while no write has failed (`Valid()`), `len` is the number of bytes emitted, which is the length of the stream of the successful writes |
| Std140Writer.Writer.SinkWriteAll | src/std140.rs:152 | the sink takes a prefix of the buffer onto what it already holds, and succeeds exactly when it takes all of it |
| Std140Writer.Writer.Write | src/std140.rs:143-161 | some prefix of padding plus image is appended to the sink, and success means all of it was. On success the cursor advances by padding plus size. A failure while padding leaves the cursor where it was, and a failure while emitting the value leaves it advanced by the padding only. Success adds the value to the history and keeps `Valid()` |
| Std140Writer.WriteCountedList | src/std140.rs:111-125 | the documented example (a `u32` count, then each value, stopping at the first error) emits the stream of those values when every write succeeds, and a proper prefix of that stream when one fails |
| Std140Writer.WriteEach | src/std140.rs:121-124 | writing each value in turn until the first error: on success the history gains all the values and the writer stays valid; on failure the sink keeps the bytes it held before and is a proper prefix of the stream of the history plus all the values |
| Std140Writer.FailedWriteIsPrefix | src/std140.rs:143-161 | what the sink holds after a failed write, which never accepted all of its emission, is a proper prefix of the stream of any continuation of the writes |
| Std140Writer.CountThenAligned | src/std140.rs:114-119 | after the count, a 16-aligned value starts at byte 16, behind exactly 12 zero bytes |
| Std140Writer.AlignedThenNext | src/std140.rs:149-153 | when the first value needs no padding, the next value starts at the first one's end rounded up to its own alignment, never before that end |
| Std140Writer.SecondStart | src/std140.rs:147-153 | the second of two writes starts at the first one's end, padded to the second one's alignment |
| Std140Writer.BackToBack | src/std140.rs:149-153 | when both values already fit the cursor, the second starts right where the first ends |
| Std140Writer.WordAfterAligned | src/std140.rs:149-153 | from a new writer, a 4-aligned value written after a value of whole 4-byte words follows it with no padding |
| Std140Writer.Mat2ThenScalarAsWritten | src/std140.rs:226-238 | as written, an `f32` written after a `Mat2` starts at byte 24, short of the 32 bytes the rules give the matrix |
| Std140Writer.Mat3ThenScalarAsWritten | src/std140.rs:240-254 | as written, an `f32` written after a `Mat3` starts at byte 44, short of the 48 bytes the rules give the matrix |
| Std140Writer.ToRulePadded | src/std140.rs:226-269 | the corrected member is exactly as long as the rules' size of the value's type |
| Std140Writer.RulePaddedAgainstCrate | src/std140.rs:226-269 | the corrected member has the alignment `write` uses, its image is the crate's image followed by zeros, and for a matrix its length is a multiple of that alignment |
| Std140Writer.MatrixThenValueCorrected | src/std140.rs:226-269 | with the corrected image, any value written after a matrix at the start of the buffer starts at the rules' size rounded up to its own alignment. That is never before 16 bytes per column |

## Left out

- `std430`, struct layout by the derive macro, and the `mint` conversions are not part of this model.
- `bytemuck`'s `Pod` and `Zeroable` and its `bytes_of` are modelled only by their effect: the in-memory image.
- Floats are opaque 4-byte and 8-byte words. Their arithmetic does not occur in this code.
- Integers are encoded little-endian. `bytes_of` uses the host's byte order.
- Field order is declaration order. The structs have no `#[repr(C)]`, so the model assumes the layout the matrices' padding fields are written for.
- `offset` is a `nat`. The overflow of `usize` that `self.offset += ...` could hit is not modelled.
- `Writer.constructor`: the writer in the source wraps any `W: Write`. The model keeps only the bytes accepted through this writer, so the constructor takes no sink.
- `Writer.SinkWriteAll`: the `io::Error` value is opaque (`Err`). The number of bytes a failing call accepted is a ghost out-parameter.
- The padding words inside `Mat2` and `Mat3` hold whatever the caller put there. Bytes written by `write` as padding are zero.
- `align_offset` itself (in `internal`) is not part of this model. It is modelled by its use at src/std140.rs:149: the least padding that aligns the cursor.
- The corrected matrix images are not pushed into `BytesOf`. `Writer.Write` takes any `PaddedValue`, so it writes crate images and corrected images alike.

## Findings

| source | as written | input that shows it | evidently intended | confidence | as-written member | corrected member |
|---|---|---|---|---|---|---|
| src/std140.rs:226-254 | `Mat2` is 24 bytes and `Mat3` is 44 bytes. Nothing pads the last column to its 16-byte stride | from a new writer, `write` a `Mat3` and then an `f32`: the `f32` starts at byte 44 (byte 24 after a `Mat2`) | rules 4 and 5 of section 7.6.2.2 give a matrix of C columns 16·C bytes, so the next member starts at byte 48 (byte 32) | not executed | Std140Writer.Mat3ThenScalarAsWritten | Std140Writer.MatrixThenValueCorrected |
