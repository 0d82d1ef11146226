/** `std140::Writer`: a cursor over an append-only byte sink that pads with
    zero bytes up to each value's alignment before emitting the value. */
module Std140Writer {
  import opened Bytes
  import opened Align
  import opened Std140
  import opened Std140Rules

  /** What `Writer::write` takes from a `T: AsStd140`: the `ALIGNMENT` of
      its `Std140Type` and the bytes of the converted value. Types the
      derive macro generates reach the writer in this form as well. */
  datatype PaddedValue = PaddedValue(alignment: Alignment, bytes: seq<byte>)

  /** A primitive as `write` sees it: converted with `as_std140`, measured
      with `size_of` and `ALIGNMENT`, emitted with `bytes_of`. */
  function ToPadded(v: Value): (p: PaddedValue)
    ensures p.alignment == AlignmentOf(KindOf(v))
    ensures |p.bytes| == SizeOf(KindOf(v))
    ensures FromBytes(KindOf(v), p.bytes) == Some(v)
  {
    var s := AsStd140(v);
    FromBytesOfBytes(v);
    PaddedValue(AlignmentOf(KindOf(s)), BytesOf(s))
  }

  /** What one successful `write` emits when the cursor is at `offset`. */
  function Emission(offset: nat, p: PaddedValue): (r: seq<byte>)
    ensures |r| == AlignOffset(offset, p.alignment) + |p.bytes|
  {
    Zeros(AlignOffset(offset, p.alignment)) + p.bytes
  }

  /** The bytes of the values themselves. */
  function TotalBytes(ps: seq<PaddedValue>): nat
  {
    if ps == [] then 0 else |ps[0].bytes| + TotalBytes(ps[1..])
  }

  /** The most padding the values can need: one alignment less a byte each. */
  function MostPadding(ps: seq<PaddedValue>): nat
  {
    if ps == [] then 0 else ps[0].alignment - 1 + MostPadding(ps[1..])
  }

  /** Everything a writer whose cursor starts at `offset` emits for the
      values `ps` when every write succeeds. */
  function Stream(offset: nat, ps: seq<PaddedValue>): seq<byte>
    decreases |ps|
  {
    if ps == [] then []
    else
      var e := Emission(offset, ps[0]);
      e + Stream(offset + |e|, ps[1..])
  }

  /** A stream holds all the values' bytes and less than one alignment of
      padding for each value. */
  lemma {:induction false} StreamLength(offset: nat, ps: seq<PaddedValue>)
    ensures TotalBytes(ps) <= |Stream(offset, ps)| <= TotalBytes(ps) + MostPadding(ps)
    decreases |ps|
  {
    if ps != [] {
      var e := Emission(offset, ps[0]);
      StreamLength(offset + |e|, ps[1..]);
    }
  }

  lemma {:induction false} StreamAppend(offset: nat, xs: seq<PaddedValue>, ys: seq<PaddedValue>)
    ensures Stream(offset, xs + ys) == Stream(offset, xs) + Stream(offset + |Stream(offset, xs)|, ys)
    decreases |xs|
  {
    if xs == [] {
      assert xs + ys == ys;
    } else {
      var e := Emission(offset, xs[0]);
      assert (xs + ys)[0] == xs[0];
      assert (xs + ys)[1..] == xs[1..] + ys;
      StreamAppend(offset + |e|, xs[1..], ys);
    }
  }

  /** Continuing a stream by one value appends that value's emission. */
  lemma StreamSnoc(offset: nat, ps: seq<PaddedValue>, p: PaddedValue)
    ensures Stream(offset, ps + [p]) == Stream(offset, ps) + Emission(offset + |Stream(offset, ps)|, p)
  {
    StreamAppend(offset, ps, [p]);
    var o := offset + |Stream(offset, ps)|;
    assert Stream(o, [p]) == Emission(o, p) + Stream(o + |Emission(o, p)|, []);
  }

  /** Where the writer's cursor stands before value `i` is written. */
  function Before(offset: nat, ps: seq<PaddedValue>, i: nat): nat
    requires i <= |ps|
  {
    offset + |Stream(offset, ps[..i])|
  }

  /** Where the first byte of value `i` lands. */
  function Start(offset: nat, ps: seq<PaddedValue>, i: nat): nat
    requires i < |ps|
  {
    Before(offset, ps, i) + AlignOffset(Before(offset, ps, i), ps[i].alignment)
  }

  /** A stream splits around any one of its values. */
  lemma StreamSplit(offset: nat, ps: seq<PaddedValue>, i: nat)
    requires i < |ps|
    ensures Stream(offset, ps)
         == Stream(offset, ps[..i]) + Emission(Before(offset, ps, i), ps[i])
          + Stream(Before(offset, ps, i) + |Emission(Before(offset, ps, i), ps[i])|, ps[i + 1..])
  {
    var before := Before(offset, ps, i);
    assert ps == ps[..i] + ps[i..];
    StreamAppend(offset, ps[..i], ps[i..]);
    assert ps[i..][0] == ps[i] && ps[i..][1..] == ps[i + 1..];
  }

  lemma SliceOfMiddle(a: seq<byte>, b: seq<byte>, c: seq<byte>, i: nat, j: nat)
    requires i <= j <= |b|
    ensures (a + b + c)[|a| + i .. |a| + j] == b[i..j]
  {
  }

  /** In the stream of several writes, value `i` starts on a multiple of its
      alignment, fewer than `alignment` bytes after the end of the previous
      value; the bytes in between are zero and the value's own bytes follow
      unchanged. */
  lemma StreamPlacement(offset: nat, ps: seq<PaddedValue>, i: nat)
    requires i < |ps|
    ensures IsAligned(Start(offset, ps, i), ps[i].alignment)
    ensures Before(offset, ps, i) <= Start(offset, ps, i) < Before(offset, ps, i) + ps[i].alignment
    ensures Start(offset, ps, i) + |ps[i].bytes| <= offset + |Stream(offset, ps)|
    ensures AllZero(Stream(offset, ps)[Before(offset, ps, i) - offset .. Start(offset, ps, i) - offset])
    ensures Stream(offset, ps)[Start(offset, ps, i) - offset .. Start(offset, ps, i) - offset + |ps[i].bytes|]
         == ps[i].bytes
  {
    var before := Before(offset, ps, i);
    var prefix := Stream(offset, ps[..i]);
    var e := Emission(before, ps[i]);
    var rest := Stream(before + |e|, ps[i + 1..]);
    StreamSplit(offset, ps, i);
    var pad := AlignOffset(before, ps[i].alignment);
    SliceOfMiddle(prefix, e, rest, 0, pad);
    SliceOfMiddle(prefix, e, rest, pad, |e|);
    assert e[0..pad] == Zeros(pad) && e[pad..|e|] == ps[i].bytes;
  }

  /** The outcome of an I/O call; the sink's error itself is opaque. */
  datatype IoResult = Ok | Err

  class Writer {
    /** The bytes the underlying sink has accepted through this writer. */
    var sink: seq<byte>
    /** The cursor `len` reports. */
    var offset: nat
    /** The values written successfully so far. */
    ghost var written: seq<PaddedValue>

    /** The cursor counts every byte emitted, and the bytes are those of the
        successful writes. Holds until a write fails. */
    ghost predicate Valid()
      reads this
    {
      sink == Stream(0, written) && offset == |sink|
    }

    /** `Writer::new`: nothing emitted, cursor at 0. */
    constructor ()
      ensures sink == [] && offset == 0 && written == []
      ensures Valid()
    {
      sink, offset, written := [], 0, [];
    }

    /** `Writer::len`. */
    function Len(): (n: nat)
      reads this
      ensures Valid() ==> n == |sink| == |Stream(0, written)|
    {
      offset
    }

    /** `write_all` on the sink: the sink may take only a prefix of `buf`
        and then report an error. */
    method SinkWriteAll(buf: seq<byte>) returns (ok: bool, ghost taken: nat)
      modifies this`sink
      ensures taken <= |buf| && sink == old(sink) + buf[..taken]
      ensures ok <==> taken == |buf|
    {
      var n :| 0 <= n <= |buf|;
      sink := sink + buf[..n];
      ok, taken := n == |buf|, n;
    }

    /** `Writer::write`. `accepted` counts the bytes the sink took during
        this call. A failure while padding leaves the cursor where it was; a
        failure while emitting the value leaves it advanced by the padding
        only. */
    method Write(p: PaddedValue) returns (r: IoResult, ghost accepted: nat)
      modifies this
      ensures accepted <= |Emission(old(offset), p)|
      ensures sink == old(sink) + Emission(old(offset), p)[..accepted]
      ensures r.Ok? <==> accepted == |Emission(old(offset), p)|
      ensures var padding := AlignOffset(old(offset), p.alignment);
        offset == old(offset) + (if r.Ok? then padding + |p.bytes| else if accepted < padding then 0 else padding)
      ensures written == if r.Ok? then old(written) + [p] else old(written)
      ensures old(Valid()) && r.Ok? ==> Valid()
    {
      var size := |p.bytes|;
      var alignment := p.alignment;
      var padding := AlignOffset(offset, alignment);
      ghost var emitted := Emission(offset, p);
      var i := 0;
      while i < padding
        invariant i <= padding
        invariant sink == old(sink) + Zeros(i)
        invariant offset == old(offset) && written == old(written)
      {
        var ok, _ := SinkWriteAll([0]);
        if !ok {
          assert emitted[..i] == Zeros(i);
          return Err, i;
        }
        i := i + 1;
      }
      offset := offset + padding;
      var ok, taken := SinkWriteAll(p.bytes);
      assert emitted[..padding + taken] == Zeros(padding) + p.bytes[..taken];
      if !ok {
        return Err, padding + taken;
      }
      offset := offset + size;
      written := written + [p];
      StreamSnoc(0, old(written), p);
      return Ok, padding + size;
    }
  }

  /** What a writer holds after a write that failed part-way: the stream of
      the writes before it and a part of the failed write's emission, never
      all of it. That is a proper prefix of what the whole run would have
      emitted. */
  lemma FailedWriteIsPrefix(ws: seq<PaddedValue>, p: PaddedValue, rest: seq<PaddedValue>, k: nat, sink: seq<byte>)
    requires k < |Emission(|Stream(0, ws)|, p)|
    requires sink == Stream(0, ws) + Emission(|Stream(0, ws)|, p)[..k]
    ensures sink < Stream(0, ws + [p] + rest)
  {
    var before, e := Stream(0, ws), Emission(|Stream(0, ws)|, p);
    StreamSnoc(0, ws, p);
    StreamAppend(0, ws + [p], rest);
    var whole := Stream(0, ws + [p] + rest);
    assert whole == before + e + Stream(|before + e|, rest);
    assert (before + e[..k]) == whole[..|before| + k];
  }

  /** The loop of the `Writer` documentation's example: write each value
      in turn and stop at the first failure. */
  method WriteEach(w: Writer, items: seq<PaddedValue>) returns (r: IoResult)
    requires w.Valid()
    modifies w
    ensures r.Ok? ==> w.Valid() && w.written == old(w.written) + items
    ensures r.Err? ==> old(w.sink) <= w.sink < Stream(0, old(w.written) + items)
  {
    var i := 0;
    while i < |items|
      invariant i <= |items|
      invariant w.Valid() && w.written == old(w.written) + items[..i]
      invariant old(w.sink) <= w.sink
    {
      ghost var ws, s0 := w.written, w.sink;
      ghost var accepted;
      r, accepted := w.Write(items[i]);
      assert s0 <= w.sink;
      if r.Err? {
        FailedWriteIsPrefix(ws, items[i], items[i + 1..], accepted, w.sink);
        assert ws + [items[i]] + items[i + 1..] == old(w.written) + items;
        return r;
      }
      assert items[..i + 1] == items[..i] + [items[i]];
      i := i + 1;
    }
    assert items[..i] == items;
    return Ok;
  }

  /** The example of the `Writer` documentation: a `u32` count, then the
      values, written in a row until the first failure. */
  method WriteCountedList(count: uint32, items: seq<PaddedValue>) returns (r: IoResult, bytes: seq<byte>)
    ensures r.Ok? ==> bytes == Stream(0, [ToPadded(U32(count))] + items)
    ensures r.Err? ==> bytes < Stream(0, [ToPadded(U32(count))] + items)
  {
    var c := ToPadded(U32(count));
    var w := new Writer();
    ghost var accepted;
    r, accepted := w.Write(c);
    if r.Err? {
      FailedWriteIsPrefix([], c, items, accepted, w.sink);
      assert [] + [c] + items == [c] + items;
      return r, w.sink;
    }
    r := WriteEach(w, items);
    return r, w.sink;
  }

  /** In that example the count takes bytes 0..4, twelve zero bytes follow,
      and the first 16-aligned value starts at byte 16. */
  lemma CountThenAligned(count: uint32, item: PaddedValue)
    requires item.alignment == 16
    ensures Start(0, [ToPadded(U32(count)), item], 1) == 16
    ensures Stream(0, [ToPadded(U32(count)), item]) == EncodeU32(count) + Zeros(12) + item.bytes
  {
    var c := ToPadded(U32(count));
    var ps := [c, item];
    assert AlignOffset(0, 4) == 0;
    assert AlignOffset(4, 16) == 12;
    assert Stream(0, ps[..1]) == Emission(0, c) + Stream(4, []);
    assert ps[1..] == [item];
    assert Stream(4, [item]) == Emission(4, item) + Stream(16 + |item.bytes|, []);
  }

  /** The start of the second of two values. */
  lemma SecondStart(offset: nat, a: PaddedValue, b: PaddedValue)
    ensures var end := offset + |Emission(offset, a)|;
      Start(offset, [a, b], 1) == end + AlignOffset(end, b.alignment)
  {
    assert [a, b][..1] == [a];
    assert Stream(offset, [a]) == Emission(offset, a) + Stream(offset + |Emission(offset, a)|, []);
  }

  /** When both values already fit the cursor, the second follows the first
      with no padding at all. */
  lemma BackToBack(offset: nat, a: PaddedValue, b: PaddedValue)
    requires IsAligned(offset, a.alignment) && IsAligned(offset + |a.bytes|, b.alignment)
    ensures Start(offset, [a, b], 1) == offset + |a.bytes|
  {
    AlignedNeedsNoPadding(offset, a.alignment);
    AlignedNeedsNoPadding(offset + |a.bytes|, b.alignment);
    SecondStart(offset, a, b);
  }

  /** A value written at a cursor that already suits it gets no padding, so
      the next value starts at its end, rounded up to its own alignment. */
  lemma AlignedThenNext(o: nat, q: PaddedValue, p: PaddedValue)
    requires IsAligned(o, q.alignment)
    ensures Start(o, [q, p], 1) == RoundUp(o + |q.bytes|, p.alignment)
    ensures Start(o, [q, p], 1) >= o + |q.bytes|
  {
    AlignedNeedsNoPadding(o, q.alignment);
    SecondStart(o, q, p);
  }

  /** From a fresh writer, a 4-aligned value written after a value of
      `words` four-byte words follows it with no padding. */
  lemma WordAfterAligned(a: PaddedValue, c: PaddedValue, words: nat)
    requires c.alignment == 4 && |a.bytes| == words * 4
    ensures Start(0, [a, c], 1) == |a.bytes|
  {
    ModOfMultiplePlus(words, 4, 0);
    BackToBack(0, a, c);
  }

  /** As written, a `Mat2` ends right after its last column, so a scalar
      written next lands at byte 24, inside the 32 bytes the rules reserve
      for the matrix. */
  lemma Mat2ThenScalarAsWritten(m: Value, f: Value)
    requires KindOf(m) == KindMat2 && KindOf(f) == KindF32
    ensures Start(0, [ToPadded(m), ToPadded(f)], 1) == 24 < RuleSize(KindMat2)
  {
    MatrixRuleSize(KindMat2);
    WordAfterAligned(ToPadded(m), ToPadded(f), 6);
  }

  /** Likewise a scalar written after a `Mat3` lands at byte 44, inside the
      48 bytes the rules reserve for the matrix. */
  lemma Mat3ThenScalarAsWritten(m: Value, f: Value)
    requires KindOf(m) == KindMat3 && KindOf(f) == KindF32
    ensures Start(0, [ToPadded(m), ToPadded(f)], 1) == 44 < RuleSize(KindMat3)
  {
    MatrixRuleSize(KindMat3);
    WordAfterAligned(ToPadded(m), ToPadded(f), 11);
  }

  /** A value as the rules lay it out: its image padded to the rules' size. */
  function ToRulePadded(v: Value): (p: PaddedValue)
    ensures |p.bytes| == RuleSize(KindOf(v))
  {
    PaddedValue(AlignmentOf(KindOf(v)), RuleBytes(v))
  }

  /** The corrected member differs from what `write` takes only by zero
      bytes at its end, and for a matrix those bytes make it a whole number
      of its own alignment. */
  lemma RulePaddedAgainstCrate(v: Value)
    ensures ToRulePadded(v).alignment == ToPadded(v).alignment
    ensures |ToPadded(v).bytes| <= |ToRulePadded(v).bytes|
    ensures ToRulePadded(v).bytes[..|ToPadded(v).bytes|] == ToPadded(v).bytes
    ensures AllZero(ToRulePadded(v).bytes[|ToPadded(v).bytes|..])
    ensures KindOf(v).IsMatrix() ==> IsAligned(|ToRulePadded(v).bytes|, ToRulePadded(v).alignment)
  {
    var q, p := ToRulePadded(v), ToPadded(v);
    assert q.bytes == RuleBytes(v) && p.bytes == BytesOf(v);
    RuleBytesExtendsImage(v);
    if KindOf(v).IsMatrix() {
      RuleBytesOfMatrixAligned(v);
    }
  }

  /** With the corrected image, whatever is written after a matrix that
      opens the buffer starts no earlier than one stride per column, at the
      first offset there that suits its own alignment. */
  lemma MatrixThenValueCorrected(v: Value, p: PaddedValue)
    requires KindOf(v).IsMatrix()
    ensures Start(0, [ToRulePadded(v), p], 1) == RoundUp(RuleSize(KindOf(v)), p.alignment)
    ensures Start(0, [ToRulePadded(v), p], 1) >= 16 * Columns(KindOf(v))
  {
    var q := ToRulePadded(v);
    assert q.alignment == 16;
    AlignedThenNext(0, q, p);
    MatrixRuleSize(KindOf(v));
  }
}
