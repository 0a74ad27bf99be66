/** The per-glyph rasteriser of convert_glyphs: the padded row stride, the
    bit extraction and the placement of the glyph's rows under the baseline
    shift inside a box of the font's full height. */
module Raster {
  import opened Ints
  import opened Wrappers
  import opened Format
  import opened Metrics

  /** A converted glyph: its u8 width and its row-major pixel bytes. */
  datatype Glyph = Glyph(width: u8, data: seq<u8>)

  /** padding_bytes: selector 0 gives 1, selector s > 0 gives 2 s. */
  function PaddingBytes(format: i32): (p: nat)
    ensures p >= 1
  {
    var sel := PadSelector(format);
    if sel == 0 then 1 else sel * 2
  }

  /** The four padding selectors give row units 1, 2, 4 and 6 bytes. */
  lemma PaddingBytesValues(format: i32)
    ensures PadSelector(format) == 0 ==> PaddingBytes(format) == 1
    ensures PadSelector(format) == 1 ==> PaddingBytes(format) == 2
    ensures PadSelector(format) == 2 ==> PaddingBytes(format) == 4
    ensures PadSelector(format) == 3 ==> PaddingBytes(format) == 6
  {
  }

  /** bytes_per_row: max(w/8, 1) with C division, rounded up to a multiple
      of the padding unit. */
  function BytesPerRow(w: int, padding: nat): (b: int)
    requires padding >= 1
    ensures b % padding == 0
    ensures b >= Max(TruncDiv(w, 8), 1)
    ensures b - padding < Max(TruncDiv(w, 8), 1)
  {
    var base := Max(TruncDiv(w, 8), 1);
    var rem := base % padding;
    if rem != 0 then
      assert base + padding - rem == (base / padding + 1) * padding;
      DivModUnique(base + padding - rem, padding, base / padding + 1, 0);
      base + padding - rem
    else base
  }

  /** The stride is the least multiple of the padding unit that holds
      max(w/8, 1) bytes. */
  lemma BytesPerRowLeast(w: int, padding: nat, b: int)
    requires padding >= 1
    requires b % padding == 0 && b >= Max(TruncDiv(w, 8), 1)
    ensures BytesPerRow(w, padding) <= b
  {
    var r := BytesPerRow(w, padding);
    var qr, qb := r / padding, b / padding;
    assert r == qr * padding && b == qb * padding;
    if b < r {
      if qr <= qb {
        MulMonotone(qr, qb, padding);
      } else {
        MulMonotone(qb, qr - 1, padding);
      }
    }
  }

  /** Bit j of a byte, bit 0 being the least significant. */
  predicate BitSet(byte: u8, j: nat)
    requires j < 8
  {
    ((byte as bv8) >> j) & 1 == 1
  }

  /** One pixel of a byte: `(byte << (x%8)) & 0x80` when format bit 3 is set,
      `(byte >> (x%8)) & 1` otherwise. Bit 7 of the shifted byte does not
      depend on the width the shift is computed in, so eight bits suffice. */
  function PixelOf(byte: u8, x: int, msbFirst: bool): (p: u8)
    ensures msbFirst ==> p == 0 || p == 0x80
    ensures !msbFirst ==> p == 0 || p == 1
  {
    var k := x % 8;
    if msbFirst then (((byte as bv8) << k) & 0x80) as u8
    else (((byte as bv8) >> k) & 1) as u8
  }

  /** Shifting left by k brings bit 7 - k to the top. */
  lemma TopBitAfterShift(b: bv8, k: bv8)
    requires k < 8
    ensures (b << k) & 0x80 != 0 <==> (b >> (7 - k)) & 1 == 1
  {
  }

  /** Bit 3 set makes pixel x the byte's bit 7 - x%8 (most significant bit
      first); clear, it is bit x%8. */
  lemma PixelBit(byte: u8, x: int)
    ensures PixelOf(byte, x, true) != 0 <==> BitSet(byte, 7 - x % 8)
    ensures PixelOf(byte, x, false) != 0 <==> BitSet(byte, x % 8)
  {
    var k := x % 8;
    TopBitAfterShift(byte as bv8, k as bv8);
    assert (7 - k) as bv8 == 7 - k as bv8;
  }

  /** What one glyph's loops work with. */
  datatype Frame = Frame(
    w: int,          // i16 w = character_width + max_overlap
    h: int,          // rows drawn: character_ascent + character_descent
    height: int,     // box height: max_ascent + max_descent
    shift: int,      // rows skipped at the top of the box
    stride: int,     // bytes_per_row
    offset: int,     // the glyph's offset into the bitmap blob
    msbFirst: bool)  // format bit 3

  /** baseline(): font_ascent - 1 as a u8. */
  function Baseline(fontAscent: i32): (r: u8)
    ensures 1 <= fontAscent <= 0x100 ==> r == fontAscent - 1
    ensures (r - (fontAscent - 1)) % 0x100 == 0
  {
    ConversionsCongruent(fontAscent - 1);
    ToU8(fontAscent - 1)
  }

  /** i16 shift = max(0, baseline() - character_ascent + 1). */
  function Shift(fontAscent: i32, ascent: i16): (r: i16)
    ensures ascent > Baseline(fontAscent) ==> r == 0
    ensures ascent <= Baseline(fontAscent) && Baseline(fontAscent) - ascent < 0x7fff ==>
      r + ascent == Baseline(fontAscent) + 1
    ensures Baseline(fontAscent) - ascent >= 0x7fff ==> r < 0
  {
    ToI16(Max(0, Baseline(fontAscent) - ascent + 1))
  }

  function FrameOf(m: Metric, maxOverlap: i32, fontAscent: i32, height: int, format: i32, offset: i32): (f: Frame)
    ensures f.stride >= 1
  {
    var w := ToI16(m.characterWidth + maxOverlap);
    Frame(w, m.characterAscent + m.characterDescent, height, Shift(fontAscent, m.characterAscent),
          BytesPerRow(w, PaddingBytes(format)), offset, BitOrderSet(format))
  }

  /** `offset + (x / 8) + bytes_per_row * y`: the blob byte pixel (x, y) is read from. */
  function SourceIndex(f: Frame, x: int, y: int): int {
    f.offset + x / 8 + f.stride * y
  }

  /** `x + (y + shift) * w`: the glyph byte pixel (x, y) is written to. */
  function DestIndex(f: Frame, x: int, y: int): int {
    x + (y + f.shift) * f.w
  }

  /** The read and the write for pixel (x, y) are in range. */
  predicate Fits(f: Frame, blob: seq<u8>, x: int, y: int) {
    0 <= SourceIndex(f, x, y) < |blob| && 0 <= DestIndex(f, x, y) < f.w * f.height
  }

  /** Every read and every write of the two loops is in range. */
  predicate InBounds(f: Frame, blob: seq<u8>) {
    forall x, y :: 0 <= x < f.w && 0 <= y < f.h ==> Fits(f, blob, x, y)
  }

  /** The pixel (x, y) as extracted from the blob. */
  function PixelAt(f: Frame, blob: seq<u8>, x: int, y: int): u8 {
    var i := SourceIndex(f, x, y);
    if 0 <= i < |blob| then PixelOf(blob[i], x, f.msbFirst) else 0
  }

  /** Glyph byte k: row k/w of the box holds glyph row k/w - shift when that
      row is drawn, and stays zero otherwise. */
  function Cell(f: Frame, blob: seq<u8>, k: int): u8 {
    if f.w > 0 && f.h > 0 && f.shift * f.w <= k < f.shift * f.w + f.h * f.w
    then PixelAt(f, blob, k % f.w, k / f.w - f.shift)
    else 0
  }

  /** One glyph of convert_glyphs: a width*height box, zero-initialised, into
      which the h rows of w pixels are copied at row shift. */
  function RasterSpec(f: Frame, blob: seq<u8>): (r: Result<Glyph>)
    ensures r.Ok? ==> f.w * f.height >= 0 && |r.value.data| == f.w * f.height && r.value.width == ToU8(f.w)
    ensures f.w * f.height < 0 ==> r == Err(AllocationFailure)
  {
    if f.w * f.height < 0 then Err(AllocationFailure)
    else if !InBounds(f, blob) then Err(OutOfBounds)
    else Ok(Glyph(ToU8(f.w), seq(f.w * f.height, k => Cell(f, blob, k))))
  }

  /** Row-major positions: x + r*w for x < w has column x and row r. */
  lemma RowMajor(x: int, r: int, w: int)
    requires w > 0 && 0 <= x < w
    ensures (x + r * w) / w == r && (x + r * w) % w == x
  {
    DivModUnique(x + r * w, w, r, x);
  }

  /** Each drawn pixel lands where the source writes it, and bit 3 decides
      which bit of its source byte it is. */
  lemma RasterPlacement(f: Frame, blob: seq<u8>, x: int, y: int)
    requires RasterSpec(f, blob).Ok?
    requires 0 <= x < f.w && 0 <= y < f.h
    ensures 0 <= SourceIndex(f, x, y) < |blob|
    ensures 0 <= DestIndex(f, x, y) < |RasterSpec(f, blob).value.data|
    ensures RasterSpec(f, blob).value.data[DestIndex(f, x, y)] == PixelOf(blob[SourceIndex(f, x, y)], x, f.msbFirst)
  {
    assert Fits(f, blob, x, y);
    WriteIsCell(f, blob, x, y);
  }

  /** Box rows outside [shift, shift + h) stay zero. */
  lemma RasterOutsideRows(f: Frame, blob: seq<u8>, k: int)
    requires RasterSpec(f, blob).Ok?
    requires 0 <= k < |RasterSpec(f, blob).value.data|
    requires f.w > 0 && !(f.shift <= k / f.w < f.shift + f.h)
    ensures RasterSpec(f, blob).value.data[k] == 0
  {
    var q := k / f.w;
    assert k == q * f.w + k % f.w;
    if q < f.shift {
      MulMonotone(q, f.shift - 1, f.w);
      assert k < f.shift * f.w;
    } else {
      MulMonotone(f.shift + f.h, q, f.w);
      assert k >= f.shift * f.w + f.h * f.w;
    }
  }

  /** The box once the cells before `upTo` are written: those cells hold
      their pixels, every other byte is still zero. */
  ghost predicate FilledUpTo(f: Frame, blob: seq<u8>, box: seq<u8>, upTo: int) {
    forall k :: 0 <= k < |box| ==>
      box[k] == if f.w > 0 && f.shift * f.w <= k < upTo then Cell(f, blob, k) else 0
  }

  /** Every pixel of the first y rows can be read and written. */
  ghost predicate RowsFit(f: Frame, blob: seq<u8>, y: int) {
    forall x', y' :: 0 <= x' < f.w && 0 <= y' < y ==> Fits(f, blob, x', y')
  }

  /** Writing pixel (x, y) extends the written run by one cell. */
  lemma FillStep(f: Frame, blob: seq<u8>, box: seq<u8>, x: int, y: int)
    requires 0 <= x < f.w && 0 <= y < f.h && Fits(f, blob, x, y) && |box| == f.w * f.height
    requires FilledUpTo(f, blob, box, (y + f.shift) * f.w + x)
    ensures FilledUpTo(f, blob, box[DestIndex(f, x, y) := PixelOf(blob[SourceIndex(f, x, y)], x, f.msbFirst)],
                       (y + f.shift) * f.w + x + 1)
  {
    var dst := DestIndex(f, x, y);
    var v := PixelOf(blob[SourceIndex(f, x, y)], x, f.msbFirst);
    WriteIsCell(f, blob, x, y);
    assert v == PixelAt(f, blob, x, y) == Cell(f, blob, dst);
    var box' := box[dst := v];
    forall k | 0 <= k < |box'|
      ensures box'[k] == if f.w > 0 && f.shift * f.w <= k < dst + 1 then Cell(f, blob, k) else 0
    {
      if k != dst {
        assert box'[k] == box[k];
      }
    }
  }

  /** After the last row the box is the specified one. */
  lemma FillComplete(f: Frame, blob: seq<u8>, box: seq<u8>, upTo: int)
    requires |box| == f.w * f.height
    requires upTo == f.shift * f.w + (if f.h > 0 then f.h * f.w else 0)
    requires FilledUpTo(f, blob, box, upTo)
    ensures box == seq(f.w * f.height, k => Cell(f, blob, k))
  {
  }

  /** The rasteriser's loops: allocate the zeroed box, then copy each pixel,
      failing as soon as a read or a write falls outside its buffer. */
  method RasterGlyph(f: Frame, blob: seq<u8>) returns (r: Result<Glyph>)
    ensures r == RasterSpec(f, blob)
  {
    if f.w * f.height < 0 {
      return Err(AllocationFailure);
    }
    var box := new u8[f.w * f.height](_ => 0);
    var y: nat := 0;
    ghost var rowStart := f.shift * f.w;
    while y < f.h
      invariant f.h > 0 ==> y <= f.h
      invariant f.h <= 0 ==> y == 0
      invariant rowStart == (y + f.shift) * f.w
      invariant RowsFit(f, blob, y)
      invariant FilledUpTo(f, blob, box[..], rowStart)
    {
      var x: nat := 0;
      while x < f.w
        invariant f.w > 0 ==> x <= f.w
        invariant f.w <= 0 ==> x == 0
        invariant RowsFit(f, blob, y)
        invariant forall x' :: 0 <= x' < x ==> Fits(f, blob, x', y)
        invariant FilledUpTo(f, blob, box[..], rowStart + x)
      {
        var src := SourceIndex(f, x, y);
        if !(0 <= src < |blob|) {
          assert !Fits(f, blob, x, y);
          return Err(OutOfBounds);
        }
        var dst := DestIndex(f, x, y);
        if !(0 <= dst < box.Length) {
          assert !Fits(f, blob, x, y);
          return Err(OutOfBounds);
        }
        ghost var before := box[..];
        FillStep(f, blob, before, x, y);
        box[dst] := PixelOf(blob[src], x, f.msbFirst);
        assert box[..] == before[dst := PixelOf(blob[src], x, f.msbFirst)];
        x := x + 1;
      }
      assert RowsFit(f, blob, y + 1);
      assert rowStart + f.w == (y + 1 + f.shift) * f.w;
      rowStart := rowStart + f.w;
      y := y + 1;
    }
    assert InBounds(f, blob);
    assert f.h > 0 ==> rowStart == f.shift * f.w + f.h * f.w;
    FillComplete(f, blob, box[..], rowStart);
    return Ok(Glyph(ToU8(f.w), box[..]));
  }

  /** The byte written for pixel (x, y) is the box cell at its position, and
      that position continues the run of cells written so far. */
  lemma WriteIsCell(f: Frame, blob: seq<u8>, x: int, y: int)
    requires 0 <= x < f.w && 0 <= y < f.h
    ensures DestIndex(f, x, y) == (y + f.shift) * f.w + x
    ensures Cell(f, blob, DestIndex(f, x, y)) == PixelAt(f, blob, x, y)
  {
    RowMajor(x, y + f.shift, f.w);
    assert (y + f.shift) * f.w == f.shift * f.w + y * f.w;
    RecordFits(f.w, y, f.h);
  }

  /** Box pixel (x, y) comes from glyph row y - shift, with bit 3 set. */
  predicate SourceBitSet(f: Frame, blob: seq<u8>, x: int, y: int) {
    f.shift <= y < f.shift + f.h &&
    0 <= SourceIndex(f, x, y - f.shift) < |blob| &&
    BitSet(blob[SourceIndex(f, x, y - f.shift)], 7 - x % 8)
  }

  /** With bit 3 set, box byte (x, y) is nonzero exactly when its row is a
      glyph row and the source bit for it is set. */
  lemma RasterPixel(f: Frame, blob: seq<u8>, x: int, y: int)
    requires RasterSpec(f, blob).Ok? && f.msbFirst
    requires 0 <= x < f.w && 0 <= y < f.height
    ensures 0 <= y * f.w + x < |RasterSpec(f, blob).value.data|
    ensures RasterSpec(f, blob).value.data[y * f.w + x] != 0 <==> SourceBitSet(f, blob, x, y)
  {
    RecordFits(f.w, y, f.height);
    var k := y * f.w + x;
    if f.shift <= y < f.shift + f.h {
      RasterPlacement(f, blob, x, y - f.shift);
      assert DestIndex(f, x, y - f.shift) == k;
      PixelBit(blob[SourceIndex(f, x, y - f.shift)], x);
    } else {
      RowMajor(x, y, f.w);
      assert k == x + y * f.w;
      RasterOutsideRows(f, blob, k);
    }
  }
}

