/** The PCF_BITMAPS table: a glyph count, one i32 offset per glyph, four
    i32 blob sizes (one per padding selector) and the bitmap blob itself,
    whose size is the one the table's own padding selector picks. */
module Bitmaps {
  import opened Ints
  import opened Wrappers
  import opened Stream
  import opened Format

  datatype BitmapData = BitmapData(format: i32, glyphCount: i32, offsets: seq<i32>,
                                   bitmapSizes: seq<i32>, data: seq<u8>)

  /** The table's contents before any bitmap table is read. */
  const NoBitmaps := BitmapData(0, 0, [], [0, 0, 0, 0], [])

  /** One blob size per padding selector. */
  const SIZE_COUNT: nat := 4

  /** Every table the decoder builds: one offset per glyph, four sizes, and
      a blob of the selected size. */
  predicate WellFormed(b: BitmapData) {
    b.glyphCount >= 0 && |b.offsets| == b.glyphCount && |b.bitmapSizes| == 4 &&
    |b.data| == b.bitmapSizes[PadSelector(b.format)]
  }

  function Zeros(n: nat): (z: seq<u8>)
    ensures |z| == n && forall i :: 0 <= i < n ==> z[i] == 0
  {
    seq(n, _ => 0)
  }

  /** The bytes the blob holds after read_some into a buffer resized to
      `size`: what remains of the stream, cut to `size`, then zeros. */
  function Blob(data: seq<u8>, pos: nat, size: nat): (blob: seq<u8>)
    requires pos <= |data|
    ensures |blob| == size
  {
    var got := ReadSome(data, pos, size);
    got + Zeros(size - |got|)
  }

  /** The PCF_BITMAPS case of populate_tables, from the cursor just after the
      format word. A negative count or blob size cannot be allocated. */
  function ReadBitmaps(data: seq<u8>, pos: nat, format: i32): (r: Result<BitmapData>)
    ensures r.Ok? ==> WellFormed(r.value) && r.value.format == format && BitOrderSet(format)
    ensures Read(data, pos, format, I32).Ok? && Read(data, pos, format, I32).value.0 < 0 ==>
      r == Err(AllocationFailure)
    ensures r.Ok? ==> (Read(data, pos, format, I32).Ok? &&
                       r.value.glyphCount == Read(data, pos, format, I32).value.0)
  {
    var count :- Read(data, pos, format, I32);
    if count.0 < 0 then Err(AllocationFailure)
    else
      var offsets :- ReadValues(data, count.1, format, I32, count.0);
      var sizes :- ReadValues(data, offsets.1, format, I32, SIZE_COUNT);
      var size := sizes.0[PadSelector(format)];
      if size < 0 then Err(AllocationFailure)
      else Ok(BitmapData(format, count.0, offsets.0, sizes.0, Blob(data, sizes.1, size)))
  }

  /** Which read produced which field: the count at pos, the offsets after
      it, the four sizes after those, then the blob. */
  lemma BitmapsParts(data: seq<u8>, pos: nat, format: i32, b: BitmapData) returns (count: nat)
    requires ReadBitmaps(data, pos, format) == Ok(b)
    ensures count == b.glyphCount
    ensures ReadValues(data, pos + 4, format, I32, count) == Ok((b.offsets, pos + 4 + 4 * count))
    ensures ReadValues(data, pos + 4 + 4 * count, format, I32, SIZE_COUNT) ==
      Ok((b.bitmapSizes, pos + 20 + 4 * count))
    ensures b.data == Blob(data, pos + 20 + 4 * count, b.bitmapSizes[PadSelector(format)])
  {
    var c := Read(data, pos, format, I32);
    assert c.Ok? && c.value.1 == pos + 4;
    count := c.value.0;
    var offsets := ReadValues(data, pos + 4, format, I32, count);
    assert offsets.Ok? && offsets.value.1 == pos + 4 + 4 * count;
    assert offsets.value.0 == b.offsets;
    var sizes := ReadValues(data, pos + 4 + 4 * count, format, I32, SIZE_COUNT);
    assert sizes.Ok? && sizes.value.1 == pos + 20 + 4 * count;
    assert sizes.value.0 == b.bitmapSizes;
  }

  /** Where the table's parts lie: offset i at pos+4+4i, the sizes right
      after the offsets, and the blob copied from the bytes after the sizes. */
  lemma BitmapsLayout(data: seq<u8>, pos: nat, format: i32, b: BitmapData) returns (count: nat)
    requires ReadBitmaps(data, pos, format) == Ok(b)
    ensures pos + 20 + 4 * count <= |data|
    ensures count == b.glyphCount
    ensures forall i :: 0 <= i < count ==> b.offsets[i] == ValueIn(data, pos + 4 + 4 * i, format, I32)
    ensures |b.bitmapSizes| == SIZE_COUNT
    ensures forall j :: 0 <= j < SIZE_COUNT ==>
      b.bitmapSizes[j] == ValueIn(data, pos + 4 + 4 * count + 4 * j, format, I32)
    ensures b.data == Blob(data, pos + 20 + 4 * count, b.bitmapSizes[PadSelector(format)])
  {
    count := BitmapsParts(data, pos, format, b);
    ValuesLayout(data, pos, format, count, b.offsets, b.bitmapSizes);
  }

  /** The offsets and then the sizes, read from pos + 4 onwards. */
  lemma ValuesLayout(data: seq<u8>, pos: nat, format: i32, count: nat, offsets: seq<int>, sizes: seq<int>)
    requires ReadValues(data, pos + 4, format, I32, count) == Ok((offsets, pos + 4 + 4 * count))
    requires ReadValues(data, pos + 4 + 4 * count, format, I32, SIZE_COUNT) == Ok((sizes, pos + 20 + 4 * count))
    ensures pos + 20 + 4 * count <= |data|
    ensures forall i :: 0 <= i < count ==> offsets[i] == ValueIn(data, pos + 4 + 4 * i, format, I32)
    ensures |sizes| == SIZE_COUNT
    ensures forall j :: 0 <= j < SIZE_COUNT ==> sizes[j] == ValueIn(data, pos + 4 + 4 * count + 4 * j, format, I32)
  {
    OffsetsAt(data, pos, format, count, offsets);
    SizesAt(data, pos, format, count, sizes);
  }

  /** The four blob sizes, read right after the count offsets: size j is
      the word at pos + 4 + 4 count + 4j. */
  lemma SizesAt(data: seq<u8>, pos: nat, format: i32, count: nat, sizes: seq<int>)
    requires ReadValues(data, pos + 4 + 4 * count, format, I32, SIZE_COUNT) == Ok((sizes, pos + 20 + 4 * count))
    ensures pos + 20 + 4 * count <= |data|
    ensures |sizes| == SIZE_COUNT
    ensures forall j :: 0 <= j < SIZE_COUNT ==> sizes[j] == ValueIn(data, pos + 4 + 4 * count + 4 * j, format, I32)
  {
    forall j | 0 <= j < SIZE_COUNT
      ensures sizes[j] == ValueIn(data, pos + 4 + 4 * count + 4 * j, format, I32)
    {
      ReadValueAt(data, pos + 4 + 4 * count, format, I32, SIZE_COUNT, j, pos + 4 + 4 * count + 4 * j);
    }
    ReadValueAt(data, pos + 4 + 4 * count, format, I32, SIZE_COUNT, 3, pos + 16 + 4 * count);
  }

  /** The count's offsets, read from pos + 4 onwards: offset i is the word
      at pos + 4 + 4i. */
  lemma OffsetsAt(data: seq<u8>, pos: nat, format: i32, count: nat, offsets: seq<int>)
    requires ReadValues(data, pos + 4, format, I32, count) == Ok((offsets, pos + 4 + 4 * count))
    ensures forall i :: 0 <= i < count ==> offsets[i] == ValueIn(data, pos + 4 + 4 * i, format, I32)
  {
    forall i | 0 <= i < count
      ensures offsets[i] == ValueIn(data, pos + 4 + 4 * i, format, I32)
    {
      ReadValueAt(data, pos + 4, format, I32, count, i, pos + 4 + 4 * i);
    }
  }

  /** The blob holds the stream's bytes as far as they go, then zeros. */
  lemma BlobContents(data: seq<u8>, pos: nat, size: nat, k: nat)
    requires pos <= |data| && k < size
    ensures Blob(data, pos, size)[k] == if pos + k < |data| then data[pos + k] else 0
  {
  }
}
