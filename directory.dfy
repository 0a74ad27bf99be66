/** File header and table directory: magic, table count and the
    (type, format, size, offset) entries, all little-endian i32. */
module Directory {
  import opened Ints
  import opened Endian
  import opened Wrappers
  import opened Stream
  import opened Format

  const PCF_PROPERTIES: int := 1
  const PCF_ACCELERATORS: int := 2
  const PCF_METRICS: int := 4
  const PCF_BITMAPS: int := 8
  const PCF_INK_METRICS: int := 16
  const PCF_BDF_ENCODINGS: int := 32
  const PCF_SWIDTHS: int := 64
  const PCF_GLYPH_NAMES: int := 128
  const PCF_BDF_ACCELERATORS: int := 256

  /** 01 'f' 'c' 'p' */
  const MAGIC: seq<u8> := [0x01, 0x66, 0x63, 0x70]

  datatype TocEntry = TocEntry(tableType: i32, format: i32, size: i32, offset: i32)

  /** The little-endian i32 stored at p. */
  function LE32At(data: seq<u8>, p: nat): i32
    requires p + 4 <= |data|
  {
    I32.FromBits(DecodeLE(data[p..p + 4]))
  }

  /** read_value<LittleEndian<i32>>: no format word, no bit-order check. */
  function ReadLE32(data: seq<u8>, pos: nat): (r: Result<(i32, nat)>)
    ensures r.Ok? <==> pos + 4 <= |data|
    ensures r.Err? ==> r.error == Truncated
    ensures r.Ok? ==> r.value == (LE32At(data, pos), pos + 4)
  {
    var u :- ValueAt(data, pos, 4, false);
    Ok((I32.FromBits(u), pos + 4))
  }

  function ReadEntry(data: seq<u8>, pos: nat): (r: Result<(TocEntry, nat)>)
    ensures r.Ok? <==> pos + 16 <= |data|
    ensures r.Err? ==> r.error == Truncated
    ensures r.Ok? ==> r.value.1 == pos + 16
  {
    var t :- ReadLE32(data, pos);
    var f :- ReadLE32(data, t.1);
    var s :- ReadLE32(data, f.1);
    var o :- ReadLE32(data, s.1);
    Ok((TocEntry(t.0, f.0, s.0, o.0), o.1))
  }

  /** A successful entry read holds the entry stored at pos. */
  lemma ReadEntryIsEntryAt(data: seq<u8>, pos: nat)
    requires ReadEntry(data, pos).Ok?
    ensures ReadEntry(data, pos).value.0 == EntryAt(data, pos)
  {
  }

  /** The first n directory entries starting at pos, in file order. */
  function ReadEntries(data: seq<u8>, pos: nat, n: nat): (r: Result<(seq<TocEntry>, nat)>)
    ensures r.Ok? ==> |r.value.0| == n && r.value.1 == pos + 16 * n
    ensures r.Err? ==> r.error == Truncated
  {
    if n == 0 then Ok(([], pos))
    else
      var es :- ReadEntries(data, pos, n - 1);
      var e :- ReadEntry(data, es.1);
      Ok((es.0 + [e.0], e.1))
  }

  /** The header walk of create(): the directory entries and the cursor after them. */
  function ParseHeader(data: seq<u8>): (r: Result<(seq<TocEntry>, nat)>)
    ensures |data| < 4 || data[..4] != MAGIC ==> r == Err(BadMagic)
    ensures |data| >= 8 && data[..4] == MAGIC && LE32At(data, 4) <= 0 ==> r == Err(InvalidTableCount)
    ensures r.Ok? ==> |data| >= 8 && 0 < |r.value.0| == LE32At(data, 4)
  {
    if |data| < 4 || data[..4] != MAGIC then Err(BadMagic)
    else
      var count :- ReadLE32(data, 4);
      if count.0 <= 0 then Err(InvalidTableCount)
      else ReadEntries(data, count.1, count.0)
  }

  /** Once reading k entries fails, reading more fails the same way. */
  lemma {:induction false} ReadEntriesErrPersists(data: seq<u8>, pos: nat, k: nat, n: nat)
    requires k <= n && ReadEntries(data, pos, k).Err?
    ensures ReadEntries(data, pos, n) == ReadEntries(data, pos, k)
    decreases n - k
  {
    if k < n {
      ReadEntriesErrPersists(data, pos, k, n - 1);
      assert ReadEntries(data, pos, n) == Err(ReadEntries(data, pos, n - 1).error);
    }
  }

  /** The directory entry stored at p: four little-endian i32. */
  function EntryAt(data: seq<u8>, p: nat): TocEntry
    requires p + 16 <= |data|
  {
    TocEntry(LE32At(data, p), LE32At(data, p + 4), LE32At(data, p + 8), LE32At(data, p + 12))
  }

  /** Reading n entries succeeds exactly when 16 n bytes remain. */
  lemma {:induction false} ReadEntriesSucceeds(data: seq<u8>, pos: nat, n: nat)
    requires pos <= |data|
    ensures ReadEntries(data, pos, n).Ok? <==> pos + 16 * n <= |data|
  {
    if n > 0 {
      ReadEntriesSucceeds(data, pos, n - 1);
    }
  }

  /** Entry i of a successful read is the entry stored at pos + 16 i. */
  lemma {:induction false} ReadEntryAt(data: seq<u8>, pos: nat, n: nat, i: nat)
    requires ReadEntries(data, pos, n).Ok? && i < n
    ensures pos + 16 * i + 16 <= |data|
    ensures ReadEntries(data, pos, n).value.0[i] == EntryAt(data, pos + 16 * i)
  {
    var prev := ReadEntries(data, pos, n - 1);
    assert prev.Ok?;
    var last := ReadEntry(data, prev.value.1);
    if i == n - 1 {
      ReadEntryIsEntryAt(data, prev.value.1);
    }
    assert ReadEntries(data, pos, n).value.0 == prev.value.0 + [last.value.0];
    if i < n - 1 {
      ReadEntryAt(data, pos, n - 1, i);
    }
  }

  lemma ReadEntriesLayout(data: seq<u8>, pos: nat, n: nat)
    requires ReadEntries(data, pos, n).Ok?
    ensures forall i :: 0 <= i < n ==>
      pos + 16 * i + 16 <= |data| && ReadEntries(data, pos, n).value.0[i] == EntryAt(data, pos + 16 * i)
  {
    forall i | 0 <= i < n
      ensures pos + 16 * i + 16 <= |data| && ReadEntries(data, pos, n).value.0[i] == EntryAt(data, pos + 16 * i)
    {
      ReadEntryAt(data, pos, n, i);
    }
  }

  /** create() succeeds on the header exactly for a well-formed directory. */
  lemma HeaderSucceeds(data: seq<u8>)
    ensures ParseHeader(data).Ok? <==>
      |data| >= 8 && data[..4] == MAGIC && LE32At(data, 4) > 0 && 8 + 16 * LE32At(data, 4) <= |data|
  {
    if |data| >= 8 && data[..4] == MAGIC && LE32At(data, 4) > 0 {
      ReadEntriesSucceeds(data, 8, LE32At(data, 4));
    }
  }

  /** A well-formed directory holds table_count entries read in file order. */
  lemma HeaderLayout(data: seq<u8>)
    requires ParseHeader(data).Ok?
    ensures forall i :: 0 <= i < |ParseHeader(data).value.0| ==>
      8 + 16 * i + 16 <= |data| && ParseHeader(data).value.0[i] == EntryAt(data, 8 + 16 * i)
  {
    var count := LE32At(data, 4);
    assert data[..4] == MAGIC && ReadLE32(data, 4) == Ok((count, 8));
    var es := ReadEntries(data, 8, count);
    assert ParseHeader(data) == es;
    ReadEntriesLayout(data, 8, count);
  }
}
