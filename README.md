# PCF bitmap-font decoder, modelled and verified in Dafny

This project models the decoder of pcf-to-serenity. The decoder reads an
X11 Portable Compiled Format (PCF) font from a byte buffer. Its steps are:

- check the `01 'f' 'c' 'p'` magic;
- walk the table directory;
- decode the properties, accelerators, metrics, ink metrics, bitmaps and
  encodings tables through the format-flagged `read<T>` primitive;
- convert every glyph's packed bitmap into a byte-per-pixel glyph sized to
  the font's box.

It also models the read-only accessors a font converter asks of a decoded
font: code-point lookup, family, name, weight, slope, sizes, glyph drawing
and the output file name.

The model has two layers:

- **Pure functions.** Modules `Ints`, `Endian`, `Stream`, `Format`,
  `Directory`, `Properties`, `Accelerators`, `Metrics`, `Bitmaps`,
  `Encodings`, `Raster`, `Font` and `Facade` define each step as a function
  from the bytes (and the cursor) to a `Result`. Every abort of the original
  is a typed error: a failed read, a `VERIFY`, a `TODO()`, a `Variant` read
  as the wrong alternative, an out-of-range `at()`. Lemmas state the
  decoder's properties about these functions: where each field lies in the
  file, when a read succeeds, round trips, the running maxima, the glyph
  layout and the naming rules.
- **The imperative decoder.** Module `PcfFile` has a class `PCFFile` whose
  fields are the members of the original class. Its stream is a
  `Stream.ByteStream` object with a mutable cursor. Each method changes
  those fields step by step, with the original's loops. Each method is
  proved to leave exactly the state, or to return exactly the error, that
  the pure decoder computes. `PCFFile.Create` is proved equal to
  `Font.Decode`.

Integer widths are explicit: `u8`, `i8`, `i16` and `i32` are subset types,
and every C++ narrowing (`i16` arithmetic, the `u8` baseline and glyph
width) is written out as a wrap-around (`ToU8`, `ToI16`).

Where the code differs from its documentation, the model follows the code:

- Converted glyph pixels are stored as `0x80`/`0` when format bit 3 is set,
  and `1`/`0` otherwise, not as 0/1.
- The format word of a table is re-read little-endian at the table's offset.
  The directory's copy is not used.
- The padding selector 3 gives a row unit of 6 bytes (`padding * 2`), not 8.
- A two-byte code point is looked up without checking its low byte against
  the column range. A low byte past `max_char_or_byte2` runs on into the next
  row, so 0x017F finds the glyph of 0x0220 (`Facade.LowByteUnchecked`).

## Model

| member | source | states |
|---|---|---|
| Ints.ToU8 | PCFFile.h:26 | the `u8` conversion (glyph width, baseline) is the identity on 0..255 and otherwise wraps modulo 256 |
| Ints.ToI16 | PCFFile.cpp:82-90 | the `i16` conversion of `table_index` and `w` is the identity on the i16 range and otherwise wraps modulo 65536 |
| Ints.ToU32 | PCFFile.cpp:375 | the bit pattern of an i32 format word as an unsigned value, the identity on non-negative values |
| Ints.TruncDiv | PCFFile.cpp:391 | C++ `/` truncates toward zero: the remainder has the dividend's sign and is smaller than the divisor |
| Ints.Max | PCFFile.cpp:316-318 | `max(a, b)` is at least both arguments and equals one of them |
| Ints.ToU8OfToI16 | PCFFile.cpp:388 | narrowing an i16 width to u8 gives the same byte as narrowing the unbounded sum |
| Endian.DecodeLE | PCFFile.h:56 | a little-endian value of n bytes is below 256^n |
| Endian.DecodeBE | PCFFile.h:54 | a big-endian value of n bytes is below 256^n |
| Endian.EncodeLE | PCFFile.h:56 | encoding yields exactly n bytes |
| Endian.EncodeBE | PCFFile.h:54 | encoding yields exactly n bytes |
| Endian.DecodeEncodeLE | PCFFile.h:56 | decoding the little-endian encoding of a value that fits returns the value |
| Endian.DecodeEncodeBE | PCFFile.h:54 | decoding the big-endian encoding of a value that fits returns the value |
| Endian.EncodeDecodeLE | PCFFile.h:56 | re-encoding a decoded little-endian byte string gives the same bytes |
| Endian.EncodeDecodeBE | PCFFile.h:54 | re-encoding a decoded big-endian byte string gives the same bytes |
| Endian.BigEndianIsReversedLittle | PCFFile.h:53-56 | reading big-endian is reading the reversed bytes little-endian |
| Stream.ValueAt | PCFFile.cpp:35 | `read_value` succeeds exactly when `size` bytes remain; otherwise it fails as truncated |
| Stream.ValueAtEncodes | PCFFile.cpp:35 | a successful `read_value` decoded exactly the bytes that encode its value |
| Stream.SeekTo | PCFFile.cpp:219 | `seek(offset)` succeeds for offsets up to the buffer size and moves the cursor there; a negative offset is refused here by assumption |
| Stream.SeekForward | PCFFile.cpp:240 | `seek(delta, FromCurrentPosition)` succeeds exactly when the new position is within the buffer |
| Stream.ReadSome | PCFFile.cpp:243 | `read_some` returns the next n bytes, or all the remaining bytes when fewer remain; it never fails |
| Stream.ByteStream.Seek | PCFFile.cpp:219 | the cursor moves to the offset on success and stays put on failure; success is `SeekTo`'s, negative offsets refused by assumption |
| Stream.ByteStream.SeekBy | PCFFile.cpp:240 | the cursor moves forward by delta on success and stays put on failure |
| Stream.ByteStream.ReadValue | PCFFile.cpp:35 | returns `ValueAt` and advances by `size`; on failure the cursor is at the end |
| Stream.ByteStream.ReadSomeBytes | PCFFile.cpp:243 | returns `ReadSome` and advances by the number of bytes read |
| Format.PadSelector | PCFFile.cpp:375 | `format & 3` is below 4 |
| Format.PadSelectorLowBits | PCFFile.cpp:337 | the selector is the format word's two low bits: the rest is a multiple of 4 |
| Format.IntKind.Size | PCFFile.h:49-63 | the sizes of the types `read<T>` is used with are 1 to 4 bytes |
| Format.IntKind.Modulus | PCFFile.h:49-63 | a type of n bytes has 256^n bit patterns |
| Format.IntKind.FromBits | PCFFile.h:52-56 | a bit pattern read as `T` is in T's range and congruent to the pattern |
| Format.IntKind.ToBits | PCFFile.h:52-56 | every in-range value has a bit pattern that reads back as the value |
| Format.ValueIn | PCFFile.h:53-56 | the value stored at p, in the byte order bit 2 selects, is in the type's range |
| Format.ValueInByte | PCFFile.h:53-56 | a one-byte field is the byte itself, whatever the byte order |
| Format.Read | PCFFile.h:49-63 | `read<T>` succeeds exactly when the value fits and bit 3 is set. It fails as truncated when the value does not fit, and as unsupported bit order (the `TODO()`) when bit 3 is clear. It returns the value stored at the cursor |
| Format.ReadValues | PCFFile.cpp:331-335 | n reads in a row give n in-range values and end n sizes after the start |
| Format.ReadValuesSucceeds | PCFFile.cpp:331-335 | n reads succeed exactly when n is 0, or when the n values fit and bit 3 is set |
| Format.ReadValuesErrPersists | PCFFile.cpp:331-332 | once k reads fail, any longer run fails with the same error |
| Format.ReadValuesErrStep | PCFFile.cpp:331-332 | a failed prefix makes the next run fail with the same error |
| Format.ReadValueAt | PCFFile.cpp:331-332 | value i of a successful run is the value stored at start + i sizes |
| Format.SpanIsProduct | PCFFile.cpp:331-332 | the bytes n values take is n times the value size |
| Format.Encode | PCFFile.h:53-56 | the encoding of a value has exactly the type's size |
| Format.ReadEncodeRoundTrip | PCFFile.h:49-63 | reading back a value written in the format's byte order returns it and advances by its size |
| Format.ReadThenEncode | PCFFile.h:49-63 | a successful read decoded exactly the bytes that encode its value |
| Directory.ReadLE32 | PCFFile.cpp:35 | `read_value<LittleEndian<i32>>` succeeds exactly when 4 bytes remain and returns the little-endian word |
| Directory.ReadEntry | PCFFile.cpp:39-43 | a directory entry read succeeds exactly when 16 bytes remain and advances by 16 |
| Directory.ReadEntryIsEntryAt | PCFFile.cpp:40-43 | the entry read holds type, format, size and offset from the four words at the cursor |
| Directory.ReadEntries | PCFFile.cpp:38-45 | n entries in file order, ending 16 n bytes later; the only failure is truncation |
| Directory.ReadEntriesErrPersists | PCFFile.cpp:38-45 | once k entries fail, reading more fails the same way |
| Directory.ReadEntriesSucceeds | PCFFile.cpp:38-45 | n entries can be read exactly when 16 n bytes remain |
| Directory.ReadEntryAt | PCFFile.cpp:38-45 | entry i is the one stored at start + 16 i |
| Directory.ReadEntriesLayout | PCFFile.cpp:38-45 | every entry read is the one stored at its position |
| Directory.ParseHeader | PCFFile.cpp:30-45 | a buffer without the magic fails with BadMagic. A table count of 0 or less fails (the `VERIFY`). Otherwise the result holds table_count entries |
| Directory.HeaderSucceeds | PCFFile.cpp:30-45 | the header is accepted exactly for magic, a positive count and room for that many entries |
| Directory.HeaderLayout | PCFFile.cpp:38-44 | entry i of an accepted header is the one stored at 8 + 16 i |
| Properties.ReadRecord | PCFFile.cpp:234-236 | one record (i32, i8, i32) succeeds exactly when 9 bytes remain and bit 3 is set, and it advances by 9 |
| Properties.ReadRecords | PCFFile.cpp:232-237 | n records in order, ending 9 n bytes later |
| Properties.ReadRecordsErrPersists | PCFFile.cpp:232-237 | once k records fail, reading more fails the same way |
| Properties.ReadRecordsErrStep | PCFFile.cpp:232-237 | a failed prefix makes the next record read fail with the same error |
| Properties.Padding | PCFFile.cpp:240 | the skip after the records is below 4 |
| Properties.PaddingAligns | PCFFile.cpp:239-240 | the skip ends the 9-byte records on a 4-byte boundary, and it is the only skip below 4 that does |
| Properties.CStringFrom | PCFFile.cpp:250-255 | the bytes from i up to the first NUL or the pool's end: a NUL-free slice of the pool followed by NUL or the end |
| Properties.CString | PCFFile.cpp:248-255 | an offset outside the pool (a negative one converts to a huge size_t) gives the empty string |
| Properties.CStringZeroTail | PCFFile.cpp:241-255 | zero bytes after the pool change no extracted string |
| Properties.CStringUnique | PCFFile.cpp:250-255 | a NUL-free slice at the offset followed by NUL or the end is the extracted string |
| Properties.ExtractString | PCFFile.cpp:259-268 | the extraction loop returns exactly `CString(pool, offset)` |
| Properties.ToText | PCFFile.cpp:257 | the bytes become the characters of the string one for one |
| Properties.ValueOf | PCFFile.cpp:259-271 | a nonzero `is_string_prop` gives the pool string at `value`; otherwise the raw i32 |
| Properties.Entries | PCFFile.cpp:245-273 | one (name, value) pair per record, in record order |
| Properties.InsertAllKeys | PCFFile.cpp:273 | after the inserts, the keys are the earlier keys plus every inserted key |
| Properties.InsertAllLastWins | PCFFile.cpp:273 | a key takes the value of its last insert |
| Properties.InsertAllUntouched | PCFFile.cpp:273 | a key no insert names keeps its value |
| Properties.BuildPropertiesKeys | PCFFile.cpp:245-274 | the property map holds exactly the earlier keys and every record's name |
| Properties.BuildPropertiesLastWins | PCFFile.cpp:245-274 | a name's value is that of the last record carrying it |
| Properties.BuildPropertiesUntouched | PCFFile.cpp:245-274 | a key no record names keeps its earlier value |
| Properties.InsertAll | PCFFile.cpp:273 | the inserts keep every earlier key and add every inserted key |
| Properties.BuildProperties | PCFFile.cpp:245-274 | the map keeps every earlier key and holds every record's name |
| Properties.ReadPool | PCFFile.cpp:240-243 | the pool is the bytes right after the size, at most `string_size` of them and fewer only at the file's end; a negative size fails with AllocationFailure |
| Properties.ReadTableParts | PCFFile.cpp:226-243 | the number of records is the nprops read at the cursor; a negative nprops fails |
| Properties.ParseTable | PCFFile.cpp:223-276 | a negative nprops fails; on success the map keeps the earlier keys and holds every record's name; it fails exactly when its reads fail |
| Properties.ParseTableLayout | PCFFile.cpp:226-243 | nprops is at the cursor and the records follow. The string size is padding bytes after the records, and the pool follows it |
| Properties.PoolLayout | PCFFile.cpp:240-243 | the string size is padding bytes after the records, and the pool is the `read_some` of that many bytes |
| Accelerators.ReadAccelerators | PCFFile.cpp:277-289 | the table succeeds exactly when 20 bytes remain and bit 3 is set. It fails with the bit-order error or with truncation. It advances by 20 |
| Accelerators.AcceleratorsLayout | PCFFile.cpp:278-288 | the seven flags are the bytes at pos .. pos+6 and the byte at pos+7 is skipped. Ascent, descent and max overlap are the i32 at pos+8, 12 and 16 |
| Metrics.FieldSize | PCFFile.cpp:299-305 | a field takes 1 byte when compressed and 2 otherwise |
| Metrics.ReadShort | PCFFile.cpp:299-305 | `read_short` succeeds exactly when the field fits and bit 3 is set, and advances by the field size |
| Metrics.ReadShortDecodes | PCFFile.cpp:300-304 | a compressed field is the byte minus 0x80, and otherwise the i16 at the cursor |
| Metrics.CompressedRange | PCFFile.cpp:300-302 | a compressed field lies in -128 .. 127 |
| Metrics.CompressedRoundTrip | PCFFile.cpp:300-302 | every value in -128 .. 127 written as value + 0x80 reads back as itself |
| Metrics.ReadMetric | PCFFile.cpp:307-311 | a five-field record succeeds exactly when it fits and bit 3 is set, and advances by the record size |
| Metrics.MetricLayout | PCFFile.cpp:307-311 | a record read at pos fits and holds the five fields stored at pos, pos + f, … pos + 4f (f the field size) |
| Metrics.ReadMetricIsRecord | PCFFile.cpp:307-311 | the five reads of one record come to the closed form: short buffer, then bit-order error, then the fields stored at pos |
| Metrics.ReadMetrics | PCFFile.cpp:296-323 | n records, ending n record sizes after the start |
| Metrics.ReadMetricAt | PCFFile.cpp:296-311 | record i of a successful read is the record stored at start + i record sizes |
| Metrics.RecordSize | PCFFile.cpp:307-311 | a record takes 5 bytes compressed and 10 otherwise |
| Metrics.RecordSpanIsProduct | PCFFile.cpp:296-311 | the bytes n records take is n record sizes |
| Metrics.ReadMetricsOkStep | PCFFile.cpp:296-311 | a successful read of n records extends the read of n - 1 by one record |
| Metrics.ReadMetricsSucceeds | PCFFile.cpp:293-311 | n > 0 records are read exactly when they fit and bit 3 is set |
| Metrics.ReadMetricsErrPersists | PCFFile.cpp:296-311 | once k records fail, reading more fails the same way |
| Metrics.ReadMetricsErrStep | PCFFile.cpp:296-311 | a failed prefix makes the next read fail with the same error |
| Metrics.ParseMetricsTable | PCFFile.cpp:293-323 | a count of 0 or less fails (the `VERIFY`). On success there are exactly `metrics_count` records, at least one |
| Metrics.RunningMax | PCFFile.cpp:316-318 | the running maximum never drops below its start |
| Metrics.RunningMaxIsMax | PCFFile.cpp:316-318 | the running maximum bounds every record's field and is either the start value or one of the fields |
| Metrics.RunningMaxSnoc | PCFFile.cpp:316-318 | one more record raises the maximum to its field when that is larger |
| Metrics.RunningMaxAppend | PCFFile.cpp:316-318 | folding two metrics tables in turn is folding their concatenation |
| Bitmaps.Zeros | PCFFile.cpp:337 | n zero bytes |
| Bitmaps.Blob | PCFFile.cpp:337-338 | the blob resized to the selected size has exactly that size |
| Bitmaps.BlobContents | PCFFile.cpp:337-338 | blob byte k is the stream's byte when one remains, else 0 |
| Bitmaps.ReadBitmaps | PCFFile.cpp:326-339 | a negative glyph count fails to allocate. On success the table has the count that was read, one offset per glyph, four sizes and the format word, and bit 3 is set |
| Bitmaps.BitmapsParts | PCFFile.cpp:327-338 | the count is at the cursor, the offsets follow, then the four sizes, then the blob of the selected size |
| Bitmaps.BitmapsLayout | PCFFile.cpp:327-338 | offset i is the i32 at pos+4+4i and size j the i32 at pos+4+4count+4j. The blob is read after them |
| Bitmaps.ValuesLayout | PCFFile.cpp:331-335 | each offset and each size is the i32 stored at its position |
| Bitmaps.SizesAt | PCFFile.cpp:334-335 | the four sizes are the four i32 after the offsets |
| Bitmaps.OffsetsAt | PCFFile.cpp:331-332 | offset i is the i32 at pos + 4 + 4 i |
| Encodings.ReadEncodings | PCFFile.cpp:340-354 | on success there are exactly `num` indices, bit 3 is set and the five header fields fit |
| Encodings.IndexCount | PCFFile.cpp:348-349 | a single-row table counts its columns, and two ordered ranges give at least one index |
| Encodings.EncodingsLayout | PCFFile.cpp:342-352 | the five i16 fields are at pos .. pos+8 and `num` is not negative. Index i is the i16 at pos + 10 + 2 i |
| Raster.PaddingBytes | PCFFile.cpp:375-376 | the row unit is at least 1 |
| Raster.PaddingBytesValues | PCFFile.cpp:375-376 | selectors 0, 1, 2 and 3 give row units of 1, 2, 4 and 6 bytes |
| Raster.BytesPerRow | PCFFile.cpp:391-393 | the stride is a multiple of the row unit, at least `max(w/8, 1)` and less than one unit above it |
| Raster.BytesPerRowLeast | PCFFile.cpp:391-393 | the stride is the least such multiple |
| Raster.PixelOf | PCFFile.cpp:404-408 | a pixel is 0 or 0x80 with bit 3 set, and 0 or 1 otherwise |
| Raster.TopBitAfterShift | PCFFile.cpp:406 | shifting left by k brings bit 7 - k to the top |
| Raster.PixelBit | PCFFile.cpp:404-408 | with bit 3 set pixel x is byte bit 7 - x%8 (most significant first), and otherwise bit x%8 |
| Raster.FrameOf | PCFFile.cpp:386-398 | the row stride used for a glyph is at least 1 |
| Raster.Baseline | PCFFile.cpp:120-123 | the baseline is ascent - 1 for ascents 1 to 256, and always ascent - 1 modulo 256 |
| Raster.Shift | PCFFile.cpp:398 | no shift for a glyph taller than the baseline; otherwise shift + ascent is baseline + 1, and the i16 wraps negative once that reaches 0x8000 |
| Raster.RasterSpec | PCFFile.cpp:395-411 | a glyph is a width times box-height buffer with a u8 width; a negative size fails to allocate |
| Raster.RowMajor | PCFFile.cpp:409 | position x + r w has column x and row r |
| Raster.RasterPlacement | PCFFile.cpp:400-410 | every pixel is read inside the blob and written inside the glyph. The byte written is the pixel of the source byte |
| Raster.RasterOutsideRows | PCFFile.cpp:396-409 | box rows outside [shift, shift + h) stay zero |
| Raster.FillStep | PCFFile.cpp:400-410 | writing pixel (x, y) extends the written run by one cell |
| Raster.FillComplete | PCFFile.cpp:400-411 | after the last row the buffer is the specified glyph |
| Raster.RasterGlyph | PCFFile.cpp:395-411 | the two pixel loops produce exactly `RasterSpec`, including its errors |
| Raster.WriteIsCell | PCFFile.cpp:409 | the cell written for pixel (x, y) is row y + shift, column x, and holds that pixel |
| Raster.RasterPixel | PCFFile.cpp:398-409 | with bit 3 set, box byte (x, y) is nonzero exactly when glyph row y - shift has bit x set in the blob |
| Font.InitialConsistent | PCFFile.cpp:38-47 | the state after the directory walk satisfies the decoder's invariant |
| Font.AddMetrics | PCFFile.cpp:313-318 | the records are appended after the old ones, the maxima never drop, and the directory, glyphs and ink metrics are kept |
| Font.ApplyTable | PCFFile.cpp:219-220 | an offset past the file's end or a missing format word fails (a negative offset too, by `SeekTo`'s assumption); a table keeps the directory and glyphs |
| Font.Dispatch | PCFFile.cpp:222-357 | an unknown table type changes nothing; every table keeps the directory and glyphs; a properties table keeps the earlier keys |
| Font.Populate | PCFFile.cpp:216-361 | populate_tables keeps the directory and the glyphs |
| Font.AddMetricsBound | PCFFile.cpp:313-318 | appending metrics keeps the maxima bounding every record and never lowers them |
| Font.ApplyTableFrame | PCFFile.cpp:218-357 | a table changes only the member its type names. Metrics tables only append, and unknown types change nothing |
| Font.ApplyTableConsistent | PCFFile.cpp:218-357 | each table keeps the invariant: maxima bound the metrics, and the bitmap table is well formed |
| Font.PopulateConsistent | PCFFile.cpp:216-361 | populate_tables keeps the invariant and leaves the directory and glyphs alone |
| Font.PopulateErrPersists | PCFFile.cpp:218-220 | once a table fails, populate_tables fails the same way |
| Font.PopulateGrows | PCFFile.cpp:218-358 | applying one more table extends the walk |
| Font.PopulateFails | PCFFile.cpp:218-358 | a failing table fails the whole walk with its error |
| Font.ConvertUpTo | PCFFile.cpp:383-412 | converting n glyphs gives n glyphs |
| Font.ConvertErrPersists | PCFFile.cpp:383-412 | once a glyph fails, the conversion fails the same way |
| Font.ConvertGlyphs | PCFFile.cpp:363-415 | a metrics count different from the bitmap glyph count fails (the `VERIFY`). On success there is one glyph per record |
| Font.ConvertLayout | PCFFile.cpp:383-412 | glyph i is the rasterisation of glyph i's frame |
| Font.Decode | PCFFile.cpp:26-51 | a decoded font satisfies the invariant, holds the directory that was read, and has one glyph per metrics record and bitmap glyph |
| Font.DecodeRefusesBadHeader | PCFFile.cpp:31-36 | a bad magic or a count of 0 or less is refused with its error |
| Font.DecodeMaxima | PCFFile.cpp:211-214 | `glyph_size()` of a decoded font is never negative and bounds every record's width, ascent and descent |
| Font.DecodeParts | PCFFile.cpp:46-48 | a decoded font is the populated state with its glyphs converted |
| Font.DecodeConverted | PCFFile.cpp:363-415 | every glyph of a decoded font is the rasterisation of its frame, with bit 3 set |
| Facade.GlyphIndexFor | PCFFile.cpp:80-104 | a found glyph is one of the table's indices. A table index that is negative or past the end finds nothing |
| Facade.GlyphIndexSingleByte | PCFFile.cpp:83-84 | in a single-byte encoding, code point min + j maps to index j when that index is not negative |
| Facade.GlyphIndexWraps | PCFFile.cpp:82-94 | the i16 wrap: a code point 0x8000 or more past the minimum gives a negative index and finds nothing |
| Facade.GlyphIndexTwoByte | PCFFile.cpp:85-103 | a two-byte encoding stores the grid row by row: (hi, lo) maps to row hi - min_byte1, column lo - min_char_or_byte2 |
| Facade.TableIndex | PCFFile.cpp:82-91 | the single-byte offset `cp - min`, exact below 0x8000; in both shapes the value is the offset or the row-major cell modulo 2^16 (the i16 wrap) |
| Facade.LowByteUnchecked | PCFFile.cpp:82-91 | the low byte is not checked against the column range: 0x017F runs on into row 2 and finds the glyph of 0x0220 |
| Facade.TextProperty | PCFFile.cpp:128-131 | an absent key gives the default, a string property its text, and an integer property the wrong-type error |
| Facade.IntProperty | PCFFile.cpp:198-199 | an integer property gives its number; a string one gives the wrong-type error |
| Facade.Family | PCFFile.cpp:125-133 | FAMILY_NAME, or "Unknown" when absent |
| Facade.WeightName | PCFFile.cpp:145-154 | WEIGHT_NAME, or "Regular" when absent |
| Facade.UpToSpace | PCFFile.cpp:135-143 | the longest space-free prefix: a space-free prefix followed by a space or the end |
| Facade.UpToSpacePrefix | PCFFile.cpp:135-143 | the text before the first space of `a + " " + b` is `a` when `a` has no space |
| Facade.Name | PCFFile.cpp:135-143 | `name()` succeeds exactly when family and weight name do, and is one character longer than the two together (its layout is `NameSplits`) |
| Facade.NameSplits | PCFFile.cpp:135-143 | the name is the family, then a space, then the weight name; a space-free family is recovered from the name by `UpToSpace` |
| Facade.KnownWeight | PCFFile.cpp:159-167 | only Thin, Light, Regular and Bold are recognised |
| Facade.SameIgnoringCase | PCFFile.cpp:160-166 | equal strings match, and matching strings have the same length |
| Facade.SameIgnoringCaseLowered | PCFFile.cpp:160-166 | two strings match exactly when their ASCII-lowered forms are equal |
| Facade.Weight | PCFFile.cpp:156-181 | a known weight name, in any case, gives the vocabulary's weight. Past those, the `TODO()` paths give Unimplemented |
| Facade.WeightDefaults | PCFFile.cpp:148-165 | without WEIGHT_NAME the weight is Regular's, and "regular" in any case gives Regular |
| Facade.Slope | PCFFile.cpp:183-194 | the slope is Italic, Oblique or Regular; only an integer SLANT fails |
| Facade.SlopeCodes | PCFFile.cpp:185-193 | "I" is Italic, "O" is Oblique, and any other text or no SLANT is Regular |
| Facade.PixelSize | PCFFile.cpp:196-201 | PIXEL_SIZE, or 0 when absent |
| Facade.XHeight | PCFFile.cpp:203-209 | X_HEIGHT; without it the `TODO()` is Unimplemented |
| Facade.BaselineWraps | PCFFile.cpp:120-123 | the u8 wrap: an ascent of 0 gives a baseline of 255, and 257 gives 0 |
| Facade.IsFixedWidth | PCFFile.h:40 | a font without an accelerator table is not fixed width |
| Facade.IsFixedWidthFromTable | PCFFile.h:40 | the font is fixed width exactly when the fourth accelerator byte is nonzero |
| Facade.GlyphSize | PCFFile.cpp:211-214 | `glyph_size()` of a consistent font is never negative |
| Facade.GlyphWidth | PCFFile.h:26 | `glyph_width(i)` succeeds exactly for i below `glyph_count()` |
| Facade.GlyphCount | PCFFile.h:41 | a converted font has one glyph per bitmap glyph and per metrics record |
| Facade.GlyphWidthDecoded | PCFFile.h:26 | a decoded font has `glyph_count` glyphs, and glyph i's width is the u8 of width + max overlap |
| Facade.GridRow | PCFFile.cpp:112-115 | a drawn row has the glyph's width |
| Facade.DrawGlyph | PCFFile.cpp:106-118 | an index past the end fails. The grid is box-height rows of glyph-width cells, and a glyph too small for the box fails |
| Facade.DrawGlyphDecoded | PCFFile.cpp:106-118 | drawing never fails for a glyph of a decoded font |
| Facade.DrawnCell | PCFFile.cpp:111-115 | grid cell (x, y) is on exactly when glyph byte y·width + x is nonzero |
| Facade.DrawnByte | PCFFile.cpp:111-115 | for a decoded glyph, drawn pixel (x, y) is on exactly when its glyph byte is nonzero |
| Facade.DrawGlyphPixel | PCFFile.cpp:106-118 | for a decoded glyph narrower than 256, drawn pixel (x, y) is on exactly when the source bitmap bit is set |
| Facade.Digits | PCFFile.cpp:73 | the decimal digits of n, at least one |
| Facade.DigitsRoundTrip | PCFFile.cpp:73 | the digits read back as n, with no leading zero |
| Facade.DecimalString | PCFFile.cpp:73 | a minus sign exactly for a negative value, and the digits read back as its magnitude |
| Facade.SizeSuffix | PCFFile.cpp:72-73 | the pixel size's digits when present, "" when absent; a string PIXEL_SIZE fails |
| Facade.ConstructFilename | PCFFile.cpp:53-78 | the name succeeds exactly when its parts do, starts with the family and ends with ".font" |
| Facade.DecimalExamples | PCFFile.cpp:73 | 16 and 24 render as "16" and "24" |
| Facade.RegularExampleParts | PCFFile.cpp:64-65 | the parts of the regular 16-pixel Terminus example |
| Facade.BoldItalicExampleParts | PCFFile.cpp:64-65 | the parts of the bold italic 24-pixel Terminus example |
| Facade.FilenameRegularExample | PCFFile.cpp:62-65 | a regular Terminus of 16 pixels is named TerminusRegular16.font |
| Facade.FilenameBoldItalicExample | PCFFile.cpp:62-65 | a bold italic Terminus of 24 pixels is named TerminusBoldItalic24.font |
| Facade.ItalicExampleParts | PCFFile.cpp:64-65 | the parts of the regular-weight italic 16-pixel Terminus example |
| Facade.FilenameItalicExample | PCFFile.cpp:62-70 | a regular-weight italic Terminus of 16 pixels is named TerminusItalic16.font: weight 400 with a slope leaves the weight unnamed |
| PcfFile.Outcome | PCFFile.cpp:216-361 | a method's result succeeds exactly when the state computation does, and carries its error |
| PcfFile.HeaderIsEntries | PCFFile.cpp:30-45 | after a good magic and a positive count, the header walk is the entry loop from offset 8 |
| PcfFile.EntryStep | PCFFile.cpp:38-45 | one more entry read at the cursor extends the directory by one |
| PcfFile.EntryFails | PCFFile.cpp:38-45 | a failed entry read fails the directory loop |
| PcfFile.ValuesStep | PCFFile.cpp:331-332 | one more value read at the cursor extends the run by one |
| PcfFile.ValuesFail | PCFFile.cpp:331-332 | a failed value read fails the run with its error |
| PcfFile.MetricsStep | PCFFile.cpp:296-311 | one more record read at the cursor extends the records by one |
| PcfFile.MetricsFail | PCFFile.cpp:296-311 | a failed record read fails the run with its error |
| PcfFile.PCFFile.constructor | PCFFile.cpp:21-24 | a fresh stream over the bytes at position 0, with every member empty |
| PcfFile.PCFFile.ReadLE32Value | PCFFile.cpp:35 | returns the little-endian word at the cursor, or truncation |
| PcfFile.PCFFile.ReadField | PCFFile.h:49-63 | `read<T>` returns `Format.Read`'s value within T's range, or its error, and advances by the size |
| PcfFile.PCFFile.ReadEntryValue | PCFFile.cpp:39-43 | one directory entry as `ReadEntry` computes it |
| PcfFile.PCFFile.ReadDirectory | PCFFile.cpp:30-45 | the header part of `create()`: the directory is `ParseHeader`'s, or its error |
| PcfFile.PCFFile.ReadEntryList | PCFFile.cpp:38-45 | the directory loop reads exactly `ReadEntries`, or fails as it does |
| PcfFile.PCFFile.ReadPropRecord | PCFFile.cpp:233-236 | one property record as `ReadRecord` computes it |
| PcfFile.PCFFile.ReadRecordList | PCFFile.cpp:232-237 | the record loop reads exactly `ReadRecords`, or fails as it does |
| PcfFile.PCFFile.ReadPropertyParts | PCFFile.cpp:226-243 | the count, records, padding and pool as `ReadTableParts` computes them |
| PcfFile.PCFFile.ReadPoolBytes | PCFFile.cpp:240-243 | the padding skip, the string size and the pool as `ReadPool` computes them |
| PcfFile.PCFFile.SetProperties | PCFFile.cpp:245-274 | the property map after the `try_set` loop is `BuildProperties` of the old map |
| PcfFile.PCFFile.ReadPropertiesTable | PCFFile.cpp:223-276 | the properties case leaves `ParseTable`'s map, or its error |
| PcfFile.PCFFile.ReadAcceleratorsTable | PCFFile.cpp:277-289 | the accelerators case leaves `ReadAccelerators`'s table, or its error |
| PcfFile.PCFFile.ReadShortValue | PCFFile.cpp:299-305 | `read_short` as `ReadShort` computes it |
| PcfFile.PCFFile.ReadMetricValue | PCFFile.cpp:297-311 | one metrics record as `ReadMetric` computes it |
| PcfFile.PCFFile.ReadMetricRecords | PCFFile.cpp:293-311 | the count check and the record loop give `ParseMetricsTable`'s records, or its error |
| PcfFile.PCFFile.ReadMetricList | PCFFile.cpp:296-311 | the record loop reads exactly `ReadMetrics`, or fails as it does |
| PcfFile.PCFFile.AppendMetrics | PCFFile.cpp:313-318 | the records are appended and each maximum is the running maximum over them |
| PcfFile.PCFFile.ReadMetricsTable | PCFFile.cpp:290-325 | ink metrics are appended to `m_ink_metrics`. Metrics are appended to `m_metrics` with the maxima updated. Otherwise the error |
| PcfFile.PCFFile.ReadFieldList | PCFFile.cpp:331-335 | a loop of `read<T>` reads exactly `ReadValues`, or fails as it does |
| PcfFile.PCFFile.ReadBitmapsTable | PCFFile.cpp:326-339 | the bitmaps case leaves `ReadBitmaps`'s table, or its error |
| PcfFile.PCFFile.ReadEncodingsTable | PCFFile.cpp:340-354 | the encodings case leaves `ReadEncodings`'s table, or its error |
| PcfFile.PCFFile.ApplyTable | PCFFile.cpp:218-357 | one iteration leaves exactly `Font.ApplyTable`'s state, or its error |
| PcfFile.PCFFile.DispatchTable | PCFFile.cpp:222-357 | the switch leaves exactly `Font.Dispatch`'s state, or its error |
| PcfFile.PCFFile.PopulateTables | PCFFile.cpp:216-361 | populate_tables leaves exactly `Font.Populate`'s state over the whole directory, or its error |
| PcfFile.PCFFile.PopulateStep | PCFFile.cpp:218-358 | table i either extends the walk or fails the whole walk with its error |
| PcfFile.PCFFile.ConvertGlyphs | PCFFile.cpp:363-415 | convert_glyphs sets the glyphs to `Font.ConvertGlyphs`, changes nothing else, or reports its error |
| PcfFile.PCFFile.Create | PCFFile.cpp:26-51 | `create()` succeeds exactly when `Font.Decode` does, fails with its error, and leaves a fresh decoder whose members are the decoded font |

## Left out

- main.cpp, the command-line converter that writes the decoded font out as a Serenity bitmap font, is not part of this model.
- The font library's `name_to_weight`, `weight_to_name`, `name_to_slope` and `slope_to_name` are not visible. They are a `Facade.Vocabulary` parameter of total functions.
- Facade.Weight: the XLFD weight calculation and the X11-to-Serenity conversion are `TODO()` in the original. Every such path ends in `Err(Unimplemented)`, as `x_height()` does without X_HEIGHT.
- `highest_codepoint()` and `relative_weight()` are declared in PCFFile.h, but their definitions are not in PCFFile.cpp. They are not modelled.
- Allocation failure of `try_append`/`try_resize` on memory exhaustion is not modelled. Only negative counts and sizes converted to `size_t` fail, as AllocationFailure.
- Stream.SeekTo: the stream library that implements `seek` is not part of this model. A negative table offset is modelled as a failed seek (SeekOutOfRange); what the original's seek does with a negative offset, and what the next read then returns, is not captured.
- Properties.ReadPool: the pool holds only the bytes `read_some` delivered. The original's buffer keeps `string_size` bytes, and its unread tail is uninitialised. If that tail were zero, every extracted string would be the same (`Properties.CStringZeroTail`); a tail of arbitrary bytes is not modelled.
- Bitmaps.Blob: when the stream holds fewer bytes than the selected blob size, the original's buffer tail is left as it was allocated. The model fills it with zeros.
- A table type absent from the directory leaves its member as default-constructed. Members without initialisers (accelerators, bitmap data, encoding table) are modelled as all zero.
- Encodings.ReadEncodings: `num` is computed in `int` and converted to `size_t`. A negative `num` is modelled as AllocationFailure. The product is not bounded to 32 bits.
- The scan unit `(format >> 4) & 3` is computed but unused in convert_glyphs, and is not modelled.
- `Gfx::GlyphBitmap` is modelled as a grid of booleans returned by `Facade.DrawGlyph`, not as a bitmap object updated in place.
- When a table fails part-way, the original has already stored the members it read before the failure. The model's methods update a member only once the whole table has been read. A failed decode is discarded either way, since `create()` returns only the error.
- Directory entries, property records, bitmap offsets and glyphs are collected in local sequences and stored once, not appended or written element by element into the members.
- A buffer shorter than 4 bytes is refused with BadMagic. The original compares bytes that `read_some` did not fill, and then fails on the table count anyway.
