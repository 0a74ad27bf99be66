/** The decoder object: a PCFFile owns the byte stream and the members that
    create(), populate_tables() and convert_glyphs() fill in place. Each
    method is proved to leave exactly the state the pure decoder of module
    Font describes. */
module PcfFile {
  import opened Ints
  import opened Wrappers
  import opened Stream
  import opened Format
  import opened Directory
  import opened Properties
  import opened Accelerators
  import opened Metrics
  import opened Bitmaps
  import opened Encodings
  import opened Raster
  import Font

  class PCFFile {
    const stream: ByteStream
    var tables: seq<TocEntry>
    var properties: map<string, Property>
    var metrics: seq<Metric>
    var inkMetrics: seq<Metric>
    var acc: AcceleratorTable
    var bitmap: BitmapData
    var encoding: EncodingTable
    var glyphs: seq<Glyph>
    var maxAscent: i16
    var maxDescent: i16
    var maxWidth: i16

    /** The members, as the value the pure decoder computes. */
    function State(): Font.FontState
      reads this
    {
      Font.FontState(tables, properties, metrics, inkMetrics, acc, bitmap, encoding, glyphs,
                     maxAscent, maxDescent, maxWidth)
    }

    ghost predicate Valid()
      reads this, stream
    {
      stream.Valid()
    }

    constructor (bytes: seq<u8>)
      ensures Valid() && fresh(stream)
      ensures stream.bytes == bytes && stream.pos == 0
      ensures State() == Font.Initial([])
    {
      stream := new ByteStream(bytes);
      tables := [];
      properties := map[];
      metrics := [];
      inkMetrics := [];
      acc := NoAccelerators;
      bitmap := NoBitmaps;
      encoding := NoEncoding;
      glyphs := [];
      maxAscent := 0;
      maxDescent := 0;
      maxWidth := 0;
    }

    /** read_value<LittleEndian<i32>>. */
    method ReadLE32Value() returns (r: Result<i32>)
      requires Valid()
      modifies stream
      ensures Valid()
      ensures r.Ok? <==> ReadLE32(stream.bytes, old(stream.pos)).Ok?
      ensures r.Err? ==> r.error == Truncated
      ensures r.Ok? ==> r.value == ReadLE32(stream.bytes, old(stream.pos)).value.0 &&
                        stream.pos == ReadLE32(stream.bytes, old(stream.pos)).value.1
    {
      var u := stream.ReadValue(4, false);
      if u.Err? {
        return Err(u.error);
      }
      return Ok(I32.FromBits(u.value));
    }

    /** read<T>(format): a value in the byte order bit 2 selects; fails when
        bit 3 is clear. */
    method ReadField(format: i32, kind: IntKind) returns (r: Result<int>)
      requires Valid()
      modifies stream
      ensures Valid()
      ensures r.Ok? <==> Read(stream.bytes, old(stream.pos), format, kind).Ok?
      ensures r.Err? ==> r.error == Read(stream.bytes, old(stream.pos), format, kind).error
      ensures r.Ok? ==> r.value == Read(stream.bytes, old(stream.pos), format, kind).value.0 &&
                        stream.pos == Read(stream.bytes, old(stream.pos), format, kind).value.1
      ensures r.Ok? && kind == U8 ==> 0 <= r.value < 0x100
      ensures r.Ok? && kind == I8 ==> -0x80 <= r.value < 0x80
      ensures r.Ok? && kind == I16 ==> -0x8000 <= r.value < 0x8000
      ensures r.Ok? && kind == I32 ==> -0x8000_0000 <= r.value < 0x8000_0000
    {
      var u := stream.ReadValue(kind.Size(), BigEndianBytes(format));
      if u.Err? {
        return Err(u.error);
      }
      if !BitOrderSet(format) {
        return Err(UnsupportedBitOrder);
      }
      return Ok(kind.FromBits(u.value));
    }

    /** One directory entry: four read_value<LittleEndian<i32>>. */
    method ReadEntryValue() returns (r: Result<TocEntry>)
      requires Valid()
      modifies stream
      ensures Valid()
      ensures r.Ok? <==> ReadEntry(stream.bytes, old(stream.pos)).Ok?
      ensures r.Err? ==> r.error == Truncated
      ensures r.Ok? ==> ReadEntry(stream.bytes, old(stream.pos)) == Ok((r.value, stream.pos))
    {
      var t := ReadLE32Value();
      if t.Err? {
        return Err(Truncated);
      }
      var f := ReadLE32Value();
      if f.Err? {
        return Err(Truncated);
      }
      var s := ReadLE32Value();
      if s.Err? {
        return Err(Truncated);
      }
      var o := ReadLE32Value();
      if o.Err? {
        return Err(Truncated);
      }
      return Ok(TocEntry(t.value, f.value, s.value, o.value));
    }

    /** The header part of create(): magic, table count, then the directory
        entries appended to m_tables in file order. */
    method ReadDirectory() returns (r: Result<()>)
      requires Valid() && stream.pos == 0 && State() == Font.Initial([])
      modifies this, stream
      ensures Valid()
      ensures r.Ok? <==> ParseHeader(stream.bytes).Ok?
      ensures r.Err? ==> r.error == ParseHeader(stream.bytes).error
      ensures r.Ok? ==> State() == Font.Initial(ParseHeader(stream.bytes).value.0) &&
                        stream.pos == ParseHeader(stream.bytes).value.1
    {
      var magic := stream.ReadSomeBytes(4);
      if |magic| < 4 || magic != MAGIC {
        return Err(BadMagic);
      }
      assert stream.bytes[..4] == MAGIC;
      var count := ReadLE32Value();
      if count.Err? {
        return Err(count.error);
      }
      if count.value <= 0 {
        return Err(InvalidTableCount);
      }
      HeaderIsEntries(stream.bytes);
      var entries := ReadEntryList(count.value);
      if entries.Err? {
        return Err(entries.error);
      }
      tables := entries.value;
      r := Ok(());
    }

    /** The directory loop of create(): n entries in file order. */
    method ReadEntryList(n: nat) returns (r: Result<seq<TocEntry>>)
      requires Valid()
      modifies stream
      ensures Valid()
      ensures r.Ok? <==> ReadEntries(stream.bytes, old(stream.pos), n).Ok?
      ensures r.Err? ==> r.error == Truncated
      ensures r.Ok? ==> ReadEntries(stream.bytes, old(stream.pos), n) == Ok((r.value, stream.pos))
    {
      ghost var data, start := stream.bytes, stream.pos;
      var entries: seq<TocEntry> := [];
      var i: nat := 0;
      while i < n
        invariant Valid() && i <= n && stream.bytes == data
        invariant ReadEntries(data, start, i) == Ok((entries, stream.pos))
      {
        ghost var p := stream.pos;
        var e := ReadEntryValue();
        if e.Err? {
          EntryFails(data, start, i, n, p);
          return Err(Truncated);
        }
        EntryStep(data, start, i, entries, p, e.value, stream.pos);
        entries := entries + [e.value];
        i := i + 1;
      }
      return Ok(entries);
    }

    /** One properties record: read<i32>, read<i8>, read<i32>. */
    method ReadPropRecord(format: i32) returns (r: Result<PropRecord>)
      requires Valid()
      modifies stream
      ensures Valid()
      ensures r.Ok? <==> ReadRecord(stream.bytes, old(stream.pos), format).Ok?
      ensures r.Err? ==> r.error == ReadRecord(stream.bytes, old(stream.pos), format).error
      ensures r.Ok? ==> ReadRecord(stream.bytes, old(stream.pos), format) == Ok((r.value, stream.pos))
    {
      var name := ReadField(format, I32);
      if name.Err? {
        return Err(name.error);
      }
      var isString := ReadField(format, I8);
      if isString.Err? {
        return Err(isString.error);
      }
      var value := ReadField(format, I32);
      if value.Err? {
        return Err(value.error);
      }
      return Ok(PropRecord(name.value, isString.value, value.value));
    }

    /** The record loop of the properties case: n records in order. */
    method ReadRecordList(format: i32, n: nat) returns (r: Result<seq<PropRecord>>)
      requires Valid()
      modifies stream
      ensures Valid()
      ensures r.Ok? <==> ReadRecords(stream.bytes, old(stream.pos), format, n).Ok?
      ensures r.Err? ==> r.error == ReadRecords(stream.bytes, old(stream.pos), format, n).error
      ensures r.Ok? ==> ReadRecords(stream.bytes, old(stream.pos), format, n) == Ok((r.value, stream.pos))
    {
      ghost var data, start := stream.bytes, stream.pos;
      var records: seq<PropRecord> := [];
      var i: nat := 0;
      while i < n
        invariant Valid() && i <= n && stream.bytes == data
        invariant ReadRecords(data, start, format, i) == Ok((records, stream.pos))
      {
        var rec := ReadPropRecord(format);
        if rec.Err? {
          assert ReadRecords(data, start, format, i + 1) == Err(rec.error);
          ReadRecordsErrPersists(data, start, format, i + 1, n);
          return Err(rec.error);
        }
        assert ReadRecords(data, start, format, i + 1) == Ok((records + [rec.value], stream.pos));
        records := records + [rec.value];
        i := i + 1;
      }
      return Ok(records);
    }

    /** The reads of the PCF_PROPERTIES case: count, records, padding skip,
        string size and the string pool. */
    method ReadPropertyParts(format: i32) returns (r: Result<(seq<PropRecord>, seq<u8>)>)
      requires Valid()
      modifies stream
      ensures Valid()
      ensures r == ReadTableParts(stream.bytes, old(stream.pos), format)
    {
      var count := ReadField(format, I32);
      if count.Err? {
        return Err(count.error);
      }
      if count.value < 0 {
        return Err(NegativePropertyCount);
      }
      var n: nat := count.value;
      var records := ReadRecordList(format, n);
      if records.Err? {
        return Err(records.error);
      }
      var pool := ReadPoolBytes(format, n);
      if pool.Err? {
        return Err(pool.error);
      }
      return Ok((records.value, pool.value));
    }

    /** The padding skip after nprops records, the string size and the pool. */
    method ReadPoolBytes(format: i32, nprops: nat) returns (r: Result<seq<u8>>)
      requires Valid()
      modifies stream
      ensures Valid()
      ensures r == ReadPool(stream.bytes, old(stream.pos), format, nprops)
    {
      var skip := stream.SeekBy(Padding(nprops));
      if skip.Err? {
        return Err(skip.error);
      }
      var size := ReadField(format, I32);
      if size.Err? {
        return Err(size.error);
      }
      if size.value < 0 {
        return Err(AllocationFailure);
      }
      var pool := stream.ReadSomeBytes(size.value);
      return Ok(pool);
    }

    /** The try_set loop of the PCF_PROPERTIES case: record by record, the
        extracted name mapped to the record's value. */
    method SetProperties(records: seq<PropRecord>, pool: seq<u8>)
      modifies this`properties
      ensures properties == BuildProperties(records, pool, old(properties))
    {
      ghost var kvs := Entries(records, pool);
      var i := 0;
      while i < |records|
        invariant i <= |records|
        invariant properties == InsertAll(old(properties), kvs[..i])
      {
        var rec := records[i];
        var name := ExtractString(pool, rec.nameOffset);
        var value: Property;
        if rec.isStringProp != 0 {
          var text := ExtractString(pool, rec.value);
          value := StringProp(ToText(text));
        } else {
          value := IntProp(rec.value);
        }
        assert kvs[i] == (ToText(name), value);
        InsertAllStep(old(properties), kvs, i);
        properties := properties[ToText(name) := value];
        i := i + 1;
      }
      assert kvs[..i] == kvs;
    }

    /** The PCF_PROPERTIES case of populate_tables. */
    method ReadPropertiesTable(format: i32) returns (r: Result<()>)
      requires Valid()
      modifies this`properties, stream
      ensures Valid()
      ensures r == Outcome(ParseTable(stream.bytes, old(stream.pos), format, old(properties)))
      ensures r.Ok? ==> properties == ParseTable(stream.bytes, old(stream.pos), format, old(properties)).value
    {
      var parts := ReadPropertyParts(format);
      if parts.Err? {
        return Err(parts.error);
      }
      SetProperties(parts.value.0, parts.value.1);
      r := Ok(());
    }

    /** The PCF_ACCELERATORS case: seven flags, a padding byte, three i32. */
    method ReadAcceleratorsTable(format: i32) returns (r: Result<()>)
      requires Valid()
      modifies this`acc, stream
      ensures Valid()
      ensures r == Outcome(ReadAccelerators(stream.bytes, old(stream.pos), format))
      ensures r.Ok? ==> acc == ReadAccelerators(stream.bytes, old(stream.pos), format).value.0
    {
      var noOverlap := ReadField(format, U8);
      if noOverlap.Err? {
        return Err(noOverlap.error);
      }
      var constantMetrics := ReadField(format, U8);
      if constantMetrics.Err? {
        return Err(constantMetrics.error);
      }
      var terminalFont := ReadField(format, U8);
      if terminalFont.Err? {
        return Err(terminalFont.error);
      }
      var constantWidth := ReadField(format, U8);
      if constantWidth.Err? {
        return Err(constantWidth.error);
      }
      var inkInside := ReadField(format, U8);
      if inkInside.Err? {
        return Err(inkInside.error);
      }
      var inkMetricsFlag := ReadField(format, U8);
      if inkMetricsFlag.Err? {
        return Err(inkMetricsFlag.error);
      }
      var drawDirection := ReadField(format, U8);
      if drawDirection.Err? {
        return Err(drawDirection.error);
      }
      var padding := ReadField(format, U8);
      if padding.Err? {
        return Err(padding.error);
      }
      var fontAscent := ReadField(format, I32);
      if fontAscent.Err? {
        return Err(fontAscent.error);
      }
      var fontDescent := ReadField(format, I32);
      if fontDescent.Err? {
        return Err(fontDescent.error);
      }
      var maxOverlap := ReadField(format, I32);
      if maxOverlap.Err? {
        return Err(maxOverlap.error);
      }
      acc := AcceleratorTable(noOverlap.value, constantMetrics.value, terminalFont.value,
                              constantWidth.value, inkInside.value, inkMetricsFlag.value,
                              drawDirection.value, fontAscent.value, fontDescent.value, maxOverlap.value);
      r := Ok(());
    }

    /** The read_short lambda: one byte minus 0x80 when the metrics are
        compressed, otherwise a read<i16>. */
    method ReadShortValue(format: i32) returns (r: Result<i16>)
      requires Valid()
      modifies stream
      ensures Valid()
      ensures r.Ok? <==> ReadShort(stream.bytes, old(stream.pos), format).Ok?
      ensures r.Err? ==> r.error == ReadShort(stream.bytes, old(stream.pos), format).error
      ensures r.Ok? ==> ReadShort(stream.bytes, old(stream.pos), format) == Ok((r.value, stream.pos))
    {
      if CompressedMetrics(format) {
        var compressed := ReadField(format, U8);
        if compressed.Err? {
          return Err(compressed.error);
        }
        return Ok(compressed.value - 0x80);
      }
      var v := ReadField(format, I16);
      if v.Err? {
        return Err(v.error);
      }
      return Ok(v.value);
    }

    /** One five-field metrics record. */
    method ReadMetricValue(format: i32) returns (r: Result<Metric>)
      requires Valid()
      modifies stream
      ensures Valid()
      ensures r.Ok? <==> ReadMetric(stream.bytes, old(stream.pos), format).Ok?
      ensures r.Err? ==> r.error == ReadMetric(stream.bytes, old(stream.pos), format).error
      ensures r.Ok? ==> ReadMetric(stream.bytes, old(stream.pos), format) == Ok((r.value, stream.pos))
    {
      var lsb := ReadShortValue(format);
      if lsb.Err? {
        return Err(lsb.error);
      }
      var rsb := ReadShortValue(format);
      if rsb.Err? {
        return Err(rsb.error);
      }
      var width := ReadShortValue(format);
      if width.Err? {
        return Err(width.error);
      }
      var ascent := ReadShortValue(format);
      if ascent.Err? {
        return Err(ascent.error);
      }
      var descent := ReadShortValue(format);
      if descent.Err? {
        return Err(descent.error);
      }
      return Ok(Metric(lsb.value, rsb.value, width.value, ascent.value, descent.value));
    }

    /** The reads of the PCF_METRICS and PCF_INK_METRICS case: a positive
        i16 count, then that many records. */
    method ReadMetricRecords(format: i32) returns (r: Result<seq<Metric>>)
      requires Valid()
      modifies stream
      ensures Valid()
      ensures r.Ok? <==> ParseMetricsTable(stream.bytes, old(stream.pos), format).Ok?
      ensures r.Err? ==> r.error == ParseMetricsTable(stream.bytes, old(stream.pos), format).error
      ensures r.Ok? ==> r.value == ParseMetricsTable(stream.bytes, old(stream.pos), format).value.0
    {
      ghost var start := stream.pos;
      var count := ReadField(format, I16);
      if count.Err? {
        return Err(count.error);
      }
      if count.value <= 0 {
        return Err(InvalidMetricsCount);
      }
      var n: nat := count.value;
      assert ParseMetricsTable(stream.bytes, start, format) == ReadMetrics(stream.bytes, stream.pos, format, n);
      r := ReadMetricList(format, n);
    }

    /** The record loop of the metrics case: n records in order. */
    method ReadMetricList(format: i32, n: nat) returns (r: Result<seq<Metric>>)
      requires Valid()
      modifies stream
      ensures Valid()
      ensures r.Ok? <==> ReadMetrics(stream.bytes, old(stream.pos), format, n).Ok?
      ensures r.Err? ==> r.error == ReadMetrics(stream.bytes, old(stream.pos), format, n).error
      ensures r.Ok? ==> ReadMetrics(stream.bytes, old(stream.pos), format, n) == Ok((r.value, stream.pos))
    {
      ghost var data, first := stream.bytes, stream.pos;
      var ms: seq<Metric> := [];
      var i: nat := 0;
      while i < n
        invariant Valid() && i <= n && stream.bytes == data
        invariant ReadMetrics(data, first, format, i) == Ok((ms, stream.pos))
      {
        ghost var p := stream.pos;
        var m := ReadMetricValue(format);
        if m.Err? {
          MetricsFail(data, first, format, i, n, ms, p);
          return Err(m.error);
        }
        MetricsStep(data, first, format, i, ms, p, m.value, stream.pos);
        ms := ms + [m.value];
        i := i + 1;
      }
      return Ok(ms);
    }

    /** The PCF_METRICS branch of the record loop: each record appended to
        m_metrics, and m_max_* raised to its fields where larger. */
    method AppendMetrics(ms: seq<Metric>)
      modifies this`metrics, this`maxAscent, this`maxDescent, this`maxWidth
      ensures metrics == old(metrics) + ms
      ensures maxAscent == RunningMax(old(maxAscent), ms, Ascent)
      ensures maxDescent == RunningMax(old(maxDescent), ms, Descent)
      ensures maxWidth == RunningMax(old(maxWidth), ms, Width)
    {
      var i := 0;
      while i < |ms|
        invariant i <= |ms|
        invariant metrics == old(metrics) + ms[..i]
        invariant maxAscent == RunningMax(old(maxAscent), ms[..i], Ascent)
        invariant maxDescent == RunningMax(old(maxDescent), ms[..i], Descent)
        invariant maxWidth == RunningMax(old(maxWidth), ms[..i], Width)
      {
        var m := ms[i];
        assert ms[..i + 1] == ms[..i] + [m];
        RunningMaxSnoc(old(maxAscent), ms[..i], m, Ascent);
        RunningMaxSnoc(old(maxDescent), ms[..i], m, Descent);
        RunningMaxSnoc(old(maxWidth), ms[..i], m, Width);
        metrics := metrics + [m];
        if m.characterAscent > maxAscent {
          maxAscent := m.characterAscent;
        }
        if m.characterDescent > maxDescent {
          maxDescent := m.characterDescent;
        }
        if m.characterWidth > maxWidth {
          maxWidth := m.characterWidth;
        }
        i := i + 1;
      }
      assert ms[..i] == ms;
    }

    /** The PCF_METRICS and PCF_INK_METRICS case: the records go to m_metrics
        (raising the maxima) or to m_ink_metrics. */
    method ReadMetricsTable(format: i32, ink: bool) returns (r: Result<()>)
      requires Valid()
      modifies this`metrics, this`inkMetrics, this`maxAscent, this`maxDescent, this`maxWidth, stream
      ensures Valid()
      ensures r == Outcome(ParseMetricsTable(stream.bytes, old(stream.pos), format))
      ensures r.Ok? && ink ==>
        State() == old(State()).(inkMetrics := old(inkMetrics) + ParseMetricsTable(stream.bytes, old(stream.pos), format).value.0)
      ensures r.Ok? && !ink ==>
        State() == Font.AddMetrics(old(State()), ParseMetricsTable(stream.bytes, old(stream.pos), format).value.0)
    {
      var ms := ReadMetricRecords(format);
      if ms.Err? {
        return Err(ms.error);
      }
      if ink {
        inkMetrics := inkMetrics + ms.value;
      } else {
        AppendMetrics(ms.value);
      }
      r := Ok(());
    }

    /** n read<T>(format) calls in a row, the values in order. */
    method ReadFieldList(format: i32, kind: IntKind, n: nat) returns (r: Result<seq<int>>)
      requires Valid()
      modifies stream
      ensures Valid()
      ensures r.Ok? <==> ReadValues(stream.bytes, old(stream.pos), format, kind, n).Ok?
      ensures r.Err? ==> r.error == ReadValues(stream.bytes, old(stream.pos), format, kind, n).error
      ensures r.Ok? ==> ReadValues(stream.bytes, old(stream.pos), format, kind, n) == Ok((r.value, stream.pos))
    {
      ghost var data, start := stream.bytes, stream.pos;
      var vs: seq<int> := [];
      var i: nat := 0;
      while i < n
        invariant Valid() && i <= n && stream.bytes == data
        invariant ReadValues(data, start, format, kind, i) == Ok((vs, stream.pos))
      {
        ghost var p := stream.pos;
        var v := ReadField(format, kind);
        if v.Err? {
          ValuesFail(data, start, format, kind, i, n, p);
          return Err(v.error);
        }
        ValuesStep(data, start, format, kind, i, vs, p, v.value, stream.pos);
        vs := vs + [v.value];
        i := i + 1;
      }
      return Ok(vs);
    }

    /** The PCF_BITMAPS case: glyph count, offsets, the four sizes, then the
        blob, resized to the selected size and filled by read_some. */
    method ReadBitmapsTable(format: i32) returns (r: Result<()>)
      requires Valid()
      modifies this`bitmap, stream
      ensures Valid()
      ensures r == Outcome(ReadBitmaps(stream.bytes, old(stream.pos), format))
      ensures r.Ok? ==> bitmap == ReadBitmaps(stream.bytes, old(stream.pos), format).value
    {
      var count := ReadField(format, I32);
      if count.Err? {
        return Err(count.error);
      }
      if count.value < 0 {
        return Err(AllocationFailure);
      }
      var offsets := ReadFieldList(format, I32, count.value);
      if offsets.Err? {
        return Err(offsets.error);
      }
      var sizes := ReadFieldList(format, I32, SIZE_COUNT);
      if sizes.Err? {
        return Err(sizes.error);
      }
      var size := sizes.value[PadSelector(format)];
      if size < 0 {
        return Err(AllocationFailure);
      }
      var got := stream.ReadSomeBytes(size);
      bitmap := BitmapData(format, count.value, offsets.value, sizes.value, got + Zeros(size - |got|));
      r := Ok(());
    }

    /** The PCF_BDF_ENCODINGS case: five i16 range fields, then `num` i16
        glyph indices. */
    method ReadEncodingsTable(format: i32) returns (r: Result<()>)
      requires Valid()
      modifies this`encoding, stream
      ensures Valid()
      ensures r == Outcome(ReadEncodings(stream.bytes, old(stream.pos), format))
      ensures r.Ok? ==> encoding == ReadEncodings(stream.bytes, old(stream.pos), format).value
    {
      var min2 := ReadField(format, I16);
      if min2.Err? {
        return Err(min2.error);
      }
      var max2 := ReadField(format, I16);
      if max2.Err? {
        return Err(max2.error);
      }
      var minb1 := ReadField(format, I16);
      if minb1.Err? {
        return Err(minb1.error);
      }
      var maxb1 := ReadField(format, I16);
      if maxb1.Err? {
        return Err(maxb1.error);
      }
      var default := ReadField(format, I16);
      if default.Err? {
        return Err(default.error);
      }
      var ranges := EncodingTable(min2.value, max2.value, minb1.value, maxb1.value, default.value, []);
      var num := IndexCount(ranges);
      if num < 0 {
        return Err(AllocationFailure);
      }
      var indices := ReadFieldList(format, I16, num);
      if indices.Err? {
        return Err(indices.error);
      }
      encoding := ranges.(indices := indices.value);
      r := Ok(());
    }

    /** One iteration of populate_tables: seek to the table, read its format
        word little-endian, then run the case its type selects. */
    method ApplyTable(entry: TocEntry) returns (r: Result<()>)
      requires Valid()
      modifies this`properties, this`acc, this`metrics, this`inkMetrics, this`maxAscent,
               this`maxDescent, this`maxWidth, this`bitmap, this`encoding, stream
      ensures Valid()
      ensures r == Outcome(Font.ApplyTable(stream.bytes, entry, old(State())))
      ensures r.Ok? ==> State() == Font.ApplyTable(stream.bytes, entry, old(State())).value
    {
      var start := stream.Seek(entry.offset);
      if start.Err? {
        return Err(start.error);
      }
      var word := ReadLE32Value();
      if word.Err? {
        return Err(word.error);
      }
      r := DispatchTable(word.value, entry.tableType);
    }

    /** The switch of populate_tables on the exact table type; other types
        are skipped. */
    method DispatchTable(format: i32, tableType: i32) returns (r: Result<()>)
      requires Valid()
      modifies this`properties, this`acc, this`metrics, this`inkMetrics, this`maxAscent,
               this`maxDescent, this`maxWidth, this`bitmap, this`encoding, stream
      ensures Valid()
      ensures r == Outcome(Font.Dispatch(stream.bytes, old(stream.pos), format, tableType, old(State())))
      ensures r.Ok? ==> State() == Font.Dispatch(stream.bytes, old(stream.pos), format, tableType, old(State())).value
    {
      ghost var st0 := State();
      if tableType == PCF_PROPERTIES {
        r := ReadPropertiesTable(format);
        assert r.Ok? ==> State() == st0.(properties := properties);
      } else if tableType == PCF_ACCELERATORS {
        r := ReadAcceleratorsTable(format);
        assert r.Ok? ==> State() == st0.(acc := acc);
      } else if tableType == PCF_METRICS || tableType == PCF_INK_METRICS {
        r := ReadMetricsTable(format, tableType == PCF_INK_METRICS);
      } else if tableType == PCF_BITMAPS {
        r := ReadBitmapsTable(format);
        assert r.Ok? ==> State() == st0.(bitmap := bitmap);
      } else if tableType == PCF_BDF_ENCODINGS {
        r := ReadEncodingsTable(format);
        assert r.Ok? ==> State() == st0.(encoding := encoding);
      } else {
        r := Ok(());
      }
    }

    /** populate_tables: every directory entry in order, stopping at the
        first table that fails. */
    method PopulateTables() returns (r: Result<()>)
      requires Valid()
      modifies this`properties, this`acc, this`metrics, this`inkMetrics, this`maxAscent,
               this`maxDescent, this`maxWidth, this`bitmap, this`encoding, stream
      ensures Valid()
      ensures r == Outcome(Font.Populate(stream.bytes, old(State()), |tables|))
      ensures r.Ok? ==> State() == Font.Populate(stream.bytes, old(State()), |tables|).value
    {
      ghost var st0 := State();
      var i := 0;
      while i < |tables|
        invariant Valid() && i <= |tables| && st0.tables == tables
        invariant Font.Populate(stream.bytes, st0, i) == Ok(State())
      {
        var step := PopulateStep(st0, i);
        if step.Err? {
          return Err(step.error);
        }
        i := i + 1;
      }
      r := Ok(());
    }

    /** Table i of the walk, after i tables that all succeeded: it either
        extends the walk by one or fails the whole walk with its error. */
    method PopulateStep(ghost st0: Font.FontState, i: nat) returns (r: Result<()>)
      requires Valid() && i < |tables| && st0.tables == tables
      requires Font.Populate(stream.bytes, st0, i) == Ok(State())
      modifies this`properties, this`acc, this`metrics, this`inkMetrics, this`maxAscent,
               this`maxDescent, this`maxWidth, this`bitmap, this`encoding, stream
      ensures Valid()
      ensures r.Ok? ==> Font.Populate(stream.bytes, st0, i + 1) == Ok(State())
      ensures r.Err? ==> Font.Populate(stream.bytes, st0, |tables|) == Err(r.error)
    {
      ghost var st := State();
      r := ApplyTable(tables[i]);
      if r.Err? {
        Font.PopulateFails(stream.bytes, st0, i, st);
      } else {
        Font.PopulateGrows(stream.bytes, st0, i, st, State());
      }
    }

    /** convert_glyphs: as many metrics records as bitmap glyphs, then each
        glyph rasterised into the font's box, in order. */
    method ConvertGlyphs() returns (r: Result<()>)
      requires Bitmaps.WellFormed(bitmap)
      modifies this`glyphs
      ensures r == Outcome(Font.ConvertGlyphs(old(State())))
      ensures r.Ok? ==> State() == old(State()).(glyphs := Font.ConvertGlyphs(old(State())).value)
    {
      if |metrics| != bitmap.glyphCount as int {
        return Err(GlyphCountMismatch);
      }
      ghost var st := State();
      var height := maxAscent as int + maxDescent as int;
      var gs: seq<Glyph> := [];
      var i := 0;
      while i < |metrics|
        invariant i <= |metrics| && State() == st
        invariant Font.ConvertUpTo(st, i) == Ok(gs)
      {
        var frame := FrameOf(metrics[i], acc.maxOverlap, acc.fontAscent, height,
                             bitmap.format, bitmap.offsets[i]);
        assert frame == Font.GlyphFrame(st, i);
        var g := RasterGlyph(frame, bitmap.data);
        if g.Err? {
          Font.ConvertErrPersists(st, i + 1, |metrics|);
          return Err(g.error);
        }
        gs := gs + [g.value];
        i := i + 1;
      }
      glyphs := gs;
      r := Ok(());
    }

    /** create(): a fresh decoder over bytes that reads the header and the
        directory, fills the members from the tables and converts the
        glyphs, failing with the first error any step reports. */
    static method Create(bytes: seq<u8>) returns (r: Result<PCFFile>)
      ensures r.Ok? <==> Font.Decode(bytes).Ok?
      ensures r.Err? ==> r.error == Font.Decode(bytes).error
      ensures r.Ok? ==> fresh(r.value) && r.value.State() == Font.Decode(bytes).value
    {
      var pcf := new PCFFile(bytes);
      var header := pcf.ReadDirectory();
      if header.Err? {
        return Err(header.error);
      }
      ghost var st0 := pcf.State();
      Font.InitialConsistent(pcf.tables);
      var populated := pcf.PopulateTables();
      if populated.Err? {
        return Err(populated.error);
      }
      Font.PopulateConsistent(bytes, st0, |st0.tables|);
      var converted := pcf.ConvertGlyphs();
      if converted.Err? {
        return Err(converted.error);
      }
      r := Ok(pcf);
    }
  }

  /** What a state-changing method reports: success or the error alone. */
  function Outcome<T>(r: Result<T>): (u: Result<()>)
    ensures u.Ok? <==> r.Ok?
    ensures u.Err? ==> u.error == r.error
  {
    if r.Ok? then Ok(()) else Err(r.error)
  }

  /** After a well-formed magic and a positive count, the header walk is
      the walk over count entries from byte 8. */
  lemma HeaderIsEntries(data: seq<u8>)
    requires |data| >= 8 && data[..4] == MAGIC && LE32At(data, 4) > 0
    ensures ParseHeader(data) == ReadEntries(data, 8, LE32At(data, 4))
  {
    assert ReadLE32(data, 4) == Ok((LE32At(data, 4), 8));
  }

  /** One more entry read at the cursor extends the directory by one. */
  lemma EntryStep(data: seq<u8>, pos: nat, i: nat, es: seq<TocEntry>, p: nat, e: TocEntry, q: nat)
    requires ReadEntries(data, pos, i) == Ok((es, p)) && ReadEntry(data, p) == Ok((e, q))
    ensures ReadEntries(data, pos, i + 1) == Ok((es + [e], q))
  {
  }

  /** Reading entry i fails when fewer than 16 bytes remain after the first
      i entries, and then the whole directory read fails. */
  lemma EntryFails(data: seq<u8>, pos: nat, i: nat, n: nat, p: nat)
    requires i < n && ReadEntries(data, pos, i).Ok? && ReadEntries(data, pos, i).value.1 == p
    requires ReadEntry(data, p).Err?
    ensures ReadEntries(data, pos, n).Err?
  {
    ReadEntriesErrPersists(data, pos, i + 1, n);
  }

  /** One more value read at the cursor extends the run by one. */
  lemma ValuesStep(data: seq<u8>, pos: nat, format: i32, kind: IntKind, i: nat, vs: seq<int>, p: nat, v: int, q: nat)
    requires ReadValues(data, pos, format, kind, i) == Ok((vs, p))
    requires Read(data, p, format, kind).Ok? && Read(data, p, format, kind).value.0 == v &&
             Read(data, p, format, kind).value.1 == q
    ensures ReadValues(data, pos, format, kind, i + 1) == Ok((vs + [v], q))
  {
  }

  /** A failed value read after i good ones fails the run of n with its error. */
  lemma ValuesFail(data: seq<u8>, pos: nat, format: i32, kind: IntKind, i: nat, n: nat, p: nat)
    requires i < n && ReadValues(data, pos, format, kind, i).Ok? && ReadValues(data, pos, format, kind, i).value.1 == p
    requires Read(data, p, format, kind).Err?
    ensures ReadValues(data, pos, format, kind, n) == Err(Read(data, p, format, kind).error)
  {
    ReadValuesErrPersists(data, pos, format, kind, i + 1, n);
  }

  /** One more record read at the cursor extends the records read so far. */
  lemma MetricsStep(data: seq<u8>, pos: nat, format: i32, i: nat, ms: seq<Metric>, p: nat, m: Metric, q: nat)
    requires ReadMetrics(data, pos, format, i) == Ok((ms, p))
    requires ReadMetric(data, p, format) == Ok((m, q))
    ensures ReadMetrics(data, pos, format, i + 1) == Ok((ms + [m], q))
  {
    ReadMetricIsRecord(data, p, format);
  }

  /** A failed record read after i good ones fails the run of n with its error. */
  lemma MetricsFail(data: seq<u8>, pos: nat, format: i32, i: nat, n: nat, ms: seq<Metric>, p: nat)
    requires i < n && ReadMetrics(data, pos, format, i) == Ok((ms, p))
    requires ReadMetric(data, p, format).Err?
    ensures ReadMetrics(data, pos, format, n) == Err(ReadMetric(data, p, format).error)
  {
    ReadMetricIsRecord(data, p, format);
    assert ReadMetrics(data, pos, format, i + 1) == Err(ReadMetric(data, p, format).error);
    ReadMetricsErrPersists(data, pos, format, i + 1, n);
  }
}
