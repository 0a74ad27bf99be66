/** The decoder as a whole: create() walks the directory, populate_tables()
    applies each table in directory order to the font state, and
    convert_glyphs() rasterises every glyph into the font's box. */
module Font {
  import opened Ints
  import opened Wrappers
  import opened Stream
  import opened Format
  import opened Directory
  import opened Properties
  import opened Accelerators
  import opened Metrics
  import opened Bitmaps
  import opened Encodings
  import opened Raster

  /** The members of a PCFFile once decoding has run (the stream aside). */
  datatype FontState = FontState(
    tables: seq<TocEntry>,
    properties: map<string, Property>,
    metrics: seq<Metric>,
    inkMetrics: seq<Metric>,
    acc: AcceleratorTable,
    bitmap: BitmapData,
    encoding: EncodingTable,
    glyphs: seq<Glyph>,
    maxAscent: i16,
    maxDescent: i16,
    maxWidth: i16)

  /** Right after the directory walk: maxima 0, every table empty. */
  function Initial(tables: seq<TocEntry>): FontState {
    FontState(tables, map[], [], [], NoAccelerators, NoBitmaps, NoEncoding, [], 0, 0, 0)
  }

  /** A PCF_METRICS table: records appended, maxima folded over them. */
  function AddMetrics(st: FontState, ms: seq<Metric>): (r: FontState)
    ensures |r.metrics| == |st.metrics| + |ms|
    ensures r.metrics[..|st.metrics|] == st.metrics && r.metrics[|st.metrics|..] == ms
    ensures r.maxAscent >= st.maxAscent && r.maxDescent >= st.maxDescent && r.maxWidth >= st.maxWidth
    ensures r.tables == st.tables && r.glyphs == st.glyphs && r.inkMetrics == st.inkMetrics
  {
    st.(metrics := st.metrics + ms,
        maxAscent := RunningMax(st.maxAscent, ms, Ascent),
        maxDescent := RunningMax(st.maxDescent, ms, Descent),
        maxWidth := RunningMax(st.maxWidth, ms, Width))
  }

  /** One iteration of populate_tables: seek to the table, re-read its format
      word little-endian (the directory's copy is not used), then run the
      case for its type. */
  function ApplyTable(data: seq<u8>, entry: TocEntry, st: FontState): (r: Result<FontState>)
    ensures entry.offset < 0 || entry.offset + 4 > |data| ==> r.Err?
    ensures r.Ok? ==> r.value.tables == st.tables && r.value.glyphs == st.glyphs
  {
    var start :- SeekTo(data, entry.offset);
    var word :- ReadLE32(data, start);
    Dispatch(data, word.1, word.0, entry.tableType, st)
  }

  /** The switch on the exact table type, from the cursor after the format
      word; other types are skipped. */
  function Dispatch(data: seq<u8>, pos: nat, format: i32, tableType: i32, st: FontState): (r: Result<FontState>)
    ensures tableType !in {PCF_PROPERTIES, PCF_ACCELERATORS, PCF_METRICS, PCF_INK_METRICS, PCF_BITMAPS, PCF_BDF_ENCODINGS} ==>
      r == Ok(st)
    ensures r.Ok? ==> r.value.tables == st.tables && r.value.glyphs == st.glyphs
    ensures tableType == PCF_PROPERTIES && r.Ok? ==> st.properties.Keys <= r.value.properties.Keys
  {
    if tableType == PCF_PROPERTIES then
      var props :- ParseTable(data, pos, format, st.properties);
      Ok(st.(properties := props))
    else if tableType == PCF_ACCELERATORS then
      var acc :- ReadAccelerators(data, pos, format);
      Ok(st.(acc := acc.0))
    else if tableType == PCF_METRICS || tableType == PCF_INK_METRICS then
      var ms :- ParseMetricsTable(data, pos, format);
      if tableType == PCF_METRICS then Ok(AddMetrics(st, ms.0))
      else Ok(st.(inkMetrics := st.inkMetrics + ms.0))
    else if tableType == PCF_BITMAPS then
      var bitmap :- ReadBitmaps(data, pos, format);
      Ok(st.(bitmap := bitmap))
    else if tableType == PCF_BDF_ENCODINGS then
      var encoding :- ReadEncodings(data, pos, format);
      Ok(st.(encoding := encoding))
    else Ok(st)
  }

  /** populate_tables over the first n directory entries, in order. */
  function Populate(data: seq<u8>, st0: FontState, n: nat): (r: Result<FontState>)
    requires n <= |st0.tables|
    ensures r.Ok? ==> r.value.tables == st0.tables && r.value.glyphs == st0.glyphs
  {
    if n == 0 then Ok(st0)
    else
      var st :- Populate(data, st0, n - 1);
      ApplyTable(data, st0.tables[n - 1], st)
  }

  /** The running maxima are never negative and bound every PCF_METRICS record. */
  predicate MaximaBound(st: FontState) {
    st.maxAscent >= 0 && st.maxDescent >= 0 && st.maxWidth >= 0 &&
    forall i :: 0 <= i < |st.metrics| ==>
      st.metrics[i].characterAscent <= st.maxAscent &&
      st.metrics[i].characterDescent <= st.maxDescent &&
      st.metrics[i].characterWidth <= st.maxWidth
  }

  /** What every state populate_tables reaches satisfies. */
  predicate Consistent(st: FontState) {
    MaximaBound(st) && Bitmaps.WellFormed(st.bitmap) &&
    (st.bitmap.glyphCount > 0 ==> BitOrderSet(st.bitmap.format))
  }

  lemma InitialConsistent(tables: seq<TocEntry>)
    ensures Consistent(Initial(tables))
  {
    assert PadSelector(0) == 0;
  }

  /** Appending metrics keeps the maxima bounding every record, old and new,
      and never lowers them. */
  lemma AddMetricsBound(st: FontState, ms: seq<Metric>)
    requires MaximaBound(st)
    ensures MaximaBound(AddMetrics(st, ms))
    ensures AddMetrics(st, ms).maxAscent >= st.maxAscent
    ensures AddMetrics(st, ms).maxDescent >= st.maxDescent
    ensures AddMetrics(st, ms).maxWidth >= st.maxWidth
  {
    var st' := AddMetrics(st, ms);
    RunningMaxIsMax(st.maxAscent, ms, Ascent);
    RunningMaxIsMax(st.maxDescent, ms, Descent);
    RunningMaxIsMax(st.maxWidth, ms, Width);
    forall i | 0 <= i < |st'.metrics|
      ensures st'.metrics[i].characterAscent <= st'.maxAscent
      ensures st'.metrics[i].characterDescent <= st'.maxDescent
      ensures st'.metrics[i].characterWidth <= st'.maxWidth
    {
      if i >= |st.metrics| {
        var j := i - |st.metrics|;
        assert st'.metrics[i] == ms[j];
        assert Get(ms[j], Ascent) <= st'.maxAscent;
        assert Get(ms[j], Descent) <= st'.maxDescent;
        assert Get(ms[j], Width) <= st'.maxWidth;
      } else {
        assert st'.metrics[i] == st.metrics[i];
      }
    }
  }

  /** Each table leaves the directory, the glyphs and every member it does
      not own as they were; a PCF_METRICS table extends the metrics, an
      ink-metrics table only the ink metrics. */
  lemma ApplyTableFrame(data: seq<u8>, entry: TocEntry, st: FontState)
    requires ApplyTable(data, entry, st).Ok?
    ensures ApplyTable(data, entry, st).value.tables == st.tables
    ensures ApplyTable(data, entry, st).value.glyphs == st.glyphs
    ensures entry.tableType != PCF_PROPERTIES ==> ApplyTable(data, entry, st).value.properties == st.properties
    ensures entry.tableType != PCF_ACCELERATORS ==> ApplyTable(data, entry, st).value.acc == st.acc
    ensures entry.tableType != PCF_BITMAPS ==> ApplyTable(data, entry, st).value.bitmap == st.bitmap
    ensures entry.tableType != PCF_BDF_ENCODINGS ==> ApplyTable(data, entry, st).value.encoding == st.encoding
    ensures entry.tableType != PCF_INK_METRICS ==> ApplyTable(data, entry, st).value.inkMetrics == st.inkMetrics
    ensures entry.tableType != PCF_METRICS ==>
      ApplyTable(data, entry, st).value.metrics == st.metrics &&
      ApplyTable(data, entry, st).value.maxAscent == st.maxAscent &&
      ApplyTable(data, entry, st).value.maxDescent == st.maxDescent &&
      ApplyTable(data, entry, st).value.maxWidth == st.maxWidth
    ensures entry.tableType == PCF_METRICS ==>
      |ApplyTable(data, entry, st).value.metrics| > |st.metrics| &&
      ApplyTable(data, entry, st).value.metrics[..|st.metrics|] == st.metrics
    ensures entry.tableType == PCF_INK_METRICS ==>
      |ApplyTable(data, entry, st).value.inkMetrics| > |st.inkMetrics| &&
      ApplyTable(data, entry, st).value.inkMetrics[..|st.inkMetrics|] == st.inkMetrics
  {
    var start := SeekTo(data, entry.offset).value;
    var word := ReadLE32(data, start).value;
    if entry.tableType == PCF_METRICS || entry.tableType == PCF_INK_METRICS {
      var ms := ParseMetricsTable(data, word.1, word.0).value.0;
      if entry.tableType == PCF_METRICS {
        assert ApplyTable(data, entry, st) == Ok(AddMetrics(st, ms));
        assert (st.metrics + ms)[..|st.metrics|] == st.metrics;
      } else {
        assert ApplyTable(data, entry, st) == Ok(st.(inkMetrics := st.inkMetrics + ms));
        assert (st.inkMetrics + ms)[..|st.inkMetrics|] == st.inkMetrics;
      }
    }
  }

  lemma ApplyTableConsistent(data: seq<u8>, entry: TocEntry, st: FontState)
    requires Consistent(st) && ApplyTable(data, entry, st).Ok?
    ensures Consistent(ApplyTable(data, entry, st).value)
  {
    var start := SeekTo(data, entry.offset).value;
    var word := ReadLE32(data, start).value;
    if entry.tableType == PCF_METRICS {
      var ms := ParseMetricsTable(data, word.1, word.0).value.0;
      assert ApplyTable(data, entry, st) == Ok(AddMetrics(st, ms));
      AddMetricsBound(st, ms);
    } else if entry.tableType != PCF_PROPERTIES && entry.tableType != PCF_ACCELERATORS &&
              entry.tableType != PCF_INK_METRICS && entry.tableType != PCF_BITMAPS {
      ApplyTableFrame(data, entry, st);
    }
  }

  lemma {:induction false} PopulateConsistent(data: seq<u8>, st0: FontState, n: nat)
    requires n <= |st0.tables| && Consistent(st0) && Populate(data, st0, n).Ok?
    ensures Consistent(Populate(data, st0, n).value)
    ensures Populate(data, st0, n).value.tables == st0.tables
    ensures Populate(data, st0, n).value.glyphs == st0.glyphs
  {
    if n > 0 {
      PopulateConsistent(data, st0, n - 1);
      var st := Populate(data, st0, n - 1).value;
      ApplyTableConsistent(data, st0.tables[n - 1], st);
      ApplyTableFrame(data, st0.tables[n - 1], st);
    }
  }

  /** Once a table fails, populate_tables fails the same way. */
  lemma {:induction false} PopulateErrPersists(data: seq<u8>, st0: FontState, k: nat, n: nat)
    requires k <= n <= |st0.tables| && Populate(data, st0, k).Err?
    ensures Populate(data, st0, n) == Populate(data, st0, k)
    decreases n - k
  {
    if k < n {
      PopulateErrPersists(data, st0, k, n - 1);
    }
  }

  /** One more table applied to the state reached so far extends the walk. */
  lemma PopulateGrows(data: seq<u8>, st0: FontState, i: nat, st: FontState, st': FontState)
    requires i < |st0.tables| && Populate(data, st0, i) == Ok(st)
    requires ApplyTable(data, st0.tables[i], st) == Ok(st')
    ensures Populate(data, st0, i + 1) == Ok(st')
  {
  }

  /** A table that fails after i good ones fails the whole walk with its error. */
  lemma PopulateFails(data: seq<u8>, st0: FontState, i: nat, st: FontState)
    requires i < |st0.tables| && Populate(data, st0, i) == Ok(st)
    requires ApplyTable(data, st0.tables[i], st).Err?
    ensures Populate(data, st0, |st0.tables|) == Err(ApplyTable(data, st0.tables[i], st).error)
  {
    PopulateErrPersists(data, st0, i + 1, |st0.tables|);
  }

  /** The box height glyph_size() reports: max_ascent + max_descent. */
  function BoxHeight(st: FontState): int {
    st.maxAscent + st.maxDescent
  }

  /** The frame convert_glyphs uses for glyph i. */
  function GlyphFrame(st: FontState, i: nat): Frame
    requires i < |st.metrics| && i < |st.bitmap.offsets|
  {
    FrameOf(st.metrics[i], st.acc.maxOverlap, st.acc.fontAscent, BoxHeight(st),
            st.bitmap.format, st.bitmap.offsets[i])
  }

  /** The first n glyphs, in order. */
  function ConvertUpTo(st: FontState, n: nat): (r: Result<seq<Glyph>>)
    requires n <= |st.metrics| && n <= |st.bitmap.offsets|
    ensures r.Ok? ==> |r.value| == n
  {
    if n == 0 then Ok([])
    else
      var gs :- ConvertUpTo(st, n - 1);
      var g :- RasterSpec(GlyphFrame(st, n - 1), st.bitmap.data);
      Ok(gs + [g])
  }

  /** Once a glyph fails, the conversion fails the same way. */
  lemma {:induction false} ConvertErrPersists(st: FontState, k: nat, n: nat)
    requires k <= n <= |st.metrics| && n <= |st.bitmap.offsets| && ConvertUpTo(st, k).Err?
    ensures ConvertUpTo(st, n) == ConvertUpTo(st, k)
    decreases n - k
  {
    if k < n {
      ConvertErrPersists(st, k + 1, n);
    }
  }

  /** convert_glyphs: one glyph per metrics record, which must be as many as
      the bitmap table's glyph_count. */
  function ConvertGlyphs(st: FontState): (r: Result<seq<Glyph>>)
    requires Bitmaps.WellFormed(st.bitmap)
    ensures |st.metrics| != st.bitmap.glyphCount ==> r == Err(GlyphCountMismatch)
    ensures r.Ok? ==> |r.value| == |st.metrics| == st.bitmap.glyphCount
  {
    if |st.metrics| != st.bitmap.glyphCount then Err(GlyphCountMismatch)
    else ConvertUpTo(st, |st.metrics|)
  }

  /** Glyph i of a successful conversion is the rasterisation of frame i. */
  lemma {:induction false} ConvertLayout(st: FontState, n: nat, i: nat)
    requires n <= |st.metrics| && n <= |st.bitmap.offsets|
    requires ConvertUpTo(st, n).Ok? && i < n
    ensures RasterSpec(GlyphFrame(st, i), st.bitmap.data).Ok?
    ensures ConvertUpTo(st, n).value[i] == RasterSpec(GlyphFrame(st, i), st.bitmap.data).value
  {
    var prev := ConvertUpTo(st, n - 1);
    if i < n - 1 {
      ConvertLayout(st, n - 1, i);
      assert ConvertUpTo(st, n).value[i] == prev.value[i];
    }
  }

  /** create(): header and directory, every table in directory order, then
      the glyphs. */
  function Decode(data: seq<u8>): (r: Result<FontState>)
    ensures r.Ok? ==> Consistent(r.value)
    ensures r.Ok? ==> ParseHeader(data).Ok? && r.value.tables == ParseHeader(data).value.0
    ensures r.Ok? ==> |r.value.glyphs| == |r.value.metrics| == r.value.bitmap.glyphCount
  {
    var header :- ParseHeader(data);
    var st0 := Initial(header.0);
    var st :- Populate(data, st0, |header.0|);
    InitialConsistent(header.0);
    PopulateConsistent(data, st0, |header.0|);
    var glyphs :- ConvertGlyphs(st);
    Ok(st.(glyphs := glyphs))
  }

  /** A file that does not start with the magic, or whose table count is not
      positive, is refused before any table is read. */
  lemma DecodeRefusesBadHeader(data: seq<u8>)
    ensures |data| < 4 || data[..4] != MAGIC ==> Decode(data) == Err(BadMagic)
    ensures |data| >= 8 && data[..4] == MAGIC && LE32At(data, 4) <= 0 ==> Decode(data) == Err(InvalidTableCount)
  {
  }

  /** The running maxima start at 0, so glyph_size() is never negative, and
      each bounds the corresponding field of every metrics record. */
  lemma DecodeMaxima(data: seq<u8>, i: nat)
    requires Decode(data).Ok? && i < |Decode(data).value.metrics|
    ensures Decode(data).value.maxWidth >= 0 && BoxHeight(Decode(data).value) >= 0
    ensures Decode(data).value.metrics[i].characterAscent <= Decode(data).value.maxAscent
    ensures Decode(data).value.metrics[i].characterDescent <= Decode(data).value.maxDescent
    ensures Decode(data).value.metrics[i].characterWidth <= Decode(data).value.maxWidth
  {
  }

  /** A decoded font is the populated state with the converted glyphs. */
  lemma DecodeParts(data: seq<u8>) returns (st: FontState)
    requires Decode(data).Ok?
    ensures Consistent(st) && |st.metrics| == st.bitmap.glyphCount == |st.bitmap.offsets|
    ensures ConvertUpTo(st, |st.metrics|).Ok?
    ensures Decode(data) == Ok(st.(glyphs := ConvertUpTo(st, |st.metrics|).value))
  {
    var header := ParseHeader(data).value;
    st := Populate(data, Initial(header.0), |header.0|).value;
    InitialConsistent(header.0);
    PopulateConsistent(data, Initial(header.0), |header.0|);
  }

  /** What create() leaves behind: a consistent state with one glyph per
      metrics record, glyph i being frame i rasterised most significant bit
      first (the bitmap table was read with bit 3 set). */
  predicate Converted(st: FontState) {
    Consistent(st) && |st.glyphs| == |st.metrics| == st.bitmap.glyphCount &&
    forall i :: 0 <= i < |st.glyphs| ==>
      GlyphFrame(st, i).msbFirst && RasterSpec(GlyphFrame(st, i), st.bitmap.data) == Ok(st.glyphs[i])
  }

  lemma DecodeConverted(data: seq<u8>)
    requires Decode(data).Ok?
    ensures Converted(Decode(data).value)
  {
    var st := DecodeParts(data);
    var st' := Decode(data).value;
    forall i | 0 <= i < |st'.glyphs|
      ensures GlyphFrame(st', i).msbFirst && RasterSpec(GlyphFrame(st', i), st'.bitmap.data) == Ok(st'.glyphs[i])
    {
      ConvertLayout(st, |st.metrics|, i);
      assert GlyphFrame(st', i) == GlyphFrame(st, i);
    }
  }
}
