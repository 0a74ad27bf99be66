/** The read-only accessors of a decoded font: code point lookup, the
    property-backed names and numbers, glyph sizes and drawing, and the
    file name the converter writes. */
module Facade {
  import opened Ints
  import opened Wrappers
  import opened Properties
  import opened Accelerators
  import opened Encodings
  import opened Raster
  import opened Font

  // ---------------------------------------------------------------------
  // glyph_index_for
  // ---------------------------------------------------------------------

  /** The i16 `table_index`: the code point's offset in a single-byte
      encoding, or its row-major position in the two-byte grid; the
      assignment to i16 wraps. */
  function TableIndex(e: EncodingTable, cp: u16): (r: i16)
    ensures e.minByte1 == 0 && e.maxByte1 == 0 ==> (cp - e.minCharOrByte2 - r) % 0x1_0000 == 0
    ensures e.minByte1 == 0 && e.maxByte1 == 0 && 0 <= cp - e.minCharOrByte2 < 0x8000 ==>
      r == cp - e.minCharOrByte2
    ensures !(e.minByte1 == 0 && e.maxByte1 == 0) ==>
      ((cp / 0x100 - e.minByte1) * (e.maxCharOrByte2 - e.minCharOrByte2 + 1) +
       (cp % 0x100 - e.minCharOrByte2) - r) % 0x1_0000 == 0
  {
    if e.minByte1 == 0 && e.maxByte1 == 0 then
      ConversionsCongruent(cp - e.minCharOrByte2);
      ToI16(cp - e.minCharOrByte2)
    else
      var hi, lo := cp / 0x100, cp % 0x100;
      var cell := (hi - e.minByte1) * (e.maxCharOrByte2 - e.minCharOrByte2 + 1) + (lo - e.minCharOrByte2);
      ConversionsCongruent(cell);
      ToI16(cell)
  }

  /** The glyph for a code point, when the table maps it to one. */
  function GlyphIndexFor(e: EncodingTable, cp: u16): (r: Option<u16>)
    ensures r.Some? ==> exists j :: 0 <= j < |e.indices| && e.indices[j] == r.value
    ensures TableIndex(e, cp) < 0 || TableIndex(e, cp) >= |e.indices| ==> r == None
  {
    var ti := TableIndex(e, cp);
    if ti < 0 then None
    else if ti >= |e.indices| then None
    else if e.indices[ti] < 0 then None
    else Some(e.indices[ti])
  }

  /** A single-byte encoding maps min_char_or_byte2 + j to indices[j]. */
  lemma GlyphIndexSingleByte(e: EncodingTable, cp: u16)
    requires e.minByte1 == 0 && e.maxByte1 == 0
    requires 0 <= cp - e.minCharOrByte2 < |e.indices| && cp - e.minCharOrByte2 < 0x8000
    ensures GlyphIndexFor(e, cp) ==
      if e.indices[cp - e.minCharOrByte2] >= 0 then Some(e.indices[cp - e.minCharOrByte2] as u16) else None
  {
  }

  /** The i16 wrap: in a single-byte encoding a code point 0x8000 or more
      above min_char_or_byte2 gets a negative table index and no glyph,
      however long the index table is. */
  lemma GlyphIndexWraps(e: EncodingTable, cp: u16)
    requires e.minByte1 == 0 && e.maxByte1 == 0
    requires 0x8000 <= cp - e.minCharOrByte2 < 0x1_0000
    ensures TableIndex(e, cp) == cp - e.minCharOrByte2 - 0x1_0000
    ensures GlyphIndexFor(e, cp) == None
  {
  }

  /** A two-byte encoding stores its grid row by row: the code point with
      high byte hi and low byte lo in range sits at
      (hi - min_byte1) * (row length) + (lo - min_char_or_byte2). */
  lemma GlyphIndexTwoByte(e: EncodingTable, cp: u16)
    requires !(e.minByte1 == 0 && e.maxByte1 == 0)
    requires |e.indices| == IndexCount(e)
    requires e.minByte1 <= cp / 0x100 <= e.maxByte1
    requires e.minCharOrByte2 <= cp % 0x100 <= e.maxCharOrByte2
    requires (cp / 0x100 - e.minByte1) * (e.maxCharOrByte2 - e.minCharOrByte2 + 1) +
             (cp % 0x100 - e.minCharOrByte2) < 0x8000
    ensures 0 <= TableIndex(e, cp) < |e.indices|
    ensures TableIndex(e, cp) ==
      (cp / 0x100 - e.minByte1) * (e.maxCharOrByte2 - e.minCharOrByte2 + 1) + (cp % 0x100 - e.minCharOrByte2)
    ensures GlyphIndexFor(e, cp) ==
      if e.indices[TableIndex(e, cp)] >= 0 then Some(e.indices[TableIndex(e, cp)] as u16) else None
  {
    var row := cp / 0x100 - e.minByte1;
    var rowLen := e.maxCharOrByte2 - e.minCharOrByte2 + 1;
    var col := cp % 0x100 - e.minCharOrByte2;
    GridIndex(row, e.maxByte1 - e.minByte1 + 1, rowLen, col);
    assert TableIndex(e, cp) == ToI16(row * rowLen + col);
  }

  /** A two-byte table for rows 1 and 2, columns 0x20 .. 0x7e, whose entry
      j is glyph j. */
  const TwoRowGrid: EncodingTable := EncodingTable(0x20, 0x7e, 1, 2, 0, seq(190, j requires 0 <= j < 190 => j))

  /** The low byte is never checked against min_char_or_byte2 ..
      max_char_or_byte2: 0x017F, one column past the end of row 1, runs on
      into row 2 and gets the glyph of 0x0220. */
  lemma LowByteUnchecked()
    ensures |TwoRowGrid.indices| == IndexCount(TwoRowGrid)
    ensures 0x017F % 0x100 > TwoRowGrid.maxCharOrByte2
    ensures GlyphIndexFor(TwoRowGrid, 0x017F) == Some(95)
    ensures GlyphIndexFor(TwoRowGrid, 0x0220) == Some(95)
  {
    assert TableIndex(TwoRowGrid, 0x017F) == 95;
    assert TableIndex(TwoRowGrid, 0x0220) == 95;
  }

  // ---------------------------------------------------------------------
  // Properties read by name
  // ---------------------------------------------------------------------

  /** A string property with a default; an integer stored under the name
      is the wrong variant, which `get<DeprecatedString>()` refuses. */
  function TextProperty(props: map<string, Property>, key: string, default: string): (r: Result<string>)
    ensures key !in props ==> r == Ok(default)
    ensures key in props ==> (r.Ok? <==> props[key].StringProp?)
    ensures key in props && r.Ok? ==> r.value == props[key].text
    ensures r.Err? ==> r.error == WrongPropertyType
  {
    if key !in props then Ok(default)
    else match props[key]
      case StringProp(text) => Ok(text)
      case IntProp(_) => Err(WrongPropertyType)
  }

  /** An integer property that is present; `get<i32>()` refuses a string. */
  function IntProperty(props: map<string, Property>, key: string): (r: Result<i32>)
    requires key in props
    ensures r.Ok? <==> props[key].IntProp?
    ensures r.Ok? ==> r.value == props[key].number
    ensures r.Err? ==> r.error == WrongPropertyType
  {
    match props[key]
    case IntProp(n) => Ok(n)
    case StringProp(_) => Err(WrongPropertyType)
  }

  /** FAMILY_NAME, "Unknown" when absent. */
  function Family(props: map<string, Property>): (r: Result<string>)
    ensures "FAMILY_NAME" !in props ==> r == Ok("Unknown")
    ensures "FAMILY_NAME" in props && props["FAMILY_NAME"].StringProp? ==> r == Ok(props["FAMILY_NAME"].text)
  {
    TextProperty(props, "FAMILY_NAME", "Unknown")
  }

  /** WEIGHT_NAME, "Regular" when absent. */
  function WeightName(props: map<string, Property>): (r: Result<string>)
    ensures "WEIGHT_NAME" !in props ==> r == Ok("Regular")
    ensures "WEIGHT_NAME" in props && props["WEIGHT_NAME"].StringProp? ==> r == Ok(props["WEIGHT_NAME"].text)
  {
    TextProperty(props, "WEIGHT_NAME", "Regular")
  }

  /** The text before the first space (all of it when there is none). */
  function UpToSpace(s: string): (t: string)
    ensures |t| <= |s| && t == s[..|t|]
    ensures forall i :: 0 <= i < |t| ==> t[i] != ' '
    ensures |t| < |s| ==> s[|t|] == ' '
  {
    if s == [] || s[0] == ' ' then [] else [s[0]] + UpToSpace(s[1..])
  }

  lemma {:induction false} UpToSpacePrefix(a: string, b: string)
    requires forall i :: 0 <= i < |a| ==> a[i] != ' '
    ensures UpToSpace(a + " " + b) == a
  {
    if a != [] {
      assert (a + " " + b)[0] == a[0];
      assert (a + " " + b)[1..] == a[1..] + " " + b;
      UpToSpacePrefix(a[1..], b);
    }
  }

  /** name(): family, a space, the weight name. */
  function Name(props: map<string, Property>): (r: Result<string>)
    ensures r.Ok? <==> Family(props).Ok? && WeightName(props).Ok?
    ensures r.Ok? ==> |r.value| == |Family(props).value| + 1 + |WeightName(props).value|
  {
    var family :- Family(props);
    var weight :- WeightName(props);
    Ok(family + " " + weight)
  }

  /** The name starts with the family, then a space, then the weight name;
      the family is recovered from the name when it has no space. */
  lemma NameSplits(props: map<string, Property>)
    requires Name(props).Ok?
    ensures Name(props).value[..|Family(props).value|] == Family(props).value
    ensures Name(props).value[|Family(props).value|] == ' '
    ensures Name(props).value[|Family(props).value| + 1..] == WeightName(props).value
    ensures (forall i :: 0 <= i < |Family(props).value| ==> Family(props).value[i] != ' ') ==>
      UpToSpace(Name(props).value) == Family(props).value
  {
    var f, w := Family(props).value, WeightName(props).value;
    assert Name(props).value == f + " " + w;
    assert (f + " " + w)[|f| + 1..] == w;
    if forall i :: 0 <= i < |f| ==> f[i] != ' ' {
      UpToSpacePrefix(f, w);
    }
  }

  // ---------------------------------------------------------------------
  // weight() and slope() against the font library's vocabularies
  // ---------------------------------------------------------------------

  /** name_to_weight, weight_to_name, name_to_slope and slope_to_name of the
      font library, which this code only calls. */
  datatype Vocabulary = Vocabulary(nameToWeight: string -> i32, weightToName: i32 -> string,
                                   nameToSlope: string -> i32, slopeToName: i32 -> string)

  function AsciiLower(c: char): char {
    if 'A' <= c <= 'Z' then (c as int + 32) as char else c
  }

  /** The string with every ASCII capital lowered. */
  function Lowered(s: string): (t: string)
    ensures |t| == |s|
    ensures forall i :: 0 <= i < |s| ==> t[i] == AsciiLower(s[i])
  {
    seq(|s|, i requires 0 <= i < |s| => AsciiLower(s[i]))
  }

  /** equals_ignoring_ascii_case: equal once both sides are lowered. */
  function SameIgnoringCase(a: string, b: string): (same: bool)
    ensures a == b ==> same
    ensures same ==> |a| == |b|
  {
    |a| == |b| && forall i :: 0 <= i < |a| ==> AsciiLower(a[i]) == AsciiLower(b[i])
  }

  /** Two strings are the same ignoring case exactly when their lowered
      forms are equal. */
  lemma SameIgnoringCaseLowered(a: string, b: string)
    ensures SameIgnoringCase(a, b) <==> Lowered(a) == Lowered(b)
  {
    if Lowered(a) == Lowered(b) {
      forall i | 0 <= i < |a| ensures AsciiLower(a[i]) == AsciiLower(b[i]) {
        assert Lowered(a)[i] == Lowered(b)[i];
      }
    }
  }

  /** The canonical weight a WEIGHT_NAME spells, ignoring ASCII case. */
  function KnownWeight(name: string): (r: Option<string>)
    ensures r.Some? ==> r.value in {"Thin", "Light", "Regular", "Bold"}
  {
    if SameIgnoringCase(name, "thin") then Some("Thin")
    else if SameIgnoringCase(name, "light") then Some("Light")
    else if SameIgnoringCase(name, "medium") || SameIgnoringCase(name, "regular") then Some("Regular")
    else if SameIgnoringCase(name, "bold") then Some("Bold")
    else None
  }

  /** weight(): the vocabulary's value for a known weight name; past those
      names the source reads WEIGHT and stops at an unimplemented conversion. */
  function Weight(props: map<string, Property>, vocab: Vocabulary): (r: Result<i32>)
    ensures r.Ok? <==> WeightName(props).Ok? && KnownWeight(WeightName(props).value).Some?
    ensures r.Ok? ==> r.value == vocab.nameToWeight(KnownWeight(WeightName(props).value).value)
    ensures (WeightName(props).Ok? && KnownWeight(WeightName(props).value).None? &&
             !("WEIGHT" in props && props["WEIGHT"].StringProp?)) ==> r == Err(Unimplemented)
  {
    var name :- WeightName(props);
    match KnownWeight(name)
    case Some(canonical) => Ok(vocab.nameToWeight(canonical))
    case None =>
      if "WEIGHT" in props then
        var _ :- IntProperty(props, "WEIGHT");
        Err(Unimplemented)
      else Err(Unimplemented)
  }

  /** A font without WEIGHT_NAME weighs Regular, whatever its case. */
  lemma WeightDefaults(props: map<string, Property>, vocab: Vocabulary, name: string)
    ensures "WEIGHT_NAME" !in props ==> Weight(props, vocab) == Ok(vocab.nameToWeight("Regular"))
    ensures SameIgnoringCase(name, "REGULAR") && props == map["WEIGHT_NAME" := StringProp(name)] ==>
      Weight(props, vocab) == Ok(vocab.nameToWeight("Regular"))
  {
    if SameIgnoringCase(name, "REGULAR") {
      assert SameIgnoringCase(name, "regular");
    }
    assert KnownWeight("Regular") == Some("Regular") by {
      assert !SameIgnoringCase("Regular", "thin");
      assert !SameIgnoringCase("Regular", "light");
      assert !SameIgnoringCase("Regular", "medium");
      assert SameIgnoringCase("Regular", "regular");
    }
  }

  /** slope(): SLANT "I" is Italic, "O" Oblique, anything else Regular. */
  function Slope(props: map<string, Property>, vocab: Vocabulary): (r: Result<i32>)
    ensures r.Err? <==> "SLANT" in props && props["SLANT"].IntProp?
    ensures r.Ok? ==> r.value in {vocab.nameToSlope("Italic"), vocab.nameToSlope("Oblique"), vocab.nameToSlope("Regular")}
  {
    if "SLANT" in props then
      var slant :- TextProperty(props, "SLANT", "");
      if slant == "I" then Ok(vocab.nameToSlope("Italic"))
      else if slant == "O" then Ok(vocab.nameToSlope("Oblique"))
      else Ok(vocab.nameToSlope("Regular"))
    else Ok(vocab.nameToSlope("Regular"))
  }

  /** Which SLANT codes give which slope. */
  lemma SlopeCodes(props: map<string, Property>, vocab: Vocabulary)
    ensures "SLANT" !in props ==> Slope(props, vocab) == Ok(vocab.nameToSlope("Regular"))
    ensures "SLANT" in props && props["SLANT"] == StringProp("I") ==> Slope(props, vocab) == Ok(vocab.nameToSlope("Italic"))
    ensures "SLANT" in props && props["SLANT"] == StringProp("O") ==> Slope(props, vocab) == Ok(vocab.nameToSlope("Oblique"))
    ensures "SLANT" in props && props["SLANT"].StringProp? && props["SLANT"].text !in {"I", "O"} ==>
      Slope(props, vocab) == Ok(vocab.nameToSlope("Regular"))
  {
  }

  /** pixel_size(): PIXEL_SIZE, 0 when absent. */
  function PixelSize(props: map<string, Property>): (r: Result<i32>)
    ensures "PIXEL_SIZE" !in props ==> r == Ok(0)
    ensures "PIXEL_SIZE" in props ==> r == IntProperty(props, "PIXEL_SIZE")
  {
    if "PIXEL_SIZE" in props then IntProperty(props, "PIXEL_SIZE") else Ok(0)
  }

  /** x_height(): X_HEIGHT; without it the source stops at an unimplemented
      computation. */
  function XHeight(props: map<string, Property>): (r: Result<i32>)
    ensures "X_HEIGHT" !in props ==> r == Err(Unimplemented)
    ensures "X_HEIGHT" in props ==> r == IntProperty(props, "X_HEIGHT")
  {
    if "X_HEIGHT" in props then IntProperty(props, "X_HEIGHT") else Err(Unimplemented)
  }

  // ---------------------------------------------------------------------
  // Numbers from the accelerators and the glyphs
  // ---------------------------------------------------------------------

  /** baseline(): font_ascent - 1 truncated to a byte, so an ascent of 0
      gives 255. */
  lemma BaselineWraps(fontAscent: i32)
    ensures fontAscent == 0 ==> Baseline(fontAscent) == 0xff
    ensures fontAscent == 0x101 ==> Baseline(fontAscent) == 0
  {
  }

  /** is_fixed_width(). */
  predicate IsFixedWidth(acc: AcceleratorTable)
    ensures acc == NoAccelerators ==> !IsFixedWidth(acc)
  {
    acc.constantWidth != 0
  }

  /** is_fixed_width() is the fourth byte of the accelerator table that was read. */
  lemma IsFixedWidthFromTable(data: seq<u8>, pos: nat, format: i32)
    requires ReadAccelerators(data, pos, format).Ok?
    ensures pos + 4 <= |data|
    ensures IsFixedWidth(ReadAccelerators(data, pos, format).value.0) <==> data[pos + 3] != 0
  {
    AcceleratorsLayout(data, pos, format);
  }

  /** glyph_size(): (max_width, max_ascent + max_descent). */
  function GlyphSize(st: FontState): (r: (int, int))
    ensures Consistent(st) ==> r.0 >= 0 && r.1 >= 0
  {
    (st.maxWidth as int, BoxHeight(st))
  }

  /** glyph_count(). */
  function GlyphCount(st: FontState): (r: nat)
    ensures Converted(st) ==> r == st.bitmap.glyphCount == |st.metrics|
  {
    |st.glyphs|
  }

  /** glyph_width(i): the stored u8 width; at() refuses an index past the end. */
  function GlyphWidth(st: FontState, index: u16): (r: Result<u8>)
    ensures r.Ok? <==> index < GlyphCount(st)
    ensures r.Err? ==> r.error == IndexOutOfRange
  {
    if index as int < |st.glyphs| then Ok(st.glyphs[index].width) else Err(IndexOutOfRange)
  }

  /** A decoded font has glyph_count glyphs, and glyph i is
      character_width + max_overlap wide, truncated to a byte. */
  lemma GlyphWidthDecoded(st: FontState, index: u16)
    requires Converted(st) && index < GlyphCount(st)
    ensures GlyphCount(st) == st.bitmap.glyphCount
    ensures GlyphWidth(st, index) == Ok(ToU8(st.metrics[index].characterWidth + st.acc.maxOverlap))
  {
    assert RasterSpec(GlyphFrame(st, index as nat), st.bitmap.data) == Ok(st.glyphs[index]);
    ToU8OfToI16(st.metrics[index].characterWidth + st.acc.maxOverlap);
  }

  // ---------------------------------------------------------------------
  // draw_glyph
  // ---------------------------------------------------------------------

  /** Row y of the drawn grid: pixel x is on when its glyph byte is nonzero. */
  function GridRow(g: Glyph, y: nat, height: nat): (row: seq<bool>)
    requires y < height && height * g.width <= |g.data|
    ensures |row| == g.width
  {
    RecordFits(g.width, y, height);
    seq(g.width, x requires 0 <= x < g.width => g.data[y * g.width + x] != 0)
  }

  /** draw_glyph(): a glyph_size().height() by glyph.width grid; at() refuses
      an index past the end, and the unchecked byte reads are in range
      exactly when the glyph holds height * width bytes. */
  function DrawGlyph(st: FontState, index: u16): (r: Result<seq<seq<bool>>>)
    ensures index >= GlyphCount(st) ==> r == Err(IndexOutOfRange)
    ensures r.Ok? ==> (|r.value| == Max(BoxHeight(st), 0) &&
      forall y :: 0 <= y < |r.value| ==> |r.value[y]| == st.glyphs[index].width)
    ensures index < GlyphCount(st) && BoxHeight(st) * st.glyphs[index].width > |st.glyphs[index].data| ==>
      r == Err(OutOfBounds)
  {
    if index as int >= |st.glyphs| then Err(IndexOutOfRange)
    else
      var g := st.glyphs[index];
      var height := BoxHeight(st);
      if height > 0 && height * g.width > |g.data| then Err(OutOfBounds)
      else if height <= 0 then Ok([])
      else Ok(seq(height, y requires 0 <= y < height => GridRow(g, y, height)))
  }

  /** Drawing never fails for a glyph of a decoded font. */
  lemma DrawGlyphDecoded(st: FontState, index: u16)
    requires Converted(st) && index < GlyphCount(st)
    ensures DrawGlyph(st, index).Ok?
  {
    var f := GlyphFrame(st, index as nat);
    var g := st.glyphs[index];
    assert RasterSpec(f, st.bitmap.data) == Ok(g);
    var height := BoxHeight(st);
    assert |g.data| == f.w * height && g.width == ToU8(f.w);
    if height > 0 {
      MulNonNegative(f.w, height);
      assert g.width <= f.w;
      MulMonotone(g.width, f.w, height);
    }
  }

  /** Grid cell (x, y) is on exactly when its glyph byte is nonzero. */
  lemma DrawnCell(st: FontState, index: u16, x: int, y: int)
    requires DrawGlyph(st, index).Ok? && index < GlyphCount(st)
    requires 0 <= y < BoxHeight(st) && 0 <= x < st.glyphs[index].width
    ensures 0 <= y * st.glyphs[index].width + x < |st.glyphs[index].data|
    ensures DrawGlyph(st, index).value[y][x] <==> st.glyphs[index].data[y * st.glyphs[index].width + x] != 0
  {
    var g := st.glyphs[index];
    RecordFits(g.width, y, BoxHeight(st));
    assert DrawGlyph(st, index).value[y] == GridRow(g, y, BoxHeight(st));
  }

  /** Whether draw_glyph sets pixel (x, y) of the grid. */
  predicate Drawn(st: FontState, index: u16, x: int, y: int) {
    var r := DrawGlyph(st, index);
    r.Ok? && 0 <= y < |r.value| && 0 <= x < |r.value[y]| && r.value[y][x]
  }

  /** Drawn pixel (x, y) of a decoded glyph narrower than 256 is on exactly
      when y is one of its rows shifted down by shift and the source bit,
      taken most significant first, is set. */
  lemma DrawGlyphPixel(st: FontState, index: u16, x: int, y: int)
    requires Converted(st) && index < GlyphCount(st)
    requires GlyphFrame(st, index as nat).w < 0x100
    requires 0 <= x < GlyphFrame(st, index as nat).w && 0 <= y < BoxHeight(st)
    ensures Drawn(st, index, x, y) <==> SourceBitSet(GlyphFrame(st, index as nat), st.bitmap.data, x, y)
  {
    var f := GlyphFrame(st, index as nat);
    var g := st.glyphs[index];
    assert RasterSpec(f, st.bitmap.data) == Ok(g) && f.msbFirst;
    assert g.width == f.w;
    var k := y * f.w + x;
    DrawnByte(st, index, x, y);
    assert Drawn(st, index, x, y) <==> g.data[k] != 0;
    RasterPixel(f, st.bitmap.data, x, y);
    assert g.data[k] != 0 <==> SourceBitSet(f, st.bitmap.data, x, y);
  }

  /** For a decoded glyph, drawn pixel (x, y) is its byte y * width + x
      being nonzero. */
  lemma DrawnByte(st: FontState, index: u16, x: int, y: int)
    requires Converted(st) && index < GlyphCount(st)
    requires 0 <= y < BoxHeight(st) && 0 <= x < st.glyphs[index].width
    ensures 0 <= y * st.glyphs[index].width + x < |st.glyphs[index].data|
    ensures Drawn(st, index, x, y) <==> st.glyphs[index].data[y * st.glyphs[index].width + x] != 0
  {
    DrawGlyphDecoded(st, index);
    DrawnCell(st, index, x, y);
  }

  // ---------------------------------------------------------------------
  // construct_filename
  // ---------------------------------------------------------------------

  function DigitChar(d: nat): char
    requires d < 10
  {
    ('0' as int + d) as char
  }

  /** Every character a decimal digit. */
  predicate Digital(s: string) {
    forall i :: 0 <= i < |s| ==> '0' <= s[i] <= '9'
  }

  /** The decimal digits of n, without leading zeros. */
  function Digits(n: nat): (s: string)
    ensures |s| >= 1 && Digital(s)
  {
    if n < 10 then [DigitChar(n)] else Digits(n / 10) + [DigitChar(n % 10)]
  }

  /** `formatted("{}", v)` for an integer: its decimal digits, after a minus
      sign when negative. */
  function DecimalString(v: int): (s: string)
    ensures |s| >= 1 && (s[0] == '-' <==> v < 0)
    ensures v >= 0 ==> Digital(s) && DigitsValue(s) == v
    ensures v < 0 ==> Digital(s[1..]) && DigitsValue(s[1..]) == -v
  {
    DigitsRoundTrip(if v < 0 then -v else v);
    if v < 0 then "-" + Digits(-v) else Digits(v)
  }

  /** The value a string of decimal digits spells. */
  function DigitsValue(s: string): nat
    requires Digital(s)
  {
    if s == [] then 0 else DigitsValue(s[..|s| - 1]) * 10 + (s[|s| - 1] as int - '0' as int)
  }

  /** The digits read back as n, and only 0 itself starts with '0'. */
  lemma {:induction false} DigitsRoundTrip(n: nat)
    ensures DigitsValue(Digits(n)) == n
    ensures n > 0 ==> Digits(n)[0] != '0'
  {
    if n >= 10 {
      DigitsRoundTrip(n / 10);
      var s := Digits(n);
      assert s[..|s| - 1] == Digits(n / 10);
    }
  }

  /** The pixel-size part of the name: its decimal digits when PIXEL_SIZE is
      present. */
  function SizeSuffix(props: map<string, Property>): (r: Result<string>)
    ensures "PIXEL_SIZE" !in props ==> r == Ok("")
    ensures "PIXEL_SIZE" in props ==> (r.Ok? <==> props["PIXEL_SIZE"].IntProp?)
  {
    if "PIXEL_SIZE" in props then
      var px :- IntProperty(props, "PIXEL_SIZE");
      Ok(DecimalString(px))
    else Ok("")
  }

  /** construct_filename(): family, the weight name unless the weight is
      regular (400) and the slope is not, the slope name unless regular (0),
      the pixel size when known, then ".font". */
  function ConstructFilename(props: map<string, Property>, vocab: Vocabulary): (r: Result<string>)
    ensures r.Ok? <==> Family(props).Ok? && Weight(props, vocab).Ok? && Slope(props, vocab).Ok? &&
                       SizeSuffix(props).Ok?
    ensures r.Ok? ==> (|r.value| >= |Family(props).value| + 5 &&
      r.value[..|Family(props).value|] == Family(props).value &&
      r.value[|r.value| - 5..] == ".font")
  {
    var family :- Family(props);
    var weight :- Weight(props, vocab);
    var slope :- Slope(props, vocab);
    var weightPart := if slope == 0 || weight != 400 then vocab.weightToName(weight) else "";
    var slopePart := if slope != 0 then vocab.slopeToName(slope) else "";
    var sizePart :- SizeSuffix(props);
    var name := family + weightPart + slopePart + sizePart + ".font";
    assert name[..|family|] == family;
    assert name[|name| - 5..] == ".font";
    Ok(name)
  }

  /** The filename assembled from parts already computed, for the examples below. */
  lemma FilenameParts(props: map<string, Property>, vocab: Vocabulary,
                      family: string, weight: i32, slope: i32, size: string)
    requires Family(props) == Ok(family) && Weight(props, vocab) == Ok(weight)
    requires Slope(props, vocab) == Ok(slope) && SizeSuffix(props) == Ok(size)
    ensures ConstructFilename(props, vocab) ==
      Ok(family + (if slope == 0 || weight != 400 then vocab.weightToName(weight) else "") +
         (if slope != 0 then vocab.slopeToName(slope) else "") + size + ".font")
  {
  }

  /** Decimal rendering of the two pixel sizes below. */
  lemma DecimalExamples()
    ensures DecimalString(16) == "16" && DecimalString(24) == "24"
  {
    assert Digits(1) == "1" && Digits(2) == "2";
  }

  /** A Terminus font with no weight or slant property, 16 pixels tall. */
  const TerminusRegular16: map<string, Property> :=
    map["FAMILY_NAME" := StringProp("Terminus"), "PIXEL_SIZE" := IntProp(16)]

  /** A Terminus font of regular weight, slanted italic, 16 pixels tall. */
  const TerminusItalic16: map<string, Property> :=
    map["FAMILY_NAME" := StringProp("Terminus"), "SLANT" := StringProp("I"), "PIXEL_SIZE" := IntProp(16)]

  /** A bold italic Terminus font, 24 pixels tall. */
  const TerminusBoldItalic24: map<string, Property> :=
    map["FAMILY_NAME" := StringProp("Terminus"), "WEIGHT_NAME" := StringProp("Bold"),
        "SLANT" := StringProp("I"), "PIXEL_SIZE" := IntProp(24)]

  lemma RegularExampleParts(vocab: Vocabulary)
    ensures Family(TerminusRegular16) == Ok("Terminus")
    ensures Weight(TerminusRegular16, vocab) == Ok(vocab.nameToWeight("Regular"))
    ensures Slope(TerminusRegular16, vocab) == Ok(vocab.nameToSlope("Regular"))
    ensures SizeSuffix(TerminusRegular16) == Ok("16")
  {
    WeightDefaults(TerminusRegular16, vocab, "");
    DecimalExamples();
  }

  lemma BoldItalicExampleParts(vocab: Vocabulary)
    ensures Family(TerminusBoldItalic24) == Ok("Terminus")
    ensures Weight(TerminusBoldItalic24, vocab) == Ok(vocab.nameToWeight("Bold"))
    ensures Slope(TerminusBoldItalic24, vocab) == Ok(vocab.nameToSlope("Italic"))
    ensures SizeSuffix(TerminusBoldItalic24) == Ok("24")
  {
    assert KnownWeight("Bold") == Some("Bold") by {
      assert AsciiLower("Bold"[0]) == 'b' != AsciiLower("thin"[0]);
      assert |"Bold"| != |"light"| && |"Bold"| != |"medium"| && |"Bold"| != |"regular"|;
      assert SameIgnoringCase("Bold", "bold");
    }
    assert WeightName(TerminusBoldItalic24) == Ok("Bold");
    DecimalExamples();
  }

  /** The first shape of the source's comment: a regular weight with a
      regular slope is named once, TerminusRegular16. */
  lemma FilenameRegularExample(vocab: Vocabulary)
    requires vocab.nameToWeight("Regular") == 400 && vocab.weightToName(400) == "Regular"
    requires vocab.nameToSlope("Regular") == 0
    ensures ConstructFilename(TerminusRegular16, vocab) == Ok("TerminusRegular16.font")
  {
    RegularExampleParts(vocab);
    FilenameParts(TerminusRegular16, vocab, "Terminus", 400, 0, "16");
    assert "Terminus" + "Regular" + "" + "16" + ".font" == "TerminusRegular16.font";
  }

  /** The second shape: TerminusBoldItalic24. */
  lemma FilenameBoldItalicExample(vocab: Vocabulary)
    requires vocab.nameToWeight("Bold") == 700 && vocab.weightToName(700) == "Bold"
    requires vocab.nameToSlope("Italic") == 1 && vocab.slopeToName(1) == "Italic"
    ensures ConstructFilename(TerminusBoldItalic24, vocab) == Ok("TerminusBoldItalic24.font")
  {
    BoldItalicExampleParts(vocab);
    FilenameParts(TerminusBoldItalic24, vocab, "Terminus", 700, 1, "24");
    assert "Terminus" + "Bold" + "Italic" + "24" + ".font" == "TerminusBoldItalic24.font";
  }

  lemma ItalicExampleParts(vocab: Vocabulary)
    ensures Family(TerminusItalic16) == Ok("Terminus")
    ensures Weight(TerminusItalic16, vocab) == Ok(vocab.nameToWeight("Regular"))
    ensures Slope(TerminusItalic16, vocab) == Ok(vocab.nameToSlope("Italic"))
    ensures SizeSuffix(TerminusItalic16) == Ok("16")
  {
    WeightDefaults(TerminusItalic16, vocab, "");
    DecimalExamples();
  }

  /** The third shape: a regular weight with a slope is not named, so the
      font is TerminusItalic16 and not TerminusRegularItalic16, although the
      vocabulary does name weight 400. */
  lemma FilenameItalicExample(vocab: Vocabulary)
    requires vocab.nameToWeight("Regular") == 400 && vocab.weightToName(400) == "Regular"
    requires vocab.nameToSlope("Italic") == 1 && vocab.slopeToName(1) == "Italic"
    ensures ConstructFilename(TerminusItalic16, vocab) == Ok("TerminusItalic16.font")
  {
    ItalicExampleParts(vocab);
    FilenameParts(TerminusItalic16, vocab, "Terminus", 400, 1, "16");
    assert "Terminus" + "" + "Italic" + "16" + ".font" == "TerminusItalic16.font";
  }
}
