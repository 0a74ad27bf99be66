/** The PCF_BDF_ENCODINGS table: the code-point ranges, the default
    character and one i16 glyph index per code point of the ranges. */
module Encodings {
  import opened Ints
  import opened Wrappers
  import opened Format

  datatype EncodingTable = EncodingTable(minCharOrByte2: i16, maxCharOrByte2: i16,
                                         minByte1: i16, maxByte1: i16, defaultChar: i16,
                                         indices: seq<i16>)

  /** The table's contents before any encoding table is read. */
  const NoEncoding := EncodingTable(0, 0, 0, 0, 0, [])

  /** `num`: the number of code points the two byte ranges span. */
  function IndexCount(e: EncodingTable): (r: int)
    ensures e.minByte1 == e.maxByte1 ==> r == e.maxCharOrByte2 - e.minCharOrByte2 + 1
    ensures e.minCharOrByte2 <= e.maxCharOrByte2 && e.minByte1 <= e.maxByte1 ==> r >= 1
  {
    (e.maxCharOrByte2 - e.minCharOrByte2 + 1) * (e.maxByte1 - e.minByte1 + 1)
  }

  /** The PCF_BDF_ENCODINGS case of populate_tables, from the cursor just
      after the format word. A negative count cannot be allocated. */
  function ReadEncodings(data: seq<u8>, pos: nat, format: i32): (r: Result<EncodingTable>)
    ensures r.Ok? ==> |r.value.indices| == IndexCount(r.value)
    ensures r.Ok? ==> BitOrderSet(format) && pos + 10 <= |data|
  {
    var min2 :- Read(data, pos, format, I16);
    var max2 :- Read(data, min2.1, format, I16);
    var minb1 :- Read(data, max2.1, format, I16);
    var maxb1 :- Read(data, minb1.1, format, I16);
    var default :- Read(data, maxb1.1, format, I16);
    var ranges := EncodingTable(min2.0, max2.0, minb1.0, maxb1.0, default.0, []);
    var num := IndexCount(ranges);
    if num < 0 then Err(AllocationFailure)
    else
      var indices :- ReadValues(data, default.1, format, I16, num);
      Ok(ranges.(indices := indices.0))
  }

  /** Where the table's parts lie: the five header fields at pos .. pos+8,
      then index i at pos+10+2i; and a negative span is refused. */
  lemma EncodingsLayout(data: seq<u8>, pos: nat, format: i32)
    requires ReadEncodings(data, pos, format).Ok?
    ensures var e := ReadEncodings(data, pos, format).value;
      e.minCharOrByte2 == ValueIn(data, pos, format, I16) &&
      e.maxCharOrByte2 == ValueIn(data, pos + 2, format, I16) &&
      e.minByte1 == ValueIn(data, pos + 4, format, I16) &&
      e.maxByte1 == ValueIn(data, pos + 6, format, I16) &&
      e.defaultChar == ValueIn(data, pos + 8, format, I16) &&
      IndexCount(e) >= 0 &&
      (IndexCount(e) > 0 ==> pos + 10 + 2 * IndexCount(e) <= |data|) &&
      forall i :: 0 <= i < |e.indices| ==> e.indices[i] == ValueIn(data, pos + 10 + 2 * i, format, I16)
  {
    var e := ReadEncodings(data, pos, format).value;
    var n := IndexCount(e);
    forall i | 0 <= i < n
      ensures e.indices[i] == ValueIn(data, pos + 10 + 2 * i, format, I16)
    {
      ReadValueAt(data, pos + 10, format, I16, n, i, pos + 10 + 2 * i);
    }
    if n > 0 {
      ReadValueAt(data, pos + 10, format, I16, n, n - 1, pos + 10 + 2 * (n - 1));
    }
  }
}
