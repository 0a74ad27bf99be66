/** The PCF_ACCELERATORS table: seven one-byte flags, a padding byte and
    three i32 font-wide values. */
module Accelerators {
  import opened Ints
  import opened Wrappers
  import opened Format

  datatype AcceleratorTable = AcceleratorTable(
    noOverlap: u8, constantMetrics: u8, terminalFont: u8, constantWidth: u8,
    inkInside: u8, inkMetrics: u8, drawDirection: u8,
    fontAscent: i32, fontDescent: i32, maxOverlap: i32)

  /** The table's contents before any accelerator table is read. */
  const NoAccelerators := AcceleratorTable(0, 0, 0, 0, 0, 0, 0, 0, 0, 0)

  /** Bytes the table occupies after its format word. */
  const ACCELERATORS_SIZE: nat := 20

  /** The PCF_ACCELERATORS case of populate_tables, from the cursor just after
      the format word: eleven read<T> calls, one of them a discarded byte. */
  function ReadAccelerators(data: seq<u8>, pos: nat, format: i32): (r: Result<(AcceleratorTable, nat)>)
    ensures r.Ok? <==> pos + ACCELERATORS_SIZE <= |data| && BitOrderSet(format)
    ensures r.Ok? ==> r.value.1 == pos + ACCELERATORS_SIZE
    ensures pos < |data| && !BitOrderSet(format) ==> r == Err(UnsupportedBitOrder)
    ensures BitOrderSet(format) && pos + ACCELERATORS_SIZE > |data| ==> r == Err(Truncated)
  {
    var noOverlap :- Read(data, pos, format, U8);
    var constantMetrics :- Read(data, noOverlap.1, format, U8);
    var terminalFont :- Read(data, constantMetrics.1, format, U8);
    var constantWidth :- Read(data, terminalFont.1, format, U8);
    var inkInside :- Read(data, constantWidth.1, format, U8);
    var inkMetrics :- Read(data, inkInside.1, format, U8);
    var drawDirection :- Read(data, inkMetrics.1, format, U8);
    var padding :- Read(data, drawDirection.1, format, U8);
    var fontAscent :- Read(data, padding.1, format, I32);
    var fontDescent :- Read(data, fontAscent.1, format, I32);
    var maxOverlap :- Read(data, fontDescent.1, format, I32);
    Ok((AcceleratorTable(noOverlap.0, constantMetrics.0, terminalFont.0, constantWidth.0,
                         inkInside.0, inkMetrics.0, drawDirection.0,
                         fontAscent.0, fontDescent.0, maxOverlap.0), maxOverlap.1))
  }

  /** Where each field lies: the flags are the bytes at pos .. pos+6, the byte
      at pos+7 is skipped, and the three i32 start at pos+8, pos+12, pos+16. */
  lemma AcceleratorsLayout(data: seq<u8>, pos: nat, format: i32)
    requires ReadAccelerators(data, pos, format).Ok?
    ensures pos + ACCELERATORS_SIZE <= |data|
    ensures ReadAccelerators(data, pos, format).value.0 ==
      AcceleratorTable(data[pos], data[pos + 1], data[pos + 2], data[pos + 3],
                       data[pos + 4], data[pos + 5], data[pos + 6],
                       ValueIn(data, pos + 8, format, I32),
                       ValueIn(data, pos + 12, format, I32),
                       ValueIn(data, pos + 16, format, I32))
  {
    ValueInByte(data, pos, format);
    assert Read(data, pos, format, U8) == Ok((data[pos] as int, pos + 1));
    ValueInByte(data, pos + 1, format);
    assert Read(data, pos + 1, format, U8) == Ok((data[pos + 1] as int, pos + 2));
    ValueInByte(data, pos + 2, format);
    assert Read(data, pos + 2, format, U8) == Ok((data[pos + 2] as int, pos + 3));
    ValueInByte(data, pos + 3, format);
    assert Read(data, pos + 3, format, U8) == Ok((data[pos + 3] as int, pos + 4));
    ValueInByte(data, pos + 4, format);
    assert Read(data, pos + 4, format, U8) == Ok((data[pos + 4] as int, pos + 5));
    ValueInByte(data, pos + 5, format);
    assert Read(data, pos + 5, format, U8) == Ok((data[pos + 5] as int, pos + 6));
    ValueInByte(data, pos + 6, format);
    assert Read(data, pos + 6, format, U8) == Ok((data[pos + 6] as int, pos + 7));
    assert Read(data, pos + 7, format, U8).Ok?;
  }
}
