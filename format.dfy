/** The per-table format word and the format-flagged primitive decoder
    `read<T>(format)` (PCFFile.h). */
module Format {
  import opened Ints
  import opened Endian
  import opened Wrappers
  import opened Stream

  const PCF_GLYPH_PAD_MASK: nat := 3       // bits 0-1
  const PCF_BYTE_MASK: nat := 4            // bit 2
  const PCF_BIT_MASK: nat := 8             // bit 3
  const PCF_SCAN_UNIT_MASK: nat := 0x30    // bits 4-5
  const PCF_COMPRESSED_METRICS: nat := 0x100

  /** `format & mask` is nonzero, for the single-bit masks above. */
  predicate FlagSet(format: i32, mask: nat)
    requires mask == PCF_BYTE_MASK || mask == PCF_BIT_MASK || mask == PCF_COMPRESSED_METRICS
  {
    (ToU32(format) / mask) % 2 == 1
  }

  /** Bit 2: big-endian multi-byte values. */
  predicate BigEndianBytes(format: i32) { FlagSet(format, PCF_BYTE_MASK) }

  /** Bit 3: the only bit order the decoder supports. */
  predicate BitOrderSet(format: i32) { FlagSet(format, PCF_BIT_MASK) }

  /** Bit 8: one-byte metrics fields. */
  predicate CompressedMetrics(format: i32) { FlagSet(format, PCF_COMPRESSED_METRICS) }

  /** `format & PCF_GLYPH_PAD_MASK`, also used as the index into bitmap_sizes. */
  function PadSelector(format: i32): (sel: nat)
    ensures sel < 4
  {
    ToU32(format) % 4
  }

  /** The selector is the format's two low bits: the rest is a multiple of 4. */
  lemma PadSelectorLowBits(format: i32)
    ensures (ToU32(format) - PadSelector(format)) % 4 == 0
  {
  }

  /** The integer types read<T> is instantiated with. */
  datatype IntKind = U8 | I8 | I16 | I32 {
    function Size(): (n: nat)
      ensures 1 <= n <= 4
    {
      match this
      case U8 => 1
      case I8 => 1
      case I16 => 2
      case I32 => 4
    }

    /** Bytes n values of this kind occupy, Size() times n, spelled out per
        kind so that it stays linear in n. */
    function Span(n: nat): nat {
      match this
      case U8 => n
      case I8 => n
      case I16 => 2 * n
      case I32 => 4 * n
    }

    function Modulus(): (m: nat)
      ensures m == Pow256(Size())
    {
      assert Pow256(1) == 0x100 && Pow256(2) == 0x1_0000 && Pow256(4) == 0x1_0000_0000;
      match this
      case U8 => 0x100
      case I8 => 0x100
      case I16 => 0x1_0000
      case I32 => 0x1_0000_0000
    }

    predicate Signed() { !U8? }

    predicate InRange(v: int) {
      if Signed() then -(Modulus() / 2) <= v < Modulus() / 2 else 0 <= v < Modulus()
    }

    /** The value of an unsigned bit pattern: two's complement when signed. */
    function FromBits(u: nat): (v: int)
      requires u < Modulus()
      ensures InRange(v)
      ensures (v - u) % Modulus() == 0
    {
      if Signed() && u >= Modulus() / 2 then u - Modulus() else u
    }

    /** The bit pattern of an in-range value. */
    function ToBits(v: int): (u: nat)
      requires InRange(v)
      ensures u < Modulus()
      ensures FromBits(u) == v
    {
      if v < 0 then v + Modulus() else v
    }
  }

  /** The value of the Size() bytes at p, in the byte order bit 2 selects. */
  function ValueIn(data: seq<u8>, p: nat, format: i32, kind: IntKind): (v: int)
    requires p + kind.Size() <= |data|
    ensures kind.InRange(v)
  {
    var bytes := data[p..p + kind.Size()];
    kind.FromBits(if BigEndianBytes(format) then DecodeBE(bytes) else DecodeLE(bytes))
  }

  /** A one-byte field is the byte itself, whatever the byte order. */
  lemma ValueInByte(data: seq<u8>, p: nat, format: i32)
    requires p < |data|
    ensures ValueIn(data, p, format, U8) == data[p]
  {
    var bytes := data[p..p + 1];
    assert bytes == [data[p]];
    assert bytes[1..] == [] && bytes[..0] == [];
  }

  /** read<T>(format): decode Size() bytes in the byte order bit 2 selects,
      then abort (here: fail) when bit 3 is clear. A short buffer is reported
      first, because the stream read happens before the bit check. */
  function Read(data: seq<u8>, pos: nat, format: i32, kind: IntKind): (r: Result<(int, nat)>)
    ensures r.Ok? <==> pos + kind.Size() <= |data| && BitOrderSet(format)
    ensures pos + kind.Size() > |data| ==> r == Err(Truncated)
    ensures pos + kind.Size() <= |data| && !BitOrderSet(format) ==> r == Err(UnsupportedBitOrder)
    ensures r.Ok? ==> r.value == (ValueIn(data, pos, format, kind), pos + kind.Size())
  {
    var u :- ValueAt(data, pos, kind.Size(), BigEndianBytes(format));
    if !BitOrderSet(format) then Err(UnsupportedBitOrder)
    else Ok((kind.FromBits(u), pos + kind.Size()))
  }

  /** n successive read<T> calls from pos, in order. */
  function ReadValues(data: seq<u8>, pos: nat, format: i32, kind: IntKind, n: nat): (r: Result<(seq<int>, nat)>)
    ensures r.Ok? ==> |r.value.0| == n && r.value.1 == pos + kind.Span(n)
    ensures r.Ok? ==> forall i :: 0 <= i < n ==> kind.InRange(r.value.0[i])
  {
    if n == 0 then Ok(([], pos))
    else
      var vs :- ReadValues(data, pos, format, kind, n - 1);
      var v :- Read(data, vs.1, format, kind);
      Ok((vs.0 + [v.0], v.1))
  }

  /** n values can be read exactly when there are none to read, or they fit
      and the bit order is supported. */
  lemma {:induction false} ReadValuesSucceeds(data: seq<u8>, pos: nat, format: i32, kind: IntKind, n: nat)
    requires pos <= |data|
    ensures ReadValues(data, pos, format, kind, n).Ok? <==>
      n == 0 || (pos + kind.Span(n) <= |data| && BitOrderSet(format))
  {
    if n > 1 {
      ReadValuesSucceeds(data, pos, format, kind, n - 1);
    }
  }

  /** Once a read of k values fails, every longer read fails the same way. */
  lemma {:induction false} ReadValuesErrPersists(data: seq<u8>, pos: nat, format: i32, kind: IntKind, k: nat, n: nat)
    requires k <= n && ReadValues(data, pos, format, kind, k).Err?
    ensures ReadValues(data, pos, format, kind, n) == ReadValues(data, pos, format, kind, k)
    decreases n - k
  {
    if k < n {
      ReadValuesErrStep(data, pos, format, kind, k + 1);
      ReadValuesErrPersists(data, pos, format, kind, k + 1, n);
    }
  }

  lemma ReadValuesErrStep(data: seq<u8>, pos: nat, format: i32, kind: IntKind, n: nat)
    requires n > 0 && ReadValues(data, pos, format, kind, n - 1).Err?
    ensures ReadValues(data, pos, format, kind, n) == ReadValues(data, pos, format, kind, n - 1)
  {
  }

  /** Value i of a successful read is the one stored at pos + Span(i),
      named `at` by the caller. */
  lemma {:induction false} ReadValueAt(data: seq<u8>, pos: nat, format: i32, kind: IntKind, n: nat, i: nat, at: nat)
    requires ReadValues(data, pos, format, kind, n).Ok? && i < n && at == pos + kind.Span(i)
    ensures at + kind.Size() <= |data|
    ensures ReadValues(data, pos, format, kind, n).value.0[i] == ValueIn(data, at, format, kind)
  {
    var prev := ReadValues(data, pos, format, kind, n - 1);
    assert prev.Ok?;
    var last := Read(data, prev.value.1, format, kind);
    assert last.Ok?;
    assert ReadValues(data, pos, format, kind, n).value.0 == prev.value.0 + [last.value.0];
    if i < n - 1 {
      ReadValueAt(data, pos, format, kind, n - 1, i, at);
    } else {
      assert prev.value.1 == at;
    }
  }

  /** Span is the element size times the count. */
  lemma SpanIsProduct(kind: IntKind, n: nat)
    ensures kind.Span(n) == kind.Size() * n
  {
  }

  /** The bytes a value occupies in the selected byte order. */
  function Encode(v: int, kind: IntKind, bigEndian: bool): (bs: seq<u8>)
    requires kind.InRange(v)
    ensures |bs| == kind.Size()
  {
    if bigEndian then EncodeBE(kind.ToBits(v), kind.Size()) else EncodeLE(kind.ToBits(v), kind.Size())
  }

  /** Writing a value in the byte order the format selects and reading it
      back yields the value and advances by exactly Size() bytes. */
  lemma ReadEncodeRoundTrip(prefix: seq<u8>, v: int, suffix: seq<u8>, format: i32, kind: IntKind)
    requires kind.InRange(v) && BitOrderSet(format)
    ensures Read(prefix + Encode(v, kind, BigEndianBytes(format)) + suffix, |prefix|, format, kind)
         == Ok((v, |prefix| + kind.Size()))
  {
    var enc := Encode(v, kind, BigEndianBytes(format));
    var data := prefix + enc + suffix;
    assert data[|prefix|..|prefix| + kind.Size()] == enc;
    if BigEndianBytes(format) {
      DecodeEncodeBE(kind.ToBits(v), kind.Size());
    } else {
      DecodeEncodeLE(kind.ToBits(v), kind.Size());
    }
  }

  /** Conversely, a successful read decoded exactly the bytes that encode its value. */
  lemma ReadThenEncode(data: seq<u8>, pos: nat, format: i32, kind: IntKind)
    requires Read(data, pos, format, kind).Ok?
    ensures Encode(Read(data, pos, format, kind).value.0, kind, BigEndianBytes(format))
         == data[pos..pos + kind.Size()]
  {
    var u := ValueAt(data, pos, kind.Size(), BigEndianBytes(format)).value;
    var v := kind.FromBits(u);
    ValueAtEncodes(data, pos, kind.Size(), BigEndianBytes(format));
    assert kind.ToBits(v) == u;
  }
}
