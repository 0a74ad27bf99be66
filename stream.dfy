/** The bounded byte cursor (a fixed in-memory stream): absolute and relative
    seeks, exact-size value reads and best-effort bulk reads. */
module Stream {
  import opened Ints
  import opened Endian
  import opened Wrappers

  /** read_value: `size` bytes at `pos` as an unsigned value in the chosen
      byte order, or Truncated when fewer than `size` bytes remain. */
  function ValueAt(data: seq<u8>, pos: nat, size: nat, bigEndian: bool): (r: Result<nat>)
    ensures r.Ok? <==> pos + size <= |data|
    ensures r.Err? ==> r.error == Truncated
    ensures r.Ok? ==> r.value < Pow256(size)
  {
    if pos + size > |data| then Err(Truncated)
    else if bigEndian then Ok(DecodeBE(data[pos..pos + size]))
    else Ok(DecodeLE(data[pos..pos + size]))
  }

  /** A successful read decoded exactly the bytes that encode its value. */
  lemma ValueAtEncodes(data: seq<u8>, pos: nat, size: nat, bigEndian: bool)
    requires ValueAt(data, pos, size, bigEndian).Ok?
    ensures var v := ValueAt(data, pos, size, bigEndian).value;
      (if bigEndian then EncodeBE(v, size) else EncodeLE(v, size)) == data[pos..pos + size]
  {
    if bigEndian {
      EncodeDecodeBE(data[pos..pos + size]);
    } else {
      EncodeDecodeLE(data[pos..pos + size]);
    }
  }

  /** seek(offset) from the start: positions 0 .. |data| are reachable. A
      negative offset is assumed to fail like one past the end. */
  function SeekTo(data: seq<u8>, offset: int): (r: Result<nat>)
    ensures r.Ok? <==> 0 <= offset <= |data|
    ensures r.Ok? ==> r.value == offset
    ensures r.Err? ==> r.error == SeekOutOfRange
  {
    if 0 <= offset <= |data| then Ok(offset) else Err(SeekOutOfRange)
  }

  /** seek(delta, FromCurrentPosition) for a forward delta. */
  function SeekForward(data: seq<u8>, pos: nat, delta: nat): (r: Result<nat>)
    ensures r.Ok? <==> pos + delta <= |data|
    ensures r.Ok? ==> r.value == pos + delta
    ensures r.Err? ==> r.error == SeekOutOfRange
  {
    if pos + delta <= |data| then Ok(pos + delta) else Err(SeekOutOfRange)
  }

  /** read_some: as many of the next n bytes as remain; never fails. */
  function ReadSome(data: seq<u8>, pos: nat, n: nat): (bs: seq<u8>)
    requires pos <= |data|
    ensures |bs| == if pos + n <= |data| then n else |data| - pos
    ensures bs == data[pos..pos + |bs|]
  {
    if pos + n <= |data| then data[pos..pos + n] else data[pos..]
  }

  /** The stream object: an immutable buffer and a cursor into it. */
  class ByteStream {
    const bytes: seq<u8>
    var pos: nat

    ghost predicate Valid()
      reads this
    {
      pos <= |bytes|
    }

    constructor (bytes: seq<u8>)
      ensures Valid() && this.bytes == bytes && pos == 0
    {
      this.bytes := bytes;
      pos := 0;
    }

    method Seek(offset: int) returns (r: Result<nat>)
      requires Valid()
      modifies this
      ensures Valid()
      ensures r == SeekTo(bytes, offset)
      ensures pos == if r.Ok? then r.value else old(pos)
    {
      r := SeekTo(bytes, offset);
      if r.Ok? {
        pos := r.value;
      }
    }

    method SeekBy(delta: nat) returns (r: Result<nat>)
      requires Valid()
      modifies this
      ensures Valid()
      ensures r == SeekForward(bytes, old(pos), delta)
      ensures pos == if r.Ok? then r.value else old(pos)
    {
      r := SeekForward(bytes, pos, delta);
      if r.Ok? {
        pos := r.value;
      }
    }

    /** read_value: on failure the remaining bytes have been consumed. */
    method ReadValue(size: nat, bigEndian: bool) returns (r: Result<nat>)
      requires Valid()
      modifies this
      ensures Valid()
      ensures r == ValueAt(bytes, old(pos), size, bigEndian)
      ensures pos == if r.Ok? then old(pos) + size else |bytes|
    {
      r := ValueAt(bytes, pos, size, bigEndian);
      if r.Ok? {
        pos := pos + size;
      } else {
        pos := |bytes|;
      }
    }

    method ReadSomeBytes(n: nat) returns (bs: seq<u8>)
      requires Valid()
      modifies this
      ensures Valid()
      ensures bs == ReadSome(bytes, old(pos), n)
      ensures pos == old(pos) + |bs|
    {
      bs := ReadSome(bytes, pos, n);
      pos := pos + |bs|;
    }
  }
}
