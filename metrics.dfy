/** The PCF_METRICS and PCF_INK_METRICS tables: a count, then that many
    five-field records, each field one compressed byte or a full i16; and
    the running font-wide maxima taken over the PCF_METRICS records. */
module Metrics {
  import opened Ints
  import opened Wrappers
  import opened Format

  datatype Metric = Metric(leftSideBearing: i16, rightSideBearing: i16, characterWidth: i16,
                           characterAscent: i16, characterDescent: i16)

  /** Bytes one field occupies: one with compressed metrics, else two. */
  function FieldSize(format: i32): (n: nat)
    ensures n == 1 || n == 2
  {
    if CompressedMetrics(format) then 1 else 2
  }

  /** The read_short lambda: a compressed field is the byte minus 0x80,
      otherwise a read<i16>. */
  function ReadShort(data: seq<u8>, pos: nat, format: i32): (r: Result<(i16, nat)>)
    ensures r.Ok? <==> pos + FieldSize(format) <= |data| && BitOrderSet(format)
    ensures r.Ok? ==> r.value.1 == pos + FieldSize(format)
    ensures pos + FieldSize(format) > |data| ==> r == Err(Truncated)
    ensures pos + FieldSize(format) <= |data| && !BitOrderSet(format) ==> r == Err(UnsupportedBitOrder)
  {
    if CompressedMetrics(format) then
      var b :- Read(data, pos, format, U8);
      Ok((b.0 - 0x80, b.1))
    else
      var v :- Read(data, pos, format, I16);
      Ok((v.0, v.1))
  }

  /** The field read: the byte at pos minus 0x80 when compressed, else the
      i16 at pos in the format's byte order. */
  lemma ReadShortDecodes(data: seq<u8>, pos: nat, format: i32)
    requires ReadShort(data, pos, format).Ok?
    ensures CompressedMetrics(format) ==> ReadShort(data, pos, format).value.0 == data[pos] as int - 0x80
    ensures !CompressedMetrics(format) ==> ReadShort(data, pos, format).value.0 == ValueIn(data, pos, format, I16)
  {
    if CompressedMetrics(format) {
      ValueInByte(data, pos, format);
    }
  }

  /** Compressed fields cover exactly -128 .. 127: every such value has a
      byte that reads back as it. */
  lemma CompressedRange(data: seq<u8>, pos: nat, format: i32)
    requires CompressedMetrics(format) && ReadShort(data, pos, format).Ok?
    ensures -128 <= ReadShort(data, pos, format).value.0 <= 127
  {
    ReadShortDecodes(data, pos, format);
  }

  lemma CompressedRoundTrip(prefix: seq<u8>, v: int, suffix: seq<u8>, format: i32)
    requires CompressedMetrics(format) && BitOrderSet(format)
    requires -128 <= v <= 127
    ensures ReadShort(prefix + [(v + 0x80) as u8] + suffix, |prefix|, format) == Ok((v, |prefix| + 1))
  {
    var data := prefix + [(v + 0x80) as u8] + suffix;
    assert data[|prefix|] == v + 0x80;
    ReadShortDecodes(data, |prefix|, format);
  }

  /** One five-field record. */
  function ReadMetric(data: seq<u8>, pos: nat, format: i32): (r: Result<(Metric, nat)>)
    ensures r.Ok? <==> pos + RecordSize(format) <= |data| && BitOrderSet(format)
    ensures r.Ok? ==> r.value.1 == pos + RecordSize(format)
  {
    var lsb :- ReadShort(data, pos, format);
    var rsb :- ReadShort(data, lsb.1, format);
    var width :- ReadShort(data, rsb.1, format);
    var ascent :- ReadShort(data, width.1, format);
    var descent :- ReadShort(data, ascent.1, format);
    Ok((Metric(lsb.0, rsb.0, width.0, ascent.0, descent.0), descent.1))
  }

  /** The field stored at p: the byte minus 0x80 when compressed, else the
      i16 in the format's byte order. */
  function ShortIn(data: seq<u8>, p: nat, format: i32): i16
    requires p + FieldSize(format) <= |data|
  {
    if CompressedMetrics(format) then data[p] as int - 0x80 else ValueIn(data, p, format, I16)
  }

  /** The record stored at p: left and right bearing, width, ascent and
      descent as five successive fields. */
  function MetricIn(data: seq<u8>, p: nat, format: i32): Metric
    requires p + RecordSize(format) <= |data|
  {
    var f := FieldSize(format);
    Metric(ShortIn(data, p, format), ShortIn(data, p + f, format), ShortIn(data, p + 2 * f, format),
           ShortIn(data, p + 3 * f, format), ShortIn(data, p + 4 * f, format))
  }

  /** A successful record read holds the record stored at pos. */
  lemma MetricLayout(data: seq<u8>, pos: nat, format: i32)
    requires ReadMetric(data, pos, format).Ok?
    ensures pos + RecordSize(format) <= |data|
    ensures ReadMetric(data, pos, format).value.0 == MetricIn(data, pos, format)
  {
    var f := FieldSize(format);
    ReadShortDecodes(data, pos, format);
    ReadShortDecodes(data, pos + f, format);
    ReadShortDecodes(data, pos + 2 * f, format);
    ReadShortDecodes(data, pos + 3 * f, format);
    ReadShortDecodes(data, pos + 4 * f, format);
  }

  /** What the five reads of one record come to: the first read reports a
      short buffer, then an unsupported bit order; a later read can only
      run short; otherwise the record stored at pos. */
  function MetricRecord(data: seq<u8>, pos: nat, format: i32): (r: Result<(Metric, nat)>)
  {
    if pos + FieldSize(format) > |data| then Err(Truncated)
    else if !BitOrderSet(format) then Err(UnsupportedBitOrder)
    else if pos + RecordSize(format) > |data| then Err(Truncated)
    else Ok((MetricIn(data, pos, format), pos + RecordSize(format)))
  }

  /** The five successive reads give exactly MetricRecord: the same record
      and end position, or the same error. */
  lemma ReadMetricIsRecord(data: seq<u8>, pos: nat, format: i32)
    ensures ReadMetric(data, pos, format) == MetricRecord(data, pos, format)
  {
    if ReadMetric(data, pos, format).Ok? {
      MetricLayout(data, pos, format);
    }
  }

  /** The first n records from pos, in order, each read as ReadMetric reads
      it (ReadMetricIsRecord). */
  function ReadMetrics(data: seq<u8>, pos: nat, format: i32, n: nat): (r: Result<(seq<Metric>, nat)>)
    ensures r.Ok? ==> |r.value.0| == n && r.value.1 == pos + RecordSpan(format, n)
  {
    if n == 0 then Ok(([], pos))
    else
      var ms :- ReadMetrics(data, pos, format, n - 1);
      var m :- MetricRecord(data, ms.1, format);
      Ok((ms.0 + [m.0], m.1))
  }

  /** Bytes one record occupies. */
  function RecordSize(format: i32): (n: nat)
    ensures n == 5 || n == 10
  {
    5 * FieldSize(format)
  }

  /** Bytes n records occupy, RecordSize times n, spelled out per field
      size so that it stays linear in n. */
  function RecordSpan(format: i32, n: nat): nat {
    if CompressedMetrics(format) then 5 * n else 10 * n
  }

  lemma RecordSpanIsProduct(format: i32, n: nat)
    ensures RecordSpan(format, n) == RecordSize(format) * n
  {
  }

  /** Record i of a successful read is the record stored at
      pos + RecordSpan(format, i), named `at` by the caller. */
  lemma {:induction false} ReadMetricAt(data: seq<u8>, pos: nat, format: i32, n: nat, i: nat, at: nat)
    requires ReadMetrics(data, pos, format, n).Ok? && i < n && at == pos + RecordSpan(format, i)
    ensures at + RecordSize(format) <= |data|
    ensures ReadMetrics(data, pos, format, n).value.0[i] == MetricIn(data, at, format)
  {
    var prev := ReadMetrics(data, pos, format, n - 1);
    assert prev.Ok?;
    var last := MetricRecord(data, prev.value.1, format);
    assert last.Ok?;
    assert ReadMetrics(data, pos, format, n).value.0 == prev.value.0 + [last.value.0];
    if i < n - 1 {
      ReadMetricAt(data, pos, format, n - 1, i, at);
    } else {
      assert prev.value.1 == at;
    }
  }

  /** A successful read of n records extends a successful read of n - 1 by
      one record. */
  lemma ReadMetricsOkStep(data: seq<u8>, pos: nat, format: i32, n: nat)
    requires n > 0 && ReadMetrics(data, pos, format, n).Ok?
    ensures ReadMetrics(data, pos, format, n - 1).Ok?
    ensures ReadMetrics(data, pos, format, n).value.1 ==
      ReadMetrics(data, pos, format, n - 1).value.1 + RecordSize(format)
  {
  }

  /** Reading n > 0 records succeeds exactly when the bit order is
      supported and n records fit. */
  lemma {:induction false} ReadMetricsSucceeds(data: seq<u8>, pos: nat, format: i32, n: nat)
    requires n > 0
    ensures ReadMetrics(data, pos, format, n).Ok? <==>
      pos + RecordSpan(format, n) <= |data| && BitOrderSet(format)
  {
    var prev := ReadMetrics(data, pos, format, n - 1);
    if n > 1 {
      ReadMetricsSucceeds(data, pos, format, n - 1);
    }
    if prev.Ok? {
      assert ReadMetrics(data, pos, format, n).Ok? <==> MetricRecord(data, prev.value.1, format).Ok?;
    }
  }

  /** Once reading k records fails, reading more fails the same way. */
  lemma {:induction false} ReadMetricsErrPersists(data: seq<u8>, pos: nat, format: i32, k: nat, n: nat)
    requires k <= n && ReadMetrics(data, pos, format, k).Err?
    ensures ReadMetrics(data, pos, format, n) == ReadMetrics(data, pos, format, k)
    decreases n - k
  {
    if k < n {
      ReadMetricsErrStep(data, pos, format, k + 1);
      ReadMetricsErrPersists(data, pos, format, k + 1, n);
    }
  }

  /** A failed prefix makes the next read fail with the same error. */
  lemma ReadMetricsErrStep(data: seq<u8>, pos: nat, format: i32, n: nat)
    requires n > 0 && ReadMetrics(data, pos, format, n - 1).Err?
    ensures ReadMetrics(data, pos, format, n) == ReadMetrics(data, pos, format, n - 1)
  {
  }

  /** The metrics case of populate_tables, from the cursor just after the
      format word: an i16 count that must be positive, then the records. */
  function ParseMetricsTable(data: seq<u8>, pos: nat, format: i32): (r: Result<(seq<Metric>, nat)>)
    ensures r.Ok? ==> |r.value.0| > 0
    ensures Read(data, pos, format, I16).Ok? && Read(data, pos, format, I16).value.0 <= 0 ==>
      r == Err(InvalidMetricsCount)
    ensures r.Ok? ==> (Read(data, pos, format, I16).Ok? &&
                       |r.value.0| == Read(data, pos, format, I16).value.0)
  {
    var count :- Read(data, pos, format, I16);
    if count.0 <= 0 then Err(InvalidMetricsCount)
    else ReadMetrics(data, count.1, format, count.0)
  }

  /** The three fields the running maxima follow. */
  datatype Field = Ascent | Descent | Width

  function Get(m: Metric, f: Field): i16 {
    match f
    case Ascent => m.characterAscent
    case Descent => m.characterDescent
    case Width => m.characterWidth
  }

  /** `m = max(m, field)` over the records in order, from the start value m0. */
  function RunningMax(m0: i16, ms: seq<Metric>, f: Field): (m: i16)
    ensures m >= m0
  {
    if ms == [] then m0
    else
      var prev := RunningMax(m0, ms[..|ms| - 1], f);
      var last := Get(ms[|ms| - 1], f);
      if prev >= last then prev else last
  }

  /** The running maximum bounds every record's field and is either the start
      value or one of those fields. */
  lemma {:induction false} RunningMaxIsMax(m0: i16, ms: seq<Metric>, f: Field)
    ensures forall i :: 0 <= i < |ms| ==> RunningMax(m0, ms, f) >= Get(ms[i], f)
    ensures RunningMax(m0, ms, f) == m0 || exists i :: 0 <= i < |ms| && RunningMax(m0, ms, f) == Get(ms[i], f)
  {
    if ms != [] {
      var init := ms[..|ms| - 1];
      RunningMaxIsMax(m0, init, f);
      assert forall i :: 0 <= i < |init| ==> init[i] == ms[i];
      if RunningMax(m0, ms, f) != m0 && RunningMax(m0, ms, f) == RunningMax(m0, init, f) {
        var i :| 0 <= i < |init| && RunningMax(m0, init, f) == Get(init[i], f);
        assert RunningMax(m0, ms, f) == Get(ms[i], f);
      }
    }
  }

  /** One more record raises the maximum to that record's field if larger. */
  lemma RunningMaxSnoc(m0: i16, ms: seq<Metric>, x: Metric, f: Field)
    ensures RunningMax(m0, ms + [x], f) ==
      if RunningMax(m0, ms, f) >= Get(x, f) then RunningMax(m0, ms, f) else Get(x, f)
  {
    assert (ms + [x])[..|ms|] == ms;
  }

  /** Folding in two batches is folding in their concatenation, so a table
      read in one go updates the maxima as the per-record loop does. */
  lemma {:induction false} RunningMaxAppend(m0: i16, ms: seq<Metric>, more: seq<Metric>, f: Field)
    ensures RunningMax(RunningMax(m0, ms, f), more, f) == RunningMax(m0, ms + more, f)
    decreases |more|
  {
    if more == [] {
      assert ms + more == ms;
    } else {
      var init, x := more[..|more| - 1], more[|more| - 1];
      assert more == init + [x];
      assert ms + more == (ms + init) + [x];
      RunningMaxAppend(m0, ms, init, f);
      RunningMaxSnoc(RunningMax(m0, ms, f), init, x, f);
      RunningMaxSnoc(m0, ms + init, x, f);
    }
  }
}
