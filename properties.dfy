/** The properties table: nprops fixed records, padding to a 4-byte boundary,
    then a string pool holding NUL-terminated names and string values. */
module Properties {
  import opened Ints
  import opened Wrappers
  import opened Stream
  import opened Format

  /** One fixed record: {name_offset: i32, is_string_prop: i8, value: i32}. */
  datatype PropRecord = PropRecord(nameOffset: i32, isStringProp: i8, value: i32)

  /** A property value: a string from the pool or the raw i32. */
  datatype Property = StringProp(text: string) | IntProp(number: i32)

  function ReadRecord(data: seq<u8>, pos: nat, format: i32): (r: Result<(PropRecord, nat)>)
    ensures r.Ok? <==> pos + 9 <= |data| && BitOrderSet(format)
    ensures r.Ok? ==> r.value.1 == pos + 9
  {
    var name :- Read(data, pos, format, I32);
    var isString :- Read(data, name.1, format, I8);
    var value :- Read(data, isString.1, format, I32);
    Ok((PropRecord(name.0, isString.0, value.0), value.1))
  }

  /** The first n records from pos, in order. */
  function ReadRecords(data: seq<u8>, pos: nat, format: i32, n: nat): (r: Result<(seq<PropRecord>, nat)>)
    ensures r.Ok? ==> |r.value.0| == n && r.value.1 == pos + 9 * n
  {
    if n == 0 then Ok(([], pos))
    else
      var rs :- ReadRecords(data, pos, format, n - 1);
      var rec :- ReadRecord(data, rs.1, format);
      Ok((rs.0 + [rec.0], rec.1))
  }

  lemma {:induction false} ReadRecordsErrPersists(data: seq<u8>, pos: nat, format: i32, k: nat, n: nat)
    requires k <= n && ReadRecords(data, pos, format, k).Err?
    ensures ReadRecords(data, pos, format, n) == ReadRecords(data, pos, format, k)
    decreases n - k
  {
    if k < n {
      ReadRecordsErrStep(data, pos, format, k + 1);
      ReadRecordsErrPersists(data, pos, format, k + 1, n);
    }
  }

  lemma ReadRecordsErrStep(data: seq<u8>, pos: nat, format: i32, n: nat)
    requires n > 0 && ReadRecords(data, pos, format, n - 1).Err?
    ensures ReadRecords(data, pos, format, n) == ReadRecords(data, pos, format, n - 1)
  {
  }

  /** Bytes skipped after the records: `(nprops&3)==0 ? 0 : 4-(nprops&3)`. */
  function Padding(nprops: nat): (pad: nat)
    ensures pad < 4
  {
    if nprops % 4 == 0 then 0 else 4 - nprops % 4
  }

  /** As each record is 9 bytes, the skip ends the record area on a 4-byte
      boundary, and it is the only skip below 4 that does. */
  lemma PaddingAligns(nprops: nat, skip: nat)
    ensures (9 * nprops + Padding(nprops)) % 4 == 0
    ensures skip < 4 && (9 * nprops + skip) % 4 == 0 ==> skip == Padding(nprops)
  {
    var q, r := nprops / 4, nprops % 4;
    var k := if r == 0 then 0 else if r == 1 then 3 else if r == 2 then 5 else 7;
    assert 9 * nprops + Padding(nprops) == (9 * q + k) * 4;
    DivModUnique(9 * nprops + Padding(nprops), 4, 9 * q + k, 0);
    if skip < 4 && (9 * nprops + skip) % 4 == 0 {
      var t := (9 * nprops + skip) / 4;
      assert skip - Padding(nprops) == 4 * (t - 9 * q - k);
    }
  }

  /** The NUL-terminated string starting at index i of the pool, cut short by
      the end of the pool. */
  function CStringFrom(pool: seq<u8>, i: nat): (s: seq<u8>)
    requires i <= |pool|
    decreases |pool| - i
    ensures i + |s| <= |pool|
    ensures s == pool[i..i + |s|]
    ensures forall k :: 0 <= k < |s| ==> s[k] != 0
    ensures i + |s| == |pool| || pool[i + |s|] == 0
  {
    if i == |pool| || pool[i] == 0 then [] else [pool[i]] + CStringFrom(pool, i + 1)
  }

  /** String extraction from an i32 pool offset. The original converts the
      offset to size_t, so a negative offset lies beyond every pool. */
  function CString(pool: seq<u8>, offset: int): (s: seq<u8>)
    ensures offset < 0 || offset >= |pool| ==> s == []
    ensures 0 <= offset ==> offset + |s| <= |pool| || s == []
  {
    if 0 <= offset <= |pool| then CStringFrom(pool, offset) else []
  }

  /** Those four properties determine the extracted string: it is exactly the
      pool bytes from the offset up to the first NUL or the pool's end. */
  lemma {:induction false} CStringUnique(pool: seq<u8>, offset: nat, s: seq<u8>)
    requires offset + |s| <= |pool|
    requires s == pool[offset..offset + |s|]
    requires forall k :: 0 <= k < |s| ==> s[k] != 0
    requires offset + |s| == |pool| || pool[offset + |s|] == 0
    ensures s == CString(pool, offset)
    decreases |s|
  {
    if s != [] {
      assert pool[offset] == s[0] && pool[offset] != 0;
      CStringUnique(pool, offset + 1, s[1..]);
      assert s == [pool[offset]] + s[1..];
    }
  }

  /** Zero bytes after the pool change no extracted string: a string that
      ran to the pool's end stops at the first zero, and an offset inside
      the zeros gives the empty string, as it does past the pool. */
  lemma CStringZeroTail(pool: seq<u8>, tail: seq<u8>, offset: int)
    requires forall k :: 0 <= k < |tail| ==> tail[k] == 0
    ensures CString(pool + tail, offset) == CString(pool, offset)
  {
    var whole := pool + tail;
    if 0 <= offset <= |pool| {
      var s := CStringFrom(pool, offset);
      assert s == whole[offset..offset + |s|];
      assert offset + |s| < |whole| ==> whole[offset + |s|] == 0;
      CStringUnique(whole, offset, s);
    } else if |pool| < offset < |whole| {
      assert whole[offset] == 0;
      CStringUnique(whole, offset, []);
    }
  }

  /** Pool bytes as the characters of a DeprecatedString. */
  function ToText(bs: seq<u8>): (t: string)
    ensures |t| == |bs|
    ensures forall i :: 0 <= i < |bs| ==> t[i] as int == bs[i]
  {
    seq(|bs|, i requires 0 <= i < |bs| => bs[i] as char)
  }

  function NameOf(rec: PropRecord, pool: seq<u8>): string {
    ToText(CString(pool, rec.nameOffset))
  }

  /** Nonzero is_string_prop: a pool string; otherwise the raw value. */
  function ValueOf(rec: PropRecord, pool: seq<u8>): (p: Property)
    ensures p.StringProp? <==> rec.isStringProp != 0
    ensures p.IntProp? ==> p.number == rec.value
    ensures p.StringProp? ==> p.text == ToText(CString(pool, rec.value))
  {
    if rec.isStringProp != 0 then StringProp(ToText(CString(pool, rec.value))) else IntProp(rec.value)
  }

  /** The (name, value) pair handed to try_set for each record. */
  function Entries(records: seq<PropRecord>, pool: seq<u8>): (kvs: seq<(string, Property)>)
    ensures |kvs| == |records|
    ensures forall i :: 0 <= i < |records| ==> kvs[i] == (NameOf(records[i], pool), ValueOf(records[i], pool))
  {
    seq(|records|, i requires 0 <= i < |records| => (NameOf(records[i], pool), ValueOf(records[i], pool)))
  }

  /** try_set of each pair in order: a later pair replaces an earlier key. */
  function InsertAll<K, V>(m: map<K, V>, kvs: seq<(K, V)>): (r: map<K, V>)
    ensures m.Keys <= r.Keys
    ensures forall j :: 0 <= j < |kvs| ==> kvs[j].0 in r
  {
    if kvs == [] then m
    else InsertAll(m, kvs[..|kvs| - 1])[kvs[|kvs| - 1].0 := kvs[|kvs| - 1].1]
  }

  /** Inserting the first i + 1 pairs is inserting the first i, then pair i. */
  lemma InsertAllStep<K, V>(m: map<K, V>, kvs: seq<(K, V)>, i: nat)
    requires i < |kvs|
    ensures InsertAll(m, kvs[..i + 1]) == InsertAll(m, kvs[..i])[kvs[i].0 := kvs[i].1]
  {
    assert kvs[..i + 1][..i] == kvs[..i];
  }

  lemma {:induction false} InsertAllKeys<K, V>(m: map<K, V>, kvs: seq<(K, V)>, key: K)
    ensures key in InsertAll(m, kvs) <==> key in m || exists j :: 0 <= j < |kvs| && kvs[j].0 == key
  {
    if kvs != [] {
      var n := |kvs| - 1;
      var init := kvs[..n];
      InsertAllKeys(m, init, key);
      if exists j :: 0 <= j < n && init[j].0 == key {
        var j :| 0 <= j < n && init[j].0 == key;
        assert kvs[j] == init[j];
      }
      if exists j :: 0 <= j < |kvs| && kvs[j].0 == key {
        var j :| 0 <= j < |kvs| && kvs[j].0 == key;
        if j < n {
          assert init[j] == kvs[j];
        }
      }
    }
  }

  lemma {:induction false} InsertAllLastWins<K, V>(m: map<K, V>, kvs: seq<(K, V)>, j: int)
    requires 0 <= j < |kvs|
    requires forall j' :: j < j' < |kvs| ==> kvs[j'].0 != kvs[j].0
    ensures kvs[j].0 in InsertAll(m, kvs)
    ensures InsertAll(m, kvs)[kvs[j].0] == kvs[j].1
  {
    var n := |kvs| - 1;
    if j < n {
      var init := kvs[..n];
      assert init[j] == kvs[j];
      forall j' | j < j' < |init| ensures init[j'].0 != init[j].0 {
        assert init[j'] == kvs[j'];
      }
      InsertAllLastWins(m, init, j);
    }
  }

  lemma {:induction false} InsertAllUntouched<K, V>(m: map<K, V>, kvs: seq<(K, V)>, key: K)
    requires key in m
    requires forall j :: 0 <= j < |kvs| ==> kvs[j].0 != key
    ensures key in InsertAll(m, kvs) && InsertAll(m, kvs)[key] == m[key]
  {
    if kvs != [] {
      var n := |kvs| - 1;
      var init := kvs[..n];
      forall j | 0 <= j < |init| ensures init[j].0 != key {
        assert init[j] == kvs[j];
      }
      InsertAllUntouched(m, init, key);
    }
  }

  function BuildProperties(records: seq<PropRecord>, pool: seq<u8>, props: map<string, Property>): (r: map<string, Property>)
    ensures props.Keys <= r.Keys
    ensures forall j :: 0 <= j < |records| ==> NameOf(records[j], pool) in r
  {
    InsertAll(props, Entries(records, pool))
  }

  /** Building the map keeps the earlier keys and adds every record's name. */
  lemma BuildPropertiesKeys(records: seq<PropRecord>, pool: seq<u8>, props: map<string, Property>, key: string)
    ensures key in BuildProperties(records, pool, props) <==>
      key in props || exists j :: 0 <= j < |records| && NameOf(records[j], pool) == key
  {
    var kvs := Entries(records, pool);
    InsertAllKeys(props, kvs, key);
    if exists j :: 0 <= j < |kvs| && kvs[j].0 == key {
      var j :| 0 <= j < |kvs| && kvs[j].0 == key;
      assert NameOf(records[j], pool) == key;
    }
    if exists j :: 0 <= j < |records| && NameOf(records[j], pool) == key {
      var j :| 0 <= j < |records| && NameOf(records[j], pool) == key;
      assert kvs[j].0 == key;
    }
  }

  /** The value of a key is that of the last record carrying its name. */
  lemma BuildPropertiesLastWins(records: seq<PropRecord>, pool: seq<u8>, props: map<string, Property>, j: int)
    requires 0 <= j < |records|
    requires forall j' :: j < j' < |records| ==> NameOf(records[j'], pool) != NameOf(records[j], pool)
    ensures NameOf(records[j], pool) in BuildProperties(records, pool, props)
    ensures BuildProperties(records, pool, props)[NameOf(records[j], pool)] == ValueOf(records[j], pool)
  {
    var kvs := Entries(records, pool);
    forall j' | j < j' < |kvs| ensures kvs[j'].0 != kvs[j].0 {
      assert kvs[j'].0 == NameOf(records[j'], pool);
    }
    InsertAllLastWins(props, kvs, j);
  }

  /** A key no record names keeps its earlier value. */
  lemma BuildPropertiesUntouched(records: seq<PropRecord>, pool: seq<u8>, props: map<string, Property>, key: string)
    requires key in props
    requires forall j :: 0 <= j < |records| ==> NameOf(records[j], pool) != key
    ensures key in BuildProperties(records, pool, props)
    ensures BuildProperties(records, pool, props)[key] == props[key]
  {
    var kvs := Entries(records, pool);
    forall j | 0 <= j < |kvs| ensures kvs[j].0 != key {
      assert kvs[j].0 == NameOf(records[j], pool);
    }
    InsertAllUntouched(props, kvs, key);
  }

  /** What follows the records: the padding skip, the i32 string size and
      the string pool, read with read_some into a buffer of that size. */
  function ReadPool(data: seq<u8>, pos: nat, format: i32, nprops: nat): (r: Result<seq<u8>>)
    ensures r.Ok? ==> pos + Padding(nprops) + 4 + |r.value| <= |data|
    ensures r.Ok? ==> 0 <= |r.value| <= ValueIn(data, pos + Padding(nprops), format, I32)
    ensures r.Ok? ==> r.value == data[pos + Padding(nprops) + 4..pos + Padding(nprops) + 4 + |r.value|]
    ensures r.Ok? && |r.value| < ValueIn(data, pos + Padding(nprops), format, I32) ==>
      pos + Padding(nprops) + 4 + |r.value| == |data|
    ensures (pos + Padding(nprops) + 4 <= |data| && BitOrderSet(format) &&
             ValueIn(data, pos + Padding(nprops), format, I32) < 0) ==> r == Err(AllocationFailure)
  {
    var p :- SeekForward(data, pos, Padding(nprops));
    var size :- Read(data, p, format, I32);
    if size.0 < 0 then Err(AllocationFailure)
    else Ok(ReadSome(data, size.1, size.0))
  }

  /** The reads of the PCF_PROPERTIES case, from the cursor just after the
      format word: the records and the string pool. */
  function ReadTableParts(data: seq<u8>, pos: nat, format: i32): (r: Result<(seq<PropRecord>, seq<u8>)>)
    ensures r.Ok? ==> Read(data, pos, format, I32) == Ok((|r.value.0|, pos + 4))
    ensures Read(data, pos, format, I32).Ok? && Read(data, pos, format, I32).value.0 < 0 ==>
      r == Err(NegativePropertyCount)
  {
    var n :- Read(data, pos, format, I32);
    if n.0 < 0 then Err(NegativePropertyCount)
    else
      var rs :- ReadRecords(data, n.1, format, n.0);
      var pool :- ReadPool(data, rs.1, format, n.0);
      Ok((rs.0, pool))
  }

  /** The PCF_PROPERTIES case of populate_tables: the parts, then one
      try_set per record. */
  function ParseTable(data: seq<u8>, pos: nat, format: i32, props: map<string, Property>): (r: Result<map<string, Property>>)
    ensures Read(data, pos, format, I32).Ok? && Read(data, pos, format, I32).value.0 < 0 ==>
      r == Err(NegativePropertyCount)
    ensures r.Ok? ==> props.Keys <= r.value.Keys
    ensures r.Ok? <==> ReadTableParts(data, pos, format).Ok?
    ensures r.Ok? ==>
      forall j :: 0 <= j < |ReadTableParts(data, pos, format).value.0| ==>
        NameOf(ReadTableParts(data, pos, format).value.0[j], ReadTableParts(data, pos, format).value.1) in r.value
  {
    var parts :- ReadTableParts(data, pos, format);
    Ok(BuildProperties(parts.0, parts.1, props))
  }

  /** Where the table's parts lie: nprops at pos, the records right after
      it, the string size after exactly Padding(nprops) skipped bytes, and
      the pool right after the size. */
  lemma ParseTableLayout(data: seq<u8>, pos: nat, format: i32) returns (n: nat, size: nat)
    requires ReadTableParts(data, pos, format).Ok?
    ensures Read(data, pos, format, I32) == Ok((n, pos + 4))
    ensures ReadRecords(data, pos + 4, format, n).Ok?
    ensures Read(data, pos + 4 + 9 * n + Padding(n), format, I32) == Ok((size, pos + 8 + 9 * n + Padding(n)))
    ensures ReadTableParts(data, pos, format)
         == Ok((ReadRecords(data, pos + 4, format, n).value.0, ReadSome(data, pos + 8 + 9 * n + Padding(n), size)))
  {
    var rn := Read(data, pos, format, I32);
    assert rn.Ok? && rn.value.0 >= 0;
    n := rn.value.0;
    assert rn == Ok((n, pos + 4));
    var rs := ReadRecords(data, pos + 4, format, n);
    assert rs.Ok?;
    size := PoolLayout(data, pos + 4 + 9 * n, format, n);
  }

  /** The string size lies exactly Padding(nprops) bytes after the records,
      and the pool right after it. */
  lemma PoolLayout(data: seq<u8>, pos: nat, format: i32, nprops: nat) returns (size: nat)
    requires ReadPool(data, pos, format, nprops).Ok?
    ensures Read(data, pos + Padding(nprops), format, I32) == Ok((size, pos + Padding(nprops) + 4))
    ensures ReadPool(data, pos, format, nprops) == Ok(ReadSome(data, pos + Padding(nprops) + 4, size))
  {
    assert SeekForward(data, pos, Padding(nprops)) == Ok(pos + Padding(nprops));
    var rsize := Read(data, pos + Padding(nprops), format, I32);
    assert rsize.Ok? && rsize.value.0 >= 0;
    size := rsize.value.0;
  }

  /** The string-extraction loop of populate_tables. */
  method ExtractString(pool: seq<u8>, offset: int) returns (s: seq<u8>)
    ensures s == CString(pool, offset)
  {
    s := [];
    if offset < 0 {
      return;
    }
    var i: nat := offset;
    while i < |pool|
      invariant offset <= i
      invariant offset <= |pool| ==> i <= |pool| && CStringFrom(pool, offset) == s + CStringFrom(pool, i)
      invariant offset > |pool| ==> s == []
    {
      if pool[i] == 0 {
        break;
      }
      ghost var rest := CStringFrom(pool, i + 1);
      assert CStringFrom(pool, i) == [pool[i]] + rest;
      assert s + ([pool[i]] + rest) == (s + [pool[i]]) + rest;
      s := s + [pool[i]];
      i := i + 1;
    }
  }
}
