/** The tagged-union "general storage" chunks (MOST, OBST, COST, MEST):
    a size prefix and then 12-byte records of type, flags, index, value,
    where two bits of the flags pick the shape of the index and two more
    the shape of the value. */
module GeneralStorage {
  import opened Wrappers
  import opened Bytes
  import opened FormatCodes
  import opened FieldCodec
  import opened Framing

  /** The four 4-byte shapes `_parse_from_type_flags` can produce. */
  datatype Union =
    | IntU(i: int)                // selector 0: '>i'
    | FloatU(word: seq<Byte>)     // selector 1: '>f', kept as its raw word
    | ShortPair(a: int, b: int)   // selector 2: '>2h'
    | ByteQuad(bytes: seq<Byte>)  // selector 3: '>4c', four single bytes

  /** `GeneralStorage(type, flags, index, value)`. */
  datatype Storage = Storage(typ: int, flags: int, index: Union, value: Union)

  /** `flags & 3`; Python's `&` on a negative int and Dafny's `%` on a
      positive modulus agree. */
  function Selector(flags: int): (s: nat)
    ensures s < 4
  {
    flags % 4
  }

  /** `flags >> 2`: Python shifts toward negative infinity, as Dafny's `/`
      does for a positive divisor. */
  function ShiftTwo(flags: int): int
  {
    flags / 4
  }

  /** Python's `flags & 3` and `flags >> 2` recombine to the flags. */
  lemma {:induction false} SelectorSplit(flags: int)
    ensures flags == 4 * ShiftTwo(flags) + Selector(flags)
  {
  }

  function Int32(bs: seq<Byte>): int
    requires |bs| == 4
  {
    ToSigned(FromBE(bs), 4)
  }

  function Int16(bs: seq<Byte>): int
    requires |bs| == 2
  {
    ToSigned(FromBE(bs), 2)
  }

  /** The shape a selector decodes 4 bytes to. */
  function DecodeUnion(sel: nat, bs: seq<Byte>): (u: Union)
    requires sel < 4 && |bs| == 4
    ensures sel == 0 <==> u.IntU?
    ensures sel == 1 <==> u.FloatU?
    ensures sel == 2 <==> u.ShortPair?
    ensures sel == 3 <==> u.ByteQuad?
  {
    if sel == 0 then IntU(Int32(bs))
    else if sel == 1 then FloatU(bs)
    else if sel == 2 then ShortPair(Int16(bs[..2]), Int16(bs[2..]))
    else ByteQuad(bs)
  }

  /** `_parse_from_type_flags(file, flags)`: four bytes whose shape depends
      only on `flags & 3`.  The `ValueError` branch cannot be taken, since
      `flags & 3` is always one of the four selectors. */
  function ParseFromTypeFlags(data: seq<Byte>, pos: nat, flags: int): (r: Result<(Union, nat)>)
    ensures r.Ok? <==> pos + 4 <= |data|
    ensures r.Ok? ==> r.value.1 == pos + 4
    ensures r.Ok? ==> r.value.0 == DecodeUnion(Selector(flags), data[pos..pos + 4])
  {
    if pos + 4 > |data| then Err(Truncated)
    else Ok((DecodeUnion(Selector(flags), data[pos..pos + 4]), pos + 4))
  }

  /** One 12-byte record: '>hh' type and flags, then the index shaped by
      `flags`, then the value shaped by `flags >> 2`. */
  function DecodeRecord(bs: seq<Byte>): (s: Storage)
    requires |bs| == 12
    ensures s.index == DecodeUnion(Selector(s.flags), bs[4..8])
    ensures s.value == DecodeUnion(Selector(ShiftTwo(s.flags)), bs[8..12])
    ensures -0x8000 <= s.typ < 0x8000 && -0x8000 <= s.flags < 0x8000
  {
    var typ := Int16(bs[..2]);
    var flags := Int16(bs[2..4]);
    Storage(typ, flags, DecodeUnion(Selector(flags), bs[4..8]), DecodeUnion(Selector(ShiftTwo(flags)), bs[8..12]))
  }

  /** `n` consecutive records starting at `start`. */
  function DecodeRecords(data: seq<Byte>, start: nat, n: nat): (ss: seq<Storage>)
    requires start + 12 * n <= |data|
    ensures |ss| == n
    decreases n
  {
    if n == 0 then []
    else [DecodeRecord(data[start..start + 12])] + DecodeRecords(data, start + 12, n - 1)
  }

  /** Record k of a run is decoded from bytes 12k to 12k + 12 of it. */
  lemma {:induction false} DecodeRecordsAt(data: seq<Byte>, start: nat, n: nat, k: nat)
    requires start + 12 * n <= |data| && k < n
    ensures DecodeRecords(data, start, n)[k] == DecodeRecord(data[start + 12 * k..start + 12 * k + 12])
    decreases n
  {
    if k > 0 {
      DecodeRecordsAt(data, start + 12, n - 1, k - 1);
    }
  }

  /** `_parse_general_storage`: the size prefix must be a multiple of 12;
      then size / 12 records follow, and the cursor ends after them. */
  function ParseGeneralStorage(data: seq<Byte>, pos: nat): (r: Result<(seq<Storage>, nat)>)
    ensures pos + 4 > |data| ==> r == Err(Truncated)
    ensures pos + 4 <= |data| && FromBE(data[pos..pos + 4]) % 12 != 0
            ==> r == Err(SizeNotMultipleOf12(FromBE(data[pos..pos + 4])))
    ensures pos + 4 <= |data| ==> var size := FromBE(data[pos..pos + 4]);
      && (r.Ok? <==> size % 12 == 0 && pos + 4 + size <= |data|)
      && (size % 12 == 0 && pos + 4 + size > |data| ==> r == Err(Truncated))
    ensures r.Ok? ==> pos + 4 <= |data|
    ensures r.Ok? ==> var size := FromBE(data[pos..pos + 4]);
      && size % 12 == 0
      && r.value.1 == pos + 4 + size <= |data|
      && r.value.0 == DecodeRecords(data, pos + 4, size / 12)
  {
    var (size, body) :- ReadChunkSize(data, pos);
    if size % 12 != 0 then Err(SizeNotMultipleOf12(size))
    else if body + size > |data| then Err(Truncated)
    else Ok((DecodeRecords(data, body, size / 12), body + size))
  }

  // --------------------------------------------------------------- writing

  /** `'>i' if isinstance(x, int) else '>f'` applied to an index or value. */
  function EncodeUnion(u: Union): (r: Result<seq<Byte>>)
    ensures r.Ok? ==> |r.value| == 4
    ensures r.Ok? <==> (u.IntU? && InSigned(u.i, 4)) || (u.FloatU? && |u.word| == 4)
  {
    if u.IntU? then PackAtom(Atom(Int, 4), IntVal(u.i))
    else if u.FloatU? then PackAtom(Atom(Float, 4), FloatVal(u.word))
    else Err(UnwritableValue)
  }

  /** One record: '>hh' type and flags, then index, then value. */
  function EncodeRecord(s: Storage): (r: Result<seq<Byte>>)
    ensures r.Ok? ==> |r.value| == 12
  {
    var typ :- PackAtom(Atom(Short, 2), IntVal(s.typ));
    var flags :- PackAtom(Atom(Short, 2), IntVal(s.flags));
    var index :- EncodeUnion(s.index);
    var value :- EncodeUnion(s.value);
    Ok(typ + flags + index + value)
  }

  /** The records one after another; it fails exactly when one of them
      cannot be written, and record k lands at byte 12 * k. */
  function EncodeRecords(ss: seq<Storage>): (r: Result<seq<Byte>>)
    ensures r.Ok? <==> forall k :: 0 <= k < |ss| ==> EncodeRecord(ss[k]).Ok?
    ensures r.Ok? ==> |r.value| == 12 * |ss|
  {
    if |ss| == 0 then Ok([])
    else
      var head :- EncodeRecord(ss[0]);
      var tail :- EncodeRecords(ss[1..]);
      Ok(head + tail)
  }

  /** Record k of a written run sits at bytes 12k to 12k + 12. */
  lemma {:induction false} EncodeRecordsAt(ss: seq<Storage>, k: nat)
    requires EncodeRecords(ss).Ok? && k < |ss|
    ensures EncodeRecords(ss).value[12 * k..12 * k + 12] == EncodeRecord(ss[k]).value
  {
    if k > 0 {
      EncodeRecordsAt(ss[1..], k - 1);
      var head := EncodeRecord(ss[0]).value;
      var tail := EncodeRecords(ss[1..]).value;
      assert (head + tail)[12 * k..12 * k + 12] == tail[12 * (k - 1)..12 * (k - 1) + 12];
    }
  }

  /** `_write_general_storage`: prefix `12 * len(storages)`, then each
      record; the prefix reads back as the length of what follows it. */
  function WriteGeneralStorage(ss: seq<Storage>): (r: Result<seq<Byte>>)
    ensures r.Ok? <==> 12 * |ss| < SIZE_LIMIT && EncodeRecords(ss).Ok?
    ensures r.Ok? ==> |r.value| == 4 + 12 * |ss|
    ensures r.Ok? ==> FromBE(r.value[..4]) == 12 * |ss| && r.value[4..] == EncodeRecords(ss).value
  {
    var prefix :- WriteChunkSize(12 * |ss|);
    var body :- EncodeRecords(ss);
    SizeLimitIsPow();
    FromToBE(12 * |ss|, 4);
    assert (prefix + body)[..4] == prefix && (prefix + body)[4..] == body;
    Ok(prefix + body)
  }

  // ------------------------------------------------------- round trips

  /** A union the writer can produce and whose shape agrees with its
      selector. */
  predicate WritableUnion(sel: nat, u: Union)
  {
    || (sel == 0 && u.IntU? && InSigned(u.i, 4))
    || (sel == 1 && u.FloatU? && |u.word| == 4)
  }

  /** Both selectors name the int or the float shape. */
  predicate IntOrFloat(s: Storage)
  {
    Selector(s.flags) < 2 && Selector(ShiftTwo(s.flags)) < 2
  }

  predicate AllIntOrFloat(ss: seq<Storage>)
  {
    forall k :: 0 <= k < |ss| ==> IntOrFloat(ss[k])
  }

  /** A record that survives a write and a parse: 16-bit type and flags, and
      index and value of the int or float shape their selectors name. */
  predicate Writable(s: Storage)
  {
    && InSigned(s.typ, 2) && InSigned(s.flags, 2)
    && WritableUnion(Selector(s.flags), s.index)
    && WritableUnion(Selector(ShiftTwo(s.flags)), s.value)
  }

  lemma {:induction false} UnionRoundTrip(sel: nat, u: Union)
    requires sel < 4 && WritableUnion(sel, u)
    ensures EncodeUnion(u).Ok?
    ensures DecodeUnion(sel, EncodeUnion(u).value) == u
  {
    if u.IntU? {
      UnpackPackAtom(Atom(Int, 4), IntVal(u.i));
    }
  }

  lemma {:induction false} RecordRoundTrip(s: Storage)
    requires Writable(s)
    ensures EncodeRecord(s).Ok?
    ensures DecodeRecord(EncodeRecord(s).value) == s
  {
    UnpackPackAtom(Atom(Short, 2), IntVal(s.typ));
    UnpackPackAtom(Atom(Short, 2), IntVal(s.flags));
    UnionRoundTrip(Selector(s.flags), s.index);
    UnionRoundTrip(Selector(ShiftTwo(s.flags)), s.value);
    var bs := EncodeRecord(s).value;
    var t := PackAtom(Atom(Short, 2), IntVal(s.typ)).value;
    var f := PackAtom(Atom(Short, 2), IntVal(s.flags)).value;
    var i := EncodeUnion(s.index).value;
    var v := EncodeUnion(s.value).value;
    assert bs == t + f + i + v;
    assert bs[..2] == t && bs[2..4] == f && bs[4..8] == i && bs[8..12] == v;
  }

  /** Decoding then encoding a record whose selectors are 0 or 1 gives the
      bytes back. */
  lemma {:induction false} DecodeEncodeRecord(bs: seq<Byte>)
    requires |bs| == 12
    requires IntOrFloat(DecodeRecord(bs))
    ensures EncodeRecord(DecodeRecord(bs)) == Ok(bs)
  {
    var s := DecodeRecord(bs);
    PackUnpackAtom(Atom(Short, 2), bs[..2]);
    PackUnpackAtom(Atom(Short, 2), bs[2..4]);
    if s.index.IntU? {
      PackUnpackAtom(Atom(Int, 4), bs[4..8]);
    }
    if s.value.IntU? {
      PackUnpackAtom(Atom(Int, 4), bs[8..12]);
    }
    assert bs == bs[..2] + bs[2..4] + bs[4..8] + bs[8..12];
  }

  /** Written records, embedded anywhere, parse back to themselves and the
      cursor lands right after them. */
  lemma {:induction false} WriteThenParseStorage(ss: seq<Storage>, data: seq<Byte>, pos: nat)
    requires 12 * |ss| < SIZE_LIMIT
    requires forall k :: 0 <= k < |ss| ==> Writable(ss[k])
    ensures WriteGeneralStorage(ss).Ok?
    ensures var w := WriteGeneralStorage(ss).value;
      pos + |w| <= |data| && data[pos..pos + |w|] == w
      ==> ParseGeneralStorage(data, pos) == Ok((ss, pos + |w|))
  {
    forall k | 0 <= k < |ss|
      ensures EncodeRecord(ss[k]).Ok?
    {
      RecordRoundTrip(ss[k]);
    }
    var w := WriteGeneralStorage(ss).value;
    if pos + |w| <= |data| && data[pos..pos + |w|] == w {
      ParseWritten(ss, data, pos);
    }
  }

  lemma {:induction false} ParseWritten(ss: seq<Storage>, data: seq<Byte>, pos: nat)
    requires forall k :: 0 <= k < |ss| ==> Writable(ss[k])
    requires WriteGeneralStorage(ss).Ok?
    requires var w := WriteGeneralStorage(ss).value; pos + |w| <= |data| && data[pos..pos + |w|] == w
    ensures ParseGeneralStorage(data, pos) == Ok((ss, pos + 4 + 12 * |ss|))
  {
    var w := WriteGeneralStorage(ss).value;
    var n, start, end := |ss|, pos + 4, pos + |w|;
    assert end == start + 12 * n;
    PrefixAndRest(data, pos, start, end, w);
    ParseWrittenParts(ss, data, pos, start, end, n);
  }

  /** A size prefix of 12 |ss| followed by the encoded records parses back. */
  lemma {:induction false} ParseWrittenParts(ss: seq<Storage>, data: seq<Byte>, pos: nat, start: nat, end: nat, n: nat)
    requires n == |ss| && start == pos + 4 && end == start + 12 * n && end <= |data|
    requires forall k :: 0 <= k < |ss| ==> Writable(ss[k])
    requires EncodeRecords(ss).Ok?
    requires FromBE(data[pos..start]) == 12 * n && data[start..end] == EncodeRecords(ss).value
    ensures ParseGeneralStorage(data, pos) == Ok((ss, end))
  {
    RecordsRoundTrip(ss, data, start);
    ParseStorageOf(data, pos, start, end, n, ss);
  }

  /** A size prefix of 12n and n records after it parse as those records. */
  lemma {:induction false} ParseStorageOf(data: seq<Byte>, pos: nat, start: nat, end: nat, n: nat, ss: seq<Storage>)
    requires start == pos + 4 && end == start + 12 * n && end <= |data|
    requires FromBE(data[pos..start]) == 12 * n
    requires DecodeRecords(data, start, n) == ss
    ensures ParseGeneralStorage(data, pos) == Ok((ss, end))
  {
    var size := 12 * n;
    TwelveTimes(n);
    assert data[pos..pos + 4] == data[pos..start];
    assert ReadChunkSize(data, pos) == Ok((size, start));
    assert size % 12 == 0 && size / 12 == n && start + size == end;
  }

  lemma {:induction false} TwelveTimes(n: nat)
    ensures (12 * n) % 12 == 0 && (12 * n) / 12 == n
  {
  }

  /** Bytes found at `pos` split into their size prefix and the rest. */
  lemma {:induction false} PrefixAndRest(data: seq<Byte>, pos: nat, start: nat, end: nat, w: seq<Byte>)
    requires 4 <= |w| && start == pos + 4 && end == pos + |w| && end <= |data| && data[pos..end] == w
    ensures data[pos..start] == w[..4] && data[start..end] == w[4..]
  {
    assert data[pos..start] == data[pos..end][..4];
    assert data[start..end] == data[pos..end][4..];
  }

  /** Written records embedded at `start` decode back to themselves. */
  lemma {:induction false} RecordsRoundTrip(ss: seq<Storage>, data: seq<Byte>, start: nat)
    requires forall k :: 0 <= k < |ss| ==> Writable(ss[k])
    requires EncodeRecords(ss).Ok?
    requires start + 12 * |ss| <= |data| && data[start..start + 12 * |ss|] == EncodeRecords(ss).value
    ensures DecodeRecords(data, start, |ss|) == ss
  {
    var parsed := DecodeRecords(data, start, |ss|);
    forall k | 0 <= k < |ss|
      ensures parsed[k] == ss[k]
    {
      RecordAtRoundTrip(ss, data, start, k);
    }
  }

  lemma {:induction false} RecordAtRoundTrip(ss: seq<Storage>, data: seq<Byte>, start: nat, k: nat)
    requires k < |ss| && Writable(ss[k])
    requires EncodeRecords(ss).Ok?
    requires start + 12 * |ss| <= |data| && data[start..start + 12 * |ss|] == EncodeRecords(ss).value
    ensures DecodeRecords(data, start, |ss|)[k] == ss[k]
  {
    var body := EncodeRecords(ss).value;
    DecodeRecordsAt(data, start, |ss|, k);
    EncodeRecordsAt(ss, k);
    var x := data[start + 12 * k..start + 12 * k + 12];
    assert forall i :: 0 <= i < 12 ==> x[i] == body[12 * k + i];
    assert x == body[12 * k..12 * k + 12];
    RecordRoundTrip(ss[k]);
  }

  /** A parsed chunk whose selectors are all int or float writes back to the
      bytes it was parsed from. */
  lemma {:induction false} ParseThenWriteStorage(data: seq<Byte>, pos: nat)
    requires ParseGeneralStorage(data, pos).Ok?
    requires AllIntOrFloat(ParseGeneralStorage(data, pos).value.0)
    ensures WriteGeneralStorage(ParseGeneralStorage(data, pos).value.0)
         == Ok(data[pos..ParseGeneralStorage(data, pos).value.1])
  {
    var n := FromBE(data[pos..pos + 4]) / 12;
    var start := pos + 4;
    var end := ParseGeneralStorage(data, pos).value.1;
    assert FromBE(data[pos..start]) == 12 * n && end == start + 12 * n;
    StorageBytesRoundTrip(data, pos, start, end, n);
  }

  /** A size prefix and the records after it write back to themselves. */
  lemma {:induction false} StorageBytesRoundTrip(data: seq<Byte>, pos: nat, start: nat, end: nat, n: nat)
    requires start == pos + 4 && end == start + 12 * n && end <= |data|
    requires FromBE(data[pos..start]) == 12 * n
    requires AllIntOrFloat(DecodeRecords(data, start, n))
    ensures WriteGeneralStorage(DecodeRecords(data, start, n)) == Ok(data[pos..end])
  {
    var ss := DecodeRecords(data, start, n);
    StorageParts(data, pos, start, end, n);
    WriteStorageOf(ss, data[pos..start], data[start..end]);
    SliceJoin(data, pos, start, end);
  }

  /** The size prefix and the records after it each write back. */
  lemma {:induction false} StorageParts(data: seq<Byte>, pos: nat, start: nat, end: nat, n: nat)
    requires start == pos + 4 && end == start + 12 * n && end <= |data|
    requires FromBE(data[pos..start]) == 12 * n
    requires AllIntOrFloat(DecodeRecords(data, start, n))
    ensures WriteChunkSize(12 * n) == Ok(data[pos..start])
    ensures EncodeRecords(DecodeRecords(data, start, n)) == Ok(data[start..end])
  {
    RecordsBytesRoundTrip(data, start, n);
    PrefixWrites(data[pos..start]);
  }

  /** The chunk written for records is their size prefix and their bytes. */
  lemma {:induction false} WriteStorageOf(ss: seq<Storage>, prefix: seq<Byte>, body: seq<Byte>)
    requires WriteChunkSize(12 * |ss|) == Ok(prefix) && EncodeRecords(ss) == Ok(body)
    ensures WriteGeneralStorage(ss) == Ok(prefix + body)
  {
  }

  /** Four bytes read as a size write back as themselves. */
  lemma {:induction false} PrefixWrites(prefix: seq<Byte>)
    requires |prefix| == 4
    ensures WriteChunkSize(FromBE(prefix)) == Ok(prefix)
  {
    SizeLimitIsPow();
    ToFromBE(prefix);
  }

  lemma {:induction false} SliceJoin(s: seq<Byte>, a: nat, b: nat, c: nat)
    requires a <= b <= c <= |s|
    ensures s[a..c] == s[a..b] + s[b..c]
  {
  }

  /** Records decoded from bytes encode back to the same bytes when every
      selector is int or float. */
  lemma {:induction false} RecordsBytesRoundTrip(data: seq<Byte>, start: nat, n: nat)
    requires start + 12 * n <= |data|
    requires AllIntOrFloat(DecodeRecords(data, start, n))
    ensures EncodeRecords(DecodeRecords(data, start, n)) == Ok(data[start..start + 12 * n])
  {
    var ss := DecodeRecords(data, start, n);
    var bs := data[start..start + 12 * n];
    forall k | 0 <= k < n
      ensures EncodeRecord(ss[k]) == Ok(bs[12 * k..12 * k + 12])
    {
      RecordBytesRoundTrip(data, start, n, k);
    }
    EncodeRecordsConcat(ss, bs);
  }

  /** The k-th record of a decoded run encodes back to its 12 bytes. */
  lemma {:induction false} RecordBytesRoundTrip(data: seq<Byte>, start: nat, n: nat, k: nat)
    requires start + 12 * n <= |data| && k < n
    requires IntOrFloat(DecodeRecords(data, start, n)[k])
    ensures EncodeRecord(DecodeRecords(data, start, n)[k]) == Ok(data[start..start + 12 * n][12 * k..12 * k + 12])
  {
    var x := data[start + 12 * k..start + 12 * k + 12];
    var whole := data[start..start + 12 * n];
    assert forall i :: 0 <= i < 12 ==> whole[12 * k..12 * k + 12][i] == whole[12 * k + i] == x[i];
    assert whole[12 * k..12 * k + 12] == x;
    DecodeRecordsAt(data, start, n, k);
    DecodeEncodeRecord(x);
  }

  /** Records that each encode to their 12-byte slot encode, together, to
      the whole. */
  lemma {:induction false} EncodeRecordsConcat(ss: seq<Storage>, bs: seq<Byte>)
    requires |bs| == 12 * |ss|
    requires forall k :: 0 <= k < |ss| ==> EncodeRecord(ss[k]) == Ok(bs[12 * k..12 * k + 12])
    ensures EncodeRecords(ss) == Ok(bs)
  {
    if |ss| > 0 {
      forall k | 0 <= k < |ss| - 1
        ensures EncodeRecord(ss[1..][k]) == Ok(bs[12..][12 * k..12 * k + 12])
      {
        assert bs[12..][12 * k..12 * k + 12] == bs[12 * (k + 1)..12 * (k + 1) + 12];
      }
      EncodeRecordsConcat(ss[1..], bs[12..]);
      assert bs == bs[..12] + bs[12..];
    }
  }
}
