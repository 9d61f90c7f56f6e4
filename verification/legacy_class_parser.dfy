/** The legacy class-based reader `ImodModelFileParser`
    (`imodmodel/parser.py`) and the classes it fills
    (`imodmodel/data_structures.py`). It pairs each table's keys with the
    unpacked values by position, reads control sequences four bytes at a
    time without skipping the chunks it does not know, and keeps only the
    contours of each object. */
module LegacyClassParser {
  import opened Wrappers
  import opened Bytes
  import opened FormatCodes
  import opened FieldCodec
  import opened Layouts
  import opened Framing
  import opened GeneralStorage
  import opened Models
  import opened Parsers
  import opened Writers
  import opened ModelWriter
  import opened LegacyLayouts

  // ---------------------------------------------------------- zip records

  /** `zip(specification.keys(), data)` from value `i` on: the k-th key
      with the (i+k)-th value, as far as the shorter of the two goes. */
  function ZipPairs(t: Table, vals: seq<Value>, i: nat): (r: seq<(string, Field)>)
    ensures |r| == Min(|t|, if i <= |vals| then |vals| - i else 0)
    ensures forall k :: 0 <= k < |r| ==> r[k] == (t[k].name, Single(vals[i + k]))
    decreases |t|
  {
    if |t| == 0 || i >= |vals| then []
    else [(t[0].name, Single(vals[i]))] + ZipPairs(t[1..], vals, i + 1)
  }

  /** `parse_from_constant_specification`: the table's bytes unpacked and
      the keys paired with the values by position. */
  function ParseZip(t: Table, data: seq<Byte>, pos: nat): (r: Result<(Record, nat)>)
    ensures r.Ok? <==> pos + TableWidth(t) <= |data|
    ensures r.Ok? ==> r.value.1 == pos + TableWidth(t)
  {
    var w := TableWidth(t);
    if pos + w > |data| then Err(Truncated)
    else Ok((ToRecord(ZipPairs(t, UnpackTable(t, data[pos..pos + w]), 0)), pos + w))
  }

  /** A table every entry of which yields one value and is not a repeat
      field: zipping and grouping cannot tell such a table apart. */
  predicate SingleValued(t: Table)
  {
    forall k :: 0 <= k < |t| ==> !IsRepeatField(t[k].code) && ValueCount(t[k].code) == 1
  }

  lemma {:induction false} SingleValuedTail(t: Table)
    requires |t| > 0 && SingleValued(t)
    ensures SingleValued(t[1..])
  {
    assert forall k :: 0 <= k < |t| - 1 ==> t[1..][k] == t[k + 1];
  }

  lemma {:induction false} SingleValuedCount(t: Table)
    requires SingleValued(t)
    ensures TableValueCount(t) == |t|
  {
    if |t| > 0 {
      SingleValuedTail(t);
      SingleValuedCount(t[1..]);
    }
  }

  /** On a single-valued table the zip is the grouping loop of
      `_parse_from_specification`. */
  lemma {:induction false} ZipIsGrouping(t: Table, vals: seq<Value>, i: nat)
    requires SingleValued(t) && i + |t| <= |vals|
    ensures GroupFrom(t, vals, i) == Ok(ZipPairs(t, vals, i))
    decreases |t|
  {
    if |t| > 0 {
      SingleValuedTail(t);
      ZipIsGrouping(t[1..], vals, i + 1);
    }
  }

  /** Zipped and grouped decoding agree on every single-valued table. */
  lemma {:induction false} ZipAgrees(t: Table, data: seq<Byte>, pos: nat)
    requires SingleValued(t)
    ensures ParseZip(t, data, pos) == ParseSpec(t, data, pos)
  {
    var w := TableWidth(t);
    if pos + w <= |data| {
      var vals := UnpackTable(t, data[pos..pos + w]);
      AtomsCount(t);
      SingleValuedCount(t);
      ZipIsGrouping(t, vals, 0);
    }
  }

  /** `id_spec`, `header_spec` and `imat_spec` are single-valued. */
  lemma {:induction false} ClassTablesSingleValued()
    ensures SingleValued(IdSpec()) && SingleValued(HeaderSpec()) && SingleValued(ImatSpec())
  {
  }

  /** So is the current `MODEL_HEADER`, which `header_spec` equals. */
  lemma {:induction false} ModelHeaderSingleValued()
    ensures SingleValued(ModelHeader())
  {
    HeaderSpecMatches();
    ClassTablesSingleValued();
  }

  /** `object_spec` is not: its `16I` entry yields sixteen values. */
  lemma {:induction false} ObjectSpecRepeats()
    ensures !SingleValued(ObjectSpec())
  {
    assert IsRepeatField(ObjectSpec()[1].code);
  }

  // ------------------------------------------------ the object header

  /** The values a conforming record is written as, in table order. */
  lemma {:induction false} WrittenValues(t: Table, m: Record, bs: seq<Byte>)
    requires Codable(t) && Conforms(t, m) && WriteSpec(t, m) == Ok(bs)
    ensures |bs| == TableWidth(t)
    ensures UnpackTable(t, bs) == PairsValues(FieldsOf(t, m))
  {
    var pairs := FieldsOf(t, m);
    assert PairsMatch(t, pairs);
    FlattenPairs(t, m, pairs);
    var flat := PairsValues(pairs);
    PairsValuesFit(t, pairs);
    UnpackPackAtoms(Atoms(t), flat);
    AtomsTableWidth(t);
  }

  lemma {:induction false} PairsValuesTwo(pairs: seq<(string, Field)>)
    requires |pairs| >= 2
    ensures PairsValues(pairs) == FieldFlat(pairs[0].1) + FieldFlat(pairs[1].1) + PairsValues(pairs[2..])
  {
    assert pairs[1..][1..] == pairs[2..];
  }

  /** A written record whose second entry is a repeat field: its values
      come right after the first entry's one value. */
  lemma {:induction false} LeadingRepeatValues(t: Table, m: Record, bs: seq<Byte>)
    requires Codable(t) && Conforms(t, m) && WriteSpec(t, m) == Ok(bs) && |t| >= 2
    requires !IsRepeatField(t[0].code) && IsRepeatField(t[1].code)
    ensures |bs| == TableWidth(t)
    ensures t[1].name in m && m[t[1].name].Group? && |m[t[1].name].vs| == Count(t[1].code)
    ensures var vals := UnpackTable(t, bs);
      |vals| >= 1 + Count(t[1].code) && vals[1..1 + Count(t[1].code)] == m[t[1].name].vs
  {
    WrittenValues(t, m, bs);
    var pairs := FieldsOf(t, m);
    var f0, f1 := m[t[0].name], m[t[1].name];
    assert t[0].name in NameSet(t) && t[1].name in NameSet(t);
    assert FieldConforms(t[0].code, f0) && FieldConforms(t[1].code, f1);
    assert pairs[0].1 == f0 && pairs[1].1 == f1;
    PairsValuesTwo(pairs);
    assert |FieldFlat(f0)| == 1;
  }

  /** The entries of `object_spec`, which is `OBJECT_HEADER`, that the
      zip shifts. */
  lemma {:induction false} ObjectHeaderLeading()
    ensures Codable(ObjectHeader()) && |ObjectHeader()| == 20 && TableWidth(ObjectHeader()) == 176
    ensures ObjectHeader()[0] == Many("name", 64, Str) && ObjectHeader()[1] == Many("extra_data", 16, UInt)
    ensures ObjectHeader()[2] == One("contsize", Int)
  {
    ObjectHeaderCodable();
    ObjectHeaderWidth();
  }

  /** `parse_from_constant_specification(object_spec)` on a written object
      header: `16I` yields sixteen values for the one key `extra_data`, so
      that key takes the first word, `contsize` the second, and every key
      after them a value fifteen places early. The record never comes back
      as written. */
  lemma {:induction false} ObjectZipShift(h: Record, hb: seq<Byte>, data: seq<Byte>, p: nat, q: nat)
    requires Conforms(ObjectHeader(), h) && WriteSpec(ObjectHeader(), h) == Ok(hb) && At(data, p, q, hb)
    ensures ParseZip(ObjectHeader(), data, p).Ok? && ParseZip(ObjectHeader(), data, p).value.1 == q
    ensures "extra_data" in h && h["extra_data"].Group? && |h["extra_data"].vs| == 16
    ensures var r := ParseZip(ObjectHeader(), data, p).value.0;
      && "extra_data" in r && r["extra_data"] == Single(h["extra_data"].vs[0])
      && "contsize" in r && r["contsize"] == Single(h["extra_data"].vs[1])
      && r != h
  {
    ObjectHeaderLeading();
    ZipShiftOf(ObjectHeader(), h, hb, data, p, q);
  }

  /** The zip of a written record whose second entry is a repeat field. */
  lemma {:induction false} ZipShiftOf(t: Table, h: Record, hb: seq<Byte>, data: seq<Byte>, p: nat, q: nat)
    requires Codable(t) && Conforms(t, h) && WriteSpec(t, h) == Ok(hb) && At(data, p, q, hb) && |t| >= 3
    requires !IsRepeatField(t[0].code) && IsRepeatField(t[1].code) && Count(t[1].code) >= 2
    ensures ParseZip(t, data, p).Ok? && ParseZip(t, data, p).value.1 == q
    ensures t[1].name in h && h[t[1].name].Group? && |h[t[1].name].vs| == Count(t[1].code)
    ensures var r := ParseZip(t, data, p).value.0;
      && t[1].name in r && r[t[1].name] == Single(h[t[1].name].vs[0])
      && t[2].name in r && r[t[2].name] == Single(h[t[1].name].vs[1])
      && r != h
  {
    LeadingRepeatValues(t, h, hb);
    ZipShiftAt(t, h, hb, data, p, q);
  }

  lemma {:induction false} ZipShiftAt(t: Table, h: Record, hb: seq<Byte>, data: seq<Byte>, p: nat, q: nat)
    requires Codable(t) && |t| >= 3 && At(data, p, q, hb) && |hb| == TableWidth(t)
    requires t[1].name in h && h[t[1].name].Group? && |h[t[1].name].vs| >= 2
    requires var vals := UnpackTable(t, hb);
      |vals| >= 1 + |h[t[1].name].vs| && vals[1..1 + |h[t[1].name].vs|] == h[t[1].name].vs
    ensures ParseZip(t, data, p).Ok? && ParseZip(t, data, p).value.1 == q
    ensures var r := ParseZip(t, data, p).value.0;
      && t[1].name in r && r[t[1].name] == Single(h[t[1].name].vs[0])
      && t[2].name in r && r[t[2].name] == Single(h[t[1].name].vs[1])
      && r != h
  {
    var vals := UnpackTable(t, hb);
    assert data[p..p + TableWidth(t)] == hb;
    var zp := ZipPairs(t, vals, 0);
    var vs := h[t[1].name].vs;
    assert vals[1] == vals[1..1 + |vs|][0] && vals[2] == vals[1..1 + |vs|][1];
    ToRecordLookup(zp, 1);
    ToRecordLookup(zp, 2);
  }

  /** The object header read by the grouping of `_parse_from_specification`
      instead: a written header comes back as written. */
  lemma {:induction false} ObjectHeaderGrouped(h: Record, hb: seq<Byte>, data: seq<Byte>, p: nat, q: nat)
    requires Conforms(ObjectHeader(), h) && WriteSpec(ObjectHeader(), h) == Ok(hb) && At(data, p, q, hb)
    ensures ClassObjectHeader(Corrected, data, p) == Ok((h, q))
  {
    ObjectHeaderCodable();
    ObjectHeaderWidth();
    WriteSpecWidth(ObjectHeader(), h);
    HeaderAt(ObjectHeader(), h, hb, data, p, q);
  }

  /** `parse_object`'s header, by `object_spec` (which is `OBJECT_HEADER`):
      zipped as written, grouped when corrected. */
  function ClassObjectHeader(mode: Mode, data: seq<Byte>, pos: nat): (r: Result<(Record, nat)>)
    ensures r.Ok? <==> pos + 176 <= |data|
    ensures r.Ok? ==> r.value.1 == pos + 176
  {
    ObjectHeaderWidth();
    if mode == AsWritten then ParseZip(ObjectHeader(), data, pos)
    else if pos + 176 > |data| then Err(Truncated)
    else
      ObjectHeaderName(data, pos);
      ParseSpec(ObjectHeader(), data, pos)
  }

  // --------------------------------------------------- control sequences

  /** The text `'EOF'` the object loop also stops at. */
  const EOF_TEXT: seq<Byte> := [0x45, 0x4F, 0x46]

  /** `update_control_sequence`: up to four bytes, decoded as UTF-8, or
      `None` when they do not decode. At the end of the file it reads
      nothing and decodes the empty text. */
  function ReadControl(data: seq<Byte>, pos: nat): (r: (Option<seq<Byte>>, nat))
    requires pos <= |data|
    ensures r.1 == Min(pos + 4, |data|)
    ensures r.0.Some? <==> ValidUtf8(data[pos..r.1])
    ensures r.0.Some? ==> r.0.value == data[pos..r.1]
  {
    var next := Min(pos + 4, |data|);
    if ValidUtf8(data[pos..next]) then (Some(data[pos..next]), next) else (None, next)
  }

  /** `self.control_sequence in ('OBJT', 'IEOF', 'EOF')`. */
  predicate EndsObject(control: Option<seq<Byte>>)
  {
    control.Some? && (control.value == OBJT || control.value == IEOF || control.value == EOF_TEXT)
  }

  lemma {:induction false} AsciiControl(tag: Tag, data: seq<Byte>, p: nat, q: nat)
    requires |tag| == 4 && IsAscii(tag) && At(data, p, q, tag)
    ensures ReadControl(data, p) == (Some(tag), q)
  {
    AsciiIsUtf8(tag);
  }

  // ------------------------------------------------------------- contour

  /** A contour as `parse_contour` fills it: the four header attributes,
      `psize` read unsigned, and the points. */
  datatype ClassContour = ClassContour(attributes: Record, points: seq<Point>)

  /** `parse_contour`: `psize` as an unsigned word, then `'>Iii'` and
      `3 * psize` floats in one unpack. The `'>Iii'` words are those of the
      contour header, so the attributes are the decoded header with `psize`
      replaced by its unsigned reading. A short read fails the unpack. */
  function ParseClassContour(data: seq<Byte>, pos: nat): (r: Result<(ClassContour, nat)>)
    ensures r.Ok? <==> pos + 16 <= |data| && pos + 16 + 12 * FromBE(data[pos..pos + 4]) <= |data|
    ensures r.Ok? ==> var n := FromBE(data[pos..pos + 4]);
      && r.value.1 == pos + 16 + 12 * n
      && "psize" in r.value.0.attributes && r.value.0.attributes["psize"] == Single(IntVal(n))
      && |r.value.0.points| == n
      && (forall k :: 0 <= k < n ==> r.value.0.points[k] == PointAt(data, pos + 16 + 12 * k))
  {
    if pos + 16 > |data| then Err(Truncated)
    else
      var n := FromBE(data[pos..pos + 4]);
      ContourHeaderSize(data, pos);
      var (header, body) := ParseSpec(ContourHeader(), data, pos).value;
      var (points, next) :- ParsePoints(data, body, n);
      Ok((ClassContour(header["psize" := Single(IntVal(n))], points), next))
  }

  /** A count below 2^31 reads the same signed and unsigned. */
  lemma {:induction false} SmallCountSigned(bs: seq<Byte>)
    requires |bs| == 4 && FromBE(bs) < 0x8000_0000
    ensures Int32(bs) == FromBE(bs)
  {
  }

  /** Below 2^31 points, `parse_contour` and the current `_parse_contour`
      read the same contour. */
  lemma {:induction false} ClassContourAgrees(data: seq<Byte>, pos: nat)
    requires pos + 16 <= |data| && FromBE(data[pos..pos + 4]) < 0x8000_0000
    ensures ParseClassContour(data, pos).Ok? <==> ParseContour(data, pos).Ok?
    ensures ParseContour(data, pos).Ok? ==>
      var (c, next) := ParseContour(data, pos).value;
      ParseClassContour(data, pos) == Ok((ClassContour(c.header, c.points), next))
  {
    SmallCountSigned(data[pos..pos + 4]);
    ContourHeaderSize(data, pos);
    var header := ParseSpec(ContourHeader(), data, pos).value.0;
    assert header["psize" := Single(IntVal(FromBE(data[pos..pos + 4])))] == header;
  }

  /** From 2^31 on the two part: the current reader takes the count as
      negative and reads no points, `parse_contour` asks for more than
      24 GiB of points. */
  lemma {:induction false} ClassContourUnsigned(data: seq<Byte>, pos: nat)
    requires pos + 16 <= |data| && FromBE(data[pos..pos + 4]) >= 0x8000_0000
    ensures ParseContour(data, pos) == Ok((NewContour(ParseSpec(ContourHeader(), data, pos).value.0, []), pos + 16))
    ensures ParseClassContour(data, pos).Ok? ==> |data| >= pos + 16 + 12 * 0x8000_0000
  {
    ContourHeaderSize(data, pos);
  }

  // -------------------------------------------------------------- object

  /** An `Object` as `parse_object` fills it. An IMAT chunk leaves only a
      mark: `add_data` stores the class `Imat`, not the record read. */
  datatype ClassObject = ClassObject(header: Record, contours: seq<ClassContour>, imatSeen: bool)

  /** One pass of the `parse_object` loop. */
  datatype ClassStep =
    | EndObject(control: Option<seq<Byte>>, next: nat)
    | StepFailed(error: Error)
    | Carry(obj: ClassObject, next: nat)

  /** One pass of the loop: a control sequence that ends the object; CONT
      and a contour; IMAT and sixteen bytes read from right after the tag,
      the chunk's size prefix among them; any other text, or none, is only
      warned about, and nothing but the four bytes is consumed. */
  function ClassObjectStep(data: seq<Byte>, pos: nat, o: ClassObject): (s: ClassStep)
    requires pos <= |data|
    ensures s.EndObject? ==> pos + 3 <= s.next <= |data| && EndsObject(s.control)
    ensures s.Carry? ==> pos <= s.next <= |data| && s.obj.header == o.header && o.contours <= s.obj.contours
    ensures s.Carry? && s.obj.contours != o.contours ==> s.obj.contours == o.contours + [s.obj.contours[|o.contours|]]
  {
    var (control, after) := ReadControl(data, pos);
    if EndsObject(control) then EndObject(control, after)
    else if control == Some(CONT) then
      match ParseClassContour(data, after)
      case Err(e) => StepFailed(e)
      case Ok((c, next)) => Carry(ClassObject(o.header, o.contours + [c], o.imatSeen), next)
    else if control == Some(IMAT) then
      match ParseClassImat(data, after)
      case Err(e) => StepFailed(e)
      case Ok((_, next)) => Carry(ClassObject(o.header, o.contours, true), next)
    else Carry(o, after)
  }

  /** `parse_imat`: `imat_spec`, which is `Imat()` entry for entry
      (`ImatSpecMatches`), zipped from where it is called: right after the
      tag. */
  function ParseClassImat(data: seq<Byte>, pos: nat): (r: Result<(Record, nat)>)
    ensures r.Ok? <==> pos + 16 <= |data|
    ensures r.Ok? ==> r.value.1 == pos + 16
  {
    ImatWidth();
    ParseZip(Imat(), data, pos)
  }

  /** How the `parse_object` loop ends within a bound on its passes. */
  datatype ObjectOutcome =
    | Ended(obj: ClassObject, control: Option<seq<Byte>>, next: nat)
    | ObjectFailed(error: Error)
    | Spinning

  /** The `while end_of_object is False` loop, for at most `fuel` passes. */
  function ClassObjectLoop(fuel: nat, data: seq<Byte>, pos: nat, o: ClassObject): (r: ObjectOutcome)
    requires pos <= |data|
    ensures r.Ended? ==> pos + 3 <= r.next <= |data| && EndsObject(r.control)
    ensures r.Ended? ==> r.obj.header == o.header && o.contours <= r.obj.contours
    decreases fuel
  {
    if fuel == 0 then Spinning
    else
      match ClassObjectStep(data, pos, o)
      case EndObject(control, next) => Ended(o, control, next)
      case StepFailed(e) => ObjectFailed(e)
      case Carry(o', next) => ClassObjectLoop(fuel - 1, data, next, o')
  }

  /** `parse_object`: the header, then the loop. */
  function ClassParseObject(mode: Mode, fuel: nat, data: seq<Byte>, pos: nat): (r: ObjectOutcome)
    requires pos <= |data|
    ensures r.Ended? ==> pos + 179 <= r.next <= |data| && EndsObject(r.control)
  {
    match ClassObjectHeader(mode, data, pos)
    case Err(e) => ObjectFailed(e)
    case Ok((h, body)) => ClassObjectLoop(fuel, data, body, ClassObject(h, [], false))
  }

  /** CONT and a contour that reads: the pass adds the contour. */
  lemma {:induction false} ClassContourPass(data: seq<Byte>, pos: nat, after: nat, c: ClassContour, next: nat, o: ClassObject)
    requires pos <= |data| && ReadControl(data, pos).0 == Some(CONT) && ReadControl(data, pos).1 == after
    requires ParseClassContour(data, after) == Ok((c, next))
    ensures ClassObjectStep(data, pos, o) == Carry(ClassObject(o.header, o.contours + [c], o.imatSeen), next)
  {
    TagsDistinct();
    assert CONT != EOF_TEXT;
  }

  /** Once the header is read, `parse_object` is the loop from there. */
  lemma {:induction false} ClassObjectHeaded(mode: Mode, fuel: nat, data: seq<Byte>, pos: nat, h: Record, body: nat)
    requires pos <= |data| && ClassObjectHeader(mode, data, pos) == Ok((h, body))
    ensures ClassParseObject(mode, fuel, data, pos) == ClassObjectLoop(fuel, data, body, ClassObject(h, [], false))
  {
  }

  /** At the end of the file the loop reads the empty text, which neither
      ends the object nor names a parser, for ever: `'EOF'` is never what
      a read at the end returns. */
  lemma {:induction false} ClassSpinsAtEnd(fuel: nat, data: seq<Byte>, o: ClassObject)
    ensures ClassObjectLoop(fuel, data, |data|, o) == Spinning
    decreases fuel
  {
    if fuel > 0 {
      assert data[|data|..|data|] == [];
      assert ClassObjectStep(data, |data|, o) == Carry(o, |data|);
      ClassSpinsAtEnd(fuel - 1, data, o);
    }
  }

  /** An IEOF tag ends the object where it stands. */
  lemma {:induction false} ClassStopsAtIeof(fuel: nat, data: seq<Byte>, pos: nat, q: nat, o: ClassObject)
    requires fuel > 0 && At(data, pos, q, IEOF)
    ensures ClassObjectLoop(fuel, data, pos, o) == Ended(o, Some(IEOF), q)
  {
    TagsAreAscii();
    AsciiControl(IEOF, data, pos, q);
  }

  /** A tag other than CONT, IMAT, OBJT and IEOF is passed over by its four
      bytes alone: the chunk after it is read as more control sequences,
      where the current reader skips it by its size. */
  lemma {:induction false} ClassUnknownTag(tag: Tag, data: seq<Byte>, pos: nat, q: nat, o: ClassObject)
    requires |tag| == 4 && IsAscii(tag) && At(data, pos, q, tag)
    requires tag != CONT && tag != IMAT && tag != OBJT && tag != IEOF
    ensures ClassObjectStep(data, pos, o) == Carry(o, q)
  {
    AsciiControl(tag, data, pos, q);
    assert tag != EOF_TEXT;
  }

  // ---------------------------------------------------------------- file

  /** The model `parse_file` builds: the identifier, the header as decoded,
      and the objects. */
  datatype ClassModel = ClassModel(id: Record, header: Record, objects: seq<ClassObject>)

  /** How `parse_file` ends when each object's loop is given `fuel` passes. */
  datatype FileOutcome = Parsed(model: ClassModel) | FileFailed(error: Error) | FileSpinning

  /** `while self.control_sequence == 'OBJT': self.parse_object()`. */
  function ClassObjects(mode: Mode, fuel: nat, data: seq<Byte>, pos: nat, control: Option<seq<Byte>>,
                        objs: seq<ClassObject>): (r: Result<Option<seq<ClassObject>>>)
    requires pos <= |data|
    ensures r.Ok? && r.value.Some? ==> objs <= r.value.value
    decreases |data| - pos
  {
    if control != Some(OBJT) then Ok(Some(objs))
    else
      match ClassParseObject(mode, fuel, data, pos)
      case ObjectFailed(e) => Err(e)
      case Spinning => Ok(None)
      case Ended(o, c, next) => ClassObjects(mode, fuel, data, next, c, objs + [o])
  }

  /** An object that ends leaves the loop to the control that ended it. */
  lemma {:induction false} ClassObjectsNext(mode: Mode, fuel: nat, data: seq<Byte>, pos: nat, o: ClassObject, control: Option<seq<Byte>>,
                         next: nat, objs: seq<ClassObject>)
    requires pos <= |data| && ClassParseObject(mode, fuel, data, pos) == Ended(o, control, next)
    ensures ClassObjects(mode, fuel, data, pos, Some(OBJT), objs) == ClassObjects(mode, fuel, data, next, control, objs + [o])
  {
  }

  /** `parse_id`: `id_spec` zipped from the start of the file. */
  function ParseClassId(data: seq<Byte>): (r: Result<(Record, nat)>)
    ensures r.Ok? <==> 8 <= |data|
    ensures r.Ok? ==> r.value.1 == 8
    ensures r.Ok? ==> r.value.0 == IdRecord(data[0..4], data[4..8])
  {
    IdSpecMatches();
    IdWidth();
    ClassTablesSingleValued();
    ZipAgrees(IdSpec(), data, 0);
    if 8 <= |data| then
      IdFields(data, 0);
      ParseZip(IdSpec(), data, 0)
    else ParseZip(IdSpec(), data, 0)
  }

  /** `parse_header`: `header_spec`, which is `ModelHeader()` entry for
      entry (`HeaderSpecMatches`), zipped; the name is left as decoded. */
  function ParseClassHeader(data: seq<Byte>, pos: nat): (r: Result<(Record, nat)>)
    ensures r.Ok? <==> pos + 232 <= |data|
    ensures r.Ok? ==> r.value.1 == pos + 232
    ensures r == ParseSpec(ModelHeader(), data, pos)
  {
    ModelHeaderWidth();
    ModelHeaderSingleValued();
    ZipAgrees(ModelHeader(), data, pos);
    ParseZip(ModelHeader(), data, pos)
  }

  /** `parse_file`: the identifier and the header, then the objects.
      `fuel` bounds each object's loop; `FileSpinning` is a loop that did
      not end within it. */
  function ParseClassFile(mode: Mode, fuel: nat, data: seq<Byte>): (r: FileOutcome)
    ensures r.Parsed? ==> 240 <= |data|
    ensures |data| < 240 ==> r == FileFailed(Truncated)
    ensures 240 <= |data| ==>
      var control := ReadControl(data, 240);
      && (r.Parsed? <==> ClassObjects(mode, fuel, data, control.1, control.0, []).Ok?
                         && ClassObjects(mode, fuel, data, control.1, control.0, []).value.Some?)
      && (r.FileSpinning? <==> ClassObjects(mode, fuel, data, control.1, control.0, []) == Ok(None))
    ensures r.Parsed? ==>
      && r.model.id == IdRecord(data[0..4], data[4..8])
      && ParseSpec(ModelHeader(), data, 8) == Ok((r.model.header, 240))
      && var control := ReadControl(data, 240);
         ClassObjects(mode, fuel, data, control.1, control.0, []) == Ok(Some(r.model.objects))
  {
    match ParseClassId(data)
    case Err(e) => FileFailed(e)
    case Ok((id, afterId)) =>
      match ParseClassHeader(data, afterId)
      case Err(e) => FileFailed(e)
      case Ok((header, afterHeader)) =>
        var (control, after) := ReadControl(data, afterHeader);
        match ClassObjects(mode, fuel, data, after, control, [])
        case Err(e) => FileFailed(e)
        case Ok(None) => FileSpinning
        case Ok(Some(objs)) => Parsed(ClassModel(id, header, objs))
  }
}
