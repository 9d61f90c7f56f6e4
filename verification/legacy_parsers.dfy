/** The functional reader of the legacy `imodmodel` package
    (`imodmodel/parsers.py`): an object reads as many contours as its
    header's `contsize` says, and at the top level only OBJT and IMAT
    chunks are read; every other chunk is skipped by its size prefix.
    The source takes its tables from a `specifications` module that is
    not part of this model; contour headers are read here with the
    current 16-byte `ContourHeader()` table. */
module LegacyParsers {
  import opened Wrappers
  import opened Bytes
  import opened FormatCodes
  import opened FieldCodec
  import opened Layouts
  import opened Framing
  import opened Models
  import opened Parsers

  /** An object as `_parse_object` builds it: its contours only; the
      header is read and dropped. */
  datatype LegacyObject = LegacyObject(contours: seq<Contour>)

  /** What the legacy `parse_model` loop has gathered so far. */
  datatype LegacyBody = LegacyBody(objects: seq<LegacyObject>, imat: Option<Record>)

  /** The legacy `Model(id, header, objects, imat)`: the records as
      decoded, with no name or text validation. */
  datatype LegacyModel = LegacyModel(id: Record, header: Record, objects: seq<LegacyObject>, imat: Option<Record>)

  // -------------------------------------------------------------- object

  /** The decoded object header always has a signed integer `contsize`. */
  lemma {:induction false} ContsizeField(data: seq<Byte>, pos: nat)
    requires pos + 176 <= |data|
    ensures ParseSpec(ObjectHeader(), data, pos).Ok?
    ensures ParseSpec(ObjectHeader(), data, pos).value.1 == pos + 176
    ensures IntField(ParseSpec(ObjectHeader(), data, pos).value.0, "contsize").Ok?
  {
    ObjectHeaderWidth();
    ParsedTablesCodable();
    ParseThenWrite(ObjectHeader(), data, pos);
    ConformingContsize(ParseSpec(ObjectHeader(), data, pos).value.0);
  }

  lemma {:induction false} ConformingContsize(m: Record)
    requires Conforms(ObjectHeader(), m)
    ensures IntField(m, "contsize").Ok?
  {
    assert ObjectHeader()[2] == One("contsize", Int);
    assert FieldConforms(ObjectHeader()[2].code, m[ObjectHeader()[2].name]);
  }

  /** The `contsize` of the object header at `pos`. */
  function ContsizeAt(data: seq<Byte>, pos: nat): int
    requires pos + 176 <= |data|
  {
    ContsizeField(data, pos);
    IntField(ParseSpec(ObjectHeader(), data, pos).value.0, "contsize").value
  }

  /** `cs` is a run of contours read back to back from `pos`: each one
      after a 4-byte tag, and the next tag right after its points. */
  predicate TaggedRun(data: seq<Byte>, pos: nat, cs: seq<Contour>)
    decreases |cs|
  {
    |cs| == 0 ||
    (var c := ParseContour(data, pos + 4);
     && c.Ok?
     && cs[0] == c.value.0
     && TaggedRun(data, c.value.1, cs[1..]))
  }

  /** The `for _ in range(contsize)` loop of `_parse_object`: n times, a
      tag whose four bytes are read and not compared with anything, then
      a contour. */
  function ParseTaggedContours(data: seq<Byte>, pos: nat, n: nat): (r: Result<(seq<Contour>, nat)>)
    requires pos <= |data|
    ensures r.Ok? ==> |r.value.0| == n && pos <= r.value.1 <= |data|
    ensures r.Ok? ==> forall k :: 0 <= k < n ==> r.value.0[k].extra == []
    ensures r.Ok? ==> TaggedRun(data, pos, r.value.0)
    decreases n
  {
    if n == 0 then Ok(([], pos))
    else
      var (_, after) :- ReadTagAsWritten(data, pos);
      var (c, next) :- ParseContour(data, after);
      assert after == pos + 4;
      var (rest, end) :- ParseTaggedContours(data, next, n - 1);
      ConsTail(c, rest, [c] + rest);
      Ok(([c] + rest, end))
  }

  /** Dropping the head of a sequence. */
  lemma ConsTail<T>(x: T, rest: seq<T>, cs: seq<T>)
    requires cs == [x] + rest
    ensures cs[0] == x && cs[1..] == rest
  {
  }

  /** `_parse_object`: the 176-byte header, then exactly `contsize`
      contours (none when it is negative, as `range` gives nothing). */
  function ParseLegacyObject(data: seq<Byte>, pos: nat): (r: Result<(LegacyObject, nat)>)
    ensures pos + 176 > |data| ==> r == Err(Truncated)
    ensures r.Ok? ==> pos + 176 <= r.value.1 <= |data|
    ensures r.Ok? ==> |r.value.0.contours| == Clamp(ContsizeAt(data, pos))
    ensures r.Ok? ==> TaggedRun(data, pos + 176, r.value.0.contours)
  {
    if pos + 176 > |data| then Err(Truncated)
    else
      var (cs, end) :- ParseTaggedContours(data, pos + 176, Clamp(ContsizeAt(data, pos)));
      Ok((LegacyObject(cs), end))
  }

  // ---------------------------------------------------------------- loop

  /** One branch of the legacy `parse_model` loop, for a tag other than
      IEOF whose four bytes end at `pos`. */
  function LegacyDispatch(data: seq<Byte>, pos: nat, tag: Tag, b: LegacyBody): (r: Result<(LegacyBody, nat)>)
    ensures r.Ok? ==> pos <= r.value.1 <= |data|
    ensures r.Ok? ==> b.objects <= r.value.0.objects
    ensures r.Ok? ==> |r.value.0.objects| == |b.objects| + (if tag == OBJT then 1 else 0)
    ensures r.Ok? && tag != IMAT ==> r.value.0.imat == b.imat
    ensures r.Ok? && tag == IMAT ==> r.value.0.imat.Some?
    ensures tag != OBJT && tag != IMAT ==>
      r == (var s := SkipUnknown(data, pos); if s.Ok? then Ok((b, s.value)) else Err(s.error))
    ensures tag == OBJT ==> (r.Ok? <==> ParseLegacyObject(data, pos).Ok?)
    ensures tag == OBJT && r.Ok? ==>
      && ParseLegacyObject(data, pos).Ok?
      && r.value == (b.(objects := b.objects + [ParseLegacyObject(data, pos).value.0]), ParseLegacyObject(data, pos).value.1)
    ensures tag == IMAT ==> (r.Ok? <==> pos + 20 <= |data|)
    ensures tag == IMAT && r.Ok? ==>
      && ParseImat(data, pos).Ok?
      && r.value == (b.(imat := Some(ParseImat(data, pos).value.0)), pos + 20)
  {
    if tag == OBJT then
      var (o, next) :- ParseLegacyObject(data, pos);
      Ok((b.(objects := b.objects + [o]), next))
    else if tag == IMAT then
      var (m, next) :- ParseImat(data, pos);
      Ok((b.(imat := Some(m)), next))
    else
      var next :- SkipUnknown(data, pos);
      Ok((b, next))
  }

  /** The `while control_sequence != 'IEOF'` loop from the tag at `pos`.
      Objects are only ever appended. A file that ends before an IEOF tag
      fails with `Truncated`. */
  function LegacyRun(data: seq<Byte>, pos: nat, b: LegacyBody): (r: Result<LegacyBody>)
    ensures r.Ok? ==> b.objects <= r.value.objects
    ensures r.Ok? && b.imat.Some? ==> r.value.imat.Some?
    ensures pos + 4 > |data| ==> r == Err(Truncated)
    decreases |data| - pos, 1
  {
    LegacyIteration(data, pos, b)
  }

  function LegacyIteration(data: seq<Byte>, pos: nat, b: LegacyBody): (r: Result<LegacyBody>)
    ensures r.Ok? ==> b.objects <= r.value.objects
    ensures r.Ok? && b.imat.Some? ==> r.value.imat.Some?
    ensures pos + 4 > |data| ==> r == Err(Truncated)
    decreases |data| - pos, 0
  {
    var (tag, after) :- ReadTag(data, pos);
    if tag == IEOF then Ok(b)
    else
      var (b', next) :- LegacyDispatch(data, after, tag, b);
      LegacyRun(data, next, b')
  }

  /** `_parse_id`: the 8-byte identifier, decoded and not validated. */
  function ParseLegacyId(data: seq<Byte>): (r: Result<(Record, nat)>)
    ensures r.Ok? <==> 8 <= |data|
    ensures r.Ok? ==> r.value.1 == 8 && r.value.0.Keys == {"IMOD_file_id", "version_id"}
    ensures r.Ok? ==> r.value.0 == IdRecord(data[0..4], data[4..8])
  {
    if 8 > |data| then Err(Truncated)
    else
      IdFields(data, 0);
      ParseSpec(Id(), data, 0)
  }

  /** `_parse_model_header`: the 232-byte header, its name not trimmed. */
  function ParseLegacyHeader(data: seq<Byte>, pos: nat): (r: Result<(Record, nat)>)
    ensures r.Ok? <==> pos + 232 <= |data|
    ensures r.Ok? ==> r.value.1 == pos + 232 && r.value.0.Keys == NameSet(ModelHeader())
    ensures r.Ok? ==> "name" in r.value.0 && r.value.0["name"] == Single(BytesVal(data[pos..pos + 128]))
  {
    if pos + 232 > |data| then Err(Truncated)
    else
      ModelHeaderName(data, pos);
      ParseSpec(ModelHeader(), data, pos)
  }

  /** The legacy `parse_model`: the identifier and the header as decoded,
      then the loop from byte 240. */
  function ParseLegacyModel(data: seq<Byte>): (r: Result<LegacyModel>)
    ensures r.Ok? <==> |data| >= 240 && LegacyRun(data, 240, LegacyBody([], None)).Ok?
    ensures r.Ok? ==> r.value.id == IdRecord(data[0..4], data[4..8])
    ensures r.Ok? ==> ParseLegacyHeader(data, 8) == Ok((r.value.header, 240))
    ensures r.Ok? ==> |data| >= 244
    ensures r.Ok? ==> var body := LegacyRun(data, 240, LegacyBody([], None));
      body.Ok? && r.value.objects == body.value.objects && r.value.imat == body.value.imat
  {
    var (id, afterId) :- ParseLegacyId(data);
    var (header, afterHeader) :- ParseLegacyHeader(data, afterId);
    var body :- LegacyRun(data, afterHeader, LegacyBody([], None));
    Ok(LegacyModel(id, header, body.objects, body.imat))
  }

  // -------------------------------------------- the loop as it is written

  /** How the legacy loop as written ends within a bound on its
      iterations. */
  datatype LegacyOutcome = Done(result: Result<LegacyBody>) | StillRunning

  /** One iteration of the legacy loop as written. */
  datatype LegacyStep = Halt(result: Result<LegacyBody>) | Proceed(body: LegacyBody, next: nat)

  /** One iteration exactly as written: the tag read is short at the end
      of the file, and any tag but IEOF, OBJT and IMAT, the empty one
      included, is skipped. */
  function LegacyStepAsWritten(data: seq<Byte>, pos: nat, b: LegacyBody): (s: LegacyStep)
    requires pos <= |data|
    ensures s.Proceed? ==> pos <= s.next <= |data|
  {
    match ReadTagAsWritten(data, pos)
    case Err(e) => Halt(Err(e))
    case Ok((tag, after)) =>
      if tag == IEOF then Halt(Ok(b))
      else if tag == OBJT || tag == IMAT then
        match LegacyDispatch(data, after, tag, b)
        case Err(e) => Halt(Err(e))
        case Ok((b', next)) => Proceed(b', next)
      else Proceed(b, SkipUnknownAsWritten(data, after))
  }

  function LegacyLoopAsWritten(data: seq<Byte>, pos: nat, b: LegacyBody, fuel: nat): (o: LegacyOutcome)
    requires pos <= |data|
    decreases fuel
  {
    if fuel == 0 then StillRunning
    else
      match LegacyStepAsWritten(data, pos, b)
      case Halt(r) => Done(r)
      case Proceed(b', next) => LegacyLoopAsWritten(data, next, b', fuel - 1)
  }

  /** As in the current reader, a file that ends without IEOF keeps the
      legacy loop running for ever. */
  lemma {:induction false} LegacyEndRunsForever(data: seq<Byte>, b: LegacyBody, fuel: nat)
    ensures LegacyLoopAsWritten(data, |data|, b, fuel) == StillRunning
    decreases fuel
  {
    if fuel > 0 {
      assert ReadTagAsWritten(data, |data|) == Ok(([], |data|));
      assert [] != IEOF && [] != OBJT && [] != IMAT;
      assert LegacyStepAsWritten(data, |data|, b) == Proceed(b, |data|);
      LegacyEndRunsForever(data, b, fuel - 1);
    }
  }

  lemma {:induction false} LegacyAtIeof(data: seq<Byte>, pos: nat, b: LegacyBody, fuel: nat)
    requires pos <= |data| && fuel > 0 && ReadTag(data, pos).Ok? && ReadTag(data, pos).value.0 == IEOF
    ensures LegacyRun(data, pos, b) == Ok(b)
    ensures LegacyLoopAsWritten(data, pos, b, fuel) == Done(Ok(b))
  {
    assert ReadTagAsWritten(data, pos) == Ok((IEOF, pos + 4));
  }

  lemma {:induction false} LegacyRunStep(data: seq<Byte>, pos: nat, b: LegacyBody)
    requires LegacyRun(data, pos, b).Ok? && ReadTag(data, pos).Ok? && ReadTag(data, pos).value.0 != IEOF
    ensures LegacyDispatch(data, pos + 4, ReadTag(data, pos).value.0, b).Ok?
    ensures var step := LegacyDispatch(data, pos + 4, ReadTag(data, pos).value.0, b).value;
      LegacyRun(data, step.1, step.0) == LegacyRun(data, pos, b)
  {
    assert LegacyRun(data, pos, b) == LegacyIteration(data, pos, b);
  }

  lemma {:induction false} LegacyAsWrittenStep(data: seq<Byte>, pos: nat, b: LegacyBody)
    requires pos <= |data| && ReadTag(data, pos).Ok? && ReadTag(data, pos).value.0 != IEOF
    requires LegacyDispatch(data, pos + 4, ReadTag(data, pos).value.0, b).Ok?
    ensures var step := LegacyDispatch(data, pos + 4, ReadTag(data, pos).value.0, b).value;
      LegacyStepAsWritten(data, pos, b) == Proceed(step.0, step.1)
  {
    var tag := ReadTag(data, pos).value.0;
    assert ReadTagAsWritten(data, pos) == Ok((tag, pos + 4));
    if tag != OBJT && tag != IMAT {
      assert SkipUnknownAsWritten(data, pos + 4) == LegacyDispatch(data, pos + 4, tag, b).value.1;
    }
  }

  lemma {:induction false} LegacyAsWrittenUnfold(data: seq<Byte>, pos: nat, b: LegacyBody, fuel: nat, f: nat)
    requires pos <= |data| && LegacyStepAsWritten(data, pos, b).Proceed? && fuel == f + 1
    ensures var s := LegacyStepAsWritten(data, pos, b);
      LegacyLoopAsWritten(data, pos, b, fuel) == LegacyLoopAsWritten(data, s.next, s.body, f)
  {
  }

  /** Wherever the strict legacy loop finishes, the loop as written
      finishes with the same body within one iteration per byte. */
  lemma {:induction false} LegacyLoopAgrees(data: seq<Byte>, pos: nat, b: LegacyBody, fuel: nat)
    requires pos <= |data| && LegacyRun(data, pos, b).Ok?
    requires fuel > |data| - pos
    ensures LegacyLoopAsWritten(data, pos, b, fuel) == Done(LegacyRun(data, pos, b))
    decreases |data| - pos
  {
    var tag := ReadTag(data, pos).value.0;
    if tag == IEOF {
      LegacyAtIeof(data, pos, b, fuel);
    } else {
      LegacyRunStep(data, pos, b);
      var step := LegacyDispatch(data, pos + 4, tag, b).value;
      var f: nat := fuel - 1;
      LegacyLoopAgrees(data, step.1, step.0, f);
      LegacyAsWrittenStep(data, pos, b);
      LegacyAsWrittenUnfold(data, pos, b, fuel, f);
    }
  }
}
