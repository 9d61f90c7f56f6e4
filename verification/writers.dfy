/** The writer of `src/imodmodel/writers.py`, and what the reader of
    `src/imodmodel/parsers.py` makes of its output.  The writer reads fields
    (`point_sizes`, `raw_vertices`, `slicer_angles`, ...) that the record
    classes of `models.py` do not declare, so it gets its own input records
    here; the slicer-angle and MINX payloads, whose layouts are not
    defined, are opaque byte strings. */
module Writers {
  import opened Wrappers
  import opened Bytes
  import opened FormatCodes
  import opened FieldCodec
  import opened Layouts
  import opened Framing
  import opened GeneralStorage
  import opened Models
  import opened Parsers

  // ----------------------------------------------------- writer's records

  /** A contour as the writer sees it: header fields, points, optional
      per-point sizes (float words) and general storage. */
  datatype WContour = WContour(header: Record, points: seq<Point>, pointSizes: Option<seq<seq<Byte>>>, extra: seq<Storage>)

  /** A mesh as the writer sees it: the raw vertex and index lists, before
      any polygon decompiling. */
  datatype WMesh = WMesh(header: Record, rawVertices: seq<Point>, rawIndices: seq<int>, extra: seq<Storage>)

  /** An object as the writer sees it: with its header and its own IMAT. */
  datatype WObject = WObject(header: Record, contours: seq<WContour>, meshes: seq<WMesh>, imat: Option<Record>, extra: seq<Storage>)

  /** A model as the writer sees it: slicer angles and MINX as opaque
      payloads. */
  datatype WModel = WModel(id: Record, header: Record, objects: seq<WObject>,
                           slicerAngles: seq<seq<Byte>>, minx: Option<seq<Byte>>, extra: seq<Storage>)

  // ---------------------------------------------------------- flat data

  /** A point `struct.pack` accepts as three `f` values. */
  predicate FourByteWords(p: Point)
  {
    |p.x| == 4 && |p.y| == 4 && |p.z| == 4
  }

  /** `points.flatten()` packed with `'f' * len`: three words per point. */
  function WritePoints(points: seq<Point>): (r: Result<seq<Byte>>)
    ensures r.Ok? <==> forall k :: 0 <= k < |points| ==> FourByteWords(points[k])
    ensures r.Ok? ==> |r.value| == 12 * |points|
  {
    if |points| == 0 then Ok([])
    else if !FourByteWords(points[0]) then Err(BadValue)
    else
      var rest :- WritePoints(points[1..]);
      assert forall k :: 1 <= k < |points| ==> points[1..][k - 1] == points[k];
      Ok(points[0].x + points[0].y + points[0].z + rest)
  }

  /** Point k of a written run sits at bytes 12k to 12k + 12. */
  lemma {:induction false} WritePointsAt(points: seq<Point>, k: nat)
    requires WritePoints(points).Ok? && k < |points|
    ensures var w := WritePoints(points).value;
      w[12 * k..12 * k + 4] == points[k].x
      && w[12 * k + 4..12 * k + 8] == points[k].y
      && w[12 * k + 8..12 * k + 12] == points[k].z
  {
    var w := WritePoints(points).value;
    var head := points[0].x + points[0].y + points[0].z;
    var rest := WritePoints(points[1..]).value;
    assert w == head + rest;
    if k > 0 {
      WritePointsAt(points[1..], k - 1);
      assert w[12 * k..12 * k + 12] == rest[12 * (k - 1)..12 * (k - 1) + 12];
    }
  }

  /** Written points read back as themselves. */
  lemma {:induction false} PointsRoundTrip(points: seq<Point>, pb: seq<Byte>, data: seq<Byte>, pos: nat, q: nat)
    requires WritePoints(points) == Ok(pb) && At(data, pos, q, pb)
    ensures ParsePoints(data, pos, |points|) == Ok((points, q))
  {
    var n := |points|;
    forall k | 0 <= k < n
      ensures PointAt(data, pos + 12 * k) == points[k]
    {
      PointRead(points, pb, data, pos, k);
    }
    assert ParsePoints(data, pos, n).value.0 == points;
  }

  lemma {:induction false} PointRead(points: seq<Point>, pb: seq<Byte>, data: seq<Byte>, pos: nat, k: nat)
    requires WritePoints(points) == Ok(pb) && k < |points|
    requires pos + |pb| <= |data| && data[pos..pos + |pb|] == pb
    ensures PointAt(data, pos + 12 * k) == points[k]
  {
    WritePointsAt(points, k);
    Within(data, pos, |pb|, 12 * k, 12 * k + 4);
    Within(data, pos, |pb|, 12 * k + 4, 12 * k + 8);
    Within(data, pos, |pb|, 12 * k + 8, 12 * k + 12);
  }

  /** `indices` packed with `'i' * len`: signed 32-bit integers. */
  function WriteInts(xs: seq<int>): (r: Result<seq<Byte>>)
    ensures r.Ok? <==> forall k :: 0 <= k < |xs| ==> InSigned(xs[k], 4)
    ensures r.Ok? ==> |r.value| == 4 * |xs|
  {
    if |xs| == 0 then Ok([])
    else
      var head :- PackAtom(Atom(Int, 4), IntVal(xs[0]));
      var rest :- WriteInts(xs[1..]);
      assert forall k :: 1 <= k < |xs| ==> xs[1..][k - 1] == xs[k];
      Ok(head + rest)
  }

  /** Integer k of a written run sits at bytes 4k to 4k + 4. */
  lemma {:induction false} WriteIntsAt(xs: seq<int>, k: nat)
    requires WriteInts(xs).Ok? && k < |xs|
    ensures Int32(WriteInts(xs).value[4 * k..4 * k + 4]) == xs[k]
  {
    var w := WriteInts(xs).value;
    var head := PackAtom(Atom(Int, 4), IntVal(xs[0])).value;
    var rest := WriteInts(xs[1..]).value;
    assert w == head + rest;
    if k > 0 {
      WriteIntsAt(xs[1..], k - 1);
      assert w[4 * k..4 * k + 4] == rest[4 * (k - 1)..4 * (k - 1) + 4];
    } else {
      UnpackPackAtom(Atom(Int, 4), IntVal(xs[0]));
      assert w[..4] == head;
    }
  }

  /** Written integers read back as themselves. */
  lemma {:induction false} IntsRoundTrip(xs: seq<int>, ib: seq<Byte>, data: seq<Byte>, pos: nat, q: nat)
    requires WriteInts(xs) == Ok(ib) && At(data, pos, q, ib)
    ensures ParseInts(data, pos, |xs|) == Ok((xs, q))
  {
    forall k | 0 <= k < |xs|
      ensures Int32(data[pos + 4 * k..pos + 4 * k + 4]) == xs[k]
    {
      IntRead(xs, ib, data, pos, k);
    }
    assert ParseInts(data, pos, |xs|).value.0 == xs;
  }

  lemma {:induction false} IntRead(xs: seq<int>, ib: seq<Byte>, data: seq<Byte>, pos: nat, k: nat)
    requires WriteInts(xs) == Ok(ib) && k < |xs|
    requires pos + |ib| <= |data| && data[pos..pos + |ib|] == ib
    ensures Int32(data[pos + 4 * k..pos + 4 * k + 4]) == xs[k]
  {
    WriteIntsAt(xs, k);
    Within(data, pos, |ib|, 4 * k, 4 * k + 4);
  }

  /** Float words packed with `'f' * len`. */
  function WriteFloats(words: seq<seq<Byte>>): (r: Result<seq<Byte>>)
    ensures r.Ok? <==> forall k :: 0 <= k < |words| ==> |words[k]| == 4
    ensures r.Ok? ==> |r.value| == 4 * |words|
  {
    if |words| == 0 then Ok([])
    else if |words[0]| != 4 then Err(BadValue)
    else
      var rest :- WriteFloats(words[1..]);
      assert forall k :: 1 <= k < |words| ==> words[1..][k - 1] == words[k];
      Ok(words[0] + rest)
  }

  // ------------------------------------------------------------- chunks

  /** `_write_point_sizes`: the SIZE tag, the prefix `4 * n` and n float
      words. */
  function WritePointSizes(sizes: seq<seq<Byte>>): (r: Result<seq<Byte>>)
    ensures r.Ok? <==> 4 * |sizes| < SIZE_LIMIT && forall k :: 0 <= k < |sizes| ==> |sizes[k]| == 4
    ensures r.Ok? ==> |r.value| == 8 + 4 * |sizes|
  {
    var prefix :- WriteChunkSize(4 * |sizes|);
    var body :- WriteFloats(sizes);
    Ok(WriteTag(SIZE) + prefix + body)
  }

  /** `_write_general_storage` after a tag (`OBST`, `MOST`), written only
      when there are records. */
  function WriteTaggedStorage(tag: Tag, ss: seq<Storage>): (r: Result<seq<Byte>>)
    requires |tag| == 4
    ensures r.Ok? <==> |ss| == 0 || WriteGeneralStorage(ss).Ok?
    ensures r.Ok? ==> |r.value| == (if |ss| == 0 then 0 else 8 + 12 * |ss|)
  {
    if |ss| == 0 then Ok([])
    else
      var w :- WriteGeneralStorage(ss);
      Ok(WriteTag(tag) + w)
  }

  /** `_write_general_storage` with no tag in front, written only when
      there are records: how `_write_contour` and `_write_mesh` write
      their storage. */
  function WriteUntaggedStorage(ss: seq<Storage>): (r: Result<seq<Byte>>)
    ensures r.Ok? <==> |ss| == 0 || WriteGeneralStorage(ss).Ok?
    ensures r.Ok? ==> |r.value| == (if |ss| == 0 then 0 else 4 + 12 * |ss|)
  {
    if |ss| == 0 then Ok([]) else WriteGeneralStorage(ss)
  }

  /** The size prefix `_write_imat` puts in front of the 16-byte record. */
  const IMAT_PREFIX_AS_WRITTEN: nat := 48

  /** The size prefix of an IMAT chunk: the width of its record. */
  const IMAT_PREFIX: nat := 16

  /** `_write_imat` after its tag, with the prefix it is given. */
  function WriteImatWith(prefix: nat, imat: Record): (r: Result<seq<Byte>>)
    ensures r.Ok? ==> |r.value| == 20
    ensures prefix >= SIZE_LIMIT ==> r.Err?
  {
    ImatWidth();
    WriteSpecWidth(Imat(), imat);
    var size :- WriteChunkSize(prefix);
    var body :- WriteSpec(Imat(), imat);
    Ok(size + body)
  }

  /** `_write_slicer_angle`: the prefix 48, then the payload. */
  function WriteSlicerAngle(payload: seq<Byte>): (r: seq<Byte>)
    ensures |r| == 4 + |payload| && r[4..] == payload
    ensures FromBE(r[..4]) == 48
  {
    FromToBE(48, 4);
    ToBE(48, 4) + payload
  }

  /** `_write_minx`: the prefix 72, then the payload. */
  function WriteMinx(payload: seq<Byte>): (r: seq<Byte>)
    ensures |r| == 4 + |payload| && r[4..] == payload
    ensures FromBE(r[..4]) == 72
  {
    FromToBE(72, 4);
    ToBE(72, 4) + payload
  }

  // -------------------------------------------- what the reader makes of it

  /** The bytes `bs` sit in `data` from `p` up to `q`. */
  predicate At(data: seq<Byte>, p: nat, q: nat, bs: seq<Byte>)
  {
    q == p + |bs| && q <= |data| && data[p..q] == bs
  }

  /** The body `parse_model`'s loop gathers from the tag at `pos` on, or
      its error: `Loop` without the trace, written as two functions that
      call each other so that a proof sees one iteration at a time. */
  function Run(data: seq<Byte>, pos: nat, b: Body): Result<Body>
    decreases |data| - pos, 1
  {
    Iteration(data, pos, b)
  }

  function Iteration(data: seq<Byte>, pos: nat, b: Body): Result<Body>
    decreases |data| - pos, 0
  {
    var (tag, after) :- ReadTag(data, pos);
    if tag == IEOF then Ok(b)
    else
      var (b', next) :- Dispatch(data, after, tag, b);
      Run(data, next, b')
  }

  /** `Run` is the reader's loop. */
  lemma {:induction false} RunIsLoop(data: seq<Byte>, pos: nat, b: Body)
    ensures Run(data, pos, b) == (var r := Loop(data, pos, b); if r.Ok? then Ok(r.value.0) else Err(r.error))
    decreases |data| - pos
  {
    assert Run(data, pos, b) == Iteration(data, pos, b);
    var t := ReadTag(data, pos);
    if t.Ok? && t.value.0 != IEOF {
      var d := Dispatch(data, t.value.1, t.value.0, b);
      if d.Ok? {
        RunIsLoop(data, d.value.1, d.value.0);
      }
    }
  }

  /** One iteration: a tag other than IEOF whose chunk is accepted hands
      the rest of the file to the next iteration. */
  lemma {:induction false} RunThrough(data: seq<Byte>, pos: nat, tag: Tag, after: nat, b: Body, b': Body, next: nat)
    requires ReadTag(data, pos) == Ok((tag, after)) && tag != IEOF
    requires Dispatch(data, after, tag, b) == Ok((b', next))
    ensures Run(data, pos, b) == Run(data, next, b')
  {
    assert Run(data, pos, b) == Iteration(data, pos, b);
  }

  /** The tag the reader finds where the writer put one. */
  lemma {:induction false} TagAt(tag: Tag, data: seq<Byte>, p: nat, q: nat)
    requires |tag| == 4 && IsAscii(tag) && At(data, p, q, tag)
    ensures ReadTag(data, p) == Ok((tag, q))
  {
    TagRoundTrip(tag, data, p);
  }

  /** A chunk whose prefix is its payload length, under a tag the reader
      does not know, is skipped exactly, leaving the body as it was. */
  lemma {:induction false} SkipChunk(tag: Tag, prefix: seq<Byte>, payload: seq<Byte>, data: seq<Byte>, p: nat, q: nat, b: Body)
    requires |tag| == 4 && IsAscii(tag) && !KnownTag(tag) && tag != IEOF
    requires WriteChunkSize(|payload|) == Ok(prefix)
    requires At(data, p, q, tag + prefix + payload)
    ensures Run(data, p, b) == Run(data, q, b)
  {
    var a, m := p + 4, p + 8;
    Split(data, p, m, q, tag + prefix, payload);
    Split(data, p, a, m, tag, prefix);
    TagAt(tag, data, p, a);
    ChunkSizeRoundTrip(|payload|, data, a);
    RunThrough(data, p, tag, a, b, b, q);
  }

  /** The reader skips written point sizes, and lands right after them. */
  lemma {:induction false} PointSizesSkipped(sizes: seq<seq<Byte>>, sb: seq<Byte>, data: seq<Byte>, p: nat, q: nat, b: Body)
    requires WritePointSizes(sizes) == Ok(sb) && At(data, p, q, sb)
    ensures Run(data, p, b) == Run(data, q, b)
  {
    var body := WriteFloats(sizes).value;
    var prefix := WriteChunkSize(|body|).value;
    SizeTagUnknown();
    assert sb == SIZE + prefix + body;
    SkipChunk(SIZE, prefix, body, data, p, q, b);
  }

  /** SIZE is a tag the reader skips. */
  lemma {:induction false} SizeTagUnknown()
    ensures |SIZE| == 4 && IsAscii(SIZE) && !KnownTag(SIZE) && SIZE != IEOF
  {
  }

  // -------------------------------------------------- dispatch, per tag

  /** `objects[-1].contours.append(c)`. */
  function AddContour(b: Body, c: Contour): Body
    requires |b.objects| > 0
  {
    var last := b.objects[|b.objects| - 1];
    b.(objects := WithLast(b.objects, last.(contours := last.contours + [c])))
  }

  /** `objects[-1].meshes.append(m)`. */
  function AddMesh(b: Body, m: Mesh): Body
    requires |b.objects| > 0
  {
    var last := b.objects[|b.objects| - 1];
    b.(objects := WithLast(b.objects, last.(meshes := last.meshes + [m])))
  }

  /** `objects[-1].extra += ss`. */
  function AddObjectExtra(b: Body, ss: seq<Storage>): Body
    requires |b.objects| > 0
  {
    var last := b.objects[|b.objects| - 1];
    b.(objects := WithLast(b.objects, last.(extra := last.extra + ss)))
  }

  /** A chunk of an object-part tag updates the last object as
      `ObjectPart` says. */
  lemma {:induction false} DispatchPart(data: seq<Byte>, pos: nat, tag: Tag, b: Body, o: Object, next: nat)
    requires ObjectPartTag(tag) && |b.objects| > 0
    requires ObjectPart(data, pos, tag, b.objects[|b.objects| - 1]) == Ok((o, next))
    ensures Dispatch(data, pos, tag, b) == Ok((b.(objects := WithLast(b.objects, o)), next))
  {
    TagsDistinct();
  }

  lemma {:induction false} DispatchContour(data: seq<Byte>, pos: nat, b: Body)
    requires |b.objects| > 0 && ParseContour(data, pos).Ok?
    ensures var (c, next) := ParseContour(data, pos).value;
      Dispatch(data, pos, CONT, b) == Ok((AddContour(b, c), next))
  {
    TagsDistinct();
    var (c, next) := ParseContour(data, pos).value;
    var last := b.objects[|b.objects| - 1];
    assert ObjectPart(data, pos, CONT, last) == Ok((last.(contours := last.contours + [c]), next));
    DispatchPart(data, pos, CONT, b, last.(contours := last.contours + [c]), next);
  }

  lemma {:induction false} DispatchMesh(data: seq<Byte>, pos: nat, b: Body)
    requires |b.objects| > 0 && ParseMesh(data, pos).Ok?
    ensures var (m, next) := ParseMesh(data, pos).value;
      Dispatch(data, pos, MESH, b) == Ok((AddMesh(b, m), next))
  {
    TagsDistinct();
    var (m, next) := ParseMesh(data, pos).value;
    var last := b.objects[|b.objects| - 1];
    assert ObjectPart(data, pos, MESH, last) == Ok((last.(meshes := last.meshes + [m]), next));
    DispatchPart(data, pos, MESH, b, last.(meshes := last.meshes + [m]), next);
  }

  /** COST extends the last contour of the last object. */
  lemma {:induction false} DispatchCost(data: seq<Byte>, pos: nat, b: Body, c: Contour, ss: seq<Storage>, next: nat)
    requires |b.objects| > 0 && ParseGeneralStorage(data, pos) == Ok((ss, next))
    ensures Dispatch(data, pos, COST, AddContour(b, c)) == Ok((AddContour(b, c.(extra := c.extra + ss)), next))
  {
    TagsDistinct();
    var last := b.objects[|b.objects| - 1];
    var o := last.(contours := last.contours + [c]);
    assert ExtendLastContour(o, ss) == last.(contours := last.contours + [c.(extra := c.extra + ss)]);
    assert ObjectPart(data, pos, COST, o) == Ok((ExtendLastContour(o, ss), next));
    DispatchPart(data, pos, COST, AddContour(b, c), ExtendLastContour(o, ss), next);
  }

  /** MEST extends the last mesh of the last object. */
  lemma {:induction false} DispatchMest(data: seq<Byte>, pos: nat, b: Body, m: Mesh, ss: seq<Storage>, next: nat)
    requires |b.objects| > 0 && ParseGeneralStorage(data, pos) == Ok((ss, next))
    ensures Dispatch(data, pos, MEST, AddMesh(b, m)) == Ok((AddMesh(b, m.(extra := m.extra + ss)), next))
  {
    TagsDistinct();
    var last := b.objects[|b.objects| - 1];
    var o := last.(meshes := last.meshes + [m]);
    assert ExtendLastMesh(o, ss) == last.(meshes := last.meshes + [m.(extra := m.extra + ss)]);
    assert ObjectPart(data, pos, MEST, o) == Ok((ExtendLastMesh(o, ss), next));
    DispatchPart(data, pos, MEST, AddMesh(b, m), ExtendLastMesh(o, ss), next);
  }

  lemma {:induction false} DispatchObst(data: seq<Byte>, pos: nat, b: Body, ss: seq<Storage>, next: nat)
    requires |b.objects| > 0 && ParseGeneralStorage(data, pos) == Ok((ss, next))
    ensures Dispatch(data, pos, OBST, b) == Ok((AddObjectExtra(b, ss), next))
  {
    TagsDistinct();
    var last := b.objects[|b.objects| - 1];
    assert ObjectPart(data, pos, OBST, last) == Ok((last.(extra := last.extra + ss), next));
    DispatchPart(data, pos, OBST, b, last.(extra := last.extra + ss), next);
  }

  // ------------------------------------------------------------ contours

  /** `_write_contour` up to its storage: the header as stored, the
      points, and the SIZE chunk when there are point sizes. */
  function WriteContourData(c: WContour): (r: Result<seq<Byte>>)
    ensures r.Ok? ==> |r.value| == 16 + 12 * |c.points| + (if c.pointSizes.Some? then 8 + 4 * |c.pointSizes.value| else 0)
  {
    ContourHeaderWidth();
    WriteSpecWidth(ContourHeader(), c.header);
    var header :- WriteSpec(ContourHeader(), c.header);
    var points :- WritePoints(c.points);
    var sizes :- if c.pointSizes.Some? then WritePointSizes(c.pointSizes.value) else Ok([]);
    Ok(header + points + sizes)
  }

  /** `_write_contour` as written: the storage follows with no tag. */
  function WriteContourAsWritten(c: WContour): (r: Result<seq<Byte>>)
    ensures r.Ok? <==> WriteContourData(c).Ok? && WriteUntaggedStorage(c.extra).Ok?
    ensures r.Ok? ==> r.value == WriteContourData(c).value + WriteUntaggedStorage(c.extra).value
  {
    var d :- WriteContourData(c);
    var e :- WriteUntaggedStorage(c.extra);
    Ok(d + e)
  }

  /** `_write_contour` with a COST tag before the storage, as `_write_object`
      puts OBST before an object's. */
  function WriteContour(c: WContour): (r: Result<seq<Byte>>)
    ensures r.Ok? <==> WriteContourData(c).Ok? && WriteTaggedStorage(COST, c.extra).Ok?
    ensures r.Ok? ==> r.value == WriteContourData(c).value + WriteTaggedStorage(COST, c.extra).value
  {
    var d :- WriteContourData(c);
    var e :- WriteTaggedStorage(COST, c.extra);
    Ok(d + e)
  }

  /** Storage records the writer and the reader agree on. */
  predicate StorageWritable(ss: seq<Storage>)
  {
    12 * |ss| < SIZE_LIMIT && forall k :: 0 <= k < |ss| ==> Writable(ss[k])
  }

  /** A contour that writes and reads back: a header of the declared shape
      whose `psize` is the number of points (the writer does not recompute
      it), 4-byte words, and writable storage. */
  predicate ContourWritable(c: WContour)
  {
    && Conforms(ContourHeader(), c.header)
    && IntField(c.header, "psize") == Ok(|c.points|)
    && (forall k :: 0 <= k < |c.points| ==> FourByteWords(c.points[k]))
    && (c.pointSizes.Some? ==> WritePointSizes(c.pointSizes.value).Ok?)
    && StorageWritable(c.extra)
  }

  /** The contour the reader builds from a written one. */
  function ReadBackContour(c: WContour): Contour
  {
    Contour(c.header, c.points, c.extra)
  }

  lemma {:induction false} StorageWrites(ss: seq<Storage>)
    requires StorageWritable(ss)
    ensures WriteGeneralStorage(ss).Ok?
  {
    WriteThenParseStorage(ss, [], 0);
  }

  lemma {:induction false} ContourWrites(c: WContour)
    requires ContourWritable(c)
    ensures WriteContourData(c).Ok? && WriteContour(c).Ok? && WriteContourAsWritten(c).Ok?
  {
    ContourHeaderCodable();
    ConformingWrites(ContourHeader(), c.header);
    StorageWrites(c.extra);
  }

  /** A record of a table's shape can be written. */
  lemma {:induction false} ConformingWrites(t: Table, m: Record)
    requires Codable(t) && Conforms(t, m)
    ensures WriteSpec(t, m).Ok?
  {
    WriteThenParse(t, m, [], 0);
  }

  /** A record of a codable table, written at `p`, parses back. */
  lemma {:induction false} HeaderAt(t: Table, m: Record, a: seq<Byte>, data: seq<Byte>, p: nat, q: nat)
    requires Codable(t) && Conforms(t, m) && WriteSpec(t, m) == Ok(a) && At(data, p, q, a)
    ensures ParseSpec(t, data, p) == Ok((m, q))
  {
    WriteThenParse(t, m, data, p);
  }

  /** A written contour header parses back from where it was put. */
  lemma {:induction false} ContourHeaderAt(h: Record, hb: seq<Byte>, data: seq<Byte>, p: nat, q: nat)
    requires Conforms(ContourHeader(), h) && WriteSpec(ContourHeader(), h) == Ok(hb)
    requires At(data, p, q, hb)
    ensures q == p + 16 && ParseSpec(ContourHeader(), data, p) == Ok((h, q))
  {
    ContourHeaderWidth();
    WriteSpecWidth(ContourHeader(), h);
    ContourHeaderCodable();
    HeaderAt(ContourHeader(), h, hb, data, p, q);
  }

  /** A contour header announcing n points, followed by n points. */
  lemma {:induction false} ContourFromParts(h: Record, points: seq<Point>, data: seq<Byte>, p: nat, m: nat, q: nat)
    requires m == p + 16 && ParseSpec(ContourHeader(), data, p) == Ok((h, m))
    requires IntField(h, "psize") == Ok(|points|)
    requires ParsePoints(data, m, |points|) == Ok((points, q))
    ensures ParseContour(data, p) == Ok((NewContour(h, points), q))
  {
    ContourHeaderSize(data, p);
    var r := ParseContour(data, p).value.0;
    assert r.points == points;
  }

  /** A written contour header and its points read back as a contour. */
  lemma {:induction false} ContourBodyRoundTrip(h: Record, points: seq<Point>, hb: seq<Byte>, pb: seq<Byte>, data: seq<Byte>, p: nat, q: nat)
    requires Conforms(ContourHeader(), h) && IntField(h, "psize") == Ok(|points|)
    requires WriteSpec(ContourHeader(), h) == Ok(hb) && WritePoints(points) == Ok(pb)
    requires At(data, p, q, hb + pb)
    ensures ParseContour(data, p) == Ok((NewContour(h, points), q))
  {
    var m := p + |hb|;
    Split(data, p, m, q, hb, pb);
    ContourHeaderAt(h, hb, data, p, m);
    PointsRoundTrip(points, pb, data, m, q);
    ContourFromParts(h, points, data, p, m, q);
  }

  /** The reader's loop past a CONT tag whose contour parses. */
  lemma {:induction false} ContourTagRead(data: seq<Byte>, p: nat, a: nat, b: Body, c: Contour, q: nat)
    requires ReadTag(data, p) == Ok((CONT, a)) && ParseContour(data, a) == Ok((c, q))
    requires |b.objects| > 0
    ensures Run(data, p, b) == Run(data, q, AddContour(b, c))
  {
    DispatchContour(data, a, b);
    RunThrough(data, p, CONT, a, b, AddContour(b, c), q);
  }

  /** Written general storage reads back. */
  lemma {:induction false} StorageAt(ss: seq<Storage>, w: seq<Byte>, data: seq<Byte>, p: nat, q: nat)
    requires StorageWritable(ss) && WriteGeneralStorage(ss) == Ok(w) && At(data, p, q, w)
    ensures ParseGeneralStorage(data, p) == Ok((ss, q))
  {
    WriteThenParseStorage(ss, data, p);
  }

  /** The reader's loop past a COST tag whose storage parses. */
  lemma {:induction false} CostTagRead(data: seq<Byte>, p: nat, a: nat, b: Body, c: Contour, ss: seq<Storage>, q: nat)
    requires ReadTag(data, p) == Ok((COST, a)) && ParseGeneralStorage(data, a) == Ok((ss, q))
    requires |b.objects| > 0
    ensures Run(data, p, AddContour(b, c)) == Run(data, q, AddContour(b, c.(extra := c.extra + ss)))
  {
    DispatchCost(data, a, b, c, ss, q);
    RunThrough(data, p, COST, a, AddContour(b, c), AddContour(b, c.(extra := c.extra + ss)), q);
  }

  /** Contour storage written under COST reaches the contour it follows;
      none written leaves the contour as it is. */
  lemma {:induction false} ContourStorageRead(ss: seq<Storage>, eb: seq<Byte>, data: seq<Byte>, p: nat, q: nat, b: Body, c: Contour)
    requires StorageWritable(ss) && WriteTaggedStorage(COST, ss) == Ok(eb) && At(data, p, q, eb)
    requires |b.objects| > 0
    ensures Run(data, p, AddContour(b, c)) == Run(data, q, AddContour(b, c.(extra := c.extra + ss)))
  {
    if |ss| == 0 {
      assert c.(extra := c.extra + ss) == c;
    } else {
      var w := WriteGeneralStorage(ss).value;
      var a := p + 4;
      Split(data, p, a, q, COST, w);
      TagsAreAscii();
      TagAt(COST, data, p, a);
      StorageAt(ss, w, data, a, q);
      CostTagRead(data, p, a, b, c, ss, q);
    }
  }

  /** The pieces `WriteContourData` joins. */
  lemma {:induction false} ContourDataPieces(c: WContour) returns (hb: seq<Byte>, pb: seq<Byte>, sb: seq<Byte>)
    requires WriteContourData(c).Ok?
    ensures WriteSpec(ContourHeader(), c.header) == Ok(hb) && WritePoints(c.points) == Ok(pb)
    ensures c.pointSizes.Some? ==> WritePointSizes(c.pointSizes.value) == Ok(sb)
    ensures c.pointSizes.None? ==> sb == []
    ensures WriteContourData(c).value == hb + pb + sb
  {
    hb := WriteSpec(ContourHeader(), c.header).value;
    pb := WritePoints(c.points).value;
    sb := if c.pointSizes.Some? then WritePointSizes(c.pointSizes.value).value else [];
  }

  /** A CONT tag and the contour data after it make a new contour of the
      last object; point sizes are skipped. */
  lemma {:induction false} ContourDataRead(c: WContour, db: seq<Byte>, data: seq<Byte>, p: nat, a: nat, q: nat, b: Body)
    requires ContourWritable(c) && WriteContourData(c) == Ok(db)
    requires At(data, p, a, CONT) && At(data, a, q, db)
    requires |b.objects| > 0
    ensures Run(data, p, b) == Run(data, q, AddContour(b, NewContour(c.header, c.points)))
  {
    var hb, pb, sb := ContourDataPieces(c);
    var n := a + |hb| + |pb|;
    Split(data, a, n, q, hb + pb, sb);
    ContourHeadRead(c.header, c.points, hb, pb, data, p, a, n, b);
    OptionalSizesSkipped(c.pointSizes, sb, data, n, q, AddContour(b, NewContour(c.header, c.points)));
  }

  /** A CONT tag, a contour header and its points make a new contour of the
      last object. */
  lemma {:induction false} ContourHeadRead(h: Record, points: seq<Point>, hb: seq<Byte>, pb: seq<Byte>, data: seq<Byte>, p: nat, a: nat, n: nat, b: Body)
    requires Conforms(ContourHeader(), h) && IntField(h, "psize") == Ok(|points|)
    requires WriteSpec(ContourHeader(), h) == Ok(hb) && WritePoints(points) == Ok(pb)
    requires At(data, p, a, CONT) && At(data, a, n, hb + pb)
    requires |b.objects| > 0
    ensures Run(data, p, b) == Run(data, n, AddContour(b, NewContour(h, points)))
  {
    ContourBodyRoundTrip(h, points, hb, pb, data, a, n);
    TagsAreAscii();
    TagAt(CONT, data, p, a);
    ContourTagRead(data, p, a, b, NewContour(h, points), n);
  }

  /** Point sizes, when written, are skipped by the reader. */
  lemma {:induction false} OptionalSizesSkipped(sizes: Option<seq<seq<Byte>>>, sb: seq<Byte>, data: seq<Byte>, n: nat, q: nat, b: Body)
    requires sizes.Some? ==> WritePointSizes(sizes.value) == Ok(sb)
    requires sizes.None? ==> sb == []
    requires At(data, n, q, sb)
    ensures Run(data, n, b) == Run(data, q, b)
  {
    if sizes.Some? {
      PointSizesSkipped(sizes.value, sb, data, n, q, b);
    }
  }

  /** A contour written with its storage under COST reads back as itself,
      appended to the last object. */
  lemma {:induction false} ContourRoundTrip(c: WContour, w: seq<Byte>, data: seq<Byte>, p: nat, q: nat, b: Body)
    requires ContourWritable(c) && WriteContour(c) == Ok(w) && At(data, p, q, CONT + w)
    requires |b.objects| > 0
    ensures Run(data, p, b) == Run(data, q, AddContour(b, ReadBackContour(c)))
  {
    var db := WriteContourData(c).value;
    var eb := WriteTaggedStorage(COST, c.extra).value;
    var a := p + 4;
    var n := a + |db|;
    Split(data, p, a, q, CONT, w);
    Split(data, a, n, q, db, eb);
    ContourParts(c, db, eb, data, p, a, n, q, b);
  }

  lemma {:induction false} ContourParts(c: WContour, db: seq<Byte>, eb: seq<Byte>, data: seq<Byte>, p: nat, a: nat, n: nat, q: nat, b: Body)
    requires ContourWritable(c) && WriteContourData(c) == Ok(db) && WriteTaggedStorage(COST, c.extra) == Ok(eb)
    requires At(data, p, a, CONT) && At(data, a, n, db) && At(data, n, q, eb)
    requires |b.objects| > 0
    ensures Run(data, p, b) == Run(data, q, AddContour(b, ReadBackContour(c)))
  {
    var nc := NewContour(c.header, c.points);
    assert nc.(extra := nc.extra + c.extra) == ReadBackContour(c);
    assert StorageWritable(c.extra);
    ContourDataRead(c, db, data, p, a, n, b);
    ContourStorageRead(c.extra, eb, data, n, q, b, nc);
  }

  /** The size prefix of fewer than eleven storage records is four ASCII
      bytes that are not a tag the reader acts on. */
  lemma {:induction false} StoragePrefixIsUnknownTag(ss: seq<Storage>, sb: seq<Byte>)
    requires WriteGeneralStorage(ss) == Ok(sb) && 12 * |ss| < 128
    ensures sb[..4] == [0, 0, 0, 12 * |ss|]
    ensures IsAscii(sb[..4]) && !KnownTag(sb[..4]) && sb[..4] != IEOF
  {
    var n := 12 * |ss|;
    ToFromBE(sb[..4]);
    assert ToBE(n, 4) == ToBE(0, 3) + [n];
    assert ToBE(0, 3) == [0, 0, 0];
  }

  /** Storage written with no tag in front, as `_write_contour` and
      `_write_mesh` write it: the reader takes its size prefix for an
      unknown tag and skips a chunk whose size it reads from the first
      record's type and flags. The body is left as it was. */
  lemma {:induction false} UntaggedStorageMisread(ss: seq<Storage>, sb: seq<Byte>, data: seq<Byte>, n: nat, q: nat, b: Body) returns (next: nat)
    requires 0 < |ss| && 12 * |ss| < 128
    requires WriteGeneralStorage(ss) == Ok(sb) && At(data, n, q, sb)
    ensures next == MisreadResume(data, n, ss)
    ensures Run(data, n, b) == Run(data, next, b)
  {
    var tag := sb[..4];
    var rb := sb[4..];
    var a := n + 4;
    StoragePrefixIsUnknownTag(ss, sb);
    assert sb == tag + rb;
    Split(data, n, a, q, tag, rb);
    TagAt(tag, data, n, a);
    assert data[a..a + 4] == rb[..4];
    next := Min(a + 4 + FromBE(data[a..a + 4]), |data|);
    RunThrough(data, n, tag, a, b, b, next);
  }

  /** Where the reader resumes after taking an untagged storage block at
      `n` for an unknown chunk: the chunk size it reads is the first
      record's type and flags. */
  function MisreadResume(data: seq<Byte>, n: nat, ss: seq<Storage>): nat
  {
    var e := EncodeRecords(ss);
    if e.Ok? && 4 <= |e.value| then Min(n + 8 + FromBE(e.value[..4]), |data|) else n
  }

  /** A contour written as `_write_contour` writes it, with storage, reads
      back without that storage: the contour appended to the last object
      has none, and the loop goes on from wherever the misread prefix
      sends it, past the contour's data by eight bytes and the first
      record's type and flags read as one size. */
  lemma {:induction false} ContourAsWrittenMisread(c: WContour, w: seq<Byte>, data: seq<Byte>, p: nat, q: nat, b: Body) returns (n: nat, next: nat)
    requires ContourWritable(c) && WriteContourAsWritten(c) == Ok(w) && At(data, p, q, CONT + w)
    requires 0 < |c.extra| && 12 * |c.extra| < 128
    requires |b.objects| > 0
    ensures Run(data, p, b) == Run(data, next, AddContour(b, NewContour(c.header, c.points)))
    ensures NewContour(c.header, c.points) != ReadBackContour(c)
    ensures At(data, p + 4, n, WriteContourData(c).value)
    ensures next == MisreadResume(data, n, c.extra)
  {
    var db := WriteContourData(c).value;
    var sb := WriteGeneralStorage(c.extra).value;
    var a := p + 4;
    n := a + |db|;
    Split(data, p, a, q, CONT, w);
    Split(data, a, n, q, db, sb);
    next := AsWrittenParts(c, db, sb, data, p, a, n, q, b);
  }

  lemma {:induction false} AsWrittenParts(c: WContour, db: seq<Byte>, sb: seq<Byte>, data: seq<Byte>, p: nat, a: nat, n: nat, q: nat, b: Body) returns (next: nat)
    requires ContourWritable(c) && WriteContourData(c) == Ok(db) && WriteGeneralStorage(c.extra) == Ok(sb)
    requires At(data, p, a, CONT) && At(data, a, n, db) && At(data, n, q, sb)
    requires 0 < |c.extra| && 12 * |c.extra| < 128
    requires |b.objects| > 0
    ensures Run(data, p, b) == Run(data, next, AddContour(b, NewContour(c.header, c.points)))
    ensures next == MisreadResume(data, n, c.extra)
  {
    ContourDataRead(c, db, data, p, a, n, b);
    next := UntaggedStorageMisread(c.extra, sb, data, n, q, AddContour(b, NewContour(c.header, c.points)));
  }

  // -------------------------------------------------------------- meshes

  /** `_write_mesh` up to its storage: the header as stored, the raw
      vertices and the raw index list. */
  function WriteMeshData(m: WMesh): (r: Result<seq<Byte>>)
    ensures r.Ok? ==> |r.value| == 16 + 12 * |m.rawVertices| + 4 * |m.rawIndices|
  {
    MeshHeaderWidth();
    WriteSpecWidth(MeshHeader(), m.header);
    var header :- WriteSpec(MeshHeader(), m.header);
    var vertices :- WritePoints(m.rawVertices);
    var indices :- WriteInts(m.rawIndices);
    Ok(header + vertices + indices)
  }

  /** `_write_mesh` as written: the storage follows with no tag. */
  function WriteMeshAsWritten(m: WMesh): (r: Result<seq<Byte>>)
    ensures r.Ok? <==> WriteMeshData(m).Ok? && WriteUntaggedStorage(m.extra).Ok?
    ensures r.Ok? ==> r.value == WriteMeshData(m).value + WriteUntaggedStorage(m.extra).value
  {
    var d :- WriteMeshData(m);
    var e :- WriteUntaggedStorage(m.extra);
    Ok(d + e)
  }

  /** `_write_mesh` with a MEST tag before the storage. */
  function WriteMesh(m: WMesh): (r: Result<seq<Byte>>)
    ensures r.Ok? <==> WriteMeshData(m).Ok? && WriteTaggedStorage(MEST, m.extra).Ok?
    ensures r.Ok? ==> r.value == WriteMeshData(m).value + WriteTaggedStorage(MEST, m.extra).value
  {
    var d :- WriteMeshData(m);
    var e :- WriteTaggedStorage(MEST, m.extra);
    Ok(d + e)
  }

  /** A mesh that writes and reads back: a header of the declared shape
      whose `vsize` and `lsize` count the raw lists, 4-byte words, indices
      that fit a signed 32-bit integer, and writable storage. */
  predicate MeshWritable(m: WMesh)
  {
    && Conforms(MeshHeader(), m.header)
    && IntField(m.header, "vsize") == Ok(|m.rawVertices|)
    && IntField(m.header, "lsize") == Ok(|m.rawIndices|)
    && (forall k :: 0 <= k < |m.rawVertices| ==> FourByteWords(m.rawVertices[k]))
    && (forall k :: 0 <= k < |m.rawIndices| ==> InSigned(m.rawIndices[k], 4))
    && StorageWritable(m.extra)
  }

  /** The raw lists the reader takes back from a written mesh. */
  function WrittenRaw(m: WMesh, next: nat): (r: RawMesh)
    ensures r.header == m.header && r.vertices == m.rawVertices && r.indices == m.rawIndices && r.next == next
  {
    RawMesh(m.header, m.rawVertices, m.rawIndices, next)
  }

  /** The mesh the reader builds from a written one: the raw index list
      decompiled and cleaned as `_parse_mesh` does, with the storage. */
  function ReadBackMesh(m: WMesh): (r: Result<Mesh>)
    ensures r.Ok? <==> BuildMesh(WrittenRaw(m, 0)).Ok?
    ensures r.Ok? ==> r.value == BuildMesh(WrittenRaw(m, 0)).value.(extra := m.extra)
  {
    var built :- BuildMesh(WrittenRaw(m, 0));
    Ok(built.(extra := m.extra))
  }

  lemma {:induction false} MeshWrites(m: WMesh)
    requires MeshWritable(m)
    ensures WriteMeshData(m).Ok? && WriteMesh(m).Ok? && WriteMeshAsWritten(m).Ok?
  {
    MeshDataWrites(m);
    StorageWrites(m.extra);
  }

  lemma {:induction false} MeshDataWrites(m: WMesh)
    requires MeshWritable(m)
    ensures WriteMeshData(m).Ok?
  {
    MeshHeaderWrites(m.header);
    assert WritePoints(m.rawVertices).Ok?;
    assert WriteInts(m.rawIndices).Ok?;
  }

  lemma {:induction false} MeshHeaderWrites(h: Record)
    requires Conforms(MeshHeader(), h)
    ensures WriteSpec(MeshHeader(), h).Ok?
  {
    MeshHeaderCodable();
    ConformingWrites(MeshHeader(), h);
  }

  /** Building a mesh looks only at the raw lists, not at where they
      ended. */
  lemma {:induction false} BuildIgnoresNext(m: WMesh, next: nat)
    ensures BuildMesh(WrittenRaw(m, next)) == BuildMesh(WrittenRaw(m, 0))
  {
  }

  /** A written mesh header parses back from where it was put. */
  lemma {:induction false} MeshHeaderAt(h: Record, hb: seq<Byte>, data: seq<Byte>, p: nat, q: nat)
    requires Conforms(MeshHeader(), h) && WriteSpec(MeshHeader(), h) == Ok(hb)
    requires At(data, p, q, hb)
    ensures ParseSpec(MeshHeader(), data, p) == Ok((h, q))
  {
    MeshHeaderCodable();
    HeaderAt(MeshHeader(), h, hb, data, p, q);
  }

  /** A mesh header announcing the counts of the lists that follow it. */
  lemma {:induction false} MeshFromParts(m: WMesh, data: seq<Byte>, p: nat, a: nat, n: nat, q: nat)
    requires ParseSpec(MeshHeader(), data, p) == Ok((m.header, a))
    requires IntField(m.header, "vsize") == Ok(|m.rawVertices|)
    requires IntField(m.header, "lsize") == Ok(|m.rawIndices|)
    requires ParsePoints(data, a, |m.rawVertices|) == Ok((m.rawVertices, n))
    requires ParseInts(data, n, |m.rawIndices|) == Ok((m.rawIndices, q))
    ensures ReadRawMesh(data, p) == Ok(WrittenRaw(m, q))
  {
  }

  /** The pieces `WriteMeshData` joins. */
  lemma {:induction false} MeshDataPieces(m: WMesh) returns (hb: seq<Byte>, vb: seq<Byte>, ib: seq<Byte>)
    requires WriteMeshData(m).Ok?
    ensures WriteSpec(MeshHeader(), m.header) == Ok(hb)
    ensures WritePoints(m.rawVertices) == Ok(vb) && WriteInts(m.rawIndices) == Ok(ib)
    ensures WriteMeshData(m).value == hb + vb + ib
  {
    hb := WriteSpec(MeshHeader(), m.header).value;
    vb := WritePoints(m.rawVertices).value;
    ib := WriteInts(m.rawIndices).value;
  }

  /** Written mesh data reads back as the same header and raw lists. */
  lemma {:induction false} MeshBodyRoundTrip(m: WMesh, db: seq<Byte>, data: seq<Byte>, p: nat, q: nat)
    requires MeshWritable(m) && WriteMeshData(m) == Ok(db) && At(data, p, q, db)
    ensures ReadRawMesh(data, p) == Ok(WrittenRaw(m, q))
  {
    var hb, vb, ib := MeshDataPieces(m);
    var n := p + |hb| + |vb|;
    var a := p + |hb|;
    Split(data, p, n, q, hb + vb, ib);
    Split(data, p, a, n, hb, vb);
    MeshHeaderAt(m.header, hb, data, p, a);
    PointsRoundTrip(m.rawVertices, vb, data, a, n);
    IntsRoundTrip(m.rawIndices, ib, data, n, q);
    MeshFromParts(m, data, p, a, n, q);
  }

  /** The reader's loop past a MESH tag whose mesh parses. */
  lemma {:induction false} MeshTagRead(data: seq<Byte>, p: nat, a: nat, b: Body, mesh: Mesh, q: nat)
    requires ReadTag(data, p) == Ok((MESH, a)) && ParseMesh(data, a) == Ok((mesh, q))
    requires |b.objects| > 0
    ensures Run(data, p, b) == Run(data, q, AddMesh(b, mesh))
  {
    DispatchMesh(data, a, b);
    RunThrough(data, p, MESH, a, b, AddMesh(b, mesh), q);
  }

  /** The reader's loop past a MEST tag whose storage parses. */
  lemma {:induction false} MestTagRead(data: seq<Byte>, p: nat, a: nat, b: Body, mesh: Mesh, ss: seq<Storage>, q: nat)
    requires ReadTag(data, p) == Ok((MEST, a)) && ParseGeneralStorage(data, a) == Ok((ss, q))
    requires |b.objects| > 0
    ensures Run(data, p, AddMesh(b, mesh)) == Run(data, q, AddMesh(b, mesh.(extra := mesh.extra + ss)))
  {
    DispatchMest(data, a, b, mesh, ss, q);
    RunThrough(data, p, MEST, a, AddMesh(b, mesh), AddMesh(b, mesh.(extra := mesh.extra + ss)), q);
  }

  /** Mesh storage written under MEST reaches the mesh it follows; none
      written leaves the mesh as it is. */
  lemma {:induction false} MeshStorageRead(ss: seq<Storage>, eb: seq<Byte>, data: seq<Byte>, p: nat, q: nat, b: Body, mesh: Mesh)
    requires StorageWritable(ss) && WriteTaggedStorage(MEST, ss) == Ok(eb) && At(data, p, q, eb)
    requires |b.objects| > 0
    ensures Run(data, p, AddMesh(b, mesh)) == Run(data, q, AddMesh(b, mesh.(extra := mesh.extra + ss)))
  {
    if |ss| == 0 {
      assert mesh.(extra := mesh.extra + ss) == mesh;
    } else {
      var w := WriteGeneralStorage(ss).value;
      var a := p + 4;
      Split(data, p, a, q, MEST, w);
      TagsAreAscii();
      TagAt(MEST, data, p, a);
      StorageAt(ss, w, data, a, q);
      MestTagRead(data, p, a, b, mesh, ss, q);
    }
  }

  /** A MESH tag and the mesh data after it make a new mesh of the last
      object when the index list builds into polygons. */
  lemma {:induction false} MeshDataRead(m: WMesh, db: seq<Byte>, data: seq<Byte>, p: nat, a: nat, q: nat, b: Body, mesh: Mesh)
    requires MeshWritable(m) && WriteMeshData(m) == Ok(db)
    requires At(data, p, a, MESH) && At(data, a, q, db)
    requires |b.objects| > 0 && BuildMesh(WrittenRaw(m, 0)) == Ok(mesh)
    ensures Run(data, p, b) == Run(data, q, AddMesh(b, mesh))
  {
    MeshBodyRoundTrip(m, db, data, a, q);
    BuildIgnoresNext(m, q);
    TagsAreAscii();
    TagAt(MESH, data, p, a);
    MeshTagRead(data, p, a, b, mesh, q);
  }

  /** ... and stop the reader with an error when it does not. */
  lemma {:induction false} MeshDataRejected(m: WMesh, db: seq<Byte>, data: seq<Byte>, p: nat, a: nat, q: nat, b: Body)
    requires MeshWritable(m) && WriteMeshData(m) == Ok(db)
    requires At(data, p, a, MESH) && At(data, a, q, db)
    requires BuildMesh(WrittenRaw(m, 0)).Err?
    ensures Run(data, p, b).Err?
  {
    MeshParseRejected(m, db, data, a, q);
    DispatchMeshRejected(data, a, b);
    TagsAreAscii();
    TagAt(MESH, data, p, a);
    RunStops(data, p, MESH, a, b);
  }

  lemma {:induction false} MeshParseRejected(m: WMesh, db: seq<Byte>, data: seq<Byte>, a: nat, q: nat)
    requires MeshWritable(m) && WriteMeshData(m) == Ok(db) && At(data, a, q, db)
    requires BuildMesh(WrittenRaw(m, 0)).Err?
    ensures ParseMesh(data, a).Err?
  {
    MeshBodyRoundTrip(m, db, data, a, q);
    BuildIgnoresNext(m, q);
  }

  lemma {:induction false} DispatchMeshRejected(data: seq<Byte>, pos: nat, b: Body)
    requires ParseMesh(data, pos).Err?
    ensures Dispatch(data, pos, MESH, b).Err?
  {
    TagsDistinct();
  }

  /** A tag whose dispatch fails stops the reader with that failure. */
  lemma {:induction false} RunStops(data: seq<Byte>, pos: nat, tag: Tag, after: nat, b: Body)
    requires ReadTag(data, pos) == Ok((tag, after)) && tag != IEOF
    requires Dispatch(data, after, tag, b).Err?
    ensures Run(data, pos, b) == Err(Dispatch(data, after, tag, b).error)
  {
    assert Run(data, pos, b) == Iteration(data, pos, b);
  }

  /** A mesh written with its storage under MEST reads back as the mesh
      `_parse_mesh` builds from its raw lists, with its storage, appended
      to the last object; a mesh whose index list does not build stops the
      reader with an error. */
  lemma {:induction false} MeshRoundTrip(m: WMesh, w: seq<Byte>, data: seq<Byte>, p: nat, q: nat, b: Body)
    requires MeshWritable(m) && WriteMesh(m) == Ok(w) && At(data, p, q, MESH + w)
    requires |b.objects| > 0
    ensures ReadBackMesh(m).Ok? ==> Run(data, p, b) == Run(data, q, AddMesh(b, ReadBackMesh(m).value))
    ensures ReadBackMesh(m).Err? ==> Run(data, p, b).Err?
  {
    var db := WriteMeshData(m).value;
    var eb := WriteTaggedStorage(MEST, m.extra).value;
    var a := p + 4;
    var n := a + |db|;
    Split(data, p, a, q, MESH, w);
    Split(data, a, n, q, db, eb);
    MeshParts(m, db, eb, data, p, a, n, q, b);
  }

  lemma {:induction false} MeshParts(m: WMesh, db: seq<Byte>, eb: seq<Byte>, data: seq<Byte>, p: nat, a: nat, n: nat, q: nat, b: Body)
    requires MeshWritable(m) && WriteMeshData(m) == Ok(db) && WriteTaggedStorage(MEST, m.extra) == Ok(eb)
    requires At(data, p, a, MESH) && At(data, a, n, db) && At(data, n, q, eb)
    requires |b.objects| > 0
    ensures ReadBackMesh(m).Ok? ==> Run(data, p, b) == Run(data, q, AddMesh(b, ReadBackMesh(m).value))
    ensures ReadBackMesh(m).Err? ==> Run(data, p, b).Err?
  {
    if ReadBackMesh(m).Ok? {
      MeshPartsRead(m, db, eb, data, p, a, n, q, b);
    } else {
      MeshDataRejected(m, db, data, p, a, n, b);
    }
  }

  lemma {:induction false} MeshPartsRead(m: WMesh, db: seq<Byte>, eb: seq<Byte>, data: seq<Byte>, p: nat, a: nat, n: nat, q: nat, b: Body)
    requires MeshWritable(m) && WriteMeshData(m) == Ok(db) && WriteTaggedStorage(MEST, m.extra) == Ok(eb)
    requires At(data, p, a, MESH) && At(data, a, n, db) && At(data, n, q, eb)
    requires |b.objects| > 0 && ReadBackMesh(m).Ok?
    ensures Run(data, p, b) == Run(data, q, AddMesh(b, ReadBackMesh(m).value))
  {
    var built := BuildMesh(WrittenRaw(m, 0)).value;
    MeshDataRead(m, db, data, p, a, n, b, built);
    MeshStorageRead(m.extra, eb, data, n, q, b, built);
    BuiltMeshExtra(m);
  }

  /** The mesh built from raw lists has no storage yet. */
  lemma {:induction false} BuiltMeshExtra(m: WMesh)
    requires ReadBackMesh(m).Ok?
    ensures var built := BuildMesh(WrittenRaw(m, 0)).value;
      built.(extra := built.extra + m.extra) == ReadBackMesh(m).value
  {
    var built := BuildMesh(WrittenRaw(m, 0)).value;
    assert built.extra + m.extra == m.extra;
  }

  /** A mesh written as `_write_mesh` writes it, with storage, loses that
      storage the way a contour does: the mesh appended to the last object
      has none. */
  lemma {:induction false} MeshAsWrittenMisread(m: WMesh, w: seq<Byte>, data: seq<Byte>, p: nat, q: nat, b: Body) returns (n: nat, next: nat)
    requires MeshWritable(m) && WriteMeshAsWritten(m) == Ok(w) && At(data, p, q, MESH + w)
    requires 0 < |m.extra| && 12 * |m.extra| < 128
    requires |b.objects| > 0 && BuildMesh(WrittenRaw(m, 0)).Ok?
    ensures Run(data, p, b) == Run(data, next, AddMesh(b, BuildMesh(WrittenRaw(m, 0)).value))
    ensures BuildMesh(WrittenRaw(m, 0)).value != ReadBackMesh(m).value
    ensures At(data, p + 4, n, WriteMeshData(m).value)
    ensures next == MisreadResume(data, n, m.extra)
  {
    var db := WriteMeshData(m).value;
    var sb := WriteGeneralStorage(m.extra).value;
    var a := p + 4;
    n := a + |db|;
    Split(data, p, a, q, MESH, w);
    Split(data, a, n, q, db, sb);
    next := MeshAsWrittenParts(m, db, sb, data, p, a, n, q, b);
  }

  lemma {:induction false} MeshAsWrittenParts(m: WMesh, db: seq<Byte>, sb: seq<Byte>, data: seq<Byte>, p: nat, a: nat, n: nat, q: nat, b: Body) returns (next: nat)
    requires MeshWritable(m) && WriteMeshData(m) == Ok(db) && WriteGeneralStorage(m.extra) == Ok(sb)
    requires At(data, p, a, MESH) && At(data, a, n, db) && At(data, n, q, sb)
    requires 0 < |m.extra| && 12 * |m.extra| < 128
    requires |b.objects| > 0 && BuildMesh(WrittenRaw(m, 0)).Ok?
    ensures Run(data, p, b) == Run(data, next, AddMesh(b, BuildMesh(WrittenRaw(m, 0)).value))
    ensures next == MisreadResume(data, n, m.extra)
  {
    MeshDataRead(m, db, data, p, a, n, b, BuildMesh(WrittenRaw(m, 0)).value);
    next := UntaggedStorageMisread(m.extra, sb, data, n, q, AddMesh(b, BuildMesh(WrittenRaw(m, 0)).value));
  }

  // -------------------------------------------------- IMAT, SLAN, MINX

  /** `_write_imat` as written, after its tag. */
  function WriteImatAsWritten(imat: Record): (r: Result<seq<Byte>>)
    ensures r == WriteImatWith(IMAT_PREFIX_AS_WRITTEN, imat)
  {
    WriteImatWith(IMAT_PREFIX_AS_WRITTEN, imat)
  }

  /** `_write_imat` with the prefix the chunk's length calls for. */
  function WriteImat(imat: Record): (r: Result<seq<Byte>>)
    ensures r == WriteImatWith(IMAT_PREFIX, imat)
  {
    WriteImatWith(IMAT_PREFIX, imat)
  }

  /** The pieces `WriteImatWith` joins. */
  lemma {:induction false} ImatPieces(prefix: nat, imat: Record, w: seq<Byte>) returns (size: seq<Byte>, body: seq<Byte>)
    requires WriteImatWith(prefix, imat) == Ok(w)
    ensures WriteChunkSize(prefix) == Ok(size) && WriteSpec(Imat(), imat) == Ok(body)
    ensures w == size + body && |size| == 4 && |body| == 16
  {
    ImatWidth();
    WriteSpecWidth(Imat(), imat);
    size := WriteChunkSize(prefix).value;
    body := WriteSpec(Imat(), imat).value;
  }

  /** A written IMAT chunk parses back as its record, whatever its prefix
      says: `_parse_imat` reads the prefix and ignores it. */
  lemma {:induction false} ImatChunkRead(prefix: nat, imat: Record, w: seq<Byte>, data: seq<Byte>, a: nat, q: nat)
    requires Conforms(Imat(), imat) && WriteImatWith(prefix, imat) == Ok(w) && At(data, a, q, w)
    ensures ParseImat(data, a) == Ok((imat, q))
  {
    var size, body := ImatPieces(prefix, imat, w);
    Split(data, a, a + 4, q, size, body);
    ImatCodable();
    HeaderAt(Imat(), imat, body, data, a + 4, q);
  }

  /** The reader's loop past an IMAT tag whose record parses. */
  lemma {:induction false} ImatTagRead(data: seq<Byte>, p: nat, a: nat, b: Body, imat: Record, q: nat)
    requires ReadTag(data, p) == Ok((IMAT, a)) && ParseImat(data, a) == Ok((imat, q))
    ensures Run(data, p, b) == Run(data, q, b.(imat := Some(imat)))
  {
    TagsDistinct();
    assert Dispatch(data, a, IMAT, b) == Ok((b.(imat := Some(imat)), q));
    RunThrough(data, p, IMAT, a, b, b.(imat := Some(imat)), q);
  }

  /** An IMAT chunk written with either prefix sets the model's material
      record, the last one read winning, and the loop goes on right after
      the record. */
  lemma {:induction false} ImatRoundTrip(prefix: nat, imat: Record, w: seq<Byte>, data: seq<Byte>, p: nat, q: nat, b: Body)
    requires Conforms(Imat(), imat) && WriteImatWith(prefix, imat) == Ok(w) && At(data, p, q, IMAT + w)
    ensures Run(data, p, b) == Run(data, q, b.(imat := Some(imat)))
  {
    var a := p + 4;
    Split(data, p, a, q, IMAT, w);
    TagsAreAscii();
    TagAt(IMAT, data, p, a);
    ImatChunkRead(prefix, imat, w, data, a, q);
    ImatTagRead(data, p, a, b, imat, q);
  }

  /** As written, the IMAT prefix does not count the chunk's bytes: a
      reader that skips the chunk by its prefix, as this reader skips
      every chunk it does not know, lands 32 bytes past its end. */
  lemma {:induction false} ImatPrefixOvershoots(imat: Record, w: seq<Byte>, data: seq<Byte>, a: nat, q: nat)
    requires WriteImatAsWritten(imat) == Ok(w) && At(data, a, q, w)
    ensures FromBE(w[..4]) == |w| - 4 + 32
    ensures SkipUnknown(data, a) == Ok(Min(q + 32, |data|))
  {
    var size, body := ImatPieces(IMAT_PREFIX_AS_WRITTEN, imat, w);
    Split(data, a, a + 4, q, size, body);
    ChunkSizeRoundTrip(IMAT_PREFIX_AS_WRITTEN, data, a);
  }

  /** With the prefix 16, skipping the chunk by its prefix lands right
      after it. */
  lemma {:induction false} ImatPrefixSkipsExactly(imat: Record, w: seq<Byte>, data: seq<Byte>, a: nat, q: nat)
    requires WriteImat(imat) == Ok(w) && At(data, a, q, w)
    ensures FromBE(w[..4]) == |w| - 4
    ensures SkipUnknown(data, a) == Ok(q)
  {
    var size, body := ImatPieces(IMAT_PREFIX, imat, w);
    Split(data, a, a + 4, q, size, body);
    ChunkSizeRoundTrip(IMAT_PREFIX, data, a);
  }

  /** SLAN and MINX are tags the reader skips. */
  lemma {:induction false} BlobTagsUnknown()
    ensures |SLAN| == 4 && IsAscii(SLAN) && !KnownTag(SLAN) && SLAN != IEOF
    ensures |MINX| == 4 && IsAscii(MINX) && !KnownTag(MINX) && MINX != IEOF
  {
    TagsAreAscii();
  }

  /** A chunk under a tag the reader does not know, whose prefix reads
      `size`: the loop goes on `size` bytes after the prefix, or at the
      end of the data. */
  lemma {:induction false} SkipSized(tag: Tag, chunk: seq<Byte>, size: nat, data: seq<Byte>, p: nat, q: nat, b: Body) returns (next: nat)
    requires |tag| == 4 && IsAscii(tag) && !KnownTag(tag) && tag != IEOF
    requires 4 <= |chunk| && FromBE(chunk[..4]) == size && At(data, p, q, tag + chunk)
    ensures next == Min(p + 8 + size, |data|)
    ensures Run(data, p, b) == Run(data, next, b)
  {
    var a := p + 4;
    Split(data, p, a, q, tag, chunk);
    TagAt(tag, data, p, a);
    assert data[a..a + 4] == chunk[..4];
    next := Min(a + 4 + size, |data|);
    RunThrough(data, p, tag, a, b, b, next);
  }

  /** A slicer angle is skipped by its prefix 48: exactly when its payload
      is 48 bytes long does the loop go on right after it. */
  lemma {:induction false} SlicerAngleSkipped(payload: seq<Byte>, data: seq<Byte>, p: nat, q: nat, b: Body) returns (next: nat)
    requires At(data, p, q, SLAN + WriteSlicerAngle(payload))
    ensures Run(data, p, b) == Run(data, next, b)
    ensures next == Min(p + 56, |data|)
    ensures q < |data| ==> (next == q <==> |payload| == 48)
    ensures |payload| == 48 ==> next == q
  {
    BlobTagsUnknown();
    next := SkipSized(SLAN, WriteSlicerAngle(payload), 48, data, p, q, b);
  }

  /** MINX is skipped by its prefix 72: exactly when its payload is 72
      bytes long does the loop go on right after it. */
  lemma {:induction false} MinxSkipped(payload: seq<Byte>, data: seq<Byte>, p: nat, q: nat, b: Body) returns (next: nat)
    requires At(data, p, q, MINX + WriteMinx(payload))
    ensures Run(data, p, b) == Run(data, next, b)
    ensures next == Min(p + 80, |data|)
    ensures q < |data| ==> (next == q <==> |payload| == 72)
    ensures |payload| == 72 ==> next == q
  {
    BlobTagsUnknown();
    next := SkipSized(MINX, WriteMinx(payload), 72, data, p, q, b);
  }

  // ---------------------------------------------------------- sequences

  /** What `_write_to_specification` writes is as wide as the table. */
  lemma {:induction false} WriteSpecWidth(t: Table, m: Record)
    ensures WriteSpec(t, m).Ok? ==> |WriteSpec(t, m).value| == TableWidth(t)
  {
    AtomsTableWidth(t);
  }

  /** The two halves of a run of bytes. */
  lemma {:induction false} Split(data: seq<Byte>, p: nat, m: nat, q: nat, a: seq<Byte>, b: seq<Byte>)
    requires At(data, p, q, a + b) && m == p + |a|
    ensures At(data, p, m, a) && At(data, m, q, b)
  {
    assert data[p..m] == (a + b)[..|a|];
    assert data[m..q] == (a + b)[|a|..];
  }

  /** A slice of a slice is a slice. */
  lemma {:induction false} Within(data: seq<Byte>, pos: nat, n: nat, lo: nat, hi: nat)
    requires pos + n <= |data| && lo <= hi <= n
    ensures data[pos..pos + n][lo..hi] == data[pos + lo..pos + hi]
  {
    var s := data[pos..pos + n][lo..hi];
    assert forall i :: 0 <= i < |s| ==> s[i] == data[pos + lo + i];
  }
}
