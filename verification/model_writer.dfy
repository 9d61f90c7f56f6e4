/** `_write_object` and `write_model` of `src/imodmodel/writers.py`, as
    written and with the contour, mesh and IMAT chunks corrected, and the
    model the reader of `src/imodmodel/parsers.py` takes back from a
    written file. */
module ModelWriter {
  import opened Wrappers
  import opened Bytes
  import opened FieldCodec
  import opened Layouts
  import opened Framing
  import opened GeneralStorage
  import opened Models
  import opened Parsers
  import opened Writers

  // ------------------------------------------------------------- writing

  /** The writer as the code has it, or with COST and MEST in front of
      contour and mesh storage and 16 as the IMAT prefix. */
  datatype Mode = AsWritten | Corrected

  function ContourBytes(mode: Mode, c: WContour): Result<seq<Byte>>
  {
    if mode == Corrected then WriteContour(c) else WriteContourAsWritten(c)
  }

  function MeshBytes(mode: Mode, m: WMesh): Result<seq<Byte>>
  {
    if mode == Corrected then WriteMesh(m) else WriteMeshAsWritten(m)
  }

  /** The `IMAT` chunk of `_write_object`, written only when there is a
      record. */
  function ImatChunk(mode: Mode, imat: Option<Record>): Result<seq<Byte>>
  {
    if imat.None? then Ok([])
    else
      var w :- if mode == Corrected then WriteImat(imat.value) else WriteImatAsWritten(imat.value);
      Ok(IMAT + w)
  }

  /** The contour loop of `_write_object`: CONT and the contour, in turn. */
  function WriteContours(mode: Mode, cs: seq<WContour>): (r: Result<seq<Byte>>)
    ensures r.Ok? <==> forall k :: 0 <= k < |cs| ==> ContourBytes(mode, cs[k]).Ok?
  {
    if |cs| == 0 then Ok([])
    else
      assert forall k :: 1 <= k < |cs| ==> cs[1..][k - 1] == cs[k];
      var w :- ContourBytes(mode, cs[0]);
      var rest :- WriteContours(mode, cs[1..]);
      Ok(CONT + w + rest)
  }

  /** The mesh loop of `_write_object`: MESH and the mesh, in turn. */
  function WriteMeshes(mode: Mode, ms: seq<WMesh>): (r: Result<seq<Byte>>)
    ensures r.Ok? <==> forall k :: 0 <= k < |ms| ==> MeshBytes(mode, ms[k]).Ok?
  {
    if |ms| == 0 then Ok([])
    else
      assert forall k :: 1 <= k < |ms| ==> ms[1..][k - 1] == ms[k];
      var w :- MeshBytes(mode, ms[0]);
      var rest :- WriteMeshes(mode, ms[1..]);
      Ok(MESH + w + rest)
  }

  /** `_write_object`: the header, the contours, the meshes, the IMAT chunk
      and the object's storage under OBST. */
  function WriteObject(mode: Mode, o: WObject): Result<seq<Byte>>
  {
    var header :- WriteSpec(ObjectHeader(), o.header);
    var contours :- WriteContours(mode, o.contours);
    var meshes :- WriteMeshes(mode, o.meshes);
    var imat :- ImatChunk(mode, o.imat);
    var extra :- WriteTaggedStorage(OBST, o.extra);
    Ok(header + contours + meshes + imat + extra)
  }

  /** The object loop of `write_model`: OBJT and the object, in turn. */
  function WriteObjects(mode: Mode, os: seq<WObject>): Result<seq<Byte>>
  {
    if |os| == 0 then Ok([])
    else
      var w :- WriteObject(mode, os[0]);
      var rest :- WriteObjects(mode, os[1..]);
      Ok(OBJT + w + rest)
  }

  /** The slicer-angle loop of `write_model`: SLAN and the chunk, in turn. */
  function WriteSlicerAngles(ps: seq<seq<Byte>>): (r: seq<Byte>)
    ensures |r| == 8 * |ps| + Total(ps)
  {
    if |ps| == 0 then []
    else SLAN + WriteSlicerAngle(ps[0]) + WriteSlicerAngles(ps[1..])
  }

  /** The summed lengths of some byte strings. */
  function Total(ps: seq<seq<Byte>>): nat
  {
    if |ps| == 0 then 0 else |ps[0]| + Total(ps[1..])
  }

  /** The MINX chunk of `write_model`, written only when there is one. */
  function MinxChunk(minx: Option<seq<Byte>>): seq<Byte>
  {
    if minx.Some? then MINX + WriteMinx(minx.value) else []
  }

  /** `write_model`: ID, header, the objects, the slicer angles, MINX, the
      model's storage under MOST, and the bare IEOF tag. */
  function WriteModel(mode: Mode, m: WModel): Result<seq<Byte>>
  {
    var id :- WriteSpec(Id(), m.id);
    var header :- WriteSpec(ModelHeader(), m.header);
    var objects :- WriteObjects(mode, m.objects);
    var extra :- WriteTaggedStorage(MOST, m.extra);
    Ok(id + header + objects + WriteSlicerAngles(m.slicerAngles) + MinxChunk(m.minx) + extra + IEOF)
  }

  // --------------------------------------------------------- reading back

  function ReadBackContours(cs: seq<WContour>): (r: seq<Contour>)
    ensures |r| == |cs|
  {
    if |cs| == 0 then [] else [ReadBackContour(cs[0])] + ReadBackContours(cs[1..])
  }

  function ReadBackMeshes(ms: seq<WMesh>): (r: Result<seq<Mesh>>)
    ensures r.Ok? ==> |r.value| == |ms|
  {
    if |ms| == 0 then Ok([])
    else
      var m :- ReadBackMesh(ms[0]);
      var rest :- ReadBackMeshes(ms[1..]);
      Ok([m] + rest)
  }

  /** The object the reader builds from a written one: it keeps no header. */
  function ReadBackObject(o: WObject): Result<Object>
  {
    var meshes :- ReadBackMeshes(o.meshes);
    Ok(Object(ReadBackContours(o.contours), meshes, o.extra))
  }

  function ReadBackObjects(os: seq<WObject>): (r: Result<seq<Object>>)
    ensures r.Ok? ==> |r.value| == |os|
  {
    if |os| == 0 then Ok([])
    else
      var o :- ReadBackObject(os[0]);
      var rest :- ReadBackObjects(os[1..]);
      Ok([o] + rest)
  }

  /** The model's material record after the objects: each object's IMAT
      replaces the one before. */
  function LastImat(os: seq<WObject>, imat: Option<Record>): Option<Record>
  {
    if |os| == 0 then imat
    else LastImat(os[1..], if os[0].imat.Some? then os[0].imat else imat)
  }

  /** The model the reader builds from a written one. */
  function ReadBackModel(m: WModel): Result<ImodModel>
  {
    var objects :- ReadBackObjects(m.objects);
    var header :- ValidateName(m.header);
    Ok(ImodModel(m.id, header, objects, LastImat(m.objects, None), m.extra))
  }

  // ---------------------------------------------------------- writability

  /** A header whose `name` field is bytes the name validator accepts. */
  predicate NameReads(h: Record)
  {
    "name" in h && h["name"].Single? && h["name"].v.BytesVal? && TrimName(h["name"].v.bytes).Ok?
  }

  /** A contour that writes and reads back in the given mode: the writer
      as written loses contour storage, so it must have none. */
  predicate ContourReads(mode: Mode, c: WContour)
  {
    ContourWritable(c) && (mode == Corrected || c.extra == [])
  }

  /** A mesh that writes and reads back in the given mode. */
  predicate MeshReads(mode: Mode, m: WMesh)
  {
    MeshWritable(m) && (mode == Corrected || m.extra == [])
  }

  /** An object that writes and reads back in the given mode. */
  predicate ObjectReads(mode: Mode, o: WObject)
  {
    && Conforms(ObjectHeader(), o.header) && NameReads(o.header)
    && (forall k :: 0 <= k < |o.contours| ==> ContourReads(mode, o.contours[k]))
    && (forall k :: 0 <= k < |o.meshes| ==> MeshReads(mode, o.meshes[k]))
    && (o.imat.Some? ==> Conforms(Imat(), o.imat.value))
    && StorageWritable(o.extra)
  }

  predicate AllObjectsRead(mode: Mode, os: seq<WObject>)
  {
    forall k :: 0 <= k < |os| ==> ObjectReads(mode, os[k])
  }

  /** A model that writes and reads back: conforming records whose text
      decodes, objects that write, slicer angles of 48 bytes and a MINX
      payload of 72, as their prefixes say. */
  predicate ModelWritable(mode: Mode, m: WModel)
  {
    && Conforms(Id(), m.id) && ValidateText(m.id, "IMOD_file_id").Ok? && ValidateText(m.id, "version_id").Ok?
    && Conforms(ModelHeader(), m.header) && NameReads(m.header)
    && AllObjectsRead(mode, m.objects)
    && (forall k :: 0 <= k < |m.slicerAngles| ==> |m.slicerAngles[k]| == 48)
    && (m.minx.Some? ==> |m.minx.value| == 72)
    && StorageWritable(m.extra)
  }

  // ------------------------------------------------- what the reader builds

  /** `objects[-1].contours.append(c)` for each c in turn. */
  function AddContours(b: Body, cs: seq<Contour>): (r: Body)
    requires |b.objects| > 0
    ensures |r.objects| == |b.objects|
    decreases |cs|
  {
    if |cs| == 0 then b else AddContours(AddContour(b, cs[0]), cs[1..])
  }

  /** `objects[-1].meshes.append(m)` for each m in turn. */
  function AddMeshes(b: Body, ms: seq<Mesh>): (r: Body)
    requires |b.objects| > 0
    ensures |r.objects| == |b.objects|
    decreases |ms|
  {
    if |ms| == 0 then b else AddMeshes(AddMesh(b, ms[0]), ms[1..])
  }

  /** Replacing the last object twice keeps the second. */
  lemma {:induction false} WithLastTwice(objects: seq<Object>, o: Object, o': Object)
    requires |objects| > 0
    ensures WithLast(WithLast(objects, o), o') == WithLast(objects, o')
  {
  }

  /** Appending contours one by one appends them all to the last object. */
  lemma {:induction false} AddContoursLast(b: Body, cs: seq<Contour>)
    requires |b.objects| > 0
    ensures var last := b.objects[|b.objects| - 1];
      AddContours(b, cs) == b.(objects := WithLast(b.objects, last.(contours := last.contours + cs)))
    decreases |cs|
  {
    var last := b.objects[|b.objects| - 1];
    if |cs| == 0 {
      assert last.(contours := last.contours + cs) == last;
      assert WithLast(b.objects, last) == b.objects;
    } else {
      var last1 := last.(contours := last.contours + [cs[0]]);
      var b1 := AddContour(b, cs[0]);
      AddContoursLast(b1, cs[1..]);
      assert b1.objects[|b1.objects| - 1] == last1;
      WithLastTwice(b.objects, last1, last1.(contours := last1.contours + cs[1..]));
      assert last1.contours + cs[1..] == last.contours + cs;
    }
  }

  /** Appending meshes one by one appends them all to the last object. */
  lemma {:induction false} AddMeshesLast(b: Body, ms: seq<Mesh>)
    requires |b.objects| > 0
    ensures var last := b.objects[|b.objects| - 1];
      AddMeshes(b, ms) == b.(objects := WithLast(b.objects, last.(meshes := last.meshes + ms)))
    decreases |ms|
  {
    var last := b.objects[|b.objects| - 1];
    if |ms| == 0 {
      assert last.(meshes := last.meshes + ms) == last;
      assert WithLast(b.objects, last) == b.objects;
    } else {
      var last1 := last.(meshes := last.meshes + [ms[0]]);
      var b1 := AddMesh(b, ms[0]);
      AddMeshesLast(b1, ms[1..]);
      assert b1.objects[|b1.objects| - 1] == last1;
      WithLastTwice(b.objects, last1, last1.(meshes := last1.meshes + ms[1..]));
      assert last1.meshes + ms[1..] == last.meshes + ms;
    }
  }

  /** What an object's chunks do to the body: a fresh object, then its
      contours, meshes, material record and storage, is the read-back
      object appended. */
  lemma {:induction false} ObjectBuilt(b: Body, cs: seq<Contour>, ms: seq<Mesh>, imat: Option<Record>, ss: seq<Storage>)
    ensures var b0 := b.(objects := b.objects + [EmptyObject()]);
      var b2 := AddMeshes(AddContours(b0, cs), ms);
      AddObjectExtra(b2.(imat := if imat.Some? then imat else b2.imat), ss)
        == b.(objects := b.objects + [Object(cs, ms, ss)], imat := if imat.Some? then imat else b.imat)
  {
    var b0 := b.(objects := b.objects + [EmptyObject()]);
    var b1 := AddContours(b0, cs);
    AddContoursLast(b0, cs);
    assert EmptyObject().(contours := [] + cs) == Object(cs, [], []);
    assert b1.objects == b.objects + [Object(cs, [], [])];
    AddMeshesLast(b1, ms);
    var b2 := AddMeshes(b1, ms);
    assert Object(cs, [], []).(meshes := [] + ms) == Object(cs, ms, []);
    assert b2.objects == b.objects + [Object(cs, ms, [])];
    var b3 := b2.(imat := if imat.Some? then imat else b2.imat);
    assert Object(cs, ms, []).(extra := [] + ss) == Object(cs, ms, ss);
  }

  // ---------------------------------------------------- reading the chunks

  /** Without contour storage, the contour as written is the corrected
      one. */
  lemma {:induction false} ContourModesAgree(c: WContour)
    requires c.extra == []
    ensures WriteContourAsWritten(c) == WriteContour(c)
  {
  }

  lemma {:induction false} MeshModesAgree(m: WMesh)
    requires m.extra == []
    ensures WriteMeshAsWritten(m) == WriteMesh(m)
  {
  }

  lemma {:induction false} ContourIn(mode: Mode, c: WContour, w: seq<Byte>, data: seq<Byte>, p: nat, q: nat, b: Body)
    requires ContourReads(mode, c)
    requires ContourBytes(mode, c) == Ok(w) && At(data, p, q, CONT + w) && |b.objects| > 0
    ensures Run(data, p, b) == Run(data, q, AddContour(b, ReadBackContour(c)))
  {
    if mode == AsWritten {
      ContourModesAgree(c);
    }
    ContourRoundTrip(c, w, data, p, q, b);
  }

  /** The written contours of an object read back, in order, as contours
      of the last object. */
  lemma {:induction false} ContoursRead(mode: Mode, cs: seq<WContour>, w: seq<Byte>, data: seq<Byte>, p: nat, q: nat, b: Body)
    requires forall k :: 0 <= k < |cs| ==> ContourReads(mode, cs[k])
    requires WriteContours(mode, cs) == Ok(w) && At(data, p, q, w) && |b.objects| > 0
    ensures Run(data, p, b) == Run(data, q, AddContours(b, ReadBackContours(cs)))
    decreases |cs|
  {
    if |cs| > 0 {
      var w0, rest := ContoursHead(mode, cs, w);
      ContoursReadTail(mode, cs);
      var m := p + |CONT + w0|;
      Split(data, p, m, q, CONT + w0, rest);
      ContourIn(mode, cs[0], w0, data, p, m, b);
      ContoursRead(mode, cs[1..], rest, data, m, q, AddContour(b, ReadBackContour(cs[0])));
    }
  }

  /** The first written mesh and the rest. */
  lemma {:induction false} MeshesHead(mode: Mode, ms: seq<WMesh>, w: seq<Byte>) returns (w0: seq<Byte>, rest: seq<Byte>)
    requires |ms| > 0 && WriteMeshes(mode, ms) == Ok(w)
    ensures MeshBytes(mode, ms[0]) == Ok(w0) && WriteMeshes(mode, ms[1..]) == Ok(rest)
    ensures w == (MESH + w0) + rest
  {
    w0 := MeshBytes(mode, ms[0]).value;
    rest := WriteMeshes(mode, ms[1..]).value;
  }

  /** The first mesh read back and the rest. */
  lemma {:induction false} MeshesBackHead(ms: seq<WMesh>, meshes: seq<Mesh>)
    requires |ms| > 0 && ReadBackMeshes(ms) == Ok(meshes)
    ensures |meshes| > 0 && ReadBackMesh(ms[0]) == Ok(meshes[0]) && ReadBackMeshes(ms[1..]) == Ok(meshes[1..])
  {
  }

  lemma {:induction false} MeshesReadTail(mode: Mode, ms: seq<WMesh>)
    requires |ms| > 0 && forall k :: 0 <= k < |ms| ==> MeshReads(mode, ms[k])
    ensures MeshReads(mode, ms[0]) && forall k :: 0 <= k < |ms[1..]| ==> MeshReads(mode, ms[1..][k])
  {
    assert forall k :: 1 <= k < |ms| ==> ms[1..][k - 1] == ms[k];
  }

  /** The first written contour and the rest. */
  lemma {:induction false} ContoursHead(mode: Mode, cs: seq<WContour>, w: seq<Byte>) returns (w0: seq<Byte>, rest: seq<Byte>)
    requires |cs| > 0 && WriteContours(mode, cs) == Ok(w)
    ensures ContourBytes(mode, cs[0]) == Ok(w0) && WriteContours(mode, cs[1..]) == Ok(rest)
    ensures w == (CONT + w0) + rest
  {
    w0 := ContourBytes(mode, cs[0]).value;
    rest := WriteContours(mode, cs[1..]).value;
  }

  lemma {:induction false} ContoursReadTail(mode: Mode, cs: seq<WContour>)
    requires |cs| > 0 && forall k :: 0 <= k < |cs| ==> ContourReads(mode, cs[k])
    ensures ContourReads(mode, cs[0]) && forall k :: 0 <= k < |cs[1..]| ==> ContourReads(mode, cs[1..][k])
  {
    assert forall k :: 1 <= k < |cs| ==> cs[1..][k - 1] == cs[k];
  }

  lemma {:induction false} MeshIn(mode: Mode, m: WMesh, w: seq<Byte>, data: seq<Byte>, p: nat, q: nat, b: Body, mesh: Mesh)
    requires MeshReads(mode, m) && ReadBackMesh(m) == Ok(mesh)
    requires MeshBytes(mode, m) == Ok(w) && At(data, p, q, MESH + w) && |b.objects| > 0
    ensures Run(data, p, b) == Run(data, q, AddMesh(b, mesh))
  {
    if mode == AsWritten {
      MeshModesAgree(m);
    }
    MeshRoundTrip(m, w, data, p, q, b);
  }

  /** The written meshes of an object read back, in order, as meshes of
      the last object. */
  lemma {:induction false} MeshesRead(mode: Mode, ms: seq<WMesh>, w: seq<Byte>, data: seq<Byte>, p: nat, q: nat, b: Body, meshes: seq<Mesh>)
    requires forall k :: 0 <= k < |ms| ==> MeshReads(mode, ms[k])
    requires ReadBackMeshes(ms) == Ok(meshes)
    requires WriteMeshes(mode, ms) == Ok(w) && At(data, p, q, w) && |b.objects| > 0
    ensures Run(data, p, b) == Run(data, q, AddMeshes(b, meshes))
    decreases |ms|
  {
    if |ms| > 0 {
      var w0, rest := MeshesHead(mode, ms, w);
      MeshesBackHead(ms, meshes);
      MeshesReadTail(mode, ms);
      var m := p + |MESH + w0|;
      Split(data, p, m, q, MESH + w0, rest);
      MeshIn(mode, ms[0], w0, data, p, m, b, meshes[0]);
      MeshesRead(mode, ms[1..], rest, data, m, q, AddMesh(b, meshes[0]), meshes[1..]);
    }
  }

  // -------------------------------------------------------------- objects

  /** A written object header parses back; `_parse_object` drops it and
      starts an empty object. */
  lemma {:induction false} ObjectHeaderRead(h: Record, hb: seq<Byte>, data: seq<Byte>, a: nat, q: nat)
    requires Conforms(ObjectHeader(), h) && NameReads(h)
    requires WriteSpec(ObjectHeader(), h) == Ok(hb) && At(data, a, q, hb)
    ensures ParseObject(data, a) == Ok((EmptyObject(), q))
  {
    ObjectHeaderCodable();
    ObjectHeaderWidth();
    WriteSpecWidth(ObjectHeader(), h);
    HeaderAt(ObjectHeader(), h, hb, data, a, q);
    ObjectHeaderName(data, a);
  }

  /** The reader's loop past an OBJT tag whose header parses. */
  lemma {:induction false} ObjtTagRead(data: seq<Byte>, p: nat, a: nat, b: Body, q: nat)
    requires ReadTag(data, p) == Ok((OBJT, a)) && ParseObject(data, a) == Ok((EmptyObject(), q))
    ensures Run(data, p, b) == Run(data, q, b.(objects := b.objects + [EmptyObject()]))
  {
    RunThrough(data, p, OBJT, a, b, b.(objects := b.objects + [EmptyObject()]), q);
  }

  /** An object's IMAT chunk, in either mode, sets the model's material
      record; none leaves it as it is. */
  lemma {:induction false} ImatChunkRead(mode: Mode, imat: Option<Record>, w: seq<Byte>, data: seq<Byte>, p: nat, q: nat, b: Body)
    requires imat.Some? ==> Conforms(Imat(), imat.value)
    requires ImatChunk(mode, imat) == Ok(w) && At(data, p, q, w)
    ensures Run(data, p, b) == Run(data, q, b.(imat := if imat.Some? then imat else b.imat))
  {
    if imat.None? {
      assert b.(imat := b.imat) == b;
    } else {
      var prefix := if mode == Corrected then IMAT_PREFIX else IMAT_PREFIX_AS_WRITTEN;
      var iw := WriteImatWith(prefix, imat.value).value;
      assert w == IMAT + iw;
      ImatRoundTrip(prefix, imat.value, iw, data, p, q, b);
    }
  }

  /** The reader's loop past an OBST tag whose storage parses. */
  lemma {:induction false} ObstTagRead(data: seq<Byte>, p: nat, a: nat, b: Body, ss: seq<Storage>, q: nat)
    requires ReadTag(data, p) == Ok((OBST, a)) && ParseGeneralStorage(data, a) == Ok((ss, q))
    requires |b.objects| > 0
    ensures Run(data, p, b) == Run(data, q, AddObjectExtra(b, ss))
  {
    DispatchObst(data, a, b, ss, q);
    RunThrough(data, p, OBST, a, b, AddObjectExtra(b, ss), q);
  }

  /** Object storage written under OBST reaches the last object. */
  lemma {:induction false} ObjectStorageRead(ss: seq<Storage>, eb: seq<Byte>, data: seq<Byte>, p: nat, q: nat, b: Body)
    requires StorageWritable(ss) && WriteTaggedStorage(OBST, ss) == Ok(eb) && At(data, p, q, eb)
    requires |b.objects| > 0
    ensures Run(data, p, b) == Run(data, q, AddObjectExtra(b, ss))
  {
    if |ss| == 0 {
      var last := b.objects[|b.objects| - 1];
      assert last.(extra := last.extra + ss) == last;
      assert WithLast(b.objects, last) == b.objects;
    } else {
      var sw := WriteGeneralStorage(ss).value;
      var a := p + 4;
      Split(data, p, a, q, OBST, sw);
      TagsAreAscii();
      TagAt(OBST, data, p, a);
      StorageAt(ss, sw, data, a, q);
      ObstTagRead(data, p, a, b, ss, q);
    }
  }

  /** The pieces `WriteObject` joins. */
  lemma {:induction false} ObjectPieces(mode: Mode, o: WObject, w: seq<Byte>)
    returns (hb: seq<Byte>, cb: seq<Byte>, mb: seq<Byte>, ib: seq<Byte>, eb: seq<Byte>)
    requires WriteObject(mode, o) == Ok(w)
    ensures WriteSpec(ObjectHeader(), o.header) == Ok(hb) && WriteContours(mode, o.contours) == Ok(cb)
    ensures WriteMeshes(mode, o.meshes) == Ok(mb) && ImatChunk(mode, o.imat) == Ok(ib)
    ensures WriteTaggedStorage(OBST, o.extra) == Ok(eb)
    ensures w == (((hb + cb) + mb) + ib) + eb
  {
    hb := WriteSpec(ObjectHeader(), o.header).value;
    cb := WriteContours(mode, o.contours).value;
    mb := WriteMeshes(mode, o.meshes).value;
    ib := ImatChunk(mode, o.imat).value;
    eb := WriteTaggedStorage(OBST, o.extra).value;
  }

  /** An OBJT tag and a written object read back as the object, appended,
      with the model's material record replaced when the object has one. */
  lemma {:induction false} ObjectRead(mode: Mode, o: WObject, w: seq<Byte>, data: seq<Byte>, p: nat, q: nat, b: Body, obj: Object)
    requires ObjectReads(mode, o) && ReadBackObject(o) == Ok(obj)
    requires WriteObject(mode, o) == Ok(w) && At(data, p, q, OBJT + w)
    ensures Run(data, p, b) == Run(data, q, b.(objects := b.objects + [obj], imat := if o.imat.Some? then o.imat else b.imat))
  {
    var hb, cb, mb, ib, eb := ObjectPieces(mode, o, w);
    var a := p + 4;
    var n1 := a + |hb|;
    var n2 := a + |hb + cb|;
    var n3 := a + |(hb + cb) + mb|;
    var n4 := a + |((hb + cb) + mb) + ib|;
    Split(data, p, a, q, OBJT, w);
    Split(data, a, n4, q, ((hb + cb) + mb) + ib, eb);
    Split(data, a, n3, n4, (hb + cb) + mb, ib);
    Split(data, a, n2, n3, hb + cb, mb);
    Split(data, a, n1, n2, hb, cb);
    ObjectParts(mode, o, hb, cb, mb, ib, eb, data, p, a, n1, n2, n3, n4, q, b, obj);
  }

  lemma {:induction false} ObjectParts(mode: Mode, o: WObject, hb: seq<Byte>, cb: seq<Byte>, mb: seq<Byte>, ib: seq<Byte>, eb: seq<Byte>,
                                       data: seq<Byte>, p: nat, a: nat, n1: nat, n2: nat, n3: nat, n4: nat, q: nat, b: Body, obj: Object)
    requires ObjectReads(mode, o) && ReadBackObject(o) == Ok(obj)
    requires WriteSpec(ObjectHeader(), o.header) == Ok(hb) && WriteContours(mode, o.contours) == Ok(cb)
    requires WriteMeshes(mode, o.meshes) == Ok(mb) && ImatChunk(mode, o.imat) == Ok(ib)
    requires WriteTaggedStorage(OBST, o.extra) == Ok(eb)
    requires At(data, p, a, OBJT) && At(data, a, n1, hb) && At(data, n1, n2, cb) && At(data, n2, n3, mb)
    requires At(data, n3, n4, ib) && At(data, n4, q, eb)
    ensures Run(data, p, b) == Run(data, q, b.(objects := b.objects + [obj], imat := if o.imat.Some? then o.imat else b.imat))
  {
    var meshes := ReadBackMeshes(o.meshes).value;
    var cs := ReadBackContours(o.contours);
    assert obj == Object(cs, meshes, o.extra);
    TagsAreAscii();
    TagAt(OBJT, data, p, a);
    ObjectHeaderRead(o.header, hb, data, a, n1);
    var b0 := b.(objects := b.objects + [EmptyObject()]);
    ObjtTagRead(data, p, a, b, n1);
    ContoursRead(mode, o.contours, cb, data, n1, n2, b0);
    var b1 := AddContours(b0, cs);
    MeshesRead(mode, o.meshes, mb, data, n2, n3, b1, meshes);
    var b2 := AddMeshes(b1, meshes);
    ImatChunkRead(mode, o.imat, ib, data, n3, n4, b2);
    var b3 := b2.(imat := if o.imat.Some? then o.imat else b2.imat);
    ObjectStorageRead(o.extra, eb, data, n4, q, b3);
    ObjectBuilt(b, cs, meshes, o.imat, o.extra);
  }

  // ---------------------------------------------------------------- model

  lemma {:induction false} ObjectsHead(mode: Mode, os: seq<WObject>, w: seq<Byte>) returns (w0: seq<Byte>, rest: seq<Byte>)
    requires |os| > 0 && WriteObjects(mode, os) == Ok(w)
    ensures WriteObject(mode, os[0]) == Ok(w0) && WriteObjects(mode, os[1..]) == Ok(rest)
    ensures w == (OBJT + w0) + rest
  {
    w0 := WriteObject(mode, os[0]).value;
    rest := WriteObjects(mode, os[1..]).value;
  }

  lemma {:induction false} ObjectsBackHead(os: seq<WObject>, objs: seq<Object>)
    requires |os| > 0 && ReadBackObjects(os) == Ok(objs)
    ensures |objs| > 0 && ReadBackObject(os[0]) == Ok(objs[0]) && ReadBackObjects(os[1..]) == Ok(objs[1..])
  {
  }

  lemma {:induction false} ObjectsReadTail(mode: Mode, os: seq<WObject>)
    requires |os| > 0 && AllObjectsRead(mode, os)
    ensures ObjectReads(mode, os[0]) && AllObjectsRead(mode, os[1..])
  {
    assert forall k :: 1 <= k < |os| ==> os[1..][k - 1] == os[k];
  }

  /** One object read, then the rest, is all of them read. */
  lemma {:induction false} ObjectsBody(os: seq<WObject>, objs: seq<Object>, b: Body)
    requires |os| > 0 && |objs| > 0
    ensures var b1 := b.(objects := b.objects + [objs[0]], imat := if os[0].imat.Some? then os[0].imat else b.imat);
      Body(b1.objects + objs[1..], LastImat(os[1..], b1.imat), b1.extra)
        == Body(b.objects + objs, LastImat(os, b.imat), b.extra)
  {
    assert b.objects + [objs[0]] + objs[1..] == b.objects + objs;
  }

  /** The written objects read back, in order, appended to the body; the
      model's material record is the last one written. */
  lemma {:induction false} ObjectsRead(mode: Mode, os: seq<WObject>, w: seq<Byte>, data: seq<Byte>, p: nat, q: nat, b: Body, objs: seq<Object>)
    requires AllObjectsRead(mode, os)
    requires ReadBackObjects(os) == Ok(objs)
    requires WriteObjects(mode, os) == Ok(w) && At(data, p, q, w)
    ensures Run(data, p, b) == Run(data, q, Body(b.objects + objs, LastImat(os, b.imat), b.extra))
    decreases |os|
  {
    if |os| == 0 {
      assert Body(b.objects + objs, LastImat(os, b.imat), b.extra) == b;
    } else {
      var w0, rest := ObjectsHead(mode, os, w);
      ObjectsBackHead(os, objs);
      ObjectsReadTail(mode, os);
      var m := p + |OBJT + w0|;
      Split(data, p, m, q, OBJT + w0, rest);
      ObjectRead(mode, os[0], w0, data, p, m, b, objs[0]);
      var b1 := b.(objects := b.objects + [objs[0]], imat := if os[0].imat.Some? then os[0].imat else b.imat);
      ObjectsRead(mode, os[1..], rest, data, m, q, b1, objs[1..]);
      ObjectsBody(os, objs, b);
    }
  }

  /** Slicer angles of 48 bytes are skipped, each exactly. */
  lemma {:induction false} SlicerAnglesRead(ps: seq<seq<Byte>>, data: seq<Byte>, p: nat, q: nat, b: Body)
    requires forall k :: 0 <= k < |ps| ==> |ps[k]| == 48
    requires At(data, p, q, WriteSlicerAngles(ps))
    ensures Run(data, p, b) == Run(data, q, b)
    decreases |ps|
  {
    if |ps| > 0 {
      var w0 := SLAN + WriteSlicerAngle(ps[0]);
      var m := p + |w0|;
      Split(data, p, m, q, w0, WriteSlicerAngles(ps[1..]));
      var _ := SlicerAngleSkipped(ps[0], data, p, m, b);
      assert forall k :: 1 <= k < |ps| ==> ps[1..][k - 1] == ps[k];
      SlicerAnglesRead(ps[1..], data, m, q, b);
    }
  }

  /** A MINX payload of 72 bytes is skipped exactly. */
  lemma {:induction false} MinxChunkRead(minx: Option<seq<Byte>>, data: seq<Byte>, p: nat, q: nat, b: Body)
    requires minx.Some? ==> |minx.value| == 72
    requires At(data, p, q, MinxChunk(minx))
    ensures Run(data, p, b) == Run(data, q, b)
  {
    if minx.Some? {
      var _ := MinxSkipped(minx.value, data, p, q, b);
    }
  }

  /** The reader's loop past a MOST tag whose storage parses. */
  lemma {:induction false} MostTagRead(data: seq<Byte>, p: nat, a: nat, b: Body, ss: seq<Storage>, q: nat)
    requires ReadTag(data, p) == Ok((MOST, a)) && ParseGeneralStorage(data, a) == Ok((ss, q))
    ensures Run(data, p, b) == Run(data, q, b.(extra := b.extra + ss))
  {
    TagsDistinct();
    assert Dispatch(data, a, MOST, b) == Ok((b.(extra := b.extra + ss), q));
    RunThrough(data, p, MOST, a, b, b.(extra := b.extra + ss), q);
  }

  /** Model storage written under MOST extends the model's storage. */
  lemma {:induction false} ModelStorageRead(ss: seq<Storage>, eb: seq<Byte>, data: seq<Byte>, p: nat, q: nat, b: Body)
    requires StorageWritable(ss) && WriteTaggedStorage(MOST, ss) == Ok(eb) && At(data, p, q, eb)
    ensures Run(data, p, b) == Run(data, q, b.(extra := b.extra + ss))
  {
    if |ss| == 0 {
      assert b.(extra := b.extra + ss) == b;
    } else {
      var sw := WriteGeneralStorage(ss).value;
      var a := p + 4;
      Split(data, p, a, q, MOST, sw);
      TagsAreAscii();
      TagAt(MOST, data, p, a);
      StorageAt(ss, sw, data, a, q);
      MostTagRead(data, p, a, b, ss, q);
    }
  }

  /** The bare IEOF tag ends the loop with the body it has. */
  lemma {:induction false} IeofRead(data: seq<Byte>, p: nat, q: nat, b: Body)
    requires At(data, p, q, IEOF)
    ensures Run(data, p, b) == Ok(b)
  {
    TagsAreAscii();
    TagAt(IEOF, data, p, q);
    assert Run(data, p, b) == Iteration(data, p, b);
  }

  /** What `write_model` writes after the objects: slicer angles and
      MINX are skipped, the model's storage is appended, IEOF ends the
      loop. */
  lemma {:induction false} TrailerRead(m: WModel, eb: seq<Byte>, data: seq<Byte>,
                                       n1: nat, n2: nat, n3: nat, n4: nat, q: nat, b: Body)
    requires (forall k :: 0 <= k < |m.slicerAngles| ==> |m.slicerAngles[k]| == 48)
    requires m.minx.Some? ==> |m.minx.value| == 72
    requires StorageWritable(m.extra) && WriteTaggedStorage(MOST, m.extra) == Ok(eb)
    requires At(data, n1, n2, WriteSlicerAngles(m.slicerAngles))
    requires At(data, n2, n3, MinxChunk(m.minx)) && At(data, n3, n4, eb) && At(data, n4, q, IEOF)
    ensures Run(data, n1, b) == Ok(b.(extra := b.extra + m.extra))
  {
    SlicerAnglesRead(m.slicerAngles, data, n1, n2, b);
    MinxChunkRead(m.minx, data, n2, n3, b);
    ModelStorageRead(m.extra, eb, data, n3, n4, b);
    IeofRead(data, n4, q, b.(extra := b.extra + m.extra));
  }

  /** The objects read from an empty body. */
  lemma {:induction false} ObjectsFromEmpty(mode: Mode, os: seq<WObject>, ob: seq<Byte>, data: seq<Byte>,
                                            p: nat, n1: nat, objs: seq<Object>)
    requires AllObjectsRead(mode, os)
    requires ReadBackObjects(os) == Ok(objs)
    requires WriteObjects(mode, os) == Ok(ob) && At(data, p, n1, ob)
    ensures Run(data, p, Body([], None, [])) == Run(data, n1, Body(objs, LastImat(os, None), []))
  {
    ObjectsRead(mode, os, ob, data, p, n1, Body([], None, []), objs);
    assert [] + objs == objs;
  }

  /** Once the objects are read from an empty body, the rest of what
      `write_model` writes after the header adds the model's storage and
      ends the loop. */
  lemma {:induction false} BodyParts(m: WModel, eb: seq<Byte>, data: seq<Byte>, p: nat, n1: nat, n2: nat,
                                     n3: nat, n4: nat, q: nat, objs: seq<Object>, imat: Option<Record>)
    requires Run(data, p, Body([], None, [])) == Run(data, n1, Body(objs, imat, []))
    requires (forall k :: 0 <= k < |m.slicerAngles| ==> |m.slicerAngles[k]| == 48)
    requires m.minx.Some? ==> |m.minx.value| == 72
    requires StorageWritable(m.extra) && WriteTaggedStorage(MOST, m.extra) == Ok(eb)
    requires At(data, n1, n2, WriteSlicerAngles(m.slicerAngles))
    requires At(data, n2, n3, MinxChunk(m.minx)) && At(data, n3, n4, eb) && At(data, n4, q, IEOF)
    ensures Run(data, p, Body([], None, [])) == Ok(Body(objs, imat, m.extra))
  {
    var b1 := Body(objs, imat, []);
    TrailerRead(m, eb, data, n1, n2, n3, n4, q, b1);
    assert b1.(extra := b1.extra + m.extra) == Body(objs, imat, m.extra);
  }

  // ------------------------------------------------------- writing succeeds

  lemma {:induction false} ContoursWrite(mode: Mode, cs: seq<WContour>)
    requires forall k :: 0 <= k < |cs| ==> ContourReads(mode, cs[k])
    ensures WriteContours(mode, cs).Ok?
  {
    forall k | 0 <= k < |cs|
      ensures ContourBytes(mode, cs[k]).Ok?
    {
      ContourWrites(cs[k]);
    }
  }

  lemma {:induction false} MeshesWrite(mode: Mode, ms: seq<WMesh>)
    requires forall k :: 0 <= k < |ms| ==> MeshReads(mode, ms[k])
    ensures WriteMeshes(mode, ms).Ok?
  {
    forall k | 0 <= k < |ms|
      ensures MeshBytes(mode, ms[k]).Ok?
    {
      MeshWrites(ms[k]);
    }
  }

  lemma {:induction false} ImatChunkWrites(mode: Mode, imat: Option<Record>)
    requires imat.Some? ==> Conforms(Imat(), imat.value)
    ensures ImatChunk(mode, imat).Ok?
  {
    if imat.Some? {
      ImatCodable();
      ConformingWrites(Imat(), imat.value);
      var prefix := if mode == Corrected then IMAT_PREFIX else IMAT_PREFIX_AS_WRITTEN;
      assert WriteChunkSize(prefix).Ok?;
      assert WriteImatWith(prefix, imat.value).Ok?;
    }
  }

  lemma {:induction false} TaggedStorageWrites(tag: Tag, ss: seq<Storage>)
    requires |tag| == 4 && StorageWritable(ss)
    ensures WriteTaggedStorage(tag, ss).Ok?
  {
    if |ss| > 0 {
      StorageWrites(ss);
    }
  }

  lemma {:induction false} ObjectWrites(mode: Mode, o: WObject)
    requires ObjectReads(mode, o)
    ensures WriteObject(mode, o).Ok?
  {
    ObjectHeaderCodable();
    ConformingWrites(ObjectHeader(), o.header);
    ContoursWrite(mode, o.contours);
    MeshesWrite(mode, o.meshes);
    ImatChunkWrites(mode, o.imat);
    TaggedStorageWrites(OBST, o.extra);
  }

  lemma {:induction false} ObjectsWrite(mode: Mode, os: seq<WObject>)
    requires AllObjectsRead(mode, os)
    ensures WriteObjects(mode, os).Ok?
    decreases |os|
  {
    if |os| > 0 {
      ObjectsReadTail(mode, os);
      ObjectWrites(mode, os[0]);
      ObjectsWrite(mode, os[1..]);
    }
  }

  /** A model that meets `ModelWritable` is written without error. */
  lemma {:induction false} ModelWrites(mode: Mode, m: WModel)
    requires ModelWritable(mode, m)
    ensures WriteModel(mode, m).Ok?
  {
    IdCodable();
    ConformingWrites(Id(), m.id);
    ModelHeaderCodable();
    ConformingWrites(ModelHeader(), m.header);
    ObjectsWrite(mode, m.objects);
    TaggedStorageWrites(MOST, m.extra);
  }

  // ------------------------------------------------------ the whole model

  /** The pieces `WriteModel` joins, in order. */
  lemma {:induction false} ModelPieces(mode: Mode, m: WModel, w: seq<Byte>) returns (ib: seq<Byte>, hb: seq<Byte>, ob: seq<Byte>, eb: seq<Byte>)
    requires WriteModel(mode, m) == Ok(w)
    ensures WriteSpec(Id(), m.id) == Ok(ib) && WriteSpec(ModelHeader(), m.header) == Ok(hb)
    ensures WriteObjects(mode, m.objects) == Ok(ob) && WriteTaggedStorage(MOST, m.extra) == Ok(eb)
    ensures |ib| == 8 && |hb| == 232
    ensures w == (((((ib + hb) + ob) + WriteSlicerAngles(m.slicerAngles)) + MinxChunk(m.minx)) + eb) + IEOF
  {
    IdWidth();
    ModelHeaderWidth();
    WriteSpecWidth(Id(), m.id);
    WriteSpecWidth(ModelHeader(), m.header);
    ib := WriteSpec(Id(), m.id).value;
    hb := WriteSpec(ModelHeader(), m.header).value;
    ob := WriteObjects(mode, m.objects).value;
    eb := WriteTaggedStorage(MOST, m.extra).value;
  }

  /** The written file identifier reads back as it was. */
  lemma {:induction false} IdRead(id: Record, ib: seq<Byte>, data: seq<Byte>)
    requires Conforms(Id(), id) && ValidateText(id, "IMOD_file_id").Ok? && ValidateText(id, "version_id").Ok?
    requires WriteSpec(Id(), id) == Ok(ib) && At(data, 0, 8, ib)
    ensures ParseId(data, 0) == Ok((id, 8))
  {
    IdCodable();
    HeaderAt(Id(), id, ib, data, 0, 8);
  }

  /** The written model header reads back with its name trimmed. */
  lemma {:induction false} ModelHeaderRead(h: Record, hb: seq<Byte>, data: seq<Byte>, p: nat, q: nat)
    requires Conforms(ModelHeader(), h) && NameReads(h)
    requires WriteSpec(ModelHeader(), h) == Ok(hb) && At(data, p, q, hb)
    ensures ValidateName(h).Ok? && ParseModelHeader(data, p) == Ok((ValidateName(h).value, q))
  {
    ModelHeaderCodable();
    ModelHeaderWidth();
    WriteSpecWidth(ModelHeader(), h);
    HeaderAt(ModelHeader(), h, hb, data, p, q);
    ModelHeaderName(data, p);
  }

  /** Where each piece of a written model sits. */
  lemma {:induction false} ModelSplit(ib: seq<Byte>, hb: seq<Byte>, ob: seq<Byte>, sa: seq<Byte>, mx: seq<Byte>, eb: seq<Byte>, w: seq<Byte>)
      returns (n1: nat, n2: nat, n3: nat, n4: nat)
    requires |ib| == 8 && |hb| == 232
    requires w == (((((ib + hb) + ob) + sa) + mx) + eb) + IEOF
    ensures At(w, 0, 8, ib) && At(w, 8, 240, hb) && At(w, 240, n1, ob) && At(w, n1, n2, sa)
    ensures At(w, n2, n3, mx) && At(w, n3, n4, eb) && At(w, n4, |w|, IEOF)
  {
    var x2 := ib + hb;
    var x3 := x2 + ob;
    var x4 := x3 + sa;
    var x5 := x4 + mx;
    var x6 := x5 + eb;
    n1, n2, n3, n4 := |x3|, |x4|, |x5|, |x6|;
    assert w[0..|w|] == w;
    Split(w, 0, n4, |w|, x6, IEOF);
    Split(w, 0, n3, n4, x5, eb);
    Split(w, 0, n2, n3, x4, mx);
    Split(w, 0, n1, n2, x3, sa);
    Split(w, 0, 240, n1, x2, ob);
    Split(w, 0, 8, 240, ib, hb);
  }

  /** `read_model` on a file whose identifier, header and body read. */
  lemma {:induction false} ModelParsed(data: seq<Byte>, id: Record, header: Record, body: Body)
    requires ParseId(data, 0) == Ok((id, 8)) && ParseModelHeader(data, 8) == Ok((header, 240))
    requires Run(data, 240, Body([], None, [])) == Ok(body)
    ensures ParseModel(data) == Ok(ImodModel(id, header, body.objects, body.imat, body.extra))
  {
    RunIsLoop(data, 240, Body([], None, []));
  }

  /** Everything after the identifier and header of a written model, read. */
  lemma {:induction false} ModelBodyRead(mode: Mode, m: WModel, w: seq<Byte>, objs: seq<Object>)
    requires ModelWritable(mode, m) && ReadBackObjects(m.objects) == Ok(objs)
    requires WriteModel(mode, m) == Ok(w)
    ensures ParseId(w, 0) == Ok((m.id, 8))
    ensures ValidateName(m.header).Ok? && ParseModelHeader(w, 8) == Ok((ValidateName(m.header).value, 240))
    ensures Run(w, 240, Body([], None, [])) == Ok(Body(objs, LastImat(m.objects, None), m.extra))
  {
    var ib, hb, ob, eb := ModelPieces(mode, m, w);
    var n1, n2, n3, n4 := ModelSplit(ib, hb, ob, WriteSlicerAngles(m.slicerAngles), MinxChunk(m.minx), eb, w);
    IdRead(m.id, ib, w);
    ModelHeaderRead(m.header, hb, w, 8, 240);
    ObjectsFromEmpty(mode, m.objects, ob, w, 240, n1, objs);
    BodyParts(m, eb, w, 240, n1, n2, n3, n4, |w|, objs, LastImat(m.objects, None));
  }

  /** `write_model` then `read_model`: the file reads back as the model it
      was written from, its names trimmed, each object's contours, meshes
      and storage in order, the last object's material record, and the
      model's storage. As the code has it this holds when no contour or
      mesh carries storage; corrected, it holds for all. */
  lemma {:induction false} ModelRoundTrip(mode: Mode, m: WModel, w: seq<Byte>)
    requires ModelWritable(mode, m) && ReadBackModel(m).Ok?
    requires WriteModel(mode, m) == Ok(w)
    ensures ParseModel(w) == ReadBackModel(m)
  {
    var objs := ReadBackObjects(m.objects).value;
    ModelBodyRead(mode, m, w, objs);
    ModelParsed(w, m.id, ValidateName(m.header).value, Body(objs, LastImat(m.objects, None), m.extra));
  }
}
