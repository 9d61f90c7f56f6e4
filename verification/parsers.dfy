/** The reader of `src/imodmodel/parsers.py`: the fixed records, contours,
    meshes and IMAT chunks, and the tag dispatch loop of `parse_model`.
    The file is a byte sequence and the reader's position a cursor into it;
    every fixed-size read that finds too few bytes fails with `Truncated`,
    as `struct.unpack` does. */
module Parsers {
  import opened Wrappers
  import opened Bytes
  import opened FormatCodes
  import opened FieldCodec
  import opened Layouts
  import opened Framing
  import opened GeneralStorage
  import opened MeshIndices
  import MeshCleanup
  import opened Models

  // ------------------------------------------------------------ headers

  /** `_parse_id`: two 4-byte strings, which pydantic decodes as UTF-8. */
  function ParseId(data: seq<Byte>, pos: nat): (r: Result<(Record, nat)>)
    ensures pos + 8 > |data| ==> r == Err(Truncated)
    ensures r.Ok? ==> r.value.1 == pos + 8 <= |data|
    ensures r.Ok? ==> r.value.0.Keys == {"IMOD_file_id", "version_id"}
    ensures r.Ok? ==> r.value.0["IMOD_file_id"] == Single(BytesVal(data[pos..pos + 4]))
    ensures pos + 8 <= |data| ==> (r.Ok? ==> ValidUtf8(data[pos..pos + 4]))
    ensures pos + 8 <= |data| ==>
      (r.Ok? <==> ValidUtf8(data[pos..pos + 4]) && ValidUtf8(data[pos + 4..pos + 8]))
    ensures r.Ok? ==> r.value.0 == IdRecord(data[pos..pos + 4], data[pos + 4..pos + 8])
  {
    if pos + 8 > |data| then Err(Truncated)
    else
      IdFields(data, pos);
      var (m, next) := ParseSpec(Id(), data, pos).value;
      var m1 :- ValidateText(m, "IMOD_file_id");
      var m2 :- ValidateText(m1, "version_id");
      Ok((m2, next))
  }

  /** The ID record of two 4-byte strings. */
  function IdRecord(fileId: seq<Byte>, version: seq<Byte>): Record
  {
    map["IMOD_file_id" := Single(BytesVal(fileId)), "version_id" := Single(BytesVal(version))]
  }

  /** The ID table decodes its two strings from the two 4-byte halves. */
  lemma {:induction false} IdFields(data: seq<Byte>, pos: nat)
    requires pos + 8 <= |data|
    ensures ParseSpec(Id(), data, pos) == Ok((IdRecord(data[pos..pos + 4], data[pos + 4..pos + 8]), pos + 8))
  {
    IdWidth();
    var t := Id();
    var bs := data[pos..pos + 8];
    var a := Atom(Str, 4);
    assert Atoms(t) == [a, a] by {
      assert Atoms(t[1..]) == [a] + Atoms(t[1..][1..]);
    }
    var vals := [BytesVal(bs[..4]), BytesVal(bs[4..])];
    assert UnpackTable(t, bs) == vals by {
      AtomsTableWidth(t);
      assert [a, a][1..] == [a];
      assert UnpackAtoms([a], bs[4..]) == [UnpackAtom(a, bs[4..][..4])] + UnpackAtoms([], bs[4..][4..]);
      assert bs[4..][..4] == bs[4..];
    }
    var pairs := [("IMOD_file_id", Single(vals[0])), ("version_id", Single(vals[1]))];
    assert GroupFrom(t, vals, 0) == Ok(pairs) by {
      assert !IsRepeatField(t[0].code) && !IsRepeatField(t[1..][0].code);
      assert |t[1..][1..]| == 0;
      assert t[0].name == "IMOD_file_id" && t[1..][0].name == "version_id";
      assert GroupFrom(t[1..][1..], vals, 2) == Ok([]);
      assert [pairs[1]] + [] == [pairs[1]];
      assert GroupFrom(t[1..], vals, 1) == Ok([pairs[1]]);
      assert [pairs[0]] + [pairs[1]] == pairs;
    }
    assert ToRecord(pairs) == IdRecord(data[pos..pos + 4], data[pos + 4..pos + 8]) by {
      assert pairs[..1][..0] == [];
      assert ToRecord(pairs[..1]) == map["IMOD_file_id" := Single(vals[0])];
      assert ToRecord(pairs) == map["IMOD_file_id" := Single(vals[0])]["version_id" := Single(vals[1])];
      assert vals[0] == BytesVal(data[pos..pos + 4]) && vals[1] == BytesVal(data[pos + 4..pos + 8]);
    }
  }

  /** A decoded record has exactly the table's keys. */
  lemma {:induction false} ParseSpecKeys(t: Table, data: seq<Byte>, pos: nat)
    requires WellGrouped(t) && DistinctNames(t) && pos + TableWidth(t) <= |data|
    ensures ParseSpec(t, data, pos).Ok? && ParseSpec(t, data, pos).value.0.Keys == NameSet(t)
  {
    ParseThenWrite(t, data, pos);
  }

  /** A table led by a `name` string field of width w decodes it as the
      first w bytes. */
  lemma {:induction false} NameField(t: Table, w: nat, data: seq<Byte>, pos: nat)
    requires Codable(t) && |t| > 0 && t[0] == Many("name", w, Str)
    requires pos + TableWidth(t) <= |data|
    ensures var r := ParseSpec(t, data, pos);
      && r.Ok? && r.value.1 == pos + TableWidth(t) && r.value.0.Keys == NameSet(t)
      && "name" in r.value.0 && r.value.0["name"] == Single(BytesVal(data[pos..pos + w]))
  {
    ExtraDataOnlyRepeat();
    var pairs := ParsedPairs(t, data, pos);
    ParseSpecFirst(t, data, pos);
    ParseSpecKeys(t, data, pos);
    assert CodeWidth(t[0].code) == w;
    assert CodeAtoms(t[0].code)[0] == Atom(Str, w);
  }

  lemma {:induction false} ModelHeaderName(data: seq<Byte>, pos: nat)
    requires pos + 232 <= |data|
    ensures var r := ParseSpec(ModelHeader(), data, pos);
      && r.Ok? && r.value.1 == pos + 232 && r.value.0.Keys == NameSet(ModelHeader())
      && "name" in r.value.0 && r.value.0["name"] == Single(BytesVal(data[pos..pos + 128]))
  {
    ModelHeaderWidth();
    ParsedTablesCodable();
    assert ModelHeader()[0] == Many("name", 128, Str);
    NameField(ModelHeader(), 128, data, pos);
  }

  lemma {:induction false} ObjectHeaderName(data: seq<Byte>, pos: nat)
    requires pos + 176 <= |data|
    ensures var r := ParseSpec(ObjectHeader(), data, pos);
      && r.Ok? && r.value.1 == pos + 176 && r.value.0.Keys == NameSet(ObjectHeader())
      && "name" in r.value.0 && r.value.0["name"] == Single(BytesVal(data[pos..pos + 64]))
  {
    ObjectHeaderWidth();
    ParsedTablesCodable();
    assert ObjectHeader()[0] == Many("name", 64, Str);
    NameField(ObjectHeader(), 64, data, pos);
  }

  /** `_parse_model_header`: 232 bytes, whose leading 128-byte name goes
      through the null-terminated name validator. */
  function ParseModelHeader(data: seq<Byte>, pos: nat): (r: Result<(Record, nat)>)
    ensures pos + 232 > |data| ==> r == Err(Truncated)
    ensures r.Ok? <==> pos + 232 <= |data| && TrimName(data[pos..pos + 128]).Ok?
    ensures r.Ok? ==> r.value.1 == pos + 232
    ensures r.Ok? ==> r.value.0.Keys == NameSet(ModelHeader())
    ensures r.Ok? ==> "name" in r.value.0
    ensures r.Ok? ==> r.value.0["name"] == Single(BytesVal(TrimName(data[pos..pos + 128]).value))
  {
    if pos + 232 > |data| then Err(Truncated)
    else
      ModelHeaderName(data, pos);
      var (m, next) := ParseSpec(ModelHeader(), data, pos).value;
      var named :- ValidateName(m);
      Ok((named, next))
  }

  /** `_parse_object_header`: 176 bytes, with a 64-byte name. */
  function ParseObjectHeader(data: seq<Byte>, pos: nat): (r: Result<(Record, nat)>)
    ensures pos + 176 > |data| ==> r == Err(Truncated)
    ensures r.Ok? <==> pos + 176 <= |data| && TrimName(data[pos..pos + 64]).Ok?
    ensures r.Ok? ==> r.value.1 == pos + 176
    ensures r.Ok? ==> r.value.0.Keys == NameSet(ObjectHeader())
    ensures r.Ok? ==> "name" in r.value.0
    ensures r.Ok? ==> r.value.0["name"] == Single(BytesVal(TrimName(data[pos..pos + 64]).value))
  {
    if pos + 176 > |data| then Err(Truncated)
    else
      ObjectHeaderName(data, pos);
      var (m, next) := ParseSpec(ObjectHeader(), data, pos).value;
      var named :- ValidateName(m);
      Ok((named, next))
  }

  /** `_parse_object`: the header is read and dropped; the object starts
      empty. */
  function ParseObject(data: seq<Byte>, pos: nat): (r: Result<(Object, nat)>)
    ensures r.Ok? <==> pos + 176 <= |data| && TrimName(data[pos..pos + 64]).Ok?
    ensures r.Ok? ==> r.value == (EmptyObject(), pos + 176)
  {
    var (_, next) :- ParseObjectHeader(data, pos);
    Ok((EmptyObject(), next))
  }

  // ---------------------------------------------------------- point data

  /** `'fff' * n` and `'i' * n` repeat a code n times; a negative n gives
      the empty format, which reads nothing. */
  function Clamp(n: int): nat
  {
    if n < 0 then 0 else n
  }

  /** The integer field of a decoded header. */
  function IntField(m: Record, key: string): (r: Result<int>)
    ensures r.Ok? <==> key in m && m[key].Single? && m[key].v.IntVal?
    ensures r.Ok? ==> m[key] == Single(IntVal(r.value))
  {
    if key in m && m[key].Single? && m[key].v.IntVal? then Ok(m[key].v.i)
    else Err(ShapeMismatch(key))
  }

  /** The point at byte `at`: three consecutive float words. */
  function PointAt(data: seq<Byte>, at: nat): Point
    requires at + 12 <= |data|
  {
    Point(data[at..at + 4], data[at + 4..at + 8], data[at + 8..at + 12])
  }

  /** `np.array(unpack('>' + 'fff' * n)).reshape((-1, 3))`: n points, point
      k at byte 12k. */
  function ParsePoints(data: seq<Byte>, pos: nat, n: nat): (r: Result<(seq<Point>, nat)>)
    ensures r.Ok? <==> pos + 12 * n <= |data|
    ensures r.Ok? ==> |r.value.0| == n && r.value.1 == pos + 12 * n
    ensures r.Ok? ==> forall k :: 0 <= k < n ==> r.value.0[k] == PointAt(data, pos + 12 * k)
  {
    if pos + 12 * n > |data| then Err(Truncated)
    else Ok((seq(n, k requires 0 <= k < n => PointAt(data, pos + 12 * k)), pos + 12 * n))
  }

  /** `unpack('>' + 'i' * n)`: n signed 32-bit integers. */
  function ParseInts(data: seq<Byte>, pos: nat, n: nat): (r: Result<(seq<int>, nat)>)
    ensures r.Ok? <==> pos + 4 * n <= |data|
    ensures r.Ok? ==> |r.value.0| == n && r.value.1 == pos + 4 * n
    ensures r.Ok? ==> forall k :: 0 <= k < n ==>
      r.value.0[k] == Int32(data[pos + 4 * k..pos + 4 * k + 4]) && InSigned(r.value.0[k], 4)
  {
    if pos + 4 * n > |data| then Err(Truncated)
    else Ok((seq(n, k requires 0 <= k < n => Int32(data[pos + 4 * k..pos + 4 * k + 4])), pos + 4 * n))
  }

  // ------------------------------------------------------------- contour

  /** The number of points a contour header at `pos` announces: its leading
      signed `psize`, clamped at zero. */
  function AnnouncedPoints(data: seq<Byte>, pos: nat): nat
    requires pos + 4 <= |data|
  {
    Clamp(Int32(data[pos..pos + 4]))
  }

  /** The contour header's leading field is the signed `psize`. */
  lemma {:induction false} ContourHeaderSize(data: seq<Byte>, pos: nat)
    requires pos + 16 <= |data|
    ensures var r := ParseSpec(ContourHeader(), data, pos);
      && r.Ok? && r.value.1 == pos + 16
      && IntField(r.value.0, "psize") == Ok(Int32(data[pos..pos + 4]))
  {
    ContourHeaderWidth();
    ParsedTablesCodable();
    ExtraDataOnlyRepeat();
    var pairs := ParsedPairs(ContourHeader(), data, pos);
    ParseSpecFirst(ContourHeader(), data, pos);
  }

  /** `_parse_contour`: the 16-byte header, then `psize` points. */
  function ParseContour(data: seq<Byte>, pos: nat): (r: Result<(Contour, nat)>)
    ensures r.Ok? <==> pos + 16 <= |data| && pos + 16 + 12 * AnnouncedPoints(data, pos) <= |data|
    ensures r.Ok? ==> var n := AnnouncedPoints(data, pos);
      && r.value.1 == pos + 16 + 12 * n
      && r.value.0.header == ParseSpec(ContourHeader(), data, pos).value.0
      && IntField(r.value.0.header, "psize") == Ok(Int32(data[pos..pos + 4]))
      && |r.value.0.points| == n
      && (forall k :: 0 <= k < n ==> r.value.0.points[k] == PointAt(data, pos + 16 + 12 * k))
      && r.value.0.extra == []
  {
    if pos + 16 > |data| then Err(Truncated)
    else
      ContourHeaderSize(data, pos);
      var (header, body) := ParseSpec(ContourHeader(), data, pos).value;
      var psize := IntField(header, "psize").value;
      var (points, next) :- ParsePoints(data, body, Clamp(psize));
      Ok((NewContour(header, points), next))
  }

  // ---------------------------------------------------------------- mesh

  /** `cleanup_mesh` on one decompiled polygon, the new indices kept in
      rows of three. */
  function CleanPolygon(vertices: seq<Point>, poly: seq<Row>): (r: Result<(seq<Point>, seq<Row>)>)
    ensures r.Ok? <==> MeshCleanup.CleanupMesh(vertices, Flat(poly)).Ok?
    ensures r.Ok? ==> MeshCleanup.CleanupMesh(vertices, Flat(poly)) == Ok((r.value.0, Flat(r.value.1)))
  {
    var c :- MeshCleanup.CleanupMesh(vertices, Flat(poly));
    FlatReshape(c.1);
    Ok((c.0, Reshape(c.1)))
  }

  /** `cleanup_mesh` on each polygon of a decompiled index list: polygon i
      of the result is the cleaning of polygon i. */
  function CleanPolygons(vertices: seq<Point>, polys: seq<seq<Row>>): (r: Result<(seq<seq<Point>>, seq<seq<Row>>)>)
    ensures r.Ok? ==> |r.value.0| == |polys| && |r.value.1| == |polys|
  {
    MapSplit(Cleaner(vertices), polys)
  }

  /** CleanPolygon against fixed vertices, as a function value. */
  function Cleaner(vertices: seq<Point>): seq<Row> -> Result<(seq<Point>, seq<Row>)>
  {
    poly => CleanPolygon(vertices, poly)
  }

  /** Applies a fallible step to each element in order, failing with the
      first failure; the pairs it produces are split into two lists. */
  function MapSplit<A, X, Y>(f: A -> Result<(X, Y)>, xs: seq<A>): (r: Result<(seq<X>, seq<Y>)>)
    ensures r.Ok? ==> |r.value.0| == |xs| && |r.value.1| == |xs|
  {
    if |xs| == 0 then Ok(([], []))
    else
      var first :- f(xs[0]);
      var rest :- MapSplit(f, xs[1..]);
      Ok(([first.0] + rest.0, [first.1] + rest.1))
  }

  /** Element i of a successful MapSplit is the step applied to element i. */
  lemma {:induction false} MapSplitAt<A, X, Y>(f: A -> Result<(X, Y)>, xs: seq<A>, i: nat)
    requires MapSplit(f, xs).Ok? && i < |xs|
    ensures f(xs[i]) == Ok((MapSplit(f, xs).value.0[i], MapSplit(f, xs).value.1[i]))
  {
    if i > 0 {
      MapSplitAt(f, xs[1..], i - 1);
      assert xs[1..][i - 1] == xs[i];
    }
  }

  /** MapSplit succeeds exactly when the step succeeds on every element. */
  lemma {:induction false} MapSplitOk<A, X, Y>(f: A -> Result<(X, Y)>, xs: seq<A>)
    ensures MapSplit(f, xs).Ok? <==> forall i :: 0 <= i < |xs| ==> f(xs[i]).Ok?
  {
    if |xs| > 0 {
      MapSplitOk(f, xs[1..]);
      assert forall i :: 1 <= i < |xs| ==> xs[1..][i - 1] == xs[i];
    }
  }

  /** Polygon i of a successful cleaning is the cleaning of the i-th polygon. */
  lemma {:induction false} CleanPolygonsAt(vertices: seq<Point>, polys: seq<seq<Row>>, i: nat)
    requires CleanPolygons(vertices, polys).Ok? && i < |polys|
    ensures CleanPolygon(vertices, polys[i])
         == Ok((CleanPolygons(vertices, polys).value.0[i], CleanPolygons(vertices, polys).value.1[i]))
  {
    MapSplitAt(Cleaner(vertices), polys, i);
  }

  /** Cleaning the polygons fails exactly when some polygon refers to a
      vertex that does not exist. */
  lemma {:induction false} CleanPolygonsOk(vertices: seq<Point>, polys: seq<seq<Row>>)
    ensures CleanPolygons(vertices, polys).Ok?
        <==> forall i :: 0 <= i < |polys| ==> CleanPolygon(vertices, polys[i]).Ok?
  {
    MapSplitOk(Cleaner(vertices), polys);
    assert forall i :: 0 <= i < |polys| ==> Cleaner(vertices)(polys[i]) == CleanPolygon(vertices, polys[i]);
  }

  /** What `_parse_mesh` reads before building the mesh: the header, the
      vertices, the raw index list and the position after them. */
  datatype RawMesh = RawMesh(header: Record, vertices: seq<Point>, indices: seq<int>, next: nat)

  /** The reads of `_parse_mesh`: the 16-byte header, `vsize` points and
      `lsize` signed 32-bit indices, each count clamped at zero. */
  function ReadRawMesh(data: seq<Byte>, pos: nat): (r: Result<RawMesh>)
    ensures pos + 16 > |data| ==> r == Err(Truncated)
    ensures r.Ok? ==> pos + 16 <= r.value.next <= |data|
    ensures r.Ok? ==> ParseSpec(MeshHeader(), data, pos) == Ok((r.value.header, pos + 16))
    ensures r.Ok? ==>
      && IntField(r.value.header, "vsize").Ok? && IntField(r.value.header, "lsize").Ok?
      && ReadMeshBody(data, pos + 16, Clamp(IntField(r.value.header, "vsize").value),
                      Clamp(IntField(r.value.header, "lsize").value))
         == Ok((r.value.vertices, r.value.indices, r.value.next))
  {
    MeshHeaderWidth();
    ParseSpecCursor(MeshHeader(), data, pos);
    var (header, body) :- ParseSpec(MeshHeader(), data, pos);
    var vsize :- IntField(header, "vsize");
    var lsize :- IntField(header, "lsize");
    var (vertices, indices, next) :- ReadMeshBody(data, body, Clamp(vsize), Clamp(lsize));
    Ok(RawMesh(header, vertices, indices, next))
  }

  /** The vertex and index arrays that follow a mesh header at `start`. */
  function ReadMeshBody(data: seq<Byte>, start: nat, vsize: nat, lsize: nat): (r: Result<(seq<Point>, seq<int>, nat)>)
    ensures r.Ok? <==> start + 12 * vsize + 4 * lsize <= |data|
    ensures r.Ok? ==>
      && r.value.2 == start + 12 * vsize + 4 * lsize <= |data|
      && |r.value.0| == vsize
      && (forall k :: 0 <= k < vsize ==> r.value.0[k] == PointAt(data, start + 12 * k))
      && |r.value.1| == lsize
      && (forall k :: 0 <= k < lsize ==>
            r.value.1[k] == Int32(data[start + 12 * vsize + 4 * k..start + 12 * vsize + 4 * k + 4]))
  {
    var (vertices, afterVertices) :- ParsePoints(data, start, vsize);
    var (indices, next) :- ParseInts(data, afterVertices, lsize);
    Ok((vertices, indices, next))
  }

  /** The rest of `_parse_mesh`: the index list decompiled into polygons
      and each polygon cleaned against the vertices. */
  function BuildMesh(raw: RawMesh): (r: Result<Mesh>)
    ensures r.Ok? ==> ParseImodIndices(raw.indices).Ok?
    ensures r.Ok? ==> r.value.header == raw.header && r.value.extra == []
    ensures r.Ok? ==> |r.value.vertices| == |r.value.indices| == |ParseImodIndices(raw.indices).value|
  {
    var polys :- ParseImodIndices(raw.indices);
    var cleaned :- CleanPolygons(raw.vertices, polys);
    Ok(NewMesh(raw.header, cleaned.0, cleaned.1))
  }

  /** `_parse_mesh`, in terms of what it reads: the header is the 16
      bytes at the cursor, the position after the index list is the raw
      read's, there are no extra values, and polygon i is `cleanup_mesh`
      of the i-th polygon the raw index list decompiles into, one per
      start marker.  It fails exactly when the reads fail, the index list
      does not decompile, or a polygon refers to a vertex that does not
      exist. */
  function ParseMesh(data: seq<Byte>, pos: nat): (r: Result<(Mesh, nat)>)
    ensures r.Ok? <==>
      && ReadRawMesh(data, pos).Ok?
      && var raw := ReadRawMesh(data, pos).value;
      && ParseImodIndices(raw.indices).Ok?
      && forall i :: 0 <= i < |ParseImodIndices(raw.indices).value| ==>
           MeshCleanup.CleanupMesh(raw.vertices, Flat(ParseImodIndices(raw.indices).value[i])).Ok?
    ensures r.Ok? ==>
      var raw := ReadRawMesh(data, pos).value;
      var (m, next) := r.value;
      && ParseSpec(MeshHeader(), data, pos) == Ok((m.header, pos + 16))
      && pos + 16 <= next == raw.next <= |data| && m.extra == []
      && |raw.indices| > 0 && raw.indices[|raw.indices| - 1] == LIST_END
      && |m.indices| == Occurrences(raw.indices[..|raw.indices| - 1], POLYGON_START)
      && |m.vertices| == |m.indices| == |ParseImodIndices(raw.indices).value|
      && forall i :: 0 <= i < |m.indices| ==>
           var c := MeshCleanup.CleanupMesh(raw.vertices, Flat(ParseImodIndices(raw.indices).value[i]));
           c.Ok? && m.vertices[i] == c.value.0 && Flat(m.indices[i]) == c.value.1
  {
    var raw :- ReadRawMesh(data, pos);
    MeshPolygons(raw);
    var mesh :- BuildMesh(raw);
    Ok((mesh, raw.next))
  }

  /** A built mesh has one polygon per start marker of its index list, and
      polygon i holds `cleanup_mesh` of the i-th decompiled polygon: the
      vertices it uses and its indices renumbered into them.  Building
      fails exactly when the index list does not decompile or some
      polygon refers to a vertex that does not exist. */
  lemma {:induction false} MeshPolygons(raw: RawMesh)
    ensures BuildMesh(raw).Ok? <==>
      && ParseImodIndices(raw.indices).Ok?
      && forall i :: 0 <= i < |ParseImodIndices(raw.indices).value| ==>
           MeshCleanup.CleanupMesh(raw.vertices, Flat(ParseImodIndices(raw.indices).value[i])).Ok?
    ensures BuildMesh(raw).Ok? ==>
      var xs := raw.indices;
      var m := BuildMesh(raw).value;
      && |xs| > 0 && xs[|xs| - 1] == LIST_END
      && |m.indices| == Occurrences(xs[..|xs| - 1], POLYGON_START)
      && forall i :: 0 <= i < |m.indices| ==>
           var c := MeshCleanup.CleanupMesh(raw.vertices, Flat(ParseImodIndices(xs).value[i]));
           c.Ok? && m.vertices[i] == c.value.0 && Flat(m.indices[i]) == c.value.1
  {
    var p := ParseImodIndices(raw.indices);
    if p.Ok? {
      var polys := p.value;
      CleanPolygonsOk(raw.vertices, polys);
      var cp := CleanPolygons(raw.vertices, polys);
      if cp.Ok? {
        var m := BuildMesh(raw).value;
        assert m.vertices == cp.value.0 && m.indices == cp.value.1;
        forall i | 0 <= i < |m.indices|
          ensures var c := MeshCleanup.CleanupMesh(raw.vertices, Flat(polys[i]));
            c.Ok? && m.vertices[i] == c.value.0 && Flat(m.indices[i]) == c.value.1
        {
          CleanPolygonsAt(raw.vertices, polys, i);
        }
      }
    }
  }

  /** `_parse_mesh` as written: it reads and decompiles exactly as
      `ParseMesh` does, then hands pydantic two lists for the two
      `np.ndarray` fields of `Mesh`, which the arbitrary-type check
      refuses.  Every mesh chunk therefore ends the parse. */
  function ParseMeshAsWritten(data: seq<Byte>, pos: nat): (r: Result<(Mesh, nat)>)
    ensures r.Err?
  {
    var raw :- ReadRawMesh(data, pos);
    var _ :- BuildMesh(raw);
    Err(NotAnArray)
  }

  /** The mesh reader as written fails with the corrected reader's error
      where that one fails, and with `NotAnArray` on every mesh that the
      corrected reader accepts. */
  lemma {:induction false} MeshAsWrittenRejected(data: seq<Byte>, pos: nat)
    ensures ParseMesh(data, pos).Ok? ==> ParseMeshAsWritten(data, pos) == Err(NotAnArray)
    ensures ParseMesh(data, pos).Err? ==> ParseMeshAsWritten(data, pos) == ParseMesh(data, pos)
  {
  }

  // ---------------------------------------------------------------- IMAT

  lemma {:induction false} ImatRecord(data: seq<Byte>, at: nat)
    requires at + 16 <= |data|
    ensures var r := ParseSpec(Imat(), data, at);
      r.Ok? && r.value.1 == at + 16 && r.value.0.Keys == NameSet(Imat())
  {
    ImatWidth();
    ParsedTablesCodable();
    var _ := ParsedPairs(Imat(), data, at);
    ParseSpecKeys(Imat(), data, at);
  }

  /** `_parse_imat`: the size prefix is read and ignored; the 16-byte IMAT
      layout follows. */
  function ParseImat(data: seq<Byte>, pos: nat): (r: Result<(Record, nat)>)
    ensures r.Ok? <==> pos + 20 <= |data|
    ensures r.Ok? ==> r.value.1 == pos + 20 && r.value.0.Keys == NameSet(Imat())
    ensures r.Ok? ==> ParseSpec(Imat(), data, pos + 4) == Ok((r.value.0, pos + 20))
  {
    if pos + 20 > |data| then Err(Truncated)
    else
      var (_, body) := ReadChunkSize(data, pos).value;
      ImatRecord(data, body);
      ParseSpec(Imat(), data, body)
  }

  /** Whatever the prefix says, the IMAT record comes from the 16 bytes
      after it. */
  lemma {:induction false} ImatIgnoresPrefix(data: seq<Byte>, data': seq<Byte>, pos: nat)
    requires pos + 20 <= |data| && pos + 20 <= |data'|
    requires data[pos + 4..pos + 20] == data'[pos + 4..pos + 20]
    ensures ParseImat(data, pos) == ParseImat(data', pos)
  {
    ImatWidth();
    ParseSpecLocal(Imat(), data, data', pos + 4, pos + 4);
  }

  // ------------------------------------------------------------ dispatch

  /** What `parse_model` has gathered so far. */
  datatype Body = Body(objects: seq<Object>, imat: Option<Record>, extra: seq<Storage>)

  /** The tags `parse_model` acts on; any other is skipped. */
  predicate KnownTag(tag: Tag)
  {
    tag == OBJT || tag == IMAT || tag == CONT || tag == MESH
    || tag == MOST || tag == OBST || tag == COST || tag == MEST
  }

  /** `objects[-1]` replaced. */
  function WithLast(objects: seq<Object>, o: Object): (r: seq<Object>)
    requires |objects| > 0
    ensures |r| == |objects| && r[|r| - 1] == o
    ensures forall k :: 0 <= k < |objects| - 1 ==> r[k] == objects[k]
  {
    objects[..|objects| - 1] + [o]
  }

  /** `contours[-1].extra += ss`. */
  function ExtendLastContour(o: Object, ss: seq<Storage>): (r: Object)
    requires |o.contours| > 0
    ensures |r.contours| == |o.contours| && r.meshes == o.meshes && r.extra == o.extra
    ensures forall k :: 0 <= k < |o.contours| - 1 ==> r.contours[k] == o.contours[k]
    ensures var last := o.contours[|o.contours| - 1];
      r.contours[|r.contours| - 1] == last.(extra := last.extra + ss)
  {
    var last := o.contours[|o.contours| - 1];
    o.(contours := o.contours[..|o.contours| - 1] + [last.(extra := last.extra + ss)])
  }

  /** `meshes[-1].extra += ss`. */
  function ExtendLastMesh(o: Object, ss: seq<Storage>): (r: Object)
    requires |o.meshes| > 0
    ensures |r.meshes| == |o.meshes| && r.contours == o.contours && r.extra == o.extra
    ensures forall k :: 0 <= k < |o.meshes| - 1 ==> r.meshes[k] == o.meshes[k]
    ensures var last := o.meshes[|o.meshes| - 1];
      r.meshes[|r.meshes| - 1] == last.(extra := last.extra + ss)
  {
    var last := o.meshes[|o.meshes| - 1];
    o.(meshes := o.meshes[..|o.meshes| - 1] + [last.(extra := last.extra + ss)])
  }

  /** The tags whose chunk goes into the last object. */
  predicate ObjectPartTag(tag: Tag)
  {
    tag == CONT || tag == MESH || tag == OBST || tag == COST || tag == MEST
  }

  /** The chunk of an `ObjectPartTag` read into `objects[-1]`: a new
      contour or mesh appended, or extra values appended to the object,
      its last contour or its last mesh. */
  function ObjectPart(data: seq<Byte>, pos: nat, tag: Tag, last: Object): (r: Result<(Object, nat)>)
    requires ObjectPartTag(tag)
    ensures r.Ok? ==> pos + 4 <= r.value.1 <= |data|
    ensures r.Ok? ==> |r.value.0.contours| == |last.contours| + (if tag == CONT then 1 else 0)
    ensures r.Ok? ==> |r.value.0.meshes| == |last.meshes| + (if tag == MESH then 1 else 0)
    ensures r.Ok? && tag != OBST ==> r.value.0.extra == last.extra
    ensures r.Ok? ==> last.extra <= r.value.0.extra
    ensures r.Ok? ==> forall k :: 0 <= k < |last.contours| - 1 ==> r.value.0.contours[k] == last.contours[k]
    ensures r.Ok? ==> forall k :: 0 <= k < |last.meshes| - 1 ==> r.value.0.meshes[k] == last.meshes[k]
    ensures tag == COST && last.contours == [] ==> r == Err(NoContour)
    ensures tag == MEST && last.meshes == [] ==> r == Err(NoMesh)
  {
    if tag == CONT then
      var (c, next) :- ParseContour(data, pos);
      Ok((last.(contours := last.contours + [c]), next))
    else if tag == MESH then
      var (m, next) :- ParseMesh(data, pos);
      Ok((last.(meshes := last.meshes + [m]), next))
    else if tag == OBST then
      var (ss, next) :- ParseGeneralStorage(data, pos);
      Ok((last.(extra := last.extra + ss), next))
    else if tag == COST then
      if |last.contours| == 0 then Err(NoContour)
      else
        var (ss, next) :- ParseGeneralStorage(data, pos);
        Ok((ExtendLastContour(last, ss), next))
    else
      if |last.meshes| == 0 then Err(NoMesh)
      else
        var (ss, next) :- ParseGeneralStorage(data, pos);
        Ok((ExtendLastMesh(last, ss), next))
  }

  /** One branch of the `parse_model` loop, for a tag other than IEOF whose
      four bytes end at `pos`.  The target (`objects[-1]`,
      `contours[-1]`, `meshes[-1]`) is looked up before the chunk is
      read, as Python evaluates it first. */
  function Dispatch(data: seq<Byte>, pos: nat, tag: Tag, b: Body): (r: Result<(Body, nat)>)
    ensures r.Ok? ==> pos <= r.value.1 <= |data|
    ensures r.Ok? ==> |r.value.0.objects| == |b.objects| + (if tag == OBJT then 1 else 0)
    ensures r.Ok? && tag != IMAT ==> r.value.0.imat == b.imat
    ensures r.Ok? && tag == IMAT ==> r.value.0.imat.Some?
    ensures r.Ok? && tag != MOST ==> r.value.0.extra == b.extra
    ensures r.Ok? ==> b.extra <= r.value.0.extra
    ensures r.Ok? ==> forall k :: 0 <= k < |b.objects| - 1 ==> r.value.0.objects[k] == b.objects[k]
    ensures r.Ok? && tag == OBJT ==> r.value.0.objects[|b.objects|] == EmptyObject()
    ensures ObjectPartTag(tag) && b.objects == [] ==> r == Err(NoObject)
    ensures !KnownTag(tag) ==> r == (var s := SkipUnknown(data, pos); if s.Ok? then Ok((b, s.value)) else Err(s.error))
    ensures tag == IMAT ==> (r.Ok? <==> pos + 20 <= |data|)
    ensures tag == IMAT && r.Ok? ==>
      && ParseImat(data, pos).Ok?
      && r.value == (b.(imat := Some(ParseImat(data, pos).value.0)), pos + 20)
    ensures tag == MOST ==> (r.Ok? <==> ParseGeneralStorage(data, pos).Ok?)
    ensures tag == MOST && r.Ok? ==>
      && ParseGeneralStorage(data, pos).Ok?
      && r.value == (b.(extra := b.extra + ParseGeneralStorage(data, pos).value.0), ParseGeneralStorage(data, pos).value.1)
  {
    if tag == OBJT then
      var (o, next) :- ParseObject(data, pos);
      Ok((b.(objects := b.objects + [o]), next))
    else if tag == IMAT then
      var (m, next) :- ParseImat(data, pos);
      Ok((b.(imat := Some(m)), next))
    else if tag == MOST then
      var (ss, next) :- ParseGeneralStorage(data, pos);
      Ok((b.(extra := b.extra + ss), next))
    else if ObjectPartTag(tag) then
      if |b.objects| == 0 then Err(NoObject)
      else
        var (o, next) :- ObjectPart(data, pos, tag, b.objects[|b.objects| - 1]);
        Ok((b.(objects := WithLast(b.objects, o)), next))
    else
      var next :- SkipUnknown(data, pos);
      Ok((b, next))
  }

  /** The number of times a tag occurs in a trace. */
  function TagCount(tags: seq<Tag>, tag: Tag): nat
  {
    if |tags| == 0 then 0
    else (if tags[0] == tag then 1 else 0) + TagCount(tags[1..], tag)
  }

  /** The `while control_sequence != "IEOF"` loop from the tag at `pos`:
      the gathered body and the trace of tags it acted on.  A file that
      ends before an IEOF tag fails with `Truncated`. */
  function Loop(data: seq<Byte>, pos: nat, b: Body): (r: Result<(Body, seq<Tag>)>)
    ensures r.Ok? ==> |r.value.0.objects| == |b.objects| + TagCount(r.value.1, OBJT)
    ensures r.Ok? ==> (r.value.0.imat.Some? <==> b.imat.Some? || IMAT in r.value.1)
    ensures r.Ok? ==> b.extra <= r.value.0.extra
    ensures r.Ok? ==> IEOF !in r.value.1
    ensures r.Ok? && MOST !in r.value.1 ==> r.value.0.extra == b.extra
    ensures pos + 4 > |data| ==> r == Err(Truncated)
    decreases |data| - pos
  {
    var (tag, after) :- ReadTag(data, pos);
    if tag == IEOF then Ok((b, []))
    else
      var (b', next) :- Dispatch(data, after, tag, b);
      var (final, tags) :- Loop(data, next, b');
      Ok((final, [tag] + tags))
  }

  /** `parse_model`. */
  function ParseModel(data: seq<Byte>): (r: Result<ImodModel>)
    ensures r.Ok? <==>
      && ParseId(data, 0).Ok? && ParseModelHeader(data, 8).Ok?
      && Loop(data, 240, Body([], None, [])).Ok?
    ensures r.Ok? ==>
      && r.value.id == ParseId(data, 0).value.0
      && r.value.header == ParseModelHeader(data, 8).value.0
    ensures r.Ok? ==> |data| >= 244
    ensures r.Ok? ==> Loop(data, 240, Body([], None, [])).Ok?
    ensures r.Ok? ==> var (body, tags) := Loop(data, 240, Body([], None, [])).value;
      && r.value.objects == body.objects && r.value.imat == body.imat && r.value.extra == body.extra
      && |r.value.objects| == TagCount(tags, OBJT)
  {
    var (id, afterId) :- ParseId(data, 0);
    var (header, afterHeader) :- ParseModelHeader(data, afterId);
    var (body, _) :- Loop(data, afterHeader, Body([], None, []));
    Ok(ImodModel(id, header, body.objects, body.imat, body.extra))
  }

  // ------------------------------------------- the loop as it is written

  /** `file.read(n)` near the end of the file returns what is left. */
  function ReadUpTo(data: seq<Byte>, pos: nat, n: nat): (bs: seq<Byte>)
    requires pos <= |data|
    ensures |bs| <= n && bs == data[pos..Min(pos + n, |data|)]
  {
    data[pos..Min(pos + n, |data|)]
  }

  /** `_parse_control_sequence` as written: at the end of the file the read
      is short, and at the very end it is empty, which decodes to `""`. */
  function ReadTagAsWritten(data: seq<Byte>, pos: nat): (r: Result<(Tag, nat)>)
    requires pos <= |data|
    ensures pos + 4 <= |data| ==> r == ReadTag(data, pos)
    ensures pos == |data| ==> r == Ok(([], pos))
    ensures r.Ok? ==> pos <= r.value.1 <= |data|
  {
    var bs := ReadUpTo(data, pos, 4);
    if ValidUtf8(bs) then Ok((bs, pos + |bs|)) else Err(UndecodableText)
  }

  /** `_parse_unknown` as written: the size comes from whatever bytes are
      left (none give 0), and the skip stops at the end of the file. */
  function SkipUnknownAsWritten(data: seq<Byte>, pos: nat): (next: nat)
    requires pos <= |data|
    ensures pos <= next <= |data|
    ensures pos + 4 <= |data| ==> SkipUnknown(data, pos) == Ok(next)
    ensures pos == |data| ==> next == pos
  {
    var bs := ReadUpTo(data, pos, 4);
    Min(pos + |bs| + FromBE(bs), |data|)
  }

  /** `_parse_general_storage` as written: the size comes from whatever
      bytes are left, so a chunk cut off inside its size reads as the size
      those bytes spell, and as no records when that is zero. */
  function StorageAsWritten(data: seq<Byte>, pos: nat): (r: Result<(seq<Storage>, nat)>)
    requires pos <= |data|
    ensures pos + 4 <= |data| ==> r == ParseGeneralStorage(data, pos)
    ensures pos + 4 > |data| ==> (r.Ok? <==> FromBE(data[pos..]) == 0)
    ensures pos + 4 > |data| && r.Ok? ==> r.value == ([], |data|)
  {
    var bs := ReadUpTo(data, pos, 4);
    var body := pos + |bs|;
    assert pos + 4 > |data| ==> bs == data[pos..] && body == |data|;
    assert pos + 4 <= |data| ==> ReadChunkSize(data, pos) == Ok((FromBE(bs), body));
    StorageBody(data, body, FromBE(bs))
  }

  /** The records of a general storage chunk once its size has been read,
      with the records starting at `body`. */
  function StorageBody(data: seq<Byte>, body: nat, size: nat): (r: Result<(seq<Storage>, nat)>)
    ensures size % 12 != 0 ==> r == Err(SizeNotMultipleOf12(size))
    ensures r.Ok? <==> size % 12 == 0 && body + size <= |data|
    ensures r.Ok? ==> r.value == (DecodeRecords(data, body, size / 12), body + size)
  {
    if size % 12 != 0 then Err(SizeNotMultipleOf12(size))
    else if body + size > |data| then Err(Truncated)
    else Ok((DecodeRecords(data, body, size / 12), body + size))
  }

  /** The chunk of an `ObjectPartTag` read into `objects[-1]` as written:
      a mesh chunk always fails, and the storage chunks read their size as
      `StorageAsWritten` does. */
  function ObjectPartAsWritten(data: seq<Byte>, pos: nat, tag: Tag, last: Object): (r: Result<(Object, nat)>)
    requires ObjectPartTag(tag) && pos <= |data|
    ensures tag == MESH ==> r.Err?
    ensures tag != MESH && pos + 4 <= |data| ==> r == ObjectPart(data, pos, tag, last)
    ensures tag == CONT ==> r == ObjectPart(data, pos, tag, last)
  {
    if tag == CONT then ObjectPart(data, pos, tag, last)
    else if tag == MESH then Err(ParseMeshAsWritten(data, pos).error)
    else if tag == OBST then
      var (ss, next) :- StorageAsWritten(data, pos);
      Ok((last.(extra := last.extra + ss), next))
    else if tag == COST then
      if |last.contours| == 0 then Err(NoContour)
      else
        var (ss, next) :- StorageAsWritten(data, pos);
        Ok((ExtendLastContour(last, ss), next))
    else
      if |last.meshes| == 0 then Err(NoMesh)
      else
        var (ss, next) :- StorageAsWritten(data, pos);
        Ok((ExtendLastMesh(last, ss), next))
  }

  /** One branch of the `parse_model` loop as written, for a known tag
      other than IEOF. */
  function DispatchAsWritten(data: seq<Byte>, pos: nat, tag: Tag, b: Body): (r: Result<(Body, nat)>)
    requires KnownTag(tag) && pos <= |data|
    ensures r.Ok? ==> pos <= r.value.1 <= |data|
    ensures tag == MESH ==> r.Err?
    ensures tag != MESH && pos + 4 <= |data| ==> r == Dispatch(data, pos, tag, b)
    ensures tag == OBJT || tag == IMAT || tag == CONT ==> r == Dispatch(data, pos, tag, b)
  {
    if tag == MOST then
      var (ss, next) :- StorageAsWritten(data, pos);
      Ok((b.(extra := b.extra + ss), next))
    else if ObjectPartTag(tag) then
      if |b.objects| == 0 then Err(NoObject)
      else
        var (o, next) :- ObjectPartAsWritten(data, pos, tag, b.objects[|b.objects| - 1]);
        Ok((b.(objects := WithLast(b.objects, o)), next))
    else Dispatch(data, pos, tag, b)
  }

  /** Where the strict dispatch accepts a chunk other than a mesh, the
      dispatch as written reads it the same way. */
  lemma {:induction false} DispatchAgrees(data: seq<Byte>, pos: nat, tag: Tag, b: Body)
    requires KnownTag(tag) && tag != MESH && pos <= |data| && Dispatch(data, pos, tag, b).Ok?
    ensures DispatchAsWritten(data, pos, tag, b) == Dispatch(data, pos, tag, b)
  {
    if tag == MOST {
      assert pos + 4 <= |data|;
    } else if ObjectPartTag(tag) {
      assert pos + 4 <= |data|;
    }
  }

  /** A storage chunk whose size is cut off by the end of the file: the
      strict loop fails with `Truncated`, while the loop as written reads
      the missing size as zero and goes on at the end of the file. */
  lemma {:induction false} StorageSizeAtEnd(data: seq<Byte>, pos: nat, b: Body)
    requires pos + 4 == |data| && ReadTag(data, pos) == Ok((MOST, |data|))
    ensures Loop(data, pos, b) == Err(Truncated)
    ensures StepAsWritten(data, pos, b) == Continue(b.(extra := b.extra + []), |data|)
  {
    assert ReadTagAsWritten(data, pos) == Ok((MOST, |data|));
    assert data[|data|..] == [];
    assert StorageAsWritten(data, |data|) == Ok(([], |data|));
  }

  /** How the `parse_model` loop as written ends, given a bound on its
      iterations: with a result, or still running when the bound runs
      out. */
  datatype Outcome = Finished(result: Result<Body>) | Running

  /** One iteration of the loop as written: it stops with a result, or
      goes on from a new position with a new body. */
  datatype Step = Stop(result: Result<Body>) | Continue(body: Body, next: nat)

  /** One iteration of `parse_model`'s loop exactly as written: only IEOF
      ends it, and a tag that is not known, the empty one included, is
      skipped. */
  function StepAsWritten(data: seq<Byte>, pos: nat, b: Body): (s: Step)
    requires pos <= |data|
    ensures s.Continue? ==> pos <= s.next <= |data|
  {
    match ReadTagAsWritten(data, pos)
    case Err(e) => Stop(Err(e))
    case Ok((tag, after)) =>
      if tag == IEOF then Stop(Ok(b))
      else if KnownTag(tag) then
        match DispatchAsWritten(data, after, tag, b)
        case Err(e) => Stop(Err(e))
        case Ok((b', next)) => Continue(b', next)
      else Continue(b, SkipUnknownAsWritten(data, after))
  }

  /** `parse_model`'s loop as written, run for at most `fuel`
      iterations. */
  function LoopAsWritten(data: seq<Byte>, pos: nat, b: Body, fuel: nat): (o: Outcome)
    requires pos <= |data|
    decreases fuel
  {
    if fuel == 0 then Running
    else
      match StepAsWritten(data, pos, b)
      case Stop(r) => Finished(r)
      case Continue(b', next) => LoopAsWritten(data, next, b', fuel - 1)
  }

  /** A file whose chunks end without an IEOF tag keeps the loop as
      written running for ever: at the end of the file every read is
      empty, the empty tag is skipped as unknown, and nothing moves. */
  lemma {:induction false} EndWithoutIeofRunsForever(data: seq<Byte>, b: Body, fuel: nat)
    ensures LoopAsWritten(data, |data|, b, fuel) == Running
    decreases fuel
  {
    if fuel > 0 {
      assert ReadTagAsWritten(data, |data|) == Ok(([], |data|));
      assert [] != IEOF && !KnownTag([]);
      assert StepAsWritten(data, |data|, b) == Continue(b, |data|);
      EndWithoutIeofRunsForever(data, b, fuel - 1);
    }
  }

  /** The strict loop stops at the end of the file with `Truncated`. */
  lemma {:induction false} EndWithoutIeofIsTruncated(data: seq<Byte>, b: Body)
    ensures Loop(data, |data|, b) == Err(Truncated)
  {
  }

  /** One step of the strict loop past a tag other than IEOF. */
  lemma {:induction false} LoopStep(data: seq<Byte>, pos: nat, b: Body)
    requires Loop(data, pos, b).Ok? && ReadTag(data, pos).value.0 != IEOF
    ensures Dispatch(data, pos + 4, ReadTag(data, pos).value.0, b).Ok?
    ensures var step := Dispatch(data, pos + 4, ReadTag(data, pos).value.0, b).value;
      && Loop(data, step.1, step.0).Ok? && Loop(data, step.1, step.0).value.0 == Loop(data, pos, b).value.0
      && Loop(data, pos, b).value.1 == [ReadTag(data, pos).value.0] + Loop(data, step.1, step.0).value.1
  {
  }

  /** One step of the loop as written past a whole tag other than IEOF or
      MESH whose chunk the strict dispatch accepts. */
  lemma {:induction false} AsWrittenStep(data: seq<Byte>, pos: nat, b: Body)
    requires pos <= |data| && ReadTag(data, pos).Ok? && ReadTag(data, pos).value.0 != IEOF
    requires ReadTag(data, pos).value.0 != MESH
    requires Dispatch(data, pos + 4, ReadTag(data, pos).value.0, b).Ok?
    ensures var step := Dispatch(data, pos + 4, ReadTag(data, pos).value.0, b).value;
      StepAsWritten(data, pos, b) == Continue(step.0, step.1)
  {
    var tag := ReadTag(data, pos).value.0;
    assert ReadTagAsWritten(data, pos) == Ok((tag, pos + 4));
    if !KnownTag(tag) {
      assert SkipUnknownAsWritten(data, pos + 4) == Dispatch(data, pos + 4, tag, b).value.1;
    } else {
      DispatchAgrees(data, pos + 4, tag, b);
    }
  }

  /** Both loops stop at an IEOF tag with the body gathered so far. */
  lemma {:induction false} AtIeof(data: seq<Byte>, pos: nat, b: Body, fuel: nat)
    requires pos <= |data| && fuel > 0 && ReadTag(data, pos).Ok? && ReadTag(data, pos).value.0 == IEOF
    ensures Loop(data, pos, b) == Ok((b, []))
    ensures LoopAsWritten(data, pos, b, fuel) == Finished(Ok(b))
  {
    assert ReadTagAsWritten(data, pos) == Ok((IEOF, pos + 4));
  }

  /** The loop as written past one iteration that goes on. */
  lemma {:induction false} AsWrittenUnfold(data: seq<Byte>, pos: nat, b: Body, fuel: nat, f: nat)
    requires pos <= |data| && StepAsWritten(data, pos, b).Continue? && fuel == f + 1
    ensures var s := StepAsWritten(data, pos, b);
      LoopAsWritten(data, pos, b, fuel) == LoopAsWritten(data, s.next, s.body, f)
  {
  }

  /** Wherever the strict loop finishes without meeting a MESH tag, the
      loop as written finishes with the same body within one iteration per
      byte. */
  lemma {:induction false} LoopAgrees(data: seq<Byte>, pos: nat, b: Body, fuel: nat)
    requires pos <= |data| && Loop(data, pos, b).Ok? && MESH !in Loop(data, pos, b).value.1
    requires fuel > |data| - pos
    ensures LoopAsWritten(data, pos, b, fuel) == Finished(Ok(Loop(data, pos, b).value.0))
    decreases |data| - pos
  {
    var tag := ReadTag(data, pos).value.0;
    if tag == IEOF {
      AtIeof(data, pos, b, fuel);
    } else {
      LoopStep(data, pos, b);
      var step := Dispatch(data, pos + 4, tag, b).value;
      var f: nat := fuel - 1;
      LoopAgrees(data, step.1, step.0, f);
      AsWrittenStep(data, pos, b);
      AsWrittenUnfold(data, pos, b, fuel, f);
    }
  }
}
