/** The record shapes of `models.py` and its small helpers: the
    null-terminated name validator, `Mesh.reshaped_indices` and
    `Mesh.extra_values`. */
module Models {
  import opened Wrappers
  import opened Bytes
  import opened FieldCodec
  import opened GeneralStorage
  import opened MeshIndices
  import MeshCleanup

  // ------------------------------------------------------------ records

  /** A point or vertex: three float words. */
  datatype Point = Point(x: seq<Byte>, y: seq<Byte>, z: seq<Byte>)

  /** `Contour`: its header fields, its points and its general storage. */
  datatype Contour = Contour(header: Record, points: seq<Point>, extra: seq<Storage>)

  /** `Mesh`: one cleaned vertex list and one relabelled index list per
      polygon, and its general storage. */
  datatype Mesh = Mesh(header: Record, vertices: seq<seq<Point>>, indices: seq<seq<Row>>, extra: seq<Storage>)

  /** `Object`: the parser keeps no header, only what the chunks after it
      attach. */
  datatype Object = Object(contours: seq<Contour>, meshes: seq<Mesh>, extra: seq<Storage>)

  /** `ImodModel`. */
  datatype ImodModel = ImodModel(id: Record, header: Record, objects: seq<Object>, imat: Option<Record>, extra: seq<Storage>)

  /** `Object()`: every list starts empty. */
  function EmptyObject(): (o: Object)
    ensures o.contours == [] && o.meshes == [] && o.extra == []
  {
    Object([], [], [])
  }

  function NewContour(header: Record, points: seq<Point>): (c: Contour)
    ensures c.header == header && c.points == points && c.extra == []
  {
    Contour(header, points, [])
  }

  function NewMesh(header: Record, vertices: seq<seq<Point>>, indices: seq<seq<Row>>): (m: Mesh)
    ensures m.header == header && m.vertices == vertices && m.indices == indices && m.extra == []
  {
    Mesh(header, vertices, indices, [])
  }

  // ------------------------------------------------------------- names

  /** `bytes.find(b)`: the first position of b, or -1. */
  function Find(bs: seq<Byte>, b: Byte): (i: int)
    ensures -1 <= i < |bs|
    ensures i >= 0 ==> bs[i] == b && forall k :: 0 <= k < i ==> bs[k] != b
    ensures i == -1 <==> forall k :: 0 <= k < |bs| ==> bs[k] != b
  {
    if |bs| == 0 then -1
    else if bs[0] == b then 0
    else
      var j := Find(bs[1..], b);
      if j == -1 then -1 else j + 1
  }

  /** Python's `bs[:end]`: a negative end counts from the back. */
  function PrefixTo(bs: seq<Byte>, end: int): (r: seq<Byte>)
    ensures 0 <= end <= |bs| ==> r == bs[..end]
    ensures end < 0 ==> r == bs[..if |bs| + end < 0 then 0 else |bs| + end]
  {
    if end >= |bs| then bs
    else if end >= 0 then bs[..end]
    else if |bs| + end < 0 then []
    else bs[..|bs| + end]
  }

  /** The `name` validators: the bytes before the first zero byte, decoded
      as UTF-8.  With no zero byte `find` gives -1 and the slice drops the
      last byte. */
  function TrimName(raw: seq<Byte>): (r: Result<seq<Byte>>)
    ensures r.Ok? ==> ValidUtf8(r.value) && forall k :: 0 <= k < |r.value| ==> r.value[k] != 0
    ensures r.Ok? ==> r.value <= raw
    ensures (exists k :: 0 <= k < |raw| && raw[k] == 0) ==>
      var i := Find(raw, 0); r == (if ValidUtf8(raw[..i]) then Ok(raw[..i]) else Err(UndecodableText))
  {
    var end := Find(raw, 0);
    var prefix := PrefixTo(raw, end);
    if ValidUtf8(prefix) then Ok(prefix) else Err(UndecodableText)
  }

  /** A name written into its fixed-width field, which `struct.pack` pads
      with zero bytes, is trimmed back to itself. */
  lemma {:induction false} TrimPaddedName(name: seq<Byte>, width: nat)
    requires |name| < width
    requires ValidUtf8(name) && forall k :: 0 <= k < |name| ==> name[k] != 0
    ensures TrimName(PadOrTruncate(name, width)) == Ok(name)
  {
    var raw := PadOrTruncate(name, width);
    assert raw[|name|] == 0;
    assert Find(raw, 0) == |name|;
    assert raw[..|name|] == name;
  }

  /** A leading zero byte gives the empty name. */
  lemma {:induction false} LeadingZeroIsEmpty(raw: seq<Byte>)
    requires |raw| > 0 && raw[0] == 0
    ensures TrimName(raw) == Ok([])
  {
  }

  /** Without any zero byte the last byte is lost: the validator keeps all
      but the final byte. */
  lemma {:induction false} UnterminatedNameLosesLastByte(raw: seq<Byte>)
    requires |raw| > 0 && forall k :: 0 <= k < |raw| ==> raw[k] != 0
    requires ValidUtf8(raw[..|raw| - 1])
    ensures TrimName(raw) == Ok(raw[..|raw| - 1])
  {
  }

  /** Apply the name validator to the `name` field of a decoded header. */
  function ValidateName(m: Record): (r: Result<Record>)
    ensures r.Ok? ==> r.value.Keys == m.Keys
    ensures r.Ok? ==> forall key :: key in m && key != "name" ==> r.value[key] == m[key]
    ensures "name" in m && m["name"].Single? && m["name"].v.BytesVal? ==>
      var raw := m["name"].v.bytes;
      && (r.Ok? <==> TrimName(raw).Ok?)
      && (r.Ok? ==> r.value["name"] == Single(BytesVal(TrimName(raw).value)))
    ensures !("name" in m && m["name"].Single? && m["name"].v.BytesVal?) ==> r == Err(ShapeMismatch("name"))
  {
    if "name" in m && m["name"].Single? && m["name"].v.BytesVal? then
      var name :- TrimName(m["name"].v.bytes);
      Ok(m["name" := Single(BytesVal(name))])
    else Err(ShapeMismatch("name"))
  }

  /** pydantic's `str` coercion of a byte-string field: the bytes must be
      UTF-8. */
  function ValidateText(m: Record, key: string): (r: Result<Record>)
    ensures r.Ok? ==> r.value == m
    ensures r.Ok? <==> key in m && m[key].Single? && m[key].v.BytesVal? && ValidUtf8(m[key].v.bytes)
  {
    if key in m && m[key].Single? && m[key].v.BytesVal? then
      if ValidUtf8(m[key].v.bytes) then Ok(m) else Err(UndecodableText)
    else Err(ShapeMismatch(key))
  }

  // --------------------------------------------------- reshaped indices

  function NonNegative(xs: seq<int>): (ys: seq<int>)
    ensures forall k :: 0 <= k < |ys| ==> ys[k] >= 0
    ensures |ys| <= |xs|
  {
    if |xs| == 0 then []
    else if xs[0] >= 0 then [xs[0]] + NonNegative(xs[1..])
    else NonNegative(xs[1..])
  }

  /** `indices[np.where(indices >= 0)].reshape((-1, 3))` on the raw index
      stream: the entries that are not markers, in order, in threes. */
  function ReshapedIndices(xs: seq<int>): (r: Result<seq<Row>>)
    ensures r.Ok? <==> |NonNegative(xs)| % 3 == 0
    ensures r.Ok? ==> Flat(r.value) == NonNegative(xs)
  {
    var kept := NonNegative(xs);
    if |kept| % 3 != 0 then Err(BadReshape)
    else
      FlatReshape(kept);
      Ok(Reshape(kept))
  }

  lemma {:induction false} NonNegativeAppend(xs: seq<int>, ys: seq<int>)
    ensures NonNegative(xs + ys) == NonNegative(xs) + NonNegative(ys)
  {
    if |xs| > 0 {
      assert (xs + ys)[1..] == xs[1..] + ys;
      NonNegativeAppend(xs[1..], ys);
    } else {
      assert xs + ys == ys;
    }
  }

  lemma {:induction false} NonNegativeAll(xs: seq<int>)
    requires forall k :: 0 <= k < |xs| ==> xs[k] >= 0
    ensures NonNegative(xs) == xs
  {
    if |xs| > 0 {
      NonNegativeAll(xs[1..]);
    }
  }

  function AllRows(ps: seq<seq<Row>>): seq<Row>
  {
    if |ps| == 0 then [] else ps[0] + AllRows(ps[1..])
  }

  predicate NonNegativeRows(ps: seq<seq<Row>>)
  {
    forall i, j :: 0 <= i < |ps| && 0 <= j < |ps[i]| ==>
      ps[i][j].a >= 0 && ps[i][j].b >= 0 && ps[i][j].c >= 0
  }

  lemma {:induction false} FlatAppend(a: seq<Row>, b: seq<Row>)
    ensures Flat(a + b) == Flat(a) + Flat(b)
  {
    if |a| > 0 {
      assert (a + b)[1..] == a[1..] + b;
      FlatAppend(a[1..], b);
    } else {
      assert a + b == b;
    }
  }

  lemma {:induction false} FlatNonNegative(rows: seq<Row>)
    requires forall j :: 0 <= j < |rows| ==> rows[j].a >= 0 && rows[j].b >= 0 && rows[j].c >= 0
    ensures NonNegative(Flat(rows)) == Flat(rows)
  {
    forall k | 0 <= k < |Flat(rows)|
      ensures Flat(rows)[k] >= 0
    {
      FlatAt(rows, k);
    }
    NonNegativeAll(Flat(rows));
  }

  /** The markers of an IMOD index list are all negative, so reshaping an
      encoded list of non-negative polygons yields all their rows, polygon
      after polygon. */
  lemma {:induction false} ReshapedEncoding(ps: seq<seq<Row>>)
    requires NonNegativeRows(ps)
    ensures ReshapedIndices(EncodeImodIndices(ps)) == Ok(AllRows(ps))
    decreases |ps|
  {
    EncodedRowsKept(ps);
    NonNegativeAppend(EncodePolygons(ps), [LIST_END]);
    assert NonNegative([LIST_END]) == [];
    assert NonNegative(EncodeImodIndices(ps)) == Flat(AllRows(ps));
    ReshapeFlat(AllRows(ps));
  }

  lemma {:induction false} EncodedRowsKept(ps: seq<seq<Row>>)
    requires NonNegativeRows(ps)
    ensures NonNegative(EncodePolygons(ps)) == Flat(AllRows(ps))
    decreases |ps|
  {
    if |ps| > 0 {
      assert NonNegativeRows(ps[1..]) by {
        assert forall i :: 0 <= i < |ps| - 1 ==> ps[1..][i] == ps[i + 1];
      }
      EncodedRowsKept(ps[1..]);
      var p := ps[0];
      FlatNonNegative(p);
      NonNegativeAppend([POLYGON_START] + Flat(p), [POLYGON_END]);
      NonNegativeAppend([POLYGON_START], Flat(p));
      NonNegativeAppend(EncodePolygon(p), EncodePolygons(ps[1..]));
      FlatAppend(p, AllRows(ps[1..]));
    }
  }

  // -------------------------------------------------------- extra values

  /** A cell of the float array `extra_values` fills: still zero, or the
      value of an int or float record. */
  datatype Cell = Zero | IntCell(i: int) | FloatCell(word: seq<Byte>)

  /** The records `extra_values` uses: type 10 with an int index. */
  predicate Selected(e: Storage)
  {
    e.typ == 10 && e.index.IntU?
  }

  /** Storing a record's value into the float array: a pair of shorts or
      four bytes is a sequence numpy cannot store in one element. */
  function CellOf(u: Union): (r: Result<Cell>)
    ensures r.Ok? <==> u.IntU? || u.FloatU?
  {
    if u.IntU? then Ok(IntCell(u.i))
    else if u.FloatU? then Ok(FloatCell(u.word))
    else Err(BadValue)
  }

  /** A selected record that can be applied: its index picks an entry of
      the index list, that entry picks a vertex, and its value is a scalar. */
  predicate Applicable(e: Storage, indices: seq<int>, n: nat)
    requires Selected(e)
  {
    && MeshCleanup.InBounds(|indices|, e.index.i)
    && MeshCleanup.InBounds(n, indices[MeshCleanup.Wrap(|indices|, e.index.i)])
    && (e.value.IntU? || e.value.FloatU?)
  }

  /** The vertex a selected, applicable record writes to. */
  function Target(e: Storage, indices: seq<int>, n: nat): (p: nat)
    requires Selected(e) && Applicable(e, indices, n)
    ensures p < n
  {
    MeshCleanup.Wrap(n, indices[MeshCleanup.Wrap(|indices|, e.index.i)])
  }

  /** The loop of `extra_values` from a given array. */
  function ApplyExtras(values: seq<Cell>, indices: seq<int>, extra: seq<Storage>): (r: Result<seq<Cell>>)
    ensures r.Ok? ==> |r.value| == |values|
    decreases |extra|
  {
    if |extra| == 0 then Ok(values)
    else
      var e := extra[0];
      if !Selected(e) then ApplyExtras(values, indices, extra[1..])
      else if !MeshCleanup.InBounds(|indices|, e.index.i) then Err(IndexOutOfRange)
      else
        var target := indices[MeshCleanup.Wrap(|indices|, e.index.i)];
        if !MeshCleanup.InBounds(|values|, target) then Err(IndexOutOfRange)
        else
          var cell :- CellOf(e.value);
          ApplyExtras(values[MeshCleanup.Wrap(|values|, target) := cell], indices, extra[1..])
  }

  /** `Mesh.extra_values` for a mesh of n vertices and raw index list
      `indices`. */
  function ExtraValues(n: nat, indices: seq<int>, extra: seq<Storage>): (r: Result<seq<Cell>>)
    ensures r.Ok? ==> |r.value| == n
  {
    ApplyExtras(seq(n, _ => Zero), indices, extra)
  }

  /** The reference reading: the value of the last selected record aimed at
      vertex p, or `fallback` if no record aims at it. */
  function LastWrite(extra: seq<Storage>, indices: seq<int>, n: nat, p: nat, fallback: Cell): Cell
    decreases |extra|
  {
    if |extra| == 0 then fallback
    else
      var e := extra[|extra| - 1];
      if Selected(e) && Applicable(e, indices, n) && Target(e, indices, n) == p then CellOf(e.value).value
      else LastWrite(extra[..|extra| - 1], indices, n, p, fallback)
  }

  /** Every selected record is applicable. */
  predicate AllApplicable(extra: seq<Storage>, indices: seq<int>, n: nat)
  {
    forall k :: 0 <= k < |extra| && Selected(extra[k]) ==> Applicable(extra[k], indices, n)
  }

  /** A record in front of the others is overridden by any later one aimed
      at the same vertex. */
  lemma {:induction false} LastWriteCons(e: Storage, rest: seq<Storage>, indices: seq<int>, n: nat, p: nat, fallback: Cell)
    ensures LastWrite([e] + rest, indices, n, p, fallback)
         == LastWrite(rest, indices, n, p,
              if Selected(e) && Applicable(e, indices, n) && Target(e, indices, n) == p
              then CellOf(e.value).value else fallback)
    decreases |rest|
  {
    if |rest| > 0 {
      var all := [e] + rest;
      assert all[..|all| - 1] == [e] + rest[..|rest| - 1];
      assert all[|all| - 1] == rest[|rest| - 1];
      LastWriteCons(e, rest[..|rest| - 1], indices, n, p, fallback);
    } else {
      assert [e] + rest == [e];
      assert [e][..0] == [];
    }
  }

  /** The loop fails exactly when some selected record cannot be applied,
      and otherwise every vertex holds the last value aimed at it. */
  lemma {:induction false} ApplyExtrasMeaning(values: seq<Cell>, indices: seq<int>, extra: seq<Storage>)
    ensures ApplyExtras(values, indices, extra).Ok? <==> AllApplicable(extra, indices, |values|)
    ensures ApplyExtras(values, indices, extra).Ok? ==>
      forall p :: 0 <= p < |values| ==>
        ApplyExtras(values, indices, extra).value[p] == LastWrite(extra, indices, |values|, p, values[p])
    decreases |extra|
  {
    var n := |values|;
    if |extra| > 0 {
      var e, rest := extra[0], extra[1..];
      assert extra == [e] + rest;
      assert AllApplicable(extra, indices, n) <==>
        (Selected(e) ==> Applicable(e, indices, n)) && AllApplicable(rest, indices, n) by {
        assert forall k :: 0 <= k < |rest| ==> rest[k] == extra[k + 1];
      }
      if !Selected(e) {
        ApplyExtrasMeaning(values, indices, rest);
        forall p | 0 <= p < n
          ensures LastWrite(extra, indices, n, p, values[p]) == LastWrite(rest, indices, n, p, values[p])
        {
          LastWriteCons(e, rest, indices, n, p, values[p]);
        }
      } else if Applicable(e, indices, n) {
        var t := Target(e, indices, n);
        var values' := values[t := CellOf(e.value).value];
        ApplyExtrasMeaning(values', indices, rest);
        forall p | 0 <= p < n
          ensures LastWrite(extra, indices, n, p, values[p]) == LastWrite(rest, indices, n, p, values'[p])
        {
          LastWriteCons(e, rest, indices, n, p, values[p]);
        }
      }
    }
  }

  /** `extra_values`: it fails exactly when a selected record cannot be
      applied; otherwise it has one cell per vertex, holding the value of
      the last selected record aimed at that vertex, and zero where none
      is. */
  lemma {:induction false} ExtraValuesMeaning(n: nat, indices: seq<int>, extra: seq<Storage>)
    ensures ExtraValues(n, indices, extra).Ok? <==> AllApplicable(extra, indices, n)
    ensures ExtraValues(n, indices, extra).Ok? ==>
      forall p :: 0 <= p < n ==> ExtraValues(n, indices, extra).value[p] == LastWrite(extra, indices, n, p, Zero)
  {
    ApplyExtrasMeaning(seq(n, _ => Zero), indices, extra);
  }

  /** Records that are not selected change nothing. */
  lemma {:induction false} UnselectedIgnored(n: nat, indices: seq<int>, extra: seq<Storage>)
    requires forall k :: 0 <= k < |extra| ==> !Selected(extra[k])
    ensures ExtraValues(n, indices, extra) == Ok(seq(n, _ => Zero))
  {
    UnselectedSkipped(seq(n, _ => Zero), indices, extra);
  }

  lemma {:induction false} UnselectedSkipped(values: seq<Cell>, indices: seq<int>, extra: seq<Storage>)
    requires forall k :: 0 <= k < |extra| ==> !Selected(extra[k])
    ensures ApplyExtras(values, indices, extra) == Ok(values)
    decreases |extra|
  {
    if |extra| > 0 {
      assert !Selected(extra[0]);
      UnselectedSkipped(values, indices, extra[1..]);
    }
  }
}
