/** The mesh index decompiler and vertex relabelling of `mesh.py`.

    IMOD stores a mesh's index list as one integer stream: each polygon is
    a start marker -25, a run of vertex indices in threes, and an end marker
    -22; the whole list ends with -1. */
module MeshIndices {
  import opened Wrappers

  const LIST_END: int := -1
  const POLYGON_END: int := -22
  const POLYGON_START: int := -25

  /** One row of `reshape((-1, 3))`. */
  datatype Row = Row(a: int, b: int, c: int)

  // ------------------------------------------------------------- reshaping

  /** `xs.reshape((-1, 3))` for a length that is a multiple of 3. */
  function Reshape(xs: seq<int>): (rows: seq<Row>)
    requires |xs| % 3 == 0
    ensures 3 * |rows| == |xs|
  {
    if |xs| == 0 then [] else [Row(xs[0], xs[1], xs[2])] + Reshape(xs[3..])
  }

  /** `rows.flatten()`. */
  function Flat(rows: seq<Row>): (xs: seq<int>)
    ensures |xs| == 3 * |rows|
  {
    if |rows| == 0 then [] else [rows[0].a, rows[0].b, rows[0].c] + Flat(rows[1..])
  }

  lemma {:induction false} FlatReshape(xs: seq<int>)
    requires |xs| % 3 == 0
    ensures Flat(Reshape(xs)) == xs
  {
    if |xs| > 0 {
      FlatReshape(xs[3..]);
      assert Reshape(xs)[1..] == Reshape(xs[3..]);
    }
  }

  lemma {:induction false} ReshapeFlat(rows: seq<Row>)
    ensures Reshape(Flat(rows)) == rows
  {
    if |rows| > 0 {
      ReshapeFlat(rows[1..]);
      assert Flat(rows)[3..] == Flat(rows[1..]);
    }
  }

  /** Entry j of the flattening is a field of row j / 3. */
  lemma {:induction false} FlatAt(rows: seq<Row>, j: nat)
    requires j < 3 * |rows|
    ensures var r := rows[j / 3];
      Flat(rows)[j] == (if j % 3 == 0 then r.a else if j % 3 == 1 then r.b else r.c)
  {
    if j >= 3 {
      FlatAt(rows[1..], j - 3);
    }
  }

  // ------------------------------------------------------------- splitting

  /** Number of occurrences of v in xs. */
  function Occurrences(xs: seq<int>, v: int): nat
  {
    if |xs| == 0 then 0 else (if xs[0] == v then 1 else 0) + Occurrences(xs[1..], v)
  }

  lemma {:induction false} OccurrencesAppend(xs: seq<int>, ys: seq<int>, v: int)
    ensures Occurrences(xs + ys, v) == Occurrences(xs, v) + Occurrences(ys, v)
  {
    if |xs| > 0 {
      assert (xs + ys)[0] == xs[0];
      assert (xs + ys)[1..] == xs[1..] + ys;
      OccurrencesAppend(xs[1..], ys, v);
    } else {
      assert xs + ys == ys;
    }
  }

  lemma {:induction false} NoOccurrences(xs: seq<int>, v: int)
    requires forall k :: 0 <= k < |xs| ==> xs[k] != v
    ensures Occurrences(xs, v) == 0
  {
    if |xs| > 0 {
      NoOccurrences(xs[1..], v);
    }
  }

  /** The first polygon start at or after i, or |xs| if there is none. */
  function NextStart(xs: seq<int>, i: nat): (j: nat)
    requires i <= |xs|
    ensures i <= j <= |xs|
    ensures j < |xs| ==> xs[j] == POLYGON_START
    ensures forall k :: i <= k < j ==> xs[k] != POLYGON_START
    decreases |xs| - i
  {
    if i == |xs| || xs[i] == POLYGON_START then i else NextStart(xs, i + 1)
  }

  /** The pieces of `np.array_split(xs, starts)` after the first, for a
      stream that begins at a start marker: each piece runs from one start
      marker up to the next. */
  function Segments(xs: seq<int>): (segs: seq<seq<int>>)
    requires |xs| > 0 ==> xs[0] == POLYGON_START
    ensures forall k :: 0 <= k < |segs| ==> |segs[k]| > 0 && segs[k][0] == POLYGON_START
    decreases |xs|
  {
    if |xs| == 0 then []
    else
      var j := NextStart(xs, 1);
      [xs[..j]] + Segments(xs[j..])
  }

  /** `np.array_split(xs, np.nonzero(xs == -25)[0])[1:]`: the leading piece
      before the first start marker is dropped. */
  function SplitAtStarts(xs: seq<int>): seq<seq<int>>
  {
    Segments(xs[NextStart(xs, 0)..])
  }

  function Concat(segs: seq<seq<int>>): seq<int>
  {
    if |segs| == 0 then [] else segs[0] + Concat(segs[1..])
  }

  /** The segments partition the stream and there is one per start marker. */
  lemma {:induction false} SegmentsShape(xs: seq<int>)
    requires |xs| > 0 ==> xs[0] == POLYGON_START
    ensures Concat(Segments(xs)) == xs
    ensures |Segments(xs)| == Occurrences(xs, POLYGON_START)
    decreases |xs|
  {
    if |xs| > 0 {
      var j := NextStart(xs, 1);
      SegmentsShape(xs[j..]);
      assert xs == xs[..j] + xs[j..];
      OccurrencesAppend(xs[..j], xs[j..], POLYGON_START);
      assert xs[..j] == [xs[0]] + xs[1..j];
      OccurrencesAppend([xs[0]], xs[1..j], POLYGON_START);
      NoOccurrences(xs[1..j], POLYGON_START);
    }
  }

  /** Splitting drops exactly the part before the first start marker and
      yields one segment per start marker. */
  lemma {:induction false} SplitAtStartsShape(xs: seq<int>)
    ensures Concat(SplitAtStarts(xs)) == xs[NextStart(xs, 0)..]
    ensures |SplitAtStarts(xs)| == Occurrences(xs, POLYGON_START)
  {
    var i := NextStart(xs, 0);
    SegmentsShape(xs[i..]);
    LeadOccurrences(xs, i);
  }

  /** Nothing before the first start marker counts. */
  lemma {:induction false} LeadOccurrences(xs: seq<int>, i: nat)
    requires i == NextStart(xs, 0)
    ensures Occurrences(xs, POLYGON_START) == Occurrences(xs[i..], POLYGON_START)
  {
    assert xs == xs[..i] + xs[i..];
    OccurrencesAppend(xs[..i], xs[i..], POLYGON_START);
    NoOccurrences(xs[..i], POLYGON_START);
  }

  // --------------------------------------------------------------- parsing

  /** The validation loop: the first segment that does not end with -22
      raises. */
  function CheckEnds(segs: seq<seq<int>>): (c: Check)
    requires forall k :: 0 <= k < |segs| ==> |segs[k]| > 0
    ensures c.Pass? <==> forall k :: 0 <= k < |segs| ==> segs[k][|segs[k]| - 1] == POLYGON_END
  {
    if |segs| == 0 then Pass
    else if segs[0][|segs[0]| - 1] != POLYGON_END then Fail(BadPolygonEnd(segs[0][|segs[0]| - 1]))
    else CheckEnds(segs[1..])
  }

  /** `[split[1:-1].reshape((-1, 3)) for split in split_indices]`. */
  function InnerRows(segs: seq<seq<int>>): (r: Result<seq<seq<Row>>>)
    requires forall k :: 0 <= k < |segs| ==> |segs[k]| >= 2
    ensures r.Ok? <==> forall k :: 0 <= k < |segs| ==> (|segs[k]| - 2) % 3 == 0
    ensures r.Ok? ==> |r.value| == |segs|
  {
    if |segs| == 0 then Ok([])
    else
      var inner := segs[0][1..|segs[0]| - 1];
      if |inner| % 3 != 0 then Err(BadReshape)
      else
        var rest :- InnerRows(segs[1..]);
        Ok([Reshape(inner)] + rest)
  }

  /** `parse_imod_indices`: the list must end with -1 (an empty list fails
      at `indices[-1]`); the remaining stream is split at the start
      markers, every segment must end with -22, and the entries between
      the markers are grouped in threes. */
  function ParseImodIndices(xs: seq<int>): (r: Result<seq<seq<Row>>>)
    ensures |xs| == 0 ==> r == Err(IndexOutOfRange)
    ensures |xs| > 0 && xs[|xs| - 1] != LIST_END ==> r == Err(MissingTerminator)
    ensures r.Ok? ==> |r.value| == Occurrences(xs[..|xs| - 1], POLYGON_START)
  {
    if |xs| == 0 then Err(IndexOutOfRange)
    else if xs[|xs| - 1] != LIST_END then Err(MissingTerminator)
    else
      var body := xs[..|xs| - 1];
      var segs := SplitAtStarts(body);
      SplitAtStartsShape(body);
      :- CheckEnds(segs);
      InnerRows(segs)
  }

  // -------------------------------------------------------------- encoding

  /** The stream of one polygon: start marker, its rows, end marker. */
  function EncodePolygon(p: seq<Row>): (xs: seq<int>)
    ensures |xs| == 3 * |p| + 2
    ensures xs[0] == POLYGON_START && xs[|xs| - 1] == POLYGON_END
  {
    [POLYGON_START] + Flat(p) + [POLYGON_END]
  }

  function EncodePolygons(ps: seq<seq<Row>>): seq<int>
  {
    if |ps| == 0 then [] else EncodePolygon(ps[0]) + EncodePolygons(ps[1..])
  }

  /** The segment each polygon encodes to. */
  function EncodeEach(ps: seq<seq<Row>>): (segs: seq<seq<int>>)
    ensures |segs| == |ps|
    ensures forall k :: 0 <= k < |segs| ==> |segs[k]| >= 2
  {
    if |ps| == 0 then [] else [EncodePolygon(ps[0])] + EncodeEach(ps[1..])
  }

  /** The IMOD index list for a sequence of polygons. */
  function EncodeImodIndices(ps: seq<seq<Row>>): (xs: seq<int>)
    ensures |xs| > 0 && xs[|xs| - 1] == LIST_END
  {
    EncodePolygons(ps) + [LIST_END]
  }

  predicate RowFree(r: Row, v: int)
  {
    r.a != v && r.b != v && r.c != v
  }

  /** No row of any polygon holds a start marker, so the encoding has
      exactly one start marker per polygon. */
  predicate NoStartInside(ps: seq<seq<Row>>)
  {
    forall i, j :: 0 <= i < |ps| && 0 <= j < |ps[i]| ==> RowFree(ps[i][j], POLYGON_START)
  }

  lemma {:induction false} FlatFree(rows: seq<Row>, v: int)
    requires forall j :: 0 <= j < |rows| ==> RowFree(rows[j], v)
    ensures forall k :: 0 <= k < |Flat(rows)| ==> Flat(rows)[k] != v
  {
    forall k | 0 <= k < |Flat(rows)|
      ensures Flat(rows)[k] != v
    {
      FlatAt(rows, k);
    }
  }

  /** The encoding of polygons free of start markers splits back into the
      encodings of the individual polygons. */
  lemma {:induction false} SegmentsOfEncoding(ps: seq<seq<Row>>)
    requires NoStartInside(ps)
    ensures |EncodePolygons(ps)| > 0 ==> EncodePolygons(ps)[0] == POLYGON_START
    ensures Segments(EncodePolygons(ps)) == EncodeEach(ps)
  {
    if |ps| > 0 {
      var head := EncodePolygon(ps[0]);
      var rest := EncodePolygons(ps[1..]);
      var xs := head + rest;
      assert NoStartInside(ps[1..]) by {
        assert forall i :: 0 <= i < |ps| - 1 ==> ps[1..][i] == ps[i + 1];
      }
      SegmentsOfEncoding(ps[1..]);
      FlatFree(ps[0], POLYGON_START);
      assert forall k :: 1 <= k < |head| ==> xs[k] != POLYGON_START;
      NextStartAfter(xs, |head|);
      assert xs[..|head|] == head && xs[|head|..] == rest;
    }
  }

  /** When no start marker sits at 1 .. n-1 and one sits at n (or the
      stream ends there), the next start after position 1 is n. */
  lemma {:induction false} NextStartAfter(xs: seq<int>, n: nat)
    requires 1 <= n <= |xs|
    requires forall k :: 1 <= k < n ==> xs[k] != POLYGON_START
    requires n < |xs| ==> xs[n] == POLYGON_START
    ensures NextStart(xs, 1) == n
  {
  }

  /** Round trip: polygons whose rows hold no start marker are encoded and
      decoded back to themselves. */
  lemma {:induction false} EncodeThenParse(ps: seq<seq<Row>>)
    requires NoStartInside(ps)
    ensures ParseImodIndices(EncodeImodIndices(ps)) == Ok(ps)
  {
    var xs := EncodeImodIndices(ps);
    var body := EncodePolygons(ps);
    assert xs[..|xs| - 1] == body;
    SegmentsOfEncoding(ps);
    assert NextStart(body, 0) == 0;
    assert body[0..] == body;
    InnerRowsOfEncoding(ps);
  }

  lemma {:induction false} InnerRowsOfEncoding(ps: seq<seq<Row>>)
    ensures CheckEnds(EncodeEach(ps)) == Pass
    ensures InnerRows(EncodeEach(ps)) == Ok(ps)
  {
    EncodedEnds(ps);
    EncodedRows(ps);
  }

  /** Every encoded segment ends with the end marker. */
  lemma {:induction false} EncodedEnds(ps: seq<seq<Row>>)
    ensures CheckEnds(EncodeEach(ps)) == Pass
  {
    if |ps| > 0 {
      EncodedEnds(ps[1..]);
      assert EncodeEach(ps)[1..] == EncodeEach(ps[1..]);
    }
  }

  /** The rows between the markers of each encoded segment are the polygon. */
  lemma {:induction false} EncodedRows(ps: seq<seq<Row>>)
    ensures InnerRows(EncodeEach(ps)) == Ok(ps)
  {
    if |ps| > 0 {
      var tail := EncodeEach(ps[1..]);
      assert EncodeEach(ps) == [EncodePolygon(ps[0])] + tail;
      EncodedRows(ps[1..]);
      InnerRowsCons(EncodePolygon(ps[0]), tail, ps[0], ps[1..]);
      assert ps == [ps[0]] + ps[1..];
    }
  }

  lemma {:induction false} InnerRowsCons(seg: seq<int>, tail: seq<seq<int>>, p: seq<Row>, rest: seq<seq<Row>>)
    requires seg == EncodePolygon(p)
    requires forall k :: 0 <= k < |tail| ==> |tail[k]| >= 2
    requires InnerRows(tail) == Ok(rest)
    ensures InnerRows([seg] + tail) == Ok([p] + rest)
  {
    var segs := [seg] + tail;
    assert segs[0] == seg && segs[1..] == tail;
    var inner := seg[1..|seg| - 1];
    assert inner == Flat(p);
    assert |inner| == 3 * |p|;
    ReshapeFlat(p);
  }

  /** The converse: whatever parses, re-encodes to the input minus the part
      before the first start marker. */
  lemma {:induction false} ParseThenEncode(xs: seq<int>)
    requires ParseImodIndices(xs).Ok?
    ensures var body := xs[..|xs| - 1];
      EncodeImodIndices(ParseImodIndices(xs).value) == body[NextStart(body, 0)..] + [LIST_END]
  {
    var body := xs[..|xs| - 1];
    var segs := SplitAtStarts(body);
    SplitAtStartsShape(body);
    EncodeInnerRows(segs);
  }

  lemma {:induction false} EncodeInnerRows(segs: seq<seq<int>>)
    requires forall k :: 0 <= k < |segs| ==> |segs[k]| > 0 && segs[k][0] == POLYGON_START
    requires CheckEnds(segs).Pass?
    requires InnerRows(segs).Ok?
    ensures EncodePolygons(InnerRows(segs).value) == Concat(segs)
  {
    if |segs| > 0 {
      var s := segs[0];
      var inner := s[1..|s| - 1];
      EncodeInnerRows(segs[1..]);
      FlatReshape(inner);
      assert s == [POLYGON_START] + inner + [POLYGON_END];
    }
  }

  /** The worked example: `[-25,0,1,2,-22,-25,1,2,3,-22,-1]` decodes to
      two one-row polygons. */
  lemma {:induction false} TwoTriangles()
    ensures ParseImodIndices([-25, 0, 1, 2, -22, -25, 1, 2, 3, -22, -1])
         == Ok([[Row(0, 1, 2)], [Row(1, 2, 3)]])
  {
    var ps := [[Row(0, 1, 2)], [Row(1, 2, 3)]];
    assert EncodeImodIndices(ps) == [-25, 0, 1, 2, -22, -25, 1, 2, 3, -22, -1];
    EncodeThenParse(ps);
  }
}
