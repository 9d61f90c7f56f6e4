/** What the legacy functional reader (`imodmodel/parsers.py`) makes of a
    file the current writer (`src/imodmodel/writers.py`) wrote: objects
    with plain contours and no meshes, whose header's `contsize` counts
    the contours, read back in full in either writer mode. */
module LegacyReadBack {
  import opened Wrappers
  import opened Bytes
  import opened FieldCodec
  import opened Layouts
  import opened Framing
  import opened GeneralStorage
  import opened Models
  import opened Parsers
  import opened Writers
  import opened ModelWriter
  import opened LegacyParsers

  // ------------------------------------------------------------ readable

  /** A contour the legacy reader takes back whole: no point sizes and no
      storage follow its points. */
  predicate LegacyContourReads(c: WContour)
  {
    ContourWritable(c) && c.pointSizes.None? && c.extra == []
  }

  /** An object the legacy reader takes back whole: `contsize` counts its
      contours and it has no meshes. */
  predicate LegacyObjectReads(o: WObject)
  {
    && Conforms(ObjectHeader(), o.header)
    && IntField(o.header, "contsize") == Ok(|o.contours|)
    && (forall k :: 0 <= k < |o.contours| ==> LegacyContourReads(o.contours[k]))
    && o.meshes == []
    && (o.imat.Some? ==> Conforms(Imat(), o.imat.value))
    && StorageWritable(o.extra)
  }

  predicate LegacyModelReads(m: WModel)
  {
    && Conforms(Id(), m.id) && Conforms(ModelHeader(), m.header)
    && (forall k :: 0 <= k < |m.objects| ==> LegacyObjectReads(m.objects[k]))
    && (forall k :: 0 <= k < |m.slicerAngles| ==> |m.slicerAngles[k]| == 48)
    && (m.minx.Some? ==> |m.minx.value| == 72)
    && StorageWritable(m.extra)
  }

  /** The legacy object a written object reads back as. */
  function LegacyObjectOf(o: WObject): LegacyObject
  {
    LegacyObject(ReadBackContours(o.contours))
  }

  function LegacyObjectsOf(os: seq<WObject>): (r: seq<LegacyObject>)
    ensures |r| == |os|
    ensures forall k :: 0 <= k < |os| ==> r[k] == LegacyObjectOf(os[k])
  {
    if |os| == 0 then [] else [LegacyObjectOf(os[0])] + LegacyObjectsOf(os[1..])
  }

  // ------------------------------------------------------------ contours

  /** A written contour with nothing after its points parses back. */
  lemma {:induction false} PlainContourRead(mode: Mode, c: WContour, w: seq<Byte>, data: seq<Byte>, a: nat, q: nat)
    requires LegacyContourReads(c) && ContourBytes(mode, c) == Ok(w) && At(data, a, q, w)
    ensures ParseContour(data, a) == Ok((ReadBackContour(c), q))
  {
    if mode == AsWritten {
      ContourModesAgree(c);
    }
    PlainContourData(c, w, data, a, q);
  }

  lemma {:induction false} PlainContourData(c: WContour, w: seq<Byte>, data: seq<Byte>, a: nat, q: nat)
    requires LegacyContourReads(c) && WriteContour(c) == Ok(w) && At(data, a, q, w)
    ensures ParseContour(data, a) == Ok((ReadBackContour(c), q))
  {
    var hb, pb, sb := ContourDataPieces(c);
    assert w == hb + pb;
    ContourBodyRoundTrip(c.header, c.points, hb, pb, data, a, q);
  }

  lemma {:induction false} LegacyContoursTail(cs: seq<WContour>)
    requires |cs| > 0 && forall k :: 0 <= k < |cs| ==> LegacyContourReads(cs[k])
    ensures LegacyContourReads(cs[0]) && forall k :: 0 <= k < |cs[1..]| ==> LegacyContourReads(cs[1..][k])
  {
    assert forall k :: 1 <= k < |cs| ==> cs[1..][k - 1] == cs[k];
  }

  /** A written tag read as `_parse_object` reads it. */
  lemma {:induction false} TagReadAsWritten(tag: Tag, data: seq<Byte>, p: nat, a: nat)
    requires |tag| == 4 && IsAscii(tag) && At(data, p, a, tag)
    ensures ReadTagAsWritten(data, p) == Ok((tag, a))
  {
    TagAt(tag, data, p, a);
  }

  /** The written contours, each after its CONT tag, are the `contsize`
      contours `_parse_object` reads. */
  lemma {:induction false} TaggedContoursRead(mode: Mode, cs: seq<WContour>, w: seq<Byte>, data: seq<Byte>, p: nat, q: nat)
    requires forall k :: 0 <= k < |cs| ==> LegacyContourReads(cs[k])
    requires WriteContours(mode, cs) == Ok(w) && At(data, p, q, w)
    ensures ParseTaggedContours(data, p, |cs|) == Ok((ReadBackContours(cs), q))
    decreases |cs|
  {
    if |cs| > 0 {
      var w0, rest := ContoursHead(mode, cs, w);
      LegacyContoursTail(cs);
      var a := p + 4;
      var n := a + |w0|;
      Split(data, p, n, q, CONT + w0, rest);
      Split(data, p, a, n, CONT, w0);
      TagsAreAscii();
      TagReadAsWritten(CONT, data, p, a);
      PlainContourRead(mode, cs[0], w0, data, a, n);
      TaggedContoursRead(mode, cs[1..], rest, data, n, q);
    }
  }

  // -------------------------------------------------------------- object

  /** A written object header, and the contours after it, make the legacy
      object. */
  lemma {:induction false} LegacyObjectParsed(mode: Mode, o: WObject, hb: seq<Byte>, cb: seq<Byte>, data: seq<Byte>, a: nat, n: nat, q: nat)
    requires LegacyObjectReads(o)
    requires WriteSpec(ObjectHeader(), o.header) == Ok(hb) && WriteContours(mode, o.contours) == Ok(cb)
    requires At(data, a, n, hb) && At(data, n, q, cb)
    ensures ParseLegacyObject(data, a) == Ok((LegacyObjectOf(o), q))
  {
    ObjectHeaderCodable();
    ObjectHeaderWidth();
    WriteSpecWidth(ObjectHeader(), o.header);
    HeaderAt(ObjectHeader(), o.header, hb, data, a, n);
    assert ContsizeAt(data, a) == |o.contours|;
    TaggedContoursRead(mode, o.contours, cb, data, n, q);
  }

  /** One turn of the legacy loop: a tag other than IEOF and what its
      dispatch makes of the body. */
  lemma {:induction false} LegacyThrough(data: seq<Byte>, p: nat, tag: Tag, a: nat, b: LegacyBody, b': LegacyBody, q: nat)
    requires ReadTag(data, p) == Ok((tag, a)) && tag != IEOF
    requires LegacyDispatch(data, a, tag, b) == Ok((b', q))
    ensures LegacyRun(data, p, b) == LegacyRun(data, q, b')
  {
    assert LegacyRun(data, p, b) == LegacyIteration(data, p, b);
  }

  /** The legacy loop past a tag it skips by the size prefix. */
  lemma {:induction false} LegacySkipRead(tag: Tag, data: seq<Byte>, p: nat, a: nat, q: nat, b: LegacyBody)
    requires ReadTag(data, p) == Ok((tag, a)) && tag != IEOF && tag != OBJT && tag != IMAT
    requires SkipUnknown(data, a) == Ok(q)
    ensures LegacyRun(data, p, b) == LegacyRun(data, q, b)
  {
    LegacyThrough(data, p, tag, a, b, b, q);
  }

  /** A chunk whose four-byte prefix is the length of the rest is skipped
      exactly. */
  lemma {:induction false} PrefixedSkip(bs: seq<Byte>, data: seq<Byte>, a: nat, q: nat)
    requires |bs| >= 4 && FromBE(bs[..4]) == |bs| - 4 && At(data, a, q, bs)
    ensures SkipUnknown(data, a) == Ok(q)
  {
    assert data[a..a + 4] == bs[..4];
  }

  /** A tagged chunk of the writer, skipped by the legacy loop. */
  lemma {:induction false} LegacyChunkSkipped(tag: Tag, bs: seq<Byte>, data: seq<Byte>, p: nat, q: nat, b: LegacyBody)
    requires |tag| == 4 && IsAscii(tag) && tag != IEOF && tag != OBJT && tag != IMAT
    requires |bs| >= 4 && FromBE(bs[..4]) == |bs| - 4 && At(data, p, q, tag + bs)
    ensures LegacyRun(data, p, b) == LegacyRun(data, q, b)
  {
    var a := p + 4;
    Split(data, p, a, q, tag, bs);
    TagAt(tag, data, p, a);
    PrefixedSkip(bs, data, a, q);
    LegacySkipRead(tag, data, p, a, q, b);
  }

  /** Storage under a tag the legacy loop does not know is skipped. */
  lemma {:induction false} LegacyStorageSkipped(tag: Tag, ss: seq<Storage>, eb: seq<Byte>, data: seq<Byte>, p: nat, q: nat, b: LegacyBody)
    requires |tag| == 4 && IsAscii(tag) && tag != IEOF && tag != OBJT && tag != IMAT
    requires WriteTaggedStorage(tag, ss) == Ok(eb) && At(data, p, q, eb)
    ensures LegacyRun(data, p, b) == LegacyRun(data, q, b)
  {
    if |ss| > 0 {
      var sw := WriteGeneralStorage(ss).value;
      assert eb == tag + sw;
      LegacyChunkSkipped(tag, sw, data, p, q, b);
    }
  }

  /** An object's IMAT chunk sets the legacy model's material record. */
  lemma {:induction false} LegacyImatRead(mode: Mode, imat: Option<Record>, w: seq<Byte>, data: seq<Byte>, p: nat, q: nat, b: LegacyBody)
    requires imat.Some? ==> Conforms(Imat(), imat.value)
    requires ImatChunk(mode, imat) == Ok(w) && At(data, p, q, w)
    ensures LegacyRun(data, p, b) == LegacyRun(data, q, b.(imat := if imat.Some? then imat else b.imat))
  {
    if imat.None? {
      assert b.(imat := b.imat) == b;
    } else {
      var prefix := if mode == Corrected then IMAT_PREFIX else IMAT_PREFIX_AS_WRITTEN;
      var iw := WriteImatWith(prefix, imat.value).value;
      var a := p + 4;
      assert w == IMAT + iw;
      Split(data, p, a, q, IMAT, iw);
      TagsAreAscii();
      TagAt(IMAT, data, p, a);
      Writers.ImatChunkRead(prefix, imat.value, iw, data, a, q);
      LegacyImatTag(data, p, a, b, imat.value, q);
    }
  }

  /** The legacy loop past an IMAT tag whose record parses. */
  lemma {:induction false} LegacyImatTag(data: seq<Byte>, p: nat, a: nat, b: LegacyBody, imat: Record, q: nat)
    requires ReadTag(data, p) == Ok((IMAT, a)) && ParseImat(data, a) == Ok((imat, q))
    ensures LegacyRun(data, p, b) == LegacyRun(data, q, LegacyBody(b.objects, Some(imat)))
  {
    TagsDistinct();
    assert LegacyDispatch(data, a, IMAT, b) == Ok((LegacyBody(b.objects, Some(imat)), q));
    LegacyThrough(data, p, IMAT, a, b, LegacyBody(b.objects, Some(imat)), q);
  }

  /** The OBJT tag and the object's header and contours. */
  lemma {:induction false} LegacyObjtRead(mode: Mode, o: WObject, hb: seq<Byte>, cb: seq<Byte>, data: seq<Byte>,
                                          p: nat, a: nat, n: nat, q: nat, b: LegacyBody)
    requires LegacyObjectReads(o)
    requires WriteSpec(ObjectHeader(), o.header) == Ok(hb) && WriteContours(mode, o.contours) == Ok(cb)
    requires At(data, p, a, OBJT) && At(data, a, n, hb) && At(data, n, q, cb)
    ensures LegacyRun(data, p, b) == LegacyRun(data, q, b.(objects := b.objects + [LegacyObjectOf(o)]))
  {
    TagsAreAscii();
    TagAt(OBJT, data, p, a);
    LegacyObjectParsed(mode, o, hb, cb, data, a, n, q);
    LegacyThrough(data, p, OBJT, a, b, b.(objects := b.objects + [LegacyObjectOf(o)]), q);
  }

  /** A written object, read by the legacy loop: its contours make a new
      object, its IMAT chunk sets the material record, its storage is
      skipped. */
  lemma {:induction false} LegacyObjectRead(mode: Mode, o: WObject, w: seq<Byte>, data: seq<Byte>, p: nat, q: nat, b: LegacyBody)
    requires LegacyObjectReads(o)
    requires WriteObject(mode, o) == Ok(w) && At(data, p, q, OBJT + w)
    ensures LegacyRun(data, p, b)
         == LegacyRun(data, q, LegacyBody(b.objects + [LegacyObjectOf(o)], if o.imat.Some? then o.imat else b.imat))
  {
    var hb, cb, mb, ib, eb := ObjectPieces(mode, o, w);
    var a := p + 4;
    var n1 := a + |hb|;
    var n2 := a + |hb + cb|;
    var n3 := a + |(hb + cb) + mb|;
    var n4 := a + |((hb + cb) + mb) + ib|;
    Split(data, p, a, q, OBJT, w);
    Split(data, a, n4, q, ((hb + cb) + mb) + ib, eb);
    Split(data, a, n3, n4, (hb + cb) + mb, ib);
    Split(data, a, n2, n3, hb + cb, mb);
    Split(data, a, n1, n2, hb, cb);
    LegacyObjectParts(mode, o, hb, cb, mb, ib, eb, data, p, a, n1, n2, n3, n4, q, b);
  }

  lemma {:induction false} LegacyObjectParts(mode: Mode, o: WObject, hb: seq<Byte>, cb: seq<Byte>, mb: seq<Byte>, ib: seq<Byte>, eb: seq<Byte>,
                                             data: seq<Byte>, p: nat, a: nat, n1: nat, n2: nat, n3: nat, n4: nat, q: nat, b: LegacyBody)
    requires LegacyObjectReads(o)
    requires WriteSpec(ObjectHeader(), o.header) == Ok(hb) && WriteContours(mode, o.contours) == Ok(cb)
    requires WriteMeshes(mode, o.meshes) == Ok(mb) && ImatChunk(mode, o.imat) == Ok(ib)
    requires WriteTaggedStorage(OBST, o.extra) == Ok(eb)
    requires At(data, p, a, OBJT) && At(data, a, n1, hb) && At(data, n1, n2, cb) && At(data, n2, n3, mb)
    requires At(data, n3, n4, ib) && At(data, n4, q, eb)
    ensures LegacyRun(data, p, b)
         == LegacyRun(data, q, LegacyBody(b.objects + [LegacyObjectOf(o)], if o.imat.Some? then o.imat else b.imat))
  {
    assert mb == [] && n2 == n3;
    var b1 := LegacyBody(b.objects + [LegacyObjectOf(o)], b.imat);
    LegacyObjtRead(mode, o, hb, cb, data, p, a, n1, n2, b);
    assert b.(objects := b.objects + [LegacyObjectOf(o)]) == b1;
    var b2 := LegacyBody(b1.objects, if o.imat.Some? then o.imat else b.imat);
    LegacyImatRead(mode, o.imat, ib, data, n3, n4, b1);
    assert b1.(imat := if o.imat.Some? then o.imat else b1.imat) == b2;
    TagsAreAscii();
    TagsDistinct();
    LegacyStorageSkipped(OBST, o.extra, eb, data, n4, q, b2);
  }

  // --------------------------------------------------------------- model

  lemma {:induction false} LegacyObjectsTail(os: seq<WObject>)
    requires |os| > 0 && forall k :: 0 <= k < |os| ==> LegacyObjectReads(os[k])
    ensures LegacyObjectReads(os[0]) && forall k :: 0 <= k < |os[1..]| ==> LegacyObjectReads(os[1..][k])
  {
    assert forall k :: 1 <= k < |os| ==> os[1..][k - 1] == os[k];
  }

  /** The written objects, each read by the legacy loop in order; the
      material record is the last one written. */
  lemma {:induction false} LegacyObjectsRead(mode: Mode, os: seq<WObject>, w: seq<Byte>, data: seq<Byte>, p: nat, q: nat, b: LegacyBody)
    requires forall k :: 0 <= k < |os| ==> LegacyObjectReads(os[k])
    requires WriteObjects(mode, os) == Ok(w) && At(data, p, q, w)
    ensures LegacyRun(data, p, b) == LegacyRun(data, q, LegacyBody(b.objects + LegacyObjectsOf(os), LastImat(os, b.imat)))
    decreases |os|
  {
    if |os| == 0 {
      assert LegacyBody(b.objects + LegacyObjectsOf(os), LastImat(os, b.imat)) == b;
    } else {
      var w0, rest := ObjectsHead(mode, os, w);
      LegacyObjectsTail(os);
      var m := p + |OBJT + w0|;
      Split(data, p, m, q, OBJT + w0, rest);
      LegacyObjectRead(mode, os[0], w0, data, p, m, b);
      var b1 := LegacyBody(b.objects + [LegacyObjectOf(os[0])], if os[0].imat.Some? then os[0].imat else b.imat);
      LegacyObjectsRead(mode, os[1..], rest, data, m, q, b1);
      LegacyObjectsBody(os, b);
    }
  }

  /** One object read, then the rest, is all of them read. */
  lemma {:induction false} LegacyObjectsBody(os: seq<WObject>, b: LegacyBody)
    requires |os| > 0
    ensures var b1 := LegacyBody(b.objects + [LegacyObjectOf(os[0])], if os[0].imat.Some? then os[0].imat else b.imat);
      LegacyBody(b1.objects + LegacyObjectsOf(os[1..]), LastImat(os[1..], b1.imat))
        == LegacyBody(b.objects + LegacyObjectsOf(os), LastImat(os, b.imat))
  {
    assert b.objects + [LegacyObjectOf(os[0])] + LegacyObjectsOf(os[1..]) == b.objects + LegacyObjectsOf(os);
  }

  /** Slicer angles of 48 bytes, each skipped exactly by its prefix. */
  lemma {:induction false} LegacySlicerAnglesRead(ps: seq<seq<Byte>>, data: seq<Byte>, p: nat, q: nat, b: LegacyBody)
    requires forall k :: 0 <= k < |ps| ==> |ps[k]| == 48
    requires At(data, p, q, WriteSlicerAngles(ps))
    ensures LegacyRun(data, p, b) == LegacyRun(data, q, b)
    decreases |ps|
  {
    if |ps| > 0 {
      var w0 := WriteSlicerAngle(ps[0]);
      var m := p + |SLAN + w0|;
      Split(data, p, m, q, SLAN + w0, WriteSlicerAngles(ps[1..]));
      TagsAreAscii();
      BlobTagsUnknown();
      LegacyChunkSkipped(SLAN, w0, data, p, m, b);
      assert forall k :: 1 <= k < |ps| ==> ps[1..][k - 1] == ps[k];
      LegacySlicerAnglesRead(ps[1..], data, m, q, b);
    }
  }

  /** A MINX payload of 72 bytes, skipped exactly by its prefix. */
  lemma {:induction false} LegacyMinxRead(minx: Option<seq<Byte>>, data: seq<Byte>, p: nat, q: nat, b: LegacyBody)
    requires minx.Some? ==> |minx.value| == 72
    requires At(data, p, q, MinxChunk(minx))
    ensures LegacyRun(data, p, b) == LegacyRun(data, q, b)
  {
    if minx.Some? {
      TagsAreAscii();
      BlobTagsUnknown();
      LegacyChunkSkipped(MINX, WriteMinx(minx.value), data, p, q, b);
    }
  }

  /** The bare IEOF tag ends the legacy loop with the body it has. */
  lemma {:induction false} LegacyIeofRead(data: seq<Byte>, p: nat, q: nat, b: LegacyBody)
    requires At(data, p, q, IEOF)
    ensures LegacyRun(data, p, b) == Ok(b)
  {
    TagsAreAscii();
    TagAt(IEOF, data, p, q);
    assert LegacyRun(data, p, b) == LegacyIteration(data, p, b);
  }

  /** After the objects: slicer angles, MINX and the model's storage are
      all skipped, and IEOF ends the loop. */
  lemma {:induction false} LegacyTrailerRead(m: WModel, eb: seq<Byte>, data: seq<Byte>,
                                             n1: nat, n2: nat, n3: nat, n4: nat, q: nat, b: LegacyBody)
    requires LegacyModelReads(m) && WriteTaggedStorage(MOST, m.extra) == Ok(eb)
    requires At(data, n1, n2, WriteSlicerAngles(m.slicerAngles))
    requires At(data, n2, n3, MinxChunk(m.minx)) && At(data, n3, n4, eb) && At(data, n4, q, IEOF)
    ensures LegacyRun(data, n1, b) == Ok(b)
  {
    LegacySlicerAnglesRead(m.slicerAngles, data, n1, n2, b);
    LegacyMinxRead(m.minx, data, n2, n3, b);
    TagsAreAscii();
    TagsDistinct();
    LegacyStorageSkipped(MOST, m.extra, eb, data, n3, n4, b);
    LegacyIeofRead(data, n4, q, b);
  }

  /** The legacy loop over everything a written model holds after its
      header. */
  lemma {:induction false} LegacyBodyParts(mode: Mode, m: WModel, ob: seq<Byte>, eb: seq<Byte>, data: seq<Byte>,
                                           p: nat, n1: nat, n2: nat, n3: nat, n4: nat, q: nat)
    requires LegacyModelReads(m)
    requires WriteObjects(mode, m.objects) == Ok(ob) && WriteTaggedStorage(MOST, m.extra) == Ok(eb)
    requires At(data, p, n1, ob) && At(data, n1, n2, WriteSlicerAngles(m.slicerAngles))
    requires At(data, n2, n3, MinxChunk(m.minx)) && At(data, n3, n4, eb) && At(data, n4, q, IEOF)
    ensures LegacyRun(data, p, LegacyBody([], None)) == Ok(LegacyBody(LegacyObjectsOf(m.objects), LastImat(m.objects, None)))
  {
    LegacyObjectsRead(mode, m.objects, ob, data, p, n1, LegacyBody([], None));
    assert [] + LegacyObjectsOf(m.objects) == LegacyObjectsOf(m.objects);
    LegacyTrailerRead(m, eb, data, n1, n2, n3, n4, q, LegacyBody(LegacyObjectsOf(m.objects), LastImat(m.objects, None)));
  }

  /** The identifier and the header of a written model, as the legacy
      reader decodes them. */
  lemma {:induction false} LegacyHeadRead(m: WModel, ib: seq<Byte>, hb: seq<Byte>, data: seq<Byte>)
    requires Conforms(Id(), m.id) && Conforms(ModelHeader(), m.header)
    requires WriteSpec(Id(), m.id) == Ok(ib) && WriteSpec(ModelHeader(), m.header) == Ok(hb)
    requires At(data, 0, 8, ib) && At(data, 8, 240, hb)
    ensures ParseLegacyId(data) == Ok((m.id, 8)) && ParseLegacyHeader(data, 8) == Ok((m.header, 240))
  {
    IdCodable();
    ModelHeaderCodable();
    HeaderAt(Id(), m.id, ib, data, 0, 8);
    HeaderAt(ModelHeader(), m.header, hb, data, 8, 240);
  }

  /** `write_model` then the legacy `parse_model`: the identifier and the
      header come back as written, each object with its contours in
      order, and the material record of the last object that has one. */
  lemma {:induction false} LegacyModelRoundTrip(mode: Mode, m: WModel, w: seq<Byte>)
    requires LegacyModelReads(m) && WriteModel(mode, m) == Ok(w)
    ensures ParseLegacyModel(w) == Ok(LegacyModel(m.id, m.header, LegacyObjectsOf(m.objects), LastImat(m.objects, None)))
  {
    var ib, hb, ob, eb := ModelPieces(mode, m, w);
    var n1, n2, n3, n4 := ModelSplit(ib, hb, ob, WriteSlicerAngles(m.slicerAngles), MinxChunk(m.minx), eb, w);
    LegacyHeadRead(m, ib, hb, w);
    LegacyBodyParts(mode, m, ob, eb, w, 240, n1, n2, n3, n4, |w|);
  }
}
