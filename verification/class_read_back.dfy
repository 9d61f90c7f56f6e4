/** What the legacy class reader (`imodmodel/parser.py`, grouping the
    object header as corrected) makes of a file the current writer wrote:
    the identifier and header as written, and each object's header and
    contours, when nothing but contours follows an object and each
    object's loop is given a pass more than it has contours. */
module ClassReadBack {
  import opened Wrappers
  import opened Bytes
  import opened FieldCodec
  import opened Layouts
  import opened Framing
  import opened GeneralStorage
  import opened Models
  import opened Parsers
  import opened Writers
  import opened ModelWriter
  import opened LegacyLayouts
  import opened LegacyReadBack
  import opened LegacyClassParser

  // ------------------------------------------------------------ readable

  /** An object the class reader takes back whole within `fuel` passes:
      plain contours, and no meshes, material or storage, whose tags it
      would pass over four bytes at a time. */
  predicate ClassObjectReads(o: WObject, fuel: nat)
  {
    && Conforms(ObjectHeader(), o.header)
    && (forall k :: 0 <= k < |o.contours| ==> LegacyContourReads(o.contours[k]))
    && o.meshes == [] && o.imat.None? && o.extra == []
    && |o.contours| < fuel
  }

  /** A model whose last object is followed by IEOF alone. */
  predicate ClassModelReads(m: WModel, fuel: nat)
  {
    && Conforms(Id(), m.id) && Conforms(ModelHeader(), m.header)
    && (forall k :: 0 <= k < |m.objects| ==> ClassObjectReads(m.objects[k], fuel))
    && m.slicerAngles == [] && m.minx.None? && m.extra == []
  }

  function ClassContourOf(c: WContour): ClassContour
  {
    ClassContour(c.header, c.points)
  }

  function ClassContoursOf(cs: seq<WContour>): (r: seq<ClassContour>)
    ensures |r| == |cs|
    ensures forall k :: 0 <= k < |cs| ==> r[k] == ClassContourOf(cs[k])
  {
    if |cs| == 0 then [] else [ClassContourOf(cs[0])] + ClassContoursOf(cs[1..])
  }

  /** The object `parse_object` builds from a written one: no IMAT seen. */
  function ClassObjectOf(o: WObject): ClassObject
  {
    ClassObject(o.header, ClassContoursOf(o.contours), false)
  }

  function ClassObjectsOf(os: seq<WObject>): (r: seq<ClassObject>)
    ensures |r| == |os|
    ensures forall k :: 0 <= k < |os| ==> r[k] == ClassObjectOf(os[k])
  {
    if |os| == 0 then [] else [ClassObjectOf(os[0])] + ClassObjectsOf(os[1..])
  }

  // ------------------------------------------------------------ contours

  /** A count the writer wrote from a header that conforms is below 2^31,
      so `parse_contour` reads it as the current reader does. */
  lemma {:induction false} ClassContourRead(mode: Mode, c: WContour, w: seq<Byte>, data: seq<Byte>, a: nat, q: nat)
    requires LegacyContourReads(c) && ContourBytes(mode, c) == Ok(w) && At(data, a, q, w)
    ensures ParseClassContour(data, a) == Ok((ClassContourOf(c), q))
  {
    PlainContourRead(mode, c, w, data, a, q);
    assert Int32(data[a..a + 4]) == |c.points|;
    assert FromBE(data[a..a + 4]) < 0x8000_0000;
    ClassContourAgrees(data, a);
  }

  /** CONT and a written contour: one pass of the loop adds the contour. */
  lemma {:induction false} ClassContourStep(mode: Mode, c: WContour, w: seq<Byte>, data: seq<Byte>,
                                            p: nat, a: nat, q: nat, o: ClassObject)
    requires LegacyContourReads(c) && ContourBytes(mode, c) == Ok(w)
    requires At(data, p, a, CONT) && At(data, a, q, w)
    ensures ClassObjectStep(data, p, o) == Carry(ClassObject(o.header, o.contours + [ClassContourOf(c)], o.imatSeen), q)
  {
    TagsAreAscii();
    AsciiControl(CONT, data, p, a);
    ClassContourRead(mode, c, w, data, a, q);
    ClassContourPass(data, p, a, ClassContourOf(c), q, o);
  }

  /** The written contours, each after its CONT tag, take one pass each
      and leave the `rest` of the passes. */
  lemma {:induction false} ClassContoursLoop(mode: Mode, cs: seq<WContour>, w: seq<Byte>, data: seq<Byte>,
                                             p: nat, q: nat, fuel: nat, rest: nat, o: ClassObject)
    requires forall k :: 0 <= k < |cs| ==> LegacyContourReads(cs[k])
    requires WriteContours(mode, cs) == Ok(w) && At(data, p, q, w) && fuel == rest + |cs|
    ensures ClassObjectLoop(fuel, data, p, o)
         == ClassObjectLoop(rest, data, q, ClassObject(o.header, o.contours + ClassContoursOf(cs), o.imatSeen))
    decreases |cs|
  {
    if |cs| == 0 {
      assert o.contours + ClassContoursOf(cs) == o.contours;
      assert ClassObject(o.header, o.contours + ClassContoursOf(cs), o.imatSeen) == o;
    } else {
      var w0, tail := ContoursHead(mode, cs, w);
      LegacyContoursTail(cs);
      var a := p + 4;
      var n := a + |w0|;
      Split(data, p, n, q, CONT + w0, tail);
      Split(data, p, a, n, CONT, w0);
      var o1 := ClassObject(o.header, o.contours + [ClassContourOf(cs[0])], o.imatSeen);
      ClassContourStep(mode, cs[0], w0, data, p, a, n, o);
      var f := fuel - 1;
      ClassLoopCarries(fuel, f, data, p, o, o1, n);
      ClassContoursLoop(mode, cs[1..], tail, data, n, q, f, rest, o1);
      ContoursOfHead(o.contours, cs);
    }
  }

  lemma {:induction false} ContoursOfHead(before: seq<ClassContour>, cs: seq<WContour>)
    requires |cs| > 0
    ensures (before + [ClassContourOf(cs[0])]) + ClassContoursOf(cs[1..]) == before + ClassContoursOf(cs)
  {
  }

  /** A pass that carries the object on leaves the rest of the loop to the
      remaining passes. */
  lemma {:induction false} ClassLoopCarries(fuel: nat, f: nat, data: seq<Byte>, p: nat, o: ClassObject, o': ClassObject, q: nat)
    requires fuel == f + 1 && p <= |data| && ClassObjectStep(data, p, o) == Carry(o', q)
    ensures ClassObjectLoop(fuel, data, p, o) == ClassObjectLoop(f, data, q, o')
  {
  }

  // -------------------------------------------------------------- object

  /** The next object's OBJT, or IEOF, ends the object's loop. */
  lemma {:induction false} ClassStopsAt(tag: Tag, fuel: nat, data: seq<Byte>, p: nat, q: nat, o: ClassObject)
    requires tag == OBJT || tag == IEOF
    requires fuel > 0 && p <= |data| && ReadControl(data, p) == (Some(tag), q)
    ensures ClassObjectLoop(fuel, data, p, o) == Ended(o, Some(tag), q)
  {
  }

  /** A written object, its OBJT already read, up to the tag that ends it:
      the object is added and the tag is the next control. */
  lemma {:induction false} ClassObjectRead(mode: Mode, fuel: nat, o: WObject, w: seq<Byte>, tag: Tag,
                                           data: seq<Byte>, a: nat, n: nat, q: nat, objs: seq<ClassObject>)
    requires ClassObjectReads(o, fuel) && WriteObject(mode, o) == Ok(w)
    requires tag == OBJT || tag == IEOF
    requires At(data, a, n, w) && ReadControl(data, n).0 == Some(tag) && ReadControl(data, n).1 == q
    ensures ClassObjects(Corrected, fuel, data, a, Some(OBJT), objs)
         == ClassObjects(Corrected, fuel, data, q, Some(tag), objs + [ClassObjectOf(o)])
  {
    var hb, cb := BareObjectPieces(mode, o, w);
    var n1 := a + |hb|;
    Split(data, a, n1, n, hb, cb);
    ClassObjectParts(mode, fuel, o, hb, cb, tag, data, a, n1, n, q);
    ClassObjectsNext(Corrected, fuel, data, a, ClassObjectOf(o), Some(tag), q, objs);
  }

  /** An object with nothing but contours writes as its header and its
      contours. */
  lemma {:induction false} BareObjectPieces(mode: Mode, o: WObject, w: seq<Byte>) returns (hb: seq<Byte>, cb: seq<Byte>)
    requires o.meshes == [] && o.imat.None? && o.extra == [] && WriteObject(mode, o) == Ok(w)
    ensures WriteSpec(ObjectHeader(), o.header) == Ok(hb) && WriteContours(mode, o.contours) == Ok(cb)
    ensures w == hb + cb
  {
    var mb, ib, eb;
    hb, cb, mb, ib, eb := ObjectPieces(mode, o, w);
    NothingAfter(hb + cb, mb, ib, eb, mode, o);
  }

  lemma {:induction false} NothingAfter(x: seq<Byte>, mb: seq<Byte>, ib: seq<Byte>, eb: seq<Byte>, mode: Mode, o: WObject)
    requires o.meshes == [] && o.imat.None? && o.extra == []
    requires WriteMeshes(mode, o.meshes) == Ok(mb) && ImatChunk(mode, o.imat) == Ok(ib)
    requires WriteTaggedStorage(OBST, o.extra) == Ok(eb)
    ensures ((x + mb) + ib) + eb == x
  {
    assert mb == [] && ib == [] && eb == [];
  }

  lemma {:induction false} ClassObjectParts(mode: Mode, fuel: nat, o: WObject, hb: seq<Byte>, cb: seq<Byte>, tag: Tag,
                                            data: seq<Byte>, a: nat, n1: nat, n: nat, q: nat)
    requires ClassObjectReads(o, fuel)
    requires WriteSpec(ObjectHeader(), o.header) == Ok(hb) && WriteContours(mode, o.contours) == Ok(cb)
    requires tag == OBJT || tag == IEOF
    requires At(data, a, n1, hb) && At(data, n1, n, cb)
    requires ReadControl(data, n).0 == Some(tag) && ReadControl(data, n).1 == q
    ensures ClassParseObject(Corrected, fuel, data, a) == Ended(ClassObjectOf(o), Some(tag), q)
  {
    ObjectHeaderGrouped(o.header, hb, data, a, n1);
    var o0 := ClassObject(o.header, [], false);
    ClassObjectHeaded(Corrected, fuel, data, a, o.header, n1);
    var rest := fuel - |o.contours|;
    ClassContoursLoop(mode, o.contours, cb, data, n1, n, fuel, rest, o0);
    assert o0.contours + ClassContoursOf(o.contours) == ClassContoursOf(o.contours);
    ClassStopsAt(tag, rest, data, n, q, ClassObjectOf(o));
  }

  // --------------------------------------------------------------- model

  lemma {:induction false} ClassObjectsTail(os: seq<WObject>, fuel: nat)
    requires |os| > 0 && forall k :: 0 <= k < |os| ==> ClassObjectReads(os[k], fuel)
    ensures ClassObjectReads(os[0], fuel) && forall k :: 0 <= k < |os[1..]| ==> ClassObjectReads(os[1..][k], fuel)
  {
    assert forall k :: 1 <= k < |os| ==> os[1..][k - 1] == os[k];
  }

  /** Written objects followed by IEOF start with OBJT when there are any,
      and with IEOF when there are none. */
  lemma {:induction false} ClassObjectsLead(mode: Mode, os: seq<WObject>, w: seq<Byte>, data: seq<Byte>, p: nat, q: nat, e: nat)
    requires WriteObjects(mode, os) == Ok(w) && At(data, p, q, w) && At(data, q, e, IEOF)
    ensures ReadControl(data, p) == (Some(if |os| > 0 then OBJT else IEOF), p + 4)
  {
    TagsAreAscii();
    if |os| == 0 {
      AsciiControl(IEOF, data, p, e);
    } else {
      var w0, rest := ObjectsHead(mode, os, w);
      var m := p + |OBJT + w0|;
      Split(data, p, m, q, OBJT + w0, rest);
      Split(data, p, p + 4, m, OBJT, w0);
      AsciiControl(OBJT, data, p, p + 4);
    }
  }

  /** `while control == 'OBJT'` over the written objects: each is read in
      turn, and IEOF ends the loop. `tag` is the control before them. */
  lemma {:induction false} ClassObjectsRead(mode: Mode, fuel: nat, os: seq<WObject>, w: seq<Byte>, data: seq<Byte>,
                                            p: nat, q: nat, e: nat, tag: Tag, objs: seq<ClassObject>)
    requires forall k :: 0 <= k < |os| ==> ClassObjectReads(os[k], fuel)
    requires WriteObjects(mode, os) == Ok(w) && At(data, p, q, w) && At(data, q, e, IEOF)
    requires tag == if |os| > 0 then OBJT else IEOF
    ensures ClassObjects(Corrected, fuel, data, p + 4, Some(tag), objs) == Ok(Some(objs + ClassObjectsOf(os)))
    decreases |os|, 1
  {
    if |os| == 0 {
      TagsDistinct();
      assert objs + ClassObjectsOf(os) == objs;
    } else {
      ClassObjectsMore(mode, fuel, os, w, data, p, q, e, objs);
    }
  }

  /** The first of the written objects, then the rest. */
  lemma {:induction false} ClassObjectsMore(mode: Mode, fuel: nat, os: seq<WObject>, w: seq<Byte>, data: seq<Byte>,
                                            p: nat, q: nat, e: nat, objs: seq<ClassObject>)
    requires |os| > 0 && forall k :: 0 <= k < |os| ==> ClassObjectReads(os[k], fuel)
    requires WriteObjects(mode, os) == Ok(w) && At(data, p, q, w) && At(data, q, e, IEOF)
    ensures ClassObjects(Corrected, fuel, data, p + 4, Some(OBJT), objs) == Ok(Some(objs + ClassObjectsOf(os)))
    decreases |os|, 0
  {
    var w0, rest := ObjectsHead(mode, os, w);
    ClassObjectsTail(os, fuel);
    var a := p + 4;
    var m := p + |OBJT + w0|;
    Split(data, p, m, q, OBJT + w0, rest);
    Split(data, p, a, m, OBJT, w0);
    ClassObjectsLead(mode, os[1..], rest, data, m, q, e);
    var next := if |os[1..]| > 0 then OBJT else IEOF;
    ClassObjectRead(mode, fuel, os[0], w0, next, data, a, m, m + 4, objs);
    ClassObjectsRead(mode, fuel, os[1..], rest, data, m, q, e, next, objs + [ClassObjectOf(os[0])]);
    ObjectsOfHead(objs, os);
  }

  lemma {:induction false} ObjectsOfHead(before: seq<ClassObject>, os: seq<WObject>)
    requires |os| > 0
    ensures (before + [ClassObjectOf(os[0])]) + ClassObjectsOf(os[1..]) == before + ClassObjectsOf(os)
  {
  }

  /** The identifier and header of a written model, zipped: both tables
      hold one value per entry, so zipping reads them as written. */
  lemma {:induction false} ClassHeadRead(m: WModel, ib: seq<Byte>, hb: seq<Byte>, data: seq<Byte>)
    requires Conforms(Id(), m.id) && Conforms(ModelHeader(), m.header)
    requires WriteSpec(Id(), m.id) == Ok(ib) && WriteSpec(ModelHeader(), m.header) == Ok(hb)
    requires At(data, 0, 8, ib) && At(data, 8, 240, hb)
    ensures ParseClassId(data) == Ok((m.id, 8)) && ParseClassHeader(data, 8) == Ok((m.header, 240))
  {
    ClassTablesSingleValued();
    IdSpecMatches();
    HeaderSpecMatches();
    ZipAgrees(Id(), data, 0);
    ZipAgrees(ModelHeader(), data, 8);
    IdCodable();
    ModelHeaderCodable();
    HeaderAt(Id(), m.id, ib, data, 0, 8);
    HeaderAt(ModelHeader(), m.header, hb, data, 8, 240);
  }

  /** `write_model` then the class `parse_file`, the object header grouped:
      the identifier and header as written, and every object with its
      header and contours in order. */
  lemma {:induction false} ClassFileRoundTrip(mode: Mode, fuel: nat, m: WModel, w: seq<Byte>)
    requires ClassModelReads(m, fuel) && WriteModel(mode, m) == Ok(w)
    ensures ParseClassFile(Corrected, fuel, w) == Parsed(ClassModel(m.id, m.header, ClassObjectsOf(m.objects)))
  {
    var ib, hb, ob, eb := ModelPieces(mode, m, w);
    var n1, n2, n3, n4 := ModelSplit(ib, hb, ob, WriteSlicerAngles(m.slicerAngles), MinxChunk(m.minx), eb, w);
    assert WriteSlicerAngles(m.slicerAngles) == [] && eb == [];
    ClassHeadRead(m, ib, hb, w);
    ClassObjectsLead(mode, m.objects, ob, w, 240, n1, |w|);
    ClassObjectsRead(mode, fuel, m.objects, ob, w, 240, n1, |w|, if |m.objects| > 0 then OBJT else IEOF, []);
    assert [] + ClassObjectsOf(m.objects) == ClassObjectsOf(m.objects);
  }
}
