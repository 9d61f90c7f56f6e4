/** The fixed-width layout tables of `ModFileSpecification`, and the byte
    widths, groupings and name uniqueness they imply.  Each table is the
    concatenation of a few short runs of fields, in table order, so that
    facts about it can be established run by run. */
module Layouts {
  import opened Wrappers
  import opened FormatCodes

  /** A field with a plain one-character code such as `i`. */
  function One(name: string, k: Kind): Entry
  {
    Entry(name, Code(None, k))
  }

  /** A field whose code carries a decimal count, such as `16I` or `128s`. */
  function Many(name: string, n: nat, k: Kind): Entry
  {
    Entry(name, Code(Some(n), k))
  }

  // ------------------------------------------------------------------- ID

  function Id(): Table
  {
    [Many("IMOD_file_id", 4, Str), Many("version_id", 4, Str)]
  }

  // --------------------------------------------------------- model header

  function HeaderName(): Table
  {
    [Many("name", 128, Str)]
  }

  function HeaderExtent(): Table
  {
    [One("xmax", Int), One("ymax", Int), One("zmax", Int), One("objsize", Int),
     One("flags", UInt), One("drawmode", Int), One("mousemode", Int),
     One("blacklevel", Int), One("whitelevel", Int)]
  }

  function HeaderTransform(): Table
  {
    [One("xoffset", Float), One("yoffset", Float), One("zoffset", Float),
     One("xscale", Float), One("yscale", Float), One("zscale", Float)]
  }

  function HeaderCurrent(): Table
  {
    [One("object", Int), One("contour", Int), One("point", Int), One("res", Int), One("thresh", Int)]
  }

  function HeaderUnits(): Table
  {
    [One("pixelsize", Float), One("units", Int), One("csum", Int),
     One("alpha", Float), One("beta", Float), One("gamma", Float)]
  }

  /** `MODEL_HEADER`. */
  function ModelHeader(): Table
  {
    HeaderName() + HeaderExtent() + HeaderTransform() + HeaderCurrent() + HeaderUnits()
  }

  // -------------------------------------------------------- object header

  function ObjectName(): Table
  {
    [Many("name", 64, Str), Many("extra_data", 16, UInt)]
  }

  function ObjectDisplay(): Table
  {
    [One("contsize", Int), One("flags", UInt), One("axis", Int), One("drawmode", Int),
     One("red", Float), One("green", Float), One("blue", Float), One("pdrawsize", Int)]
  }

  function ObjectSymbols(): Table
  {
    [One("symbol", UChar), One("symsize", UChar), One("linewidth2", UChar), One("linewidth", UChar),
     One("linesty", UChar), One("symflags", UChar), One("sympad", UChar), One("trans", UChar)]
  }

  function ObjectSizes(): Table
  {
    [One("meshsize", Int), One("surfsize", Int)]
  }

  /** `OBJECT_HEADER`. */
  function ObjectHeader(): Table
  {
    ObjectName() + ObjectDisplay() + ObjectSymbols() + ObjectSizes()
  }

  // -------------------------------------------------- contour, mesh, IMAT

  /** `CONTOUR_HEADER`. */
  function ContourHeader(): Table
  {
    [One("psize", Int), One("flags", UInt), One("time", Int), One("surf", Int)]
  }

  /** `MESH_HEADER`. */
  function MeshHeader(): Table
  {
    [One("vsize", Int), One("lsize", Int), One("flag", UInt), One("time", Short), One("surf", Short)]
  }

  function ImatLighting(): Table
  {
    [One("ambient", UChar), One("diffuse", UChar), One("specular", UChar), One("shininess", UChar),
     One("fillred", UChar), One("fillgreen", UChar), One("fillblue", UChar), One("quality", UChar)]
  }

  function ImatValues(): Table
  {
    [One("mat2", UInt), One("valblack", UChar), One("valwhite", UChar),
     One("matflags2", UChar), One("mat3b3", UChar)]
  }

  /** `IMAT`. */
  function Imat(): Table
  {
    ImatLighting() + ImatValues()
  }

  // ----------------------------------------------------------------- VIEW

  function ViewFrustum(): Table
  {
    [One("fovy", Float), One("rad", Float), One("aspect", Float), One("cnear", Float), One("cfar", Float)]
  }

  function ViewMatrices(): Table
  {
    [Many("rot", 3, Float), Many("trans", 3, Float), Many("scale", 3, Float), Many("mat", 16, Float)]
  }

  function ViewLabel(): Table
  {
    [One("world", Int), Many("label", 32, Char)]
  }

  function ViewLight(): Table
  {
    [One("dcstart", Float), One("dcend", Float), One("lightx", Float), One("lighty", Float), One("plax", Float)]
  }

  function ViewObjects(): Table
  {
    [One("objvsize", Int), One("bytesObjv", Int)]
  }

  /** `VIEW`. */
  function View(): Table
  {
    ViewFrustum() + ViewMatrices() + ViewLabel() + ViewLight() + ViewObjects()
  }

  // ---------------------------------------------------- facts per part

  lemma {:induction false} HeaderExtentWidth()
    ensures TableWidth(HeaderExtent()) == 36
  {
    UniformWidth(HeaderExtent(), 4);
  }

  lemma {:induction false} HeaderTransformWidth()
    ensures TableWidth(HeaderTransform()) == 24
  {
    UniformWidth(HeaderTransform(), 4);
  }

  lemma {:induction false} HeaderCurrentWidth()
    ensures TableWidth(HeaderCurrent()) == 20
  {
    UniformWidth(HeaderCurrent(), 4);
  }

  lemma {:induction false} HeaderUnitsWidth()
    ensures TableWidth(HeaderUnits()) == 24
  {
    UniformWidth(HeaderUnits(), 4);
  }

  lemma {:induction false} HeaderExtentCodable()
    ensures Codable(HeaderName()) && Codable(HeaderExtent())
  {
  }

  lemma {:induction false} HeaderRestCodable()
    ensures Codable(HeaderTransform()) && Codable(HeaderCurrent()) && Codable(HeaderUnits())
  {
  }

  lemma {:induction false} HeaderPartsDisjoint()
    ensures Disjoint(HeaderName(), HeaderExtent()) && Disjoint(HeaderName(), HeaderTransform())
    ensures Disjoint(HeaderName(), HeaderCurrent()) && Disjoint(HeaderName(), HeaderUnits())
    ensures Disjoint(HeaderExtent(), HeaderTransform()) && Disjoint(HeaderExtent(), HeaderCurrent())
  {
  }

  lemma {:induction false} HeaderPartsDisjoint'()
    ensures Disjoint(HeaderExtent(), HeaderUnits()) && Disjoint(HeaderTransform(), HeaderCurrent())
    ensures Disjoint(HeaderTransform(), HeaderUnits()) && Disjoint(HeaderCurrent(), HeaderUnits())
  {
  }

  lemma {:induction false} ObjectDisplayWidth()
    ensures TableWidth(ObjectDisplay()) == 32
  {
    UniformWidth(ObjectDisplay(), 4);
  }

  lemma {:induction false} ObjectSymbolsWidth()
    ensures TableWidth(ObjectSymbols()) == 8
  {
    UniformWidth(ObjectSymbols(), 1);
  }

  lemma {:induction false} ObjectDisplayCodable()
    ensures Codable(ObjectName()) && Codable(ObjectDisplay()) && Codable(ObjectSizes())
  {
  }

  lemma {:induction false} ObjectSymbolsCodable()
    ensures Codable(ObjectSymbols())
  {
  }

  lemma {:induction false} ObjectPartsDisjoint()
    ensures Disjoint(ObjectName(), ObjectDisplay()) && Disjoint(ObjectName(), ObjectSymbols())
    ensures Disjoint(ObjectName(), ObjectSizes()) && Disjoint(ObjectDisplay(), ObjectSymbols())
    ensures Disjoint(ObjectDisplay(), ObjectSizes()) && Disjoint(ObjectSymbols(), ObjectSizes())
  {
    ObjectNameDisjoint();
    ObjectRestDisjoint();
  }

  lemma {:induction false} ObjectNameDisjoint()
    ensures Disjoint(ObjectName(), ObjectDisplay()) && Disjoint(ObjectName(), ObjectSymbols())
    ensures Disjoint(ObjectName(), ObjectSizes())
  {
  }

  lemma {:induction false} ObjectRestDisjoint()
    ensures Disjoint(ObjectDisplay(), ObjectSymbols())
    ensures Disjoint(ObjectDisplay(), ObjectSizes()) && Disjoint(ObjectSymbols(), ObjectSizes())
  {
  }

  lemma {:induction false} ImatLightingWidth()
    ensures TableWidth(ImatLighting()) == 8
  {
    UniformWidth(ImatLighting(), 1);
  }

  lemma {:induction false} ImatPartsCodable()
    ensures Codable(ImatLighting()) && Codable(ImatValues()) && Disjoint(ImatLighting(), ImatValues())
  {
    ImatLightingCodable();
    ImatValuesCodable();
    ImatPartsDisjoint();
  }

  lemma {:induction false} ImatLightingCodable()
    ensures Codable(ImatLighting())
  {
  }

  lemma {:induction false} ImatValuesCodable()
    ensures Codable(ImatValues())
  {
  }

  lemma {:induction false} ImatPartsDisjoint()
    ensures Disjoint(ImatLighting(), ImatValues())
  {
  }

  lemma {:induction false} ViewFrustumWidth()
    ensures TableWidth(ViewFrustum()) == 20
  {
    UniformWidth(ViewFrustum(), 4);
  }

  lemma {:induction false} ViewLightWidth()
    ensures TableWidth(ViewLight()) == 20
  {
    UniformWidth(ViewLight(), 4);
  }

  lemma {:induction false} HeaderNameWidth()
    ensures TableWidth(HeaderName()) == 128
  {
  }

  lemma {:induction false} ObjectNameWidth()
    ensures TableWidth(ObjectName()) == 128
  {
  }

  lemma {:induction false} ObjectSizesWidth()
    ensures TableWidth(ObjectSizes()) == 8
  {
  }

  lemma {:induction false} ImatValuesWidth()
    ensures TableWidth(ImatValues()) == 8
  {
  }

  lemma {:induction false} ViewMatricesWidth()
    ensures TableWidth(ViewMatrices()) == 100
  {
  }

  lemma {:induction false} ViewLabelWidth()
    ensures TableWidth(ViewLabel()) == 36
  {
  }

  lemma {:induction false} ViewObjectsWidth()
    ensures TableWidth(ViewObjects()) == 8
  {
  }

  // --------------------------------------------------------------- widths

  /** The ID is two 4-byte strings, so the model header starts at byte 8. */
  lemma {:induction false} IdWidth()
    ensures TableWidth(Id()) == 8
  {
  }

  /** A 128-byte name and 26 four-byte fields: 232 bytes. */
  lemma {:induction false} ModelHeaderWidth()
    ensures TableWidth(ModelHeader()) == 232
  {
    ModelHeaderPartsWidth();
  }

  lemma {:induction false} ModelHeaderPartsWidth()
    ensures TableWidth(HeaderName() + HeaderExtent() + HeaderTransform() + HeaderCurrent() + HeaderUnits()) == 232
  {
    HeaderExtentWidth();
    HeaderTransformWidth();
    HeaderCurrentWidth();
    HeaderUnitsWidth();
    HeaderNameWidth();
    Width5(HeaderName(), HeaderExtent(), HeaderTransform(), HeaderCurrent(), HeaderUnits(),
           128, 36, 24, 20, 24);
  }

  /** The first tag of a file sits at byte 240. */
  lemma {:induction false} FirstTagOffset()
    ensures TableWidth(Id()) + TableWidth(ModelHeader()) == 240
  {
    IdWidth();
    ModelHeaderWidth();
  }

  /** 64s, 16I, eight four-byte fields, eight single bytes and two ints:
      176 bytes. */
  lemma {:induction false} ObjectHeaderWidth()
    ensures TableWidth(ObjectHeader()) == 176
  {
    ObjectHeaderPartsWidth();
  }

  lemma {:induction false} ObjectHeaderPartsWidth()
    ensures TableWidth(ObjectName() + ObjectDisplay() + ObjectSymbols() + ObjectSizes()) == 176
  {
    ObjectDisplayWidth();
    ObjectSymbolsWidth();
    ObjectNameWidth();
    ObjectSizesWidth();
    Width4(ObjectName(), ObjectDisplay(), ObjectSymbols(), ObjectSizes(), 128, 32, 8, 8);
  }

  lemma {:induction false} ContourHeaderWidth()
    ensures TableWidth(ContourHeader()) == 16
  {
  }

  /** `i,i,I,h,h` is 4 + 4 + 4 + 2 + 2 bytes. */
  lemma {:induction false} MeshHeaderWidth()
    ensures TableWidth(MeshHeader()) == 16
  {
  }

  /** Eight `B`, one `I` and four `B`: 16 bytes. */
  lemma {:induction false} ImatWidth()
    ensures TableWidth(Imat()) == 16
  {
    ImatPartsWidth();
  }

  lemma {:induction false} ImatPartsWidth()
    ensures TableWidth(ImatLighting() + ImatValues()) == 16
  {
    ImatLightingWidth();
    ImatValuesWidth();
    Width2(ImatLighting(), ImatValues(), 8, 8);
  }

  /** 5f + 3f + 3f + 3f + 16f + i + 32c + 5f + 2i: 184 bytes. */
  lemma {:induction false} ViewWidth()
    ensures TableWidth(View()) == 184
  {
    ViewPartsWidth();
  }

  lemma {:induction false} ViewPartsWidth()
    ensures TableWidth(ViewFrustum() + ViewMatrices() + ViewLabel() + ViewLight() + ViewObjects()) == 184
  {
    ViewFrustumWidth();
    ViewLightWidth();
    ViewMatricesWidth();
    ViewLabelWidth();
    ViewObjectsWidth();
    Width5(ViewFrustum(), ViewMatrices(), ViewLabel(), ViewLight(), ViewObjects(), 20, 100, 36, 20, 8);
  }

  // ------------------------------------------------------------- grouping

  /** `32c` is neither a repeat field nor a one-value code: View() cannot be
      decoded by the grouping loop with its index in step. */
  lemma {:induction false} ViewNotWellGrouped()
    ensures !WellGrouped(View())
  {
    var k := |ViewFrustum()| + |ViewMatrices()| + 1;
    assert View()[k] == Many("label", 32, Char);
    assert !IsRepeatField(View()[k].code) && ValueCount(View()[k].code) == 32;
  }

  /** `extra_data` is the only repeat field among the parsed tables, and it
      groups 16 unsigned values. */
  lemma {:induction false} ExtraDataOnlyRepeat()
    ensures ObjectHeader()[1] == Many("extra_data", 16, UInt)
    ensures IsRepeatField(ObjectHeader()[1].code) && Count(ObjectHeader()[1].code) == 16
    ensures forall k :: 0 <= k < |ObjectHeader()| && k != 1 ==> !IsRepeatField(ObjectHeader()[k].code)
    ensures forall k :: 0 <= k < |ModelHeader()| ==> !IsRepeatField(ModelHeader()[k].code)
    ensures forall k :: 0 <= k < |Id()| ==> !IsRepeatField(Id()[k].code)
    ensures forall k :: 0 <= k < |ContourHeader()| ==> !IsRepeatField(ContourHeader()[k].code)
    ensures forall k :: 0 <= k < |MeshHeader()| ==> !IsRepeatField(MeshHeader()[k].code)
    ensures forall k :: 0 <= k < |Imat()| ==> !IsRepeatField(Imat()[k].code)
  {
  }

  // ---------------------------------------------------------- uniqueness

  /** Everything the record codec needs to round-trip a table. */
  predicate Codable(t: Table)
  {
    WellGrouped(t) && DistinctNames(t)
  }

  lemma {:induction false} ModelHeaderCodable()
    ensures Codable(ModelHeader())
  {
    HeaderExtentCodable();
    HeaderRestCodable();
    HeaderPartsDisjoint();
    HeaderPartsDisjoint'();
    Codable5(HeaderName(), HeaderExtent(), HeaderTransform(), HeaderCurrent(), HeaderUnits());
  }

  lemma {:induction false} ObjectHeaderCodable()
    ensures Codable(ObjectHeader())
  {
    ObjectDisplayCodable();
    ObjectSymbolsCodable();
    ObjectPartsDisjoint();
    Codable4(ObjectName(), ObjectDisplay(), ObjectSymbols(), ObjectSizes());
  }

  lemma {:induction false} ImatCodable()
    ensures Codable(Imat())
  {
    ImatPartsCodable();
    Codable2(ImatLighting(), ImatValues());
  }

  lemma {:induction false} IdCodable()
    ensures Codable(Id())
  {
  }

  lemma {:induction false} ContourHeaderCodable()
    ensures Codable(ContourHeader())
  {
  }

  lemma {:induction false} MeshHeaderCodable()
    ensures Codable(MeshHeader())
  {
  }

  /** Every table the parsers decode can be decoded and written back. */
  lemma {:induction false} ParsedTablesCodable()
    ensures Codable(Id()) && Codable(ModelHeader()) && Codable(ObjectHeader())
    ensures Codable(ContourHeader()) && Codable(MeshHeader()) && Codable(Imat())
  {
    ModelHeaderCodable();
    ObjectHeaderCodable();
    ImatCodable();
  }

  // ------------------------------------------------ concatenation helpers

  lemma {:induction false} Width2(a: Table, b: Table, wa: nat, wb: nat)
    requires TableWidth(a) == wa && TableWidth(b) == wb
    ensures TableWidth(a + b) == wa + wb
  {
    TableWidthAppend(a, b);
  }

  lemma {:induction false} Width4(a: Table, b: Table, c: Table, d: Table, wa: nat, wb: nat, wc: nat, wd: nat)
    requires TableWidth(a) == wa && TableWidth(b) == wb && TableWidth(c) == wc && TableWidth(d) == wd
    ensures TableWidth(a + b + c + d) == wa + wb + wc + wd
  {
    TableWidthAppend(a + b + c, d);
    TableWidthAppend(a + b, c);
    TableWidthAppend(a, b);
  }

  lemma {:induction false} Width5(a: Table, b: Table, c: Table, d: Table, e: Table,
               wa: nat, wb: nat, wc: nat, wd: nat, we: nat)
    requires TableWidth(a) == wa && TableWidth(b) == wb && TableWidth(c) == wc
    requires TableWidth(d) == wd && TableWidth(e) == we
    ensures TableWidth(a + b + c + d + e) == wa + wb + wc + wd + we
  {
    Width4(a, b, c, d, wa, wb, wc, wd);
    TableWidthAppend(a + b + c + d, e);
  }

  lemma {:induction false} Codable2(a: Table, b: Table)
    requires Codable(a) && Codable(b) && Disjoint(a, b)
    ensures Codable(a + b)
  {
    WellGroupedAppend(a, b);
    DistinctAppend(a, b);
  }

  lemma {:induction false} Codable3(a: Table, b: Table, c: Table)
    requires Codable(a) && Codable(b) && Codable(c)
    requires Disjoint(a, b) && Disjoint(a, c) && Disjoint(b, c)
    ensures Codable(a + b + c)
  {
    Codable2(a, b);
    DisjointAppend(a, b, c);
    Codable2(a + b, c);
  }

  lemma {:induction false} Codable4(a: Table, b: Table, c: Table, d: Table)
    requires Codable(a) && Codable(b) && Codable(c) && Codable(d)
    requires Disjoint(a, b) && Disjoint(a, c) && Disjoint(b, c)
    requires Disjoint(a, d) && Disjoint(b, d) && Disjoint(c, d)
    ensures Codable(a + b + c + d)
  {
    Codable3(a, b, c);
    DisjointAppend(a, b, d);
    DisjointAppend(a + b, c, d);
    Codable2(a + b + c, d);
  }

  lemma {:induction false} Codable5(a: Table, b: Table, c: Table, d: Table, e: Table)
    requires Codable(a) && Codable(b) && Codable(c) && Codable(d) && Codable(e)
    requires Disjoint(a, b) && Disjoint(a, c) && Disjoint(b, c)
    requires Disjoint(a, d) && Disjoint(b, d) && Disjoint(c, d)
    requires Disjoint(a, e) && Disjoint(b, e) && Disjoint(c, e) && Disjoint(d, e)
    ensures Codable(a + b + c + d + e)
  {
    Codable4(a, b, c, d);
    DisjointAppend(a, b, e);
    DisjointAppend(a + b, c, e);
    DisjointAppend(a + b + c, d, e);
    Codable2(a + b + c + d, e);
  }
}
