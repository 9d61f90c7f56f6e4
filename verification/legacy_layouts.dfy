/** The layout tables of the legacy `imodmodel` package
    (`imodmodel/specification.py`) and its tag-to-table map. */
module LegacyLayouts {
  import opened Wrappers
  import opened FormatCodes
  import opened Layouts

  /** `id_spec`. */
  function IdSpec(): Table
  {
    [Many("IMOD_file_id", 4, Str), Many("version_id", 4, Str)]
  }

  /** `header_spec`. */
  function HeaderSpec(): Table
  {
    [Many("name", 128, Str), One("xmax", Int), One("ymax", Int), One("zmax", Int),
     One("objsize", Int), One("flags", UInt), One("drawmode", Int), One("mousemode", Int),
     One("blacklevel", Int), One("whitelevel", Int), One("xoffset", Float), One("yoffset", Float),
     One("zoffset", Float), One("xscale", Float), One("yscale", Float), One("zscale", Float),
     One("object", Int), One("contour", Int), One("point", Int), One("res", Int),
     One("thresh", Int), One("pixelsize", Float), One("units", Int), One("csum", Int),
     One("alpha", Float), One("beta", Float), One("gamma", Float)]
  }

  /** `object_spec`. */
  function ObjectSpec(): Table
  {
    [Many("name", 64, Str), Many("extra_data", 16, UInt), One("contsize", Int), One("flags", UInt),
     One("axis", Int), One("drawmode", Int), One("red", Float), One("green", Float),
     One("blue", Float), One("pdrawsize", Int), One("symbol", UChar), One("symsize", UChar),
     One("linewidth2", UChar), One("linewidth", UChar), One("linesty", UChar), One("symflags", UChar),
     One("sympad", UChar), One("trans", UChar), One("meshsize", Int), One("surfsize", Int)]
  }

  /** `contour_spec`: the four fixed fields and a `3f` placeholder for one
      point. */
  function ContourSpec(): Table
  {
    [One("psize", Int), One("flags", UInt), One("time", Int), One("surf", Int), Many("pt", 3, Float)]
  }

  /** `imat_spec`. */
  function ImatSpec(): Table
  {
    [One("ambient", UChar), One("diffuse", UChar), One("specular", UChar), One("shininess", UChar),
     One("fillred", UChar), One("fillgreen", UChar), One("fillblue", UChar), One("quality", UChar),
     One("mat2", UInt), One("valblack", UChar), One("valwhite", UChar), One("matflags2", UChar),
     One("mat3b3", UChar)]
  }

  /** `size_spec`. */
  function SizeSpec(): Table
  {
    [One("sizes", Float)]
  }

  /** `view_spec`. */
  function ViewSpec(): Table
  {
    [One("fovy", Float), One("rad", Float), One("aspect", Float), One("cnear", Float),
     One("cfar", Float), Many("rot", 3, Float), Many("trans", 3, Float), Many("scale", 3, Float),
     Many("mat", 16, Float), One("world", Int), Many("label", 32, Char), One("dcstart", Float),
     One("dcend", Float), One("lightx", Float), One("lighty", Float), One("plax", Float),
     One("objvsize", Int), One("bytesObjv", Int)]
  }

  /** `control_sequences`: every tag the legacy package names, mapped to its
      table; `None` stands for `NotImplemented`. */
  function ControlSequences(): map<string, Option<Table>>
  {
    map[
      "OBJT" := Some(ObjectSpec()), "CONT" := Some(ContourSpec()), "MESH" := None,
      "MINX" := None, "LABL" := None, "OLBL" := None, "CLIP" := None, "MCLP" := None,
      "IMAT" := Some(ImatSpec()), "SIZE" := Some(SizeSpec()), "VIEW" := Some(ViewSpec()),
      "MOST" := None, "OBST" := None, "COST" := None, "MEST" := None, "SLAN" := None,
      "MEPA" := None, "SKLI" := None, "OGRP" := None]
  }

  // ----------------------------------------------------- agreement with src

  lemma {:induction false} IdSpecMatches()
    ensures IdSpec() == Id()
  {
  }

  /** `header_spec` is field for field `MODEL_HEADER`. */
  lemma {:induction false} HeaderSpecMatches()
    ensures HeaderSpec() == ModelHeader()
  {
  }

  lemma {:induction false} HeaderSpecWidth()
    ensures TableWidth(HeaderSpec()) == 232
  {
    HeaderSpecMatches();
    ModelHeaderWidth();
  }

  /** `object_spec` is field for field `OBJECT_HEADER`, `extra_data: '16I'`
      included. */
  lemma {:induction false} ObjectSpecMatches()
    ensures ObjectSpec() == ObjectHeader()
  {
  }

  lemma {:induction false} ObjectSpecWidth()
    ensures TableWidth(ObjectSpec()) == 176
  {
    ObjectSpecMatches();
    ObjectHeaderWidth();
  }

  lemma {:induction false} ImatSpecMatches()
    ensures ImatSpec() == Imat()
  {
  }

  lemma {:induction false} ImatSpecWidth()
    ensures TableWidth(ImatSpec()) == 16
  {
    ImatSpecMatches();
    ImatWidth();
  }

  lemma {:induction false} ViewSpecMatches()
    ensures ViewSpec() == View()
  {
  }

  lemma {:induction false} ViewSpecWidth()
    ensures TableWidth(ViewSpec()) == 184
  {
    ViewSpecMatches();
    ViewWidth();
  }

  /** `contour_spec` is the 16-byte contour header followed by one `3f`
      repeat field; its whole format is 28 bytes. */
  lemma {:induction false} ContourSpecShape()
    ensures ContourSpec() == ContourHeader() + [Many("pt", 3, Float)]
    ensures IsRepeatField(ContourSpec()[4].code) && Count(ContourSpec()[4].code) == 3
    ensures TableWidth(ContourSpec()) == 28
  {
    ContourHeaderWidth();
    Width2(ContourHeader(), [Many("pt", 3, Float)], 16, 12);
  }

  /** The nineteen tags the legacy package names. */
  lemma {:induction false} ControlSequencesKeys()
    ensures ControlSequences().Keys
         == {"OBJT", "CONT", "MESH", "MINX", "LABL", "OLBL", "CLIP", "MCLP", "IMAT", "SIZE",
             "VIEW", "MOST", "OBST", "COST", "MEST", "SLAN", "MEPA", "SKLI", "OGRP"}
  {
  }

  /** Only OBJT, CONT, IMAT, SIZE and VIEW have a table. */
  lemma {:induction false} ControlSequencesConcrete()
    ensures forall tag :: tag in ControlSequences() ==>
              (ControlSequences()[tag].Some? <==> tag in {"OBJT", "CONT", "IMAT", "SIZE", "VIEW"})
  {
  }
}
