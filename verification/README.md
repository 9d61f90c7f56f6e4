# IMOD model file codec, in Dafny

This project models the binary codec of `imodmodel`. That Python package reads and writes IMOD `.mod` model files. An IMOD file is big-endian throughout:

- an 8-byte identifier (`IMOD`, version);
- a 232-byte model header;
- a stream of chunks, each opened by a four-character control sequence and closed at the end of the file by `IEOF`.

The chunks are:

- `OBJT`: an object header, followed by the object's `CONT` contours, `MESH` meshes, `IMAT` material and `OBST` storage.
- `COST` and `MEST`: storage for the most recent contour and mesh.
- `MOST`: model-level storage.
- Any other chunk is announced by a 4-byte size and skipped.

The model covers three readers and one writer:

- The reader and writer of `src/imodmodel` (`parsers.py`, `writers.py`). It includes their record shapes and validators (`models.py`), their layout tables (`binary_specification.py`) and the mesh index decompiler and vertex relabelling (`mesh.py`).
- The functional reader of the legacy `imodmodel` package (`imodmodel/parsers.py`). Its tables come from a module that is not part of this model; the model reads with the tables of `imodmodel/specification.py` and the current 16-byte contour header (see Left out).
- The legacy class-based reader `ImodModelFileParser` (`imodmodel/parser.py`).

A file is a `seq<Byte>` and a reader's position is a cursor into it. A record is a map from field name to a single value or a list of values. Every read and every write returns a `Result`, so the error paths are part of each contract: a `struct` unpack of too few bytes, a chunk size that is not a multiple of 12, storage or a contour arriving before any object, an index out of range, a name that is not UTF-8.

Control sequences and chunk sizes are the exception. The source reads them with `file.read(4)`, which gives fewer than four bytes at the end of the file: a short tag is an unknown one, and `int.from_bytes` turns a short size into a smaller number, the empty one into 0. The as-written members (`Parsers.ReadTagAsWritten`, `Parsers.StorageAsWritten`, `Parsers.SkipUnknownAsWritten`, `Parsers.StepAsWritten`) keep that behaviour. The corrected reader reports a tag or size cut short by the end of the file as `Truncated`.

The main theorems are these:

- Writing any writable model and reading it back with the corrected reader (`Parsers.ParseModel`) gives `ModelWriter.ReadBackModel` of it (`ModelWriter.ModelRoundTrip`), in both writer modes. That is the model the reader can see: object headers are dropped, the model name is trimmed at its first NUL, meshes come back decompiled and cleaned, and the material is the last IMAT written. The reader as written raises at the first MESH chunk instead (see Findings).
- The legacy functional reader reads such a file back when every object is mesh-free, its `contsize` counts its contours, and its contours carry no point sizes or storage (`LegacyReadBack.LegacyModelRoundTrip`). Each object comes back as its contours only.
- The class-based reader, with its object header grouped, reads back every model made only of objects and contours (`ClassReadBack.ClassFileRoundTrip`).

Below these sit round trips for:

- the field codec, for every conforming record of every table it reads;
- the general-storage chunk;
- chunk sizes and tags;
- the mesh index stream;
- the name padding.

Six places where the code's behaviour differs from what it evidently intends are modelled both as written and corrected (see Findings).

Files, one module each, in dependency order:

- `wrappers.dfy`: Option, Result and the error taxonomy.
- `bytes.dfy`: big-endian integers, two's complement, tags, UTF-8 well-formedness.
- `format.dfy`: `struct` format codes.
- `field_codec.dfy`: `_parse_from_specification` and `_write_to_specification`.
- `layouts.dfy`: `ModFileSpecification`.
- `framing.dfy`: control sequences, chunk sizes, skipping.
- `general_storage.dfy`: the storage chunks.
- `mesh_indices.dfy` and `mesh_cleanup.dfy`: `mesh.py`.
- `models.dfy`: `models.py`.
- `parsers.dfy`: `src/imodmodel/parsers.py`.
- `writers.dfy` and `model_writer.dfy`: `src/imodmodel/writers.py`.
- `legacy_layouts.dfy`, `legacy_parsers.dfy` and `legacy_read_back.dfy`: the legacy functional reader.
- `legacy_class_parser.dfy` and `class_read_back.dfy`: the legacy class reader.

## Model

| member | source | states |
|---|---|---|
| Bytes.FromToBE | src/imodmodel/parsers.py:118-120 | a number below 256^w written as w big-endian bytes reads back as itself |
| Bytes.ToFromBE | src/imodmodel/writers.py:88-89 | any byte string read as a big-endian number and written back at its own width is unchanged |
| Bytes.SignedRoundTrip | src/imodmodel/parsers.py:135-137 | reading w bytes as two's complement gives a value in the signed range that converts back to the same unsigned bytes |
| Bytes.SignedRoundTrip' | src/imodmodel/writers.py:83-85 | every value in the signed w-byte range survives conversion to bytes and back |
| Bytes.AsciiIsUtf8 | src/imodmodel/writers.py:98-99 | an ASCII control sequence always decodes as UTF-8 |
| Bytes.ContinuationAloneInvalid | src/imodmodel/parsers.py:114-115 | four bytes starting with a continuation byte do not decode, so such a control sequence raises |
| FieldCodec.PadOrTruncate | src/imodmodel/writers.py:26-30 | an `s` field is packed as exactly its width: the bytes cut to the width, or padded with zeros |
| FieldCodec.PackUnpackAtom | src/imodmodel/parsers.py:43-45 | any bytes of a code's width unpack to a value that fits the code exactly and packs back to the same bytes |
| FieldCodec.UnpackPackAtom | src/imodmodel/writers.py:26-30 | a value that fits its code packs without error and unpacks to itself |
| FieldCodec.PackUnpackAtoms | src/imodmodel/parsers.py:43-45 | unpacking a whole format and packing it again reproduces the bytes |
| FieldCodec.UnpackPackAtoms | src/imodmodel/writers.py:26-30 | packing a whole format's values and unpacking them returns the values |
| FieldCodec.GroupFromSound | src/imodmodel/parsers.py:30-39 | on a table whose fields are repeats or single values, grouping never fails; it gives one field per entry, in order, that flattens back to the tuple |
| FieldCodec.ParseThenWrite | src/imodmodel/parsers.py:25-40 | a groupable table with distinct names parses any run of its width into a conforming record; the cursor moves by the width and writing the record gives the bytes back |
| FieldCodec.WriteThenParse | src/imodmodel/writers.py:33-41 | a conforming record writes to exactly the table's width, and parsing those bytes gives the record back |
| FieldCodec.ParseSpecFirst | src/imodmodel/parsers.py:25-40 | a table whose first entry is one atom decodes that key to the single value unpacked from the record's first bytes |
| FieldCodec.ParseSpecLocal | src/imodmodel/parsers.py:25-40 | parsing a record depends only on the table-width bytes at the cursor |
| Layouts.IdWidth | src/imodmodel/binary_specification.py:3-6 | the identifier is 8 bytes |
| Layouts.ModelHeaderWidth | src/imodmodel/binary_specification.py:7-35 | the model header is 232 bytes |
| Layouts.FirstTagOffset | src/imodmodel/parsers.py:149-152 | the first control sequence of a file starts at byte 240 |
| Layouts.ObjectHeaderWidth | src/imodmodel/binary_specification.py:36-57 | the object header is 176 bytes |
| Layouts.ContourHeaderWidth | src/imodmodel/binary_specification.py:58-63 | the contour header is 16 bytes |
| Layouts.MeshHeaderWidth | src/imodmodel/binary_specification.py:64-70 | the mesh header is 16 bytes |
| Layouts.ImatWidth | src/imodmodel/binary_specification.py:71-85 | the IMAT record is 16 bytes |
| Layouts.ViewWidth | src/imodmodel/binary_specification.py:87-106 | the VIEW record is 184 bytes |
| Layouts.ViewNotWellGrouped | src/imodmodel/binary_specification.py:87-106 | the VIEW table has a `32c` field, which is neither a list nor a single value, so the grouping loop cannot decode it in step |
| Layouts.ExtraDataOnlyRepeat | src/imodmodel/binary_specification.py:36-57 | `extra_data` (16 unsigned ints) is the only list field in the tables the reader uses |
| Layouts.ParsedTablesCodable | src/imodmodel/binary_specification.py:3-85 | every table the reader uses has distinct names and only groupable list fields |
| Framing.ReadTag | src/imodmodel/parsers.py:114-115 | a control sequence reads iff four bytes remain and they decode as UTF-8; the cursor moves by 4; fewer bytes are an error |
| Framing.ReadChunkSize | src/imodmodel/parsers.py:118-120 | a size reads iff four bytes remain; it is below 2^32 and the cursor moves by 4 |
| Framing.WriteChunkSize | src/imodmodel/writers.py:88-89 | a size writes, as 4 bytes, iff it lies in [0, 2^32) |
| Framing.ChunkSizeRoundTrip | src/imodmodel/writers.py:88-89 | a written size reads back as itself |
| Framing.ChunkSizeBytesRoundTrip | src/imodmodel/parsers.py:118-120 | a read size writes back to the same four bytes |
| Framing.TagRoundTrip | src/imodmodel/writers.py:98-99 | an ASCII tag the writer emits reads back as itself |
| Framing.SkipUnknown | src/imodmodel/parsers.py:144-146 | skipping needs the size bytes, then moves past the announced payload, stopping at the end of the file on a short read |
| Framing.SkipWrittenChunk | src/imodmodel/parsers.py:144-146 | a chunk written as a size and a payload is skipped exactly |
| Framing.TagsDistinct | src/imodmodel/parsers.py:157-175 | the dispatched control sequences are pairwise different, so at most one branch applies |
| GeneralStorage.SelectorSplit | src/imodmodel/parsers.py:48-59 | the flags split into the low two bits that select the index shape and `flags >> 2`, as Python's floor shift |
| GeneralStorage.DecodeUnion | src/imodmodel/parsers.py:48-59 | selector 0, 1, 2 and 3 yield, respectively and only, an int, a float, a pair of shorts and four single bytes |
| GeneralStorage.ParseFromTypeFlags | src/imodmodel/parsers.py:48-59 | reading a union needs exactly four bytes, decoded in the shape the flags select |
| GeneralStorage.DecodeRecord | src/imodmodel/parsers.py:135-138 | a record's type and flags are signed shorts; the index is shaped by the flags, the value by `flags >> 2` |
| GeneralStorage.ParseGeneralStorage | src/imodmodel/parsers.py:129-141 | with the 4 size bytes present, the chunk reads iff the size is a multiple of 12 and the body fits; a body that does not fit is Truncated; on success it yields size/12 records decoded from the body and the cursor lands after the chunk |
| GeneralStorage.EncodeUnion | src/imodmodel/writers.py:84-85 | only an int in the 32-bit range or a 4-byte float encodes |
| GeneralStorage.WriteGeneralStorage | src/imodmodel/writers.py:79-85 | writing succeeds iff every record encodes and the size fits; the prefix is 12 per record |
| GeneralStorage.RecordRoundTrip | src/imodmodel/writers.py:82-85 | a writable record encodes and decodes to itself |
| GeneralStorage.DecodeEncodeRecord | src/imodmodel/parsers.py:135-138 | a decoded record whose unions are ints or floats re-encodes to the same 12 bytes |
| GeneralStorage.WriteThenParseStorage | src/imodmodel/writers.py:79-85 | a written storage chunk reads back as the same records, with the cursor after it |
| GeneralStorage.ParseThenWriteStorage | src/imodmodel/parsers.py:129-141 | a read storage chunk of ints and floats writes back to the same bytes |
| MeshIndices.FlatReshape | src/imodmodel/mesh.py:18 | reshaping into rows of three and flattening gives the list back |
| MeshIndices.ReshapeFlat | src/imodmodel/mesh.py:18 | flattening rows and reshaping gives the rows back |
| MeshIndices.SplitAtStartsShape | src/imodmodel/mesh.py:10-11 | one piece per -25; the pieces concatenate to the list from its first -25 on |
| MeshIndices.ParseImodIndices | src/imodmodel/mesh.py:5-19 | an empty list or one not ending in -1 is an error; on success there is one polygon per -25 marker |
| MeshIndices.EncodeThenParse | src/imodmodel/mesh.py:5-19 | polygons whose rows hold no -25, encoded and decompiled, come back unchanged |
| MeshIndices.ParseThenEncode | src/imodmodel/mesh.py:5-19 | a decompiled list re-encodes to the input without whatever came before its first -25 |
| MeshIndices.TwoTriangles | src/imodmodel/mesh.py:5-19 | a two-triangle stream decompiles to the two triangles |
| MeshCleanup.Unique | src/imodmodel/mesh.py:23 | the result is strictly increasing and holds exactly the input's values |
| MeshCleanup.Relabel | src/imodmodel/mesh.py:24-26 | each index is replaced by its rank among the unique values |
| MeshCleanup.Gather | src/imodmodel/mesh.py:27 | selecting vertices succeeds iff every index is in [-n, n); a negative index counts from the end |
| MeshCleanup.CleanupMesh | src/imodmodel/mesh.py:22-28 | cleanup succeeds iff every index is in range; each new index points into the kept vertices, at the vertex the old index named |
| MeshCleanup.CleanupKeepsSorted | src/imodmodel/mesh.py:23-27 | the kept vertices are the referenced ones, in increasing order of their old index |
| MeshCleanup.CleanupOrder | src/imodmodel/mesh.py:24-26 | relabelling preserves the order and equality of any two indices |
| MeshCleanup.CleanupDense | src/imodmodel/mesh.py:24-27 | every kept vertex is referenced by some new index |
| MeshCleanup.CleanedValues | src/imodmodel/mesh.py:22-28 | the new indices are exactly 0 up to the kept vertex count |
| MeshCleanup.CleanupIdempotent | src/imodmodel/mesh.py:22-28 | cleaning a cleaned mesh changes nothing |
| Models.TrimName | src/imodmodel/models.py:52-55 | the name is the bytes before the first NUL when they decode, else an error; a result never holds NUL and is a prefix of the raw bytes |
| Models.TrimPaddedName | src/imodmodel/models.py:52-55 | a NUL-free name shorter than its field, padded by the writer, reads back as itself |
| Models.LeadingZeroIsEmpty | src/imodmodel/models.py:54-55 | a field starting with NUL gives the empty name |
| Models.UnterminatedNameLosesLastByte | src/imodmodel/models.py:54-55 | with no NUL, `find` gives -1 and the name loses its last byte |
| Models.ValidateName | src/imodmodel/models.py:81-84 | the validator keeps every other field and replaces `name` by its trimmed form; it fails iff trimming fails or the field is not bytes |
| Models.ValidateText | src/imodmodel/models.py:8-11 | an identifier string is accepted unchanged iff it is bytes that decode |
| Models.ReshapedIndices | src/imodmodel/models.py:123-124 | reshaping succeeds iff the non-negative entries number a multiple of three, whose rows flatten to those entries in order |
| Models.ReshapedEncoding | src/imodmodel/models.py:123-124 | on an encoded index stream, the reshaped indices are all the polygons' rows in order |
| Models.ExtraValuesMeaning | src/imodmodel/models.py:126-139 | succeeds iff every selected entry's index reaches a vertex; each vertex value is the last such write, or zero |
| Models.UnselectedIgnored | src/imodmodel/models.py:133-135 | entries that are not type 10 with an int index leave every value zero |
| Parsers.ParseId | src/imodmodel/parsers.py:62-64 | the identifier is 8 bytes; it reads iff both 4-byte halves decode, and the record holds exactly those two halves, under `IMOD_file_id` and `version_id` |
| Parsers.ModelHeaderName | src/imodmodel/parsers.py:67-69 | 232 bytes always parse to a record whose `name` is the first 128 bytes |
| Parsers.ParseModelHeader | src/imodmodel/parsers.py:67-69 | the header parses iff 232 bytes remain and the name validates; its name is the trimmed field |
| Parsers.ObjectHeaderName | src/imodmodel/parsers.py:72-74 | 176 bytes always parse to a record whose `name` is the first 64 bytes |
| Parsers.ParseObjectHeader | src/imodmodel/parsers.py:72-74 | the object header parses iff 176 bytes remain and the name validates |
| Parsers.ParseObject | src/imodmodel/parsers.py:77-79 | the header is read and dropped: an empty object, with the cursor 176 bytes on |
| Parsers.ParsePoints | src/imodmodel/parsers.py:89-90 | n points read iff 12n bytes remain; point k comes from bytes 12k on |
| Parsers.ParseInts | src/imodmodel/parsers.py:103-104 | n ints read iff 4n bytes remain, each a signed 32-bit value |
| Parsers.ParseContour | src/imodmodel/parsers.py:87-91 | a contour reads iff its header and the announced points fit; a negative `psize` announces none; no storage yet |
| Parsers.ReadRawMesh | src/imodmodel/parsers.py:99-104 | a mesh reads `vsize` points and `lsize` ints after its header, with the cursor after them |
| Parsers.ReadMeshBody | src/imodmodel/parsers.py:101-104 | after the header come exactly `vsize` points of three floats and then `lsize` ints, point k read from byte 12k and int k from the 4 bytes after the points at 4k; the cursor ends right after them |
| Parsers.CleanPolygonsAt | src/imodmodel/parsers.py:107-110 | the i-th cleaned vertex list and index list are those `cleanup_mesh` gives for the i-th polygon, in polygon order |
| Parsers.MeshPolygons | src/imodmodel/parsers.py:105-111 | a mesh builds iff its indices decompile and each polygon cleans; each polygon holds the cleaned vertices and indices |
| Parsers.CleanPolygonsOk | src/imodmodel/parsers.py:107-110 | cleaning all polygons succeeds iff each one does |
| Parsers.ParseMesh | src/imodmodel/parsers.py:99-111 | corrected: a mesh reads iff its header, `vsize` points and `lsize` ints fit, the index list decompiles and every polygon cleans; then the header is the 16 bytes at the cursor, there are no extra values, the index list ends in -1, there is one polygon per -25 marker, polygon i holds `cleanup_mesh` of the i-th decompiled polygon, and the cursor ends right after the ints |
| Parsers.ParseMeshAsWritten | src/imodmodel/parsers.py:99-111 | as written, reading a mesh never succeeds: it fails as the corrected reader does, or when pydantic refuses the lists |
| Parsers.MeshAsWrittenRejected | src/imodmodel/models.py:113-121 | every mesh the corrected reader accepts is refused as written with `NotAnArray`; every other mesh fails with the corrected reader's error |
| Parsers.ParseImat | src/imodmodel/parsers.py:123-126 | the IMAT chunk reads iff 20 bytes remain: a size, ignored, then the 16-byte record, which is the IMAT table parsed at the cursor plus 4 |
| Parsers.ImatIgnoresPrefix | src/imodmodel/parsers.py:123-126 | the IMAT record read does not depend on the size prefix |
| Parsers.ObjectPart | src/imodmodel/parsers.py:162-173 | CONT and MESH add to the last object only; storage extends it; COST or MEST with no contour or mesh fails |
| Parsers.Dispatch | src/imodmodel/parsers.py:158-175 | corrected: OBJT appends an empty object; IMAT reads iff 20 bytes remain and sets the material to the record `ParseImat` gives; MOST reads iff its storage chunk does and appends its records; other objects are untouched; an object part with no object fails; unknown tags are skipped |
| Parsers.Loop | src/imodmodel/parsers.py:157-176 | corrected: one object per OBJT read; the material is set iff an IMAT was seen; model storage changes only on MOST; a missing tag is Truncated |
| Parsers.ParseModel | src/imodmodel/parsers.py:149-177 | corrected: a model reads iff its identifier, its header at byte 8 and the loop from byte 240 all read; the id and header are those reads, the objects, material and storage the loop's; it needs at least 244 bytes and has one object per OBJT |
| Parsers.ReadTagAsWritten | src/imodmodel/parsers.py:114-115 | as written, a read at the end of the file gives the empty control sequence instead of failing |
| Parsers.SkipUnknownAsWritten | src/imodmodel/parsers.py:144-146 | as written, skipping at the end of the file moves nowhere |
| Parsers.StorageAsWritten | src/imodmodel/parsers.py:129-133 | as written, with 4 size bytes the storage read is the corrected one; with fewer, it succeeds iff the bytes left spell 0, and then yields no records and stops at the end of the file |
| Parsers.DispatchAsWritten | src/imodmodel/parsers.py:158-175 | as written, a MESH chunk always fails; any other chunk with 4 bytes after its tag, and every OBJT, IMAT and CONT, is dispatched as the corrected reader does |
| Parsers.DispatchAgrees | src/imodmodel/parsers.py:158-175 | wherever the corrected dispatch accepts a chunk other than MESH, the as-written dispatch gives the same result |
| Parsers.StorageSizeAtEnd | src/imodmodel/parsers.py:129-133 | a MOST tag in the last 4 bytes: the corrected loop fails with Truncated, while the loop as written reads no records and goes on at the end of the file |
| Parsers.AsWrittenStep | src/imodmodel/parsers.py:157-176 | past a whole tag other than IEOF and MESH whose chunk the corrected dispatch accepts, one as-written iteration lands where the corrected dispatch does, with the same body |
| Parsers.IdFields | src/imodmodel/binary_specification.py:3-6 | the identifier table reads any 8 bytes as its two 4-byte halves |
| Parsers.EndWithoutIeofRunsForever | src/imodmodel/parsers.py:157-176 | as written, at the end of a file with no IEOF the loop never finishes, whatever the fuel |
| Parsers.EndWithoutIeofIsTruncated | src/imodmodel/parsers.py:157-176 | corrected, the same input is a Truncated error |
| Parsers.LoopAgrees | src/imodmodel/parsers.py:149-177 | whenever the corrected loop succeeds without meeting a MESH tag, the as-written loop finishes with the same result |
| Writers.WritePoints | src/imodmodel/writers.py:104-105 | points write iff every coordinate is a 4-byte float; 12 bytes per point |
| Writers.PointsRoundTrip | src/imodmodel/writers.py:104-105 | written points read back as the same points |
| Writers.WriteInts | src/imodmodel/writers.py:116-118 | ints write iff each is in the 32-bit range; 4 bytes each |
| Writers.IntsRoundTrip | src/imodmodel/writers.py:116-118 | written ints read back as the same ints |
| Writers.WritePointSizes | src/imodmodel/writers.py:92-96 | a SIZE chunk is the tag, a size of 4 per float, then the floats |
| Writers.PointSizesSkipped | src/imodmodel/writers.py:92-96 | the reader skips a written SIZE chunk and changes nothing |
| Writers.WriteTaggedStorage | src/imodmodel/writers.py:134-136 | a storage chunk writes nothing when empty, else 8 + 12 bytes per record |
| Writers.WriteUntaggedStorage | src/imodmodel/writers.py:109-110 | contour and mesh storage, as written, is a size and records with no tag |
| Writers.WriteSlicerAngle | src/imodmodel/writers.py:74-76 | a slicer angle is announced as 48 bytes, whatever its payload |
| Writers.WriteMinx | src/imodmodel/writers.py:69-71 | MINX is announced as 72 bytes, whatever its payload |
| Writers.SlicerAngleSkipped | src/imodmodel/writers.py:74-76 | the reader skips a written SLAN chunk, landing right after it iff the payload is 48 bytes |
| Writers.MinxSkipped | src/imodmodel/writers.py:69-71 | the reader skips a written MINX chunk, landing right after it iff the payload is 72 bytes |
| Writers.WriteContourData | src/imodmodel/writers.py:102-108 | a contour is its header, 12 bytes per point and an optional SIZE chunk |
| Writers.ContourRoundTrip | src/imodmodel/writers.py:102-110 | a written contour, storage tagged COST, reads back into the last object with its header, points and storage |
| Writers.StoragePrefixIsUnknownTag | src/imodmodel/writers.py:109-110 | untagged storage of fewer than 11 records starts with a size the reader takes for an unknown ASCII tag |
| Writers.ContourAsWrittenMisread | src/imodmodel/writers.py:109-110 | as written, a contour with storage reads back without it, and the reader then skips into the records |
| Writers.WriteMeshData | src/imodmodel/writers.py:113-118 | a mesh is its header, 12 bytes per vertex and 4 per index |
| Writers.MeshRoundTrip | src/imodmodel/writers.py:113-120 | a written mesh, storage tagged MEST, reads back into the last object, or fails exactly when its indices do not decompile |
| Writers.MeshAsWrittenMisread | src/imodmodel/writers.py:119-120 | as written, a mesh with storage reads back without it |
| Writers.ImatRoundTrip | src/imodmodel/writers.py:64-66 | a written IMAT chunk sets the material to the record, whatever the prefix |
| Writers.ImatPrefixOvershoots | src/imodmodel/writers.py:64-66 | as written, the prefix announces 32 more bytes than follow, so skipping it lands 32 bytes past the chunk |
| Writers.ImatPrefixSkipsExactly | src/imodmodel/writers.py:64-66 | with prefix 16, skipping lands right after the chunk |
| Writers.SizeTagUnknown | src/imodmodel/parsers.py:174-175 | SIZE is not a dispatched tag, so it is skipped |
| Writers.BlobTagsUnknown | src/imodmodel/parsers.py:174-175 | SLAN and MINX are not dispatched tags, so they are skipped |
| ModelWriter.WriteContours | src/imodmodel/writers.py:125-127 | the contours write iff each one does |
| ModelWriter.WriteMeshes | src/imodmodel/writers.py:128-130 | the meshes write iff each one does |
| ModelWriter.WriteSlicerAngles | src/imodmodel/writers.py:145-147 | each slicer angle takes 8 bytes plus its payload |
| ModelWriter.ModelWrites | src/imodmodel/writers.py:139-154 | a writable model writes without error |
| ModelWriter.ContoursRead | src/imodmodel/writers.py:125-127 | the written contours are read into the last object, in order |
| ModelWriter.MeshesRead | src/imodmodel/writers.py:128-130 | the written meshes are read into the last object, in order |
| ModelWriter.ObjectRead | src/imodmodel/writers.py:123-136 | a written object is appended to the model, and its IMAT replaces the model's material |
| ModelWriter.ObjectsRead | src/imodmodel/writers.py:142-144 | the written objects are appended in order; the material is the last IMAT written |
| ModelWriter.ModelRoundTrip | src/imodmodel/writers.py:139-154 | in either writer mode, reading a written model with the corrected reader gives `ReadBackModel` of it: its id, its header with the name trimmed, its objects without headers and with meshes decompiled and cleaned, the last IMAT written and its storage |
| LegacyLayouts.IdSpecMatches | imodmodel/specification.py:1-4 | the legacy identifier table equals the current one |
| LegacyLayouts.HeaderSpecMatches | imodmodel/specification.py:6-34 | the legacy model header table equals the current one |
| LegacyLayouts.ObjectSpecMatches | imodmodel/specification.py:36-57 | the legacy object header table equals the current one |
| LegacyLayouts.ImatSpecMatches | imodmodel/specification.py:67-81 | the legacy IMAT table equals the current one |
| LegacyLayouts.ViewSpecMatches | imodmodel/specification.py:87-106 | the legacy VIEW table equals the current one |
| LegacyLayouts.ContourSpecShape | imodmodel/specification.py:59-65 | the legacy contour table is the 16-byte header plus one point, 28 bytes |
| LegacyLayouts.ControlSequencesKeys | imodmodel/specification.py:123-143 | the tag map lists exactly the nineteen known control sequences |
| LegacyLayouts.ControlSequencesConcrete | imodmodel/specification.py:123-143 | only OBJT, CONT, IMAT, SIZE and VIEW have a table |
| LegacyParsers.ContsizeField | imodmodel/parsers.py:53-56 | any 176 bytes give an object header with an integer `contsize` |
| LegacyParsers.ParseTaggedContours | imodmodel/parsers.py:55-58 | an object reads exactly n contours, each after four unchecked bytes, none with storage; the contours are those `TaggedRun` names: contour k is the one `ParseContour` reads after the k-th tag, each tag right after the previous contour's points |
| LegacyParsers.ParseLegacyObject | imodmodel/parsers.py:53-59 | an object holds as many contours as its `contsize`, none when it is negative; they are the tagged run read right after the 176-byte header; fewer than 176 bytes are Truncated |
| LegacyParsers.LegacyDispatch | imodmodel/parsers.py:100-106 | OBJT appends the object `ParseLegacyObject` reads and succeeds iff that read does; IMAT reads iff 20 bytes remain and sets the material to the record `ParseImat` gives; every other chunk is skipped by its size |
| LegacyParsers.LegacyRun | imodmodel/parsers.py:99-107 | objects are only appended; a missing tag is Truncated |
| LegacyParsers.ParseLegacyId | imodmodel/parsers.py:38-40 | the identifier reads iff 8 bytes are present, and holds the two 4-byte halves, undecoded |
| LegacyParsers.ParseLegacyHeader | imodmodel/parsers.py:43-45 | the header reads iff 232 bytes remain; its name is the raw 128 bytes |
| LegacyParsers.ParseLegacyModel | imodmodel/parsers.py:93-108 | a model reads iff 240 bytes are present and the loop from byte 240 succeeds; the id is the first 8 bytes, the header the 232 bytes after them, the objects and material the loop's; it needs 244 bytes |
| LegacyParsers.LegacyEndRunsForever | imodmodel/parsers.py:100-107 | as written, at the end of a file with no IEOF the loop never finishes |
| LegacyParsers.LegacyLoopAgrees | imodmodel/parsers.py:93-108 | whenever the corrected loop succeeds, the as-written loop ends with the same result |
| LegacyReadBack.TaggedContoursRead | imodmodel/parsers.py:53-59 | contours the current writer wrote read back in full |
| LegacyReadBack.LegacyObjectRead | imodmodel/parsers.py:100-104 | a written mesh-free object whose `contsize` counts its contours is appended as its contours; its IMAT replaces the material |
| LegacyReadBack.LegacyModelRoundTrip | imodmodel/parsers.py:93-108 | in either writer mode, a written model of mesh-free objects whose `contsize` counts their contours, with no point sizes or contour storage, reads back with its id, header, the objects' contours and the last material |
| LegacyClassParser.ParseZip | imodmodel/parser.py:98-101 | a keyed record reads iff the table's width is available, and moves the cursor by it |
| LegacyClassParser.ZipAgrees | imodmodel/parser.py:98-101 | on a table without list fields, zipping keys with values equals grouping |
| LegacyClassParser.ClassTablesSingleValued | imodmodel/specification.py:1-34 | the identifier, header and IMAT tables have no list field |
| LegacyClassParser.ObjectSpecRepeats | imodmodel/specification.py:36-57 | the object table has a list field |
| LegacyClassParser.ObjectZipShift | imodmodel/parser.py:98-101 | as written, `extra_data` gets the first value and `contsize` the second value of the written `extra_data` |
| LegacyClassParser.ObjectHeaderGrouped | imodmodel/parser.py:49-50 | with grouping, every written object header reads back exactly |
| LegacyClassParser.ClassObjectHeader | imodmodel/parser.py:49-50 | the object header reads iff 176 bytes remain |
| LegacyClassParser.ReadControl | imodmodel/parser.py:123-127 | a control read takes up to four bytes; it is a text iff they decode |
| LegacyClassParser.AsciiControl | imodmodel/parser.py:123-127 | an ASCII tag reads as itself |
| LegacyClassParser.ParseClassContour | imodmodel/parser.py:64-87 | `psize` is unsigned; the contour reads iff 16 + 12 per point bytes remain; it holds those points |
| LegacyClassParser.ClassContourAgrees | imodmodel/parser.py:64-87 | for `psize` below 2^31 the class reader and the current reader read the same contour |
| LegacyClassParser.ClassContourUnsigned | imodmodel/parser.py:70 | from 2^31 on the current reader reads no points, while the class reader needs 24 GiB |
| LegacyClassParser.ClassObjectStep | imodmodel/parser.py:53-59 | one step ends the object or extends its contours by at most one |
| LegacyClassParser.ParseClassImat | imodmodel/parser.py:89-93 | IMAT reads its 16 bytes right after the tag, with no size prefix |
| LegacyClassParser.ClassObjectLoop | imodmodel/parser.py:53-59 | an ended object keeps its header and extends its contours |
| LegacyClassParser.ClassParseObject | imodmodel/parser.py:45-62 | an object spans its header and at least one three-byte control |
| LegacyClassParser.ClassSpinsAtEnd | imodmodel/parser.py:54-58 | at the end of the file the object loop never finishes: `read` gives the empty text, not `EOF` |
| LegacyClassParser.ClassStopsAtIeof | imodmodel/parser.py:56-58 | IEOF ends the object unchanged |
| LegacyClassParser.ClassUnknownTag | imodmodel/parser.py:129-135 | any other tag is only warned about: four bytes consumed, object unchanged |
| LegacyClassParser.ClassObjects | imodmodel/parser.py:26-27 | objects are only appended while OBJT follows |
| LegacyClassParser.ParseClassId | imodmodel/parser.py:33-34 | the identifier reads iff 8 bytes are present, and holds the two 4-byte halves |
| LegacyClassParser.ParseClassHeader | imodmodel/parser.py:36-40 | zipping the header's keys with its values reads the same record as the grouping parser; it reads iff 232 bytes remain |
| LegacyClassParser.ParseClassFile | imodmodel/parser.py:21-28 | fewer than 240 bytes are Truncated; otherwise the file parses iff the object loop from the first control ends, and spins iff it does not; a parsed file holds the two id halves, the header parsed at byte 8 and the objects that loop gives |
| ClassReadBack.ClassContourRead | imodmodel/parser.py:64-87 | a contour the current writer wrote reads back with its header and points |
| ClassReadBack.ClassObjectRead | imodmodel/parser.py:45-62 | a written object of contours reads back, ended by the next tag |
| ClassReadBack.ClassFileRoundTrip | imodmodel/parser.py:21-28 | a written model of objects and contours parses to its id, header and objects |

## Left out

- File handles, `from_file`, pandas dataframes and the functional wrappers. The model takes the file's bytes.
- Floating point. Floats are opaque 4-byte words: a float written is a float read, and the model does no arithmetic on them.
- The VIEW chunk is not read by any reader. Only its table and width are modelled.
- SLAN and MINX payloads are opaque byte strings. The writer as written cannot produce them, so this part of the model reconstructs intent:
  - `src/imodmodel/writers.py:10,16` import `SLAN` and `MINX` from `models.py`, which defines neither;
  - `ModFileSpecification.MINX` and `.SLAN` are `NotImplemented` (`src/imodmodel/binary_specification.py:109,114`), so `_write_minx` and `_write_slicer_angle` (`src/imodmodel/writers.py:69-76`) would fail after writing the size. The model writes the size and then the payload bytes as given.
- `ImodModel` in `models.py` declares no `slicer_angles` or `minx` fields, yet `write_model` reads them. Likewise `Object` (`src/imodmodel/models.py:191-195`) declares no `header` or `imat`, yet `_write_object` reads `obj.header` and `obj.imat` (`src/imodmodel/writers.py:124,131`). The model's writer inputs reconstruct these fields. The writer's input records (`WModel`, `WObject`, `WContour`, `WMesh`) add these and the other undeclared fields (`point_sizes`, `raw_vertices`, `raw_indices`, `imat`).
- The legacy `imodmodel/parsers.py` takes its tables from `.specifications.IMODFileSpecification` (`imodmodel/parsers.py:10`), a module that is not part of this model; its record classes are not either. The model reads with the tables of `imodmodel/specification.py`, which agree with the current ones for the identifier, the headers and IMAT. The contour header is the exception. `specification.py`'s `contour_spec` (`imodmodel/specification.py:59-65`) is 28 bytes, with a `pt: '3f'` entry. `_parse_contour_header` (`imodmodel/parsers.py:63`) reads `CONTOUR_HEADER` from the missing module. The model reads the current 16-byte contour header there, as `_parse_contour` then reads `psize` points itself.
- The legacy functional reader is modelled without the name validators of the current `models.py`.
- UTF-8 decoding is a well-formedness predicate. Decoded text is kept as bytes.
- Pydantic coercions beyond the name validators are not modelled.
- The class reader's `data_structures.py` classes. An IMAT chunk only marks the object (`imatSeen`): `add_data` stores the `Imat` class, not the record. Meshes are never read.
- LegacyClassParser.ClassObjectLoop: it takes a fuel bound, because the source loop can spin forever. Running out of fuel is reported as spinning, not as a result.
- LegacyClassParser.ClassObjectStep: `warn` is left out.
- ClassReadBack.ClassFileRoundTrip: covers only models whose objects hold nothing but contours. A written IMAT, mesh or storage chunk is misread by the class reader, which does not skip chunks. The round trip is stated for the grouped object-header read, since the as-written zip shifts `contsize`. It also needs fuel above the contour count of each object.
- LegacyReadBack.LegacyModelRoundTrip: covers only objects without meshes, whose `contsize` counts their contours, and contours without point sizes or storage. The legacy reader reads contours by count, so a written mesh or contour storage is misread. Object headers are not read back: the legacy reader builds each object from its contours alone.
- ModelWriter.ModelRoundTrip: needs a writable model in the given mode. With the writer as written, contours and meshes must carry no storage, which that writer loses. Slicer-angle and MINX payloads must be as long as their prefixes announce.
- Parsers.ParseContour: states the header's leading `psize` and the points. The other header fields are given as `ParseSpec`'s record.
- Parsers.LoopAgrees: covers only files without MESH chunks. As written, every MESH chunk ends the parse with an error (see Findings), so the two loops differ on every file with a mesh the corrected reader accepts.
- Parsers.ObjectPart: states the contours and meshes other than the last one unchanged, and the counts. It does not restate the appended contour's fields, which `Writers.ContourRoundTrip` and `Writers.MeshRoundTrip` pin down.

## Findings

| source | as written | input that shows it | evidently intended | confidence | as-written member | corrected member |
|---|---|---|---|---|---|---|
| src/imodmodel/parsers.py:157-176 | at the end of the file `read(4)` gives empty bytes; the loop treats them as an unknown chunk of size 0 and repeats | any file that ends without `IEOF`, for example the 240-byte identifier and header alone | a truncated file is an error | high, not executed | Parsers.EndWithoutIeofRunsForever | Parsers.EndWithoutIeofIsTruncated |
| src/imodmodel/writers.py:109-110 | contour storage is written as a size and records with no `COST` tag before it | a contour with one storage record: its size bytes `00 00 00 0C` read as an unknown tag, and the storage is lost | `COST` precedes contour storage, as the reader expects | high, not executed | Writers.ContourAsWrittenMisread | Writers.ContourRoundTrip |
| src/imodmodel/writers.py:119-120 | mesh storage is written with no `MEST` tag | a mesh with one storage record reads back without it | `MEST` precedes mesh storage | high, not executed | Writers.MeshAsWrittenMisread | Writers.MeshRoundTrip |
| src/imodmodel/writers.py:64-66 | the IMAT chunk announces 48 bytes but carries a 16-byte record | a reader that skips IMAT by its size lands 32 bytes past the chunk | the size is the record's 16 bytes | medium, not executed | Writers.ImatPrefixOvershoots | Writers.ImatPrefixSkipsExactly |
| src/imodmodel/parsers.py:99-111 | `_parse_mesh` builds `Mesh` with Python lists for `vertices` and `indices`, which `models.py:113-121` declares as `np.ndarray` with `arbitrary_types_allowed`, so pydantic's `isinstance` check refuses them | any file with a MESH chunk whose reads, decompiling and cleanup all succeed: the reader raises a validation error there | the lists are wrapped in `np.array`, or the fields are declared as lists | medium, not executed | Parsers.ParseMeshAsWritten, Parsers.MeshAsWrittenRejected | Parsers.ParseMesh |
| imodmodel/parser.py:98-101 | the object header's keys are zipped with the flat values, so the 16-value `extra_data` list takes one value and every later field shifts | any object header: `contsize` reads the second `extra_data` value | each key takes its field's values, as the grouping parser does | high, not executed | LegacyClassParser.ObjectZipShift | LegacyClassParser.ObjectHeaderGrouped |
