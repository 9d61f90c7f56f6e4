/** Chunk framing: 4-byte control tags, 4-byte big-endian size prefixes and
    skipping of chunks the reader does not know.  A file is a byte sequence
    and the reader's position a cursor into it. */
module Framing {
  import opened Wrappers
  import opened Bytes

  /** 2^32: sizes must be below this to fit a 4-byte prefix. */
  const SIZE_LIMIT: nat := 0x1_0000_0000

  lemma {:induction false} SizeLimitIsPow()
    ensures Pow256(4) == SIZE_LIMIT
  {
  }

  /** `_parse_control_sequence`: four bytes, which must decode as UTF-8.
      A read that finds fewer than four bytes is an error here. */
  function ReadTag(data: seq<Byte>, pos: nat): (r: Result<(Tag, nat)>)
    ensures r.Ok? <==> pos + 4 <= |data| && ValidUtf8(data[pos..pos + 4])
    ensures r.Ok? ==> r.value == (data[pos..pos + 4], pos + 4)
    ensures pos + 4 > |data| ==> r == Err(Truncated)
  {
    if pos + 4 > |data| then Err(Truncated)
    else if !ValidUtf8(data[pos..pos + 4]) then Err(UndecodableText)
    else Ok((data[pos..pos + 4], pos + 4))
  }

  /** `_write_control_sequence` for the ASCII tags the writer uses. */
  function WriteTag(tag: Tag): seq<Byte>
  {
    tag
  }

  /** `_parse_chunk_size`: four bytes as an unsigned big-endian integer. */
  function ReadChunkSize(data: seq<Byte>, pos: nat): (r: Result<(nat, nat)>)
    ensures r.Ok? <==> pos + 4 <= |data|
    ensures r.Ok? ==> r.value.1 == pos + 4 && r.value.0 < SIZE_LIMIT
  {
    SizeLimitIsPow();
    if pos + 4 > |data| then Err(Truncated)
    else Ok((FromBE(data[pos..pos + 4]), pos + 4))
  }

  /** `_write_chunk_size`: `size.to_bytes(4, "big")`, which raises for a
      negative size or one that needs more than four bytes. */
  function WriteChunkSize(size: int): (r: Result<seq<Byte>>)
    ensures r.Ok? <==> 0 <= size < SIZE_LIMIT
    ensures r.Ok? ==> |r.value| == 4
  {
    SizeLimitIsPow();
    if 0 <= size < SIZE_LIMIT then Ok(ToBE(size, 4)) else Err(BadValue)
  }

  /** Writing a size and reading it back gives the size, wherever the four
      bytes sit. */
  lemma {:induction false} ChunkSizeRoundTrip(size: nat, data: seq<Byte>, pos: nat)
    requires size < SIZE_LIMIT
    requires pos + 4 <= |data| && data[pos..pos + 4] == WriteChunkSize(size).value
    ensures ReadChunkSize(data, pos) == Ok((size, pos + 4))
  {
    FromToBE(size, 4);
  }

  /** Reading four bytes as a size and writing it back gives the bytes. */
  lemma {:induction false} ChunkSizeBytesRoundTrip(data: seq<Byte>, pos: nat)
    requires pos + 4 <= |data|
    ensures WriteChunkSize(ReadChunkSize(data, pos).value.0) == Ok(data[pos..pos + 4])
  {
    ToFromBE(data[pos..pos + 4]);
  }

  /** An ASCII tag written and read back. */
  lemma {:induction false} TagRoundTrip(tag: Tag, data: seq<Byte>, pos: nat)
    requires |tag| == 4 && IsAscii(tag)
    requires pos + 4 <= |data| && data[pos..pos + 4] == WriteTag(tag)
    ensures ReadTag(data, pos) == Ok((tag, pos + 4))
  {
    AsciiIsUtf8(tag);
  }

  /** `_parse_unknown`: read the size prefix, then read (and drop) that many
      bytes.  `file.read(n)` returns whatever is left when fewer than n bytes
      remain, so the cursor stops at the end of the data. */
  function SkipUnknown(data: seq<Byte>, pos: nat): (r: Result<nat>)
    ensures r.Ok? <==> pos + 4 <= |data|
    ensures r.Ok? ==> r.value == Min(pos + 4 + FromBE(data[pos..pos + 4]), |data|)
    ensures r.Ok? ==> pos + 4 <= r.value <= |data|
  {
    var (size, after) :- ReadChunkSize(data, pos);
    Ok(Min(after + size, |data|))
  }

  function Min(a: nat, b: nat): nat
  {
    if a <= b then a else b
  }

  /** A chunk written with a correct prefix is skipped exactly. */
  lemma {:induction false} SkipWrittenChunk(payload: seq<Byte>, rest: seq<Byte>, data: seq<Byte>, pos: nat)
    requires |payload| < SIZE_LIMIT
    requires pos <= |data| && data[pos..] == WriteChunkSize(|payload|).value + payload + rest
    ensures SkipUnknown(data, pos) == Ok(pos + 4 + |payload|)
  {
    var w := WriteChunkSize(|payload|).value;
    assert data[pos..pos + 4] == w by {
      assert data[pos..pos + 4] == data[pos..][..4];
    }
    ChunkSizeRoundTrip(|payload|, data, pos);
  }

  /** Every tag the codec writes is four ASCII bytes. */
  lemma {:induction false} TagsAreAscii()
    ensures |OBJT| == 4 && IsAscii(OBJT) && |CONT| == 4 && IsAscii(CONT)
    ensures |MESH| == 4 && IsAscii(MESH) && |IMAT| == 4 && IsAscii(IMAT)
    ensures |MINX| == 4 && IsAscii(MINX) && |SLAN| == 4 && IsAscii(SLAN)
    ensures |SIZE| == 4 && IsAscii(SIZE) && |MOST| == 4 && IsAscii(MOST)
    ensures |OBST| == 4 && IsAscii(OBST) && |COST| == 4 && IsAscii(COST)
    ensures |MEST| == 4 && IsAscii(MEST) && |IEOF| == 4 && IsAscii(IEOF)
  {
  }

  /** The tags the dispatch loop compares against are pairwise different. */
  lemma {:induction false} TagsDistinct()
    ensures IEOF != OBJT && IEOF != IMAT && IEOF != CONT && IEOF != MESH && IEOF != MOST
    ensures IEOF != OBST && IEOF != COST && IEOF != MEST
    ensures OBJT != IMAT && OBJT != CONT && OBJT != MESH && OBJT != MOST && OBJT != OBST
    ensures OBJT != COST && OBJT != MEST
    ensures IMAT != CONT && IMAT != MESH && IMAT != MOST && IMAT != OBST && IMAT != COST && IMAT != MEST
    ensures CONT != MESH && CONT != MOST && CONT != OBST && CONT != COST && CONT != MEST
    ensures MESH != MOST && MESH != OBST && MESH != COST && MESH != MEST
    ensures MOST != OBST && MOST != COST && MOST != MEST
    ensures OBST != COST && OBST != MEST && COST != MEST
  {
  }
}
