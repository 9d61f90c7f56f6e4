/** Bytes, big-endian integers of fixed width, two's complement, ASCII tags
    and strict UTF-8 well-formedness. */
module Bytes {

  type Byte = b: int | 0 <= b < 256

  /** 256^w: the number of distinct values of a w-byte unsigned integer. */
  function Pow256(w: nat): (p: nat)
    ensures p >= 1
  {
    if w == 0 then 1 else 256 * Pow256(w - 1)
  }

  /** Unsigned big-endian value of a byte string (`int.from_bytes(bs, "big")`). */
  function FromBE(bs: seq<Byte>): (n: nat)
    ensures n < Pow256(|bs|)
  {
    if |bs| == 0 then 0
    else
      var hi := FromBE(bs[..|bs| - 1]);
      assert hi <= Pow256(|bs| - 1) - 1;
      hi * 256 + bs[|bs| - 1]
  }

  /** The w-byte big-endian encoding of n (`n.to_bytes(w, "big")`). */
  function ToBE(n: nat, w: nat): (bs: seq<Byte>)
    requires n < Pow256(w)
    ensures |bs| == w
  {
    if w == 0 then []
    else ToBE(n / 256, w - 1) + [n % 256]
  }

  lemma {:induction false} FromToBE(n: nat, w: nat)
    requires n < Pow256(w)
    ensures FromBE(ToBE(n, w)) == n
  {
    if w > 0 {
      var bs := ToBE(n, w);
      assert bs[..w - 1] == ToBE(n / 256, w - 1);
      FromToBE(n / 256, w - 1);
    }
  }

  lemma {:induction false} ToFromBE(bs: seq<Byte>)
    ensures ToBE(FromBE(bs), |bs|) == bs
  {
    if |bs| > 0 {
      var init := bs[..|bs| - 1];
      var n := FromBE(bs);
      assert n / 256 == FromBE(init) && n % 256 == bs[|bs| - 1];
      ToFromBE(init);
      assert bs == init + [bs[|bs| - 1]];
    }
  }

  /** Two's complement reading of an unsigned w-byte value. */
  function ToSigned(u: nat, w: nat): int
  {
    if 2 * u >= Pow256(w) then u - Pow256(w) else u
  }

  /** The unsigned w-byte pattern of a signed value. */
  function FromSigned(i: int, w: nat): int
  {
    if i < 0 then i + Pow256(w) else i
  }

  /** Whether i fits the signed w-byte range. */
  predicate InSigned(i: int, w: nat)
  {
    -(Pow256(w) as int) <= 2 * i < Pow256(w)
  }

  lemma {:induction false} SignedRoundTrip(u: nat, w: nat)
    requires u < Pow256(w)
    ensures InSigned(ToSigned(u, w), w)
    ensures FromSigned(ToSigned(u, w), w) == u
  {
  }

  lemma {:induction false} SignedRoundTrip'(i: int, w: nat)
    requires InSigned(i, w)
    ensures 0 <= FromSigned(i, w) < Pow256(w)
    ensures ToSigned(FromSigned(i, w), w) == i
  {
  }

  /** Four-byte ASCII tags. */
  type Tag = seq<Byte>

  /** The IMOD control tags used by the codec, as their four ASCII bytes. */
  const IMOD: Tag := [0x49, 0x4D, 0x4F, 0x44]  // "IMOD"
  const OBJT: Tag := [0x4F, 0x42, 0x4A, 0x54]  // "OBJT"
  const CONT: Tag := [0x43, 0x4F, 0x4E, 0x54]  // "CONT"
  const MESH: Tag := [0x4D, 0x45, 0x53, 0x48]  // "MESH"
  const IMAT: Tag := [0x49, 0x4D, 0x41, 0x54]  // "IMAT"
  const MINX: Tag := [0x4D, 0x49, 0x4E, 0x58]  // "MINX"
  const SLAN: Tag := [0x53, 0x4C, 0x41, 0x4E]  // "SLAN"
  const SIZE: Tag := [0x53, 0x49, 0x5A, 0x45]  // "SIZE"
  const MOST: Tag := [0x4D, 0x4F, 0x53, 0x54]  // "MOST"
  const OBST: Tag := [0x4F, 0x42, 0x53, 0x54]  // "OBST"
  const COST: Tag := [0x43, 0x4F, 0x53, 0x54]  // "COST"
  const MEST: Tag := [0x4D, 0x45, 0x53, 0x54]  // "MEST"
  const IEOF: Tag := [0x49, 0x45, 0x4F, 0x46]  // "IEOF"
  const VIEW: Tag := [0x56, 0x49, 0x45, 0x57]  // "VIEW"

  predicate IsAscii(bs: seq<Byte>)
  {
    forall k :: 0 <= k < |bs| ==> bs[k] < 128
  }

  predicate Cont(b: Byte) { 0x80 <= b <= 0xBF }

  /** Strict UTF-8 well-formedness (the sequences Python's "utf-8" codec
      decodes without raising), byte by byte as in Table 3-7 of the Unicode
      standard: no overlong forms, no surrogates, nothing above U+10FFFF. */
  predicate ValidUtf8(bs: seq<Byte>)
    decreases |bs|
  {
    if |bs| == 0 then true
    else
      var b := bs[0];
      if b < 0x80 then ValidUtf8(bs[1..])
      else if 0xC2 <= b <= 0xDF then
        |bs| >= 2 && Cont(bs[1]) && ValidUtf8(bs[2..])
      else if 0xE0 <= b <= 0xEF then
        |bs| >= 3
        && (if b == 0xE0 then 0xA0 <= bs[1] <= 0xBF
            else if b == 0xED then 0x80 <= bs[1] <= 0x9F
            else Cont(bs[1]))
        && Cont(bs[2]) && ValidUtf8(bs[3..])
      else if 0xF0 <= b <= 0xF4 then
        |bs| >= 4
        && (if b == 0xF0 then 0x90 <= bs[1] <= 0xBF
            else if b == 0xF4 then 0x80 <= bs[1] <= 0x8F
            else Cont(bs[1]))
        && Cont(bs[2]) && Cont(bs[3]) && ValidUtf8(bs[4..])
      else false
  }

  lemma {:induction false} AsciiIsUtf8(bs: seq<Byte>)
    requires IsAscii(bs)
    ensures ValidUtf8(bs)
  {
    if |bs| > 0 {
      AsciiIsUtf8(bs[1..]);
    }
  }

  /** A lone continuation byte is never well-formed UTF-8. */
  lemma {:induction false} ContinuationAloneInvalid(bs: seq<Byte>)
    requires |bs| > 0 && Cont(bs[0])
    ensures !ValidUtf8(bs)
  {
  }
}
