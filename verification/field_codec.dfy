/** The schema-driven record codec: `_parse_from_specification` and
    `_write_to_specification`.  A table is turned into one big-endian
    `struct` format; the flat tuple of unpacked values is then grouped back
    into fields, a repeat field (`16I`) becoming a list. */
module FieldCodec {
  import opened Wrappers
  import opened Bytes
  import opened FormatCodes

  /** One value produced by `struct.unpack`: an integer, a float kept as its
      raw big-endian word, or a byte string (`s` and `c` codes). */
  datatype Value = IntVal(i: int) | FloatVal(word: seq<Byte>) | BytesVal(bytes: seq<Byte>)

  /** A decoded field: one value, or the list a repeat field decodes to. */
  datatype Field = Single(v: Value) | Group(vs: seq<Value>)

  /** The dict `_parse_from_specification` returns. */
  type Record = map<string, Field>

  // ---------------------------------------------------------------- atoms

  function UnpackAtom(a: Atom, bs: seq<Byte>): Value
    requires |bs| == a.width
  {
    if a.kind.Char? || a.kind.Str? then BytesVal(bs)
    else if a.kind.Float? || a.kind.Double? then FloatVal(bs)
    else if IsSignedKind(a.kind) then IntVal(ToSigned(FromBE(bs), a.width))
    else IntVal(FromBE(bs))
  }

  /** `struct.pack` pads an `s` string with zero bytes or cuts it to width. */
  function PadOrTruncate(bs: seq<Byte>, n: nat): (r: seq<Byte>)
    ensures |r| == n
    ensures forall k :: 0 <= k < n ==> r[k] == (if k < |bs| then bs[k] else 0)
  {
    if |bs| >= n then bs[..n] else bs + seq(n - |bs|, _ => 0)
  }

  /** Whether `struct.pack` accepts the value for the atom. */
  predicate Fits(a: Atom, v: Value)
  {
    if a.kind.Char? then v.BytesVal? && |v.bytes| == a.width
    else if a.kind.Str? then v.BytesVal?
    else if a.kind.Float? || a.kind.Double? then v.FloatVal? && |v.word| == a.width
    else if IsSignedKind(a.kind) then v.IntVal? && InSigned(v.i, a.width)
    else v.IntVal? && 0 <= v.i < Pow256(a.width)
  }

  /** Fits, and a byte string has exactly the declared width (so that packing
      neither pads nor truncates it). */
  predicate ExactFit(a: Atom, v: Value)
  {
    Fits(a, v) && (a.kind.Str? ==> |v.bytes| == a.width)
  }

  function PackAtom(a: Atom, v: Value): (r: Result<seq<Byte>>)
    ensures r.Ok? <==> Fits(a, v)
    ensures r.Ok? ==> |r.value| == a.width
  {
    if !Fits(a, v) then Err(BadValue)
    else if a.kind.Char? then Ok(v.bytes)
    else if a.kind.Str? then Ok(PadOrTruncate(v.bytes, a.width))
    else if a.kind.Float? || a.kind.Double? then Ok(v.word)
    else if IsSignedKind(a.kind) then Ok(ToBE(FromSigned(v.i, a.width), a.width))
    else Ok(ToBE(v.i, a.width))
  }

  lemma {:induction false} PackUnpackAtom(a: Atom, bs: seq<Byte>)
    requires |bs| == a.width
    ensures ExactFit(a, UnpackAtom(a, bs))
    ensures PackAtom(a, UnpackAtom(a, bs)) == Ok(bs)
  {
    if a.kind.Str? {
      assert PadOrTruncate(bs, a.width) == bs;
    } else if IsIntegerKind(a.kind) {
      ToFromBE(bs);
      if IsSignedKind(a.kind) {
        SignedRoundTrip(FromBE(bs), a.width);
        assert FromSigned(ToSigned(FromBE(bs), a.width), a.width) == FromBE(bs);
      }
    }
  }

  lemma {:induction false} UnpackPackAtom(a: Atom, v: Value)
    requires ExactFit(a, v)
    ensures PackAtom(a, v).Ok?
    ensures UnpackAtom(a, PackAtom(a, v).value) == v
  {
    if IsIntegerKind(a.kind) {
      if IsSignedKind(a.kind) {
        SignedRoundTrip'(v.i, a.width);
        FromToBE(FromSigned(v.i, a.width), a.width);
      } else {
        FromToBE(v.i, a.width);
      }
    }
  }

  // ----------------------------------------------------- flat atom lists

  /** `struct.unpack` of a buffer of exactly the format's size. */
  function UnpackAtoms(atoms: seq<Atom>, bs: seq<Byte>): (vs: seq<Value>)
    requires |bs| == AtomsWidth(atoms)
    ensures |vs| == |atoms|
  {
    if |atoms| == 0 then []
    else
      var w := atoms[0].width;
      [UnpackAtom(atoms[0], bs[..w])] + UnpackAtoms(atoms[1..], bs[w..])
  }

  function PackEach(atoms: seq<Atom>, vs: seq<Value>): (r: Result<seq<Byte>>)
    requires |vs| == |atoms|
    ensures r.Ok? ==> |r.value| == AtomsWidth(atoms)
  {
    if |atoms| == 0 then Ok([])
    else
      var head :- PackAtom(atoms[0], vs[0]);
      var tail :- PackEach(atoms[1..], vs[1..]);
      Ok(head + tail)
  }

  /** `struct.pack`: the value count is checked first, then each value. */
  function PackAtoms(atoms: seq<Atom>, vs: seq<Value>): (r: Result<seq<Byte>>)
    ensures |vs| != |atoms| ==> r == Err(ArgumentCount)
    ensures r.Ok? ==> |r.value| == AtomsWidth(atoms)
  {
    if |vs| != |atoms| then Err(ArgumentCount) else PackEach(atoms, vs)
  }

  predicate AllExactFit(atoms: seq<Atom>, vs: seq<Value>)
  {
    |vs| == |atoms| && forall k :: 0 <= k < |atoms| ==> ExactFit(atoms[k], vs[k])
  }

  lemma {:induction false} PackUnpackAtoms(atoms: seq<Atom>, bs: seq<Byte>)
    requires |bs| == AtomsWidth(atoms)
    ensures AllExactFit(atoms, UnpackAtoms(atoms, bs))
    ensures PackAtoms(atoms, UnpackAtoms(atoms, bs)) == Ok(bs)
  {
    if |atoms| > 0 {
      var w := atoms[0].width;
      PackUnpackAtom(atoms[0], bs[..w]);
      PackUnpackAtoms(atoms[1..], bs[w..]);
      assert bs == bs[..w] + bs[w..];
    }
  }

  lemma {:induction false} UnpackPackAtoms(atoms: seq<Atom>, vs: seq<Value>)
    requires AllExactFit(atoms, vs)
    ensures PackAtoms(atoms, vs).Ok?
    ensures UnpackAtoms(atoms, PackAtoms(atoms, vs).value) == vs
  {
    if |atoms| > 0 {
      UnpackPackAtom(atoms[0], vs[0]);
      assert AllExactFit(atoms[1..], vs[1..]) by {
        forall k | 0 <= k < |atoms| - 1
          ensures ExactFit(atoms[1..][k], vs[1..][k])
        {
          assert ExactFit(atoms[k + 1], vs[k + 1]);
        }
      }
      UnpackPackAtoms(atoms[1..], vs[1..]);
      var head := PackAtom(atoms[0], vs[0]).value;
      var tail := PackEach(atoms[1..], vs[1..]).value;
      var bs := head + tail;
      assert bs[..atoms[0].width] == head;
      assert bs[atoms[0].width..] == tail;
      assert vs == [vs[0]] + vs[1..];
    }
  }

  // ------------------------------------------------------------ grouping

  /** Python's `vals[lo:hi]` for 0 <= lo <= hi. */
  function Slice(vals: seq<Value>, lo: nat, hi: nat): seq<Value>
    requires lo <= hi
  {
    var a := if lo <= |vals| then lo else |vals|;
    var b := if hi <= |vals| then hi else |vals|;
    vals[a..b]
  }

  /** The key loop of `_parse_from_specification`, producing (key, field)
      pairs in table order; `i` is the running index into the flat values. */
  function GroupFrom(t: Table, vals: seq<Value>, i: nat): Result<seq<(string, Field)>>
    decreases |t|
  {
    if |t| == 0 then Ok([])
    else if IsRepeatField(t[0].code) then
      var n := Count(t[0].code);
      var rest :- GroupFrom(t[1..], vals, i + n);
      Ok([(t[0].name, Group(Slice(vals, i, i + n)))] + rest)
    else if i < |vals| then
      var rest :- GroupFrom(t[1..], vals, i + 1);
      Ok([(t[0].name, Single(vals[i]))] + rest)
    else Err(IndexOutOfRange)
  }

  /** Successive `data[key] = ...` assignments: a later key overwrites. */
  function ToRecord(pairs: seq<(string, Field)>): Record
  {
    if |pairs| == 0 then map[]
    else ToRecord(pairs[..|pairs| - 1])[pairs[|pairs| - 1].0 := pairs[|pairs| - 1].1]
  }

  /** `struct.unpack` of the whole table format. */
  function UnpackTable(t: Table, bs: seq<Byte>): seq<Value>
    requires |bs| == TableWidth(t)
  {
    AtomsTableWidth(t);
    UnpackAtoms(Atoms(t), bs)
  }

  /** `_parse_from_specification(file, t)` on a byte sequence with a cursor:
      the decoded record and the cursor after it. */
  function ParseSpec(t: Table, data: seq<Byte>, pos: nat): Result<(Record, nat)>
  {
    var w := TableWidth(t);
    if pos + w > |data| then Err(Truncated)
    else
      var pairs :- GroupFrom(t, UnpackTable(t, data[pos..pos + w]), 0);
      Ok((ToRecord(pairs), pos + w))
  }

  // ----------------------------------------------------------- flattening

  function FieldValues(name: string, c: Code, f: Field): Result<seq<Value>>
  {
    if IsRepeatField(c) then
      if f.Group? then Ok(f.vs) else Err(ShapeMismatch(name))
    else
      if f.Single? then Ok([f.v]) else Err(ShapeMismatch(name))
  }

  /** The `data_1d` list `_write_to_specification` builds. */
  function Flatten(t: Table, m: Record): Result<seq<Value>>
  {
    if |t| == 0 then Ok([])
    else if t[0].name !in m then Err(MissingField(t[0].name))
    else
      var here :- FieldValues(t[0].name, t[0].code, m[t[0].name]);
      var rest :- Flatten(t[1..], m);
      Ok(here + rest)
  }

  /** `_write_to_specification(file, t, m)`: the bytes it writes. */
  function WriteSpec(t: Table, m: Record): Result<seq<Byte>>
  {
    var flat :- Flatten(t, m);
    PackAtoms(Atoms(t), flat)
  }

  // ----------------------------------------------------------- conformance

  /** A field that writes back to exactly the bytes it would decode from. */
  predicate FieldConforms(c: Code, f: Field)
  {
    if IsRepeatField(c) then
      f.Group? && |f.vs| == Count(c)
      && forall k :: 0 <= k < |f.vs| ==> ExactFit(Atom(c.kind, ItemSize(c.kind)), f.vs[k])
    else
      f.Single? && ValueCount(c) == 1 && ExactFit(CodeAtoms(c)[0], f.v)
  }

  /** The record has exactly the table's keys and each field has the declared
      shape: string fields of exactly the declared width, repeat fields of
      exactly Count elements, numbers in range. */
  predicate Conforms(t: Table, m: Record)
  {
    && m.Keys == NameSet(t)
    && forall k :: 0 <= k < |t| ==> FieldConforms(t[k].code, m[t[k].name])
  }

  function PairsValues(pairs: seq<(string, Field)>): seq<Value>
  {
    if |pairs| == 0 then []
    else FieldFlat(pairs[0].1) + PairsValues(pairs[1..])
  }

  lemma {:induction false} ToRecordLookup(pairs: seq<(string, Field)>, k: nat)
    requires k < |pairs|
    requires forall a, b :: 0 <= a < b < |pairs| ==> pairs[a].0 != pairs[b].0
    ensures pairs[k].0 in ToRecord(pairs)
    ensures ToRecord(pairs)[pairs[k].0] == pairs[k].1
  {
    if k < |pairs| - 1 {
      ToRecordLookup(pairs[..|pairs| - 1], k);
    }
  }

  lemma {:induction false} ToRecordKeys(pairs: seq<(string, Field)>)
    ensures ToRecord(pairs).Keys == (set k | 0 <= k < |pairs| :: pairs[k].0)
  {
    if |pairs| > 0 {
      ToRecordKeys(pairs[..|pairs| - 1]);
      var last := |pairs| - 1;
      assert (set k | 0 <= k < |pairs| :: pairs[k].0)
          == (set k | 0 <= k < last :: pairs[..last][k].0) + {pairs[last].0};
    }
  }

  lemma {:induction false} SliceAll(vals: seq<Value>, lo: nat, hi: nat)
    requires lo <= hi <= |vals|
    ensures Slice(vals, lo, hi) == vals[lo..hi]
  {
  }

  lemma {:induction false} AllExactFitSplit(a1: seq<Atom>, a2: seq<Atom>, vs: seq<Value>)
    requires AllExactFit(a1 + a2, vs)
    ensures AllExactFit(a1, vs[..|a1|]) && AllExactFit(a2, vs[|a1|..])
  {
    forall k | 0 <= k < |a2|
      ensures ExactFit(a2[k], vs[|a1|..][k])
    {
      assert (a1 + a2)[|a1| + k] == a2[k];
    }
    forall k | 0 <= k < |a1|
      ensures ExactFit(a1[k], vs[..|a1|][k])
    {
      assert (a1 + a2)[k] == a1[k];
    }
  }

  lemma {:induction false} AllExactFitJoin(a1: seq<Atom>, a2: seq<Atom>, v1: seq<Value>, v2: seq<Value>)
    requires AllExactFit(a1, v1) && AllExactFit(a2, v2)
    ensures AllExactFit(a1 + a2, v1 + v2)
  {
    forall k | 0 <= k < |a1| + |a2|
      ensures ExactFit((a1 + a2)[k], (v1 + v2)[k])
    {
      if k >= |a1| {
        assert (a1 + a2)[k] == a2[k - |a1|] && (v1 + v2)[k] == v2[k - |a1|];
      }
    }
  }

  lemma {:induction false} WellGroupedTail(t: Table)
    requires |t| > 0 && WellGrouped(t)
    ensures WellGrouped(t[1..])
  {
    forall k | 0 <= k < |t| - 1
      ensures IsRepeatField(t[1..][k].code) || ValueCount(t[1..][k].code) == 1
    {
      assert t[1..][k] == t[k + 1];
    }
  }

  /** How the loop groups the values of one code. */
  function HeadField(c: Code, hv: seq<Value>): Field
    requires |hv| > 0 || IsRepeatField(c)
  {
    if IsRepeatField(c) then Group(hv) else Single(hv[0])
  }

  /** The values of one code, grouped as the loop groups them, conform. */
  lemma {:induction false} HeadFieldConforms(c: Code, hv: seq<Value>)
    requires IsRepeatField(c) || ValueCount(c) == 1
    requires AllExactFit(CodeAtoms(c), hv)
    ensures FieldConforms(c, HeadField(c, hv))
  {
    if IsRepeatField(c) {
      forall k | 0 <= k < |hv|
        ensures ExactFit(Atom(c.kind, ItemSize(c.kind)), hv[k])
      {
        assert CodeAtoms(c)[k] == Atom(c.kind, ItemSize(c.kind));
      }
    }
  }

  /** The converse: a conforming field's values fit the code's atoms. */
  lemma {:induction false} HeadFieldFits(c: Code, f: Field)
    requires FieldConforms(c, f)
    ensures AllExactFit(CodeAtoms(c), FieldFlat(f))
  {
    if IsRepeatField(c) {
      forall k | 0 <= k < |f.vs|
        ensures ExactFit(CodeAtoms(c)[k], f.vs[k])
      {
        assert CodeAtoms(c)[k] == Atom(c.kind, ItemSize(c.kind));
      }
    }
  }

  /** One step of the grouping loop on a field that fits the remaining
      values, the next field's values starting at `j`. */
  lemma {:induction false} GroupFromCons(t: Table, vals: seq<Value>, i: nat, j: nat)
    requires |t| > 0
    requires IsRepeatField(t[0].code) || ValueCount(t[0].code) == 1
    requires j == i + ValueCount(t[0].code) && j <= |vals|
    requires GroupFrom(t[1..], vals, j).Ok?
    ensures GroupFrom(t, vals, i)
         == Ok([(t[0].name, HeadField(t[0].code, vals[i..j]))] + GroupFrom(t[1..], vals, j).value)
  {
    if IsRepeatField(t[0].code) {
      SliceAll(vals, i, j);
    }
  }

  /** The pairs name the table's keys in order and conform to its codes. */
  predicate PairsMatch(t: Table, pairs: seq<(string, Field)>)
  {
    |pairs| == |t|
    && forall k :: 0 <= k < |t| ==> pairs[k].0 == t[k].name && FieldConforms(t[k].code, pairs[k].1)
  }

  lemma {:induction false} PairsMatchCons(t: Table, f: Field, rest: seq<(string, Field)>)
    requires |t| > 0 && FieldConforms(t[0].code, f) && PairsMatch(t[1..], rest)
    ensures PairsMatch(t, [(t[0].name, f)] + rest)
  {
    var pairs := [(t[0].name, f)] + rest;
    forall k | 0 <= k < |t|
      ensures pairs[k].0 == t[k].name && FieldConforms(t[k].code, pairs[k].1)
    {
      if k > 0 {
        assert pairs[k] == rest[k - 1] && t[k] == t[1..][k - 1];
      }
    }
  }

  /** On a well-grouped table the grouping loop consumes the values exactly,
      one field per entry, each field conforming to its code. */
  lemma {:induction false} GroupFromSound(t: Table, vals: seq<Value>, i: nat)
    requires WellGrouped(t)
    requires i + TableValueCount(t) == |vals|
    requires AllExactFit(Atoms(t), vals[i..])
    ensures GroupFrom(t, vals, i).Ok?
    ensures PairsMatch(t, GroupFrom(t, vals, i).value)
    ensures PairsValues(GroupFrom(t, vals, i).value) == vals[i..]
  {
    if |t| > 0 {
      var j := i + ValueCount(t[0].code);
      GroupFromSplit(t, vals, i, j);
      GroupFromSound(t[1..], vals, j);
      GroupFromStep(t, vals, i, j, GroupFrom(t[1..], vals, j).value);
    }
  }

  /** The values left for a well-grouped table split into those of its
      first entry and those of the rest, each fitting its atoms. */
  lemma {:induction false} GroupFromSplit(t: Table, vals: seq<Value>, i: nat, j: nat)
    requires |t| > 0 && WellGrouped(t) && j == i + ValueCount(t[0].code)
    requires i + TableValueCount(t) == |vals|
    requires AllExactFit(Atoms(t), vals[i..])
    ensures IsRepeatField(t[0].code) || ValueCount(t[0].code) == 1
    ensures WellGrouped(t[1..])
    ensures j + TableValueCount(t[1..]) == |vals|
    ensures AllExactFit(CodeAtoms(t[0].code), vals[i..j])
    ensures AllExactFit(Atoms(t[1..]), vals[j..])
  {
    var n := ValueCount(t[0].code);
    AtomsCount(t[1..]);
    WellGroupedTail(t);
    AllExactFitSplit(CodeAtoms(t[0].code), Atoms(t[1..]), vals[i..]);
    assert vals[i..][n..] == vals[j..];
    assert vals[i..][..n] == vals[i..j];
  }

  lemma {:induction false} GroupFromStep(t: Table, vals: seq<Value>, i: nat, j: nat, rest: seq<(string, Field)>)
    requires |t| > 0 && (IsRepeatField(t[0].code) || ValueCount(t[0].code) == 1)
    requires j == i + ValueCount(t[0].code) && j <= |vals|
    requires AllExactFit(CodeAtoms(t[0].code), vals[i..j])
    requires GroupFrom(t[1..], vals, j) == Ok(rest)
    requires PairsMatch(t[1..], rest) && PairsValues(rest) == vals[j..]
    ensures GroupFrom(t, vals, i).Ok?
    ensures PairsMatch(t, GroupFrom(t, vals, i).value)
    ensures PairsValues(GroupFrom(t, vals, i).value) == vals[i..]
  {
    var c := t[0].code;
    var head := vals[i..j];
    HeadFieldConforms(c, head);
    var f := HeadField(c, head);
    GroupFromCons(t, vals, i, j);
    PairsMatchCons(t, f, rest);
    var pairs := [(t[0].name, f)] + rest;
    assert GroupFrom(t, vals, i) == Ok(pairs);
    HeadFieldFlat(c, head);
    PairsValuesCons(pairs, rest);
    SliceSplit(vals, i, j);
  }

  lemma {:induction false} SliceSplit<T>(vals: seq<T>, i: nat, j: nat)
    requires i <= j <= |vals|
    ensures vals[i..] == vals[i..j] + vals[j..]
  {
  }

  lemma {:induction false} HeadFieldFlat(c: Code, hv: seq<Value>)
    requires IsRepeatField(c) || |hv| == 1
    ensures FieldFlat(HeadField(c, hv)) == hv
  {
  }

  lemma {:induction false} PairsValuesCons(pairs: seq<(string, Field)>, rest: seq<(string, Field)>)
    requires |pairs| > 0 && pairs[1..] == rest
    ensures PairsValues(pairs) == FieldFlat(pairs[0].1) + PairsValues(rest)
  {
  }

  /** Flattening a record whose fields are, key by key, the given pairs gives
      the pairs' values in order. */
  lemma {:induction false} FlattenPairs(t: Table, m: Record, pairs: seq<(string, Field)>)
    requires PairsMatch(t, pairs)
    requires forall k :: 0 <= k < |t| ==> t[k].name in m && m[t[k].name] == pairs[k].1
    ensures Flatten(t, m) == Ok(PairsValues(pairs))
  {
    if |t| > 0 {
      PairsMatchTail(t, pairs);
      FlattenPairs(t[1..], m, pairs[1..]);
    }
  }

  function FieldsOf(t: Table, m: Record): (pairs: seq<(string, Field)>)
    requires forall k :: 0 <= k < |t| ==> t[k].name in m
    ensures |pairs| == |t|
    ensures forall k :: 0 <= k < |t| ==> pairs[k] == (t[k].name, m[t[k].name])
  {
    if |t| == 0 then [] else [(t[0].name, m[t[0].name])] + FieldsOf(t[1..], m)
  }

  /** The flat values of conforming fields fit the table's atoms exactly. */
  lemma {:induction false} PairsValuesFit(t: Table, pairs: seq<(string, Field)>)
    requires PairsMatch(t, pairs)
    ensures AllExactFit(Atoms(t), PairsValues(pairs))
  {
    if |t| > 0 {
      PairsMatchTail(t, pairs);
      PairsValuesFit(t[1..], pairs[1..]);
      HeadFieldFits(t[0].code, pairs[0].1);
      AllExactFitJoin(CodeAtoms(t[0].code), Atoms(t[1..]), FieldFlat(pairs[0].1), PairsValues(pairs[1..]));
    }
  }

  lemma {:induction false} PairsMatchTail(t: Table, pairs: seq<(string, Field)>)
    requires |t| > 0 && PairsMatch(t, pairs)
    ensures PairsMatch(t[1..], pairs[1..])
  {
    forall k | 0 <= k < |t| - 1
      ensures pairs[1..][k].0 == t[1..][k].name && FieldConforms(t[1..][k].code, pairs[1..][k].1)
    {
      assert pairs[1..][k] == pairs[k + 1] && t[1..][k] == t[k + 1];
    }
  }

  lemma {:induction false} SliceConcat<T>(vals: seq<T>, i: nat, a: seq<T>, b: seq<T>)
    requires i + |a| + |b| <= |vals| && vals[i..i + |a| + |b|] == a + b
    ensures vals[i..i + |a|] == a && vals[i + |a|..i + |a| + |b|] == b
  {
    assert vals[i..i + |a|] == vals[i..i + |a| + |b|][..|a|];
    assert vals[i + |a|..i + |a| + |b|] == vals[i..i + |a| + |b|][|a|..];
  }

  function FieldFlat(f: Field): seq<Value>
  {
    if f.Group? then f.vs else [f.v]
  }

  lemma {:induction false} FieldFlatConforms(c: Code, f: Field)
    requires FieldConforms(c, f)
    ensures |FieldFlat(f)| == ValueCount(c)
    ensures HeadField(c, FieldFlat(f)) == f
  {
  }

  /** Grouping the flat values of matching pairs gives the pairs back. */
  lemma {:induction false} GroupPairsValues(t: Table, pairs: seq<(string, Field)>, vals: seq<Value>, i: nat)
    requires PairsMatch(t, pairs)
    requires i + |PairsValues(pairs)| <= |vals|
    requires vals[i..i + |PairsValues(pairs)|] == PairsValues(pairs)
    ensures GroupFrom(t, vals, i) == Ok(pairs)
  {
    if |t| > 0 {
      var hv := FieldFlat(pairs[0].1);
      var tv := PairsValues(pairs[1..]);
      var j := i + |hv|;
      assert PairsValues(pairs) == hv + tv;
      SliceConcat(vals, i, hv, tv);
      PairsMatchTail(t, pairs);
      GroupPairsValues(t[1..], pairs[1..], vals, j);
      GroupPairsHead(t, pairs, vals, i, j);
    }
  }

  /** The first pair regrouped in front of the rest. */
  lemma {:induction false} GroupPairsHead(t: Table, pairs: seq<(string, Field)>, vals: seq<Value>, i: nat, j: nat)
    requires |t| > 0 && PairsMatch(t, pairs)
    requires j == i + |FieldFlat(pairs[0].1)| && j <= |vals| && vals[i..j] == FieldFlat(pairs[0].1)
    requires GroupFrom(t[1..], vals, j) == Ok(pairs[1..])
    ensures GroupFrom(t, vals, i) == Ok(pairs)
  {
    var f := pairs[0].1;
    FieldFlatConforms(t[0].code, f);
    GroupFromCons(t, vals, i, j);
    assert pairs == [(t[0].name, f)] + pairs[1..];
  }

  lemma {:induction false} DistinctPairNames(t: Table, pairs: seq<(string, Field)>)
    requires DistinctNames(t) && |pairs| == |t|
    requires forall k :: 0 <= k < |t| ==> pairs[k].0 == t[k].name
    ensures forall a, b :: 0 <= a < b < |pairs| ==> pairs[a].0 != pairs[b].0
    ensures (set k | 0 <= k < |pairs| :: pairs[k].0) == NameSet(t)
  {
  }

  /** The record built from matching pairs conforms, key by key. */
  lemma {:induction false} RecordOfPairs(t: Table, pairs: seq<(string, Field)>)
    requires DistinctNames(t) && PairsMatch(t, pairs)
    ensures forall k :: 0 <= k < |t| ==> t[k].name in ToRecord(pairs) && ToRecord(pairs)[t[k].name] == pairs[k].1
    ensures Conforms(t, ToRecord(pairs))
  {
    DistinctPairNames(t, pairs);
    ToRecordKeys(pairs);
    forall k | 0 <= k < |t|
      ensures t[k].name in ToRecord(pairs) && ToRecord(pairs)[t[k].name] == pairs[k].1
    {
      ToRecordLookup(pairs, k);
    }
  }

  lemma {:induction false} ToRecordOfFields(t: Table, m: Record)
    requires DistinctNames(t) && m.Keys == NameSet(t)
    ensures ToRecord(FieldsOf(t, m)) == m
  {
    assert forall k :: 0 <= k < |t| ==> t[k].name in NameSet(t);
    var pairs := FieldsOf(t, m);
    DistinctPairNames(t, pairs);
    ToRecordKeys(pairs);
    forall key | key in m
      ensures ToRecord(pairs)[key] == m[key]
    {
      var k :| 0 <= k < |t| && t[k].name == key;
      ToRecordLookup(pairs, k);
    }
  }

  /** Where a parse leaves the cursor: a table needs its whole width, and a
      successful parse consumes exactly that width. */
  lemma {:induction false} ParseSpecCursor(t: Table, data: seq<Byte>, pos: nat)
    ensures pos + TableWidth(t) > |data| ==> ParseSpec(t, data, pos) == Err(Truncated)
    ensures ParseSpec(t, data, pos).Ok? ==> ParseSpec(t, data, pos).value.1 == pos + TableWidth(t)
  {
  }

  lemma {:induction false} ParseSpecOk(t: Table, data: seq<Byte>, pos: nat)
    requires pos + TableWidth(t) <= |data|
    requires GroupFrom(t, UnpackTable(t, data[pos..pos + TableWidth(t)]), 0).Ok?
    ensures ParseSpec(t, data, pos)
         == Ok((ToRecord(GroupFrom(t, UnpackTable(t, data[pos..pos + TableWidth(t)]), 0).value), pos + TableWidth(t)))
  {
  }

  /** Parse-then-write: decoding `TableWidth(t)` bytes and writing the record
      back yields those bytes, and the record conforms to the table. */
  lemma {:induction false} ParseThenWrite(t: Table, data: seq<Byte>, pos: nat)
    requires WellGrouped(t) && DistinctNames(t)
    requires pos + TableWidth(t) <= |data|
    ensures ParseSpec(t, data, pos).Ok?
    ensures ParseSpec(t, data, pos).value.1 == pos + TableWidth(t)
    ensures Conforms(t, ParseSpec(t, data, pos).value.0)
    ensures WriteSpec(t, ParseSpec(t, data, pos).value.0) == Ok(data[pos..pos + TableWidth(t)])
  {
    var pairs := ParsedPairsWrite(t, data[pos..pos + TableWidth(t)]);
    ParseSpecOfPairs(t, data, pos, pairs);
  }

  lemma {:induction false} ParseSpecOfPairs(t: Table, data: seq<Byte>, pos: nat, pairs: seq<(string, Field)>)
    requires pos + TableWidth(t) <= |data|
    requires GroupFrom(t, UnpackTable(t, data[pos..pos + TableWidth(t)]), 0) == Ok(pairs)
    ensures ParseSpec(t, data, pos) == Ok((ToRecord(pairs), pos + TableWidth(t)))
  {
  }

  /** The grouped fields of a well-grouped table's decoding write back to the
      decoded bytes. */
  lemma {:induction false} ParsedPairsWrite(t: Table, bs: seq<Byte>) returns (pairs: seq<(string, Field)>)
    requires WellGrouped(t) && DistinctNames(t)
    requires |bs| == TableWidth(t)
    ensures GroupFrom(t, UnpackTable(t, bs), 0) == Ok(pairs)
    ensures Conforms(t, ToRecord(pairs))
    ensures WriteSpec(t, ToRecord(pairs)) == Ok(bs)
  {
    AtomsTableWidth(t);
    var atoms := Atoms(t);
    var vals := UnpackTable(t, bs);
    PackUnpackAtoms(atoms, bs);
    AtomsCount(t);
    assert vals[0..] == vals;
    GroupFromSound(t, vals, 0);
    pairs := GroupFrom(t, vals, 0).value;
    RecordOfPairs(t, pairs);
    var m := ToRecord(pairs);
    FlattenPairs(t, m, pairs);
    assert Flatten(t, m) == Ok(vals);
  }

  /** Write-then-parse: a conforming record is written to exactly
      `TableWidth(t)` bytes, and wherever those bytes sit in a larger buffer
      they decode back to the same record. */
  lemma {:induction false} WriteThenParse(t: Table, m: Record, data: seq<Byte>, pos: nat)
    requires WellGrouped(t) && DistinctNames(t) && Conforms(t, m)
    ensures WriteSpec(t, m).Ok?
    ensures |WriteSpec(t, m).value| == TableWidth(t)
    ensures pos + TableWidth(t) <= |data| && data[pos..pos + TableWidth(t)] == WriteSpec(t, m).value
            ==> ParseSpec(t, data, pos) == Ok((m, pos + TableWidth(t)))
  {
    var pairs := ConformingPairs(t, m);
    var bs := WrittenBytes(t, m, pairs);
    if pos + TableWidth(t) <= |data| && data[pos..pos + TableWidth(t)] == bs {
      WrittenBytesParse(t, m, pairs, bs, data, pos);
    }
  }

  /** A conforming record's fields, in table order, match the table and
      flatten to the values the writer packs. */
  lemma {:induction false} ConformingPairs(t: Table, m: Record) returns (pairs: seq<(string, Field)>)
    requires Conforms(t, m)
    ensures PairsMatch(t, pairs)
    ensures ToRecordInput(t, m, pairs)
    ensures Flatten(t, m) == Ok(PairsValues(pairs))
    ensures AllExactFit(Atoms(t), PairsValues(pairs))
  {
    assert forall k :: 0 <= k < |t| ==> t[k].name in NameSet(t);
    pairs := FieldsOf(t, m);
    FlattenPairs(t, m, pairs);
    PairsValuesFit(t, pairs);
  }

  /** The fields of `pairs` are exactly those of `m`, in table order. */
  predicate ToRecordInput(t: Table, m: Record, pairs: seq<(string, Field)>)
  {
    && m.Keys == NameSet(t)
    && (forall k :: 0 <= k < |t| ==> t[k].name in m)
    && pairs == FieldsOf(t, m)
  }

  /** The writer packs the flat values into `TableWidth(t)` bytes that
      unpack to those values again. */
  lemma {:induction false} WrittenBytes(t: Table, m: Record, pairs: seq<(string, Field)>) returns (bs: seq<Byte>)
    requires Flatten(t, m) == Ok(PairsValues(pairs))
    requires AllExactFit(Atoms(t), PairsValues(pairs))
    ensures WriteSpec(t, m) == Ok(bs)
    ensures |bs| == TableWidth(t)
    ensures UnpackTable(t, bs) == PairsValues(pairs)
  {
    var flat := PairsValues(pairs);
    UnpackPackAtoms(Atoms(t), flat);
    AtomsTableWidth(t);
    bs := PackAtoms(Atoms(t), flat).value;
  }

  /** Bytes that unpack to a conforming record's flat values decode back to
      that record. */
  lemma {:induction false} WrittenBytesParse(t: Table, m: Record, pairs: seq<(string, Field)>, bs: seq<Byte>,
                          data: seq<Byte>, pos: nat)
    requires DistinctNames(t) && PairsMatch(t, pairs) && ToRecordInput(t, m, pairs)
    requires |bs| == TableWidth(t) && UnpackTable(t, bs) == PairsValues(pairs)
    requires pos + TableWidth(t) <= |data| && data[pos..pos + TableWidth(t)] == bs
    ensures ParseSpec(t, data, pos) == Ok((m, pos + TableWidth(t)))
  {
    var flat := PairsValues(pairs);
    assert flat[0..0 + |flat|] == flat;
    GroupPairsValues(t, pairs, flat, 0);
    ToRecordOfFields(t, m);
    ParseSpecOk(t, data, pos);
  }

  /** The first field of a decoded record is the table's first value,
      unpacked from the record's first bytes. */
  lemma {:induction false} ParseSpecFirst(t: Table, data: seq<Byte>, pos: nat)
    requires WellGrouped(t) && DistinctNames(t) && |t| > 0
    requires !IsRepeatField(t[0].code)
    requires pos + TableWidth(t) <= |data|
    ensures ParseSpec(t, data, pos).Ok?
    ensures CodeWidth(t[0].code) <= TableWidth(t)
    ensures t[0].name in ParseSpec(t, data, pos).value.0
    ensures ParseSpec(t, data, pos).value.0[t[0].name]
         == Single(UnpackAtom(CodeAtoms(t[0].code)[0], data[pos..pos + CodeWidth(t[0].code)]))
  {
    var pairs := ParsedPairs(t, data, pos);
    FirstField(t, data, pos, pos + TableWidth(t), CodeWidth(t[0].code), pairs);
  }

  /** The same, on the grouped pairs, with the record's end and the first
      field's width as plain positions. */
  lemma {:induction false} FirstField(t: Table, data: seq<Byte>, pos: nat, end: nat, w: nat, pairs: seq<(string, Field)>)
    requires WellGrouped(t) && DistinctNames(t) && |t| > 0
    requires !IsRepeatField(t[0].code)
    requires end == pos + TableWidth(t) && end <= |data| && w == CodeWidth(t[0].code)
    requires GroupFrom(t, UnpackTable(t, data[pos..end]), 0) == Ok(pairs)
    requires PairsMatch(t, pairs)
    ensures pos + w <= end && |CodeAtoms(t[0].code)| > 0
    ensures t[0].name in ToRecord(pairs)
    ensures ToRecord(pairs)[t[0].name] == Single(UnpackAtom(CodeAtoms(t[0].code)[0], data[pos..pos + w]))
  {
    var bs := data[pos..end];
    FirstPair(t, bs, pairs);
    assert bs[..w] == data[pos..pos + w];
    FirstOfRecord(t, pairs, pairs[0].1);
  }

  /** A record built from matching pairs maps the first key to the first field. */
  lemma {:induction false} FirstOfRecord(t: Table, pairs: seq<(string, Field)>, f: Field)
    requires DistinctNames(t) && |t| > 0 && PairsMatch(t, pairs) && pairs[0].1 == f
    ensures t[0].name in ToRecord(pairs) && ToRecord(pairs)[t[0].name] == f
  {
    DistinctPairNames(t, pairs);
    ToRecordLookup(pairs, 0);
  }

  /** The pairs a decoding groups its values into. */
  lemma {:induction false} ParsedPairs(t: Table, data: seq<Byte>, pos: nat) returns (pairs: seq<(string, Field)>)
    requires WellGrouped(t) && pos + TableWidth(t) <= |data|
    ensures GroupFrom(t, UnpackTable(t, data[pos..pos + TableWidth(t)]), 0) == Ok(pairs)
    ensures PairsMatch(t, pairs)
    ensures ParseSpec(t, data, pos) == Ok((ToRecord(pairs), pos + TableWidth(t)))
  {
    var bs := data[pos..pos + TableWidth(t)];
    var vals := UnpackTable(t, bs);
    AtomsTableWidth(t);
    PackUnpackAtoms(Atoms(t), bs);
    AtomsCount(t);
    assert vals[0..] == vals;
    GroupFromSound(t, vals, 0);
    pairs := GroupFrom(t, vals, 0).value;
  }

  lemma {:induction false} FirstPair(t: Table, bs: seq<Byte>, pairs: seq<(string, Field)>)
    requires WellGrouped(t) && |t| > 0 && !IsRepeatField(t[0].code)
    requires |bs| == TableWidth(t)
    requires GroupFrom(t, UnpackTable(t, bs), 0) == Ok(pairs)
    ensures CodeWidth(t[0].code) <= |bs|
    ensures |pairs| > 0 && pairs[0] == (t[0].name, Single(UnpackAtom(CodeAtoms(t[0].code)[0], bs[..CodeWidth(t[0].code)])))
  {
    AtomsTableWidth(t);
    var c := t[0].code;
    assert ValueCount(c) == 1;
    var atoms := Atoms(t);
    assert atoms == CodeAtoms(c) + Atoms(t[1..]);
    var w := atoms[0].width;
    assert w == CodeWidth(c) by {
      CodeAtomsWidth(c);
      assert CodeAtoms(c) == [atoms[0]];
    }
    var vals := UnpackTable(t, bs);
    assert vals[0] == UnpackAtom(atoms[0], bs[..w]);
  }

  /** `_parse_from_specification` reads nothing beyond the table's width:
      the outcome depends only on those bytes. */
  lemma {:induction false} ParseSpecLocal(t: Table, data: seq<Byte>, data': seq<Byte>, pos: nat, pos': nat)
    requires pos + TableWidth(t) <= |data| && pos' + TableWidth(t) <= |data'|
    requires data[pos..pos + TableWidth(t)] == data'[pos'..pos' + TableWidth(t)]
    ensures ParseSpec(t, data, pos).Ok? <==> ParseSpec(t, data', pos').Ok?
    ensures ParseSpec(t, data, pos).Ok? ==>
      ParseSpec(t, data', pos').value == (ParseSpec(t, data, pos).value.0, pos' + TableWidth(t))
  {
    var g := GroupFrom(t, UnpackTable(t, data[pos..pos + TableWidth(t)]), 0);
    if g.Ok? {
      ParseSpecOfPairs(t, data, pos, g.value);
      ParseSpecOfPairs(t, data', pos', g.value);
    } else {
      ParseSpecOfErr(t, data, pos, g.error);
      ParseSpecOfErr(t, data', pos', g.error);
    }
  }

  lemma {:induction false} ParseSpecOfErr(t: Table, data: seq<Byte>, pos: nat, e: Error)
    requires pos + TableWidth(t) <= |data|
    requires GroupFrom(t, UnpackTable(t, data[pos..pos + TableWidth(t)]), 0) == Err(e)
    ensures ParseSpec(t, data, pos) == Err(e)
  {
  }
}
