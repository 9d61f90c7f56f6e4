/** Python `struct` format codes as used by the IMOD layout tables, in the
    big-endian standard-size mode (`>`): no alignment padding, fixed widths. */
module FormatCodes {
  import opened Wrappers

  /** The format characters the tables use, plus the other numeric ones the
      grouping rule mentions. */
  datatype Kind =
    | Char       // c: one byte, decoded as a length-1 byte string
    | SChar      // b
    | UChar      // B
    | Short      // h
    | UShort     // H
    | Int        // i
    | UInt       // I
    | Long       // l (4 bytes in standard size)
    | ULong      // L
    | LongLong   // q
    | ULongLong  // Q
    | Float      // f
    | Double     // d
    | Str        // s: one byte string of `count` bytes

  /** A field's format code.  `prefix` is the decimal count written before
      the character, if any: `i` is Code(None, Int), `16I` is
      Code(Some(16), UInt), `128s` is Code(Some(128), Str). */
  datatype Code = Code(prefix: Option<nat>, kind: Kind)

  /** One (name, format code) pair of a layout table; a table is a Python
      dict, so its entries are ordered. */
  datatype Entry = Entry(name: string, code: Code)
  type Table = seq<Entry>

  function Count(c: Code): nat
  {
    c.prefix.GetOr(1)
  }

  /** Byte width of one item of the kind. */
  function ItemSize(k: Kind): nat
  {
    match k
    case Char | SChar | UChar | Str => 1
    case Short | UShort => 2
    case Int | UInt | Long | ULong | Float => 4
    case LongLong | ULongLong | Double => 8
  }

  predicate IsSignedKind(k: Kind)
  {
    k.SChar? || k.Short? || k.Int? || k.Long? || k.LongLong?
  }

  predicate IsIntegerKind(k: Kind)
  {
    !(k.Char? || k.Str? || k.Float? || k.Double?)
  }

  /** The characters "iIlLqQfd" of the grouping test. */
  predicate GroupableKind(k: Kind)
  {
    k.Int? || k.UInt? || k.Long? || k.ULong? || k.LongLong? || k.ULongLong? || k.Float? || k.Double?
  }

  /** `value[0].isdigit() and value[-1] in "iIlLqQfd"`: the field is decoded
      as a list of `Count` numbers. */
  predicate IsRepeatField(c: Code)
  {
    c.prefix.Some? && GroupableKind(c.kind)
  }

  /** Number of values `struct.unpack` yields for the code. */
  function ValueCount(c: Code): nat
  {
    if c.kind.Str? then 1 else Count(c)
  }

  /** Bytes `struct` reads or writes for the code. */
  function CodeWidth(c: Code): nat
  {
    match c.kind
    case Char | SChar | UChar | Str => Count(c)
    case Short | UShort => 2 * Count(c)
    case Int | UInt | Long | ULong | Float => 4 * Count(c)
    case LongLong | ULongLong | Double => 8 * Count(c)
  }

  /** An atom is the unit `struct` converts to one value: its kind and width. */
  datatype Atom = Atom(kind: Kind, width: nat)

  function CodeAtoms(c: Code): (r: seq<Atom>)
    ensures |r| == ValueCount(c)
    ensures forall k :: 0 <= k < |r| ==> r[k].kind == c.kind
  {
    if c.kind.Str? then [Atom(Str, Count(c))]
    else Repeat(Atom(c.kind, ItemSize(c.kind)), Count(c))
  }

  /** `n` copies of one atom. */
  function Repeat(a: Atom, n: nat): (r: seq<Atom>)
    ensures |r| == n
    ensures forall k :: 0 <= k < n ==> r[k] == a
  {
    if n == 0 then [] else [a] + Repeat(a, n - 1)
  }

  function Atoms(t: Table): seq<Atom>
  {
    if |t| == 0 then [] else CodeAtoms(t[0].code) + Atoms(t[1..])
  }

  function AtomsWidth(atoms: seq<Atom>): nat
  {
    if |atoms| == 0 then 0 else atoms[0].width + AtomsWidth(atoms[1..])
  }

  /** `Struct(">" + "".join(table.values())).size`. */
  function TableWidth(t: Table): nat
  {
    if |t| == 0 then 0 else CodeWidth(t[0].code) + TableWidth(t[1..])
  }

  function TableValueCount(t: Table): nat
  {
    if |t| == 0 then 0 else ValueCount(t[0].code) + TableValueCount(t[1..])
  }

  function Names(t: Table): seq<string>
  {
    if |t| == 0 then [] else [t[0].name] + Names(t[1..])
  }

  function NameSet(t: Table): set<string>
  {
    set k | 0 <= k < |t| :: t[k].name
  }

  /** Every Python dict has distinct keys. */
  predicate DistinctNames(t: Table)
  {
    forall a, b :: 0 <= a < b < |t| ==> t[a].name != t[b].name
  }

  /** A table whose every entry either is a repeat field or yields exactly one
      value: for those the grouping loop keeps its index in step with the
      unpacked values.  (`32c` in the VIEW table breaks this.) */
  predicate WellGrouped(t: Table)
  {
    forall k :: 0 <= k < |t| ==> IsRepeatField(t[k].code) || ValueCount(t[k].code) == 1
  }

  lemma {:induction false} AtomsCount(t: Table)
    ensures |Atoms(t)| == TableValueCount(t)
  {
    if |t| > 0 {
      AtomsCount(t[1..]);
    }
  }

  lemma {:induction false} CodeAtomsWidth(c: Code)
    ensures AtomsWidth(CodeAtoms(c)) == CodeWidth(c)
  {
    if !c.kind.Str? {
      SameAtomsWidth(CodeAtoms(c), Atom(c.kind, ItemSize(c.kind)));
    }
  }

  lemma {:induction false} SameAtomsWidth(atoms: seq<Atom>, a: Atom)
    requires forall k :: 0 <= k < |atoms| ==> atoms[k] == a
    ensures AtomsWidth(atoms) == |atoms| * a.width
  {
    if |atoms| > 0 {
      SameAtomsWidth(atoms[1..], a);
    }
  }

  lemma {:induction false} AtomsWidthAppend(a: seq<Atom>, b: seq<Atom>)
    ensures AtomsWidth(a + b) == AtomsWidth(a) + AtomsWidth(b)
  {
    if |a| == 0 {
      assert a + b == b;
    } else {
      assert (a + b)[1..] == a[1..] + b;
      AtomsWidthAppend(a[1..], b);
    }
  }

  /** The width of a table is the summed width of its atoms. */
  lemma {:induction false} AtomsTableWidth(t: Table)
    ensures AtomsWidth(Atoms(t)) == TableWidth(t)
  {
    if |t| > 0 {
      AtomsWidthAppend(CodeAtoms(t[0].code), Atoms(t[1..]));
      CodeAtomsWidth(t[0].code);
      AtomsTableWidth(t[1..]);
    }
  }

  lemma {:induction false} TableWidthAppend(a: Table, b: Table)
    ensures TableWidth(a + b) == TableWidth(a) + TableWidth(b)
  {
    if |a| == 0 {
      assert a + b == b;
    } else {
      assert (a + b)[1..] == a[1..] + b;
      TableWidthAppend(a[1..], b);
    }
  }

  /** A run of single-valued fields of one item width `w`. */
  predicate UniformSingles(t: Table, w: nat)
  {
    forall k :: 0 <= k < |t| ==> t[k].code.prefix.None? && ItemSize(t[k].code.kind) == w
  }

  lemma {:induction false} UniformWidth(t: Table, w: nat)
    requires UniformSingles(t, w)
    ensures TableWidth(t) == w * |t|
  {
    if |t| > 0 {
      UniformWidth(t[1..], w);
    }
  }

  /** No name of `a` is a name of `b`. */
  predicate Disjoint(a: Table, b: Table)
  {
    forall i, j :: 0 <= i < |a| && 0 <= j < |b| ==> a[i].name != b[j].name
  }

  lemma {:induction false} DistinctAppend(a: Table, b: Table)
    requires DistinctNames(a) && DistinctNames(b) && Disjoint(a, b)
    ensures DistinctNames(a + b)
  {
    forall x, y | 0 <= x < y < |a + b|
      ensures (a + b)[x].name != (a + b)[y].name
    {
      if y < |a| {
      } else if x < |a| {
        assert (a + b)[y] == b[y - |a|];
      } else {
        assert (a + b)[x] == b[x - |a|] && (a + b)[y] == b[y - |a|];
      }
    }
  }

  lemma {:induction false} DisjointAppend(a: Table, b: Table, c: Table)
    requires Disjoint(a, c) && Disjoint(b, c)
    ensures Disjoint(a + b, c)
  {
    forall x, j | 0 <= x < |a + b| && 0 <= j < |c|
      ensures (a + b)[x].name != c[j].name
    {
      if x >= |a| {
        assert (a + b)[x] == b[x - |a|];
      }
    }
  }

  lemma {:induction false} WellGroupedAppend(a: Table, b: Table)
    requires WellGrouped(a) && WellGrouped(b)
    ensures WellGrouped(a + b)
  {
    forall x | 0 <= x < |a + b|
      ensures IsRepeatField((a + b)[x].code) || ValueCount((a + b)[x].code) == 1
    {
      if x >= |a| {
        assert (a + b)[x] == b[x - |a|];
      }
    }
  }
}
