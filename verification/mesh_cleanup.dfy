/** `cleanup_mesh` of `mesh.py`: a polygon's vertex indices are renumbered
    densely in sorted order, and only the vertices they refer to are kept. */
module MeshCleanup {
  import opened Wrappers

  predicate Increasing(u: seq<int>)
  {
    forall i, j :: 0 <= i < j < |u| ==> u[i] < u[j]
  }

  /** Insertion into an increasing sequence, dropping a duplicate. */
  function Insert(u: seq<int>, x: int): (r: seq<int>)
    requires Increasing(u)
    ensures Increasing(r)
    ensures forall y :: y in r <==> y in u || y == x
  {
    if |u| == 0 then [x]
    else if x < u[0] then [x] + u
    else if x == u[0] then u
    else
      var rest := Insert(u[1..], x);
      assert forall y :: y in u <==> y == u[0] || y in u[1..];
      assert forall y :: y in rest ==> u[0] < y by {
        assert forall k :: 0 <= k < |u[1..]| ==> u[0] < u[1..][k];
      }
      ConsIncreasing(u[0], rest);
      [u[0]] + rest
  }

  /** An increasing sequence stays increasing with a smaller value in front. */
  lemma {:induction false} ConsIncreasing(a: int, s: seq<int>)
    requires Increasing(s) && forall y :: y in s ==> a < y
    ensures Increasing([a] + s)
    ensures forall y :: y in [a] + s <==> y == a || y in s
  {
    var t := [a] + s;
    forall i, j | 0 <= i < j < |t|
      ensures t[i] < t[j]
    {
      assert t[j] == s[j - 1] && s[j - 1] in s;
      if i > 0 {
        assert t[i] == s[i - 1];
      }
    }
  }

  /** `np.unique`: the distinct values, in increasing order. */
  function Unique(xs: seq<int>): (u: seq<int>)
    ensures Increasing(u)
    ensures forall y :: y in u <==> y in xs
  {
    if |xs| == 0 then []
    else
      var init := xs[..|xs| - 1];
      assert xs == init + [xs[|xs| - 1]];
      Insert(Unique(init), xs[|xs| - 1])
  }

  /** The position of a value in an increasing sequence; it is the `i` of
      the loop whose `(indices == unique_indices[i]) * i` term fires. */
  function Rank(u: seq<int>, x: int): (r: nat)
    requires x in u
    ensures r < |u| && u[r] == x
  {
    if u[0] == x then 0 else 1 + Rank(u[1..], x)
  }

  lemma {:induction false} RankOf(u: seq<int>, i: nat)
    requires Increasing(u) && i < |u|
    ensures Rank(u, u[i]) == i
  {
  }

  /** Ranks in an increasing sequence compare as the values do. */
  lemma {:induction false} RankOrder(u: seq<int>, x: int, y: int)
    requires Increasing(u) && x in u && y in u
    ensures x < y <==> Rank(u, x) < Rank(u, y)
    ensures x == y <==> Rank(u, x) == Rank(u, y)
  {
    var rx, ry := Rank(u, x), Rank(u, y);
    if rx < ry {
      assert u[rx] < u[ry];
    } else if ry < rx {
      assert u[ry] < u[rx];
    }
  }

  /** The summed `new_indices`: each index replaced by its rank. */
  function Relabel(xs: seq<int>, u: seq<int>): (ys: seq<int>)
    requires forall k :: 0 <= k < |xs| ==> xs[k] in u
    ensures |ys| == |xs|
    ensures forall k :: 0 <= k < |xs| ==> ys[k] == Rank(u, xs[k])
  {
    seq(|xs|, k requires 0 <= k < |xs| => Rank(u, xs[k]))
  }

  /** numpy accepts an index i into an array of length n when
      -n <= i < n, counting a negative one from the end. */
  predicate InBounds(n: nat, i: int)
  {
    -(n as int) <= i < n
  }

  function Wrap(n: nat, i: int): (j: nat)
    requires InBounds(n, i)
    ensures j < n
  {
    if i < 0 then n + i else i
  }

  /** `vertices[unique_indices]`: an `IndexError` if any index is out of
      bounds. */
  function Gather<V>(vs: seq<V>, u: seq<int>): (r: Result<seq<V>>)
    ensures r.Ok? <==> forall k :: 0 <= k < |u| ==> InBounds(|vs|, u[k])
    ensures r.Ok? ==> |r.value| == |u|
    ensures r.Ok? ==> forall k :: 0 <= k < |u| ==> r.value[k] == vs[Wrap(|vs|, u[k])]
  {
    if forall k :: 0 <= k < |u| ==> InBounds(|vs|, u[k]) then
      Ok(seq(|u|, k requires 0 <= k < |u| && InBounds(|vs|, u[k]) => vs[Wrap(|vs|, u[k])]))
    else Err(IndexOutOfRange)
  }

  /** `cleanup_mesh(vertices, indices)`, the indices flattened: the kept
      vertices in sorted index order, and each index replaced by the
      position of its vertex among them. */
  function CleanupMesh<V>(vs: seq<V>, xs: seq<int>): (r: Result<(seq<V>, seq<int>)>)
    ensures r.Ok? <==> forall k :: 0 <= k < |xs| ==> InBounds(|vs|, xs[k])
    ensures r.Ok? ==> |r.value.1| == |xs|
    ensures r.Ok? ==> forall k :: 0 <= k < |xs| ==>
      0 <= r.value.1[k] < |r.value.0| && r.value.0[r.value.1[k]] == vs[Wrap(|vs|, xs[k])]
  {
    var u := Unique(xs);
    assert (forall k :: 0 <= k < |u| ==> InBounds(|vs|, u[k]))
       <==> (forall k :: 0 <= k < |xs| ==> InBounds(|vs|, xs[k])) by {
      assert forall k :: 0 <= k < |u| ==> u[k] in xs;
      assert forall k :: 0 <= k < |xs| ==> xs[k] in u;
    }
    var kept :- Gather(vs, u);
    Ok((kept, Relabel(xs, u)))
  }

  // ------------------------------------------------------------ properties

  /** The kept vertices are one per distinct index, in increasing index
      order. */
  lemma {:induction false} CleanupKeepsSorted<V>(vs: seq<V>, xs: seq<int>)
    requires CleanupMesh(vs, xs).Ok?
    ensures var kept := CleanupMesh(vs, xs).value.0;
      |kept| == |Unique(xs)|
      && forall r :: 0 <= r < |kept| ==> kept[r] == vs[Wrap(|vs|, Unique(xs)[r])]
  {
  }

  /** Relabelling preserves order and equality between any two indices. */
  lemma {:induction false} CleanupOrder<V>(vs: seq<V>, xs: seq<int>, a: nat, b: nat)
    requires CleanupMesh(vs, xs).Ok?
    requires a < |xs| && b < |xs|
    ensures var ys := CleanupMesh(vs, xs).value.1;
      && (xs[a] < xs[b] <==> ys[a] < ys[b])
      && (xs[a] == xs[b] <==> ys[a] == ys[b])
  {
    RankOrder(Unique(xs), xs[a], xs[b]);
  }

  /** The new indices are dense: every kept vertex is referred to. */
  lemma {:induction false} CleanupDense<V>(vs: seq<V>, xs: seq<int>, r: nat)
    requires CleanupMesh(vs, xs).Ok?
    requires r < |CleanupMesh(vs, xs).value.0|
    ensures exists k :: 0 <= k < |xs| && CleanupMesh(vs, xs).value.1[k] == r
  {
    var u := Unique(xs);
    assert u[r] in u;
    var k :| 0 <= k < |xs| && xs[k] == u[r];
    RankOf(u, r);
    assert CleanupMesh(vs, xs).value.1[k] == r;
  }

  /** An increasing sequence whose values are exactly 0 .. m-1 is 0 .. m-1. */
  lemma {:induction false} IdentityRun(u: seq<int>, m: nat)
    requires Increasing(u)
    requires forall y :: y in u <==> 0 <= y < m
    ensures |u| == m
    ensures forall i :: 0 <= i < |u| ==> u[i] == i
  {
    forall i | 0 <= i < |u|
      ensures u[i] == i
    {
      IdentityAt(u, m, i);
    }
    if m > 0 {
      assert m - 1 in u;
      var k :| 0 <= k < |u| && u[k] == m - 1;
      assert k == m - 1;
    }
    if |u| > 0 {
      assert u[|u| - 1] in u;
    }
  }

  lemma {:induction false} IdentityAt(u: seq<int>, m: nat, i: nat)
    requires Increasing(u)
    requires forall y :: y in u <==> 0 <= y < m
    requires i < |u|
    ensures u[i] == i
    decreases i
  {
    var below := if i == 0 then -1 else u[i - 1];
    if i > 0 {
      IdentityAt(u, m, i - 1);
    }
    assert u[i] in u;
    assert i <= u[i] < m;
    assert i in u;
    var k :| 0 <= k < |u| && u[k] == i;
  }

  /** The indices of a cleaned polygon take exactly the values 0 .. m-1,
      m being the number of kept vertices. */
  lemma {:induction false} CleanedValues<V>(vs: seq<V>, xs: seq<int>)
    requires CleanupMesh(vs, xs).Ok?
    ensures var (kept, ys) := CleanupMesh(vs, xs).value;
      forall y :: y in ys <==> 0 <= y < |kept|
  {
    var (kept, ys) := CleanupMesh(vs, xs).value;
    forall y
      ensures y in ys <==> 0 <= y < |kept|
    {
      if 0 <= y < |kept| {
        CleanupDense(vs, xs, y);
      }
    }
  }

  /** Cleaning an already cleaned polygon changes nothing. */
  lemma {:induction false} CleanupIdempotent<V>(vs: seq<V>, xs: seq<int>)
    requires CleanupMesh(vs, xs).Ok?
    ensures var (kept, ys) := CleanupMesh(vs, xs).value;
      CleanupMesh(kept, ys) == Ok((kept, ys))
  {
    var (kept, ys) := CleanupMesh(vs, xs).value;
    var m := |kept|;
    var u := Unique(ys);
    CleanedValues(vs, xs);
    IdentityRun(u, m);
    assert Gather(kept, u).value == kept;
    forall k | 0 <= k < |ys|
      ensures Rank(u, ys[k]) == ys[k]
    {
      RankOf(u, ys[k]);
    }
    assert Relabel(ys, u) == ys;
  }
}
