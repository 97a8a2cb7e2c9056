/** Surface-mode node compaction in `gen_mesh_from_voxels` (lines 372-388): nodes that no
    face refers to are dropped, the others are renumbered densely in their old order, and the
    coordinates and the cells are rewritten to match. */
module Compaction {
  import opened Grid
  import opened Ranking
  import opened MeshData
  import opened Voxels

  /** The mask `aux` built by `for ii in elems.T: aux[ii] = 1`. */
  ghost function Referenced(el: Cells, nnod: nat): (m: seq<bool>)
    ensures |m| == nnod
  {
    seq(nnod, o requires 0 <= o < nnod => IsReferenced(el, o))
  }

  /** The cells with every id sent through the lookup table `newid`. */
  function MapIds(el: Cells, newid: seq<int>): (r: Cells)
    requires el.Valid() && el.IdsBelow(|newid|)
    ensures r.Valid() && r.width == el.width && |r.rows| == |el.rows|
  {
    Cells(el.width, seq(|el.rows|, k requires 0 <= k < |el.rows| =>
      seq(|el.rows[k]|, j requires 0 <= j < |el.rows[k]| => newid[el.rows[k][j]])))
  }

  /** `xs[nm.where(keep)]`. */
  function Select<T>(xs: seq<T>, keep: seq<bool>): (r: seq<T>)
    requires |keep| == |xs|
    ensures |r| == CountTrue(keep)
  {
    var w := Where(keep);
    seq(|w|, i requires 0 <= i < |w| => xs[w[i]])
  }

  /** Node `o` is named in one of the first `ii` columns, or in the first `k` rows of
      column `ii`. */
  ghost predicate RefBefore(el: Cells, o: int, ii: nat, k: nat)
  {
    exists k', j :: 0 <= k' < |el.rows| && 0 <= j < |el.rows[k']| &&
      (j < ii || (j == ii && k' < k)) && el.rows[k'][j] == o
  }

  lemma RefBeforeStep(el: Cells, o: int, ii: nat, k: nat)
    requires el.Valid() && ii < el.width && k < |el.rows|
    ensures RefBefore(el, o, ii, k + 1) <==> RefBefore(el, o, ii, k) || el.rows[k][ii] == o
  {
    if el.rows[k][ii] == o {
      assert el.rows[k][ii] == o && ii < |el.rows[k]|;
    }
  }

  lemma RefBeforeAll(el: Cells, o: int)
    requires el.Valid()
    ensures RefBefore(el, o, el.width, 0) <==> IsReferenced(el, o)
  {
  }

  /** The first `c` columns of a row looked up in `newid`. */
  function MapPrefix(row: seq<int>, newid: seq<int>, c: nat): (r: seq<int>)
    requires forall j :: 0 <= j < |row| ==> 0 <= row[j] < |newid|
    ensures |r| == |row|
  {
    seq(|row|, j requires 0 <= j < |row| => if j < c then newid[row[j]] else row[j])
  }

  /** `aux[ii] = 1` for every column `ii` of the cells (lines 374-377): the mask of
      referenced nodes. */
  method MarkReferenced(el: Cells, nnod: nat) returns (used: seq<bool>)
    requires el.Valid() && el.IdsBelow(nnod)
    ensures used == Referenced(el, nnod)
  {
    var aux := new int[nnod](_ => 0);
    for ii := 0 to el.width
      invariant forall o :: 0 <= o < nnod ==> aux[o] == (if RefBefore(el, o, ii, 0) then 1 else 0)
    {
      for k := 0 to |el.rows|
        invariant forall o :: 0 <= o < nnod ==> aux[o] == (if RefBefore(el, o, ii, k) then 1 else 0)
      {
        aux[el.rows[k][ii]] := 1;
        forall o | 0 <= o < nnod
          ensures aux[o] == (if RefBefore(el, o, ii, k + 1) then 1 else 0)
        {
          RefBeforeStep(el, o, ii, k);
        }
      }
    }
    forall o | 0 <= o < nnod
      ensures (aux[o] != 0) == IsReferenced(el, o)
    {
      RefBeforeAll(el, o);
    }
    var a := aux[..];
    used := seq(nnod, o requires 0 <= o < nnod => a[o] != 0);
  }

  /** `elems[:, ii] = aux[elems[:, ii]]` for every column `ii` (lines 387-388). */
  method RemapColumns(el: Cells, aux: seq<int>) returns (el': Cells)
    requires el.Valid() && el.IdsBelow(|aux|)
    ensures el' == MapIds(el, aux)
  {
    var e := new seq<int>[|el.rows|](k requires 0 <= k < |el.rows| => el.rows[k]);
    for ii := 0 to el.width
      invariant forall k :: 0 <= k < |el.rows| ==> e[k] == MapPrefix(el.rows[k], aux, ii)
    {
      for k := 0 to |el.rows|
        invariant forall k' :: 0 <= k' < |el.rows| ==>
          e[k'] == MapPrefix(el.rows[k'], aux, if k' < k then ii + 1 else ii)
      {
        e[k] := e[k][ii := aux[e[k][ii]]];
      }
    }
    el' := Cells(el.width, e[..]);
    forall k | 0 <= k < |el.rows|
      ensures el'.rows[k] == MapIds(el, aux).rows[k]
    {
      assert |el'.rows[k]| == |MapIds(el, aux).rows[k]|;
    }
    assert el'.rows == MapIds(el, aux).rows;
  }

  /** Two lookup tables that agree on every referenced node map the cells alike. */
  lemma MapIdsAgree(el: Cells, a: seq<int>, b: seq<int>)
    requires el.Valid() && el.IdsBelow(|a|) && |b| == |a|
    requires forall o :: 0 <= o < |a| && IsReferenced(el, o) ==> a[o] == b[o]
    ensures MapIds(el, a) == MapIds(el, b)
  {
    forall k | 0 <= k < |el.rows|
      ensures MapIds(el, a).rows[k] == MapIds(el, b).rows[k]
    {
      forall j | 0 <= j < el.width
        ensures a[el.rows[k][j]] == b[el.rows[k][j]]
      {
        assert IsReferenced(el, el.rows[k][j]);
      }
    }
    assert MapIds(el, a).rows == MapIds(el, b).rows;
  }

  /** Compaction (lines 373-388): the referenced nodes are kept in their old order and
      renumbered densely; the coordinates are filtered and the cells rewritten to match. */
  method CompactNodes(el: Cells, coors: seq<Point>) returns (el': Cells, coors': seq<Point>)
    requires el.Valid() && el.IdsBelow(|coors|)
    ensures var used := Referenced(el, |coors|);
      coors' == Select(coors, used) && el' == MapIds(el, DenseIds(used))
  {
    var used := MarkReferenced(el, |coors|);
    // idx = nm.where(aux)
    var idx := Where(used);
    // aux.fill(0); aux[idx] = range(nnod)
    var aux := RankIds(used, 0);
    // coors = coors[idx]
    coors' := seq(|idx|, i requires 0 <= i < |idx| => coors[idx[i]]);
    el' := RemapColumns(el, aux);
    MapIdsAgree(el, aux, DenseIds(used));
  }

  /** After compaction every cell names one of the surviving nodes. */
  lemma CompactIdsInRange(el: Cells, nnod: nat)
    requires el.Valid() && el.IdsBelow(nnod)
    ensures var used := Referenced(el, nnod);
      MapIds(el, DenseIds(used)).IdsBelow(CountTrue(used))
  {
    var used := Referenced(el, nnod);
    DenseIdsRange(used);
    forall k, j | 0 <= k < |el.rows| && 0 <= j < |el.rows[k]|
      ensures used[el.rows[k][j]]
    {
      assert IsReferenced(el, el.rows[k][j]);
    }
  }

  /** Every surviving node is named by some cell. */
  lemma CompactKeepsOnlyReferenced(el: Cells, nnod: nat)
    requires el.Valid() && el.IdsBelow(nnod)
    ensures var used := Referenced(el, nnod);
      var r := MapIds(el, DenseIds(used));
      forall i :: 0 <= i < CountTrue(used) ==> IsReferenced(r, i)
  {
    var used := Referenced(el, nnod);
    var r := MapIds(el, DenseIds(used));
    DenseIdsOnto(used);
    forall i | 0 <= i < CountTrue(used)
      ensures IsReferenced(r, i)
    {
      var o := Where(used)[i];
      assert IsReferenced(el, o);
      var k, j :| 0 <= k < |el.rows| && 0 <= j < |el.rows[k]| && el.rows[k][j] == o;
      assert r.rows[k][j] == i;
    }
  }

  /** The renumbering preserves the order of old ids (and so also which ids are equal). */
  lemma CompactPreservesOrder(el: Cells, nnod: nat, k1: nat, j1: nat, k2: nat, j2: nat)
    requires el.Valid() && el.IdsBelow(nnod)
    requires k1 < |el.rows| && j1 < el.width && k2 < |el.rows| && j2 < el.width
    ensures var r := MapIds(el, DenseIds(Referenced(el, nnod)));
      (el.rows[k1][j1] < el.rows[k2][j2] <==> r.rows[k1][j1] < r.rows[k2][j2]) &&
      (el.rows[k1][j1] == el.rows[k2][j2] <==> r.rows[k1][j1] == r.rows[k2][j2])
  {
    var used := Referenced(el, nnod);
    var a, b := el.rows[k1][j1], el.rows[k2][j2];
    assert IsReferenced(el, a) && IsReferenced(el, b);
    if a < b {
      DenseIdsOrdered(used, a, b);
    } else if b < a {
      DenseIdsOrdered(used, b, a);
    }
  }

  /** Coordinates are filtered consistently with the renumbering: every cell corner keeps
      its position. */
  lemma CompactKeepsGeometry<P>(el: Cells, coors: seq<P>)
    requires el.Valid() && el.IdsBelow(|coors|)
    ensures var used := Referenced(el, |coors|);
      var r := MapIds(el, DenseIds(used));
      var c := Select(coors, used);
      forall k, j :: 0 <= k < |el.rows| && 0 <= j < el.width ==>
        0 <= r.rows[k][j] < |c| && c[r.rows[k][j]] == coors[el.rows[k][j]]
  {
    var used := Referenced(el, |coors|);
    DenseIdsOnto(used);
    CompactIdsInRange(el, |coors|);
    forall k, j | 0 <= k < |el.rows| && 0 <= j < el.width
      ensures used[el.rows[k][j]]
    {
      assert IsReferenced(el, el.rows[k][j]);
    }
  }
}
