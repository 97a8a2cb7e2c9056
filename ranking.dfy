/** Dense renumbering of the marked positions of a mask.
    Both `gen_mesh_from_voxels` steps that hand out ids use the same idiom: the marked
    positions are listed in increasing order (`nm.where`) and the i-th of them gets id `i`
    (`x[idx] = range(n)`).  The id of a marked position is therefore its rank: the number of
    marked positions before it. */
module Ranking {

  /** Number of marked entries. */
  function CountTrue(m: seq<bool>): (c: nat)
    ensures c <= |m|
  {
    if m == [] then 0 else CountTrue(m[..|m| - 1]) + (if m[|m| - 1] then 1 else 0)
  }

  lemma CountPrefixStep(m: seq<bool>, f: nat)
    requires f < |m|
    ensures CountTrue(m[..f + 1]) == CountTrue(m[..f]) + (if m[f] then 1 else 0)
  {
    assert m[..f + 1][..f] == m[..f];
  }

  lemma {:induction false} CountMonotone(m: seq<bool>, f: nat, g: nat)
    requires f <= g <= |m|
    ensures CountTrue(m[..f]) <= CountTrue(m[..g])
    decreases g - f
  {
    if f < g {
      CountPrefixStep(m, g - 1);
      CountMonotone(m, f, g - 1);
    }
  }

  /** A marked position comes strictly before every later prefix end in rank. */
  lemma RankStrict(m: seq<bool>, f: nat, g: nat)
    requires f < g <= |m| && m[f]
    ensures CountTrue(m[..f]) < CountTrue(m[..g])
  {
    CountPrefixStep(m, f);
    CountMonotone(m, f + 1, g);
  }

  /** The marked positions in increasing order: `nm.where` of a one-dimensional mask. */
  function Where(m: seq<bool>): (w: seq<nat>)
    ensures |w| == CountTrue(m)
    ensures forall i :: 0 <= i < |w| ==> w[i] < |m| && m[w[i]]
    ensures forall i, j :: 0 <= i < j < |w| ==> w[i] < w[j]
  {
    if m == [] then []
    else
      var n := |m| - 1;
      var w := Where(m[..n]);
      assert forall i :: 0 <= i < |w| ==> m[w[i]] == m[..n][w[i]];
      w + (if m[n] then [n] else [])
  }

  lemma {:induction false} WhereAtRank(m: seq<bool>, f: nat)
    requires f < |m| && m[f]
    ensures CountTrue(m[..f]) < |Where(m)| && Where(m)[CountTrue(m[..f])] == f
  {
    var n := |m| - 1;
    assert m[..n + 1] == m;
    if f == n {
    } else {
      assert m[..n][..f] == m[..f];
      WhereAtRank(m[..n], f);
    }
  }

  lemma RankOfWhere(m: seq<bool>, i: nat)
    requires i < |Where(m)|
    ensures CountTrue(m[..Where(m)[i]]) == i
  {
    var f := Where(m)[i];
    WhereAtRank(m, f);
  }

  /** A mask marked exactly at the strictly increasing positions `ps` counts `|ps|`. */
  lemma {:induction false} CountListed(m: seq<bool>, ps: seq<nat>)
    requires forall i, j :: 0 <= i < j < |ps| ==> ps[i] < ps[j]
    requires forall i :: 0 <= i < |ps| ==> ps[i] < |m|
    requires forall f :: 0 <= f < |m| ==> (m[f] <==> f in ps)
    ensures CountTrue(m) == |ps|
  {
    if m != [] {
      var n := |m| - 1;
      var rest := if m[n] then ps[..|ps| - 1] else ps;
      if m[n] {
        var i :| 0 <= i < |ps| && ps[i] == n;
        assert ps[|ps| - 1] <= n;
        assert i == |ps| - 1;
      }
      forall f | 0 <= f < n
        ensures m[..n][f] <==> f in rest
      {
        if f in ps {
          var i :| 0 <= i < |ps| && ps[i] == f;
          assert rest[i] == f;
        }
      }
      CountListed(m[..n], rest);
    }
  }

  /** The ids handed out by `ids = -ones(n); ids[where(m)] = arange(count)`. */
  function DenseIds(m: seq<bool>): (ids: seq<int>)
    ensures |ids| == |m|
  {
    seq(|m|, f requires 0 <= f < |m| => if m[f] then CountTrue(m[..f]) else -1)
  }

  /** Unmarked positions get -1, marked ones an id in `[0, CountTrue(m))`. */
  lemma DenseIdsRange(m: seq<bool>)
    ensures forall f :: 0 <= f < |m| ==>
      (DenseIds(m)[f] == -1 <==> !m[f]) &&
      (m[f] ==> 0 <= DenseIds(m)[f] < CountTrue(m))
  {
    forall f | 0 <= f < |m| && m[f]
      ensures DenseIds(m)[f] < CountTrue(m)
    {
      RankStrict(m, f, |m|);
      assert m[..|m|] == m;
    }
  }

  /** Ids follow the order of the positions: the renumbering is strictly monotone, hence
      injective on marked positions. */
  lemma DenseIdsOrdered(m: seq<bool>, f: nat, g: nat)
    requires f < g < |m| && m[f] && m[g]
    ensures 0 <= DenseIds(m)[f] < DenseIds(m)[g]
  {
    RankStrict(m, f, g);
  }

  /** Every id in `[0, CountTrue(m))` is used, by the position `Where(m)[id]`; so the ids
      are exactly `[0, CountTrue(m))`, and `Where` and `DenseIds` are inverse. */
  lemma DenseIdsOnto(m: seq<bool>)
    ensures forall id :: 0 <= id < CountTrue(m) ==>
      Where(m)[id] < |m| && m[Where(m)[id]] && DenseIds(m)[Where(m)[id]] == id
    ensures forall f :: 0 <= f < |m| && m[f] ==>
      0 <= DenseIds(m)[f] < |Where(m)| && Where(m)[DenseIds(m)[f]] == f
  {
    forall id | 0 <= id < CountTrue(m)
      ensures DenseIds(m)[Where(m)[id]] == id
    {
      RankOfWhere(m, id);
    }
    forall f | 0 <= f < |m| && m[f]
      ensures 0 <= DenseIds(m)[f] < |Where(m)| && Where(m)[DenseIds(m)[f]] == f
    {
      WhereAtRank(m, f);
    }
  }
}
