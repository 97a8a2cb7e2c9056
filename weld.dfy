/** The vertex welding of `gen_mesh_from_voxels_mc` (lines 413-427): the marching-cubes
    triangles come with one vertex per corner; each vertex's list of close vertices (from a
    kd-tree query, an input here) becomes a sorted key, the distinct keys become the new nodes,
    and every corner is relabelled with the node of a key that lists it. */
module Weld {
  import opened Grid
  import opened MeshData

  /** `ii[ii < tree.n]`: the neighbours that exist (a missing one is reported as `n`). */
  function Below(row: seq<nat>, n: nat): (r: seq<nat>)
    ensures forall i :: 0 <= i < |r| ==> r[i] < n
  {
    if |row| == 0 then []
    else Below(row[..|row| - 1], n) + (if row[|row| - 1] < n then [row[|row| - 1]] else [])
  }

  lemma {:induction false} BelowMembers(row: seq<nat>, n: nat, x: nat)
    ensures x in Below(row, n) <==> x in row && x < n
  {
    if |row| > 0 {
      BelowMembers(row[..|row| - 1], n, x);
      assert row == row[..|row| - 1] + [row[|row| - 1]];
    }
  }

  predicate Sorted(s: seq<nat>)
  {
    forall i, j :: 0 <= i < j < |s| ==> s[i] <= s[j]
  }

  function Insert(x: nat, s: seq<nat>): seq<nat>
  {
    if |s| == 0 then [x]
    else if x <= s[0] then [x] + s
    else [s[0]] + Insert(x, s[1..])
  }

  /** `ukey.sort()`. */
  function Sort(s: seq<nat>): seq<nat>
  {
    if |s| == 0 then [] else Insert(s[0], Sort(s[1..]))
  }

  lemma {:induction false} InsertMultiset(x: nat, s: seq<nat>)
    ensures multiset(Insert(x, s)) == multiset(s) + multiset{x}
  {
    if |s| > 0 && x > s[0] {
      InsertMultiset(x, s[1..]);
      assert s == [s[0]] + s[1..];
    }
  }

  /** Sorting keeps the elements with their multiplicity. */
  lemma {:induction false} SortMultiset(s: seq<nat>)
    ensures multiset(Sort(s)) == multiset(s)
  {
    if |s| > 0 {
      SortMultiset(s[1..]);
      InsertMultiset(s[0], Sort(s[1..]));
      assert s == [s[0]] + s[1..];
    }
  }

  lemma {:induction false} InsertSorted(x: nat, s: seq<nat>)
    requires Sorted(s)
    ensures Sorted(Insert(x, s))
  {
    if |s| > 0 && x > s[0] {
      InsertSorted(x, s[1..]);
      InsertMultiset(x, s[1..]);
      var t := Insert(x, s[1..]);
      forall i | 0 <= i < |t|
        ensures s[0] <= t[i]
      {
        assert t[i] in multiset(s[1..]) + multiset{x};
        if t[i] != x {
          assert t[i] in s[1..];
        }
      }
      ConsSorted(s[0], t);
    } else if |s| > 0 {
      ConsSorted(x, s);
    }
  }

  lemma ConsSorted(h: nat, t: seq<nat>)
    requires Sorted(t) && forall i :: 0 <= i < |t| ==> h <= t[i]
    ensures Sorted([h] + t)
  {
  }

  lemma {:induction false} SortSorted(s: seq<nat>)
    ensures Sorted(Sort(s))
  {
    if |s| > 0 {
      SortSorted(s[1..]);
      InsertSorted(s[0], Sort(s[1..]));
    }
  }

  /** The head of a sorted sequence is its least element. */
  lemma SortedHead(a: seq<nat>, x: nat)
    requires Sorted(a) && x in multiset(a)
    ensures |a| > 0 && a[0] <= x
  {
    var i :| 0 <= i < |a| && a[i] == x;
  }

  lemma TailMultiset(a: seq<nat>)
    requires |a| > 0
    ensures multiset(a[1..]) == multiset(a) - multiset{a[0]}
  {
    assert a == [a[0]] + a[1..];
  }

  lemma SortedTail(a: seq<nat>)
    requires Sorted(a) && |a| > 0
    ensures Sorted(a[1..])
  {
    forall i, j | 0 <= i < j < |a[1..]|
      ensures a[1..][i] <= a[1..][j]
    {
      assert a[1..][i] == a[i + 1] && a[1..][j] == a[j + 1];
    }
  }

  /** A sorted sequence is determined by its elements. */
  lemma {:induction false} SortedUnique(a: seq<nat>, b: seq<nat>)
    requires Sorted(a) && Sorted(b) && multiset(a) == multiset(b)
    ensures a == b
  {
    if |a| == 0 {
      assert |b| == |multiset(b)|;
    } else {
      SortedSameHead(a, b);
      SortedTail(a);
      SortedTail(b);
      SortedUnique(a[1..], b[1..]);
      assert a == [a[0]] + a[1..] && b == [b[0]] + b[1..];
    }
  }

  /** Two sorted sequences with the same elements start alike and go on alike. */
  lemma SortedSameHead(a: seq<nat>, b: seq<nat>)
    requires Sorted(a) && Sorted(b) && multiset(a) == multiset(b) && |a| > 0
    ensures |b| > 0 && a[0] == b[0] && multiset(a[1..]) == multiset(b[1..])
  {
    assert a[0] in multiset(a);
    SortedHead(b, a[0]);
    SortedHead(a, b[0]);
    TailMultiset(a);
    TailMultiset(b);
  }

  /** The key of a vertex: its existing neighbours, sorted. */
  function Key(row: seq<nat>, n: nat): seq<nat>
  {
    Sort(Below(row, n))
  }

  /** The key is sorted and holds the existing neighbours with their multiplicity. */
  lemma KeySorted(row: seq<nat>, n: nat)
    ensures Sorted(Key(row, n)) && multiset(Key(row, n)) == multiset(Below(row, n))
  {
    SortSorted(Below(row, n));
    SortMultiset(Below(row, n));
  }

  /** The key lists exactly the existing neighbours. */
  lemma KeyMembers(row: seq<nat>, n: nat, x: nat)
    ensures x in Key(row, n) <==> x in row && x < n
  {
    BelowMembers(row, n, x);
    KeySorted(row, n);
    assert x in Key(row, n) <==> x in multiset(Key(row, n));
    assert x in Below(row, n) <==> x in multiset(Below(row, n));
  }

  /** The key is a canonical form: two vertices get the same key iff they have the same
      existing neighbours, with multiplicity, in whatever order the query lists them. */
  lemma KeyEqual(row1: seq<nat>, row2: seq<nat>, n: nat)
    ensures Key(row1, n) == Key(row2, n) <==> multiset(Below(row1, n)) == multiset(Below(row2, n))
  {
    KeySorted(row1, n);
    KeySorted(row2, n);
    if multiset(Below(row1, n)) == multiset(Below(row2, n)) {
      SortedUnique(Key(row1, n), Key(row2, n));
    }
  }

  /** `uniq` after the keys of the first `v` vertices have been added (lines 413-417). */
  function KeySet(nbrs: seq<seq<nat>>, n: nat, v: nat): set<seq<nat>>
    requires v <= |nbrs|
  {
    if v == 0 then {} else KeySet(nbrs, n, v - 1) + {Key(nbrs[v - 1], n)}
  }

  /** `uniq` holds exactly the keys of the vertices. */
  lemma {:induction false} KeySetMembers(nbrs: seq<seq<nat>>, n: nat, v: nat, key: seq<nat>)
    requires v <= |nbrs|
    ensures key in KeySet(nbrs, n, v) <==> exists u :: 0 <= u < v && Key(nbrs[u], n) == key
  {
    if v > 0 {
      KeySetMembers(nbrs, n, v - 1, key);
      var last := Key(nbrs[v - 1], n);
      if key == last {
        assert Key(nbrs[v - 1], n) == key;
      } else if exists u :: 0 <= u < v && Key(nbrs[u], n) == key {
        var u :| 0 <= u < v && Key(nbrs[u], n) == key;
        assert u < v - 1;
      }
    }
  }

  /** Every key lists vertices only. */
  lemma {:induction false} KeySetBelow(nbrs: seq<seq<nat>>, n: nat, v: nat)
    requires v <= |nbrs|
    ensures forall key, i :: key in KeySet(nbrs, n, v) && 0 <= i < |key| ==> key[i] < n
  {
    if v > 0 {
      KeySetBelow(nbrs, n, v - 1);
      var key := Key(nbrs[v - 1], n);
      forall i | 0 <= i < |key|
        ensures key[i] < n
      {
        KeyMembers(nbrs[v - 1], n, key[i]);
      }
    }
  }

  /** `key` is a member of `uniq`. */
  predicate IsKey(nbrs: seq<seq<nat>>, n: nat, key: seq<nat>)
  {
    key in KeySet(nbrs, n, |nbrs|)
  }

  /** `groups` lists the members of `uniq`, each once: an iteration order of the set. */
  ghost predicate Enumerates(groups: seq<seq<nat>>, nbrs: seq<seq<nat>>, n: nat)
  {
    (forall i, j :: 0 <= i < j < |groups| ==> groups[i] != groups[j]) &&
    (forall key :: key in groups <==> IsKey(nbrs, n, key))
  }

  /** The welded mesh has one node per distinct key (`nnod = len(uniq)`, line 420). */
  lemma EnumeratesCount(groups: seq<seq<nat>>, nbrs: seq<seq<nat>>, n: nat)
    requires Enumerates(groups, nbrs, n)
    ensures |groups| == |KeySet(nbrs, n, |nbrs|)|
  {
    assert (set key | key in groups) == KeySet(nbrs, n, |nbrs|);
    DistinctCount(groups);
  }

  /** A sequence without repetitions has as many elements as members. */
  lemma {:induction false} DistinctCount<T>(s: seq<T>)
    requires forall i, j :: 0 <= i < j < |s| ==> s[i] != s[j]
    ensures |set x | x in s| == |s|
  {
    if |s| > 0 {
      var init := s[..|s| - 1];
      DistinctCount(init);
      assert (set x | x in s) == (set x | x in init) + {s[|s| - 1]};
      assert s[|s| - 1] !in init;
    }
  }

  /** Every key entry is a vertex. */
  predicate KeysBelow(groups: seq<seq<nat>>, n: nat)
  {
    forall g, i :: 0 <= g < |groups| && 0 <= i < |groups[g]| ==> groups[g][i] < n
  }

  /** `ntri` after the groups `groups` have been written in order: initially all ones, then
      `ntri[groups[g]] = g` for each `g`. */
  function Relabel(groups: seq<seq<nat>>, n: nat): (ntri: seq<int>)
    ensures |ntri| == n
  {
    if |groups| == 0 then seq(n, _ => 1)
    else
      var prev := Relabel(groups[..|groups| - 1], n);
      seq(n, v requires 0 <= v < n => if v in groups[|groups| - 1] then |groups| - 1 else prev[v])
  }

  /** One vertex of `ntri` after the last group has been written. */
  lemma RelabelAt(groups: seq<seq<nat>>, n: nat, v: nat)
    requires v < n && |groups| > 0
    ensures Relabel(groups, n)[v] ==
      if v in groups[|groups| - 1] then |groups| - 1 else Relabel(groups[..|groups| - 1], n)[v]
  {
  }

  /** Last writer wins: a vertex gets the id of the last group listing it, and keeps 1 when
      no group lists it. */
  lemma RelabelLastWriter(groups: seq<seq<nat>>, n: nat, v: nat)
    requires v < n
    ensures (forall g :: 0 <= g < |groups| ==> v !in groups[g]) ==> Relabel(groups, n)[v] == 1
    ensures forall g :: (0 <= g < |groups| && v in groups[g] &&
                         (forall h :: g < h < |groups| ==> v !in groups[h])) ==>
                        Relabel(groups, n)[v] == g
  {
    if forall g :: 0 <= g < |groups| ==> v !in groups[g] {
      RelabelUnlisted(groups, n, v);
    }
    forall g | 0 <= g < |groups| && v in groups[g] && (forall h :: g < h < |groups| ==> v !in groups[h])
      ensures Relabel(groups, n)[v] == g
    {
      RelabelLast(groups, n, v, g);
    }
  }

  lemma {:induction false} RelabelUnlisted(groups: seq<seq<nat>>, n: nat, v: nat)
    requires v < n && forall g :: 0 <= g < |groups| ==> v !in groups[g]
    ensures Relabel(groups, n)[v] == 1
  {
    if |groups| > 0 {
      var init := groups[..|groups| - 1];
      RelabelAt(groups, n, v);
      assert forall g :: 0 <= g < |init| ==> init[g] == groups[g];
      RelabelUnlisted(init, n, v);
    }
  }

  lemma {:induction false} RelabelLast(groups: seq<seq<nat>>, n: nat, v: nat, g: nat)
    requires v < n && g < |groups| && v in groups[g]
    requires forall h :: g < h < |groups| ==> v !in groups[h]
    ensures Relabel(groups, n)[v] == g
  {
    RelabelAt(groups, n, v);
    if g < |groups| - 1 {
      var init := groups[..|groups| - 1];
      assert forall h :: 0 <= h < |init| ==> init[h] == groups[h];
      RelabelLast(init, n, v, g);
    }
  }

  /** When the keys are pairwise disjoint, every vertex a key lists is relabelled with that
      key's group id. */
  lemma RelabelDisjoint(groups: seq<seq<nat>>, n: nat, g: nat, v: nat)
    requires v < n && g < |groups| && v in groups[g]
    requires forall h, x :: 0 <= h < |groups| && h != g && x in groups[g] ==> x !in groups[h]
    ensures Relabel(groups, n)[v] == g
  {
    RelabelLastWriter(groups, n, v);
  }

  /** `cells = ntri.reshape((nel, nnd))`. */
  function Reshape(ntri: seq<int>, nel: nat, nnd: nat): (el: Cells)
    requires |ntri| == nel * nnd
    ensures el.Valid() && el.width == nnd && |el.rows| == nel
  {
    Cells(nnd, seq(nel, k requires 0 <= k < nel => Row(ntri, nel, nnd, k)))
  }

  /** Row `k` of the reshaped array. */
  function Row(ntri: seq<int>, nel: nat, nnd: nat, k: nat): (row: seq<int>)
    requires |ntri| == nel * nnd && k < nel
    ensures |row| == nnd
  {
    RowBounds(k, nel, nnd);
    ntri[k * nnd .. k * nnd + nnd]
  }

  lemma RowBounds(k: nat, nel: nat, nnd: nat)
    requires k < nel
    ensures 0 <= k * nnd && k * nnd + nnd <= nel * nnd
  {
    MulLeft(k + 1, nel, nnd);
    assert (k + 1) * nnd == k * nnd + nnd;
  }

  /** The welded mesh for an iteration order `groups` of the keys. */
  function WeldMesh<P>(coors: seq<P>, groups: seq<seq<nat>>, nel: nat, nnd: nat): Mesh<P>
    requires |coors| == nel * nnd && KeysBelow(groups, |coors|)
    requires forall g :: 0 <= g < |groups| ==> |groups[g]| > 0
  {
    Mesh(seq(|groups|, g requires 0 <= g < |groups| => coors[groups[g][0]]), Triangle,
         Reshape(Relabel(groups, |coors|), nel, nnd))
  }

  /** `ntri[nm.array(idxs)] = ii`. */
  method WriteGroup(ntri: array<int>, key: seq<nat>, id: int)
    requires forall i :: 0 <= i < |key| ==> key[i] < ntri.Length
    modifies ntri
    ensures forall v :: 0 <= v < ntri.Length ==> ntri[v] == if v in key then id else old(ntri[v])
  {
    for i := 0 to |key|
      invariant forall v :: 0 <= v < ntri.Length ==>
        ntri[v] == if v in key[..i] then id else old(ntri[v])
    {
      ntri[key[i]] := id;
      assert key[..i + 1] == key[..i] + [key[i]];
    }
  }

  /** Relabelling with one more group. */
  lemma RelabelSnoc(groups: seq<seq<nat>>, key: seq<nat>, n: nat)
    ensures Relabel(groups + [key], n) ==
      seq(n, v requires 0 <= v < n => if v in key then |groups| else Relabel(groups, n)[v])
  {
    assert (groups + [key])[..|groups|] == groups;
  }

  /** Lines 413-417: `uniq` collects the key of every vertex. */
  method CollectKeys(nbrs: seq<seq<nat>>, n: nat) returns (uniq: set<seq<nat>>)
    ensures uniq == KeySet(nbrs, n, |nbrs|)
    ensures forall key, i :: key in uniq && 0 <= i < |key| ==> key[i] < n
  {
    uniq := {};
    for v := 0 to |nbrs|
      invariant uniq == KeySet(nbrs, n, v)
    {
      var ukey := Key(nbrs[v], n);
      uniq := uniq + {ukey};
    }
    KeySetBelow(nbrs, n, |nbrs|);
  }

  /** While numbering the keys: every key of `uniq` is either numbered (in `groups`, each
      once, none empty) or still pending (in `rest`). */
  ghost predicate Pending(uniq: set<seq<nat>>, groups: seq<seq<nat>>, rest: set<seq<nat>>, n: nat)
  {
    (forall key :: key in uniq <==> key in groups || key in rest) &&
    (forall key :: key in groups ==> key !in rest) &&
    (forall i, j :: 0 <= i < j < |groups| ==> groups[i] != groups[j]) &&
    (forall g :: 0 <= g < |groups| ==> |groups[g]| > 0) &&
    KeysBelow(groups, n)
  }

  /** Numbering one more pending, non-empty key. */
  lemma GroupStep(uniq: set<seq<nat>>, groups: seq<seq<nat>>, rest: set<seq<nat>>, key: seq<nat>, n: nat)
    requires Pending(uniq, groups, rest, n) && key in rest && |key| > 0
    requires forall i :: 0 <= i < |key| ==> key[i] < n
    ensures Pending(uniq, groups + [key], rest - {key}, n)
  {
    var groups' := groups + [key];
    forall i, j | 0 <= i < j < |groups'|
      ensures groups'[i] != groups'[j]
    {
      if j == |groups| {
        assert groups[i] in groups;
      }
    }
  }

  /** Lines 413-427. The groups are numbered in the iteration order of the set `uniq`, which
      the model leaves open: `groups` is that order. A key without any vertex raises. */
  method WeldVertices<P>(nel: nat, nnd: nat, coors: seq<P>, nbrs: seq<seq<nat>>)
    returns (r: Result<Mesh<P>, MeshError>, ghost groups: seq<seq<nat>>)
    requires |coors| == nel * nnd && |nbrs| == |coors|
    ensures r.Err? <==> IsKey(nbrs, |coors|, [])
    ensures r.Err? ==> r.error == EmptyWeldKey
    ensures r.Ok? ==>
              Enumerates(groups, nbrs, |coors|) && KeysBelow(groups, |coors|) &&
              (forall g :: 0 <= g < |groups| ==> |groups[g]| > 0) &&
              r.value == WeldMesh(coors, groups, nel, nnd)
  {
    var uniq := CollectKeys(nbrs, |coors|);
    var ok, ntri, ncoors;
    ok, ntri, ncoors, groups := NumberGroups(uniq, coors);
    if !ok {
      return Err(EmptyWeldKey), groups;
    }
    assert [] !in groups;
    var cells := Reshape(ntri, nel, nnd);
    r := Ok(Mesh(ncoors, Triangle, cells));
    assert ncoors == WeldMesh(coors, groups, nel, nnd).points;
  }

  /** Lines 419-424: `ntri` and `ncoors` after numbering the keys of `uniq` in the order
      `groups`; numbering stops (`ok` false) at an empty key, which cannot index `coors`. */
  method NumberGroups<P>(uniq: set<seq<nat>>, coors: seq<P>)
    returns (ok: bool, ntri: seq<int>, ncoors: seq<P>, ghost groups: seq<seq<nat>>)
    requires forall key, i :: key in uniq && 0 <= i < |key| ==> key[i] < |coors|
    ensures !ok ==> [] in uniq
    ensures ok ==>
              Pending(uniq, groups, {}, |coors|) && ntri == Relabel(groups, |coors|) &&
              |ncoors| == |groups| && forall g :: 0 <= g < |groups| ==> ncoors[g] == coors[groups[g][0]]
  {
    var n := |coors|;
    var a := new int[n](_ => 1);
    ncoors := [];
    var rest := uniq;
    var ii := 0;
    groups := [];
    while rest != {}
      invariant Pending(uniq, groups, rest, n)
      invariant a[..] == Relabel(groups, n)
      invariant |ncoors| == |groups| && forall g :: 0 <= g < |groups| ==> ncoors[g] == coors[groups[g][0]]
      invariant ii == |groups|
      decreases |rest|
    {
      var key :| key in rest;
      if |key| == 0 {
        return false, a[..], ncoors, groups;
      }
      WriteGroup(a, key, ii);
      RelabelSnoc(groups, key, n);
      assert a[..] == Relabel(groups + [key], n);
      GroupStep(uniq, groups, rest, key, n);
      ncoors := ncoors + [coors[key[0]]];
      groups := groups + [key];
      rest := rest - {key};
      ii := ii + 1;
    }
    return true, a[..], ncoors, groups;
  }

  /** When every vertex is among its own neighbours, every vertex is relabelled with the id
      of a group that lists it. */
  lemma VertexGroup(nbrs: seq<seq<nat>>, groups: seq<seq<nat>>, n: nat, v: nat)
    requires |nbrs| == n && v < n && v in nbrs[v] && Enumerates(groups, nbrs, n)
    ensures var g := Relabel(groups, n)[v]; 0 <= g < |groups| && v in groups[g]
  {
    var key := Key(nbrs[v], n);
    KeySetMembers(nbrs, n, |nbrs|, key);
    assert IsKey(nbrs, n, key);
    var g0 :| 0 <= g0 < |groups| && groups[g0] == key;
    KeyMembers(nbrs[v], n, v);
    LastListing(groups, v, g0);
    RelabelLastWriter(groups, n, v);
  }

  /** With triangles (`nnd == 3`) and every vertex among its own neighbours, the welded mesh
      is well formed. */
  lemma WeldWellFormed<P>(coors: seq<P>, nbrs: seq<seq<nat>>, groups: seq<seq<nat>>, nel: nat)
    requires |coors| == nel * 3 && |nbrs| == |coors|
    requires forall v :: 0 <= v < |nbrs| ==> v in nbrs[v]
    requires Enumerates(groups, nbrs, |coors|) && KeysBelow(groups, |coors|)
    requires forall g :: 0 <= g < |groups| ==> |groups[g]| > 0
    ensures WeldMesh(coors, groups, nel, 3).WellFormed()
  {
    var n := |coors|;
    var ntri := Relabel(groups, n);
    var m := WeldMesh(coors, groups, nel, 3);
    forall k, j | 0 <= k < nel && 0 <= j < 3
      ensures 0 <= m.cells.rows[k][j] < |m.points|
    {
      RowBounds(k, nel, 3);
      VertexGroup(nbrs, groups, n, k * 3 + j);
      assert m.cells.rows[k][j] == ntri[k * 3 + j];
    }
  }

  /** A vertex listed by some group is listed by a last one. */
  lemma {:induction false} LastListing(groups: seq<seq<nat>>, v: nat, g0: nat)
    requires g0 < |groups| && v in groups[g0]
    ensures exists g ::
              0 <= g < |groups| && v in groups[g] && forall h :: g < h < |groups| ==> v !in groups[h]
    decreases |groups| - g0
  {
    if exists h :: g0 < h < |groups| && v in groups[h] {
      var h :| g0 < h < |groups| && v in groups[h];
      LastListing(groups, v, h);
    } else {
      assert v in groups[g0] && forall h :: g0 < h < |groups| ==> v !in groups[h];
    }
  }
}
