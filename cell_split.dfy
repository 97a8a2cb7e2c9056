/** `elems_q2t`: splitting quadrilaterals into triangles and hexahedra into tetrahedra with
    a fixed table, without creating nodes. */
module CellSplit {
  import opened Grid
  import opened MeshData

  /** Six tetrahedra per hexahedron, as corner numbers of the hexahedron. */
  const HexToTets: seq<seq<nat>> :=
    [[0, 2, 3, 6], [0, 3, 7, 6], [0, 7, 4, 6], [0, 5, 6, 4], [1, 5, 6, 0], [1, 6, 2, 0]]

  /** Two triangles per quadrilateral. */
  const QuadToTris: seq<seq<nat>> := [[0, 1, 2], [0, 2, 3]]

  /** The table `elems_q2t` picks for cells of `nnd` nodes. */
  function SplitTable(nnd: nat): seq<seq<nat>>
  {
    if nnd > 4 then HexToTets else QuadToTris
  }

  /** Every entry of the chosen table names a column of the input: the fancy index
      `el[:, q2t[ii, :]]` raises for any other width. */
  predicate TableFits(nnd: nat)
  {
    forall t, j :: 0 <= t < |SplitTable(nnd)| && 0 <= j < |SplitTable(nnd)[t]| ==>
      SplitTable(nnd)[t][j] < nnd
  }

  lemma TableFitsExactly(nnd: nat)
    ensures TableFits(nnd) <==> nnd == 4 || nnd >= 8
  {
    var table := SplitTable(nnd);
    if nnd > 4 {
      assert table == HexToTets;
      assert table[1][2] == 7;
    } else {
      assert table == QuadToTris;
      assert table[1][2] == 3;
    }
  }

  /** One sub-cell: the corners of `cell` that a table row names, `el[k, q2t[t, :]]`. */
  function Pick(cell: seq<int>, t: seq<nat>): (r: seq<int>)
    requires forall j :: 0 <= j < |t| ==> t[j] < |cell|
    ensures |r| == |t|
  {
    seq(|t|, j requires 0 <= j < |t| => cell[t[j]])
  }

  /** The split cells: row `r` is sub-cell `r % ns` of original cell `r / ns`. */
  function Split(el: Cells): (s: Cells)
    requires el.Valid() && TableFits(el.width)
  {
    var table := SplitTable(el.width);
    var ns := |table|;
    Cells(|table[0]|,
          seq(|el.rows| * ns, r requires 0 <= r < |el.rows| * ns =>
            SplitBound(r, |el.rows|, ns);
            Pick(el.rows[r / ns], table[r % ns])))
  }

  lemma SplitBound(r: nat, nel: nat, ns: nat)
    requires r < nel * ns
    ensures ns > 0 && r / ns < nel && r % ns < ns
  {
    if ns > 0 && r / ns >= nel {
      MulLeft(nel, r / ns, ns);
    }
  }

  /** Rows of `out` already written when table row `ii` has reached cell `k`. */
  predicate Written(q: nat, ns: nat, ii: nat, k: nat)
    requires ns > 0
  {
    q % ns < ii || (q % ns == ii && q / ns < k)
  }

  lemma WrittenStep(q: nat, ns: nat, ii: nat, k: nat)
    requires ns > 0 && Written(q, ns, ii, k + 1)
    ensures Written(q, ns, ii, k) || q == k * ns + ii
  {
  }

  lemma WrittenRound(q: nat, nel: nat, ns: nat, ii: nat)
    requires q < nel * ns && ns > 0
    ensures Written(q, ns, ii, nel) <==> Written(q, ns, ii + 1, 0)
  {
    SplitBound(q, nel, ns);
  }

  /** `elems_q2t`: the array `out` of `nel * ns` rows is filled one table row at a time,
      table row `ii` going to the rows `ii, ii + ns, ii + 2 ns, ...`. */
  method ElemsQ2T(el: Cells) returns (r: Result<Cells, MeshError>)
    requires el.Valid()
    ensures r.Err? <==> !(el.width == 4 || el.width >= 8)
    ensures r.Err? ==> r.error == SplitIndexOutOfRange
    ensures r.Ok? ==> TableFits(el.width) && r.value == Split(el)
  {
    TableFitsExactly(el.width);
    var table := SplitTable(el.width);
    if !TableFits(el.width) {
      return Err(SplitIndexOutOfRange);
    }
    var ns, nn := |table|, |table[0]|;
    var nel := |el.rows| * ns;
    var out := new seq<int>[nel](_ => seq(nn, _ => 0));
    ghost var spec := Split(el).rows;
    for ii := 0 to ns
      invariant forall q :: 0 <= q < nel && Written(q, ns, ii, 0) ==> out[q] == spec[q]
    {
      for k := 0 to |el.rows|
        invariant forall q :: 0 <= q < nel && Written(q, ns, ii, k) ==> out[q] == spec[q]
      {
        MulLeft(k + 1, |el.rows|, ns);
        DivModOf(k, ii, ns);
        out[k * ns + ii] := Pick(el.rows[k], table[ii]);
        forall q | 0 <= q < nel && Written(q, ns, ii, k + 1)
          ensures out[q] == spec[q]
        {
          WrittenStep(q, ns, ii, k);
        }
      }
      forall q | 0 <= q < nel
        ensures Written(q, ns, ii, |el.rows|) <==> Written(q, ns, ii + 1, 0)
      {
        WrittenRound(q, |el.rows|, ns, ii);
      }
    }
    assert out[..] == spec;
    return Ok(Cells(nn, out[..]));
  }

  /** Row `k * ns + i` of the output is cell `k` permuted by table row `i`: the sub-cells of
      one cell are contiguous, 2 per quadrilateral and 6 per hexahedron. */
  lemma SplitRow(el: Cells, k: nat, i: nat)
    requires el.Valid() && TableFits(el.width)
    requires k < |el.rows| && i < |SplitTable(el.width)|
    ensures |SplitTable(el.width)| == (if el.width == 4 then 2 else 6)
    ensures Split(el).Valid()
    ensures |Split(el).rows| == |el.rows| * |SplitTable(el.width)|
    ensures var ns := |SplitTable(el.width)|;
      k * ns + i < |Split(el).rows| &&
      Split(el).rows[k * ns + i] == Pick(el.rows[k], SplitTable(el.width)[i])
  {
    TableFitsExactly(el.width);
    var ns := |SplitTable(el.width)|;
    MulLeft(k + 1, |el.rows|, ns);
    DivModOf(k, i, ns);
  }

  /** No node is created: every id of a sub-cell is an id of the cell it came from, so ids
      in `[0, n)` stay in `[0, n)`. */
  lemma SplitKeepsIds(el: Cells, n: int)
    requires el.Valid() && TableFits(el.width) && el.IdsBelow(n)
    ensures Split(el).Valid() && Split(el).IdsBelow(n)
    ensures forall r, j :: 0 <= r < |Split(el).rows| && 0 <= j < |Split(el).rows[r]| ==>
      Split(el).rows[r][j] in el.rows[r / |SplitTable(el.width)|]
  {
    var table := SplitTable(el.width);
    var ns := |table|;
    forall r | 0 <= r < |Split(el).rows|
      ensures |Split(el).rows[r]| == Split(el).width
      ensures forall j :: 0 <= j < |Split(el).rows[r]| ==>
        Split(el).rows[r][j] in el.rows[r / ns] && 0 <= Split(el).rows[r][j] < n
    {
      SplitBound(r, |el.rows|, ns);
    }
  }

  /** Every corner of a quadrilateral or hexahedron is a corner of one of its pieces. */
  lemma SplitCoversCorners(w: nat, c: nat)
    requires (w == 4 || w == 8) && c < w
    ensures exists t, j ::
              0 <= t < |SplitTable(w)| && 0 <= j < |SplitTable(w)[t]| && SplitTable(w)[t][j] == c
  {
    var table := SplitTable(w);
    if w == 8 {
      var t, j := if c == 1 then 4 else if c == 4 then 2 else if c == 5 then 3
                  else if c == 7 then 1 else 0,
                  if c == 0 || c == 1 then 0 else if c == 2 || c == 5 then 1
                  else if c == 3 || c == 4 || c == 7 then 2 else 3;
      assert table[t][j] == c;
    } else {
      var t, j := if c == 3 then 1 else 0, if c == 3 then 2 else c;
      assert table[t][j] == c;
    }
  }

  /** Splitting loses no node: every node a cell names is named by one of its pieces. */
  lemma SplitKeepsReferenced(el: Cells, o: int)
    requires el.Valid() && (el.width == 4 || el.width == 8) && IsReferenced(el, o)
    ensures TableFits(el.width) && IsReferenced(Split(el), o)
  {
    TableFitsExactly(el.width);
    var table := SplitTable(el.width);
    var k, c :| 0 <= k < |el.rows| && 0 <= c < |el.rows[k]| && el.rows[k][c] == o;
    SplitCoversCorners(el.width, c);
    var t, j :| 0 <= t < |table| && 0 <= j < |table[t]| && table[t][j] == c;
    SplitRow(el, k, t);
    assert Split(el).rows[k * |table| + t][j] == o;
  }

  /** Splitting creates no node reference either: a node a piece names is named by its cell. */
  lemma SplitOnlyReferenced(el: Cells, o: int)
    requires el.Valid() && TableFits(el.width) && IsReferenced(Split(el), o)
    ensures IsReferenced(el, o)
  {
    var table := SplitTable(el.width);
    var r, j :| 0 <= r < |Split(el).rows| && 0 <= j < |Split(el).rows[r]| && Split(el).rows[r][j] == o;
    SplitBound(r, |el.rows|, |table|);
    assert el.rows[r / |table|][table[r % |table|][j]] == o;
  }
}
