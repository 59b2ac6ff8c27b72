/** Pure operations on a two-dimensional table held as a sequence of rows:
    the `Array#transpose` / `Array#reverse` combinations a Grid rotates by,
    and the rectangular windows it enumerates. */
module Matrix {

  /** Number of columns of a rectangular table (0 when it has no rows). */
  function Width<T>(g: seq<seq<T>>): nat
  {
    if |g| == 0 then 0 else |g[0]|
  }

  /** Every row has the same length. */
  ghost predicate Rectangular<T>(g: seq<seq<T>>)
  {
    forall i :: 0 <= i < |g| ==> |g[i]| == Width(g)
  }

  /** Both dimensions are positive: the tables the rotation laws speak of. */
  ghost predicate NonEmpty<T>(g: seq<seq<T>>)
  {
    Rectangular(g) && |g| > 0 && Width(g) > 0
  }

  /** `Array#transpose`: row `j` of the result is column `j` of `g`.
      A table with no rows, or with rows of length 0, transposes to `[]`. */
  function Transpose<T>(g: seq<seq<T>>): (t: seq<seq<T>>)
    requires Rectangular(g)
    ensures Rectangular(t)
    ensures |t| == Width(g)
    ensures |t| > 0 ==> Width(t) == |g|
  {
    if |g| == 0 then []
    else seq(|g[0]|, j requires 0 <= j < |g[0]| => seq(|g|, i requires 0 <= i < |g| => g[i][j]))
  }

  /** Row `j` of the transpose is column `j` of the table. */
  lemma TransposeCells<T>(g: seq<seq<T>>)
    requires Rectangular(g)
    ensures forall j, i :: 0 <= j < Width(g) && 0 <= i < |g| ==> Transpose(g)[j][i] == g[i][j]
  {
  }

  /** `Array#reverse`. */
  function Reverse<T>(s: seq<T>): (r: seq<T>)
    ensures |r| == |s|
  {
    seq(|s|, k requires 0 <= k < |s| => s[|s| - 1 - k])
  }

  /** Every row reversed, row order kept. */
  function ReverseEach<T>(g: seq<seq<T>>): (r: seq<seq<T>>)
    ensures |r| == |g|
  {
    seq(|g|, i requires 0 <= i < |g| => Reverse(g[i]))
  }

  /** Clockwise quarter turn, computed as the source does: transpose, then
      reverse each row. */
  function RotateCW<T>(g: seq<seq<T>>): (r: seq<seq<T>>)
    requires Rectangular(g)
    ensures Rectangular(r)
  {
    ReverseEach(Transpose(g))
  }

  /** Anticlockwise quarter turn, computed as the source does: reverse each
      row, then transpose. */
  function RotateACW<T>(g: seq<seq<T>>): (r: seq<seq<T>>)
    requires Rectangular(g)
    ensures Rectangular(r)
  {
    var rev := ReverseEach(g);
    assert Rectangular(rev);
    Transpose(rev)
  }

  /** A clockwise turn makes an R x C table C x R, with `new[i][j] == old[R-1-j][i]`;
      a table with rows of length 0 turns into `[]`. */
  lemma RotateCWCells<T>(g: seq<seq<T>>)
    requires Rectangular(g)
    ensures Width(g) == 0 ==> RotateCW(g) == []
    ensures NonEmpty(g) ==> NonEmpty(RotateCW(g))
    ensures NonEmpty(g) ==> |RotateCW(g)| == Width(g) && Width(RotateCW(g)) == |g|
    ensures NonEmpty(g) ==> forall i, j :: 0 <= i < Width(g) && 0 <= j < |g| ==>
      RotateCW(g)[i][j] == g[|g| - 1 - j][i]
  {
  }

  /** An anticlockwise turn makes an R x C table C x R, with `new[i][j] == old[j][C-1-i]`;
      a table with rows of length 0 turns into `[]`. */
  lemma RotateACWCells<T>(g: seq<seq<T>>)
    requires Rectangular(g)
    ensures Width(g) == 0 ==> RotateACW(g) == []
    ensures NonEmpty(g) ==> NonEmpty(RotateACW(g))
    ensures NonEmpty(g) ==> |RotateACW(g)| == Width(g) && Width(RotateACW(g)) == |g|
    ensures NonEmpty(g) ==> forall i, j :: 0 <= i < Width(g) && 0 <= j < |g| ==>
      RotateACW(g)[i][j] == g[j][Width(g) - 1 - i]
  {
    var rev := ReverseEach(g);
    assert Rectangular(rev);
  }

  /** Two rectangular tables with the same dimensions and the same cells are equal. */
  lemma SameCells<T>(a: seq<seq<T>>, b: seq<seq<T>>)
    requires Rectangular(a) && Rectangular(b)
    requires |a| == |b| && Width(a) == Width(b)
    requires forall i, j :: 0 <= i < |a| && 0 <= j < Width(a) ==> a[i][j] == b[i][j]
    ensures a == b
  {
    forall i | 0 <= i < |a| ensures a[i] == b[i] {
      assert |a[i]| == Width(a) == |b[i]|;
    }
  }

  /** An anticlockwise turn undoes a clockwise one, and vice versa. */
  lemma RotateInverse<T>(g: seq<seq<T>>)
    requires NonEmpty(g)
    ensures RotateACW(RotateCW(g)) == g
    ensures RotateCW(RotateACW(g)) == g
  {
    UndoCW(g);
    UndoACW(g);
  }

  lemma UndoCW<T>(g: seq<seq<T>>)
    requires NonEmpty(g)
    ensures RotateACW(RotateCW(g)) == g
  {
    var cw := RotateCW(g);
    RotateCWCells(g);
    RotateACWCells(cw);
    SameCells(RotateACW(cw), g);
  }

  lemma UndoACW<T>(g: seq<seq<T>>)
    requires NonEmpty(g)
    ensures RotateCW(RotateACW(g)) == g
  {
    var acw := RotateACW(g);
    RotateACWCells(g);
    RotateCWCells(acw);
    SameCells(RotateCW(acw), g);
  }

  /** `k` successive clockwise turns. */
  function RotateN<T>(g: seq<seq<T>>, k: nat): (r: seq<seq<T>>)
    requires Rectangular(g)
    ensures Rectangular(r)
  {
    if k == 0 then g else RotateCW(RotateN(g, k - 1))
  }

  /** A half turn maps cell (i, j) to (R-1-i, C-1-j). */
  lemma HalfTurn<T>(g: seq<seq<T>>)
    requires NonEmpty(g)
    ensures NonEmpty(RotateN(g, 2))
    ensures |RotateN(g, 2)| == |g| && Width(RotateN(g, 2)) == Width(g)
    ensures forall i, j :: 0 <= i < |g| && 0 <= j < Width(g) ==>
      RotateN(g, 2)[i][j] == g[|g| - 1 - i][Width(g) - 1 - j]
  {
    assert RotateN(g, 1) == RotateCW(g);
    assert RotateN(g, 2) == RotateCW(RotateCW(g));
    TwoTurns(g);
  }

  /** Two clockwise turns, written out. */
  lemma TwoTurns<T>(g: seq<seq<T>>)
    requires NonEmpty(g)
    ensures NonEmpty(RotateCW(RotateCW(g)))
    ensures |RotateCW(RotateCW(g))| == |g| && Width(RotateCW(RotateCW(g))) == Width(g)
    ensures forall i, j :: 0 <= i < |g| && 0 <= j < Width(g) ==>
      RotateCW(RotateCW(g))[i][j] == g[|g| - 1 - i][Width(g) - 1 - j]
  {
    RotateCWCells(g);
    RotateCWCells(RotateCW(g));
  }

  /** Four clockwise turns restore the original table. */
  lemma FourTurns<T>(g: seq<seq<T>>)
    requires NonEmpty(g)
    ensures RotateN(g, 4) == g
  {
    var h := RotateCW(RotateCW(g));
    TwoTurns(g);
    TwoTurns(h);
    SameCells(RotateCW(RotateCW(h)), g);
    assert RotateN(g, 1) == RotateCW(g);
    assert RotateN(g, 2) == h;
    assert RotateN(g, 3) == RotateCW(h);
  }

  /** Turning `j` then `k` times is turning `j + k` times. */
  lemma {:induction false} RotateNAdd<T>(g: seq<seq<T>>, j: nat, k: nat)
    requires Rectangular(g)
    ensures RotateN(RotateN(g, j), k) == RotateN(g, j + k)
  {
    if k > 0 {
      RotateNAdd(g, j, k - 1);
      assert RotateN(RotateN(g, j), k) == RotateCW(RotateN(RotateN(g, j), k - 1));
      assert RotateN(g, j + k) == RotateCW(RotateN(g, j + k - 1));
    }
  }

  /** Every rotation of a non-empty table is a non-empty table. */
  lemma {:induction false} RotateNNonEmpty<T>(g: seq<seq<T>>, k: nat)
    requires NonEmpty(g)
    ensures NonEmpty(RotateN(g, k))
  {
    if k > 0 {
      RotateNNonEmpty(g, k - 1);
    }
  }

  /** The set of values held by the cells. */
  ghost function CellValues<T>(g: seq<seq<T>>): set<T>
  {
    set i, j | 0 <= i < |g| && 0 <= j < |g[i]| :: g[i][j]
  }

  /** A quarter turn moves cells around but keeps the values they hold. */
  lemma RotateKeepsValues<T>(g: seq<seq<T>>)
    requires NonEmpty(g)
    ensures CellValues(RotateCW(g)) == CellValues(g)
  {
    var r := RotateCW(g);
    forall v | v in CellValues(g) ensures v in CellValues(r) {
      var i, j :| 0 <= i < |g| && 0 <= j < |g[i]| && g[i][j] == v;
      assert r[j][|g| - 1 - i] == v;
    }
    forall v | v in CellValues(r) ensures v in CellValues(g) {
      var i, j :| 0 <= i < |r| && 0 <= j < |r[i]| && r[i][j] == v;
      assert g[|g| - 1 - j][i] == v;
    }
  }

  /** Any number of quarter turns keeps the values held by the cells. */
  lemma {:induction false} RotateNKeepsValues<T>(g: seq<seq<T>>, k: nat)
    requires NonEmpty(g)
    ensures CellValues(RotateN(g, k)) == CellValues(g)
  {
    if k > 0 {
      RotateNKeepsValues(g, k - 1);
      RotateNNonEmpty(g, k - 1);
      RotateKeepsValues(RotateN(g, k - 1));
    }
  }

  /** The `rows x columns` window whose top-left cell is `(top, left)`: from
      each row of the band starting at `top`, the `columns` cells from `left` on. */
  function Window<T>(g: seq<seq<T>>, top: nat, left: nat, rows: nat, columns: nat): (w: seq<seq<T>>)
    requires Rectangular(g)
    requires top + rows <= |g| && left + columns <= Width(g)
    ensures |w| == rows && Rectangular(w)
    ensures forall a :: 0 <= a < rows ==> |w[a]| == columns
    ensures forall a, b :: 0 <= a < rows && 0 <= b < columns ==> w[a][b] == g[top + a][left + b]
  {
    seq(rows, a requires 0 <= a < rows => g[top + a][left .. left + columns])
  }
}
