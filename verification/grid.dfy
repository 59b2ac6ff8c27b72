/** The `Grid` class: a rectangular table whose cells are read and written
    by `(row, column)`, rotated a quarter turn in place, compared with or
    without rotation, and cut into every window of a given size. */
module Grids {
  import opened Wrappers
  import opened Matrix
  import Text

  /** `(r, c)` addresses a cell of `g`. */
  predicate InBounds<T>(g: seq<seq<T>>, r: int, c: int)
  {
    0 <= r < |g| && 0 <= c < |g[r]|
  }

  /** `other` equals `a` after 0, 1, 2 or 3 clockwise turns. */
  ghost predicate MatchesRotated<T>(a: seq<seq<T>>, other: seq<seq<T>>)
    requires Rectangular(other)
  {
    exists k :: 0 <= k < 4 && RotateN(other, k) == a
  }

  /** The first `count` windows of the row band starting at `top`, by column offset. */
  function Band<T>(g: seq<seq<T>>, top: nat, rows: nat, columns: nat, count: nat): (ws: seq<seq<seq<T>>>)
    requires Rectangular(g) && top + rows <= |g| && count + columns - 1 <= Width(g)
    ensures |ws| == count
  {
    if count == 0 then [] else Band(g, top, rows, columns, count - 1) + [Window(g, top, count - 1, rows, columns)]
  }

  /** Window `left` of a band starts at column `left`. */
  lemma {:induction false} BandIndex<T>(g: seq<seq<T>>, top: nat, rows: nat, columns: nat, count: nat, left: nat)
    requires Rectangular(g) && top + rows <= |g| && count + columns - 1 <= Width(g)
    requires left < count
    ensures Band(g, top, rows, columns, count)[left] == Window(g, top, left, rows, columns)
  {
    if left < count - 1 {
      BandIndex(g, top, rows, columns, count - 1, left);
    }
  }

  /** The windows of the first `bands` row bands, band by band and, within a
      band, by column offset. */
  function WindowsFrom<T>(g: seq<seq<T>>, rows: nat, columns: nat, bands: nat): (ws: seq<seq<seq<T>>>)
    requires Rectangular(g) && 0 < rows && 0 < columns
    requires bands + rows - 1 <= |g| && columns <= Width(g)
  {
    if bands == 0 then []
    else
      var top := bands - 1;
      WindowsFrom(g, rows, columns, top) + Band(g, top, rows, columns, Width(g) - columns + 1)
  }

  /** What `subgrids(rows, columns)` produces: `each_cons` rejects a size
      below 1 for the row bands, and for the columns only once a row band
      exists; a size larger than the table yields no window. */
  function SubgridsOf<T>(g: seq<seq<T>>, rows: int, columns: int): Result<seq<seq<seq<T>>>>
    requires Rectangular(g)
  {
    if rows <= 0 || (rows <= |g| && columns <= 0) then Err("invalid size")
    else if rows > |g| || columns > Width(g) then Ok([])
    else Ok(WindowsFrom(g, rows, columns, |g| - rows + 1))
  }

  /** The windows of `bands` bands number `bands` times the windows per band. */
  lemma {:induction false} WindowsFromCount<T>(g: seq<seq<T>>, rows: nat, columns: nat, bands: nat)
    requires Rectangular(g) && 0 < rows && 0 < columns
    requires bands + rows - 1 <= |g| && columns <= Width(g)
    ensures |WindowsFrom(g, rows, columns, bands)| == bands * (Width(g) - columns + 1)
  {
    if bands > 0 {
      WindowsFromCount(g, rows, columns, bands - 1);
    }
  }

  /** Window `left` after the windows of the first `top` bands is the one
      whose top-left cell is `(top, left)`. */
  lemma {:induction false} WindowsFromIndex<T>(g: seq<seq<T>>, rows: nat, columns: nat, bands: nat, top: nat, left: nat)
    requires Rectangular(g) && 0 < rows && 0 < columns
    requires bands + rows - 1 <= |g| && columns <= Width(g)
    requires top < bands && left < Width(g) - columns + 1
    ensures var i := |WindowsFrom(g, rows, columns, top)| + left;
      i < |WindowsFrom(g, rows, columns, bands)| && WindowsFrom(g, rows, columns, bands)[i] == Window(g, top, left, rows, columns)
  {
    var n := Width(g) - columns + 1;
    if top < bands - 1 {
      WindowsFromIndex(g, rows, columns, bands - 1, top, left);
    } else {
      BandIndex(g, top, rows, columns, n, left);
    }
  }

  /** For `1 <= rows <= R` and `1 <= columns <= C`, an R x C table has
      `(R - rows + 1) * (C - columns + 1)` windows. */
  lemma SubgridsCount<T>(g: seq<seq<T>>, rows: int, columns: int)
    requires Rectangular(g)
    requires 1 <= rows <= |g| && 1 <= columns <= Width(g)
    ensures SubgridsOf(g, rows, columns).Ok?
    ensures |SubgridsOf(g, rows, columns).value| == (|g| - rows + 1) * (Width(g) - columns + 1)
  {
    var bands := |g| - rows + 1;
    assert SubgridsOf(g, rows, columns) == Ok(WindowsFrom(g, rows, columns, bands));
    WindowsFromCount(g, rows, columns, bands);
  }

  /** Windows are ordered by row band, then column offset: the one at
      position `top * (C - columns + 1) + left` has its top-left cell at
      `(top, left)`, so its cell `(a, b)` is the table's cell
      `(top + a, left + b)` (see `Matrix.Window`). */
  lemma SubgridsWindow<T>(g: seq<seq<T>>, rows: int, columns: int, top: int, left: int)
    requires Rectangular(g)
    requires 1 <= rows <= |g| && 1 <= columns <= Width(g)
    requires 0 <= top <= |g| - rows && 0 <= left <= Width(g) - columns
    ensures SubgridsOf(g, rows, columns).Ok?
    ensures top * (Width(g) - columns + 1) + left < |SubgridsOf(g, rows, columns).value|
    ensures SubgridsOf(g, rows, columns).value[top * (Width(g) - columns + 1) + left]
         == Window(g, top, left, rows, columns)
  {
    var bands := |g| - rows + 1;
    assert SubgridsOf(g, rows, columns) == Ok(WindowsFrom(g, rows, columns, bands));
    WindowsFromCount(g, rows, columns, top);
    WindowsFromIndex(g, rows, columns, bands, top, left);
  }

  /** A window as large as the table is the only one, and equals the table. */
  lemma SubgridsFullSize<T>(g: seq<seq<T>>)
    requires NonEmpty(g)
    ensures SubgridsOf(g, |g|, Width(g)) == Ok([g])
  {
    var w := Window(g, 0, 0, |g|, Width(g));
    SameCells(w, g);
    BandIndex(g, 0, |g|, Width(g), 1, 0);
    assert Band(g, 0, |g|, Width(g), 1) == [w];
    assert WindowsFrom(g, |g|, Width(g), 1) == [] + [w];
  }

  /** A size of 0 for the rows always fails, and so does a size of 0 for the
      columns when a row band exists. */
  lemma SubgridsZeroSize<T>(g: seq<seq<T>>, n: int)
    requires Rectangular(g)
    ensures SubgridsOf(g, 0, n).Err?
    ensures 1 <= n <= |g| ==> SubgridsOf(g, n, 0).Err?
  {
  }

  /** A size beyond the table yields no window and no error. */
  lemma SubgridsOversize<T>(g: seq<seq<T>>, rows: int, columns: int)
    requires Rectangular(g) && rows >= 1 && columns >= 1
    requires rows > |g| || columns > Width(g)
    ensures SubgridsOf(g, rows, columns) == Ok([])
  {
  }

  class Grid<T(==)> {
    /** The table, one sequence per row (`@grid`). */
    var rows: seq<seq<T>>

    ghost predicate Valid()
      reads this
    {
      Rectangular(rows)
    }

    /** `Grid.new(grid)`. */
    constructor (grid: seq<seq<T>>)
      requires Rectangular(grid)
      ensures Valid() && rows == grid
    {
      rows := grid;
    }

    /** `cell(row, column)`: the value at an in-range coordinate, which is
        one of the values the grid holds. */
    function Cell(r: int, c: int): (v: T)
      reads this
      requires InBounds(rows, r, c)
      ensures v in CellValues(rows)
    {
      rows[r][c]
    }

    /** `set_cell(row, column, value)`: overwrites one in-range cell and
        returns the value written; every other cell keeps its value. */
    method SetCell(r: int, c: int, v: T) returns (written: T)
      requires Valid() && InBounds(rows, r, c)
      modifies this
      ensures Valid()
      ensures written == v && InBounds(rows, r, c) && Cell(r, c) == v
      ensures |rows| == |old(rows)| && Width(rows) == Width(old(rows))
      ensures forall i, j :: InBounds(rows, i, j) && (i != r || j != c) ==> rows[i][j] == old(rows)[i][j]
      ensures rows == old(rows)[r := old(rows)[r][c := v]]
    {
      rows := rows[r := rows[r][c := v]];
      written := v;
    }

    /** `==`: `other` is a Grid (a null reference stands for any value that
        is not one) with the same dimensions and the same value in every cell. */
    function Equals(other: Grid?<T>): (b: bool)
      reads this, other
      ensures b <==>
        other != null && |rows| == |other.rows|
        && (forall i :: 0 <= i < |rows| ==> |rows[i]| == |other.rows[i]|)
        && (forall i, j :: InBounds(rows, i, j) ==> rows[i][j] == other.rows[i][j])
    {
      if other == null then false
      else
        NestedEquality(rows, other.rows);
        rows == other.rows
    }

    /** `dup`: a new Grid holding the same table. */
    method Dup() returns (copy: Grid<T>)
      requires Valid()
      ensures fresh(copy) && copy.Valid() && copy.rows == rows
    {
      copy := new Grid(rows);
    }

    /** `rotate!(direction)`: a quarter turn in place, clockwise when
        `clockwise` holds and anticlockwise for any other direction. */
    method Rotate(clockwise: bool)
      requires Valid()
      modifies this
      ensures Valid()
      ensures rows == if clockwise then RotateCW(old(rows)) else RotateACW(old(rows))
    {
      rows := if clockwise then RotateCW(rows) else RotateACW(rows);
    }

    /** `all_rotations`: four new Grids, the first a copy of this one and
        each later one the clockwise turn of the one before; this Grid is
        left as it was. */
    method AllRotations() returns (rotations: seq<Grid<T>>)
      requires Valid()
      ensures |rotations| == 4
      ensures forall k :: 0 <= k < 4 ==> fresh(rotations[k]) && rotations[k].Valid()
      ensures forall k :: 0 <= k < 4 ==> rotations[k].rows == RotateN(rows, k)
    {
      rotations := [];
      var current := Dup();
      var k := 0;
      while k < 4
        invariant 0 <= k <= 4 && |rotations| == k
        invariant fresh(current) && current.Valid() && current.rows == RotateN(rows, k)
        invariant forall i :: 0 <= i < k ==> fresh(rotations[i]) && rotations[i] != current
        invariant forall i :: 0 <= i < k ==> rotations[i].Valid() && rotations[i].rows == RotateN(rows, i)
      {
        var copy := current.Dup();
        rotations := rotations + [copy];
        assert RotateN(rows, k + 1) == RotateCW(current.rows);
        current.Rotate(true);
        k := k + 1;
      }
    }

    /** `matches_with_rotations?(other)`: some rotation of `other` equals this Grid. */
    method MatchesWithRotations(other: Grid<T>) returns (b: bool)
      requires Valid() && other.Valid()
      ensures b <==> MatchesRotated(rows, other.rows)
    {
      var rotations := other.AllRotations();
      b := false;
      var k := 0;
      while k < 4 && !b
        invariant 0 <= k <= 4
        invariant b ==> exists i :: 0 <= i < k && RotateN(other.rows, i) == rows
        invariant !b ==> forall i :: 0 <= i < k ==> RotateN(other.rows, i) != rows
      {
        b := Equals(rotations[k]);
        assert b == (rows == RotateN(other.rows, k));
        k := k + 1;
      }
    }

    /** `each_subgrid(rows, columns)`: the windows it yields, in order. */
    method EachSubgrid(numRows: int, numColumns: int) returns (res: Result<seq<seq<seq<T>>>>)
      requires Valid()
      ensures res == SubgridsOf(rows, numRows, numColumns)
    {
      if numRows <= 0 || (numRows <= |rows| && numColumns <= 0) {
        return Err("invalid size");
      }
      var windows: seq<seq<seq<T>>> := [];
      if numRows > |rows| || numColumns > Width(rows) {
        return Ok(windows);
      }
      var g := rows;
      var perBand := Width(g) - numColumns + 1;
      var top := 0;
      while top + numRows <= |g|
        invariant 0 <= top <= |g| - numRows + 1
        invariant windows == WindowsFrom(g, numRows, numColumns, top)
      {
        var left := 0;
        while left < perBand
          invariant 0 <= left <= perBand
          invariant windows == WindowsFrom(g, numRows, numColumns, top) + Band(g, top, numRows, numColumns, left)
        {
          windows := windows + [Window(g, top, left, numRows, numColumns)];
          left := left + 1;
        }
        top := top + 1;
      }
      return Ok(windows);
    }

    /** `subgrids(rows, columns)`: the windows of `each_subgrid` as new Grids. */
    method Subgrids(numRows: int, numColumns: int) returns (res: Result<seq<Grid<T>>>)
      requires Valid()
      ensures res.Err? <==> SubgridsOf(rows, numRows, numColumns).Err?
      ensures res.Ok? ==> |res.value| == |SubgridsOf(rows, numRows, numColumns).value|
      ensures res.Ok? ==> forall k :: 0 <= k < |res.value| ==>
        fresh(res.value[k]) && res.value[k].Valid()
        && res.value[k].rows == SubgridsOf(rows, numRows, numColumns).value[k]
    {
      var windows := EachSubgrid(numRows, numColumns);
      if windows.Err? {
        return Err(windows.error);
      }
      var grids: seq<Grid<T>> := [];
      var k := 0;
      while k < |windows.value|
        invariant 0 <= k <= |windows.value| && |grids| == k
        invariant forall i :: 0 <= i < k ==>
          fresh(grids[i]) && grids[i].Valid() && grids[i].rows == windows.value[i]
      {
        var w := windows.value[k];
        assert Rectangular(w) by {
          assert windows.value == WindowsFrom(rows, numRows, numColumns, |rows| - numRows + 1);
          WindowsAreRectangular(rows, numRows, numColumns, |rows| - numRows + 1, k);
        }
        var sub := new Grid(w);
        grids := grids + [sub];
        k := k + 1;
      }
      return Ok(grids);
    }
  }

  /** Every window is a rectangular table. */
  lemma {:induction false} WindowsAreRectangular<T>(g: seq<seq<T>>, rows: nat, columns: nat, bands: nat, k: nat)
    requires Rectangular(g) && 0 < rows && 0 < columns
    requires bands + rows - 1 <= |g| && columns <= Width(g)
    requires k < |WindowsFrom(g, rows, columns, bands)|
    ensures Rectangular(WindowsFrom(g, rows, columns, bands)[k])
  {
    var prev := WindowsFrom(g, rows, columns, bands - 1);
    if k < |prev| {
      WindowsAreRectangular(g, rows, columns, bands - 1, k);
    } else {
      BandIndex(g, bands - 1, rows, columns, Width(g) - columns + 1, k - |prev|);
    }
  }

  /** Two tables are equal exactly when they have the same shape and the same cells. */
  lemma NestedEquality<T>(a: seq<seq<T>>, b: seq<seq<T>>)
    ensures a == b <==>
      |a| == |b| && (forall i :: 0 <= i < |a| ==> |a[i]| == |b[i]|)
      && (forall i, j :: InBounds(a, i, j) ==> a[i][j] == b[i][j])
  {
    if |a| == |b| && (forall i :: 0 <= i < |a| ==> |a[i]| == |b[i]|)
      && (forall i, j :: InBounds(a, i, j) ==> a[i][j] == b[i][j])
    {
      forall i | 0 <= i < |a| ensures a[i] == b[i] {
        assert forall j :: 0 <= j < |a[i]| ==> InBounds(a, i, j);
      }
    }
  }

  /** `Grid.from_input(input)`: one row per line, one cell per character. */
  method FromInput(input: string) returns (g: Grid<char>)
    requires Rectangular(Text.Lines(input))
    ensures fresh(g) && g.Valid() && g.rows == Text.Lines(input)
  {
    g := new Grid(Text.Lines(input));
  }

  /** Every rotation returned by `all_rotations` matches the original with
      rotations: turning it the remaining quarter turns restores the original. */
  lemma AllRotationsMatch<T>(g: seq<seq<T>>, k: nat)
    requires NonEmpty(g) && k < 4
    ensures MatchesRotated(g, RotateN(g, k))
  {
    var h := RotateN(g, k);
    if k == 0 {
      assert RotateN(h, 0) == g;
    } else {
      RotateNAdd(g, k, 4 - k);
      FourTurns(g);
      assert RotateN(h, 4 - k) == g;
    }
  }

  /** Tables holding different sets of values never match, whichever way one is turned. */
  lemma DifferentValuesNeverMatch<T>(a: seq<seq<T>>, b: seq<seq<T>>)
    requires NonEmpty(b)
    requires CellValues(a) != CellValues(b)
    ensures !MatchesRotated(a, b)
  {
    forall k | 0 <= k < 4 ensures RotateN(b, k) != a {
      RotateNKeepsValues(b, k);
    }
  }
}

/** Worked examples on the 4 x 4 table of distinct letters. */
module GridExamples {
  import opened Matrix
  import opened Grids

  function Letters(): (g: seq<seq<char>>)
    ensures NonEmpty(g)
  {
    ["abcd", "efgh", "ijkl", "mnop"]
  }

  /** One clockwise turn of `abcd / efgh / ijkl / mnop` gives `miea / njfb / okgc / plhd`. */
  lemma LettersTurnOnce()
    ensures RotateCW(Letters()) == ["miea", "njfb", "okgc", "plhd"]
  {
    var g := Letters();
    var expected: seq<seq<char>> := ["miea", "njfb", "okgc", "plhd"];
    RotateCWCells(g);
    SameCells(RotateCW(g), expected);
  }

  /** `[[0, 1], [2, 3]]` turns clockwise into `[[2, 0], [3, 1]]`, and that
      turns anticlockwise back into `[[0, 1], [2, 3]]`. */
  lemma SquareTurns(g: seq<seq<int>>)
    requires g == [[0, 1], [2, 3]]
    ensures RotateCW(g) == [[2, 0], [3, 1]]
    ensures RotateACW([[2, 0], [3, 1]]) == g
  {
    var turned: seq<seq<int>> := [[2, 0], [3, 1]];
    assert NonEmpty(g);
    RotateCWCells(g);
    SameCells(RotateCW(g), turned);
    UndoCW(g);
  }

  /** After one cell of the letters table is changed, no rotation of the
      changed table matches the original with rotations. */
  lemma ChangedLettersNeverMatch(k: nat)
    requires k < 4
    ensures var changed := Letters()[2 := Letters()[2][3 := '.']];
      Rectangular(changed) && !MatchesRotated(Letters(), RotateN(changed, k))
  {
    var g := Letters();
    var changed := g[2 := g[2][3 := '.']];
    assert NonEmpty(changed);
    assert changed[2][3] == '.';
    assert '.' in CellValues(changed);
    assert '.' !in CellValues(g) by {
      forall i, j | 0 <= i < |g| && 0 <= j < |g[i]| ensures g[i][j] != '.' {
        assert i == 0 || i == 1 || i == 2 || i == 3;
      }
    }
    RotateNKeepsValues(changed, k);
    RotateNNonEmpty(changed, k);
    DifferentValuesNeverMatch(g, RotateN(changed, k));
  }
}
