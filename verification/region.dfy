/** `Grid::Region`: a finite set of `(row, column)` coordinates with its
    area, its perimeter (boundary edges) and its edge count (straight sides). */
module Regions {
  import opened Wrappers

  /** A boundary edge: the cell inside the region, then the neighbouring cell outside it. */
  type Edge = (Coord, Coord)

  function Shift(c: Coord, d: Coord): Coord
  {
    (c.0 + d.0, c.1 + d.1)
  }

  const North: Coord := (-1, 0)
  const East: Coord := (0, 1)
  const South: Coord := (1, 0)
  const West: Coord := (0, -1)

  /** The four sides of a cell in the order `edge_count` visits them. */
  const Sides4: seq<Coord> := [North, East, South, West]

  /** The direction list `perimeter` uses, as written: north twice, never south. */
  const PerimeterDirections: seq<Coord> := [North, East, North, West]

  /** The argument of `Region.new`: a Set of coordinates, or anything else,
      which becomes the region's only coordinate. */
  datatype RegionArg = CellSet(cells: set<Coord>) | OneCell(cell: Coord)

  // ---------------------------------------------------------------------
  // Counting helpers

  function Image<A, B>(s: set<A>, f: A -> B): set<B>
  {
    set x | x in s :: f(x)
  }

  /** An injective map keeps the number of elements. */
  lemma {:induction false} InjectiveImageCard<A, B>(s: set<A>, f: A -> B)
    requires forall x, y :: x in s && y in s && f(x) == f(y) ==> x == y
    ensures |Image(s, f)| == |s|
    decreases |s|
  {
    if s != {} {
      var x :| x in s;
      var rest := s - {x};
      InjectiveImageCard(rest, f);
      assert Image(s, f) == Image(rest, f) + {f(x)};
      assert f(x) !in Image(rest, f);
    }
  }

  // ---------------------------------------------------------------------
  // Reference definitions

  /** Cells of `cells` whose neighbour in direction `d` is also in `cells`. */
  ghost function Linked(cells: set<Coord>, d: Coord): set<Coord>
  {
    set c | c in cells && Shift(c, d) in cells
  }

  /** Edges from a cell of `cells` to its neighbour in direction `d` when that neighbour is outside. */
  ghost function BoundaryToward(cells: set<Coord>, d: Coord): set<Edge>
  {
    set c | c in cells && Shift(c, d) !in cells :: (c, Shift(c, d))
  }

  /** Every boundary edge of the region: a cell inside paired with a
      cardinal neighbour outside. */
  ghost function Boundary(cells: set<Coord>): set<Edge>
  {
    BoundaryToward(cells, North) + BoundaryToward(cells, East)
      + BoundaryToward(cells, South) + BoundaryToward(cells, West)
  }

  /** Adjacent pairs inside the region, each counted once: at its upper
      member for a vertical pair and at its left member for a horizontal one. */
  ghost function AdjacentPairs(cells: set<Coord>): nat
  {
    |Linked(cells, South)| + |Linked(cells, East)|
  }

  /** What one cell adds to `perimeter`: 4, less one for each listed
      direction whose neighbour lies in the region. */
  function CellContribution(cells: set<Coord>, c: Coord, dirs: seq<Coord>, k: nat): int
    requires k <= |dirs|
  {
    if k == 0 then 4
    else CellContribution(cells, c, dirs, k - 1) - (if Shift(c, dirs[k - 1]) in cells then 1 else 0)
  }

  /** Moving a cell one step in direction `d` pairs the cells linked toward
      `d` with those linked back the other way. */
  lemma LinkedOpposite(cells: set<Coord>, d: Coord)
    ensures |Linked(cells, d)| == |Linked(cells, (-d.0, -d.1))|
  {
    var back: Coord := (-d.0, -d.1);
    var f := (c: Coord) => Shift(c, d);
    InjectiveImageCard(Linked(cells, d), f);
    forall c | c in Linked(cells, back) ensures c in Image(Linked(cells, d), f) {
      assert Shift(c, back) in Linked(cells, d);
      assert f(Shift(c, back)) == c;
    }
    forall c | c in Image(Linked(cells, d), f) ensures c in Linked(cells, back) {
      var x :| x in Linked(cells, d) && f(x) == c;
      assert Shift(c, back) == x;
    }
    assert Image(Linked(cells, d), f) == Linked(cells, back);
  }

  /** The edges toward `d` number the cells whose `d`-neighbour is outside. */
  lemma BoundaryTowardCard(cells: set<Coord>, d: Coord)
    ensures |BoundaryToward(cells, d)| == |cells| - |Linked(cells, d)|
  {
    var outward := cells - Linked(cells, d);
    var f := (c: Coord) => (c, Shift(c, d));
    InjectiveImageCard(outward, f);
    forall e | e in BoundaryToward(cells, d) ensures e in Image(outward, f) {
      assert f(e.0) == e;
    }
    assert BoundaryToward(cells, d) == Image(outward, f);
    assert |outward| == |cells| - |Linked(cells, d)|;
  }

  /** The region has `4 * area - (sum of links in all four directions)` boundary edges. */
  lemma BoundaryCard(cells: set<Coord>)
    ensures |Boundary(cells)| == 4 * |cells|
      - |Linked(cells, North)| - |Linked(cells, East)| - |Linked(cells, South)| - |Linked(cells, West)|
  {
    var n, e, s, w := BoundaryToward(cells, North), BoundaryToward(cells, East),
                      BoundaryToward(cells, South), BoundaryToward(cells, West);
    BoundaryTowardCard(cells, North);
    BoundaryTowardCard(cells, East);
    BoundaryTowardCard(cells, South);
    BoundaryTowardCard(cells, West);
    assert n !! e && n !! s && n !! w && e !! s && e !! w && s !! w;
    assert |n + e| == |n| + |e|;
    assert |n + e + s| == |n + e| + |s|;
    assert |n + e + s + w| == |n + e + s| + |w|;
  }

  /** The cell `c` adds to the literal perimeter count: 4 less two for a
      northern neighbour, one for an eastern and one for a western one. */
  lemma LiteralContribution(cells: set<Coord>, c: Coord)
    ensures CellContribution(cells, c, PerimeterDirections, 4)
      == 4 - 2 * (if Shift(c, North) in cells then 1 else 0)
           - (if Shift(c, East) in cells then 1 else 0)
           - (if Shift(c, West) in cells then 1 else 0)
  {
    var dirs := PerimeterDirections;
    assert dirs[0] == North && dirs[1] == East && dirs[2] == North && dirs[3] == West;
    assert CellContribution(cells, c, dirs, 1) == 4 - (if Shift(c, North) in cells then 1 else 0);
    assert CellContribution(cells, c, dirs, 2) == CellContribution(cells, c, dirs, 1) - (if Shift(c, East) in cells then 1 else 0);
    assert CellContribution(cells, c, dirs, 3) == CellContribution(cells, c, dirs, 2) - (if Shift(c, North) in cells then 1 else 0);
  }

  /** The literal count `4 * area - 2 * |north links| - |east links| - |west links|`
      is the number of boundary edges, and `4 * area - 2 * adjacent pairs`,
      because every north link is a south link seen from the other cell. */
  lemma LiteralPerimeterIsBoundary(cells: set<Coord>)
    ensures 4 * |cells| - 2 * |Linked(cells, North)| - |Linked(cells, East)| - |Linked(cells, West)|
         == |Boundary(cells)|
    ensures |Boundary(cells)| == 4 * |cells| - 2 * AdjacentPairs(cells)
  {
    BoundaryCard(cells);
    LinkedOpposite(cells, North);
    LinkedOpposite(cells, East);
  }

  // ---------------------------------------------------------------------
  // Boundary edges laid along straight lines

  /** `e` shifted `k` cells along its length: along the columns when inside
      and outside share a column, along the rows otherwise. */
  function ShiftEdge(e: Edge, k: int): Edge
  {
    if e.0.1 == e.1.1 then ((e.0.0, e.0.1 + k), (e.1.0, e.1.1 + k))
    else ((e.0.0 + k, e.0.1), (e.1.0 + k, e.1.1))
  }

  function Prev(e: Edge): Edge { ShiftEdge(e, -1) }
  function Next(e: Edge): Edge { ShiftEdge(e, 1) }

  /** Where the edge lies along its line. */
  function Pos(e: Edge): int
  {
    if e.0.1 == e.1.1 then e.0.1 else e.0.0
  }

  /** The line the edge lies on, named by its edge at position 0. */
  function Line(e: Edge): Edge
  {
    ShiftEdge(e, -Pos(e))
  }

  lemma LineFacts(e: Edge, k: int)
    ensures Line(ShiftEdge(e, k)) == Line(e) && Pos(ShiftEdge(e, k)) == Pos(e) + k
    ensures Next(Prev(e)) == e && Prev(Next(e)) == e
  {
  }

  /** An edge is fixed by its line and its position. */
  lemma SamePlace(a: Edge, b: Edge)
    requires Line(a) == Line(b) && Pos(a) == Pos(b)
    ensures a == b
  {
  }

  /** Two edges next to each other on the same line. */
  ghost predicate Adjacent(a: Edge, b: Edge)
  {
    Line(a) == Line(b) && (Pos(b) == Pos(a) + 1 || Pos(a) == Pos(b) + 1)
  }

  /** The only edges adjacent to `a` are the one before it and the one after it. */
  lemma AdjacentIsPrevOrNext(a: Edge, b: Edge)
    ensures Adjacent(a, b) <==> b == Prev(a) || b == Next(a)
  {
    LineFacts(a, -1);
    LineFacts(a, 1);
    if Adjacent(a, b) {
      if Pos(b) == Pos(a) + 1 { SamePlace(b, Next(a)); } else { SamePlace(b, Prev(a)); }
    }
  }

  /** A run of edges: all on one line, holding every edge of that line
      between any two of its edges. */
  ghost predicate Run(g: set<Edge>)
  {
    SameLine(g) && Convex(g)
  }

  /** All edges lie on one line. */
  ghost predicate SameLine(g: set<Edge>)
  {
    forall a, b :: a in g && b in g ==> Line(a) == Line(b)
  }

  /** Every edge of the line between two edges of `g` is in `g`. */
  ghost predicate Convex(g: set<Edge>)
  {
    forall a, b, c :: a in g && b in g && Line(c) == Line(a) && Pos(a) <= Pos(c) <= Pos(b) ==> c in g
  }

  /** A run holding the edge just before `e` but not `e` lies wholly before `e`. */
  lemma RunBefore(f: set<Edge>, e: Edge)
    requires Run(f) && Prev(e) in f && e !in f
    ensures forall a :: a in f ==> Line(a) == Line(e) && Pos(a) < Pos(e)
  {
    LineFacts(e, -1);
  }

  /** A run holding the edge just after `e` but not `e` lies wholly after `e`. */
  lemma RunAfter(s: set<Edge>, e: Edge)
    requires Run(s) && Next(e) in s && e !in s
    ensures forall a :: a in s ==> Line(a) == Line(e) && Pos(a) > Pos(e)
  {
    LineFacts(e, 1);
  }

  /** A run holding both neighbours of `e` holds `e`. */
  lemma RunHasNoHole(f: set<Edge>, e: Edge)
    requires Run(f) && Prev(e) in f && Next(e) in f
    ensures e in f
  {
    LineFacts(e, -1);
    LineFacts(e, 1);
  }

  /** The run ending just before `e`, then `e`, then the run starting just
      after it, make one run (either run may be empty). */
  lemma RunJoin(f: set<Edge>, e: Edge, s: set<Edge>)
    requires Run(f) && Run(s) && e !in f && e !in s
    requires f == {} || Prev(e) in f
    requires s == {} || Next(e) in s
    ensures Run(f + {e} + s)
  {
    if f != {} { RunBefore(f, e); }
    if s != {} { RunAfter(s, e); }
    JoinedRun(f, e, s);
  }

  /** Edges wholly before `e` on its line, then `e`, then edges wholly after
      it make a run when each side is a run reaching up to `e`. */
  lemma JoinedRun(f: set<Edge>, e: Edge, s: set<Edge>)
    requires Convex(f) && Convex(s)
    requires forall a :: a in f ==> Line(a) == Line(e) && Pos(a) < Pos(e)
    requires forall a :: a in s ==> Line(a) == Line(e) && Pos(a) > Pos(e)
    requires f == {} || Prev(e) in f
    requires s == {} || Next(e) in s
    ensures Run(f + {e} + s)
  {
    JoinedLine(f, e, s);
    JoinedConvex(f, e, s);
  }

  lemma JoinedLine(f: set<Edge>, e: Edge, s: set<Edge>)
    requires forall a :: a in f ==> Line(a) == Line(e)
    requires forall a :: a in s ==> Line(a) == Line(e)
    ensures SameLine(f + {e} + s)
  {
  }

  lemma JoinedConvex(f: set<Edge>, e: Edge, s: set<Edge>)
    requires Convex(f) && Convex(s)
    requires forall a :: a in f ==> Line(a) == Line(e) && Pos(a) < Pos(e)
    requires forall a :: a in s ==> Line(a) == Line(e) && Pos(a) > Pos(e)
    requires f == {} || Prev(e) in f
    requires s == {} || Next(e) in s
    ensures Convex(f + {e} + s)
  {
    var m := f + {e} + s;
    forall a, b, c | a in m && b in m && Line(c) == Line(a) && Pos(a) <= Pos(c) <= Pos(b) ensures c in m {
      if Pos(c) == Pos(e) {
        OnLine(f, e, s, a);
        SamePlace(c, e);
      } else if Pos(c) < Pos(e) {
        OnSide(f, e, s, a, true);
        LineFacts(e, -1);
        ConvexBefore(f, e, a, c);
      } else {
        OnSide(f, e, s, b, false);
        LineFacts(e, 1);
        ConvexAfter(s, e, b, c);
      }
    }
  }

  /** Every joined edge lies on the line of `e`. */
  lemma OnLine(f: set<Edge>, e: Edge, s: set<Edge>, a: Edge)
    requires forall x :: x in f ==> Line(x) == Line(e)
    requires forall x :: x in s ==> Line(x) == Line(e)
    requires a in f + {e} + s
    ensures Line(a) == Line(e)
  {
  }

  /** A member of the joined edges before `e` comes from `f`, one after `e` from `s`. */
  lemma OnSide(f: set<Edge>, e: Edge, s: set<Edge>, a: Edge, before: bool)
    requires forall x :: x in f ==> Line(x) == Line(e) && Pos(x) < Pos(e)
    requires forall x :: x in s ==> Line(x) == Line(e) && Pos(x) > Pos(e)
    requires a in f + {e} + s
    requires if before then Pos(a) < Pos(e) else Pos(a) > Pos(e)
    ensures before ==> a in f && Line(a) == Line(e)
    ensures !before ==> a in s && Line(a) == Line(e)
  {
  }

  /** An edge between a member of the run before `e` and `e` is in that run. */
  lemma ConvexBefore(f: set<Edge>, e: Edge, a: Edge, c: Edge)
    requires Convex(f) && Prev(e) in f && a in f
    requires Line(c) == Line(a) && Pos(a) <= Pos(c) < Pos(e)
    requires Line(Prev(e)) == Line(e) && Pos(Prev(e)) == Pos(e) - 1 && Line(a) == Line(e)
    ensures c in f
  {
  }

  /** An edge between `e` and a member of the run after `e` is in that run. */
  lemma ConvexAfter(s: set<Edge>, e: Edge, b: Edge, c: Edge)
    requires Convex(s) && Next(e) in s && b in s
    requires Line(c) == Line(b) && Pos(e) < Pos(c) <= Pos(b)
    requires Line(Next(e)) == Line(e) && Pos(Next(e)) == Pos(e) + 1 && Line(b) == Line(e)
    ensures c in s
  {
  }

  // ---------------------------------------------------------------------
  // The groups `edge_count` keeps

  /** The groups are non-empty, disjoint, and together hold exactly `p`. */
  ghost predicate Partition(groups: set<set<Edge>>, p: set<Edge>)
  {
    Within(groups, p) && Disjoint(groups) && Covers(groups, p)
  }

  /** Every group is a non-empty set of edges of `p`. */
  ghost predicate Within(groups: set<set<Edge>>, p: set<Edge>)
  {
    forall g :: g in groups ==> g != {} && g <= p
  }

  ghost predicate Disjoint(groups: set<set<Edge>>)
  {
    forall g1, g2 :: g1 in groups && g2 in groups && g1 != g2 ==> g1 !! g2
  }

  /** Every edge of `p` is in some group. */
  ghost predicate Covers(groups: set<set<Edge>>, p: set<Edge>)
  {
    forall e :: e in p ==> exists g :: g in groups && e in g
  }

  ghost predicate AllRuns(groups: set<set<Edge>>)
  {
    forall g :: g in groups ==> Run(g)
  }

  /** Edges of `p` next to each other along a line share a group. */
  ghost predicate Closed(groups: set<set<Edge>>, p: set<Edge>)
  {
    forall g, a, b :: g in groups && a in g && b in p && Adjacent(a, b) ==> b in g
  }

  /** Edges of `p` whose predecessor along the line is not in `p`. */
  ghost function Starts(p: set<Edge>): set<Edge>
  {
    set e | e in p && Prev(e) !in p
  }

  /** What `edge_count` maintains over the edges `p` processed so far: the
      groups partition `p` into runs, neighbours share a group, so there is
      one group per run start. */
  ghost predicate GroupsInv(groups: set<set<Edge>>, p: set<Edge>)
  {
    Partition(groups, p) && AllRuns(groups) && Closed(groups, p) && |groups| == |Starts(p)|
  }

  /** How adding `e` changes the run starts: `e` becomes one unless its
      predecessor is there, and its successor stops being one. */
  lemma StartsAdd(p: set<Edge>, e: Edge)
    requires e !in p
    ensures Next(e) in p ==> Next(e) in Starts(p)
    ensures e !in Starts(p)
    ensures Starts(p + {e}) == Starts(p) - {Next(e)} + (if Prev(e) in p then {} else {e})
  {
    LineFacts(e, 1);
    LineFacts(e, -1);
    forall x | x in p ensures (Prev(x) in p + {e}) == (Prev(x) in p || x == Next(e)) {
      LineFacts(x, -1);
      if Prev(x) == e { assert x == Next(e); }
    }
  }

  /** The partition after putting `e` in the group `f + {e} + s`. */
  lemma JoinPartition(groups: set<set<Edge>>, p: set<Edge>, e: Edge, f: set<Edge>, s: set<Edge>)
    requires Partition(groups, p) && e !in p
    requires f == {} || f in groups
    requires s == {} || s in groups
    ensures Partition(groups - {f, s} + {f + {e} + s}, p + {e})
  {
    JoinSubsets(groups, p, e, f, s);
    JoinDisjoint(groups, p, e, f, s);
    JoinCovers(groups, p, e, f, s);
  }

  lemma JoinSubsets(groups: set<set<Edge>>, p: set<Edge>, e: Edge, f: set<Edge>, s: set<Edge>)
    requires Within(groups, p)
    requires f == {} || f in groups
    requires s == {} || s in groups
    ensures Within(groups - {f, s} + {f + {e} + s}, p + {e})
  {
  }

  lemma JoinDisjoint(groups: set<set<Edge>>, p: set<Edge>, e: Edge, f: set<Edge>, s: set<Edge>)
    requires Within(groups, p) && Disjoint(groups)
    requires e !in p
    requires f == {} || f in groups
    requires s == {} || s in groups
    ensures Disjoint(groups - {f, s} + {f + {e} + s})
  {
    var m := f + {e} + s;
    forall g | g in groups && g != f && g != s ensures g !! m {
      assert e !in g;
    }
  }

  lemma JoinCovers(groups: set<set<Edge>>, p: set<Edge>, e: Edge, f: set<Edge>, s: set<Edge>)
    requires Covers(groups, p)
    ensures Covers(groups - {f, s} + {f + {e} + s}, p + {e})
  {
    var m := f + {e} + s;
    var groups' := groups - {f, s} + {m};
    forall x | x in p + {e} ensures exists g :: g in groups' && x in g {
      if x == e {
        assert m in groups';
      } else {
        var g :| g in groups && x in g;
        if g == f || g == s { assert m in groups' && x in m; } else { assert g in groups'; }
      }
    }
  }

  /** Neighbouring edges still share a group after putting `e` in `f + {e} + s`. */
  lemma JoinClosed(groups: set<set<Edge>>, p: set<Edge>, e: Edge, f: set<Edge>, s: set<Edge>)
    requires Within(groups, p) && Disjoint(groups)
    requires Closed(groups, p) && e !in p
    requires (f == {} && Prev(e) !in p) || (f in groups && Prev(e) in f)
    requires (s == {} && Next(e) !in p) || (s in groups && Next(e) in s)
    ensures Closed(groups - {f, s} + {f + {e} + s}, p + {e})
  {
    var m := f + {e} + s;
    forall g, a, b | g in groups - {f, s} + {m} && a in g && b in p + {e} && Adjacent(a, b) ensures b in g {
      if g == m {
        if a == e && b != e {
          AdjacentIsPrevOrNext(e, b);
        }
      } else if b == e {
        AdjacentIsPrevOrNext(e, a);
        assert false;
      }
    }
  }

  /** Putting `e` in the group `f + {e} + s` keeps every invariant: the two
      groups it touches are different groups, and they become one. */
  lemma Join(groups: set<set<Edge>>, p: set<Edge>, e: Edge, f: set<Edge>, s: set<Edge>)
    requires GroupsInv(groups, p) && e !in p
    requires (f == {} && Prev(e) !in p) || (f in groups && Prev(e) in f)
    requires (s == {} && Next(e) !in p) || (s in groups && Next(e) in s)
    ensures f == {} || f != s
    ensures GroupsInv(groups - {f, s} + {f + {e} + s}, p + {e})
  {
    JoinDistinct(groups, p, e, f, s);
    JoinPartition(groups, p, e, f, s);
    JoinKeepsRuns(groups, p, e, f, s);
    JoinKeepsClosed(groups, p, e, f, s);
    JoinKeepsCount(groups, p, e, f, s);
  }

  lemma JoinKeepsRuns(groups: set<set<Edge>>, p: set<Edge>, e: Edge, f: set<Edge>, s: set<Edge>)
    requires GroupsInv(groups, p) && e !in p
    requires (f == {} && Prev(e) !in p) || (f in groups && Prev(e) in f)
    requires (s == {} && Next(e) !in p) || (s in groups && Next(e) in s)
    ensures AllRuns(groups - {f, s} + {f + {e} + s})
  {
    JoinRuns(groups, e, f, s);
  }

  lemma JoinKeepsClosed(groups: set<set<Edge>>, p: set<Edge>, e: Edge, f: set<Edge>, s: set<Edge>)
    requires GroupsInv(groups, p) && e !in p
    requires (f == {} && Prev(e) !in p) || (f in groups && Prev(e) in f)
    requires (s == {} && Next(e) !in p) || (s in groups && Next(e) in s)
    ensures Closed(groups - {f, s} + {f + {e} + s}, p + {e})
  {
    JoinClosed(groups, p, e, f, s);
  }

  lemma JoinKeepsCount(groups: set<set<Edge>>, p: set<Edge>, e: Edge, f: set<Edge>, s: set<Edge>)
    requires GroupsInv(groups, p) && e !in p
    requires (f == {} && Prev(e) !in p) || (f in groups && Prev(e) in f)
    requires (s == {} && Next(e) !in p) || (s in groups && Next(e) in s)
    ensures |groups - {f, s} + {f + {e} + s}| == |Starts(p + {e})|
  {
    JoinDistinct(groups, p, e, f, s);
    JoinCount(groups, p, e, f, s);
  }

  /** Every group is still a run after putting `e` in `f + {e} + s`. */
  lemma JoinRuns(groups: set<set<Edge>>, e: Edge, f: set<Edge>, s: set<Edge>)
    requires AllRuns(groups)
    requires f == {} || f in groups
    requires s == {} || s in groups
    requires e !in f && e !in s
    requires f == {} || Prev(e) in f
    requires s == {} || Next(e) in s
    ensures AllRuns(groups - {f, s} + {f + {e} + s})
  {
    assert Run(f) && Run(s);
    RunJoin(f, e, s);
  }

  /** The runs on either side of a new edge are different groups. */
  lemma JoinDistinct(groups: set<set<Edge>>, p: set<Edge>, e: Edge, f: set<Edge>, s: set<Edge>)
    requires AllRuns(groups) && Within(groups, p) && e !in p
    requires f == {} || (f in groups && Prev(e) in f)
    requires s == {} || (s in groups && Next(e) in s)
    ensures f == {} || f != s
  {
    if f != {} && f == s {
      assert Run(f);
      RunHasNoHole(f, e);
    }
  }

  /** One group more when `e` starts a run, one fewer when it joins two runs. */
  lemma JoinCount(groups: set<set<Edge>>, p: set<Edge>, e: Edge, f: set<Edge>, s: set<Edge>)
    requires Within(groups, p)
    requires |groups| == |Starts(p)| && e !in p
    requires (f == {} && Prev(e) !in p) || (f in groups && Prev(e) in f)
    requires (s == {} && Next(e) !in p) || (s in groups && Next(e) in s)
    requires f == {} || f != s
    ensures |groups - {f, s} + {f + {e} + s}| == |Starts(p + {e})|
  {
    var m := f + {e} + s;
    assert e in m;
    StartsCount(p, e);
    GroupsCount(groups, f, s, m);
  }

  lemma StartsCount(p: set<Edge>, e: Edge)
    requires e !in p
    ensures |Starts(p + {e})| == |Starts(p)| + (if Prev(e) in p then 0 else 1) - (if Next(e) in p then 1 else 0)
  {
    StartsAdd(p, e);
    var a := Starts(p) - {Next(e)};
    assert |a| == |Starts(p)| - (if Next(e) in p then 1 else 0);
    assert e !in a;
  }

  lemma GroupsCount(groups: set<set<Edge>>, f: set<Edge>, s: set<Edge>, m: set<Edge>)
    requires m !in groups && {} !in groups
    requires f == {} || f in groups
    requires s == {} || s in groups
    requires f == {} || f != s
    ensures |groups - {f, s} + {m}| == |groups| + 1 - (if f == {} then 0 else 1) - (if s == {} then 0 else 1)
  {
    var rest := groups - {f, s};
    if f == {} {
      assert rest == groups - {s};
    } else if s == {} {
      assert rest == groups - {f};
    } else {
      assert rest == groups - {f} - {s};
    }
    assert m !in rest;
  }
  // ---------------------------------------------------------------------
  // `edge_neighbours` and the boundary edges of one cell

  /** `inside` is in the region and `outside` is not. */
  predicate Straddles(cells: set<Coord>, e: Edge)
  {
    e.0 in cells && e.1 !in cells
  }

  /** `edge_neighbours`: the edge one step back and one step forward along
      its line (along the columns when inside and outside share a column,
      along the rows otherwise), kept in that order when they straddle the
      region's border. */
  function EdgeNeighbours(cells: set<Coord>, e: Edge): (ns: seq<Edge>)
    ensures ns == (if Straddles(cells, Prev(e)) then [Prev(e)] else [])
                + (if Straddles(cells, Next(e)) then [Next(e)] else [])
  {
    var (inside, outside) := e;
    var results :=
      if inside.1 == outside.1 then
        [((inside.0, inside.1 - 1), (outside.0, outside.1 - 1)),
         ((inside.0, inside.1 + 1), (outside.0, outside.1 + 1))]
      else
        [((inside.0 - 1, inside.1), (outside.0 - 1, outside.1)),
         ((inside.0 + 1, inside.1), (outside.0 + 1, outside.1))];
    (if Straddles(cells, results[0]) then [results[0]] else [])
      + (if Straddles(cells, results[1]) then [results[1]] else [])
  }

  /** Next to a boundary edge, an edge straddles the border exactly when it
      is a boundary edge itself. */
  lemma ShiftedBoundary(cells: set<Coord>, e: Edge, k: int)
    requires e in Boundary(cells)
    ensures ShiftEdge(e, k) in Boundary(cells) <==> Straddles(cells, ShiftEdge(e, k))
  {
    var x := ShiftEdge(e, k);
    var d: Coord := (e.1.0 - e.0.0, e.1.1 - e.0.1);
    assert d in {North, East, South, West};
    assert x.1 == Shift(x.0, d);
    if Straddles(cells, x) {
      if d == North { assert x in BoundaryToward(cells, North); }
      else if d == East { assert x in BoundaryToward(cells, East); }
      else if d == South { assert x in BoundaryToward(cells, South); }
      else { assert x in BoundaryToward(cells, West); }
    }
  }

  /** The edges of cell `c` toward the first `k` sides of `Sides4` whose
      neighbour lies outside the region, in that order. */
  function CellEdges(cells: set<Coord>, c: Coord, k: nat): seq<Edge>
    requires k <= 4
  {
    if k == 0 then []
    else
      var neighbour := Shift(c, Sides4[k - 1]);
      CellEdges(cells, c, k - 1) + (if neighbour !in cells then [(c, neighbour)] else [])
  }

  /** The four neighbours of `c`, in the order of `Sides4`. */
  function SideNeighbours(c: Coord): (ns: seq<Coord>)
    ensures |ns| == 4
  {
    [Shift(c, North), Shift(c, East), Shift(c, South), Shift(c, West)]
  }

  lemma {:induction false} CellEdgesUpTo(cells: set<Coord>, c: Coord, k: nat)
    requires c in cells && k <= 4
    ensures forall i :: 0 <= i < |CellEdges(cells, c, k)| ==>
      CellEdges(cells, c, k)[i] in Boundary(cells) && CellEdges(cells, c, k)[i].0 == c
    ensures forall i :: 0 <= i < |CellEdges(cells, c, k)| ==>
      CellEdges(cells, c, k)[i].1 in SideNeighbours(c)[..k]
    ensures forall i, i' :: 0 <= i < i' < |CellEdges(cells, c, k)| ==>
      CellEdges(cells, c, k)[i] != CellEdges(cells, c, k)[i']
    ensures forall j :: 0 <= j < k && Shift(c, Sides4[j]) !in cells ==>
      (c, Shift(c, Sides4[j])) in CellEdges(cells, c, k)
  {
    if k > 0 {
      CellEdgesUpTo(cells, c, k - 1);
      var prev := CellEdges(cells, c, k - 1);
      var ns := SideNeighbours(c);
      var neighbour := Shift(c, Sides4[k - 1]);
      assert neighbour == ns[k - 1] && neighbour !in ns[..k - 1];
      assert ns[..k] == ns[..k - 1] + [ns[k - 1]];
      if neighbour !in cells {
        var ce := CellEdges(cells, c, k);
        assert ce == prev + [(c, neighbour)];
        assert (c, neighbour) in Boundary(cells) by {
          if k == 1 { assert (c, neighbour) in BoundaryToward(cells, North); }
          else if k == 2 { assert (c, neighbour) in BoundaryToward(cells, East); }
          else if k == 3 { assert (c, neighbour) in BoundaryToward(cells, South); }
          else { assert (c, neighbour) in BoundaryToward(cells, West); }
        }
      } else {
        assert CellEdges(cells, c, k) == prev;
      }
    }
  }

  /** The boundary edges whose inside cell is in `done`. */
  ghost function DoneEdges(cells: set<Coord>, done: set<Coord>): set<Edge>
  {
    set e | e in Boundary(cells) && e.0 in done
  }

  function Elements<T>(s: seq<T>): set<T>
  {
    set x | x in s
  }

  /** After all four sides of `c`, its edges are exactly its boundary edges. */
  lemma CellEdgesOfCell(cells: set<Coord>, c: Coord, done: set<Coord>)
    requires c in cells && c !in done
    ensures forall i :: 0 <= i < |CellEdges(cells, c, 4)| ==>
      CellEdges(cells, c, 4)[i] in Boundary(cells) && CellEdges(cells, c, 4)[i] !in DoneEdges(cells, done)
    ensures forall i, i' :: 0 <= i < i' < |CellEdges(cells, c, 4)| ==>
      CellEdges(cells, c, 4)[i] != CellEdges(cells, c, 4)[i']
    ensures DoneEdges(cells, done) + Elements(CellEdges(cells, c, 4)) == DoneEdges(cells, done + {c})
  {
    var ce := CellEdges(cells, c, 4);
    CellEdgesUpTo(cells, c, 4);
    forall e | e in DoneEdges(cells, done + {c}) && e.0 == c ensures e in Elements(ce) {
      if e in BoundaryToward(cells, North) { assert Shift(c, Sides4[0]) !in cells; }
      else if e in BoundaryToward(cells, East) { assert Shift(c, Sides4[1]) !in cells; }
      else if e in BoundaryToward(cells, South) { assert Shift(c, Sides4[2]) !in cells; }
      else { assert Shift(c, Sides4[3]) !in cells; }
    }
  }

  // ---------------------------------------------------------------------
  // Ordering the coordinates for `hash`

  /** `Array#sort` order on `[row, column]` pairs. */
  predicate CoordLess(a: Coord, b: Coord)
  {
    a.0 < b.0 || (a.0 == b.0 && a.1 < b.1)
  }

  lemma {:induction false} SmallestExists(s: set<Coord>)
    requires s != {}
    ensures exists m :: m in s && forall x :: x in s && x != m ==> CoordLess(m, x)
    decreases |s|
  {
    var y :| y in s;
    if s == {y} {
      assert forall x :: x in s && x != y ==> false;
    } else {
      SmallestExists(s - {y});
      var m :| m in s - {y} && forall x :: x in s - {y} && x != m ==> CoordLess(m, x);
      if CoordLess(m, y) {
        assert forall x :: x in s && x != m ==> CoordLess(m, x);
      } else {
        assert CoordLess(y, m);
        forall x | x in s && x != y ensures CoordLess(y, x) {
          if x != m { assert CoordLess(m, x); }
        }
      }
    }
  }

  /** The cells sorted, as `hash` uses them: a strictly increasing sequence. */
  ghost function SortedCells(s: set<Coord>): (r: seq<Coord>)
    ensures |r| == |s|
    ensures forall x :: x in r <==> x in s
    ensures forall i, j :: 0 <= i < j < |r| ==> CoordLess(r[i], r[j])
    decreases |s|
  {
    if s == {} then []
    else
      SmallestExists(s);
      var m :| m in s && forall x :: x in s && x != m ==> CoordLess(m, x);
      var rest := SortedCells(s - {m});
      SmallestFirst(s, m, rest);
      [m] + rest
  }

  /** The smallest cell followed by the others in order is the whole set in order. */
  lemma SmallestFirst(s: set<Coord>, m: Coord, rest: seq<Coord>)
    requires m in s && forall x :: x in s && x != m ==> CoordLess(m, x)
    requires |rest| == |s - {m}| && forall x :: x in rest <==> x in s - {m}
    requires forall i, j :: 0 <= i < j < |rest| ==> CoordLess(rest[i], rest[j])
    ensures |[m] + rest| == |s|
    ensures forall x :: x in [m] + rest <==> x in s
    ensures forall i, j :: 0 <= i < j < |[m] + rest| ==> CoordLess(([m] + rest)[i], ([m] + rest)[j])
  {
    var r := [m] + rest;
    forall i, j | 0 <= i < j < |r| ensures CoordLess(r[i], r[j]) {
      assert r[j] == rest[j - 1] && r[j] in rest;
      if i > 0 {
        assert r[i] == rest[i - 1];
      }
    }
  }

  // ---------------------------------------------------------------------
  // The region

  datatype Region = Region(cells: set<Coord>)
  {
    /** `area`: the number of cells, one per entry of the sorted list `hash` is built from. */
    function Area(): (a: nat)
      ensures a == |SortedCells(cells)|
    {
      |cells|
    }

    /** `hash`: computed from the sorted list of cells. */
    ghost function HashKey(): seq<Coord>
    {
      SortedCells(cells)
    }

    /** `perimeter`: every cell adds 4, less one for each of the listed
        directions whose neighbour is in the region. The list checks north
        twice and never south; since every north link is a south link seen
        from the other cell, the total is still the number of boundary
        edges. */
    method Perimeter() returns (p: int)
      ensures p == |Boundary(cells)|
      ensures p == 4 * |cells| - 2 * AdjacentPairs(cells)
    {
      p := 0;
      var todo := cells;
      while todo != {}
        invariant todo <= cells
        invariant p == LiteralSoFar(cells, todo)
        decreases |todo|
      {
        var c :| c in todo;
        var edges := 4;
        var k := 0;
        while k < |PerimeterDirections|
          invariant 0 <= k <= 4 && edges == CellContribution(cells, c, PerimeterDirections, k)
        {
          var neighbour := Shift(c, PerimeterDirections[k]);
          if neighbour in cells {
            edges := edges - 1;
          }
          k := k + 1;
        }
        LiteralStep(cells, todo, c);
        p := p + edges;
        todo := todo - {c};
      }
      LiteralAll(cells);
    }

    /** `edge_count`: the boundary edges of every cell are gathered into
        groups, an edge joining the group of the edge before or after it on
        its line, and merging the two when it has both. The number of groups
        is the number of straight sides: boundary edges with no boundary
        edge just before them on their line. */
    method EdgeCount() returns (count: nat)
      ensures count == |Starts(Boundary(cells))|
    {
      var groups: set<set<Edge>> := {};
      var todo := cells;
      NothingVisited(cells);
      while todo != {}
        invariant todo <= cells
        invariant GroupsInv(groups, DoneEdges(cells, cells - todo))
        decreases |todo|
      {
        var c :| c in todo;
        var cellEdges := CollectCellEdges(cells, c);
        VisitCell(cells, todo, c);
        groups := AddCellEdges(cells, groups, cellEdges, DoneEdges(cells, cells - todo));
        todo := todo - {c};
      }
      AllVisited(cells);
      count := |groups|;
    }
  }

  /** The `cell_edges` of one cell: an edge toward each of the four sides
      whose neighbour lies outside the region, in the order of `Sides4`. */
  method CollectCellEdges(cells: set<Coord>, c: Coord) returns (cellEdges: seq<Edge>)
    ensures cellEdges == CellEdges(cells, c, 4)
  {
    cellEdges := [];
    var k := 0;
    while k < |Sides4|
      invariant 0 <= k <= 4 && cellEdges == CellEdges(cells, c, k)
    {
      var neighbour := Shift(c, Sides4[k]);
      if neighbour !in cells {
        cellEdges := cellEdges + [(c, neighbour)];
      }
      k := k + 1;
    }
  }

  /** The new edges of one cell are added one after the other; the group
      invariant holds over everything processed so far. */
  method AddCellEdges(cells: set<Coord>, groups: set<set<Edge>>, cellEdges: seq<Edge>, ghost p: set<Edge>)
    returns (groups': set<set<Edge>>)
    requires GroupsInv(groups, p)
    requires Fresh(cells, p, cellEdges)
    ensures GroupsInv(groups', p + Elements(cellEdges))
  {
    groups' := groups;
    var i := 0;
    ghost var q := p;
    assert p + Elements(cellEdges[..0]) == p;
    while i < |cellEdges|
      invariant 0 <= i <= |cellEdges|
      invariant q == p + Elements(cellEdges[..i])
      invariant GroupsInv(groups', q)
    {
      NextEdge(cells, p, cellEdges, i);
      groups' := AddEdge(cells, groups', cellEdges[i], q);
      q := q + {cellEdges[i]};
      i := i + 1;
    }
    WholePrefix(cellEdges);
  }

  /** The elements of the whole-length prefix are those of the sequence. */
  lemma WholePrefix<T>(s: seq<T>)
    ensures Elements(s[..|s|]) == Elements(s)
  {
    assert s[..|s|] == s;
  }

  /** Every edge of `p` straddles the border. */
  ghost predicate Straddling(cells: set<Coord>, p: set<Edge>)
  {
    forall x :: x in p ==> Straddles(cells, x)
  }

  /** Every processed edge and every edge of `cellEdges` straddles the
      border, and the edges of `cellEdges` are distinct and not yet processed. */
  ghost predicate Fresh(cells: set<Coord>, p: set<Edge>, cellEdges: seq<Edge>)
  {
    Straddling(cells, p) &&
    (forall i :: 0 <= i < |cellEdges| ==> Straddles(cells, cellEdges[i]) && cellEdges[i] !in p) &&
    (forall i, i' :: 0 <= i < i' < |cellEdges| ==> cellEdges[i] != cellEdges[i'])
  }

  /** The next edge of `cellEdges` is new, and every edge processed before it straddles the border. */
  lemma NextEdge(cells: set<Coord>, p: set<Edge>, cellEdges: seq<Edge>, i: nat)
    requires Fresh(cells, p, cellEdges) && i < |cellEdges|
    ensures cellEdges[i] !in p + Elements(cellEdges[..i])
    ensures Straddling(cells, p + Elements(cellEdges[..i]))
    ensures p + Elements(cellEdges[..i]) + {cellEdges[i]} == p + Elements(cellEdges[..i + 1])
  {
    assert cellEdges[..i + 1] == cellEdges[..i] + [cellEdges[i]];
  }

  /** Every boundary edge straddles the border. */
  lemma BoundaryStraddles(cells: set<Coord>, x: Edge)
    requires x in Boundary(cells)
    ensures Straddles(cells, x)
  {
  }

  /** The edges of a cell not yet visited are fresh, and once they are
      processed the cell counts as visited. */
  lemma VisitCell(cells: set<Coord>, todo: set<Coord>, c: Coord)
    requires todo <= cells && c in todo
    ensures Fresh(cells, DoneEdges(cells, cells - todo), CellEdges(cells, c, 4))
    ensures DoneEdges(cells, cells - todo) + Elements(CellEdges(cells, c, 4))
         == DoneEdges(cells, cells - (todo - {c}))
    ensures |todo - {c}| < |todo|
  {
    var ce := CellEdges(cells, c, 4);
    var done := cells - todo;
    assert cells - (todo - {c}) == done + {c};
    CellEdgesOfCell(cells, c, done);
    forall x | x in DoneEdges(cells, done) ensures Straddles(cells, x) {
      BoundaryStraddles(cells, x);
    }
    forall i | 0 <= i < |ce| ensures Straddles(cells, ce[i]) {
      BoundaryStraddles(cells, ce[i]);
    }
  }

  /** Before any cell is visited, no edge is processed and there are no groups. */
  lemma NothingVisited(cells: set<Coord>)
    ensures DoneEdges(cells, cells - cells) == {}
    ensures GroupsInv({}, {})
  {
    assert Starts({}) == {};
  }

  /** With every cell visited, every boundary edge has been processed. */
  lemma AllVisited(cells: set<Coord>)
    ensures DoneEdges(cells, cells - {}) == Boundary(cells)
  {
    assert cells - {} == cells;
  }

  /** The literal count over the cells visited so far (those not in `todo`). */
  ghost function LiteralSoFar(cells: set<Coord>, todo: set<Coord>): int
  {
    4 * |cells - todo| - 2 * |Linked(cells, North) - todo|
      - |Linked(cells, East) - todo| - |Linked(cells, West) - todo|
  }

  /** Visiting `c` adds its contribution to the literal count. */
  lemma LiteralStep(cells: set<Coord>, todo: set<Coord>, c: Coord)
    requires todo <= cells && c in todo
    ensures LiteralSoFar(cells, todo - {c}) == LiteralSoFar(cells, todo) + CellContribution(cells, c, PerimeterDirections, 4)
  {
    LiteralContribution(cells, c);
    TakeOne(cells, todo, c);
    TakeOne(Linked(cells, North), todo, c);
    TakeOne(Linked(cells, East), todo, c);
    TakeOne(Linked(cells, West), todo, c);
  }

  /** Once every cell is visited, the literal count is the number of boundary edges. */
  lemma LiteralAll(cells: set<Coord>)
    ensures LiteralSoFar(cells, {}) == |Boundary(cells)|
    ensures LiteralSoFar(cells, {}) == 4 * |cells| - 2 * AdjacentPairs(cells)
  {
    assert cells - {} == cells;
    assert Linked(cells, North) - {} == Linked(cells, North);
    assert Linked(cells, East) - {} == Linked(cells, East);
    assert Linked(cells, West) - {} == Linked(cells, West);
    LiteralPerimeterIsBoundary(cells);
  }

  /** Taking `c` out of the cells still to visit adds it to `a - todo` when `a` holds it. */
  lemma TakeOne(a: set<Coord>, todo: set<Coord>, c: Coord)
    requires c in todo
    ensures |a - (todo - {c})| == |a - todo| + (if c in a then 1 else 0)
  {
    if c in a {
      assert a - (todo - {c}) == (a - todo) + {c};
    } else {
      assert a - (todo - {c}) == a - todo;
    }
  }

  /** The lookup of the group holding an edge: some group holding `x`, or none
      when no group does (always none for a missing `x`). */
  method FindGroup(groups: set<set<Edge>>, x: Option<Edge>) returns (r: Option<set<Edge>>)
    ensures r.Some? ==> x.Some? && r.value in groups && x.value in r.value
    ensures r.None? ==> x.None? || forall g :: g in groups ==> x.value !in g
  {
    var rest := groups;
    while rest != {}
      invariant rest <= groups
      invariant x.Some? ==> forall g :: g in groups - rest ==> x.value !in g
      decreases |rest|
    {
      var g :| g in rest;
      if x.Some? && x.value in g {
        return Some(g);
      }
      rest := rest - {g};
    }
    return None;
  }

  /** One step of `cell_edges.each`: look up the groups of the edge's
      neighbours, then open a new group, extend one, or merge two. */
  method AddEdge(cells: set<Coord>, groups: set<set<Edge>>, e: Edge, ghost p: set<Edge>)
    returns (groups': set<set<Edge>>)
    requires GroupsInv(groups, p) && e !in p
    requires Straddling(cells, p)
    ensures GroupsInv(groups', p + {e})
  {
    var ns := EdgeNeighbours(cells, e);
    var first := if |ns| > 0 then Some(ns[0]) else None;
    var second := if |ns| > 1 then Some(ns[1]) else None;
    var firstGroup := FindGroup(groups, first);
    var secondGroup := FindGroup(groups, second);
    NeighbourGroups(cells, groups, p, e, first, second, firstGroup, secondGroup);
    if firstGroup.None? && secondGroup.None? {
      groups' := groups + {{e}};
      OpenGroup(groups, p, e);
    } else if firstGroup.Some? && secondGroup.None? {
      groups' := groups - {firstGroup.value} + {firstGroup.value + {e}};
      ExtendGroup(groups, p, e, firstGroup.value);
    } else if firstGroup.None? && secondGroup.Some? {
      groups' := groups - {secondGroup.value} + {secondGroup.value + {e}};
      ExtendGroup(groups, p, e, secondGroup.value);
    } else {
      var merged := firstGroup.value + {e} + secondGroup.value;
      groups' := groups - {firstGroup.value} + {merged};
      groups' := groups' - {secondGroup.value};
      MergeGroups(groups, p, e, firstGroup.value, secondGroup.value);
    }
  }

  /** What the two lookups of `AddEdge` find: a group is found for each
      processed neighbour of `e`, the first lookup trying the edge before
      `e` when it straddles the border and the edge after it otherwise. */
  lemma NeighbourGroups(cells: set<Coord>, groups: set<set<Edge>>, p: set<Edge>, e: Edge,
                        first: Option<Edge>, second: Option<Edge>,
                        firstGroup: Option<set<Edge>>, secondGroup: Option<set<Edge>>)
    requires Covers(groups, p)
    requires Prev(e) in p ==> Straddles(cells, Prev(e))
    requires Next(e) in p ==> Straddles(cells, Next(e))
    requires first == (if |EdgeNeighbours(cells, e)| > 0 then Some(EdgeNeighbours(cells, e)[0]) else None)
    requires second == (if |EdgeNeighbours(cells, e)| > 1 then Some(EdgeNeighbours(cells, e)[1]) else None)
    requires firstGroup.Some? ==> first.Some? && firstGroup.value in groups && first.value in firstGroup.value
    requires firstGroup.None? ==> first.None? || forall g :: g in groups ==> first.value !in g
    requires secondGroup.Some? ==> second.Some? && secondGroup.value in groups && second.value in secondGroup.value
    requires secondGroup.None? ==> second.None? || forall g :: g in groups ==> second.value !in g
    ensures firstGroup.None? && secondGroup.None? ==> Prev(e) !in p && Next(e) !in p
    ensures firstGroup.Some? && secondGroup.None? ==>
      (Prev(e) in firstGroup.value && Next(e) !in p) || (Next(e) in firstGroup.value && Prev(e) !in p)
    ensures firstGroup.None? && secondGroup.Some? ==> Prev(e) !in p && Next(e) in secondGroup.value
    ensures firstGroup.Some? && secondGroup.Some? ==> Prev(e) in firstGroup.value && Next(e) in secondGroup.value
  {
    var ns := EdgeNeighbours(cells, e);
    var before, after := Straddles(cells, Prev(e)), Straddles(cells, Next(e));
    if before && after {
      assert ns == [Prev(e), Next(e)];
      assert first == Some(Prev(e)) && second == Some(Next(e));
    } else if before {
      assert ns == [Prev(e)];
      assert first == Some(Prev(e)) && second == None;
    } else if after {
      assert ns == [Next(e)];
      assert first == Some(Next(e)) && second == None;
    } else {
      assert ns == [];
    }
  }

  /** An edge with no processed neighbour opens a group of its own. */
  lemma OpenGroup(groups: set<set<Edge>>, p: set<Edge>, e: Edge)
    requires GroupsInv(groups, p) && e !in p && Prev(e) !in p && Next(e) !in p
    ensures GroupsInv(groups + {{e}}, p + {e})
  {
    Join(groups, p, e, {}, {});
    NoEmptyGroup(groups, p);
    SameGroups(groups, {}, e, {}, groups + {{e}});
  }

  /** An edge with one processed neighbour joins that neighbour's group. */
  lemma ExtendGroup(groups: set<set<Edge>>, p: set<Edge>, e: Edge, g: set<Edge>)
    requires GroupsInv(groups, p) && e !in p && g in groups
    requires (Prev(e) in g && Next(e) !in p) || (Next(e) in g && Prev(e) !in p)
    ensures GroupsInv(groups - {g} + {g + {e}}, p + {e})
  {
    NoEmptyGroup(groups, p);
    ExtendedGroups(groups, g, e);
    if Prev(e) in g && Next(e) !in p {
      Join(groups, p, e, g, {});
      Transport(groups - {g, {}} + {g + {e} + {}}, groups - {g} + {g + {e}}, p + {e});
    } else {
      Join(groups, p, e, {}, g);
      Transport(groups - {{}, g} + {{} + {e} + g}, groups - {g} + {g + {e}}, p + {e});
    }
  }

  /** An edge between two processed edges merges their two groups. */
  lemma MergeGroups(groups: set<set<Edge>>, p: set<Edge>, e: Edge, f: set<Edge>, s: set<Edge>)
    requires GroupsInv(groups, p) && e !in p && f in groups && s in groups
    requires Prev(e) in f && Next(e) in s
    ensures GroupsInv((groups - {f} + {f + {e} + s}) - {s}, p + {e})
  {
    Join(groups, p, e, f, s);
    assert e !in s;
    MergedGroups(groups, f, e, s);
    Transport(groups - {f, s} + {f + {e} + s}, (groups - {f} + {f + {e} + s}) - {s}, p + {e});
  }

  /** The ways `AddEdge` writes the new groups all denote `groups - {f, s} + {f + {e} + s}`. */
  /** The invariant carries over to an equal set of groups. */
  lemma Transport(groups: set<set<Edge>>, groups': set<set<Edge>>, p: set<Edge>)
    requires GroupsInv(groups, p) && groups == groups'
    ensures GroupsInv(groups', p)
  {
  }

  /** No group is empty. */
  lemma NoEmptyGroup(groups: set<set<Edge>>, p: set<Edge>)
    requires Within(groups, p)
    ensures {} !in groups
  {
  }

  /** Extending `g` by `e` is a join with an empty group on either side. */
  lemma ExtendedGroups(groups: set<set<Edge>>, g: set<Edge>, e: Edge)
    requires {} !in groups
    ensures groups - {g, {}} + {g + {e} + {}} == groups - {g} + {g + {e}}
    ensures groups - {{}, g} + {{} + {e} + g} == groups - {g} + {g + {e}}
  {
    assert g + {e} + {} == g + {e} == {} + {e} + g;
  }

  /** Replacing `f` by the merged group and then dropping `s` replaces both. */
  lemma MergedGroups(groups: set<set<Edge>>, f: set<Edge>, e: Edge, s: set<Edge>)
    requires e !in s
    ensures (groups - {f} + {f + {e} + s}) - {s} == groups - {f, s} + {f + {e} + s}
  {
    assert f + {e} + s != s;
  }

  lemma SameGroups(groups: set<set<Edge>>, f: set<Edge>, e: Edge, s: set<Edge>, groups': set<set<Edge>>)
    requires {} !in groups && e !in s
    requires (f == {} && s == {} && groups' == groups + {{e}})
          || (s == {} && groups' == groups - {f} + {f + {e}})
          || (f == {} && groups' == groups - {s} + {s + {e}})
          || (groups' == (groups - {f} + {f + {e} + s}) - {s})
    ensures groups' == groups - {f, s} + {f + {e} + s}
  {
    if f == {} && s == {} {
      assert f + {e} + s == {e};
    } else if s == {} {
      assert f + {e} + s == f + {e};
    } else if f == {} {
      assert f + {e} + s == s + {e};
    } else {
      assert f + {e} + s != s;
    }
  }

  // ---------------------------------------------------------------------
  // Properties

  /** `perimeter` lies between 0 and four times the area. */
  lemma PerimeterBounds(r: Region)
    ensures 0 <= |Boundary(r.cells)| <= 4 * r.Area()
  {
    LiteralPerimeterIsBoundary(r.cells);
  }

  /** There are never more straight sides than boundary edges. */
  lemma SidesAtMostPerimeter(r: Region)
    ensures |Starts(Boundary(r.cells))| <= |Boundary(r.cells)|
  {
    var b := Boundary(r.cells);
    assert Starts(b) <= b;
    assert b == Starts(b) + (b - Starts(b));
  }

  /** A region of one cell has four boundary edges, each a side of its own:
      `perimeter` and `edge_count` are both 4. */
  lemma SingleCell(c: Coord)
    ensures |Boundary({c})| == 4 && |Starts(Boundary({c}))| == 4
  {
    var n, e, s, w := (c, Shift(c, North)), (c, Shift(c, East)), (c, Shift(c, South)), (c, Shift(c, West));
    assert BoundaryToward({c}, North) == {n};
    assert BoundaryToward({c}, East) == {e};
    assert BoundaryToward({c}, South) == {s};
    assert BoundaryToward({c}, West) == {w};
    assert Boundary({c}) == {n, e, s, w};
    assert Starts({n, e, s, w}) == {n, e, s, w};
  }

  /** The cells of the filled rectangle `h` rows high and `w` columns wide
      whose top-left cell is `(top, left)`. */
  ghost function Rectangle(top: int, left: int, h: nat, w: nat): set<Coord>
  {
    set r, c | top <= r < top + h && left <= c < left + w :: (r, c)
  }

  /** A filled rectangle has four straight sides: `edge_count` is 4. The
      sides start at the corner edges with no boundary edge before them. */
  lemma RectangleSides(top: int, left: int, h: nat, w: nat)
    requires h >= 1 && w >= 1
    ensures |Starts(Boundary(Rectangle(top, left, h, w)))| == 4
  {
    var cells := Rectangle(top, left, h, w);
    var nw: Coord, ne: Coord, sw: Coord := (top, left), (top, left + w - 1), (top + h - 1, left);
    var corners := {(nw, Shift(nw, North)), (nw, Shift(nw, West)), (ne, Shift(ne, East)), (sw, Shift(sw, South))};
    forall x | x in Starts(Boundary(cells)) ensures x in corners {
      RectangleStart(top, left, h, w, x);
    }
    forall x | x in corners ensures x in Starts(Boundary(cells)) {
      assert x.0 in cells && x.1 !in cells;
      assert Prev(x).0 !in cells;
      assert x in Boundary(cells) && Prev(x) !in Boundary(cells);
    }
    assert Starts(Boundary(cells)) == corners;
  }

  /** A boundary edge of a rectangle with no boundary edge before it is at a corner. */
  lemma RectangleStart(top: int, left: int, h: nat, w: nat, x: Edge)
    requires h >= 1 && w >= 1
    requires x in Starts(Boundary(Rectangle(top, left, h, w)))
    ensures var nw: Coord, ne: Coord, sw: Coord := (top, left), (top, left + w - 1), (top + h - 1, left);
      x in {(nw, Shift(nw, North)), (nw, Shift(nw, West)), (ne, Shift(ne, East)), (sw, Shift(sw, South))}
  {
    var cells := Rectangle(top, left, h, w);
    var d := if x in BoundaryToward(cells, North) then North
      else if x in BoundaryToward(cells, East) then East
      else if x in BoundaryToward(cells, South) then South
      else West;
    RectanglePrev(top, left, h, w, x, d);
  }

  /** An edge of a rectangle toward `d` that is not at the start of its side
      has a boundary edge before it. */
  lemma RectanglePrev(top: int, left: int, h: nat, w: nat, x: Edge, d: Coord)
    requires d in Sides4
    requires x in BoundaryToward(Rectangle(top, left, h, w), d)
    ensures d == North || d == South ==> x.0.1 > left ==> Prev(x) in BoundaryToward(Rectangle(top, left, h, w), d)
    ensures d == East || d == West ==> x.0.0 > top ==> Prev(x) in BoundaryToward(Rectangle(top, left, h, w), d)
    ensures top <= x.0.0 < top + h && left <= x.0.1 < left + w && x == (x.0, Shift(x.0, d))
  {
    var cells := Rectangle(top, left, h, w);
    var i := x.0;
    assert i in cells && x.1 !in cells && x == (i, Shift(i, d));
    if (d == North || d == South) && i.1 > left {
      var q := Shift(i, West);
      assert q in cells && Shift(q, d) !in cells;
      assert Prev(x) == (q, Shift(q, d));
    }
    if (d == East || d == West) && i.0 > top {
      var q := Shift(i, North);
      assert q in cells && Shift(q, d) !in cells;
      assert Prev(x) == (q, Shift(q, d));
    }
  }

  /** Two regions have the same `hash` input exactly when they hold the same
      cells, which is when `==` holds. */
  lemma HashMatchesEquality(a: Region, b: Region)
    ensures a.HashKey() == b.HashKey() <==> a == b
  {
    if a.HashKey() == b.HashKey() {
      assert forall x :: x in a.cells <==> x in b.cells;
    }
  }

  /** `Region.new`: a Set becomes the region's cells; anything else becomes
      its only cell. */
  function NewRegion(arg: RegionArg): (r: Region)
    ensures arg.CellSet? ==> r.cells == arg.cells
    ensures arg.OneCell? ==> r.Area() == 1 && arg.cell in r.cells
  {
    match arg
    case CellSet(cells) => Region(cells)
    case OneCell(cell) => Region({cell})
  }
}
