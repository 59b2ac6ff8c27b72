/** `Map`: a Grid searched with Dijkstra's algorithm, the neighbours of a
    coordinate and the cost of stepping to each coming from a pluggable
    neighbour function. */
module Maps {
  import opened Wrappers
  import opened Matrix

  /** What `neighbours_of` gives for a coordinate: each neighbour paired
      with the cost of the step to it. */
  type Neighbours = Coord -> seq<(Coord, int)>

  // ---------------------------------------------------------------------
  // Walks and their costs

  /** Total cost of a sequence of steps. */
  function Sum(cs: seq<int>): int
  {
    if |cs| == 0 then 0 else Sum(cs[..|cs| - 1]) + cs[|cs| - 1]
  }

  /** `w` moves one neighbour at a time, `cs[i]` being the cost the
      neighbour function gives for the step from `w[i]` to `w[i + 1]`. */
  ghost predicate IsWalk(n: Neighbours, w: seq<Coord>, cs: seq<int>)
  {
    |w| == |cs| + 1 && forall i :: 0 <= i < |cs| ==> (w[i + 1], cs[i]) in n(w[i])
  }

  ghost predicate WalkFromTo(n: Neighbours, from: Coord, to: Coord, w: seq<Coord>, cs: seq<int>)
  {
    IsWalk(n, w, cs) && w[0] == from && w[|w| - 1] == to
  }

  ghost predicate Reachable(n: Neighbours, from: Coord, to: Coord)
  {
    exists w, cs :: WalkFromTo(n, from, to, w, cs)
  }

  /** No walk from `from` to `to` costs less than `d`. */
  ghost predicate Shortest(n: Neighbours, from: Coord, to: Coord, d: int)
  {
    forall w, cs :: WalkFromTo(n, from, to, w, cs) ==> d <= Sum(cs)
  }

  /** No walk from `from` to any of `ts` costs less than `d`. */
  ghost predicate ShortestToAny(n: Neighbours, from: Coord, ts: seq<Coord>, d: int)
  {
    forall t, w, cs :: t in ts && WalkFromTo(n, from, t, w, cs) ==> d <= Sum(cs)
  }

  /** Every step costs at least 0. */
  ghost predicate NonNegative(n: Neighbours)
  {
    forall a, i :: 0 <= i < |n(a)| ==> n(a)[i].1 >= 0
  }

  /** The neighbours of a coordinate of `u` are in `u`. */
  ghost predicate ClosedUnder(n: Neighbours, u: set<Coord>)
  {
    forall a, i :: a in u && 0 <= i < |n(a)| ==> n(a)[i].0 in u
  }

  lemma SumAppend(cs: seq<int>, c: int)
    ensures Sum(cs + [c]) == Sum(cs) + c
  {
    assert (cs + [c])[..|cs|] == cs;
  }

  /** With no negative step, a prefix costs no more than the whole. */
  lemma {:induction false} SumPrefix(cs: seq<int>, k: nat)
    requires k <= |cs| && forall i :: 0 <= i < |cs| ==> cs[i] >= 0
    ensures Sum(cs[..k]) <= Sum(cs)
    decreases |cs|
  {
    if k < |cs| {
      var init := cs[..|cs| - 1];
      SumPrefix(init, k);
      assert init[..k] == cs[..k];
    } else {
      assert cs[..k] == cs;
    }
  }

  /** Under a neighbour function with no negative cost, every step of a walk costs at least 0. */
  lemma WalkCostsNonNegative(n: Neighbours, w: seq<Coord>, cs: seq<int>)
    requires NonNegative(n) && IsWalk(n, w, cs)
    ensures forall i :: 0 <= i < |cs| ==> cs[i] >= 0
  {
    forall i | 0 <= i < |cs| ensures cs[i] >= 0 {
      var j :| 0 <= j < |n(w[i])| && n(w[i])[j] == (w[i + 1], cs[i]);
    }
  }

  /** The first `k` coordinates of a walk are a walk. */
  lemma WalkPrefix(n: Neighbours, w: seq<Coord>, cs: seq<int>, k: nat)
    requires IsWalk(n, w, cs) && 1 <= k <= |w|
    ensures IsWalk(n, w[..k], cs[..k - 1])
  {
    forall i | 0 <= i < k - 1 ensures (w[..k][i + 1], cs[..k - 1][i]) in n(w[..k][i]) {
      assert (w[i + 1], cs[i]) in n(w[i]);
    }
  }

  /** A walk extended by one more neighbour is a walk. */
  lemma WalkExtend(n: Neighbours, w: seq<Coord>, cs: seq<int>, x: Coord, c: int)
    requires IsWalk(n, w, cs) && (x, c) in n(w[|w| - 1])
    ensures IsWalk(n, w + [x], cs + [c])
    ensures Sum(cs + [c]) == Sum(cs) + c
  {
    var w', cs' := w + [x], cs + [c];
    forall i | 0 <= i < |cs'| ensures (w'[i + 1], cs'[i]) in n(w'[i]) {
      if i < |cs| {
        assert w'[i] == w[i] && w'[i + 1] == w[i + 1] && cs'[i] == cs[i];
      }
    }
    SumAppend(cs, c);
  }

  // ---------------------------------------------------------------------
  // The state of the search

  /** The hashes kept by the search agree: `unvisited` and `visited` are
      disjoint and together are the keys of `distances`, every unvisited
      value is the distance, and `order` lists the unvisited keys once each
      in the order they were inserted. */
  ghost predicate Bookkeeping(unvisited: map<Coord, int>, order: seq<Coord>, visited: set<Coord>, dist: map<Coord, int>)
  {
    (forall k :: k in unvisited ==> k !in visited && k in dist && unvisited[k] == dist[k]) &&
    (forall k :: k in dist ==> k in unvisited || k in visited) &&
    (forall k :: k in visited ==> k in dist) &&
    (forall k :: k in order <==> k in unvisited) &&
    Distinct(order)
  }

  /** Every neighbour of a visited coordinate is visited or waiting in `unvisited`. */
  ghost predicate FrontierClosed(n: Neighbours, visited: set<Coord>, unvisited: map<Coord, int>)
  {
    forall p, i :: p in visited && 0 <= i < |n(p)| ==> n(p)[i].0 in visited || n(p)[i].0 in unvisited
  }

  /** Every unvisited neighbour of a visited coordinate is no further than
      one step from it. */
  ghost predicate Relaxed(n: Neighbours, visited: set<Coord>, dist: map<Coord, int>)
  {
    forall p, i :: p in visited && p in dist && 0 <= i < |n(p)| && n(p)[i].0 !in visited ==>
      n(p)[i].0 in dist && dist[n(p)[i].0] <= dist[p] + n(p)[i].1
  }

  /** The distance of every visited coordinate is the least cost of a walk to it. */
  ghost predicate Settled(n: Neighbours, from: Coord, visited: set<Coord>, dist: map<Coord, int>)
  {
    forall v :: v in visited && v in dist ==> Shortest(n, from, v, dist[v])
  }

  /** `from` has a distance; until it is visited it is the only unvisited
      key, at distance 0, and nothing is visited. */
  ghost predicate Started(from: Coord, visited: set<Coord>, unvisited: map<Coord, int>, dist: map<Coord, int>)
  {
    from in dist &&
    (from in visited || (|visited| == 0 && from in unvisited && dist[from] == 0 &&
                         forall k :: k in unvisited ==> k == from))
  }

  ghost predicate Within(u: set<Coord>, dist: map<Coord, int>)
  {
    forall k :: k in dist ==> k in u
  }

  /** Everything the search keeps true about its distances. */
  ghost predicate SearchInv(n: Neighbours, from: Coord, u: set<Coord>, unvisited: map<Coord, int>,
                            order: seq<Coord>, visited: set<Coord>, dist: map<Coord, int>)
  {
    Bookkeeping(unvisited, order, visited, dist) && FrontierClosed(n, visited, unvisited) &&
    Within(u, dist) && Started(from, visited, unvisited, dist) &&
    (NonNegative(n) ==> Relaxed(n, visited, dist) && Settled(n, from, visited, dist))
  }

  /** A walk from `from` to a coordinate not yet visited passes through an
      unvisited key whose distance is at most the walk's cost. */
  lemma Crossing(n: Neighbours, from: Coord, visited: set<Coord>, unvisited: map<Coord, int>,
                 dist: map<Coord, int>, x: Coord, w: seq<Coord>, cs: seq<int>) returns (y: Coord)
    requires NonNegative(n)
    requires Started(from, visited, unvisited, dist)
    requires FrontierClosed(n, visited, unvisited) && Relaxed(n, visited, dist) && Settled(n, from, visited, dist)
    requires forall k :: k in unvisited ==> k in dist && unvisited[k] == dist[k]
    requires forall k :: k in visited ==> k in dist
    requires WalkFromTo(n, from, x, w, cs) && x !in visited
    ensures y in unvisited && unvisited[y] <= Sum(cs)
  {
    WalkCostsNonNegative(n, w, cs);
    SumPrefix(cs, 0);
    assert cs[..0] == [];
    if from !in visited {
      y := from;
    } else {
      var i := |w| - 1;
      while w[i - 1] !in visited
        invariant 0 < i < |w| && w[i] !in visited
        decreases i
      {
        i := i - 1;
      }
      var p := w[i - 1];
      assert (w[i], cs[i - 1]) in n(p);
      var j :| 0 <= j < |n(p)| && n(p)[j] == (w[i], cs[i - 1]);
      y := w[i];
      WalkPrefix(n, w, cs, i);
      assert WalkFromTo(n, from, p, w[..i], cs[..i - 1]);
      assert cs[..i - 1] + [cs[i - 1]] == cs[..i];
      SumAppend(cs[..i - 1], cs[i - 1]);
      SumPrefix(cs, i);
    }
  }

  /** Picking the nearest unvisited key: its distance is at most the cost of
      any walk to a coordinate not yet visited. */
  lemma Nearest(n: Neighbours, from: Coord, visited: set<Coord>, unvisited: map<Coord, int>,
                dist: map<Coord, int>, current: Coord)
    requires NonNegative(n)
    requires Started(from, visited, unvisited, dist)
    requires FrontierClosed(n, visited, unvisited) && Relaxed(n, visited, dist) && Settled(n, from, visited, dist)
    requires forall k :: k in unvisited ==> k in dist && unvisited[k] == dist[k]
    requires forall k :: k in visited ==> k in dist
    requires current in unvisited && forall k :: k in unvisited ==> unvisited[current] <= unvisited[k]
    ensures forall x, w, cs :: x !in visited && WalkFromTo(n, from, x, w, cs) ==> unvisited[current] <= Sum(cs)
  {
    forall x, w, cs | x !in visited && WalkFromTo(n, from, x, w, cs) ensures unvisited[current] <= Sum(cs) {
      var y := Crossing(n, from, visited, unvisited, dist, x, w, cs);
    }
  }

  // ---------------------------------------------------------------------
  // One round of the search

  /** The coordinate `shortest_path` visits next: the first key, in
      insertion order, holding the least value of `unvisited`. */
  method PickMin(unvisited: map<Coord, int>, order: seq<Coord>) returns (current: Coord, ghost at: nat)
    requires |order| > 0
    requires forall k :: k in order <==> k in unvisited
    ensures current in unvisited
    ensures forall k :: k in unvisited ==> unvisited[current] <= unvisited[k]
    ensures at < |order| && order[at] == current
    ensures forall j :: 0 <= j < at ==> unvisited[order[j]] != unvisited[current]
  {
    var least := unvisited[order[0]];
    ghost var where := 0;
    var i := 1;
    while i < |order|
      invariant 1 <= i <= |order| && where < i && unvisited[order[where]] == least
      invariant forall j :: 0 <= j < i ==> least <= unvisited[order[j]]
    {
      if unvisited[order[i]] < least {
        least := unvisited[order[i]];
        where := i;
      }
      i := i + 1;
    }
    var k := 0;
    while unvisited[order[k]] != least
      invariant 0 <= k <= where
      invariant forall j :: 0 <= j < k ==> unvisited[order[j]] != least
      decreases where - k
    {
      k := k + 1;
    }
    current, at := order[k], k;
  }

  /** The neighbours of `current` that are not yet visited, in order. */
  function RejectVisited(ns: seq<(Coord, int)>, visited: set<Coord>): (r: seq<(Coord, int)>)
    ensures forall e :: e in r <==> e in ns && e.0 !in visited
  {
    if |ns| == 0 then []
    else (if ns[0].0 in visited then [] else [ns[0]]) + RejectVisited(ns[1..], visited)
  }

  /** Deleting key `x` from a hash, seen on the insertion order of its keys. */
  function Without(s: seq<Coord>, x: Coord): (r: seq<Coord>)
    ensures forall k :: k in r <==> k in s && k != x
  {
    if |s| == 0 then []
    else (if s[0] == x then [] else [s[0]]) + Without(s[1..], x)
  }

  ghost predicate Distinct(s: seq<Coord>)
  {
    forall i, j :: 0 <= i < j < |s| ==> s[i] != s[j]
  }

  /** Deleting a key keeps the keys distinct. */
  lemma {:induction false} WithoutDistinct(s: seq<Coord>, x: Coord)
    requires Distinct(s)
    ensures Distinct(Without(s, x))
  {
    if |s| > 0 {
      assert Distinct(s[1..]);
      WithoutDistinct(s[1..], x);
      var rest := Without(s[1..], x);
      assert s[0] !in s[1..];
      assert s[0] !in rest;
      var r := Without(s, x);
      if s[0] != x {
        assert r == [s[0]] + rest;
        forall i, j | 0 <= i < j < |r| ensures r[i] != r[j] {
          if i == 0 {
            assert r[j] == rest[j - 1];
          } else {
            assert r[i] == rest[i - 1] && r[j] == rest[j - 1];
          }
        }
      } else {
        assert r == rest;
      }
    }
  }

  /** Each stored path is a walk from `from` to its key costing its distance. */
  ghost predicate Walks(n: Neighbours, from: Coord, dist: map<Coord, int>, path: map<Coord, seq<Coord>>,
                        pcost: map<Coord, seq<int>>)
  {
    forall k :: k in dist ==> (k in path && k in pcost && |path[k]| > 0 &&
      WalkFromTo(n, from, k, path[k], pcost[k]) && Sum(pcost[k]) == dist[k])
  }

  /** A neighbour of a coordinate of a closed universe is in that universe. */
  lemma StaysWithin(n: Neighbours, u: set<Coord>, a: Coord, e: (Coord, int))
    requires ClosedUnder(n, u) && a in u && e in n(a)
    ensures e.0 in u
  {
    var i :| 0 <= i < |n(a)| && n(a)[i] == e;
  }

  /** Giving an unvisited coordinate a new distance keeps the hashes in step. */
  lemma LowerBooks(unvisited: map<Coord, int>, order: seq<Coord>, visited: set<Coord>,
                   dist: map<Coord, int>, x: Coord, d: int)
    requires Bookkeeping(unvisited, order, visited, dist) && x !in visited
    ensures Bookkeeping(unvisited[x := d], if x in unvisited then order else order + [x], visited, dist[x := d])
  {
    var order' := if x in unvisited then order else order + [x];
    assert x !in unvisited ==> x !in order;
    forall i, j | 0 <= i < j < |order'| ensures order'[i] != order'[j] {
      if j == |order| {
        assert order[i] in order;
      }
    }
  }

  /** Extending the path of `current` by a neighbour gives that neighbour a
      walk costing the distance it is given. */
  lemma LowerWalks(n: Neighbours, from: Coord, dist: map<Coord, int>, path: map<Coord, seq<Coord>>,
                   pcost: map<Coord, seq<int>>, current: Coord, x: Coord, c: int)
    requires Walks(n, from, dist, path, pcost) && current in dist && (x, c) in n(current)
    ensures Walks(n, from, dist[x := dist[current] + c], path[x := path[current] + [x]],
                  pcost[x := pcost[current] + [c]])
  {
    WalkExtend(n, path[current], pcost[current], x, c);
  }

  /** `d` is `dist` with the distance of `x` lowered to at most `bound`,
      or created as `bound`, and every other distance kept. */
  ghost predicate LoweredTo(dist: map<Coord, int>, d: map<Coord, int>, x: Coord, bound: int)
  {
    x in d && d[x] <= bound && (x !in dist || d[x] <= dist[x]) &&
    (forall k :: k in dist ==> k in d && d[k] <= dist[k]) &&
    (forall k :: k in dist && k != x ==> d[k] == dist[k]) &&
    (forall k :: k in d ==> k in dist || k == x) &&
    (x in dist && d[x] != dist[x] ==> d[x] == bound)
  }

  /** No distance of `dist` has grown in `d`, no key was dropped, and
      visited distances are unchanged. */
  ghost predicate NoneHigher(dist: map<Coord, int>, d: map<Coord, int>, visited: set<Coord>)
  {
    (forall k :: k in dist ==> k in d && d[k] <= dist[k]) &&
    (forall v :: v in visited && v in dist ==> d[v] == dist[v])
  }

  lemma NoneHigherStep(dist: map<Coord, int>, d1: map<Coord, int>, d2: map<Coord, int>,
                       visited: set<Coord>, x: Coord, bound: int)
    requires NoneHigher(dist, d1, visited) && LoweredTo(d1, d2, x, bound) && x !in visited
    ensures NoneHigher(dist, d2, visited)
  {
  }

  lemma LowerDistance(dist: map<Coord, int>, x: Coord, bound: int)
    requires x !in dist || bound < dist[x]
    ensures LoweredTo(dist, dist[x := bound], x, bound)
  {
  }

  lemma KeepDistance(dist: map<Coord, int>, x: Coord, bound: int)
    requires x in dist && dist[x] <= bound
    ensures LoweredTo(dist, dist, x, bound)
  {
  }

  /** The paths stored for the coordinates of `keep` are the same in `p2` as in `p1`. */
  ghost predicate Frozen<P>(keep: set<Coord>, p1: map<Coord, P>, p2: map<Coord, P>)
  {
    forall v :: v in keep && v in p1 ==> v in p2 && p2[v] == p1[v]
  }

  /** What the relaxation loop keeps true of the hashes and paths. */
  ghost predicate Tracked(n: Neighbours, from: Coord, u: set<Coord>, visited: set<Coord>,
                          unvisited: map<Coord, int>, order: seq<Coord>, dist: map<Coord, int>,
                          path: map<Coord, seq<Coord>>, pcost: map<Coord, seq<int>>)
  {
    Bookkeeping(unvisited, order, visited, dist) && Within(u, dist) && Walks(n, from, dist, path, pcost)
  }

  /** Lowering the distance of an unvisited neighbour of `current` to the
      cost through `current` keeps everything tracked. */
  lemma Lower(n: Neighbours, from: Coord, u: set<Coord>, current: Coord, neighbour: Coord, cost: int,
              visited: set<Coord>, unvisited: map<Coord, int>, order: seq<Coord>, dist: map<Coord, int>,
              path: map<Coord, seq<Coord>>, pcost: map<Coord, seq<int>>)
    requires Tracked(n, from, u, visited, unvisited, order, dist, path, pcost) && ClosedUnder(n, u)
    requires current in unvisited && (neighbour, cost) in n(current) && neighbour !in visited
    requires neighbour !in dist || dist[current] + cost < dist[neighbour]
    ensures var d := dist[current] + cost;
      Tracked(n, from, u, visited, unvisited[neighbour := d],
              if neighbour in unvisited then order else order + [neighbour], dist[neighbour := d],
              path[neighbour := path[current] + [neighbour]], pcost[neighbour := pcost[current] + [cost]])
  {
    var d := dist[current] + cost;
    LowerBooks(unvisited, order, visited, dist, neighbour, d);
    LowerWalks(n, from, dist, path, pcost, current, neighbour, cost);
    StaysWithin(n, u, current, (neighbour, cost));
  }

  /** `neighbour` waits in `unvisited'` at distance `d`; a key that is new
      to `unvisited` comes last in insertion order. */
  ghost predicate Queued(unvisited: map<Coord, int>, order: seq<Coord>, neighbour: Coord, d: int,
                         unvisited': map<Coord, int>, order': seq<Coord>)
  {
    unvisited' == unvisited[neighbour := d] &&
    order' == if neighbour in unvisited then order else order + [neighbour]
  }

  /** The `if new_cost < distances[neighbour]` step of `shortest_path`:
      when `neighbour` has no distance yet or a greater one, it gets the
      cost through `current`, enters `unvisited` (last in insertion order
      when it is a new key) and takes the path of `current` extended by
      itself; otherwise nothing changes. */
  method LowerPath(n: Neighbours, ghost from: Coord, ghost u: set<Coord>, current: Coord,
                   neighbour: Coord, cost: int, visited: set<Coord>,
                   unvisited: map<Coord, int>, order: seq<Coord>, dist: map<Coord, int>,
                   path: map<Coord, seq<Coord>>, ghost pcost: map<Coord, seq<int>>)
    returns (unvisited': map<Coord, int>, order': seq<Coord>, dist': map<Coord, int>,
             path': map<Coord, seq<Coord>>, ghost pcost': map<Coord, seq<int>>)
    requires Tracked(n, from, u, visited, unvisited, order, dist, path, pcost) && ClosedUnder(n, u)
    requires current in unvisited && (neighbour, cost) in n(current) && neighbour !in visited
    ensures Tracked(n, from, u, visited, unvisited', order', dist', path', pcost')
    ensures current in unvisited' && neighbour in unvisited'
    ensures LoweredTo(dist, dist', neighbour, dist[current] + cost)
    ensures Frozen(visited, path, path')
    ensures neighbour !in dist || dist[current] + cost < dist[neighbour] ==>
      path' == path[neighbour := path[current] + [neighbour]] &&
      Queued(unvisited, order, neighbour, dist[current] + cost, unvisited', order')
    ensures neighbour in dist && dist[neighbour] <= dist[current] + cost ==>
      path' == path && unvisited' == unvisited && order' == order
  {
    var newCost := dist[current] + cost;
    if neighbour !in dist || newCost < dist[neighbour] {
      Lower(n, from, u, current, neighbour, cost, visited, unvisited, order, dist, path, pcost);
      LowerDistance(dist, neighbour, newCost);
      order' := if neighbour in unvisited then order else order + [neighbour];
      dist' := dist[neighbour := newCost];
      unvisited' := unvisited[neighbour := newCost];
      path' := path[neighbour := path[current] + [neighbour]];
      pcost' := pcost[neighbour := pcost[current] + [cost]];
    } else {
      KeepDistance(dist, neighbour, newCost);
      unvisited', order', dist', path', pcost' := unvisited, order, dist, path, pcost;
    }
  }

  /** One pass of the body of the relaxation loop of `shortest_path`,
      seen through what the loop keeps: `LowerPath`, with its effect on the
      queue and the stored paths summed up as the invariants. */
  method RelaxOne(n: Neighbours, ghost from: Coord, ghost u: set<Coord>, current: Coord,
                  neighbour: Coord, cost: int, visited: set<Coord>,
                  unvisited: map<Coord, int>, order: seq<Coord>, dist: map<Coord, int>,
                  path: map<Coord, seq<Coord>>, ghost pcost: map<Coord, seq<int>>)
    returns (unvisited': map<Coord, int>, order': seq<Coord>, dist': map<Coord, int>,
             path': map<Coord, seq<Coord>>, ghost pcost': map<Coord, seq<int>>)
    requires Tracked(n, from, u, visited, unvisited, order, dist, path, pcost) && ClosedUnder(n, u)
    requires current in unvisited && (neighbour, cost) in n(current) && neighbour !in visited
    ensures Tracked(n, from, u, visited, unvisited', order', dist', path', pcost')
    ensures current in unvisited' && neighbour in unvisited'
    ensures LoweredTo(dist, dist', neighbour, dist[current] + cost)
    ensures Frozen(visited, path, path')
  {
    unvisited', order', dist', path', pcost' :=
      LowerPath(n, from, u, current, neighbour, cost, visited, unvisited, order, dist, path, pcost);
  }

  /** Every coordinate of `cs` has a distance in `d` no greater than
      `base` plus the cost listed beside it. */
  ghost predicate Near(cs: seq<(Coord, int)>, d: map<Coord, int>, base: int)
  {
    forall j :: 0 <= j < |cs| ==> cs[j].0 in d && d[cs[j].0] <= base + cs[j].1
  }

  lemma NearStep(cs: seq<(Coord, int)>, i: nat, d1: map<Coord, int>, d2: map<Coord, int>, base: int, bound: int)
    requires i < |cs| && Near(cs[..i], d1, base) && LoweredTo(d1, d2, cs[i].0, bound) && bound <= base + cs[i].1
    ensures Near(cs[..i + 1], d2, base)
  {
    assert forall j :: 0 <= j < i ==> cs[..i + 1][j] == cs[..i][j];
  }

  lemma NearAll(cs: seq<(Coord, int)>, d: map<Coord, int>, base: int)
    requires Near(cs[..|cs|], d, base)
    ensures Near(cs, d, base)
  {
    assert cs[..|cs|] == cs;
  }

  lemma StepNonNegative(n: Neighbours, a: Coord, e: (Coord, int))
    requires NonNegative(n) && e in n(a)
    ensures e.1 >= 0
  {
    var j :| 0 <= j < |n(a)| && n(a)[j] == e;
  }

  /** A step that costs at least 0 never lowers the distance it starts from. */
  lemma KeepsOwnDistance(d1: map<Coord, int>, d2: map<Coord, int>, x: Coord, current: Coord, cost: int)
    requires current in d1 && cost >= 0 && LoweredTo(d1, d2, x, d1[current] + cost)
    ensures d2[current] == d1[current]
  {
  }

  /** The `unvisited_neighbours.each` loop of `shortest_path`: afterwards
      every candidate is waiting in `unvisited` no further than one step
      from `current`, no distance has grown and visited ones are untouched. */
  method RelaxPath(n: Neighbours, ghost from: Coord, ghost u: set<Coord>, current: Coord,
                   candidates: seq<(Coord, int)>, visited: set<Coord>,
                   unvisited: map<Coord, int>, order: seq<Coord>, dist: map<Coord, int>,
                   path: map<Coord, seq<Coord>>, ghost pcost: map<Coord, seq<int>>)
    returns (unvisited': map<Coord, int>, order': seq<Coord>, dist': map<Coord, int>,
             path': map<Coord, seq<Coord>>, ghost pcost': map<Coord, seq<int>>)
    requires Tracked(n, from, u, visited, unvisited, order, dist, path, pcost) && ClosedUnder(n, u)
    requires current in unvisited
    requires forall e :: e in candidates ==> e in n(current) && e.0 !in visited
    ensures Tracked(n, from, u, visited, unvisited', order', dist', path', pcost')
    ensures current in unvisited'
    ensures NoneHigher(dist, dist', visited)
    ensures Near(candidates, dist', dist[current])
    ensures NonNegative(n) ==> dist'[current] == dist[current]
    ensures Frozen(visited, path, path')
  {
    unvisited', order', dist', path', pcost' := unvisited, order, dist, path, pcost;
    var i := 0;
    while i < |candidates|
      invariant 0 <= i <= |candidates|
      invariant Tracked(n, from, u, visited, unvisited', order', dist', path', pcost')
      invariant current in unvisited'
      invariant NoneHigher(dist, dist', visited) && Frozen(visited, path, path')
      invariant Near(candidates[..i], dist', dist[current])
      invariant NonNegative(n) ==> dist'[current] == dist[current]
    {
      var (neighbour, cost) := candidates[i];
      assert candidates[i] in candidates;
      ghost var before := dist';
      unvisited', order', dist', path', pcost' :=
        RelaxOne(n, from, u, current, neighbour, cost, visited, unvisited', order', dist', path', pcost');
      NoneHigherStep(dist, before, dist', visited, neighbour, before[current] + cost);
      NearStep(candidates, i, before, dist', dist[current], before[current] + cost);
      if NonNegative(n) {
        StepNonNegative(n, current, (neighbour, cost));
        KeepsOwnDistance(before, dist', neighbour, current, cost);
      }
      i := i + 1;
    }
    NearAll(candidates, dist', dist[current]);
  }

  // ---------------------------------------------------------------------
  // Visiting the nearest coordinate

  /** Recording the distance of `current` on its visit writes the value already there. */
  lemma VisitWrite(unvisited: map<Coord, int>, order: seq<Coord>, visited: set<Coord>,
                   dist: map<Coord, int>, current: Coord)
    requires Bookkeeping(unvisited, order, visited, dist) && current in unvisited
    ensures dist[current := unvisited[current]] == dist
  {
  }

  /** Moving `current` from `unvisited` to `visited` keeps the hashes in step. */
  lemma VisitBooks(unvisited: map<Coord, int>, order: seq<Coord>, visited: set<Coord>,
                   dist: map<Coord, int>, current: Coord)
    requires Bookkeeping(unvisited, order, visited, dist) && current in unvisited
    ensures Bookkeeping(unvisited - {current}, Without(order, current), visited + {current}, dist)
  {
    WithoutDistinct(order, current);
  }

  /** After relaxing `current`, every neighbour of a visited coordinate,
      `current` included, is visited or waiting. */
  lemma VisitFrontier(n: Neighbours, visited: set<Coord>, unvisited: map<Coord, int>, dist: map<Coord, int>,
                      current: Coord, candidates: seq<(Coord, int)>,
                      u': map<Coord, int>, o': seq<Coord>, d': map<Coord, int>, base: int)
    requires FrontierClosed(n, visited, unvisited) && forall k :: k in unvisited ==> k in dist
    requires NoneHigher(dist, d', visited) && Bookkeeping(u', o', visited, d')
    requires forall e :: e in candidates <==> e in n(current) && e.0 !in visited
    requires Near(candidates, d', base)
    ensures FrontierClosed(n, visited + {current}, u' - {current})
  {
    forall p, i | p in visited + {current} && 0 <= i < |n(p)|
      ensures n(p)[i].0 in visited + {current} || n(p)[i].0 in u' - {current}
    {
      var q := n(p)[i].0;
      if q !in visited {
        if p == current {
          assert n(p)[i] in n(current);
          var j :| 0 <= j < |candidates| && candidates[j] == n(p)[i];
        }
      }
    }
  }

  /** With no negative step, every unvisited neighbour of a coordinate
      visited so far, `current` included, is at most one step further. */
  lemma VisitRelaxed(n: Neighbours, visited: set<Coord>, dist: map<Coord, int>, current: Coord,
                     candidates: seq<(Coord, int)>, d': map<Coord, int>)
    requires Relaxed(n, visited, dist) && NoneHigher(dist, d', visited)
    requires forall v :: v in visited ==> v in dist
    requires forall e :: e in candidates <==> e in n(current) && e.0 !in visited
    requires current in d' && Near(candidates, d', d'[current])
    ensures Relaxed(n, visited + {current}, d')
  {
    forall p, i | p in visited + {current} && p in d' && 0 <= i < |n(p)| && n(p)[i].0 !in visited + {current}
      ensures n(p)[i].0 in d' && d'[n(p)[i].0] <= d'[p] + n(p)[i].1
    {
      if p == current {
        assert n(p)[i] in n(current);
        var j :| 0 <= j < |candidates| && candidates[j] == n(p)[i];
      }
    }
  }

  /** The distance `current` is visited with is the least cost of a walk to it. */
  lemma VisitSettled(n: Neighbours, from: Coord, visited: set<Coord>, dist: map<Coord, int>,
                     current: Coord, d': map<Coord, int>)
    requires Settled(n, from, visited, dist) && NoneHigher(dist, d', visited)
    requires (forall v :: v in visited ==> v in dist) && current !in visited && current in d'
    requires forall x, w, cs :: x !in visited && WalkFromTo(n, from, x, w, cs) ==> d'[current] <= Sum(cs)
    ensures Settled(n, from, visited + {current}, d')
  {
    forall v | v in visited + {current} && v in d' ensures Shortest(n, from, v, d'[v]) {
      if v != current {
        assert Shortest(n, from, v, dist[v]);
      } else {
        forall w, cs | WalkFromTo(n, from, v, w, cs) ensures d'[v] <= Sum(cs) {
        }
      }
    }
  }

  lemma VisitStarted(from: Coord, visited: set<Coord>, unvisited: map<Coord, int>, dist: map<Coord, int>,
                     current: Coord, u': map<Coord, int>, d': map<Coord, int>)
    requires Started(from, visited, unvisited, dist) && current in unvisited
    requires NoneHigher(dist, d', visited)
    ensures Started(from, visited + {current}, u' - {current}, d')
  {
  }

  /** Visiting one more coordinate of the universe brings the search one step closer to its end. */
  lemma Fewer(u: set<Coord>, visited: set<Coord>, current: Coord)
    requires current in u && current !in visited
    ensures |u - (visited + {current})| < |u - visited|
  {
    assert u - (visited + {current}) == (u - visited) - {current};
  }

  // ---------------------------------------------------------------------
  // One round and the whole search

  /** One pass of the `until` loop of `shortest_path`: pick the nearest
      unvisited coordinate, relax its unvisited neighbours, visit it. */
  method Step(n: Neighbours, ghost from: Coord, ghost u: set<Coord>,
              unvisited: map<Coord, int>, order: seq<Coord>, visited: set<Coord>, dist: map<Coord, int>,
              path: map<Coord, seq<Coord>>, ghost pcost: map<Coord, seq<int>>)
    returns (current: Coord, unvisited': map<Coord, int>, order': seq<Coord>, visited': set<Coord>,
             dist': map<Coord, int>, path': map<Coord, seq<Coord>>, ghost pcost': map<Coord, seq<int>>)
    requires SearchInv(n, from, u, unvisited, order, visited, dist) && ClosedUnder(n, u)
    requires Walks(n, from, dist, path, pcost) && |unvisited| > 0
    ensures SearchInv(n, from, u, unvisited', order', visited', dist') && Walks(n, from, dist', path', pcost')
    ensures current in u && current !in visited && visited' == visited + {current}
    ensures forall v :: v in visited ==> dist'[v] == dist[v]
    ensures Frozen(visited, path, path')
    ensures NonNegative(n) ==> forall x, w, cs :: x !in visited && WalkFromTo(n, from, x, w, cs) ==>
      dist'[current] <= Sum(cs)
  {
    assert exists k :: k in unvisited;
    ghost var at;
    current, at := PickMin(unvisited, order);
    if NonNegative(n) {
      Nearest(n, from, visited, unvisited, dist, current);
    }
    var candidates := RejectVisited(n(current), visited);
    var u1, o1, d1, p1, c1 :=
      RelaxPath(n, from, u, current, candidates, visited, unvisited, order, dist, path, pcost);
    VisitWrite(u1, o1, visited, d1, current);
    VisitBooks(u1, o1, visited, d1, current);
    VisitFrontier(n, visited, unvisited, dist, current, candidates, u1, o1, d1, dist[current]);
    if NonNegative(n) {
      VisitRelaxed(n, visited, dist, current, candidates, d1);
      VisitSettled(n, from, visited, dist, current, d1);
    }
    VisitStarted(from, visited, unvisited, dist, current, u1, d1);
    visited' := visited + {current};
    dist' := d1[current := u1[current]];
    unvisited' := u1 - {current};
    order' := Without(o1, current);
    path', pcost' := p1, c1;
  }

  /** The destination of a search: `to` is one coordinate, or a list of
      acceptable ones (when its first element is itself a coordinate pair). */
  datatype Target = One(dest: Coord) | Several(dests: seq<Coord>)

  function Targets(to: Target): seq<Coord>
  {
    match to
    case One(d) => [d]
    case Several(ds) => ds
  }

  /** The `until` condition: the target, or any of the listed targets, is visited. */
  predicate Reached(to: Target, visited: set<Coord>)
  {
    exists t :: t in Targets(to) && t in visited
  }

  /** No coordinate before position `i` of `ts` is visited. */
  predicate FirstOf(ts: seq<Coord>, i: nat, visited: set<Coord>)
  {
    forall j :: 0 <= j < i && j < |ts| ==> ts[j] !in visited
  }

  /** The first listed target that is visited, if any. */
  function FirstVisited(ts: seq<Coord>, visited: set<Coord>): (r: Option<Coord>)
    ensures r.Some? <==> exists t :: t in ts && t in visited
    ensures r.Some? ==> r.value in visited && exists i :: 0 <= i < |ts| && ts[i] == r.value && FirstOf(ts, i, visited)
  {
    if |ts| == 0 then None
    else if ts[0] in visited then Some(ts[0])
    else
      var r := FirstVisited(ts[1..], visited);
      if r.Some? then
        var i :| 0 <= i < |ts[1..]| && ts[1..][i] == r.value && FirstOf(ts[1..], i, visited);
        assert ts[i + 1] == r.value;
        assert forall j :: 1 <= j < i + 1 ==> ts[j] == ts[1..][j - 1];
        r
      else
        assert forall t :: t in ts && t != ts[0] ==> t in ts[1..];
        r
  }

  /** The coordinate whose path is returned: `to` itself, or the first
      listed target that is visited. */
  function Arrived(to: Target, visited: set<Coord>): (t: Coord)
    requires Reached(to, visited)
    ensures t in Targets(to) && t in visited
    ensures to.Several? ==> exists i :: 0 <= i < |to.dests| && to.dests[i] == t && FirstOf(to.dests, i, visited)
  {
    match to
    case One(d) => d
    case Several(ds) => FirstVisited(ds, visited).value
  }

  /** A walk that starts in a set closed under the neighbour function never leaves it. */
  lemma {:induction false} WalkStays(n: Neighbours, visited: set<Coord>, w: seq<Coord>, cs: seq<int>, k: nat)
    requires IsWalk(n, w, cs) && w[0] in visited && k < |w|
    requires forall p, i :: p in visited && 0 <= i < |n(p)| ==> n(p)[i].0 in visited
    ensures w[k] in visited
  {
    if k > 0 {
      WalkStays(n, visited, w, cs, k - 1);
      assert (w[k], cs[k - 1]) in n(w[k - 1]);
      var i :| 0 <= i < |n(w[k - 1])| && n(w[k - 1])[i] == (w[k], cs[k - 1]);
    }
  }

  /** "route blocked": once nothing waits and `from` is visited, everything
      reachable from `from` is visited. */
  lemma Blocked(n: Neighbours, from: Coord, visited: set<Coord>, unvisited: map<Coord, int>)
    requires from in visited && FrontierClosed(n, visited, unvisited) && |unvisited| == 0
    ensures forall x :: Reachable(n, from, x) ==> x in visited
  {
    forall x | Reachable(n, from, x) ensures x in visited {
      var w, cs :| WalkFromTo(n, from, x, w, cs);
      forall p, i | p in visited && 0 <= i < |n(p)| ensures n(p)[i].0 in visited {
        assert n(p)[i].0 !in unvisited;
      }
      WalkStays(n, visited, w, cs, |w| - 1);
    }
  }

  /** The first target to be visited is no further than any target. */
  lemma FirstTarget(n: Neighbours, from: Coord, ts: seq<Coord>, visited: set<Coord>, d: int)
    requires forall t :: t in ts ==> t !in visited
    requires forall x, w, cs :: x !in visited && WalkFromTo(n, from, x, w, cs) ==> d <= Sum(cs)
    ensures ShortestToAny(n, from, ts, d)
  {
  }

  /** The state the searches start from: `from` waits at distance 0 with
      the one-coordinate path `[from]`, and nothing is visited. */
  lemma Start(n: Neighbours, from: Coord, u: set<Coord>)
    requires from in u
    ensures SearchInv(n, from, u, map[from := 0], [from], {}, map[from := 0])
    ensures Walks(n, from, map[from := 0], map[from := [from]], map[from := []])
    ensures AllWalks(n, from, map[from := 0], map[from := [[from]]], map[from := [[]]])
  {
    assert WalkFromTo(n, from, from, [from], []);
    assert WalksTo(n, from, from, [[from]], [[]], 0);
  }

  /** `last` was visited in the round that ended the search: without it, no
      target had been visited. */
  ghost predicate FirstRound(to: Target, visited: set<Coord>, last: Coord)
  {
    last in visited && !Reached(to, visited - {last})
  }

  lemma FirstRoundStep(to: Target, before: set<Coord>, current: Coord)
    requires !Reached(to, before) && current !in before
    ensures FirstRound(to, before + {current}, current)
  {
    assert before + {current} - {current} == before;
  }

  /** The value of `shortest_path_dijkstra` once a target is visited: the
      stored path of `to`, or of the first listed target that is visited. */
  method Answer(n: Neighbours, ghost from: Coord, to: Target, ghost unvisited: map<Coord, int>, ghost order: seq<Coord>,
                visited: set<Coord>, ghost dist: map<Coord, int>, path: map<Coord, seq<Coord>>,
                ghost pcost: map<Coord, seq<int>>)
    returns (r: Result<seq<Coord>>, ghost costs: seq<int>)
    requires Reached(to, visited) && Bookkeeping(unvisited, order, visited, dist) && Walks(n, from, dist, path, pcost)
    requires NonNegative(n) ==> forall t :: t in Targets(to) && t in visited ==>
      ShortestToAny(n, from, Targets(to), dist[t])
    ensures r.Ok? && |r.value| > 0 && r.value[|r.value| - 1] in Targets(to)
    ensures WalkFromTo(n, from, r.value[|r.value| - 1], r.value, costs)
    ensures NonNegative(n) ==> ShortestToAny(n, from, Targets(to), Sum(costs))
    ensures r.value == path[Arrived(to, visited)] && costs == pcost[Arrived(to, visited)]
    ensures r.value[|r.value| - 1] == Arrived(to, visited)
  {
    var t := Arrived(to, visited);
    assert t in dist;
    r, costs := Ok(path[t]), pcost[t];
  }

  /** The `until` loop of `shortest_path_dijkstra`: rounds of `Step` until
      a target is visited, or `blocked` when the frontier empties first.
      `u` is a finite set of coordinates closed under the neighbour
      function, which bounds the number of rounds; `last` is the coordinate
      visited in the final round. */
  method Search(n: Neighbours, from: Coord, to: Target, ghost u: set<Coord>)
    returns (blocked: bool, unvisited: map<Coord, int>, order: seq<Coord>, visited: set<Coord>,
             dist: map<Coord, int>, path: map<Coord, seq<Coord>>, ghost pcost: map<Coord, seq<int>>,
             ghost last: Coord)
    requires from in u && ClosedUnder(n, u)
    ensures blocked ==> forall t :: t in Targets(to) ==> !Reachable(n, from, t)
    ensures !blocked ==> (Reached(to, visited) && FirstRound(to, visited, last) &&
      Bookkeeping(unvisited, order, visited, dist) && Walks(n, from, dist, path, pcost))
    ensures !blocked && NonNegative(n) ==> forall t :: t in Targets(to) && t in visited ==>
      ShortestToAny(n, from, Targets(to), dist[t])
  {
    unvisited := map[from := 0];
    order := [from];
    visited := {};
    dist := map[from := 0];
    path := map[from := [from]];
    pcost := map[from := []];
    Start(n, from, u);
    last := from;
    while !Reached(to, visited)
      invariant SearchInv(n, from, u, unvisited, order, visited, dist) && Walks(n, from, dist, path, pcost)
      invariant NonNegative(n) ==> forall t :: t in Targets(to) && t in visited ==>
        ShortestToAny(n, from, Targets(to), dist[t])
      invariant visited == {} || FirstRound(to, visited, last)
      decreases |u - visited|
    {
      if |unvisited| == 0 {
        Blocked(n, from, visited, unvisited);
        return true, unvisited, order, visited, dist, path, pcost, last;
      }
      ghost var before := visited;
      var current;
      current, unvisited, order, visited, dist, path, pcost := Step(n, from, u, unvisited, order, visited, dist, path, pcost);
      Fewer(u, before, current);
      if NonNegative(n) {
        FirstTarget(n, from, Targets(to), before, dist[current]);
      }
      last := current;
      FirstRoundStep(to, before, last);
    }
    blocked := false;
  }

  /** `shortest_path_dijkstra`: Dijkstra's search from `from` until a
      target is visited, returning the stored path of the first listed
      target that was, or failing with "route blocked" when the frontier
      empties first. On success, `done` is the visited set when the search
      stopped and `last` the coordinate visited in the final round. */
  method ShortestPathDijkstra(n: Neighbours, from: Coord, to: Target, ghost u: set<Coord>)
    returns (r: Result<seq<Coord>>, ghost costs: seq<int>, ghost done: set<Coord>, ghost last: Coord)
    requires from in u && ClosedUnder(n, u)
    ensures r.Ok? ==> (|r.value| > 0 && r.value[|r.value| - 1] in Targets(to) &&
      WalkFromTo(n, from, r.value[|r.value| - 1], r.value, costs))
    ensures r.Ok? ==> (FirstRound(to, done, last) && Reached(to, done) &&
      r.value[|r.value| - 1] == Arrived(to, done))
    ensures r.Ok? && NonNegative(n) ==> ShortestToAny(n, from, Targets(to), Sum(costs))
    ensures r.Err? ==> r.error == "route blocked" && forall t :: t in Targets(to) ==> !Reachable(n, from, t)
  {
    var blocked, unvisited, order, visited, dist, path;
    ghost var pcost;
    blocked, unvisited, order, visited, dist, path, pcost, last := Search(n, from, to, u);
    done := visited;
    if blocked {
      return Err("route blocked"), [], done, last;
    }
    r, costs := Answer(n, from, to, unvisited, order, visited, dist, path, pcost);
  }

  // ---------------------------------------------------------------------
  // All shortest paths

  /** `ps` is a non-empty list of walks from `from` to `k`, each costing
      `d`, with `cs` holding their step costs. */
  ghost predicate WalksTo(n: Neighbours, from: Coord, k: Coord, ps: seq<seq<Coord>>, cs: seq<seq<int>>, d: int)
  {
    |ps| == |cs| > 0 &&
    forall j :: 0 <= j < |ps| ==> (|ps[j]| > 0 && WalkFromTo(n, from, k, ps[j], cs[j]) && Sum(cs[j]) == d)
  }

  /** Each stored path set is a non-empty list of walks to its key costing its distance. */
  ghost predicate AllWalks(n: Neighbours, from: Coord, dist: map<Coord, int>, paths: map<Coord, seq<seq<Coord>>>,
                           pcosts: map<Coord, seq<seq<int>>>)
  {
    (forall k :: k in dist ==> (k in paths && k in pcosts && WalksTo(n, from, k, paths[k], pcosts[k], dist[k]))) &&
    (forall k :: k in paths ==> k in dist)
  }

  /** Every path of `ps` extended by the coordinate `x`. */
  function ExtendAll(ps: seq<seq<Coord>>, x: Coord): (r: seq<seq<Coord>>)
    ensures |r| == |ps|
  {
    seq(|ps|, j requires 0 <= j < |ps| => ps[j] + [x])
  }

  ghost function ExtendCosts(cs: seq<seq<int>>, c: int): (r: seq<seq<int>>)
    ensures |r| == |cs|
  {
    seq(|cs|, j requires 0 <= j < |cs| => cs[j] + [c])
  }

  /** Extending every walk to `current` by a neighbour gives walks to that
      neighbour costing one step more. */
  lemma ExtendWalks(n: Neighbours, from: Coord, current: Coord, ps: seq<seq<Coord>>, cs: seq<seq<int>>,
                    d: int, x: Coord, c: int)
    requires WalksTo(n, from, current, ps, cs, d) && (x, c) in n(current)
    ensures WalksTo(n, from, x, ExtendAll(ps, x), ExtendCosts(cs, c), d + c)
  {
    var ps', cs' := ExtendAll(ps, x), ExtendCosts(cs, c);
    forall j | 0 <= j < |ps'| ensures |ps'[j]| > 0 && WalkFromTo(n, from, x, ps'[j], cs'[j]) && Sum(cs'[j]) == d + c {
      WalkExtend(n, ps[j], cs[j], x, c);
    }
  }

  /** Two lists of walks to `k` of the same cost, concatenated. */
  lemma AppendWalks(n: Neighbours, from: Coord, k: Coord, ps1: seq<seq<Coord>>, cs1: seq<seq<int>>,
                    ps2: seq<seq<Coord>>, cs2: seq<seq<int>>, d: int)
    requires WalksTo(n, from, k, ps1, cs1, d) && WalksTo(n, from, k, ps2, cs2, d)
    ensures WalksTo(n, from, k, ps1 + ps2, cs1 + cs2, d)
  {
    forall j | 0 <= j < |ps1 + ps2|
      ensures |(ps1 + ps2)[j]| > 0 && WalkFromTo(n, from, k, (ps1 + ps2)[j], (cs1 + cs2)[j]) && Sum((cs1 + cs2)[j]) == d
    {
      if j >= |ps1| {
        assert (ps1 + ps2)[j] == ps2[j - |ps1|] && (cs1 + cs2)[j] == cs2[j - |cs1|];
      }
    }
  }

  /** What the relaxation loop of `shortest_paths` keeps true of the hashes and path sets. */
  ghost predicate TrackedAll(n: Neighbours, from: Coord, u: set<Coord>, visited: set<Coord>,
                             unvisited: map<Coord, int>, order: seq<Coord>, dist: map<Coord, int>,
                             paths: map<Coord, seq<seq<Coord>>>, pcosts: map<Coord, seq<seq<int>>>)
  {
    Bookkeeping(unvisited, order, visited, dist) && Within(u, dist) && AllWalks(n, from, dist, paths, pcosts)
  }

  lemma LowerAll(n: Neighbours, from: Coord, u: set<Coord>, current: Coord, neighbour: Coord, cost: int,
                 visited: set<Coord>, unvisited: map<Coord, int>, order: seq<Coord>, dist: map<Coord, int>,
                 paths: map<Coord, seq<seq<Coord>>>, pcosts: map<Coord, seq<seq<int>>>)
    requires TrackedAll(n, from, u, visited, unvisited, order, dist, paths, pcosts) && ClosedUnder(n, u)
    requires current in unvisited && (neighbour, cost) in n(current) && neighbour !in visited
    requires neighbour !in dist || dist[current] + cost < dist[neighbour]
    ensures var d := dist[current] + cost;
      TrackedAll(n, from, u, visited, unvisited[neighbour := d],
                 if neighbour in unvisited then order else order + [neighbour], dist[neighbour := d],
                 paths[neighbour := ExtendAll(paths[current], neighbour)],
                 pcosts[neighbour := ExtendCosts(pcosts[current], cost)])
  {
    var d := dist[current] + cost;
    LowerBooks(unvisited, order, visited, dist, neighbour, d);
    ExtendWalks(n, from, current, paths[current], pcosts[current], dist[current], neighbour, cost);
    StaysWithin(n, u, current, (neighbour, cost));
  }

  lemma TieAll(n: Neighbours, from: Coord, u: set<Coord>, current: Coord, neighbour: Coord, cost: int,
               visited: set<Coord>, unvisited: map<Coord, int>, order: seq<Coord>, dist: map<Coord, int>,
               paths: map<Coord, seq<seq<Coord>>>, pcosts: map<Coord, seq<seq<int>>>)
    requires TrackedAll(n, from, u, visited, unvisited, order, dist, paths, pcosts)
    requires current in unvisited && (neighbour, cost) in n(current) && neighbour !in visited
    requires neighbour in dist && dist[current] + cost == dist[neighbour]
    ensures neighbour in unvisited
    ensures TrackedAll(n, from, u, visited, unvisited, order, dist,
                       paths[neighbour := paths[neighbour] + ExtendAll(paths[current], neighbour)],
                       pcosts[neighbour := pcosts[neighbour] + ExtendCosts(pcosts[current], cost)])
  {
    ExtendWalks(n, from, current, paths[current], pcosts[current], dist[current], neighbour, cost);
    AppendWalks(n, from, neighbour, paths[neighbour], pcosts[neighbour],
                ExtendAll(paths[current], neighbour), ExtendCosts(pcosts[current], cost), dist[neighbour]);
  }

  /** The `if` / `elsif` step of `shortest_paths`: a cheaper route through
      `current` replaces the path set of `neighbour`, an equally cheap one
      is appended to it, a dearer one changes nothing. */
  method LowerPaths(n: Neighbours, ghost from: Coord, ghost u: set<Coord>, current: Coord,
                    neighbour: Coord, cost: int, visited: set<Coord>,
                    unvisited: map<Coord, int>, order: seq<Coord>, dist: map<Coord, int>,
                    paths: map<Coord, seq<seq<Coord>>>, ghost pcosts: map<Coord, seq<seq<int>>>)
    returns (unvisited': map<Coord, int>, order': seq<Coord>, dist': map<Coord, int>,
             paths': map<Coord, seq<seq<Coord>>>, ghost pcosts': map<Coord, seq<seq<int>>>)
    requires TrackedAll(n, from, u, visited, unvisited, order, dist, paths, pcosts) && ClosedUnder(n, u)
    requires current in unvisited && (neighbour, cost) in n(current) && neighbour !in visited
    ensures TrackedAll(n, from, u, visited, unvisited', order', dist', paths', pcosts')
    ensures current in unvisited' && neighbour in unvisited'
    ensures LoweredTo(dist, dist', neighbour, dist[current] + cost)
    ensures Frozen(visited, paths, paths')
    ensures neighbour !in dist || dist[current] + cost < dist[neighbour] ==>
      paths' == paths[neighbour := ExtendAll(paths[current], neighbour)] &&
      Queued(unvisited, order, neighbour, dist[current] + cost, unvisited', order')
    ensures neighbour in dist && dist[current] + cost == dist[neighbour] ==>
      paths' == paths[neighbour := paths[neighbour] + ExtendAll(paths[current], neighbour)] &&
      unvisited' == unvisited && order' == order
    ensures neighbour in dist && dist[neighbour] < dist[current] + cost ==>
      paths' == paths && unvisited' == unvisited && order' == order
  {
    var newCost := dist[current] + cost;
    if neighbour !in dist || newCost < dist[neighbour] {
      LowerAll(n, from, u, current, neighbour, cost, visited, unvisited, order, dist, paths, pcosts);
      LowerDistance(dist, neighbour, newCost);
      order' := if neighbour in unvisited then order else order + [neighbour];
      dist' := dist[neighbour := newCost];
      unvisited' := unvisited[neighbour := newCost];
      paths' := paths[neighbour := ExtendAll(paths[current], neighbour)];
      pcosts' := pcosts[neighbour := ExtendCosts(pcosts[current], cost)];
    } else if newCost == dist[neighbour] {
      TieAll(n, from, u, current, neighbour, cost, visited, unvisited, order, dist, paths, pcosts);
      KeepDistance(dist, neighbour, newCost);
      unvisited', order', dist' := unvisited, order, dist;
      paths' := paths[neighbour := paths[neighbour] + ExtendAll(paths[current], neighbour)];
      pcosts' := pcosts[neighbour := pcosts[neighbour] + ExtendCosts(pcosts[current], cost)];
    } else {
      KeepDistance(dist, neighbour, newCost);
      unvisited', order', dist', paths', pcosts' := unvisited, order, dist, paths, pcosts;
    }
  }

  /** One pass of the body of the relaxation loop of `shortest_paths`,
      seen through what the loop keeps (see `RelaxOne`). */
  method RelaxAllOne(n: Neighbours, ghost from: Coord, ghost u: set<Coord>, current: Coord,
                     neighbour: Coord, cost: int, visited: set<Coord>,
                     unvisited: map<Coord, int>, order: seq<Coord>, dist: map<Coord, int>,
                     paths: map<Coord, seq<seq<Coord>>>, ghost pcosts: map<Coord, seq<seq<int>>>)
    returns (unvisited': map<Coord, int>, order': seq<Coord>, dist': map<Coord, int>,
             paths': map<Coord, seq<seq<Coord>>>, ghost pcosts': map<Coord, seq<seq<int>>>)
    requires TrackedAll(n, from, u, visited, unvisited, order, dist, paths, pcosts) && ClosedUnder(n, u)
    requires current in unvisited && (neighbour, cost) in n(current) && neighbour !in visited
    ensures TrackedAll(n, from, u, visited, unvisited', order', dist', paths', pcosts')
    ensures current in unvisited' && neighbour in unvisited'
    ensures LoweredTo(dist, dist', neighbour, dist[current] + cost)
    ensures Frozen(visited, paths, paths')
  {
    unvisited', order', dist', paths', pcosts' :=
      LowerPaths(n, from, u, current, neighbour, cost, visited, unvisited, order, dist, paths, pcosts);
  }

  /** The `unvisited_neighbours.each` loop of `shortest_paths`. */
  method RelaxPaths(n: Neighbours, ghost from: Coord, ghost u: set<Coord>, current: Coord,
                    candidates: seq<(Coord, int)>, visited: set<Coord>,
                    unvisited: map<Coord, int>, order: seq<Coord>, dist: map<Coord, int>,
                    paths: map<Coord, seq<seq<Coord>>>, ghost pcosts: map<Coord, seq<seq<int>>>)
    returns (unvisited': map<Coord, int>, order': seq<Coord>, dist': map<Coord, int>,
             paths': map<Coord, seq<seq<Coord>>>, ghost pcosts': map<Coord, seq<seq<int>>>)
    requires TrackedAll(n, from, u, visited, unvisited, order, dist, paths, pcosts) && ClosedUnder(n, u)
    requires current in unvisited
    requires forall e :: e in candidates ==> e in n(current) && e.0 !in visited
    ensures TrackedAll(n, from, u, visited, unvisited', order', dist', paths', pcosts')
    ensures current in unvisited'
    ensures NoneHigher(dist, dist', visited)
    ensures Near(candidates, dist', dist[current])
    ensures NonNegative(n) ==> dist'[current] == dist[current]
    ensures Frozen(visited, paths, paths')
  {
    unvisited', order', dist', paths', pcosts' := unvisited, order, dist, paths, pcosts;
    var i := 0;
    while i < |candidates|
      invariant 0 <= i <= |candidates|
      invariant TrackedAll(n, from, u, visited, unvisited', order', dist', paths', pcosts')
      invariant current in unvisited'
      invariant NoneHigher(dist, dist', visited) && Frozen(visited, paths, paths')
      invariant Near(candidates[..i], dist', dist[current])
      invariant NonNegative(n) ==> dist'[current] == dist[current]
    {
      var (neighbour, cost) := candidates[i];
      assert candidates[i] in candidates;
      ghost var before := dist';
      unvisited', order', dist', paths', pcosts' :=
        RelaxAllOne(n, from, u, current, neighbour, cost, visited, unvisited', order', dist', paths', pcosts');
      NoneHigherStep(dist, before, dist', visited, neighbour, before[current] + cost);
      NearStep(candidates, i, before, dist', dist[current], before[current] + cost);
      if NonNegative(n) {
        StepNonNegative(n, current, (neighbour, cost));
        KeepsOwnDistance(before, dist', neighbour, current, cost);
      }
      i := i + 1;
    }
    NearAll(candidates, dist', dist[current]);
  }

  /** One pass of the `until` loop of `shortest_paths`. */
  method StepAll(n: Neighbours, ghost from: Coord, ghost u: set<Coord>,
                 unvisited: map<Coord, int>, order: seq<Coord>, visited: set<Coord>, dist: map<Coord, int>,
                 paths: map<Coord, seq<seq<Coord>>>, ghost pcosts: map<Coord, seq<seq<int>>>)
    returns (current: Coord, unvisited': map<Coord, int>, order': seq<Coord>, visited': set<Coord>,
             dist': map<Coord, int>, paths': map<Coord, seq<seq<Coord>>>, ghost pcosts': map<Coord, seq<seq<int>>>)
    requires SearchInv(n, from, u, unvisited, order, visited, dist) && ClosedUnder(n, u)
    requires AllWalks(n, from, dist, paths, pcosts) && |unvisited| > 0
    ensures SearchInv(n, from, u, unvisited', order', visited', dist') && AllWalks(n, from, dist', paths', pcosts')
    ensures current in u && current !in visited && visited' == visited + {current}
    ensures forall v :: v in visited ==> dist'[v] == dist[v]
    ensures Frozen(visited, paths, paths')
    ensures NonNegative(n) ==> forall x, w, cs :: x !in visited && WalkFromTo(n, from, x, w, cs) ==>
      dist'[current] <= Sum(cs)
  {
    assert exists k :: k in unvisited;
    ghost var at;
    current, at := PickMin(unvisited, order);
    if NonNegative(n) {
      Nearest(n, from, visited, unvisited, dist, current);
    }
    var candidates := RejectVisited(n(current), visited);
    var u1, o1, d1, p1, c1 :=
      RelaxPaths(n, from, u, current, candidates, visited, unvisited, order, dist, paths, pcosts);
    VisitWrite(u1, o1, visited, d1, current);
    VisitBooks(u1, o1, visited, d1, current);
    VisitFrontier(n, visited, unvisited, dist, current, candidates, u1, o1, d1, dist[current]);
    if NonNegative(n) {
      VisitRelaxed(n, visited, dist, current, candidates, d1);
      VisitSettled(n, from, visited, dist, current, d1);
    }
    VisitStarted(from, visited, unvisited, dist, current, u1, d1);
    visited' := visited + {current};
    dist' := d1[current := u1[current]];
    unvisited' := u1 - {current};
    order' := Without(o1, current);
    paths', pcosts' := p1, c1;
  }

  /** The path sets stored for the listed targets, concatenated in list
      order; a target with no stored paths contributes none. */
  function FlatPaths(ts: seq<Coord>, paths: map<Coord, seq<seq<Coord>>>): (r: seq<seq<Coord>>)
    ensures forall p :: p in r ==> exists t :: t in ts && t in paths && p in paths[t]
  {
    if |ts| == 0 then []
    else (if ts[0] in paths then paths[ts[0]] else []) + FlatPaths(ts[1..], paths)
  }

  /** The step costs of the paths `FlatPaths` gathers, in the same order. */
  ghost function FlatCosts(ts: seq<Coord>, paths: map<Coord, seq<seq<Coord>>>, pcosts: map<Coord, seq<seq<int>>>)
    : (r: seq<seq<int>>)
  {
    if |ts| == 0 then []
    else (if ts[0] in paths && ts[0] in pcosts then pcosts[ts[0]] else []) + FlatCosts(ts[1..], paths, pcosts)
  }

  /** Every gathered path is a walk from `from` to one of the targets. */
  lemma {:induction false} FlatWalks(n: Neighbours, from: Coord, ts: seq<Coord>, dist: map<Coord, int>,
                                     paths: map<Coord, seq<seq<Coord>>>, pcosts: map<Coord, seq<seq<int>>>)
    requires AllWalks(n, from, dist, paths, pcosts)
    ensures var ps, cs := FlatPaths(ts, paths), FlatCosts(ts, paths, pcosts);
      |ps| == |cs| && forall j :: 0 <= j < |ps| ==> (|ps[j]| > 0 && ps[j][|ps[j]| - 1] in ts &&
        WalkFromTo(n, from, ps[j][|ps[j]| - 1], ps[j], cs[j]))
  {
    if |ts| > 0 {
      FlatWalks(n, from, ts[1..], dist, paths, pcosts);
      var ps, cs := FlatPaths(ts, paths), FlatCosts(ts, paths, pcosts);
      var ps1, cs1 := FlatPaths(ts[1..], paths), FlatCosts(ts[1..], paths, pcosts);
      var ps0: seq<seq<Coord>> := if ts[0] in paths then paths[ts[0]] else [];
      var cs0: seq<seq<int>> := if ts[0] in paths && ts[0] in pcosts then pcosts[ts[0]] else [];
      assert ps == ps0 + ps1 && cs == cs0 + cs1;
      assert |ps0| == |cs0|;
      forall j | 0 <= j < |ps|
        ensures |ps[j]| > 0 && ps[j][|ps[j]| - 1] in ts && WalkFromTo(n, from, ps[j][|ps[j]| - 1], ps[j], cs[j])
      {
        if j < |ps0| {
          assert ps[j] == ps0[j] && cs[j] == cs0[j];
        } else {
          assert ps[j] == ps1[j - |ps0|] && cs[j] == cs1[j - |ps0|];
          assert ps1[j - |ps0|][|ps1[j - |ps0|]| - 1] in ts[1..];
        }
      }
    }
  }

  /** Every path set has a list of step costs of the same length. */
  ghost predicate Parallel(paths: map<Coord, seq<seq<Coord>>>, pcosts: map<Coord, seq<seq<int>>>)
  {
    forall k :: k in paths ==> k in pcosts && |paths[k]| == |pcosts[k]|
  }

  lemma AllWalksParallel(n: Neighbours, from: Coord, dist: map<Coord, int>,
                         paths: map<Coord, seq<seq<Coord>>>, pcosts: map<Coord, seq<seq<int>>>)
    requires AllWalks(n, from, dist, paths, pcosts)
    ensures Parallel(paths, pcosts)
  {
  }

  /** The paths of the `i`-th target, when it has any, are among the gathered ones. */
  lemma {:induction false} FlatHas(ts: seq<Coord>, i: nat, paths: map<Coord, seq<seq<Coord>>>,
                                   pcosts: map<Coord, seq<seq<int>>>)
    returns (o: nat)
    requires Parallel(paths, pcosts) && i < |ts| && ts[i] in paths && |paths[ts[i]]| > 0
    ensures o < |FlatPaths(ts, paths)| && o < |FlatCosts(ts, paths, pcosts)|
    ensures FlatPaths(ts, paths)[o] == paths[ts[i]][0] && FlatCosts(ts, paths, pcosts)[o] == pcosts[ts[i]][0]
  {
    var ps0: seq<seq<Coord>> := if ts[0] in paths then paths[ts[0]] else [];
    var cs0: seq<seq<int>> := if ts[0] in paths && ts[0] in pcosts then pcosts[ts[0]] else [];
    assert FlatPaths(ts, paths) == ps0 + FlatPaths(ts[1..], paths);
    assert FlatCosts(ts, paths, pcosts) == cs0 + FlatCosts(ts[1..], paths, pcosts);
    if i == 0 {
      o := 0;
    } else {
      var o1 := FlatHas(ts[1..], i - 1, paths, pcosts);
      o := |ps0| + o1;
    }
  }

  /** The stored walks to one target all end in that target. */
  lemma OneWalks(n: Neighbours, from: Coord, k: Coord, ps: seq<seq<Coord>>, cs: seq<seq<int>>, d: int)
    requires WalksTo(n, from, k, ps, cs, d)
    ensures forall j :: 0 <= j < |ps| ==> (|ps[j]| > 0 && ps[j][|ps[j]| - 1] in [k] &&
      WalkFromTo(n, from, ps[j][|ps[j]| - 1], ps[j], cs[j]))
  {
  }

  /** The value of `shortest_paths_dijkstra` once a target is visited:
      the path set of the target, or those of the listed targets gathered by `FlatPaths`. */
  method AnswerAll(n: Neighbours, ghost from: Coord, to: Target, ghost unvisited: map<Coord, int>,
                   ghost order: seq<Coord>, visited: set<Coord>, ghost dist: map<Coord, int>,
                   paths: map<Coord, seq<seq<Coord>>>, ghost pcosts: map<Coord, seq<seq<int>>>)
    returns (r: Result<seq<seq<Coord>>>, ghost costs: seq<seq<int>>)
    requires Reached(to, visited) && Bookkeeping(unvisited, order, visited, dist)
    requires AllWalks(n, from, dist, paths, pcosts)
    requires NonNegative(n) ==> forall t :: t in Targets(to) && t in visited ==>
      ShortestToAny(n, from, Targets(to), dist[t])
    ensures r.Ok? && |r.value| == |costs| && |r.value| > 0
    ensures forall j :: 0 <= j < |r.value| ==> (|r.value[j]| > 0 && r.value[j][|r.value[j]| - 1] in Targets(to) &&
      WalkFromTo(n, from, r.value[j][|r.value[j]| - 1], r.value[j], costs[j]))
    ensures to.One? && NonNegative(n) ==> forall j :: 0 <= j < |costs| ==> Shortest(n, from, to.dest, Sum(costs[j]))
    ensures NonNegative(n) ==> exists j :: 0 <= j < |costs| && ShortestToAny(n, from, Targets(to), Sum(costs[j]))
  {
    ghost var t := Arrived(to, visited);
    assert t in dist;
    match to
    case One(d) =>
      r, costs := Ok(paths[d]), pcosts[d];
      OneWalks(n, from, d, r.value, costs, dist[d]);
      assert Sum(costs[0]) == dist[d];
    case Several(ds) =>
      FlatWalks(n, from, ds, dist, paths, pcosts);
      ghost var i :| 0 <= i < |ds| && ds[i] == t && FirstOf(ds, i, visited);
      AllWalksParallel(n, from, dist, paths, pcosts);
      ghost var o := FlatHas(ds, i, paths, pcosts);
      r, costs := Ok(FlatPaths(ds, paths)), FlatCosts(ds, paths, pcosts);
      assert Sum(costs[o]) == dist[t];
  }

  /** `shortest_paths_dijkstra`: the same search as `shortest_path_dijkstra`,
      keeping every equally cheap path to each coordinate. */
  method ShortestPathsDijkstra(n: Neighbours, from: Coord, to: Target, ghost u: set<Coord>)
    returns (r: Result<seq<seq<Coord>>>, ghost costs: seq<seq<int>>)
    requires from in u && ClosedUnder(n, u)
    ensures r.Ok? ==> |r.value| == |costs| && |r.value| > 0
    ensures r.Ok? ==> forall j :: 0 <= j < |r.value| ==> (|r.value[j]| > 0 &&
      r.value[j][|r.value[j]| - 1] in Targets(to) && WalkFromTo(n, from, r.value[j][|r.value[j]| - 1], r.value[j], costs[j]))
    ensures r.Ok? && to.One? && NonNegative(n) ==> forall j :: 0 <= j < |costs| ==> Shortest(n, from, to.dest, Sum(costs[j]))
    ensures r.Ok? && NonNegative(n) ==> exists j :: 0 <= j < |costs| && ShortestToAny(n, from, Targets(to), Sum(costs[j]))
    ensures r.Err? ==> r.error == "route blocked" && forall t :: t in Targets(to) ==> !Reachable(n, from, t)
  {
    var unvisited := map[from := 0];
    var order := [from];
    var visited: set<Coord> := {};
    var dist := map[from := 0];
    var paths := map[from := [[from]]];
    ghost var pcosts: map<Coord, seq<seq<int>>> := map[from := [[]]];
    Start(n, from, u);
    while !Reached(to, visited)
      invariant SearchInv(n, from, u, unvisited, order, visited, dist) && AllWalks(n, from, dist, paths, pcosts)
      invariant NonNegative(n) ==> forall t :: t in Targets(to) && t in visited ==>
        ShortestToAny(n, from, Targets(to), dist[t])
      decreases |u - visited|
    {
      if |unvisited| == 0 {
        Blocked(n, from, visited, unvisited);
        return Err("route blocked"), [];
      }
      ghost var before := visited;
      var current;
      current, unvisited, order, visited, dist, paths, pcosts := StepAll(n, from, u, unvisited, order, visited, dist, paths, pcosts);
      Fewer(u, before, current);
      if NonNegative(n) {
        FirstTarget(n, from, Targets(to), before, dist[current]);
      }
    }
    r, costs := AnswerAll(n, from, to, unvisited, order, visited, dist, paths, pcosts);
  }

  // ---------------------------------------------------------------------
  // The Map object

  /** A neighbour procedure as `set_neighbours_of_proc` takes it: called
      with the map's table and a coordinate. */
  type Proc = (seq<seq<char>>, Coord) -> seq<(Coord, int)>

  /** The cell at `p` exists and is not a wall `#`. */
  predicate Open(rows: seq<seq<char>>, p: Coord)
  {
    0 <= p.0 < |rows| && 0 <= p.1 < |rows[p.0]| && rows[p.0][p.1] != '#'
  }

  /** The default neighbour rule: each adjacent coordinate whose cell is not a
      wall `#`, at cost 1. */
  function OpenSteps(rows: seq<seq<char>>, adjacent: seq<Coord>): (r: seq<(Coord, int)>)
    ensures forall e :: e in r <==> e.0 in adjacent && Open(rows, e.0) && e.1 == 1
  {
    if |adjacent| == 0 then []
    else (if Open(rows, adjacent[0]) then [(adjacent[0], 1)] else []) + OpenSteps(rows, adjacent[1..])
  }

  /** `neighbours_of`: the procedure when one is set, else the default rule. */
  function Rule(rows: seq<seq<char>>, proc: Option<Proc>, adjacent: Coord -> seq<Coord>): Neighbours
  {
    match proc
    case Some(p) => (c: Coord) => p(rows, c)
    case None => (c: Coord) => OpenSteps(rows, adjacent(c))
  }

  /** The default rule steps only onto open adjacent cells, each step costing 1. */
  lemma DefaultRule(rows: seq<seq<char>>, adjacent: Coord -> seq<Coord>, c: Coord)
    ensures forall e :: e in Rule(rows, None, adjacent)(c) <==> e.0 in adjacent(c) && Open(rows, e.0) && e.1 == 1
  {
  }

  /** So the default rule has no negative step, and the searches under it are exact. */
  lemma DefaultNonNegative(rows: seq<seq<char>>, adjacent: Coord -> seq<Coord>)
    ensures NonNegative(Rule(rows, None, adjacent))
  {
    var n := Rule(rows, None, adjacent);
    forall a, i | 0 <= i < |n(a)| ensures n(a)[i].1 >= 0 {
      DefaultRule(rows, adjacent, a);
      assert n(a)[i] in n(a);
    }
  }

  /** The default rule never leaves the open cells of the table. */
  lemma DefaultClosed(rows: seq<seq<char>>, adjacent: Coord -> seq<Coord>, u: set<Coord>)
    requires forall p :: Open(rows, p) ==> p in u
    ensures ClosedUnder(Rule(rows, None, adjacent), u)
  {
    var n := Rule(rows, None, adjacent);
    forall a, i | a in u && 0 <= i < |n(a)| ensures n(a)[i].0 in u {
      DefaultRule(rows, adjacent, a);
      assert n(a)[i] in n(a);
    }
  }

  /** `Map < Grid`: a grid searched by Dijkstra's algorithm. */
  class Map {
    /** The table (`@grid`). */
    var rows: seq<seq<char>>
    /** `@neighbours_of_proc`; `None` until `set_neighbours_of_proc` is called. */
    var proc: Option<Proc>
    /** `@cardinal` and `@ordinal`, recorded but not consulted by the searches. */
    var cardinal: bool
    var ordinal: bool
    /** The coordinates `Grid#neighbours` yields for a cell. */
    const adjacent: Coord -> seq<Coord>

    /** `Map.new(grid)`: no neighbour procedure yet. */
    constructor (grid: seq<seq<char>>, adjacent: Coord -> seq<Coord>)
      requires Rectangular(grid)
      ensures rows == grid && proc == None && this.adjacent == adjacent
    {
      rows := grid;
      proc := None;
      this.adjacent := adjacent;
    }

    /** `set_neighbours_of_proc(proc, cardinal:, ordinal:)`: replaces the
        neighbour rule; the table is untouched. */
    method SetNeighboursOfProc(p: Proc, cardinal: bool, ordinal: bool)
      modifies this
      ensures proc == Some(p) && this.cardinal == cardinal && this.ordinal == ordinal
      ensures rows == old(rows)
    {
      this.cardinal := cardinal;
      this.ordinal := ordinal;
      proc := Some(p);
    }

    /** `neighbours_of(current)`. */
    function NeighboursOf(current: Coord): (r: seq<(Coord, int)>)
      reads this
      ensures proc.Some? ==> r == proc.value(rows, current)
      ensures proc.None? ==> forall e :: e in r <==> e.0 in adjacent(current) && Open(rows, e.0) && e.1 == 1
    {
      DefaultRule(rows, adjacent, current);
      Rule(rows, proc, adjacent)(current)
    }

    /** `shortest_path(from, to, algorithm:)`: `nil` (here `None`) for any
        algorithm but `:dijkstra`. */
    method ShortestPath(from: Coord, to: Target, algorithm: string, ghost u: set<Coord>)
      returns (r: Option<Result<seq<Coord>>>, ghost costs: seq<int>, ghost done: set<Coord>, ghost last: Coord)
      requires from in u && ClosedUnder(Rule(rows, proc, adjacent), u)
      ensures r.Some? <==> algorithm == "dijkstra"
      ensures r.Some? && r.value.Ok? ==> (var p := r.value.value;
        |p| > 0 && p[|p| - 1] in Targets(to) && WalkFromTo(Rule(rows, proc, adjacent), from, p[|p| - 1], p, costs))
      ensures r.Some? && r.value.Ok? ==> (var p := r.value.value;
        FirstRound(to, done, last) && Reached(to, done) && p[|p| - 1] == Arrived(to, done))
      ensures r.Some? && r.value.Ok? && NonNegative(Rule(rows, proc, adjacent)) ==>
        ShortestToAny(Rule(rows, proc, adjacent), from, Targets(to), Sum(costs))
      ensures r.Some? && r.value.Err? ==> (r.value.error == "route blocked" &&
        forall t :: t in Targets(to) ==> !Reachable(Rule(rows, proc, adjacent), from, t))
    {
      if algorithm == "dijkstra" {
        var res;
        res, costs, done, last := ShortestPathDijkstra(Rule(rows, proc, adjacent), from, to, u);
        r := Some(res);
      } else {
        r, costs, done, last := None, [], {}, from;
      }
    }

    /** `shortest_paths(from, to, algorithm:)`. */
    method ShortestPaths(from: Coord, to: Target, algorithm: string, ghost u: set<Coord>)
      returns (r: Option<Result<seq<seq<Coord>>>>, ghost costs: seq<seq<int>>)
      requires from in u && ClosedUnder(Rule(rows, proc, adjacent), u)
      ensures r.Some? <==> algorithm == "dijkstra"
      ensures r.Some? && r.value.Ok? ==> |r.value.value| == |costs| && |r.value.value| > 0
      ensures r.Some? && r.value.Ok? ==> forall j :: 0 <= j < |costs| ==> (var p := r.value.value[j];
        |p| > 0 && p[|p| - 1] in Targets(to) && WalkFromTo(Rule(rows, proc, adjacent), from, p[|p| - 1], p, costs[j]))
      ensures r.Some? && r.value.Ok? && to.One? && NonNegative(Rule(rows, proc, adjacent)) ==>
        forall j :: 0 <= j < |costs| ==> Shortest(Rule(rows, proc, adjacent), from, to.dest, Sum(costs[j]))
      ensures r.Some? && r.value.Ok? && NonNegative(Rule(rows, proc, adjacent)) ==>
        exists j :: 0 <= j < |costs| && ShortestToAny(Rule(rows, proc, adjacent), from, Targets(to), Sum(costs[j]))
      ensures r.Some? && r.value.Err? ==> (r.value.error == "route blocked" &&
        forall t :: t in Targets(to) ==> !Reachable(Rule(rows, proc, adjacent), from, t))
    {
      if algorithm == "dijkstra" {
        var res;
        res, costs := ShortestPathsDijkstra(Rule(rows, proc, adjacent), from, to, u);
        r := Some(res);
      } else {
        r, costs := None, [];
      }
    }
  }
}
