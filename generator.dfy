/**
 * Randomised recursive-backtracking maze carving.
 *
 * The grid is `height` rows by `width` columns; 0 is a wall and 1 a path.
 * Carving starts at (0, 0) and only ever visits "lattice" cells, whose row
 * and column are both even; between two lattice cells two apart it opens the
 * midpoint. Everything is addressed as (row, column).
 */
module Generator {
  import opened Cells

  /** The four carving steps, as (row, column) offsets, in the order the list is written before shuffling. */
  const Directions: seq<Cell> := [(2, 0), (0, 2), (-2, 0), (0, -2)]

  /** One of the four carving steps. */
  predicate IsCarveStep(d: Cell)
  {
    d == (2, 0) || d == (0, 2) || d == (-2, 0) || d == (0, -2)
  }

  function Add(p: Cell, d: Cell): Cell
  {
    (p.0 + d.0, p.1 + d.1)
  }

  /** The cell halfway along the step `d` from `p`. */
  function Mid(p: Cell, d: Cell): Cell
  {
    (p.0 + d.0 / 2, p.1 + d.1 / 2)
  }

  function Diff(q: Cell, p: Cell): Cell
  {
    (q.0 - p.0, q.1 - p.1)
  }

  predicate Lattice(q: Cell)
  {
    q.0 % 2 == 0 && q.1 % 2 == 0
  }

  /** Exactly one coordinate is odd: the cell lies between two lattice cells. */
  predicate OneOdd(q: Cell)
  {
    (q.0 % 2 == 0) != (q.1 % 2 == 0)
  }

  /**
   * `random.shuffle`: for i from |xs|-1 down to 1, swap position i with
   * position `randbelow(i + 1)`. The k-th call to `randbelow` answers
   * `draw(k)` reduced into range; the first call is number `pos`.
   */
  method Shuffle<T>(xs: seq<T>, draw: nat -> nat, pos: nat) returns (ys: seq<T>)
    ensures |ys| == |xs| && multiset(ys) == multiset(xs)
  {
    ys := xs;
    var i := |ys| - 1;
    var k := pos;
    while i > 0
      invariant -1 <= i < |ys|
      invariant |ys| == |xs| && multiset(ys) == multiset(xs)
    {
      var j := draw(k) % (i + 1);
      var a, b := ys[i], ys[j];
      ys := ys[i := b][j := a];
      i := i - 1;
      k := k + 1;
    }
  }

  /** The randomised direction orders are always a rearrangement of the four steps. */
  lemma ShuffledDirection(ds: seq<Cell>, j: nat)
    requires multiset(ds) == multiset(Directions) && j < |ds|
    ensures IsCarveStep(ds[j])
  {
    assert ds[j] in multiset(ds);
  }

  /**
   * The two cells two apart that a cell with one odd coordinate lies
   * between: above and below it when its row is odd, else left and right.
   */
  function Ends(m: Cell): (Cell, Cell)
  {
    if m.0 % 2 != 0 then ((m.0 - 1, m.1), (m.0 + 1, m.1)) else ((m.0, m.1 - 1), (m.0, m.1 + 1))
  }

  /**
   * A carving step from a lattice cell lands on a lattice cell, and its
   * midpoint, which lies strictly between the two, has exactly one odd
   * coordinate and lies between exactly those two cells.
   */
  lemma StepFromLattice(p: Cell, d: Cell)
    requires Lattice(p) && IsCarveStep(d)
    ensures Lattice(Add(p, d)) && OneOdd(Mid(p, d)) && Adjacent(p, Mid(p, d)) && Adjacent(Mid(p, d), Add(p, d))
    ensures Ends(Mid(p, d)) == (p, Add(p, d)) || Ends(Mid(p, d)) == (Add(p, d), p)
  {
    if d == (2, 0) {
    } else if d == (0, 2) {
    } else if d == (-2, 0) {
      assert Mid(p, d) == (p.0 - 1, p.1);
    } else {
      assert Mid(p, d) == (p.0, p.1 - 1);
    }
  }

  /** A cell with one odd coordinate is the midpoint of the step between its two ends. */
  lemma MidOfEnds(m: Cell)
    requires OneOdd(m)
    ensures IsCarveStep(Diff(Ends(m).1, Ends(m).0)) && Mid(Ends(m).0, Diff(Ends(m).1, Ends(m).0)) == m
    ensures IsCarveStep(Diff(Ends(m).0, Ends(m).1)) && Mid(Ends(m).1, Diff(Ends(m).0, Ends(m).1)) == m
  {
  }

  /** The later carving history keeps every earlier record: carved cells, parent links and depths. */
  ghost predicate Extends(parent: map<Cell, Cell>, depth: map<Cell, nat>, carved: set<Cell>,
                          parent': map<Cell, Cell>, depth': map<Cell, nat>, carved': set<Cell>)
  {
    && carved <= carved'
    && (forall q :: q in parent ==> q in parent' && parent'[q] == parent[q])
    && (forall q :: q in depth ==> q in depth' && depth'[q] == depth[q])
  }

  lemma ExtendsTrans(p0: map<Cell, Cell>, d0: map<Cell, nat>, c0: set<Cell>, p1: map<Cell, Cell>, d1: map<Cell, nat>, c1: set<Cell>,
                     p2: map<Cell, Cell>, d2: map<Cell, nat>, c2: set<Cell>)
    requires Extends(p0, d0, c0, p1, d1, c1) && Extends(p1, d1, c1, p2, d2, c2)
    ensures Extends(p0, d0, c0, p2, d2, c2)
  {
  }

  /** `w` leads from `a` to `b` by unit steps, every cell of it in `cells`. */
  predicate WalkIn(w: seq<Cell>, cells: set<Cell>, a: Cell, b: Cell)
  {
    && |w| > 0 && w[0] == a && w[|w| - 1] == b
    && (forall i :: 0 <= i < |w| ==> w[i] in cells)
    && (forall i :: 0 <= i < |w| - 1 ==> Adjacent(w[i], w[i + 1]))
  }

  class MazeGenerator {
    const width: int
    const height: int
    var maze: array2<int>
    var visited: array2<bool>
    const start: Cell := (0, 0)
    const end: Cell := (height - 1, width - 1)
    /** The state of the random number generator: the stream of raw draws and how many were used. */
    var draw: nat -> nat
    var calls: nat
    /**
     * Carving history: the cell each visited cell was carved from, every
     * visited cell's distance from (0, 0) in carving steps (its keys are the
     * visited cells), and the cells carving has set to 1.
     */
    ghost var parent: map<Cell, Cell>
    ghost var depth: map<Cell, nat>
    ghost var carved: set<Cell>

    constructor (width: int, height: int)
      requires width >= 0 && height >= 0
      ensures this.width == width && this.height == height
      ensures start == (0, 0) && end == (height - 1, width - 1)
      ensures fresh(maze) && fresh(visited) && Shape()
      ensures forall r, c :: 0 <= r < height && 0 <= c < width ==> maze[r, c] == 0 && !visited[r, c]
    {
      this.width := width;
      this.height := height;
      maze := new int[height, width]((r, c) => 0);
      visited := new bool[height, width]((r, c) => false);
      draw := (k: nat) => 0;
      calls := 0;
      parent := map[];
      depth := map[];
      carved := {};
    }

    ghost predicate Shape()
      reads this`maze, this`visited
    {
      maze.Length0 == height && maze.Length1 == width && visited.Length0 == height && visited.Length1 == width
    }

    predicate InGrid(q: Cell)
    {
      0 <= q.0 < height && 0 <= q.1 < width
    }

    ghost function GridCells(): set<Cell>
    {
      set r, c | 0 <= r < height && 0 <= c < width :: (r, c)
    }

    /** `p` and `q` lie inside the grid one carving step apart, and so does the midpoint between them. */
    predicate Edge(p: Cell, q: Cell)
    {
      InGrid(p) && InGrid(q) && IsCarveStep(Diff(q, p)) && InGrid(Mid(p, Diff(q, p)))
    }

    /** `q` was carved from its parent: one step away, closer to the root, with `q` and the midpoint carved. */
    ghost predicate Linked(q: Cell, parent: map<Cell, Cell>, depth: map<Cell, nat>, carved: set<Cell>)
    {
      && q in parent && q in depth && parent[q] in depth && depth[parent[q]] < depth[q]
      && Edge(parent[q], q) && Mid(parent[q], Diff(q, parent[q])) in carved && q in carved
    }

    /** `m` is the opened midpoint of a tree edge: one of its two ends was carved from the other. */
    ghost predicate TreeEdge(m: Cell, parent: map<Cell, Cell>, depth: map<Cell, nat>)
    {
      var (a, b) := Ends(m);
      || (b in depth && b != (0, 0) && b in parent && parent[b] == a)
      || (a in depth && a != (0, 0) && a in parent && parent[a] == b)
    }

    /** The cell between `q` and its parent: the passage opened when `q` was carved. */
    function EdgeMid(q: Cell, parent: map<Cell, Cell>): Cell
      requires q in parent
    {
      Mid(parent[q], Diff(q, parent[q]))
    }

    /**
     * The carving history is a tree rooted at (0, 0) over lattice cells of
     * the grid, and every carved cell is a visited cell or the midpoint of
     * one of the tree's edges.
     */
    ghost predicate Tree(parent: map<Cell, Cell>, depth: map<Cell, nat>, carved: set<Cell>)
    {
      && (0, 0) in depth
      && (forall q :: q in depth ==> InGrid(q))
      && parent.Keys <= depth.Keys
      && (forall q {:trigger Lattice(q)} :: q in depth ==> Lattice(q))
      && (forall q {:trigger OneOdd(q)} :: q in carved && q !in depth ==> OneOdd(q) && TreeEdge(q, parent, depth))
      && (forall q {:trigger Linked(q, parent, depth, carved)} :: q in depth && q != (0, 0) ==> Linked(q, parent, depth, carved))
    }

    /** The arrays agree with the carving history: a cell is 1 exactly when carved, and visited exactly when in `depth`. */
    ghost predicate Mirrors()
      requires Shape()
      reads this`maze, this`visited, this`carved, this`depth, maze, visited
    {
      && (forall r, c {:trigger maze[r, c]} :: 0 <= r < height && 0 <= c < width ==> maze[r, c] == (if (r, c) in carved then 1 else 0))
      && (forall r, c {:trigger visited[r, c]} :: 0 <= r < height && 0 <= c < width ==> visited[r, c] == ((r, c) in depth))
    }

    ghost predicate CarveInv()
      reads this`maze, this`visited, this`parent, this`depth, this`carved, maze, visited
    {
      Shape() && Mirrors() && Tree(parent, depth, carved)
    }

    /** The cell is outside the grid or already visited. */
    predicate Reached(n: Cell, depth: map<Cell, nat>)
    {
      InGrid(n) ==> n in depth
    }

    /** All four cells one carving step away are outside the grid or visited. */
    predicate Closed(q: Cell, depth: map<Cell, nat>)
    {
      forall k :: 0 <= k < |Directions| ==> Reached(Add(q, Directions[k]), depth)
    }

    /** One carving step from a visited cell into an unvisited one keeps the carving history a tree. */
    lemma StepKeepsTree(parent: map<Cell, Cell>, depth: map<Cell, nat>, carved: set<Cell>, p: Cell, d: Cell)
      requires Tree(parent, depth, carved) && p in depth && IsCarveStep(d)
      requires InGrid(Add(p, d)) && Add(p, d) !in depth
      ensures InGrid(Mid(p, d)) && OneOdd(Mid(p, d))
      ensures Tree(parent[Add(p, d) := p], depth[Add(p, d) := depth[p] + 1], carved + {Add(p, d), Mid(p, d)})
    {
      StepFromLattice(p, d);
      StepKeepsLinks(parent, depth, carved, p, d);
      StepKeepsEdges(parent, depth, carved, p, d);
    }

    /**
     * The carved cells outside the visited ones are exactly the midpoints
     * of tree edges, and no two visited cells share the edge to their
     * parents: the open passages form a spanning tree, with no cycle.
     */
    lemma CarvedIsTree(parent: map<Cell, Cell>, depth: map<Cell, nat>, carved: set<Cell>)
      requires Tree(parent, depth, carved)
      ensures forall m {:trigger TreeEdge(m, parent, depth)} :: OneOdd(m) ==> (m in carved <==> TreeEdge(m, parent, depth))
      ensures forall q :: q in depth && q != (0, 0) ==> q in parent && OneOdd(EdgeMid(q, parent)) && EdgeMid(q, parent) in carved
      ensures forall q1, q2 :: q1 in depth && q2 in depth && q1 != (0, 0) && q2 != (0, 0) && q1 != q2 ==>
                EdgeMid(q1, parent) != EdgeMid(q2, parent)
    {
      forall m | OneOdd(m)
        ensures m in carved <==> TreeEdge(m, parent, depth)
      {
        assert !Lattice(m);
        MidOfEnds(m);
        var (a, b) := Ends(m);
        if b in depth && b != (0, 0) && b in parent && parent[b] == a {
          assert Linked(b, parent, depth, carved);
        } else if a in depth && a != (0, 0) && a in parent && parent[a] == b {
          assert Linked(a, parent, depth, carved);
        }
      }
      forall q | q in depth && q != (0, 0)
        ensures q in parent && OneOdd(EdgeMid(q, parent)) && EdgeMid(q, parent) in carved
      {
        ChildEdge(parent, depth, carved, q);
      }
      forall q1, q2 | q1 in depth && q2 in depth && q1 != (0, 0) && q2 != (0, 0) && q1 != q2
        ensures EdgeMid(q1, parent) != EdgeMid(q2, parent)
      {
        ChildEdge(parent, depth, carved, q1);
        ChildEdge(parent, depth, carved, q2);
      }
    }

    /** The edge from a visited cell to its parent has that cell and its parent as ends. */
    lemma ChildEdge(parent: map<Cell, Cell>, depth: map<Cell, nat>, carved: set<Cell>, q: Cell)
      requires Tree(parent, depth, carved) && q in depth && q != (0, 0)
      ensures q in parent && parent[q] in depth && depth[parent[q]] < depth[q]
      ensures OneOdd(EdgeMid(q, parent)) && EdgeMid(q, parent) in carved
      ensures Ends(EdgeMid(q, parent)) == (parent[q], q) || Ends(EdgeMid(q, parent)) == (q, parent[q])
    {
      assert Linked(q, parent, depth, carved);
      var p := parent[q];
      assert Lattice(p) && Add(p, Diff(q, p)) == q;
      StepFromLattice(p, Diff(q, p));
    }

    /** The edge midpoints of the visited cells in `qs`. */
    ghost function EdgeMids(qs: set<Cell>, parent: map<Cell, Cell>): set<Cell>
    {
      set q | q in qs && q in parent :: EdgeMid(q, parent)
    }

    /**
     * The passages opened by carving number one fewer than the visited
     * cells: a connected carving with this many edges has no cycle.
     */
    lemma EdgeCount(parent: map<Cell, Cell>, depth: map<Cell, nat>, carved: set<Cell>)
      requires Tree(parent, depth, carved)
      ensures |carved - depth.Keys| + 1 == |depth|
    {
      CarvedIsTree(parent, depth, carved);
      var children := depth.Keys - {(0, 0)};
      forall m | m in carved - depth.Keys
        ensures m in EdgeMids(children, parent)
      {
        assert OneOdd(m) && TreeEdge(m, parent, depth);
        MidOfEnds(m);
        var (a, b) := Ends(m);
        if b in depth && b != (0, 0) && b in parent && parent[b] == a {
          assert EdgeMid(b, parent) == m;
        } else {
          assert EdgeMid(a, parent) == m;
        }
      }
      forall m | m in EdgeMids(children, parent)
        ensures m in carved - depth.Keys
      {
        var q :| q in children && q in parent && m == EdgeMid(q, parent);
        assert !Lattice(m);
      }
      assert carved - depth.Keys == EdgeMids(children, parent);
      EdgeMidsCount(parent, depth, carved, children);
    }

    /** Distinct children have distinct edge midpoints, so there are as many midpoints as children. */
    lemma {:induction false} EdgeMidsCount(parent: map<Cell, Cell>, depth: map<Cell, nat>, carved: set<Cell>, qs: set<Cell>)
      requires Tree(parent, depth, carved) && qs <= depth.Keys && (0, 0) !in qs
      ensures |EdgeMids(qs, parent)| == |qs|
      decreases qs
    {
      if qs != {} {
        var x :| x in qs;
        var rest := qs - {x};
        EdgeMidsCount(parent, depth, carved, rest);
        CarvedIsTree(parent, depth, carved);
        assert x in parent;
        assert EdgeMids(qs, parent) == EdgeMids(rest, parent) + {EdgeMid(x, parent)};
        assert EdgeMid(x, parent) !in EdgeMids(rest, parent);
      }
    }

    /** After one carving step every visited cell other than (0, 0) is still linked to its parent. */
    lemma StepKeepsLinks(parent: map<Cell, Cell>, depth: map<Cell, nat>, carved: set<Cell>, p: Cell, d: Cell)
      requires Tree(parent, depth, carved) && p in depth && IsCarveStep(d)
      requires InGrid(Add(p, d)) && Add(p, d) !in depth
      ensures forall q {:trigger Linked(q, parent[Add(p, d) := p], depth[Add(p, d) := depth[p] + 1], carved + {Add(p, d), Mid(p, d)})} ::
                q in depth[Add(p, d) := depth[p] + 1] && q != (0, 0) ==>
                Linked(q, parent[Add(p, d) := p], depth[Add(p, d) := depth[p] + 1], carved + {Add(p, d), Mid(p, d)})
    {
      var n, m := Add(p, d), Mid(p, d);
      var parent', depth', carved' := parent[n := p], depth[n := depth[p] + 1], carved + {n, m};
      forall q | q in depth' && q != (0, 0)
        ensures Linked(q, parent', depth', carved')
      {
        if q != n {
          assert Linked(q, parent, depth, carved);
          assert parent'[q] == parent[q] && parent[q] != n;
        } else {
          assert Diff(q, p) == d;
        }
      }
    }

    /** After one carving step every carved cell outside the visited ones is still the midpoint of a tree edge. */
    lemma StepKeepsEdges(parent: map<Cell, Cell>, depth: map<Cell, nat>, carved: set<Cell>, p: Cell, d: Cell)
      requires Tree(parent, depth, carved) && p in depth && IsCarveStep(d)
      requires InGrid(Add(p, d)) && Add(p, d) !in depth
      ensures forall q {:trigger OneOdd(q)} :: q in carved + {Add(p, d), Mid(p, d)} && q !in depth[Add(p, d) := depth[p] + 1] ==>
                OneOdd(q) && TreeEdge(q, parent[Add(p, d) := p], depth[Add(p, d) := depth[p] + 1])
    {
      var n, m := Add(p, d), Mid(p, d);
      StepFromLattice(p, d);
      var parent', depth' := parent[n := p], depth[n := depth[p] + 1];
      forall q | q in carved + {n, m} && q !in depth'
        ensures OneOdd(q) && TreeEdge(q, parent', depth')
      {
        if q == m {
          assert n in depth' && n != (0, 0) && parent'[n] == p;
        } else {
          assert q in carved && q !in depth;
          assert OneOdd(q) && TreeEdge(q, parent, depth);
          var (a, b) := Ends(q);
          if b in depth && b != (0, 0) && b in parent && parent[b] == a {
            assert b != n && parent'[b] == a;
          } else {
            assert a != n && parent'[a] == b;
          }
        }
      }
    }

    /**
     * One carving step of `_carve_passages_from`: mark the new cell visited
     * and open it and the midpoint. Exactly those two maze cells change,
     * and exactly that one cell becomes visited, carved from `p`; the
     * midpoint lies inside the grid and is never a lattice cell.
     */
    method CarveStep(p: Cell, d: Cell)
      requires CarveInv() && p in depth && IsCarveStep(d)
      requires InGrid(Add(p, d)) && !visited[p.0 + d.0, p.1 + d.1]
      modifies this`parent, this`depth, this`carved, maze, visited
      ensures CarveInv()
      ensures InGrid(Mid(p, d)) && OneOdd(Mid(p, d))
      ensures forall r, c {:trigger maze[r, c]} :: 0 <= r < height && 0 <= c < width ==>
                maze[r, c] == (if (r, c) == Add(p, d) || (r, c) == Mid(p, d) then 1 else old(maze[r, c]))
      ensures Add(p, d) !in old(depth)
      ensures parent == old(parent)[Add(p, d) := p] && depth == old(depth)[Add(p, d) := old(depth)[p] + 1]
      ensures carved == old(carved) + {Add(p, d), Mid(p, d)}
    {
      var n := Add(p, d);
      var m := Mid(p, d);
      StepKeepsTree(parent, depth, carved, p, d);
      visited[n.0, n.1] := true;
      maze[m.0, m.1] := 1;
      maze[n.0, n.1] := 1;
      parent := parent[n := p];
      depth := depth[n := depth[p] + 1];
      carved := carved + {n, m};
    }

    /** Every cell visited since `before` has all its neighbouring lattice cells visited. */
    predicate ClosedSince(before: set<Cell>, depth: map<Cell, nat>)
    {
      forall q :: q in depth && q !in before ==> Closed(q, depth)
    }

    /** Closedness only needs more visited cells to persist. */
    lemma ClosedSinceTrans(a: set<Cell>, k1: map<Cell, nat>, k2: map<Cell, nat>)
      requires ClosedSince(a, k1) && ClosedSince(k1.Keys, k2) && k1.Keys <= k2.Keys
      ensures ClosedSince(a, k2)
    {
      forall q | q in k2 && q !in a
        ensures Closed(q, k2)
      {
        if q in k1 {
          assert Closed(q, k1);
        }
      }
    }

    /**
     * One more direction handled: the cells reached before stay reached,
     * and closedness since `origin` carries over to the larger map.
     */
    lemma ReachedGrows(origin: set<Cell>, cell: Cell, ds: seq<Cell>, i: nat,
                       before: map<Cell, nat>, after: map<Cell, nat>)
      requires i < |ds| && before.Keys <= after.Keys
      requires forall j :: 0 <= j < i ==> Reached(Add(cell, ds[j]), before)
      requires Reached(Add(cell, ds[i]), after)
      requires ClosedSince(origin, before) && ClosedSince(before.Keys, after)
      ensures forall j :: 0 <= j <= i ==> Reached(Add(cell, ds[j]), after)
      ensures ClosedSince(origin, after)
    {
      ClosedSinceTrans(origin, before, after);
      forall j | 0 <= j <= i
        ensures Reached(Add(cell, ds[j]), after)
      {
        if j < i {
          assert Reached(Add(cell, ds[j]), before);
        }
      }
    }

    /**
     * `_carve_passages_from`: visit the four neighbouring lattice cells in
     * shuffled order, carving into and recursing from each one still
     * unvisited. Visited cells stay visited, opened cells stay open, and
     * no cell is re-parented; afterwards the cell and every cell visited
     * during the call have all their neighbouring lattice cells visited.
     */
    method CarvePassagesFrom(cell: Cell)
      requires CarveInv() && cell in depth
      modifies this`calls, this`parent, this`depth, this`carved, maze, visited
      ensures CarveInv()
      ensures Extends(old(parent), old(depth), old(carved), parent, depth, carved)
      ensures Closed(cell, depth) && ClosedSince(old(depth).Keys, depth)
      decreases GridCells() - depth.Keys, 1
    {
      var ds := Shuffle(Directions, draw, calls);
      calls := calls + |Directions| - 1;
      for i := 0 to |ds|
        invariant CarveInv()
        invariant Extends(old(parent), old(depth), old(carved), parent, depth, carved)
        invariant forall j :: 0 <= j < i ==> Reached(Add(cell, ds[j]), depth)
        invariant ClosedSince(old(depth).Keys, depth)
      {
        ShuffledDirection(ds, i);
        ghost var before := depth;
        CarveToward(cell, ds[i]);
        ReachedGrows(old(depth).Keys, cell, ds, i, before, depth);
      }
      forall k | 0 <= k < |Directions|
        ensures Reached(Add(cell, Directions[k]), depth)
      {
        assert Directions[k] in multiset(ds);
      }
    }

    /**
     * One pass of the direction loop of `_carve_passages_from`: if the cell
     * one step `d` away is in the grid and unvisited, carve into it and
     * recurse from it. That cell ends up reached, every cell visited
     * meanwhile is closed, and the earlier history is kept.
     */
    method CarveToward(cell: Cell, d: Cell)
      requires CarveInv() && cell in depth && IsCarveStep(d)
      modifies this`calls, this`parent, this`depth, this`carved, maze, visited
      ensures CarveInv()
      ensures Extends(old(parent), old(depth), old(carved), parent, depth, carved)
      ensures Reached(Add(cell, d), depth) && ClosedSince(old(depth).Keys, depth)
      decreases GridCells() - depth.Keys, 0
    {
      var n := Add(cell, d);
      if 0 <= n.1 < width && 0 <= n.0 < height && !visited[n.0, n.1] {
        CarveStep(cell, d);
        ghost var parent1, depth1, carved1 := parent, depth, carved;
        assert n in GridCells() - old(depth).Keys;
        CarvePassagesFrom(n);
        ExtendsTrans(old(parent), old(depth), old(carved), parent1, depth1, carved1, parent, depth, carved);
      }
    }

    /**
     * Following parent links from a visited cell back to (0, 0) and
     * reversing gives a walk from (0, 0) to it, through carved cells of the
     * grid and (0, 0) itself.
     */
    lemma {:induction false} TreeWalk(parent: map<Cell, Cell>, depth: map<Cell, nat>, carved: set<Cell>, q: Cell)
      returns (w: seq<Cell>)
      requires Tree(parent, depth, carved) && q in depth
      ensures WalkIn(w, carved + {(0, 0)}, (0, 0), q)
      ensures forall i :: 0 <= i < |w| ==> InGrid(w[i])
      decreases depth[q]
    {
      if q == (0, 0) {
        w := [q];
      } else {
        assert Linked(q, parent, depth, carved);
        var p := parent[q];
        var d := Diff(q, p);
        assert Lattice(p);
        StepFromLattice(p, d);
        var u := TreeWalk(parent, depth, carved, p);
        w := u + [Mid(p, d), q];
      }
    }

    /** When every visited cell is closed, every lattice cell of the grid is visited. */
    lemma {:induction false} LatticeReached(depth: map<Cell, nat>, q: Cell)
      requires (0, 0) in depth && ClosedSince({}, depth)
      requires InGrid(q) && Lattice(q)
      ensures q in depth
      decreases q.0 + q.1
    {
      if q != (0, 0) {
        // Step back towards (0, 0): up a row pair if possible, else left a column pair.
        var k := if q.0 >= 2 then 0 else 1;
        var p := (q.0 - Directions[k].0, q.1 - Directions[k].1);
        LatticeReached(depth, p);
        assert Closed(p, depth) && Add(p, Directions[k]) == q;
      }
    }

    /**
     * After a complete carving run the visited cells are exactly the
     * lattice cells of the grid, and no cell with two odd coordinates is
     * carved.
     */
    lemma CarvedShape(parent: map<Cell, Cell>, depth: map<Cell, nat>, carved: set<Cell>)
      requires Tree(parent, depth, carved) && ClosedSince({}, depth)
      ensures forall q :: InGrid(q) ==> (q in depth <==> Lattice(q))
      ensures forall q: Cell :: q.0 % 2 == 1 && q.1 % 2 == 1 ==> q !in carved
    {
      forall q | InGrid(q) && Lattice(q)
        ensures q in depth
      {
        LatticeReached(depth, q);
      }
      forall q: Cell | q.0 % 2 == 1 && q.1 % 2 == 1
        ensures q !in carved
      {
        assert !Lattice(q) && !OneOdd(q);
      }
    }

    /** `w` leads from `a` to `b` by unit steps over path cells (value 1) of the grid. */
    ghost predicate OpenWalk(w: seq<Cell>, a: Cell, b: Cell)
      requires Shape()
      reads this`maze, this`visited, maze
    {
      && |w| > 0 && w[0] == a && w[|w| - 1] == b
      && (forall i :: 0 <= i < |w| ==> InGrid(w[i]) && maze[w[i].0, w[i].1] == 1)
      && (forall i :: 0 <= i < |w| - 1 ==> Adjacent(w[i], w[i + 1]))
    }

    /**
     * The last step of `generate_maze`: force the start and end cells open after a finished
     * carving run (open cells exactly the carved ones, visited cells
     * exactly the lattice cells). Afterwards the open cells are the carved
     * ones plus start and end; every lattice cell is open and joined to
     * the start by a walk over open cells, and every other cell with two
     * odd coordinates stays a wall.
     */
    method OpenEnds()
      requires Shape() && width >= 1 && height >= 1
      requires Tree(parent, depth, carved)
      requires forall q :: InGrid(q) ==> (q in depth <==> Lattice(q))
      requires forall q: Cell :: q.0 % 2 == 1 && q.1 % 2 == 1 ==> q !in carved
      requires forall r, c :: 0 <= r < height && 0 <= c < width ==> maze[r, c] == (if (r, c) in carved then 1 else 0)
      modifies maze
      ensures forall r, c :: 0 <= r < height && 0 <= c < width ==>
                maze[r, c] == (if (r, c) in carved || (r, c) == start || (r, c) == end then 1 else 0)
      ensures forall r, c :: 0 <= r < height && 0 <= c < width ==> maze[r, c] == 0 || maze[r, c] == 1
      ensures maze[start.0, start.1] == 1 && maze[end.0, end.1] == 1
      ensures forall r, c :: 0 <= r < height && 0 <= c < width && Lattice((r, c)) ==> maze[r, c] == 1
      ensures forall r, c :: 0 <= r < height && 0 <= c < width && r % 2 == 1 && c % 2 == 1 && (r, c) != end ==> maze[r, c] == 0
      ensures forall q :: InGrid(q) && Lattice(q) ==> exists w :: OpenWalk(w, start, q)
      ensures height % 2 == 1 && width % 2 == 1 ==> exists w :: OpenWalk(w, start, end)
    {
      maze[start.0, start.1] := 1;
      maze[end.0, end.1] := 1;
      forall q | InGrid(q) && Lattice(q)
        ensures exists w :: OpenWalk(w, start, q)
      {
        var w := TreeWalk(parent, depth, carved, q);
        assert OpenWalk(w, start, q);
      }
      if height % 2 == 1 && width % 2 == 1 {
        assert InGrid(end) && Lattice(end);
      }
    }

    /**
     * The set-up of `generate_maze`: fresh all-wall grids, the random generator reseeded
     * (its draws restart from the first one of `seeded`), and only (0, 0)
     * visited, as the root of an empty carving history.
     */
    method Reset(seeded: nat -> nat)
      requires width >= 1 && height >= 1
      modifies this
      ensures fresh(maze) && fresh(visited) && CarveInv()
      ensures draw == seeded && calls == 0
      ensures depth == map[(0, 0) := 0] && parent == map[] && carved == {}
    {
      var grid := new int[height, width]((r, c) => 0);
      var marks := new bool[height, width]((r, c) => false);
      marks[0, 0] := true;
      maze, visited := grid, marks;
      draw := seeded;
      calls := 0;
      parent := map[];
      depth := map[(0, 0) := 0];
      carved := {};
    }

    /**
     * `generate_maze`: fresh all-wall grids, reseed the generator, mark (0, 0)
     * visited, carve from it, then force the start and end cells open.
     * The result is the new maze array: every cell 0 or 1, start and end
     * open, exactly the lattice cells visited and open, every other cell
     * with two odd coordinates a wall, and every lattice cell joined to the
     * start by a walk over open cells; with odd dimensions that includes
     * the end cell. The carving history left in `parent`, `depth` and
     * `carved` is a tree; applied to it, `CarvedIsTree` shows that apart
     * from the end cell a cell between two lattice cells is open exactly
     * when one of them was carved from the other, and `EdgeCount` that
     * there is one such passage fewer than there are lattice cells: the
     * passages form a spanning tree, so the maze has no cycle.
     */
    method GenerateMaze(seeded: nat -> nat) returns (result: array2<int>)
      requires width >= 1 && height >= 1
      modifies this
      ensures result == maze && fresh(maze) && fresh(visited) && Shape()
      ensures draw == seeded
      ensures forall r, c :: 0 <= r < height && 0 <= c < width ==> result[r, c] == 0 || result[r, c] == 1
      ensures result[start.0, start.1] == 1 && result[end.0, end.1] == 1
      ensures forall r, c :: 0 <= r < height && 0 <= c < width ==> (visited[r, c] <==> Lattice((r, c)))
      ensures forall r, c :: 0 <= r < height && 0 <= c < width && Lattice((r, c)) ==> result[r, c] == 1
      ensures forall r, c :: 0 <= r < height && 0 <= c < width && r % 2 == 1 && c % 2 == 1 && (r, c) != end ==> result[r, c] == 0
      ensures forall q :: InGrid(q) && Lattice(q) ==> exists w :: OpenWalk(w, start, q)
      ensures height % 2 == 1 && width % 2 == 1 ==> exists w :: OpenWalk(w, start, end)
      ensures Tree(parent, depth, carved)
      ensures forall r, c :: 0 <= r < height && 0 <= c < width ==>
                result[r, c] == (if (r, c) in carved || (r, c) == start || (r, c) == end then 1 else 0)
    {
      Reset(seeded);
      ghost var grid, marks := maze, visited;
      CarvePassagesFrom((0, 0));
      assert maze == grid && visited == marks && draw == seeded && fresh(maze) && fresh(visited);
      CarvedShape(parent, depth, carved);
      forall r, c | 0 <= r < height && 0 <= c < width
        ensures visited[r, c] <==> Lattice((r, c))
      {
        assert visited[r, c] == ((r, c) in depth);
      }
      assert fresh(maze) && fresh(visited);
      OpenEnds();
      result := maze;
    }
  }
}
