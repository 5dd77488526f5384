/**
 * The A* maze solver: Manhattan heuristic, four-neighbour expansion over
 * non-wall cells, a priority queue of (f-score, cell) entries with lazy
 * re-insertion (no closed set), and path reconstruction along came-from
 * back-pointers.
 */
module Solver {
  import opened Cells
  import Generator

  /** A priority-queue entry (f-score, cell). */
  type Entry = (int, Cell)

  /** The search's bookkeeping: g-scores, back-pointers, f-scores and the queue. */
  datatype SearchState = SearchState(g: map<Cell, nat>, cameFrom: map<Cell, Cell>, f: map<Cell, int>, open: seq<Entry>)

  /** Python's ordering of `(f, (row, col))` tuples. */
  predicate EntryLe(a: Entry, b: Entry)
  {
    a.0 < b.0 || (a.0 == b.0 && (a.1.0 < b.1.0 || (a.1.0 == b.1.0 && a.1.1 <= b.1.1)))
  }

  /** `PriorityQueue.get()`: removes one least entry of a non-empty queue. */
  method ExtractMin(q: seq<Entry>) returns (e: Entry, rest: seq<Entry>)
    requires q != []
    ensures e in q
    ensures forall x :: x in q ==> EntryLe(e, x)
    ensures multiset(rest) + multiset{e} == multiset(q)
    ensures |rest| == |q| - 1
    ensures forall x :: x in q && x != e ==> x in rest
    ensures forall x :: x in rest ==> x in q
  {
    var k := 0;
    var i := 1;
    while i < |q|
      invariant 0 <= k < i <= |q|
      invariant forall j :: 0 <= j < i ==> EntryLe(q[k], q[j])
    {
      if !EntryLe(q[k], q[i]) {
        k := i;
      }
      i := i + 1;
    }
    e := q[k];
    rest := q[..k] + q[k + 1..];
    assert q == q[..k] + [q[k]] + q[k + 1..];
    forall x | x in q && x != e
      ensures x in rest
    {
      var m :| 0 <= m < |q| && q[m] == x;
      if m < k {
        assert rest[m] == x;
      } else {
        assert rest[m - 1] == x;
      }
    }
  }

  class MazeSolver {
    const maze: array2<int>
    const height: int
    const width: int

    ghost predicate Valid()
    {
      height == maze.Length0 && width == maze.Length1
    }

    /** Keeps the grid (read only) and its shape. */
    constructor (maze: array2<int>)
      ensures this.maze == maze && Valid()
    {
      this.maze := maze;
      height, width := maze.Length0, maze.Length1;
    }

    predicate InBounds(p: Cell)
    {
      0 <= p.0 < height && 0 <= p.1 < width
    }

    /** A cell the search may step onto: inside the grid and not a wall (0). */
    predicate Passable(p: Cell)
      requires Valid()
      reads maze
    {
      InBounds(p) && maze[p.0, p.1] != 0
    }

    /** One move of the search: a unit step onto a passable cell. */
    predicate Step(a: Cell, b: Cell)
      requires Valid()
      reads maze
    {
      Adjacent(a, b) && Passable(b)
    }

    /** `w` leads from `a` to `b` by moves of the search (only `a` itself may be a wall). */
    ghost predicate IsWalk(w: seq<Cell>, a: Cell, b: Cell)
      requires Valid()
      reads maze
    {
      && |w| > 0 && w[0] == a && w[|w| - 1] == b
      && forall i :: 0 <= i < |w| - 1 ==> Step(w[i], w[i + 1])
    }

    /** Manhattan distance. */
    static function Heuristic(a: Cell, b: Cell): (d: nat)
      ensures d == 0 <==> a == b
    {
      Abs(a.0 - b.0) + Abs(a.1 - b.1)
    }

    static lemma HeuristicSymmetric(a: Cell, b: Cell)
      ensures Heuristic(a, b) == Heuristic(b, a)
    {
    }

    /** One unit step changes the estimate to any target by at most one (consistency). */
    static lemma HeuristicConsistent(a: Cell, b: Cell, t: Cell)
      requires Adjacent(a, b)
      ensures Heuristic(a, t) <= Heuristic(b, t) + 1
      ensures Heuristic(b, t) <= Heuristic(a, t) + 1
    {
    }

    /** The estimate never exceeds the number of moves of any walk (admissibility). */
    lemma {:induction false} HeuristicAdmissible(w: seq<Cell>, a: Cell, b: Cell)
      requires Valid() && IsWalk(w, a, b)
      ensures Heuristic(a, b) <= |w| - 1
    {
      if |w| > 1 {
        assert IsWalk(w[1..], w[1], b) by {
          forall i | 0 <= i < |w[1..]| - 1
            ensures Step(w[1..][i], w[1..][i + 1])
          {
            assert Step(w[i + 1], w[i + 2]);
          }
        }
        HeuristicAdmissible(w[1..], w[1], b);
        assert Step(w[0], w[1]);
        HeuristicConsistent(a, w[1], b);
      }
    }

    /** Position of the move from `a` to `b` in the list (0, 1), (1, 0), (0, -1), (-1, 0). */
    static function DirectionIndex(a: Cell, b: Cell): int
    {
      if b == (a.0, a.1 + 1) then 0
      else if b == (a.0 + 1, a.1) then 1
      else if b == (a.0, a.1 - 1) then 2
      else if b == (a.0 - 1, a.1) then 3
      else 4
    }

    function IfPassable(n: Cell): seq<Cell>
      requires Valid()
      reads maze
    {
      if Passable(n) then [n] else []
    }

    /**
     * The in-bounds, non-wall cells one unit step from `current`, in the
     * order right, down, left, up (so without repetitions).
     */
    function GetNeighbors(current: Cell): (r: seq<Cell>)
      requires Valid()
      reads maze
      ensures forall n :: n in r <==> Step(current, n)
      ensures forall i, j :: 0 <= i < j < |r| ==> DirectionIndex(current, r[i]) < DirectionIndex(current, r[j])
    {
      var (x, y) := current;
      IfPassable((x, y + 1)) + IfPassable((x + 1, y)) + IfPassable((x, y - 1)) + IfPassable((x - 1, y))
    }

    /** The cell `a_star_solve` aims for when no end is given: the bottom-right corner. */
    function Goal(end: Option<Cell>): Cell
    {
      if end.None? then (height - 1, width - 1) else end.value
    }

    // ---------------------------------------------------------------
    // Search bookkeeping

    /** The cells that can ever become keys of the g-scores: the grid plus `start`. */
    ghost function Universe(start: Cell): set<Cell>
    {
      (set r, c | 0 <= r < height && 0 <= c < width :: (r, c)) + {start}
    }

    /**
     * g-scores and back-pointers: `start` scores 0 and has no back-pointer,
     * every other key has one to a key it is a move away from and scores at
     * least one more, and no score reaches the number of keys.
     */
    ghost predicate Bookkeeping(start: Cell, g: map<Cell, nat>, cameFrom: map<Cell, Cell>)
      requires Valid()
      reads maze
    {
      && start in g && g[start] == 0
      && (forall n :: n in g ==> n == start || InBounds(n))
      && cameFrom.Keys == g.Keys - {start}
      && (forall n :: n in cameFrom ==> cameFrom[n] in g && Step(cameFrom[n], n) && g[n] >= g[cameFrom[n]] + 1)
      && (forall n :: n in g ==> g[n] < |g.Keys|)
    }

    /** f-scores are recorded exactly for the scored cells, as g plus the estimate. */
    ghost predicate FScores(end: Cell, g: map<Cell, nat>, f: map<Cell, int>)
    {
      && f.Keys == g.Keys
      && forall n :: n in f ==> f[n] == g[n] + Heuristic(n, end)
    }

    /** Queue entries are for scored cells and, except the initial one for `start`, never promise less than g + h. */
    ghost predicate QueueSound(start: Cell, end: Cell, g: map<Cell, nat>, open: seq<Entry>)
    {
      forall e :: e in open ==> e.1 in g && (e.1 != start ==> e.0 >= g[e.1] + Heuristic(e.1, end))
    }

    /** `n` is still queued with a priority no worse than its current score warrants. */
    ghost predicate Pending(n: Cell, end: Cell, g: map<Cell, nat>, open: seq<Entry>)
      requires n in g
    {
      exists e :: e in open && e.1 == n && e.0 <= g[n] + Heuristic(n, end)
    }

    /** Every move out of `n` has been relaxed with `n`'s current score. */
    ghost predicate Expanded(n: Cell, g: map<Cell, nat>)
      requires Valid() && n in g
      reads maze
    {
      forall k :: Step(n, k) ==> k in g && g[k] <= g[n] + 1
    }

    /** Each scored cell is pending, or expanded and not the goal. */
    ghost predicate Settled(n: Cell, end: Cell, g: map<Cell, nat>, open: seq<Entry>)
      requires Valid() && n in g
      reads maze
    {
      Pending(n, end, g, open) || (n != end && Expanded(n, g))
    }

    /** Every scored cell is settled. */
    ghost predicate AllSettled(end: Cell, g: map<Cell, nat>, open: seq<Entry>)
      requires Valid()
      reads maze
    {
      forall n {:trigger Settled(n, end, g, open)} :: n in g ==> Settled(n, end, g, open)
    }

    /** Every scored cell but `current`, which is being expanded, is settled. */
    ghost predicate SettledExcept(current: Cell, end: Cell, g: map<Cell, nat>, open: seq<Entry>)
      requires Valid()
      reads maze
    {
      forall n {:trigger Settled(n, end, g, open)} :: n in g && n != current ==> Settled(n, end, g, open)
    }

    // ---------------------------------------------------------------
    // Termination: each re-queue lowers some g-score, which can only happen finitely often

    static function Slack(g: map<Cell, nat>, c: Cell, cap: nat): nat
    {
      if c in g then g[c] else cap
    }

    /** The (cell, score) pairs a cell's score may still be lowered to. */
    static ghost function Future(g: map<Cell, nat>, u: set<Cell>): set<(Cell, int)>
    {
      set c, v | c in u && 0 <= v < Slack(g, c, |u|) :: (c, v)
    }

    static lemma FutureShrinks(g: map<Cell, nat>, u: set<Cell>, n: Cell, v: nat)
      requires n in u && v < Slack(g, n, |u|)
      ensures Future(g[n := v], u) < Future(g, u)
    {
      var g' := g[n := v];
      assert (n, v) in Future(g, u);
      assert (n, v) !in Future(g', u);
      forall x | x in Future(g', u)
        ensures x in Future(g, u)
      {
        var c, w :| c in u && 0 <= w < Slack(g', c, |u|) && x == (c, w);
        assert Slack(g', c, |u|) <= Slack(g, c, |u|);
      }
    }

    lemma KeysWithinUniverse(start: Cell, g: map<Cell, nat>, cameFrom: map<Cell, Cell>)
      requires Valid() && Bookkeeping(start, g, cameFrom)
      ensures g.Keys <= Universe(start)
    {
      forall n | n in g
        ensures n in Universe(start)
      {
        if n != start {
          InUniverse(start, n);
        }
      }
    }

    lemma InUniverse(start: Cell, n: Cell)
      requires InBounds(n)
      ensures n in Universe(start)
    {
      assert n == (n.0, n.1);
    }

    static lemma ProperSubsetSmaller(a: set<Cell>, u: set<Cell>, n: Cell)
      requires a <= u && n in u && n !in a
      ensures |a| < |u|
    {
      assert u == (u - a) + a;
      assert n in u - a;
      assert |u - a| >= 1;
    }

    // ---------------------------------------------------------------
    // The search

    /** The relaxed score of `neighbor`: one more than `current`'s. */
    ghost predicate Improves(current: Cell, neighbor: Cell, g: map<Cell, nat>)
      requires Valid()
      reads maze
    {
      current in g && Step(current, neighbor) && (neighbor !in g || g[current] + 1 < g[neighbor])
    }

    /** The search's g-scores, f-scores and back-pointers are sound. */
    ghost predicate Sound(start: Cell, goal: Cell, s: SearchState)
      requires Valid()
      reads maze
    {
      Bookkeeping(start, s.g, s.cameFrom) && FScores(goal, s.g, s.f) && QueueSound(start, goal, s.g, s.open)
    }

    /** One pass of the neighbour loop of `a_star_solve`: re-score `neighbor` through `current` if that is strictly better. */
    static function RelaxOne(s: SearchState, goal: Cell, current: Cell, neighbor: Cell): (r: SearchState)
      requires current in s.g
      ensures current in r.g && r.g[current] <= s.g[current]
    {
      var tentative := s.g[current] + 1;
      if neighbor !in s.g || tentative < s.g[neighbor] then
        SearchState(s.g[neighbor := tentative], s.cameFrom[neighbor := current],
                    s.f[neighbor := tentative + Heuristic(neighbor, goal)],
                    s.open + [(tentative + Heuristic(neighbor, goal), neighbor)])
      else
        s
    }

    /** The neighbour loop run over `ns` in order. */
    static function RelaxAll(s: SearchState, goal: Cell, current: Cell, ns: seq<Cell>): (r: SearchState)
      requires current in s.g
      ensures current in r.g && r.g[current] <= s.g[current]
    {
      if ns == [] then s else RelaxOne(RelaxAll(s, goal, current, ns[..|ns| - 1]), goal, current, ns[|ns| - 1])
    }

    /** Relaxation in `a_star_solve` keeps the g-score and back-pointer bookkeeping. */
    lemma RelaxKeepsBookkeeping(start: Cell, current: Cell, neighbor: Cell, g: map<Cell, nat>, cameFrom: map<Cell, Cell>,
                                g': map<Cell, nat>, cameFrom': map<Cell, Cell>)
      requires Valid() && Bookkeeping(start, g, cameFrom) && Improves(current, neighbor, g)
      requires g' == g[neighbor := g[current] + 1] && cameFrom' == cameFrom[neighbor := current]
      ensures Bookkeeping(start, g', cameFrom')
    {
      assert neighbor != start && neighbor != current;
      if neighbor !in g {
        assert |g'.Keys| == |g.Keys| + 1;
      } else {
        assert g'.Keys == g.Keys;
      }
      assert forall n :: n in g' ==> g'[n] < |g'.Keys|;
      forall n | n in cameFrom'
        ensures cameFrom'[n] in g' && Step(cameFrom'[n], n) && g'[n] >= g'[cameFrom'[n]] + 1
      {
        if n != neighbor {
          assert cameFrom'[n] == cameFrom[n];
        }
      }
    }

    /** Relaxation keeps the f-scores and the soundness of the queue. */
    lemma RelaxKeepsQueue(start: Cell, end: Cell, current: Cell, neighbor: Cell,
                          g: map<Cell, nat>, cameFrom: map<Cell, Cell>, f: map<Cell, int>, open: seq<Entry>,
                          g': map<Cell, nat>, f': map<Cell, int>, open': seq<Entry>)
      requires Valid() && Bookkeeping(start, g, cameFrom) && FScores(end, g, f) && QueueSound(start, end, g, open)
      requires Improves(current, neighbor, g)
      requires g' == g[neighbor := g[current] + 1]
      requires f' == f[neighbor := g'[neighbor] + Heuristic(neighbor, end)]
      requires open' == open + [(f'[neighbor], neighbor)]
      ensures FScores(end, g', f') && QueueSound(start, end, g', open')
    {
      assert neighbor != start;
    }

    /** Relaxation keeps every scored cell other than `current` settled. */
    lemma RelaxKeepsSettled(end: Cell, current: Cell, neighbor: Cell, g: map<Cell, nat>, open: seq<Entry>,
                            g': map<Cell, nat>, open': seq<Entry>)
      requires Valid() && Improves(current, neighbor, g)
      requires SettledExcept(current, end, g, open)
      requires g' == g[neighbor := g[current] + 1]
      requires open' == open + [(g'[neighbor] + Heuristic(neighbor, end), neighbor)]
      ensures SettledExcept(current, end, g', open')
    {
      forall n | n in g' && n != current
        ensures Settled(n, end, g', open')
      {
        assert n != neighbor ==> Settled(n, end, g, open);
        if n == neighbor {
          assert open'[|open|] == (g'[neighbor] + Heuristic(neighbor, end), neighbor);
          assert Pending(n, end, g', open');
        } else if Pending(n, end, g, open) {
          var e :| e in open && e.1 == n && e.0 <= g[n] + Heuristic(n, end);
          assert e in open';
          assert Pending(n, end, g', open');
        } else {
          assert Expanded(n, g');
        }
      }
    }

    /** One relaxation removes at least one (cell, score) pair from the termination measure. */
    lemma RelaxShrinksFuture(start: Cell, current: Cell, neighbor: Cell, g: map<Cell, nat>, cameFrom: map<Cell, Cell>)
      requires Valid() && Bookkeeping(start, g, cameFrom) && Improves(current, neighbor, g)
      ensures Future(g[neighbor := g[current] + 1], Universe(start)) < Future(g, Universe(start))
    {
      var u := Universe(start);
      InUniverse(start, neighbor);
      KeysWithinUniverse(start, g, cameFrom);
      if neighbor !in g {
        ProperSubsetSmaller(g.Keys, u, neighbor);
      }
      FutureShrinks(g, u, neighbor, g[current] + 1);
    }

    /** Relaxation keeps the g-scores, back-pointers, f-scores and queue sound. */
    lemma RelaxOneSound(start: Cell, goal: Cell, current: Cell, neighbor: Cell, s: SearchState)
      requires Valid() && Sound(start, goal, s) && current in s.g && Step(current, neighbor)
      ensures Sound(start, goal, RelaxOne(s, goal, current, neighbor))
    {
      var r := RelaxOne(s, goal, current, neighbor);
      if r != s {
        RelaxKeepsBookkeeping(start, current, neighbor, s.g, s.cameFrom, r.g, r.cameFrom);
        RelaxKeepsQueue(start, goal, current, neighbor, s.g, s.cameFrom, s.f, s.open, r.g, r.f, r.open);
      }
    }

    /** Relaxation keeps every scored cell other than `current` settled. */
    lemma RelaxOneSettled(goal: Cell, current: Cell, neighbor: Cell, s: SearchState)
      requires Valid() && current in s.g && Step(current, neighbor)
      requires SettledExcept(current, goal, s.g, s.open)
      ensures var r := RelaxOne(s, goal, current, neighbor);
              SettledExcept(current, goal, r.g, r.open)
    {
      var r := RelaxOne(s, goal, current, neighbor);
      if r != s {
        RelaxKeepsSettled(goal, current, neighbor, s.g, s.open, r.g, r.open);
      }
    }

    /**
     * Relaxation never raises a score, leaves `current`'s alone, leaves
     * `neighbor` at most one above `current`, and queues an entry exactly
     * when it lowers the termination measure.
     */
    lemma RelaxOneProgress(start: Cell, goal: Cell, current: Cell, neighbor: Cell, s: SearchState)
      requires Valid() && Bookkeeping(start, s.g, s.cameFrom) && current in s.g && Step(current, neighbor)
      ensures var r := RelaxOne(s, goal, current, neighbor);
              && (forall n :: n in s.g ==> n in r.g && r.g[n] <= s.g[n])
              && current in r.g && r.g[current] == s.g[current]
              && neighbor in r.g && r.g[neighbor] <= s.g[current] + 1
              && ((|r.open| == |s.open| && r.g == s.g) || (|r.open| == |s.open| + 1 && Future(r.g, Universe(start)) < Future(s.g, Universe(start))))
    {
      var r := RelaxOne(s, goal, current, neighbor);
      if r != s {
        assert Improves(current, neighbor, s.g);
        RelaxShrinksFuture(start, current, neighbor, s.g, s.cameFrom);
      }
    }

    /** The whole neighbour loop keeps the search sound. */
    lemma {:induction false} RelaxAllSound(start: Cell, goal: Cell, current: Cell, s: SearchState, ns: seq<Cell>)
      requires Valid() && Sound(start, goal, s) && current in s.g
      requires forall n :: n in ns ==> Step(current, n)
      ensures Sound(start, goal, RelaxAll(s, goal, current, ns))
    {
      if ns != [] {
        var init := ns[..|ns| - 1];
        assert forall n :: n in init ==> n in ns;
        RelaxAllSound(start, goal, current, s, init);
        RelaxOneSound(start, goal, current, ns[|ns| - 1], RelaxAll(s, goal, current, init));
      }
    }

    /** The whole neighbour loop keeps every scored cell other than `current` settled. */
    lemma {:induction false} RelaxAllSettled(goal: Cell, current: Cell, s: SearchState, ns: seq<Cell>)
      requires Valid() && current in s.g && SettledExcept(current, goal, s.g, s.open)
      requires forall n :: n in ns ==> Step(current, n)
      ensures var r := RelaxAll(s, goal, current, ns);
              SettledExcept(current, goal, r.g, r.open)
    {
      if ns != [] {
        var init := ns[..|ns| - 1];
        assert forall n :: n in init ==> n in ns;
        RelaxAllSettled(goal, current, s, init);
        RelaxOneSettled(goal, current, ns[|ns| - 1], RelaxAll(s, goal, current, init));
      }
    }

    /**
     * After the whole neighbour loop every neighbour scores at most one more
     * than `current`, and the queue grew exactly when the termination
     * measure shrank.
     */
    lemma {:induction false} RelaxAllProgress(start: Cell, goal: Cell, current: Cell, s: SearchState, ns: seq<Cell>)
      requires Valid() && Sound(start, goal, s) && current in s.g
      requires forall n :: n in ns ==> Step(current, n)
      ensures var r := RelaxAll(s, goal, current, ns);
              && current in r.g && r.g[current] == s.g[current]
              && (forall j :: 0 <= j < |ns| ==> ns[j] in r.g && r.g[ns[j]] <= s.g[current] + 1)
              && ((|r.open| == |s.open| && r.g == s.g) || (|r.open| > |s.open| && Future(r.g, Universe(start)) < Future(s.g, Universe(start))))
    {
      if ns != [] {
        var init := ns[..|ns| - 1];
        assert forall n :: n in init ==> n in ns;
        var mid := RelaxAll(s, goal, current, init);
        RelaxAllProgress(start, goal, current, s, init);
        RelaxAllSound(start, goal, current, s, init);
        RelaxOneProgress(start, goal, current, ns[|ns| - 1], mid);
        var r := RelaxOne(mid, goal, current, ns[|ns| - 1]);
        forall j | 0 <= j < |ns|
          ensures ns[j] in r.g && r.g[ns[j]] <= s.g[current] + 1
        {
          if j < |ns| - 1 {
            assert ns[j] == init[j];
          }
        }
      }
    }

    /** The neighbour loop leaves `current` expanded, so with `current` not the goal every scored cell is settled. */
    lemma ExpandSettles(start: Cell, goal: Cell, current: Cell, s: SearchState)
      requires Valid() && Sound(start, goal, s) && current in s.g && current != goal
      requires SettledExcept(current, goal, s.g, s.open)
      ensures var r := RelaxAll(s, goal, current, GetNeighbors(current));
              && Sound(start, goal, r) && AllSettled(goal, r.g, r.open)
              && ((|r.open| == |s.open| && r.g == s.g) || (|r.open| > |s.open| && Future(r.g, Universe(start)) < Future(s.g, Universe(start))))
    {
      var ns := GetNeighbors(current);
      var r := RelaxAll(s, goal, current, ns);
      RelaxAllSound(start, goal, current, s, ns);
      RelaxAllSettled(goal, current, s, ns);
      RelaxAllProgress(start, goal, current, s, ns);
      assert Expanded(current, r.g) by {
        forall k | Step(current, k)
          ensures k in r.g && r.g[k] <= r.g[current] + 1
        {
          var j :| 0 <= j < |ns| && ns[j] == k;
        }
      }
      forall n | n in r.g
        ensures Settled(n, goal, r.g, r.open)
      {
      }
    }

    /** Along a walk from `start`, the first cell not yet expanded is queued with priority at most the walk's length. */
    lemma {:induction false} PendingOnWalk(start: Cell, end: Cell, g: map<Cell, nat>, open: seq<Entry>, w: seq<Cell>, j: nat)
      requires Valid() && IsWalk(w, start, end)
      requires AllSettled(end, g, open)
      requires j < |w| && w[j] in g && g[w[j]] <= j
      ensures exists e :: e in open && e.0 <= |w| - 1
      decreases |w| - j
    {
      assert Settled(w[j], end, g, open);
      if Pending(w[j], end, g, open) {
        var e :| e in open && e.1 == w[j] && e.0 <= g[w[j]] + Heuristic(w[j], end);
        assert IsWalk(w[j..], w[j], end) by {
          forall i | 0 <= i < |w[j..]| - 1
            ensures Step(w[j..][i], w[j..][i + 1])
          {
            assert Step(w[j + i], w[j + i + 1]);
          }
        }
        HeuristicAdmissible(w[j..], w[j], end);
      } else {
        assert j < |w| - 1;
        assert Step(w[j], w[j + 1]);
        PendingOnWalk(start, end, g, open, w, j + 1);
      }
    }

    /** When the least queue entry is for the goal, no walk to the goal is shorter than its score. */
    lemma GoalScoreOptimal(start: Cell, end: Cell, g: map<Cell, nat>, cameFrom: map<Cell, Cell>, open: seq<Entry>, e: Entry)
      requires Valid() && Bookkeeping(start, g, cameFrom) && QueueSound(start, end, g, open)
      requires AllSettled(end, g, open)
      requires e in open && e.1 == end && forall x :: x in open ==> EntryLe(e, x)
      ensures end in g
      ensures forall w :: IsWalk(w, start, end) ==> g[end] + 1 <= |w|
    {
      forall w | IsWalk(w, start, end)
        ensures g[end] + 1 <= |w|
      {
        PendingOnWalk(start, end, g, open, w, 0);
        var x :| x in open && x.0 <= |w| - 1;
        assert EntryLe(e, x);
      }
    }

    /** Scored cells closed under moves contain the end of every walk that starts among them. */
    lemma {:induction false} WalkStaysScored(g: map<Cell, nat>, w: seq<Cell>, a: Cell, b: Cell)
      requires Valid() && IsWalk(w, a, b) && a in g
      requires forall n :: n in g ==> Expanded(n, g)
      ensures b in g
    {
      if |w| > 1 {
        assert Step(w[0], w[1]);
        assert IsWalk(w[1..], w[1], b) by {
          forall i | 0 <= i < |w[1..]| - 1
            ensures Step(w[1..][i], w[1..][i + 1])
          {
            assert Step(w[i + 1], w[i + 2]);
          }
        }
        WalkStaysScored(g, w[1..], w[1], b);
      }
    }

    /** The path rebuilding in `a_star_solve`: follow back-pointers from the goal, append `start`, reverse. */
    method ReconstructPath(start: Cell, end: Cell, g: map<Cell, nat>, cameFrom: map<Cell, Cell>) returns (path: seq<Cell>)
      requires Valid() && Bookkeeping(start, g, cameFrom) && end in g
      ensures IsWalk(path, start, end)
      ensures |path| <= g[end] + 1
      ensures end == start ==> path == [start]
    {
      var current := end;
      var back: seq<Cell> := [];
      while current in cameFrom
        invariant current in g
        invariant g[current] + |back| <= g[end]
        invariant back == [] ==> current == end
        invariant back != [] ==> back[0] == end && Step(current, back[|back| - 1])
        invariant forall i :: 0 <= i < |back| - 1 ==> Step(back[i + 1], back[i])
        decreases g[current]
      {
        back := back + [current];
        current := cameFrom[current];
      }
      assert current == start;
      back := back + [start];
      path := Reversed(back);
      ReversedLength(back);
      ReversedAt(back, 0);
      ReversedAt(back, |back| - 1);
      forall i | 0 <= i < |path| - 1
        ensures Step(path[i], path[i + 1])
      {
        ReversedAt(back, i);
        ReversedAt(back, i + 1);
        assert Step(back[|back| - 1 - i], back[|back| - 2 - i]);
      }
      if end == start {
        assert |path| == 1 && path[0] == start;
      }
    }

    /**
     * The neighbour loop of `a_star_solve`: every neighbour whose score improves through `current`
     * gets a back-pointer to `current`, new g- and f-scores, and a fresh
     * queue entry.
     */
    method RelaxNeighbors(goal: Cell, current: Cell, g: map<Cell, nat>, cameFrom: map<Cell, Cell>,
                          f: map<Cell, int>, open: seq<Entry>)
      returns (g': map<Cell, nat>, cameFrom': map<Cell, Cell>, f': map<Cell, int>, open': seq<Entry>)
      requires Valid() && current in g
      ensures SearchState(g', cameFrom', f', open') ==
              RelaxAll(SearchState(g, cameFrom, f, open), goal, current, GetNeighbors(current))
    {
      g', cameFrom', f', open' := g, cameFrom, f, open;
      var neighbors := GetNeighbors(current);
      var i := 0;
      while i < |neighbors|
        invariant 0 <= i <= |neighbors|
        invariant SearchState(g', cameFrom', f', open') ==
                  RelaxAll(SearchState(g, cameFrom, f, open), goal, current, neighbors[..i])
      {
        var neighbor := neighbors[i];
        ghost var before := SearchState(g', cameFrom', f', open');
        var tentative := g'[current] + 1;
        if neighbor !in g' || tentative < g'[neighbor] {
          cameFrom' := cameFrom'[neighbor := current];
          g' := g'[neighbor := tentative];
          f' := f'[neighbor := g'[neighbor] + Heuristic(neighbor, goal)];
          open' := open' + [(f'[neighbor], neighbor)];
          assert SearchState(g', cameFrom', f', open') == RelaxOne(before, goal, current, neighbor);
        } else {
          assert before == RelaxOne(before, goal, current, neighbor);
        }
        assert neighbors[..i + 1][..i] == neighbors[..i];
        i := i + 1;
      }
      assert neighbors[..i] == neighbors;
    }

    /**
     * Every cell a walk moves onto is inside the grid, so a walk from `a`
     * ends inside the grid or at `a` itself.
     */
    lemma WalkEndsInside(w: seq<Cell>, a: Cell, b: Cell)
      requires Valid() && IsWalk(w, a, b)
      ensures InBounds(b) || b == a
    {
      if |w| > 1 {
        assert Step(w[|w| - 2], w[|w| - 1]);
      }
    }

    /**
     * A* from `start` to `end` (the bottom-right corner when absent). A
     * result is a walk of the fewest cells; no result means no walk exists.
     */
    method AStarSolve(start: Cell, end: Option<Cell>) returns (result: Option<seq<Cell>>)
      requires Valid()
      ensures result.Some? ==> IsWalk(result.value, start, Goal(end))
      ensures result.Some? ==> forall w :: IsWalk(w, start, Goal(end)) ==> |result.value| <= |w|
      ensures result.None? ==> forall w :: !IsWalk(w, start, Goal(end))
      ensures Goal(end) == start ==> result == Some([start])
    {
      var goal := Goal(end);
      var open: seq<Entry> := [(0, start)];
      var cameFrom: map<Cell, Cell> := map[];
      var g: map<Cell, nat> := map[start := 0];
      var f: map<Cell, int> := map[start := Heuristic(start, goal)];
      ghost var u := Universe(start);
      assert Pending(start, goal, g, open) by {
        assert open[0] == (0, start);
      }
      while open != []
        invariant Bookkeeping(start, g, cameFrom) && FScores(goal, g, f) && QueueSound(start, goal, g, open)
        invariant AllSettled(goal, g, open)
        decreases Future(g, u), |open|
      {
        ghost var g0, open0 := g, open;
        var e, rest := ExtractMin(open);
        var current := e.1;
        if current == goal {
          GoalScoreOptimal(start, goal, g, cameFrom, open, e);
          var path := ReconstructPath(start, goal, g, cameFrom);
          return Some(path);
        }
        forall n | n in g && n != current
          ensures Settled(n, goal, g, rest)
        {
          assert Settled(n, goal, g, open);
          if Pending(n, goal, g, open) {
            var x :| x in open && x.1 == n && x.0 <= g[n] + Heuristic(n, goal);
            assert x in rest;
          }
        }
        open := rest;
        ExpandSettles(start, goal, current, SearchState(g, cameFrom, f, open));
        g, cameFrom, f, open := RelaxNeighbors(goal, current, g, cameFrom, f, open);
      }
      forall n | n in g
        ensures n != goal && Expanded(n, g)
      {
        assert Settled(n, goal, g, open);
      }
      forall w | IsWalk(w, start, goal)
        ensures false
      {
        WalkStaysScored(g, w, start, goal);
      }
      assert start in g;
      return None;
    }
  }

  /**
   * The generator's walks over open cells are walks of the search on the
   * same grid: every open cell has the value 1, which the search treats as
   * passable.
   */
  lemma OpenWalkIsWalk(gen: Generator.MazeGenerator, solver: MazeSolver, w: seq<Cell>, a: Cell, b: Cell)
    requires gen.Shape() && solver.maze == gen.maze && solver.Valid()
    requires gen.OpenWalk(w, a, b)
    ensures solver.IsWalk(w, a, b)
  {
    forall i | 0 <= i < |w| - 1
      ensures solver.Step(w[i], w[i + 1])
    {
      assert gen.InGrid(w[i + 1]) && gen.maze[w[i + 1].0, w[i + 1].1] == 1;
    }
  }

  /**
   * A generated maze with odd dimensions is solvable by the search with
   * its default goal: the start cell (0, 0) reaches the bottom-right cell.
   */
  lemma GeneratedMazeSolvable(gen: Generator.MazeGenerator, solver: MazeSolver)
    requires gen.Shape() && solver.maze == gen.maze && solver.Valid()
    requires exists w :: gen.OpenWalk(w, gen.start, gen.end)
    ensures exists w :: solver.IsWalk(w, (0, 0), solver.Goal(None))
  {
    var w :| gen.OpenWalk(w, gen.start, gen.end);
    OpenWalkIsWalk(gen, solver, w, gen.start, gen.end);
    assert solver.Goal(None) == gen.end;
  }
}
