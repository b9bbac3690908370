/** The topological estimate of transformers/quantum_attention.py:
    `_count_components`, a depth-first flood fill over a boolean grid, and
    the Betti-0/1 pair that `_betti_features` derives from it. The grid is
    given already thresholded: the mean of complex magnitudes that produces
    it is floating point and outside the model. */
module QuantumAttention {
  import opened Common

  /** A boolean grid, row by row. */
  type Mask = seq<seq<bool>>
  type Cell = (int, int)

  /** Every row has the width of the first. */
  predicate Rect(m: Mask) {
    forall r :: 0 <= r < |m| ==> |m[r]| == |m[0]|
  }

  function Width(m: Mask): nat {
    if m == [] then 0 else |m[0]|
  }

  predicate InGrid(m: Mask, c: Cell) {
    0 <= c.0 < |m| && 0 <= c.1 < Width(m)
  }

  /** The cell lies in the grid and is True. */
  predicate On(m: Mask, c: Cell)
    requires Rect(m)
  {
    InGrid(m, c) && m[c.0][c.1]
  }

  /** The True cells of the grid. */
  function TrueCells(m: Mask): set<Cell>
    requires Rect(m)
  {
    set x, y | 0 <= x < |m| && 0 <= y < Width(m) && m[x][y] :: (x, y)
  }

  /** Every cell of the grid. */
  function Grid(m: Mask): set<Cell> {
    set x, y | 0 <= x < |m| && 0 <= y < Width(m) :: (x, y)
  }

  /** The four offsets in the order the flood fill tries them. */
  function Step(c: Cell, d: int): Cell {
    if d == 0 then (c.0 + 1, c.1)
    else if d == 1 then (c.0 - 1, c.1)
    else if d == 2 then (c.0, c.1 + 1)
    else (c.0, c.1 - 1)
  }

  /** Every True neighbour of c is in seen. */
  ghost predicate Closed(m: Mask, seen: set<Cell>, c: Cell)
    requires Rect(m)
  {
    forall d :: 0 <= d < 4 ==> On(m, Step(c, d)) ==> Step(c, d) in seen
  }

  /** The two cells are 4-neighbours. */
  predicate Adjacent(a: Cell, b: Cell) {
    (a.0 == b.0 && (a.1 == b.1 + 1 || b.1 == a.1 + 1))
    || (a.1 == b.1 && (a.0 == b.0 + 1 || b.0 == a.0 + 1))
  }

  /** The offset that leads from a to b, when they are 4-neighbours. */
  function Toward(a: Cell, b: Cell): (d: int)
    ensures 0 <= d < 4
    ensures Adjacent(a, b) ==> Step(a, d) == b
  {
    if b.0 == a.0 + 1 then 0
    else if a.0 == b.0 + 1 then 1
    else if b.1 == a.1 + 1 then 2
    else 3
  }

  /** p is a path of True cells, each a 4-neighbour of the one before. */
  ghost predicate Walk(m: Mask, p: seq<Cell>)
    requires Rect(m)
  {
    p != []
    && (forall k :: 0 <= k < |p| ==> On(m, p[k]))
    && (forall k :: 0 < k < |p| ==> Adjacent(p[k - 1], p[k]))
  }

  /** b is reached from a by a path of 4-neighbouring True cells. */
  ghost predicate Reach(m: Mask, a: Cell, b: Cell)
    requires Rect(m)
  {
    exists p :: Walk(m, p) && p[0] == a && p[|p| - 1] == b
  }

  /** The 4-connected component of c: the True cells reached from it. */
  ghost function Comp(m: Mask, c: Cell): set<Cell>
    requires Rect(m)
  {
    set d | d in TrueCells(m) && Reach(m, c, d)
  }

  /** The components that meet the cells of s. */
  ghost function Comps(m: Mask, s: set<Cell>): set<set<Cell>>
    requires Rect(m)
  {
    set c | c in s :: Comp(m, c)
  }

  /** The number of 4-connected components of True cells. */
  ghost function Components(m: Mask): nat
    requires Rect(m)
  {
    |Comps(m, TrueCells(m))|
  }

  /** The flood fill's reach bookkeeping: every cell marked since base was
      reached from start, and no cell of base is on the stack. */
  ghost predicate FromStart(m: Mask, base: set<Cell>, start: Cell, seen: set<Cell>, stack: seq<Cell>)
    requires Rect(m)
  {
    (forall c :: c in seen && c !in base ==> Reach(m, start, c))
    && (forall c :: c in stack ==> c !in base)
  }

  /** The cell comes before (i, j) in row-major order. */
  predicate Before(c: Cell, i: int, j: int) {
    c.0 < i || (c.0 == i && c.1 < j)
  }

  /** No cell occurs twice. */
  predicate Distinct(s: seq<Cell>) {
    forall p, q :: 0 <= p < q < |s| ==> s[p] != s[q]
  }

  /** The bookkeeping of the flood fill: visited marks exactly the cells
      in seen, which are True cells pushed once each in the order
      recorded, and every cell on the stack has been seen. */
  ghost predicate Marks(m: Mask, visited: array2<bool>, seen: set<Cell>, pushes: seq<Cell>, stack: seq<Cell>)
    requires Rect(m)
    reads visited
  {
    visited.Length0 == |m| && visited.Length1 == Width(m)
    && (forall x, y :: 0 <= x < |m| && 0 <= y < Width(m) ==> (visited[x, y] <==> (x, y) in seen))
    && (forall c :: c in seen ==> On(m, c))
    && (forall c :: c in seen <==> c in pushes)
    && Distinct(pushes)
    && (forall c :: c in stack ==> c in seen)
  }

  /** One neighbour of the popped cell: a True, unvisited cell inside the
      grid is marked and pushed; anything else changes nothing. */
  method Visit(m: Mask, visited: array2<bool>, next: Cell, stack0: seq<Cell>, ghost seen0: set<Cell>, ghost pushes0: seq<Cell>,
               ghost base: set<Cell>, ghost start: Cell)
    returns (stack: seq<Cell>, ghost seen: set<Cell>, ghost pushes: seq<Cell>)
    requires Rect(m) && Marks(m, visited, seen0, pushes0, stack0)
    requires base <= seen0 && FromStart(m, base, start, seen0, stack0)
    requires On(m, next) && next !in seen0 ==> Reach(m, start, next)
    modifies visited
    ensures Marks(m, visited, seen, pushes, stack)
    ensures FromStart(m, base, start, seen, stack)
    ensures On(m, next) ==> next in seen
    ensures seen0 <= seen && (forall c :: c in stack0 ==> c in stack) && (forall c :: c in seen && c !in seen0 ==> c in stack)
    ensures if On(m, next) && next !in seen0
      then seen == seen0 + {next} && pushes == pushes0 + [next] && stack == stack0 + [next] && next in Grid(m)
      else seen == seen0 && pushes == pushes0 && stack == stack0
  {
    stack, seen, pushes := stack0, seen0, pushes0;
    if 0 <= next.0 < |m| && 0 <= next.1 < Width(m) {
      if m[next.0][next.1] && !visited[next.0, next.1] {
        visited[next.0, next.1] := true;
        seen := seen + {next};
        pushes := pushes + [next];
        stack := stack + [next];
      }
    }
  }

  /** One round of the `while stack` loop: pop a cell and visit its four
      neighbours. Either a cell is newly marked, or the stack shrinks. */
  method Expand(m: Mask, visited: array2<bool>, stack0: seq<Cell>, ghost seen0: set<Cell>, ghost pushes0: seq<Cell>,
                ghost base: set<Cell>, ghost start: Cell)
    returns (stack: seq<Cell>, ghost seen: set<Cell>, ghost pushes: seq<Cell>)
    requires Rect(m) && Marks(m, visited, seen0, pushes0, stack0) && stack0 != []
    requires forall c :: c in seen0 ==> c in stack0 || Closed(m, seen0, c)
    requires base <= seen0 && FromStart(m, base, start, seen0, stack0)
    modifies visited
    ensures Marks(m, visited, seen, pushes, stack)
    ensures seen0 <= seen && |pushes0| <= |pushes| && pushes[..|pushes0|] == pushes0
    ensures forall c :: c in seen ==> c in stack || Closed(m, seen, c)
    ensures FromStart(m, base, start, seen, stack)
    ensures (seen == seen0 && |stack| < |stack0|) || Grid(m) - seen < Grid(m) - seen0
  {
    var cur := stack0[|stack0| - 1];
    stack := stack0[..|stack0| - 1];
    seen, pushes := seen0, pushes0;
    ghost var stackPop := stack;
    ghost var added: Option<Cell> := None;
    assert cur in seen0 && cur !in base;
    for d := 0 to 4
      invariant Marks(m, visited, seen, pushes, stack)
      invariant seen0 <= seen && |pushes0| <= |pushes| && pushes[..|pushes0|] == pushes0
      invariant forall c :: c in seen ==> c in stack || c == cur || Closed(m, seen, c)
      invariant ClosedUpTo(m, seen, cur, d)
      invariant FromStart(m, base, start, seen, stack)
      invariant added.None? ==> seen == seen0 && stack == stackPop
      invariant added.Some? ==> added.value in seen && added.value !in seen0 && added.value in Grid(m)
    {
      ghost var pushesBefore, seenBefore := pushes, seen;
      if On(m, Step(cur, d)) {
        ReachExtend(m, start, cur, Step(cur, d));
      }
      ghost var stackBefore := stack;
      stack, seen, pushes := Visit(m, visited, Step(cur, d), stack, seen, pushes, base, start);
      ClosedGrows(m, seenBefore, seen, stackBefore, stack, cur);
      ClosedOneMore(m, seenBefore, seen, cur, d);
      assert pushes[..|pushesBefore|] == pushesBefore;
      if seen != seenBefore {
        added := Some(Step(cur, d));
      }
    }
    if added.Some? {
      assert added.value in Grid(m) - seen0 && added.value !in Grid(m) - seen;
    }
  }

  /** The flood fill from a True cell not yet visited: mark it, push it,
      and run the `while stack` loop, which marks exactly the cells of the
      start cell's component. */
  method Flood(m: Mask, visited: array2<bool>, start: Cell, ghost seen0: set<Cell>, ghost pushes0: seq<Cell>)
    returns (ghost seen: set<Cell>, ghost pushes: seq<Cell>)
    requires Rect(m) && Marks(m, visited, seen0, pushes0, [])
    requires forall c :: c in seen0 ==> Closed(m, seen0, c)
    requires On(m, start) && start !in seen0
    modifies visited
    ensures Marks(m, visited, seen, pushes, [])
    ensures seen == seen0 + Comp(m, start)
    ensures start in seen && |seen0| < |seen|
    ensures |pushes0| <= |pushes| && pushes[..|pushes0|] == pushes0
    ensures forall c :: c in seen ==> Closed(m, seen, c)
  {
    var stack;
    ReachRefl(m, start);
    ghost var seen1, pushes1;
    stack, seen1, pushes1 := Visit(m, visited, start, [], seen0, pushes0, seen0, start);
    seen, pushes := Drain(m, visited, stack, seen1, pushes1, seen0, start);
    assert pushes[..|pushes0|] == pushes1[..|pushes0|];
    FloodComponent(m, seen0, seen, start);
    SubsetCard(seen0 + {start}, seen);
  }

  /** The `while stack` loop: expand the top of the stack until it is
      empty. */
  method Drain(m: Mask, visited: array2<bool>, stack0: seq<Cell>, ghost seen0: set<Cell>, ghost pushes0: seq<Cell>,
               ghost base: set<Cell>, ghost start: Cell)
    returns (ghost seen: set<Cell>, ghost pushes: seq<Cell>)
    requires Rect(m) && Marks(m, visited, seen0, pushes0, stack0)
    requires forall c :: c in seen0 ==> c in stack0 || Closed(m, seen0, c)
    requires base <= seen0 && FromStart(m, base, start, seen0, stack0)
    modifies visited
    ensures Marks(m, visited, seen, pushes, [])
    ensures seen0 <= seen && |pushes0| <= |pushes| && pushes[..|pushes0|] == pushes0
    ensures forall c :: c in seen ==> Closed(m, seen, c)
    ensures FromStart(m, base, start, seen, [])
  {
    var stack := stack0;
    seen, pushes := seen0, pushes0;
    while stack != []
      invariant Marks(m, visited, seen, pushes, stack)
      invariant seen0 <= seen && |pushes0| <= |pushes| && pushes[..|pushes0|] == pushes0
      invariant forall c :: c in seen ==> c in stack || Closed(m, seen, c)
      invariant FromStart(m, base, start, seen, stack)
      decreases Grid(m) - seen, |stack|
    {
      ghost var pushesPop := pushes;
      stack, seen, pushes := Expand(m, visited, stack, seen, pushes, base, start);
      assert pushes[..|pushes0|] == pushesPop[..|pushes0|];
    }
  }

  /** The first n neighbours of c, when True, are in seen. */
  ghost predicate ClosedUpTo(m: Mask, seen: set<Cell>, c: Cell, n: int)
    requires Rect(m)
  {
    forall e :: 0 <= e < n ==> On(m, Step(c, e)) ==> Step(c, e) in seen
  }

  /** Visiting neighbour d of c extends ClosedUpTo by one. */
  lemma ClosedOneMore(m: Mask, seen0: set<Cell>, seen: set<Cell>, c: Cell, d: int)
    requires Rect(m) && ClosedUpTo(m, seen0, c, d) && seen0 <= seen
    requires On(m, Step(c, d)) ==> Step(c, d) in seen
    ensures ClosedUpTo(m, seen, c, d + 1)
  {
  }

  /** Visiting a neighbour keeps every marked cell, other than the one
      being expanded, either on the stack or with all its True neighbours
      marked. */
  lemma ClosedGrows(m: Mask, seen0: set<Cell>, seen: set<Cell>, stack0: seq<Cell>, stack: seq<Cell>, cur: Cell)
    requires Rect(m) && seen0 <= seen
    requires forall c :: c in seen0 ==> c in stack0 || c == cur || Closed(m, seen0, c)
    requires forall c :: c in stack0 ==> c in stack
    requires forall c :: c in seen && c !in seen0 ==> c in stack
    ensures forall c :: c in seen ==> c in stack || c == cur || Closed(m, seen, c)
  {
  }

  /** Every True cell before (i, j) in row-major order is in seen. */
  ghost predicate Scanned(m: Mask, seen: set<Cell>, i: int, j: int)
    requires Rect(m)
  {
    forall x, y :: 0 <= x < |m| && 0 <= y < Width(m) && m[x][y] && (x < i || (x == i && y < j)) ==> (x, y) in seen
  }

  /** A scanned row ends where the next one begins. */
  lemma NextRow(m: Mask, seen: set<Cell>, i: int)
    requires Rect(m) && Scanned(m, seen, i, Width(m))
    ensures Scanned(m, seen, i + 1, 0)
  {
  }

  /** The body of the scan: a True cell not yet visited starts a new
      component and its flood fill; any other cell changes nothing. */
  method Probe(m: Mask, visited: array2<bool>, c: Cell, count0: nat, ghost seen0: set<Cell>, ghost order0: seq<Cell>)
    returns (count: nat, ghost seen: set<Cell>, ghost order: seq<Cell>)
    requires Rect(m) && InGrid(m, c) && Marks(m, visited, seen0, order0, [])
    requires forall x :: x in seen0 ==> Closed(m, seen0, x)
    requires count0 <= |seen0| && (count0 == 0 <==> seen0 == {}) && count0 == |Comps(m, seen0)|
    modifies visited
    ensures Marks(m, visited, seen, order, [])
    ensures forall x :: x in seen ==> Closed(m, seen, x)
    ensures count <= |seen| && (count == 0 <==> seen == {}) && count == |Comps(m, seen)|
    ensures seen0 <= seen && (On(m, c) ==> c in seen)
    ensures Scanned(m, seen0, c.0, c.1) ==> Scanned(m, seen, c.0, c.1 + 1)
    ensures c in seen0 || !On(m, c) ==> count == count0 && seen == seen0
    ensures AllOn(m) && seen0 == {} && c == (0, 0) ==> count == 1 && forall x :: InGrid(m, x) ==> x in seen
  {
    count, seen, order := count0, seen0, order0;
    if m[c.0][c.1] && !visited[c.0, c.1] {
      count := count + 1;
      seen, order := Flood(m, visited, c, seen, order);
      OneMoreComponent(m, seen0, seen, c);
      if AllOn(m) && seen0 == {} && c == (0, 0) {
        ClosedFull(m, seen);
      }
    }
  }

  /** _count_components: one flood fill at each True cell not yet visited
      in row-major order, so the count is the number of 4-connected
      components. The ghost result lists the cells in the order they are
      marked: each True cell exactly once, and no False cell. */
  method CountComponents(m: Mask) returns (count: nat, ghost order: seq<Cell>)
    requires Rect(m)
    ensures count == Components(m)
    ensures count == 0 <==> TrueCells(m) == {}
    ensures count <= |TrueCells(m)|
    ensures Distinct(order) && forall c :: c in order <==> c in TrueCells(m)
    ensures AllOn(m) && m != [] && Width(m) > 0 ==> count == 1
  {
    var visited := new bool[|m|, Width(m)]((_, _) => false);
    ghost var seen: set<Cell> := {};
    order := [];
    count := 0;
    assert Comps(m, seen) == {};
    for i := 0 to |m|
      invariant Marks(m, visited, seen, order, [])
      invariant forall c :: c in seen ==> Closed(m, seen, c)
      invariant Scanned(m, seen, i, 0)
      invariant count <= |seen| && (count == 0 <==> seen == {}) && (i == 0 ==> seen == {})
      invariant count == |Comps(m, seen)|
      invariant AllOn(m) && Width(m) > 0 && i > 0 ==> count == 1 && forall c :: InGrid(m, c) ==> c in seen
    {
      for j := 0 to Width(m)
        invariant Marks(m, visited, seen, order, [])
        invariant forall c :: c in seen ==> Closed(m, seen, c)
        invariant Scanned(m, seen, i, 0)
        invariant forall y :: 0 <= y < j && m[i][y] ==> (i, y) in seen
        invariant count <= |seen| && (count == 0 <==> seen == {}) && (i == 0 && j == 0 ==> seen == {})
        invariant count == |Comps(m, seen)|
        invariant AllOn(m) && Width(m) > 0 && (i > 0 || j > 0) ==> count == 1 && forall c :: InGrid(m, c) ==> c in seen
      {
        count, seen, order := Probe(m, visited, (i, j), count, seen, order);
      }
      NextRow(m, seen, i);
    }
    assert seen == TrueCells(m);
    SubsetCard(seen, TrueCells(m));
  }

  // ------------------------------------------------------------ connectivity

  /** A True cell is one of TrueCells. */
  lemma InTrueCells(m: Mask, c: Cell)
    requires Rect(m) && On(m, c)
    ensures c in TrueCells(m)
  {
    assert c == (c.0, c.1);
  }

  /** A True cell reaches itself. */
  lemma ReachRefl(m: Mask, a: Cell)
    requires Rect(m) && On(m, a)
    ensures Reach(m, a, a)
  {
    assert Walk(m, [a]);
  }

  /** A path extends by a True 4-neighbour of its end. */
  lemma ReachExtend(m: Mask, a: Cell, b: Cell, c: Cell)
    requires Rect(m) && Reach(m, a, b) && On(m, c) && Adjacent(b, c)
    ensures Reach(m, a, c)
  {
    var p :| Walk(m, p) && p[0] == a && p[|p| - 1] == b;
    var q := p + [c];
    assert Walk(m, q) by {
      forall k | 0 < k < |q|
        ensures Adjacent(q[k - 1], q[k])
      {
        if k < |p| {
          assert q[k - 1] == p[k - 1] && q[k] == p[k];
        }
      }
    }
    assert q[0] == a && q[|q| - 1] == c;
  }

  /** Reachability is symmetric: a path read backwards. */
  lemma ReachSym(m: Mask, a: Cell, b: Cell)
    requires Rect(m) && Reach(m, a, b)
    ensures Reach(m, b, a)
  {
    var p :| Walk(m, p) && p[0] == a && p[|p| - 1] == b;
    var q := seq(|p|, k requires 0 <= k < |p| => p[|p| - 1 - k]);
    assert Walk(m, q) by {
      forall k | 0 < k < |q|
        ensures Adjacent(q[k - 1], q[k])
      {
        assert q[k - 1] == p[|p| - k] && q[k] == p[|p| - 1 - k];
        assert Adjacent(p[|p| - k - 1], p[|p| - k]);
      }
    }
    assert q[0] == b && q[|q| - 1] == a;
  }

  /** Reachability is transitive: two paths joined at their shared end. */
  lemma ReachTrans(m: Mask, a: Cell, b: Cell, c: Cell)
    requires Rect(m) && Reach(m, a, b) && Reach(m, b, c)
    ensures Reach(m, a, c)
  {
    var p :| Walk(m, p) && p[0] == a && p[|p| - 1] == b;
    var q :| Walk(m, q) && q[0] == b && q[|q| - 1] == c;
    var r := p + q[1..];
    assert Walk(m, r) by {
      forall k | 0 <= k < |r|
        ensures On(m, r[k])
      {
        if k >= |p| {
          assert r[k] == q[k - |p| + 1];
        }
      }
      forall k | 0 < k < |r|
        ensures Adjacent(r[k - 1], r[k])
      {
        if k < |p| {
          assert r[k - 1] == p[k - 1] && r[k] == p[k];
        } else {
          assert r[k - 1] == q[k - |p|] && r[k] == q[k - |p| + 1];
        }
      }
    }
    assert r[|r| - 1] == c by {
      if |q| == 1 {
        assert r == p;
      } else {
        assert r[|r| - 1] == q[|q| - 1];
      }
    }
  }

  /** A set of cells that holds every True neighbour of its cells holds
      everything its cells reach. */
  lemma ClosedReach(m: Mask, s: set<Cell>, a: Cell, b: Cell)
    requires Rect(m) && a in s && Reach(m, a, b)
    requires forall c :: c in s ==> Closed(m, s, c)
    ensures b in s
  {
    var p :| Walk(m, p) && p[0] == a && p[|p| - 1] == b;
    var k := 0;
    while k < |p| - 1
      invariant 0 <= k < |p| && p[k] in s
    {
      assert Adjacent(p[k], p[k + 1]) && On(m, p[k + 1]);
      assert Step(p[k], Toward(p[k], p[k + 1])) == p[k + 1];
      k := k + 1;
    }
  }

  /** A closed set of True cells that grew from base by cells reached
      from start is base plus start's component. */
  lemma FloodComponent(m: Mask, base: set<Cell>, seen: set<Cell>, start: Cell)
    requires Rect(m) && base <= seen && start in seen
    requires forall c :: c in seen ==> On(m, c) && Closed(m, seen, c)
    requires forall c :: c in seen && c !in base ==> Reach(m, start, c)
    ensures seen == base + Comp(m, start)
  {
    forall c | c in seen
      ensures c in base + Comp(m, start)
    {
      if c !in base {
        InTrueCells(m, c);
      }
    }
    forall c | c in Comp(m, start)
      ensures c in seen
    {
      ClosedReach(m, seen, start, c);
    }
  }

  /** Cells that reach one another have the same component. */
  lemma CompOf(m: Mask, a: Cell, b: Cell)
    requires Rect(m) && Reach(m, a, b)
    ensures Comp(m, a) == Comp(m, b)
  {
    ReachSym(m, a, b);
    forall d | d in Comp(m, a)
      ensures d in Comp(m, b)
    {
      ReachTrans(m, b, a, d);
    }
    forall d | d in Comp(m, b)
      ensures d in Comp(m, a)
    {
      ReachTrans(m, a, b, d);
    }
  }

  /** Two True cells lie in the same component exactly when a path of
      4-neighbouring True cells joins them. */
  lemma SameComponent(m: Mask, a: Cell, b: Cell)
    requires Rect(m) && On(m, a) && On(m, b)
    ensures Comp(m, a) == Comp(m, b) <==> Reach(m, a, b)
  {
    if Reach(m, a, b) {
      CompOf(m, a, b);
    }
    if Comp(m, a) == Comp(m, b) {
      ReachRefl(m, b);
      InTrueCells(m, b);
      assert b in Comp(m, b);
    }
  }

  /** A flood fill that starts outside a union of whole components adds
      one new component. */
  lemma AddComponent(m: Mask, s: set<Cell>, c: Cell)
    requires Rect(m) && On(m, c) && c !in s
    requires forall x :: x in s ==> Closed(m, s, x)
    ensures Comp(m, c) !in Comps(m, s)
    ensures Comps(m, s + Comp(m, c)) == Comps(m, s) + {Comp(m, c)}
    ensures |Comps(m, s + Comp(m, c))| == |Comps(m, s)| + 1
  {
    ReachRefl(m, c);
    InTrueCells(m, c);
    assert c in Comp(m, c);
    if Comp(m, c) in Comps(m, s) {
      var x :| x in s && Comp(m, x) == Comp(m, c);
      ClosedReach(m, s, x, c);
      assert false;
    }
    forall y | y in s + Comp(m, c)
      ensures Comp(m, y) in Comps(m, s) + {Comp(m, c)}
    {
      if y !in s {
        CompOf(m, c, y);
      }
    }
    assert Comp(m, c) in Comps(m, s + Comp(m, c));
  }

  /** Every cell of the grid is True. */
  predicate AllOn(m: Mask)
    requires Rect(m)
  {
    forall x, y :: 0 <= x < |m| && 0 <= y < Width(m) ==> m[x][y]
  }

  /** In an all-True grid, a set that holds the corner and every True
      neighbour of its cells holds every cell. */
  lemma ClosedFull(m: Mask, seen: set<Cell>)
    requires Rect(m) && AllOn(m) && (0, 0) in seen
    requires forall c :: c in seen ==> Closed(m, seen, c)
    ensures forall c :: InGrid(m, c) ==> c in seen
  {
    forall c | InGrid(m, c)
      ensures c in seen
    {
      CellReached(m, seen, c.0, c.1);
    }
  }

  lemma {:induction false} CellReached(m: Mask, seen: set<Cell>, x: nat, y: nat)
    requires Rect(m) && AllOn(m) && (0, 0) in seen
    requires forall c :: c in seen ==> Closed(m, seen, c)
    requires x < |m| && y < Width(m)
    ensures (x, y) in seen
    decreases x + y
  {
    if x > 0 {
      CellReached(m, seen, x - 1, y);
      assert Step((x - 1, y), 0) == (x, y);
    } else if y > 0 {
      CellReached(m, seen, x, y - 1);
      assert Step((x, y - 1), 2) == (x, y);
    }
  }

  /** A subset is no larger. */
  lemma SubsetCard<T>(a: set<T>, b: set<T>)
    requires a <= b
    ensures |a| <= |b|
  {
    if a != {} {
      var x :| x in a;
      SubsetCard(a - {x}, b - {x});
    }
  }

  /** The thresholded magnitudes: a 1-D array or a 2-D grid. */
  datatype Thresholded = Row(cells: seq<bool>) | Rows(grid: Mask)

  /** A 1-D mask is read as a grid of one row. */
  function AsGrid(t: Thresholded): (m: Mask)
    ensures t.Row? ==> m == [t.cells]
  {
    match t
    case Row(r) => [r]
    case Rows(g) => g
  }

  /** `np.pad(~mask, 1, constant_values=True)`: the complement framed by
      a border of True cells. */
  function PadComplement(m: Mask): (p: Mask)
    requires Rect(m)
    ensures Rect(p) && |p| == |m| + 2 && Width(p) == Width(m) + 2
    ensures forall x, y :: 0 <= x < |p| && 0 <= y < Width(p) ==>
      p[x][y] == (x == 0 || x == |m| + 1 || y == 0 || y == Width(m) + 1 || !m[x - 1][y - 1])
  {
    var w := Width(m) + 2;
    seq(|m| + 2, x requires 0 <= x < |m| + 2 =>
      seq(w, y requires 0 <= y < w =>
        x == 0 || x == |m| + 1 || y == 0 || y == w - 1 || !m[x - 1][y - 1]))
  }

  /** _betti_features: the number of components of the mask, and the
      number of components of its framed complement less the one that holds
      the frame. The frame is always there, so the max(0, _) never changes
      the hole count. */
  method BettiFeatures(t: Thresholded) returns (betti0: nat, betti1: nat)
    requires Rect(AsGrid(t))
    ensures betti0 == Components(AsGrid(t))
    ensures betti1 == Max(0, Components(PadComplement(AsGrid(t))) - 1)
    ensures betti1 + 1 == Components(PadComplement(AsGrid(t)))
    ensures betti0 == 0 <==> TrueCells(AsGrid(t)) == {}
    ensures betti0 <= |TrueCells(AsGrid(t))|
    ensures TrueCells(AsGrid(t)) == {} ==> betti1 == 0
  {
    var m := AsGrid(t);
    ghost var order;
    betti0, order := CountComponents(m);
    var padded := PadComplement(m);
    var framed;
    framed, order := CountComponents(padded);
    assert (0, 0) in TrueCells(padded);
    var holes := framed - 1;
    betti1 := Max(0, holes);
    if TrueCells(m) == {} {
      forall x, y | 0 <= x < |padded| && 0 <= y < Width(padded)
        ensures padded[x][y]
      {
        if 0 < x <= |m| && 0 < y <= Width(m) {
          assert (x - 1, y - 1) !in TrueCells(m);
        }
      }
    }
  }

  /** The count after a flood fill: one component more. */
  lemma OneMoreComponent(m: Mask, s: set<Cell>, seen: set<Cell>, c: Cell)
    requires Rect(m) && On(m, c) && c !in s && seen == s + Comp(m, c)
    requires forall x :: x in s ==> Closed(m, s, x)
    ensures |Comps(m, seen)| == |Comps(m, s)| + 1
  {
    AddComponent(m, s, c);
  }

  // ------------------------------------------------------------ the ring

  /** The grid of the Betti ring test: a 3 by 3 block whose centre alone is
      False. */
  const Ring: Mask := [[true, true, true], [true, false, true], [true, true, true]]

  /** The ring grid is rectangular. */
  lemma RingRect()
    ensures Rect(Ring) && |Ring| == 3 && Width(Ring) == 3
  {
  }

  /** The ring is one component: its eight cells are a cycle. */
  lemma RingOneComponent()
    ensures Rect(Ring) && Components(Ring) == 1
  {
    RingRect();
    var o := (0, 0);
    ReachRefl(Ring, o);
    ReachExtend(Ring, o, (0, 0), (0, 1));
    ReachExtend(Ring, o, (0, 1), (0, 2));
    ReachExtend(Ring, o, (0, 2), (1, 2));
    ReachExtend(Ring, o, (1, 2), (2, 2));
    ReachExtend(Ring, o, (2, 2), (2, 1));
    ReachExtend(Ring, o, (2, 1), (2, 0));
    ReachExtend(Ring, o, (2, 0), (1, 0));
    InTrueCells(Ring, o);
    forall c | c in TrueCells(Ring)
      ensures Comp(Ring, c) == Comp(Ring, o)
    {
      CompOf(Ring, o, c);
    }
    assert Comps(Ring, TrueCells(Ring)) == {Comp(Ring, o)};
  }

  /** The ring framed by `np.pad(~mask, 1, constant_values=True)`. */
  const Framed: Mask := PadComplement(Ring)

  /** A True cell of the framed ring is on the frame or is the centre. */
  lemma FramedCell(c: Cell)
    requires Rect(Framed) && c in TrueCells(Framed)
    ensures c == (2, 2) || c.0 == 0 || c.0 == 4 || c.1 == 0 || c.1 == 4
    ensures 0 <= c.0 < 5 && 0 <= c.1 < 5
  {
    if 0 < c.0 < 4 && 0 < c.1 < 4 {
      assert !Ring[c.0 - 1][c.1 - 1];
    }
  }

  /** A run of True cells along a row is reached from wherever its first
      cell is. */
  lemma {:induction false} RowReach(m: Mask, a: Cell, x: int, y0: int, y1: int)
    requires Rect(m) && Reach(m, a, (x, y0))
    requires forall y :: y0 <= y <= y1 ==> On(m, (x, y))
    ensures forall y :: y0 <= y <= y1 ==> Reach(m, a, (x, y))
    decreases y1 - y0
  {
    if y0 < y1 {
      ReachExtend(m, a, (x, y0), (x, y0 + 1));
      RowReach(m, a, x, y0 + 1, y1);
    }
  }

  /** A run of True cells down a column is reached from wherever its
      first cell is. */
  lemma {:induction false} ColumnReach(m: Mask, a: Cell, y: int, x0: int, x1: int)
    requires Rect(m) && Reach(m, a, (x0, y))
    requires forall x :: x0 <= x <= x1 ==> On(m, (x, y))
    ensures forall x :: x0 <= x <= x1 ==> Reach(m, a, (x, y))
    decreases x1 - x0
  {
    if x0 < x1 {
      ReachExtend(m, a, (x0, y), (x0 + 1, y));
      ColumnReach(m, a, y, x0 + 1, x1);
    }
  }

  /** The corner reaches every frame cell. */
  lemma FrameReach()
    ensures Rect(Framed)
    ensures forall c :: On(Framed, c) && (c.0 == 0 || c.0 == 4 || c.1 == 0 || c.1 == 4) ==> Reach(Framed, (0, 0), c)
  {
    var p, o := Framed, (0, 0);
    ReachRefl(p, o);
    RowReach(p, o, 0, 0, 4);
    ColumnReach(p, o, 0, 0, 4);
    ColumnReach(p, o, 4, 0, 4);
    RowReach(p, o, 4, 0, 4);
  }

  /** The centre of the framed ring is a component on its own. */
  lemma CentreAlone()
    ensures Rect(Framed) && Comp(Framed, (2, 2)) == {(2, 2)}
  {
    var p, h := Framed, (2, 2);
    assert On(p, h) && Closed(p, {h}, h);
    forall c | c in Comp(p, h)
      ensures c == h
    {
      ClosedReach(p, {h}, h, c);
    }
    ReachRefl(p, h);
    InTrueCells(p, h);
  }

  /** The framed complement of the ring has two components: the frame
      joined to the ring's outside, and the centre on its own. */
  lemma RingOneHole()
    ensures Rect(Ring) && Components(PadComplement(Ring)) == 2
  {
    RingRect();
    var p, o, h := Framed, (0, 0), (2, 2);
    FrameReach();
    CentreAlone();
    ReachRefl(p, o);
    InTrueCells(p, o);
    assert o in Comp(p, o);
    forall c | c in TrueCells(p)
      ensures Comp(p, c) in {Comp(p, o), Comp(p, h)}
    {
      FramedCell(c);
      if c != h {
        CompOf(p, o, c);
      }
    }
    assert Comps(p, TrueCells(p)) == {Comp(p, o), Comp(p, h)};
  }
}
