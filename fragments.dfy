/** Connected components of a cluster's shape: the 4-connected flood fill,
    the scan that splits the filled cells into fragments, and the rebuilding
    step of handle_fragments that re-emits recognisable four-cell fragments as
    coloured tetrominoes and keeps the rest in the cluster. */
module Fragments {
  import opened Grid
  import opened Catalog
  import opened Pieces

  /** A walk of orthogonal steps that only visits filled cells. */
  ghost predicate IsPath(s: Shape, p: seq<Cell>) {
    && |p| > 0
    && (forall k :: 0 <= k < |p| ==> Filled(s, p[k]))
    && (forall k :: 0 <= k < |p| - 1 ==> Touch(p[k], p[k + 1]))
  }

  /** b can be reached from a through filled cells. */
  ghost predicate Connected(s: Shape, a: Cell, b: Cell) {
    exists p :: IsPath(s, p) && p[0] == a && p[|p| - 1] == b
  }

  /** The 4-connected component of a: empty when a is not a filled cell. */
  ghost function Component(s: Shape, a: Cell): set<Cell> {
    set q | q in Cells(s) && Connected(s, a, q)
  }

  lemma ConnectedRefl(s: Shape, a: Cell)
    requires Filled(s, a)
    ensures Connected(s, a, a)
  {
    assert IsPath(s, [a]);
  }

  /** A connection ends on filled cells at both ends. */
  lemma ConnectedFilled(s: Shape, a: Cell, b: Cell)
    requires Connected(s, a, b)
    ensures Filled(s, a) && Filled(s, b)
  {
    var p :| IsPath(s, p) && p[0] == a && p[|p| - 1] == b;
    assert Filled(s, p[0]) && Filled(s, p[|p| - 1]);
  }

  lemma ConnectedStep(s: Shape, a: Cell, b: Cell, c: Cell)
    requires Connected(s, a, b) && Touch(b, c) && Filled(s, c)
    ensures Connected(s, a, c)
  {
    var p :| IsPath(s, p) && p[0] == a && p[|p| - 1] == b;
    var q := p + [c];
    assert forall k :: 0 <= k < |p| ==> q[k] == p[k];
    assert IsPath(s, q);
  }

  lemma ConnectedSymmetric(s: Shape, a: Cell, b: Cell)
    requires Connected(s, a, b)
    ensures Connected(s, b, a)
  {
    var p :| IsPath(s, p) && p[0] == a && p[|p| - 1] == b;
    var n := |p|;
    var q := seq(n, k requires 0 <= k < n => p[n - 1 - k]);
    forall k | 0 <= k < n - 1 ensures Touch(q[k], q[k + 1]) {
      assert Touch(p[n - 2 - k], p[n - 1 - k]);
      TouchSymmetric(p[n - 2 - k], p[n - 1 - k]);
    }
    assert IsPath(s, q);
  }

  lemma ConnectedTransitive(s: Shape, a: Cell, b: Cell, c: Cell)
    requires Connected(s, a, b) && Connected(s, b, c)
    ensures Connected(s, a, c)
  {
    var p :| IsPath(s, p) && p[0] == a && p[|p| - 1] == b;
    var q :| IsPath(s, q) && q[0] == b && q[|q| - 1] == c;
    var r := p + q[1..];
    forall k | 0 <= k < |r| - 1 ensures Touch(r[k], r[k + 1]) {
      if k < |p| - 1 {
        assert r[k] == p[k] && r[k + 1] == p[k + 1];
      } else if k == |p| - 1 {
        assert r[k] == q[0] && r[k + 1] == q[1];
      } else {
        assert r[k] == q[k - |p| + 1] && r[k + 1] == q[k - |p| + 2];
      }
    }
    forall k | 0 <= k < |r| ensures Filled(s, r[k]) {
      if k < |p| { assert r[k] == p[k]; } else { assert r[k] == q[k - |p| + 1]; }
    }
    assert IsPath(s, r);
  }

  /** Every cell of a component has that same component: components are the
      classes of an equivalence. */
  lemma ComponentShared(s: Shape, a: Cell, c: Cell)
    requires c in Component(s, a)
    ensures Component(s, c) == Component(s, a)
  {
    ConnectedSymmetric(s, a, c);
    forall q | q in Component(s, c) ensures q in Component(s, a) {
      ConnectedTransitive(s, a, c, q);
    }
    forall q | q in Component(s, a) ensures q in Component(s, c) {
      ConnectedTransitive(s, c, a, q);
    }
  }

  /** The component of an unfilled or out-of-range cell is empty; that of a
      filled cell contains it. */
  lemma ComponentOfStart(s: Shape, a: Cell)
    ensures !Filled(s, a) ==> Component(s, a) == {}
    ensures Filled(s, a) ==> a in Component(s, a)
  {
    if Filled(s, a) {
      ConnectedRefl(s, a);
    } else {
      forall q | q in Component(s, a) ensures false {
        ConnectedFilled(s, a, q);
      }
    }
  }

  /** A set that holds the start of a walk and is closed under stepping to a
      filled neighbour holds the whole walk. */
  lemma {:induction false} ClosedHoldsPath(s: Shape, C: set<Cell>, p: seq<Cell>)
    requires IsPath(s, p) && p[0] in C
    requires forall r, q :: r in C && Touch(r, q) && Filled(s, q) ==> q in C
    ensures p[|p| - 1] in C
    decreases |p|
  {
    if |p| > 1 {
      var p' := p[..|p| - 1];
      assert IsPath(s, p');
      ClosedHoldsPath(s, C, p');
      assert Touch(p[|p| - 2], p[|p| - 1]);
    }
  }

  /** What the flood fill keeps true between iterations: everything found or
      pending (and filled) is connected to the start, everything found is a
      filled cell, every filled neighbour of a found cell is found or pending,
      and a filled start is found or pending. */
  ghost predicate FillInvariant(s: Shape, start: Cell, connected: set<Cell>, stack: seq<Cell>) {
    && connected <= Cells(s)
    && (forall q :: q in connected ==> Connected(s, start, q))
    && (forall k :: 0 <= k < |stack| && Filled(s, stack[k]) ==> Connected(s, start, stack[k]))
    && (forall r, q :: r in connected && Touch(r, q) && Filled(s, q) ==> q in connected || q in stack)
    && (Filled(s, start) ==> start in connected || start in stack)
  }

  lemma FillStart(s: Shape, start: Cell)
    ensures FillInvariant(s, start, {}, [start])
  {
    if Filled(s, start) {
      ConnectedRefl(s, start);
    }
  }

  /** Popping a cell that is empty, out of range or already found. */
  lemma FillSkip(s: Shape, start: Cell, connected: set<Cell>, stack: seq<Cell>)
    requires FillInvariant(s, start, connected, stack) && stack != []
    requires !Filled(s, stack[|stack| - 1]) || stack[|stack| - 1] in connected
    ensures FillInvariant(s, start, connected, stack[..|stack| - 1])
  {
    var rest := stack[..|stack| - 1];
    forall r, q | r in connected && Touch(r, q) && Filled(s, q) ensures q in connected || q in rest {
      if q !in connected {
        var k :| 0 <= k < |stack| && stack[k] == q;
        assert k < |stack| - 1 && rest[k] == q;
      }
    }
    forall k | 0 <= k < |rest| && Filled(s, rest[k]) ensures Connected(s, start, rest[k]) {
      assert rest[k] == stack[k];
    }
    if Filled(s, start) && start !in connected {
      var k :| 0 <= k < |stack| && stack[k] == start;
      assert k < |stack| - 1 && rest[k] == start;
    }
  }

  /** Popping a new filled cell: it joins `connected` and its neighbours are
      pushed. */
  lemma FillAdd(s: Shape, start: Cell, connected: set<Cell>, stack: seq<Cell>)
    requires FillInvariant(s, start, connected, stack) && stack != []
    requires Filled(s, stack[|stack| - 1]) && stack[|stack| - 1] !in connected
    ensures var c := stack[|stack| - 1];
            && FillInvariant(s, start, connected + {c}, stack[..|stack| - 1] + Neighbours(c))
            && |Cells(s) - (connected + {c})| < |Cells(s) - connected|
  {
    var c := stack[|stack| - 1];
    var rest := stack[..|stack| - 1];
    var next := rest + Neighbours(c);
    var found := connected + {c};
    assert Connected(s, start, c);
    assert Cells(s) - found == (Cells(s) - connected) - {c};
    forall k | 0 <= k < |next| && Filled(s, next[k]) ensures Connected(s, start, next[k]) {
      if k < |rest| {
        assert next[k] == stack[k];
      } else {
        assert next[k] in Neighbours(c);
        ConnectedStep(s, start, c, next[k]);
      }
    }
    forall r, q | r in found && Touch(r, q) && Filled(s, q) ensures q in found || q in next {
      if r == c {
        assert q in Neighbours(c);
      } else if q !in connected && q != c {
        var k :| 0 <= k < |stack| && stack[k] == q;
        assert k < |stack| - 1 && next[k] == q;
      }
    }
    if Filled(s, start) && start !in found {
      var k :| 0 <= k < |stack| && stack[k] == start;
      assert k < |stack| - 1 && next[k] == start;
    }
  }

  /** With the stack empty, `connected` is the whole component. */
  lemma FillDone(s: Shape, start: Cell, connected: set<Cell>)
    requires FillInvariant(s, start, connected, [])
    ensures connected == Component(s, start)
  {
    forall q | q in Component(s, start) ensures q in connected {
      var p :| IsPath(s, p) && p[0] == start && p[|p| - 1] == q;
      assert Filled(s, p[0]);
      ClosedHoldsPath(s, connected, p);
    }
  }

  /** find_connected_squares: the flood fill with an explicit stack. A popped
      cell is added when it is in range, filled and new, and then its four
      neighbours are pushed. The result is exactly the 4-connected component
      of the start; empty when the start is unfilled or out of range. */
  method FindConnectedSquares(s: Shape, sx: int, sy: int) returns (connected: set<Cell>)
    ensures connected == Component(s, (sx, sy))
  {
    ghost var start := (sx, sy);
    connected := {};
    var stack := [(sx, sy)];
    FillStart(s, start);
    while stack != []
      invariant FillInvariant(s, start, connected, stack)
      decreases |Cells(s) - connected|, |stack|
    {
      var c := stack[|stack| - 1];
      if 0 <= c.1 < |s| && 0 <= c.0 < |s[c.1]| && s[c.1][c.0] && c !in connected {
        FillAdd(s, start, connected, stack);
        stack := stack[..|stack| - 1];
        connected := connected + {c};
        stack := stack + Neighbours(c);
      } else {
        FillSkip(s, start, connected, stack);
        stack := stack[..|stack| - 1];
      }
    }
    FillDone(s, start, connected);
  }

  /** The fragments split the filled cells: each is a whole non-empty
      component, no two share a cell, and together they cover every filled
      cell. */
  ghost predicate IsPartition(s: Shape, fs: seq<set<Cell>>) {
    && WholeComponents(s, fs)
    && PairwiseDisjoint(fs)
    && UnionOf(fs, Cells(s))
  }

  /** Each set of the family is a non-empty, whole component of the shape. */
  ghost predicate WholeComponents(s: Shape, fs: seq<set<Cell>>) {
    forall i :: 0 <= i < |fs| ==> fs[i] != {} && forall c :: c in fs[i] ==> Component(s, c) == fs[i]
  }

  ghost predicate PairwiseDisjoint(fs: seq<set<Cell>>) {
    forall i, j :: 0 <= i < j < |fs| ==> fs[i] !! fs[j]
  }

  /** `cells` is exactly the union of the family. */
  ghost predicate UnionOf(fs: seq<set<Cell>>, cells: set<Cell>) {
    forall c :: c in cells <==> exists i :: 0 <= i < |fs| && c in fs[i]
  }

  /** Every filled cell before (x, y) in row-major order is in `visited`. */
  ghost predicate VisitedBefore(s: Shape, visited: set<Cell>, x: int, y: int) {
    forall c :: c in Cells(s) && (c.1 < y || (c.1 == y && c.0 < x)) ==> c in visited
  }

  /** What the scan keeps true: `visited` is the union of the fragments found
      so far, each a whole component inside the shape, pairwise disjoint, and
      every filled cell before (x, y) in row-major order has been visited. */
  ghost predicate ScanInvariant(s: Shape, fs: seq<set<Cell>>, visited: set<Cell>, x: int, y: int) {
    && visited <= Cells(s)
    && UnionOf(fs, visited)
    && WholeComponents(s, fs)
    && PairwiseDisjoint(fs)
    && VisitedBefore(s, visited, x, y)
  }

  /** The visited scan of handle_fragments: in row-major order, every filled
      cell not yet visited starts a new fragment found by the flood fill. */
  method ScanFragments(s: Shape) returns (fragments: seq<set<Cell>>)
    ensures IsPartition(s, fragments)
    ensures fragments == Fragmentation(s)
  {
    fragments := [];
    var visited: set<Cell> := {};
    for y := 0 to |s|
      invariant fragments + ScanFrom(s, 0, y, visited) == Fragmentation(s)
    {
      for x := 0 to |s[y]|
        invariant fragments + ScanFrom(s, x, y, visited) == Fragmentation(s)
      {
        if s[y][x] && (x, y) !in visited {
          var fragment := FindConnectedSquares(s, x, y);
          ScanFromAddStep(s, fragments, visited, x, y);
          visited := visited + fragment;
          fragments := fragments + [fragment];
        } else {
          assert ScanFrom(s, x, y, visited) == ScanFrom(s, x + 1, y, visited);
        }
      }
      assert ScanFrom(s, |s[y]|, y, visited) == ScanFrom(s, 0, y + 1, visited);
    }
    assert ScanFrom(s, 0, |s|, visited) == [];
    assert fragments + [] == fragments;
    FragmentationPartition(s);
  }

  /** The fragments the visited scan finds from position (x, y) on, given the
      cells already visited: in row-major order, each filled cell not yet
      visited contributes its whole component, which is then visited. */
  ghost function ScanFrom(s: Shape, x: nat, y: nat, visited: set<Cell>): seq<set<Cell>>
    decreases |s| - y, if y < |s| then |s[y]| - x else 0
  {
    if y >= |s| then []
    else if x >= |s[y]| then ScanFrom(s, 0, y + 1, visited)
    else if s[y][x] && (x, y) !in visited then
      [Component(s, (x, y))] + ScanFrom(s, x + 1, y, visited + Component(s, (x, y)))
    else ScanFrom(s, x + 1, y, visited)
  }

  /** The fragments of a matrix, in the order handle_fragments finds them. */
  ghost function Fragmentation(s: Shape): seq<set<Cell>> {
    ScanFrom(s, 0, 0, {})
  }

  lemma {:induction false} ScanFromPartition(s: Shape, fs: seq<set<Cell>>, visited: set<Cell>, x: nat, y: nat)
    requires y <= |s| && (y < |s| ==> x <= |s[y]|) && (y == |s| ==> x == 0)
    requires ScanInvariant(s, fs, visited, x, y)
    ensures IsPartition(s, fs + ScanFrom(s, x, y, visited))
    decreases |s| - y, if y < |s| then |s[y]| - x else 0, 1
  {
    if y == |s| {
      ScanDone(s, fs, visited);
      assert fs + ScanFrom(s, x, y, visited) == fs;
    } else if x == |s[y]| {
      ScanRowDone(s, fs, visited, y);
      ScanFromPartition(s, fs, visited, 0, y + 1);
      assert ScanFrom(s, x, y, visited) == ScanFrom(s, 0, y + 1, visited);
    } else {
      ScanFromCell(s, fs, visited, x, y);
    }
  }

  lemma {:induction false} ScanFromCell(s: Shape, fs: seq<set<Cell>>, visited: set<Cell>, x: nat, y: nat)
    requires y < |s| && x < |s[y]|
    requires ScanInvariant(s, fs, visited, x, y)
    ensures IsPartition(s, fs + ScanFrom(s, x, y, visited))
    decreases |s| - y, |s[y]| - x, 0
  {
    if s[y][x] && (x, y) !in visited {
      var f := Component(s, (x, y));
      ScanAdd(s, fs, visited, x, y);
      ScanFromPartition(s, fs + [f], visited + f, x + 1, y);
      ScanFromAddStep(s, fs, visited, x, y);
    } else {
      ScanSkip(s, fs, visited, x, y);
      ScanFromPartition(s, fs, visited, x + 1, y);
      assert ScanFrom(s, x, y, visited) == ScanFrom(s, x + 1, y, visited);
    }
  }

  lemma ScanFromAddStep(s: Shape, fs: seq<set<Cell>>, visited: set<Cell>, x: nat, y: nat)
    requires y < |s| && x < |s[y]| && s[y][x] && (x, y) !in visited
    ensures var f := Component(s, (x, y));
            fs + ScanFrom(s, x, y, visited) == (fs + [f]) + ScanFrom(s, x + 1, y, visited + f)
  {
  }

  /** The scan order splits the filled cells into their 4-connected
      components: pairwise disjoint, non-empty, covering every filled cell. */
  lemma FragmentationPartition(s: Shape)
    ensures IsPartition(s, Fragmentation(s))
  {
    ScanFromPartition(s, [], {}, 0, 0);
    assert [] + Fragmentation(s) == Fragmentation(s);
  }

  lemma ScanSkip(s: Shape, fs: seq<set<Cell>>, visited: set<Cell>, x: int, y: int)
    requires ScanInvariant(s, fs, visited, x, y)
    requires !Filled(s, (x, y)) || (x, y) in visited
    ensures ScanInvariant(s, fs, visited, x + 1, y)
  {
  }

  lemma ScanAdd(s: Shape, fs: seq<set<Cell>>, visited: set<Cell>, x: int, y: int)
    requires ScanInvariant(s, fs, visited, x, y)
    requires Filled(s, (x, y)) && (x, y) !in visited
    ensures var f := Component(s, (x, y));
            ScanInvariant(s, fs + [f], visited + f, x + 1, y)
  {
    var f := Component(s, (x, y));
    NewFragment(s, (x, y), f, fs, visited);
    UnionAppend(fs, f, visited);
    DisjointAppend(fs, f);
    WholeAppend(s, fs, f);
    CoverAppend(s, visited, f, x, y);
  }

  /** Appending a fragment to the family adds its cells to the union. */
  lemma UnionAppend(fs: seq<set<Cell>>, f: set<Cell>, visited: set<Cell>)
    requires UnionOf(fs, visited)
    ensures UnionOf(fs + [f], visited + f)
  {
    var fs' := fs + [f];
    forall c ensures c in visited + f <==> exists i :: 0 <= i < |fs'| && c in fs'[i] {
      if c in visited {
        var i :| 0 <= i < |fs| && c in fs[i];
        assert fs'[i] == fs[i];
      }
      if c in f {
        assert c in fs'[|fs|];
      }
      if exists i :: 0 <= i < |fs'| && c in fs'[i] {
        var i :| 0 <= i < |fs'| && c in fs'[i];
        if i < |fs| {
          assert fs'[i] == fs[i];
        }
      }
    }
  }

  /** A fragment disjoint from all earlier ones keeps the family pairwise disjoint. */
  lemma DisjointAppend(fs: seq<set<Cell>>, f: set<Cell>)
    requires PairwiseDisjoint(fs)
    requires forall i :: 0 <= i < |fs| ==> fs[i] !! f
    ensures PairwiseDisjoint(fs + [f])
  {
  }

  /** A whole, non-empty component keeps the family one of whole components. */
  lemma WholeAppend(s: Shape, fs: seq<set<Cell>>, f: set<Cell>)
    requires WholeComponents(s, fs)
    requires f != {} && forall c :: c in f ==> Component(s, c) == f
    ensures WholeComponents(s, fs + [f])
  {
  }

  /** Visiting (x, y) moves the row-major frontier one cell on. */
  lemma CoverAppend(s: Shape, visited: set<Cell>, f: set<Cell>, x: int, y: int)
    requires VisitedBefore(s, visited, x, y)
    requires (x, y) in f
    ensures VisitedBefore(s, visited + f, x + 1, y)
  {
  }

  lemma ScanRowDone(s: Shape, fs: seq<set<Cell>>, visited: set<Cell>, y: int)
    requires 0 <= y < |s| && ScanInvariant(s, fs, visited, |s[y]|, y)
    ensures ScanInvariant(s, fs, visited, 0, y + 1)
  {
  }

  lemma ScanDone(s: Shape, fs: seq<set<Cell>>, visited: set<Cell>)
    requires ScanInvariant(s, fs, visited, 0, |s|)
    ensures IsPartition(s, fs)
  {
  }

  /** The step of the scan that appends the component of an unvisited filled
      cell keeps the fragments a family of disjoint whole components. */
  lemma NewFragment(s: Shape, a: Cell, f: set<Cell>, fs: seq<set<Cell>>, visited: set<Cell>)
    requires Filled(s, a) && a !in visited && f == Component(s, a)
    requires UnionOf(fs, visited) && WholeComponents(s, fs)
    ensures f != {} && f <= Cells(s) && a in f
    ensures forall c :: c in f ==> Component(s, c) == f
    ensures forall i :: 0 <= i < |fs| ==> fs[i] !! f
  {
    ComponentOfStart(s, a);
    forall c | c in f ensures Component(s, c) == f {
      ComponentShared(s, a, c);
    }
    forall i | 0 <= i < |fs| ensures fs[i] !! f {
      assert a !in fs[i];
      forall c | c in fs[i] ensures c !in f {
        if c in f {
          ComponentShared(s, a, c);
          assert false;
        }
      }
    }
  }

  lemma Pick(xs: set<int>) returns (w: int)
    requires xs != {}
    ensures w in xs
  {
    if forall z :: z !in xs {
      assert false;
    }
    w :| w in xs;
  }

  /** min() of a non-empty set of integers. */
  function Least(xs: set<int>): (m: int)
    requires xs != {}
    ensures m in xs && forall z :: z in xs ==> m <= z
  {
    LeastExists(xs);
    var m :| m in xs && forall z :: z in xs ==> m <= z;
    m
  }

  lemma LeastExists(xs: set<int>)
    requires xs != {}
    ensures exists m :: m in xs && forall z :: z in xs ==> m <= z
    decreases |xs|
  {
    var z := Pick(xs);
    if xs - {z} != {} {
      LeastExists(xs - {z});
      var m :| m in xs - {z} && forall w :: w in xs - {z} ==> m <= w;
      forall w | w in xs ensures w == z || w in xs - {z} { }
      if z < m {
        assert forall w :: w in xs ==> z <= w;
      } else {
        assert forall w :: w in xs ==> m <= w;
      }
    } else {
      forall w | w in xs ensures w == z {
        assert w !in xs - {z};
      }
    }
  }

  /** max() of a non-empty set of integers. */
  function Greatest(xs: set<int>): (m: int)
    requires xs != {}
    ensures m in xs && forall z :: z in xs ==> z <= m
  {
    GreatestExists(xs);
    var m :| m in xs && forall z :: z in xs ==> z <= m;
    m
  }

  lemma GreatestExists(xs: set<int>)
    requires xs != {}
    ensures exists m :: m in xs && forall z :: z in xs ==> z <= m
    decreases |xs|
  {
    var z := Pick(xs);
    if xs - {z} != {} {
      GreatestExists(xs - {z});
      var m :| m in xs - {z} && forall w :: w in xs - {z} ==> w <= m;
      forall w | w in xs ensures w == z || w in xs - {z} { }
      if z > m {
        assert forall w :: w in xs ==> w <= z;
      } else {
        assert forall w :: w in xs ==> w <= m;
      }
    } else {
      forall w | w in xs ensures w == z {
        assert w !in xs - {z};
      }
    }
  }

  function Xs(f: set<Cell>): (r: set<int>)
    ensures f != {} ==> r != {}
  {
    var r := set c | c in f :: c.0;
    assert f != {} ==> r != {} by {
      if f != {} {
        var c :| c in f;
        assert c.0 in r;
      }
    }
    r
  }

  function Ys(f: set<Cell>): (r: set<int>)
    ensures f != {} ==> r != {}
  {
    var r := set c | c in f :: c.1;
    assert f != {} ==> r != {} by {
      if f != {} {
        var c :| c in f;
        assert c.1 in r;
      }
    }
    r
  }

  function MinX(f: set<Cell>): int requires f != {} { Least(Xs(f)) }
  function MinY(f: set<Cell>): int requires f != {} { Least(Ys(f)) }
  function MaxX(f: set<Cell>): int requires f != {} { Greatest(Xs(f)) }
  function MaxY(f: set<Cell>): int requires f != {} { Greatest(Ys(f)) }

  /** The bounding box of a fragment, as min/max over its cells' coordinates:
      every cell lies inside. */
  lemma BoxBounds(f: set<Cell>)
    requires f != {}
    ensures forall c :: c in f ==> MinX(f) <= c.0 <= MaxX(f) && MinY(f) <= c.1 <= MaxY(f)
  {
    forall c | c in f ensures MinX(f) <= c.0 <= MaxX(f) && MinY(f) <= c.1 <= MaxY(f) {
      assert c.0 in Xs(f) && c.1 in Ys(f);
    }
  }

  /** The w x h window of f whose corner is (x0, y0), as a 0/1 matrix. */
  function Window(f: set<Cell>, x0: int, y0: int, w: nat, h: nat): (r: Shape)
    ensures HasDims(r, w, h)
  {
    seq(h, i requires 0 <= i < h => seq(w, j requires 0 <= j < w => (j + x0, i + y0) in f))
  }

  lemma WindowCells(f: set<Cell>, x0: int, y0: int, w: nat, h: nat, l: Cell)
    requires forall c :: c in f ==> x0 <= c.0 < x0 + w && y0 <= c.1 < y0 + h
    ensures Filled(Window(f, x0, y0, w, h), l) <==> (l.0 + x0, l.1 + y0) in f
  {
    var c := (l.0 + x0, l.1 + y0);
    if c in f {
      assert Window(f, x0, y0, w, h)[l.1][l.0] == (c in f);
    }
  }

  /** fragment_shape: the fragment normalised to its own bounding box. */
  function FragmentShape(f: set<Cell>): (r: Shape)
    requires f != {}
  {
    BoxBounds(f);
    Window(f, MinX(f), MinY(f), MaxX(f) - MinX(f) + 1, MaxY(f) - MinY(f) + 1)
  }

  /** The normalised shape is a rectangle of the box's size and holds exactly
      the fragment's cells moved by minus the box's minimum corner. */
  lemma FragmentShapeCells(f: set<Cell>)
    requires f != {}
    ensures HasDims(FragmentShape(f), MaxX(f) - MinX(f) + 1, MaxY(f) - MinY(f) + 1)
    ensures forall l :: Filled(FragmentShape(f), l) <==> (l.0 + MinX(f), l.1 + MinY(f)) in f
  {
    BoxBounds(f);
    var x0, y0, w, h := MinX(f), MinY(f), MaxX(f) - MinX(f) + 1, MaxY(f) - MinY(f) + 1;
    forall l: Cell ensures Filled(FragmentShape(f), l) <==> (l.0 + x0, l.1 + y0) in f {
      WindowCells(f, x0, y0, w, h, l);
    }
  }

  /** Setting every cell of a fragment to 1 in the matrix under
      construction: the writes commute, so the loop over the set leaves the
      canvas with every in-range cell of the fragment set. */
  function Deposit(canvas: Shape, f: set<Cell>): (r: Shape)
    ensures |r| == |canvas| && forall i :: 0 <= i < |r| ==> |r[i]| == |canvas[i]|
  {
    seq(|canvas|, i requires 0 <= i < |canvas| =>
      seq(|canvas[i]|, j requires 0 <= j < |canvas[i]| => canvas[i][j] || (j, i) in f))
  }

  lemma DepositCells(canvas: Shape, f: set<Cell>, l: Cell)
    ensures Filled(Deposit(canvas, f), l) <==> Filled(canvas, l) || (InBounds(canvas, l) && l in f)
  {
  }

  /** A fragment lands in a new tetromino: exactly four cells forming a
      catalog shape in its catalog orientation. */
  predicate Extracts(f: set<Cell>) {
    |f| == 4 && Match(FragmentShape(f)).Some?
  }

  /** A fragment stays in the cluster: more than four cells, or four cells
      that match no catalog entry. Fragments of fewer than four cells are in
      neither case. */
  predicate Kept(f: set<Cell>) {
    |f| > 4 || (|f| == 4 && Match(FragmentShape(f)).None?)
  }

  /** The residual cluster matrix after the given fragments were handled in
      order: a blank matrix of the cluster's size with every kept fragment
      deposited. */
  function Residual(s: Shape, fs: seq<set<Cell>>): (r: Shape)
    ensures HasDims(r, Width(s), |s|)
  {
    if fs == [] then Blank(Width(s), |s|)
    else
      var r := Residual(s, fs[..|fs| - 1]);
      if Kept(fs[|fs| - 1]) then Deposit(r, fs[|fs| - 1]) else r
  }

  /** The tetromino built from an extracted fragment of the cluster `e`: at
      the cluster origin plus the fragment box's minimum corner, with the
      normalised shape and the matched catalog colour. */
  function FragmentEntity(e: Entity, f: set<Cell>): Entity
    requires Extracts(f)
  {
    Entity(e.x + MinX(f), e.y + MinY(f), FragmentShape(f), Match(FragmentShape(f)).value, 0)
  }

  /** The new tetrominoes, in fragment order. */
  function Extracted(e: Entity, fs: seq<set<Cell>>): seq<Entity> {
    if fs == [] then []
    else
      Extracted(e, fs[..|fs| - 1]) +
        (if Extracts(fs[|fs| - 1]) then [FragmentEntity(e, fs[|fs| - 1])] else [])
  }

  lemma HandledStep(e: Entity, s: Shape, fs: seq<set<Cell>>, k: nat)
    requires k < |fs|
    ensures Residual(s, fs[..k + 1]) ==
              if Kept(fs[k]) then Deposit(Residual(s, fs[..k]), fs[k]) else Residual(s, fs[..k])
    ensures Extracted(e, fs[..k + 1]) ==
              Extracted(e, fs[..k]) + if Extracts(fs[k]) then [FragmentEntity(e, fs[k])] else []
  {
    assert fs[..k + 1][..k] == fs[..k];
  }

  /** The body of the second loop of handle_fragments for one fragment of
      the cluster at (ox, oy): a matched four-cell fragment becomes a new
      tetromino; an unmatched four-cell fragment or a larger one is deposited
      into the matrix under construction; anything smaller is dropped. */
  method HandleFragment(ox: int, oy: int, f: set<Cell>, canvas: Shape) returns (next: Shape, created: seq<Tetromino>)
    ensures next == if Kept(f) then Deposit(canvas, f) else canvas
    ensures Vals(created) == if Extracts(f) then [FragmentEntity(Entity(ox, oy, [], White, 0), f)] else []
    ensures forall i :: 0 <= i < |created| ==> fresh(created[i])
  {
    next, created := canvas, [];
    if |f| == 4 {
      var minX, minY := MinX(f), MinY(f);
      var fragmentShape := FragmentShape(f);
      var m := Match(fragmentShape);
      if m.Some? {
        var nt := new Tetromino(ox + minX, oy + minY, fragmentShape, m.value);
        created := [nt];
      } else {
        next := Deposit(canvas, f);
      }
    } else if |f| > 4 {
      next := Deposit(canvas, f);
    }
  }

  /** Only the cluster's origin matters to a fragment's new tetromino. */
  lemma FragmentEntityOrigin(e: Entity, f: set<Cell>)
    requires Extracts(f)
    ensures FragmentEntity(e, f) == FragmentEntity(Entity(e.x, e.y, [], White, 0), f)
  {
  }

  /** The second loop of handle_fragments: every fragment in scan order for
      the cluster `e` at (ox, oy), building the residual matrix and the list
      of new tetrominoes. */
  method HandleAll(ox: int, oy: int, s: Shape, frags: seq<set<Cell>>, ghost e: Entity)
    returns (newShape: Shape, out: seq<Tetromino>)
    requires e.x == ox && e.y == oy
    ensures newShape == Residual(s, frags)
    ensures Vals(out) == Extracted(e, frags)
    ensures forall i :: 0 <= i < |out| ==> fresh(out[i])
    ensures Distinct(out)
  {
    newShape := Blank(Width(s), |s|);
    out := [];
    for k := 0 to |frags|
      invariant newShape == Residual(s, frags[..k])
      invariant Vals(out) == Extracted(e, frags[..k])
      invariant forall i :: 0 <= i < |out| ==> fresh(out[i])
      invariant Distinct(out)
    {
      ghost var prev := out;
      newShape, out := HandleNext(ox, oy, s, frags, k, e, newShape, out);
      forall i | 0 <= i < |out| ensures fresh(out[i]) {
        if i < |prev| {
          assert out[i] == prev[i];
        }
      }
    }
    assert frags[..|frags|] == frags;
  }

  /** One turn of the loop above, for fragment k. */
  method HandleNext(ox: int, oy: int, s: Shape, frags: seq<set<Cell>>, k: nat, ghost e: Entity,
                    canvas: Shape, done: seq<Tetromino>)
    returns (next: Shape, out: seq<Tetromino>)
    requires k < |frags| && e.x == ox && e.y == oy
    requires canvas == Residual(s, frags[..k]) && Vals(done) == Extracted(e, frags[..k]) && Distinct(done)
    ensures next == Residual(s, frags[..k + 1]) && Vals(out) == Extracted(e, frags[..k + 1]) && Distinct(out)
    ensures |out| >= |done| && out[..|done|] == done
    ensures forall i :: |done| <= i < |out| ==> fresh(out[i])
  {
    HandledStep(e, s, frags, k);
    if Extracts(frags[k]) {
      FragmentEntityOrigin(e, frags[k]);
    }
    var created;
    next, created := HandleFragment(ox, oy, frags[k], canvas);
    out := done + created;
    ValsAppend(done, created);
    assert |created| <= 1;
  }

  /** handle_fragments: split the cluster's shape into fragments, turn each
      recognisable four-cell fragment into a coloured tetromino, keep
      unmatched four-cell fragments and larger ones in a freshly built matrix
      of the same size, and drop the rest. A matrix without rows has no
      fragments and gives an empty matrix back. The matrix is rectangular, as
      every cluster's is, so every kept cell lands inside the new one. */
  method HandleFragments(t: Tetromino) returns (out: seq<Tetromino>, ghost fragments: seq<set<Cell>>)
    requires IsGrid(t.shape)
    modifies t`shape
    ensures fragments == Fragmentation(old(t.shape)) && IsPartition(old(t.shape), fragments)
    ensures t.shape == Residual(old(t.shape), fragments)
    ensures Vals(out) == Extracted(old(t.Value()), fragments)
    ensures forall k :: 0 <= k < |out| ==> fresh(out[k])
    ensures Distinct(out)
  {
    var s := t.shape;
    ghost var e := t.Value();
    var frags := ScanFragments(s);
    fragments := frags;
    var newShape;
    newShape, out := HandleAll(t.x, t.y, s, frags, e);
    t.shape := newShape;
  }

  /** A residual cell is filled exactly when it lies in the cluster's matrix
      and some kept fragment holds it. */
  lemma {:induction false} ResidualCells(s: Shape, fs: seq<set<Cell>>, l: Cell)
    ensures Filled(Residual(s, fs), l) <==>
              (0 <= l.0 < Width(s) && 0 <= l.1 < |s| && exists i :: 0 <= i < |fs| && Kept(fs[i]) && l in fs[i])
  {
    if fs != [] {
      var n := |fs| - 1;
      var init := fs[..n];
      ResidualCells(s, init, l);
      var r := Residual(s, init);
      if Kept(fs[n]) {
        DepositCells(r, fs[n], l);
      }
      if exists i :: 0 <= i < |fs| && Kept(fs[i]) && l in fs[i] {
        var i :| 0 <= i < |fs| && Kept(fs[i]) && l in fs[i];
        if i < n {
          assert init[i] == fs[i];
        }
      }
      if exists i :: 0 <= i < |init| && Kept(init[i]) && l in init[i] {
        var i :| 0 <= i < |init| && Kept(init[i]) && l in init[i];
        assert fs[i] == init[i];
      }
    }
  }

  /** On the fragments of the cluster's own matrix, a cell of fragment i is
      still filled afterwards exactly when fragment i is kept, and nothing
      outside the fragments is filled. */
  lemma ResidualOfPartition(s: Shape, fs: seq<set<Cell>>, l: Cell)
    requires IsGrid(s) && IsPartition(s, fs)
    ensures Filled(Residual(s, fs), l) ==> Filled(s, l)
    ensures forall i :: 0 <= i < |fs| && l in fs[i] ==> (Filled(Residual(s, fs), l) <==> Kept(fs[i]))
  {
    ResidualCells(s, fs, l);
    forall i | 0 <= i < |fs| && l in fs[i] ensures Filled(Residual(s, fs), l) <==> Kept(fs[i]) {
      assert l in Cells(s);
      OnlyFragment(fs, i, l);
    }
  }

  /** In pairwise disjoint fragments a cell lies in at most one of them. */
  lemma OnlyFragment(fs: seq<set<Cell>>, i: nat, l: Cell)
    requires forall a, b :: 0 <= a < b < |fs| ==> fs[a] !! fs[b]
    requires i < |fs| && l in fs[i]
    ensures forall k :: 0 <= k < |fs| && k != i ==> l !in fs[k]
  {
    forall k | 0 <= k < |fs| && k != i ensures l !in fs[k] {
      if k < i { assert fs[k] !! fs[i]; } else { assert fs[i] !! fs[k]; }
    }
  }

  /** An entity placed at the cluster origin plus the fragment box's
      minimum corner, with the fragment's normalised shape, covers in arena
      coordinates exactly the fragment's cells moved by the cluster's
      origin. */
  lemma PlacedCells(e: Entity, f: set<Cell>, n: Entity, c: Cell)
    requires f != {} && n.x == e.x + MinX(f) && n.y == e.y + MinY(f) && n.shape == FragmentShape(f)
    ensures Occupies(n, c) <==> (c.0 - e.x, c.1 - e.y) in f
  {
    BoxBounds(f);
    var l := (c.0 - n.x, c.1 - n.y);
    WindowCells(f, MinX(f), MinY(f), MaxX(f) - MinX(f) + 1, MaxY(f) - MinY(f) + 1, l);
    assert (l.0 + MinX(f), l.1 + MinY(f)) == (c.0 - e.x, c.1 - e.y);
  }

  lemma FragmentEntityCells(e: Entity, f: set<Cell>, c: Cell)
    requires Extracts(f)
    ensures Occupies(FragmentEntity(e, f), c) <==> (c.0 - e.x, c.1 - e.y) in f
  {
    PlacedCells(e, f, FragmentEntity(e, f), c);
  }

  /** A new tetromino is a catalog entry: its shape and colour are those of
      one catalog index, and its move cooldown starts at zero. */
  lemma FragmentEntityKind(e: Entity, f: set<Cell>)
    requires Extracts(f)
    ensures var n := FragmentEntity(e, f);
            n.cooldown == 0 && exists k :: 0 <= k < CatalogSize && n.shape == Shapes[k] && n.colour == Colours[k]
  {
    var fs := FragmentShape(f);
    MatchSpec(fs);
    var k :| 0 <= k < CatalogSize && Shapes[k] == fs;
    assert Match(fs) == Some(Colours[k]);
  }

  /** The entity `n` is the new tetromino of one of the extracted fragments. */
  ghost predicate FromFragment(e: Entity, fs: seq<set<Cell>>, n: Entity) {
    exists i :: 0 <= i < |fs| && Extracts(fs[i]) && n == FragmentEntity(e, fs[i])
  }

  lemma FromFragmentWitness(e: Entity, fs: seq<set<Cell>>, n: Entity, i: nat)
    requires i < |fs| && Extracts(fs[i]) && n == FragmentEntity(e, fs[i])
    ensures FromFragment(e, fs, n)
  {
  }

  /** The new tetrominoes are exactly those of the extracted fragments. */
  lemma {:induction false} ExtractedFrom(e: Entity, fs: seq<set<Cell>>)
    ensures forall j :: 0 <= j < |Extracted(e, fs)| ==> FromFragment(e, fs, Extracted(e, fs)[j])
    ensures forall i :: 0 <= i < |fs| && Extracts(fs[i]) ==> FragmentEntity(e, fs[i]) in Extracted(e, fs)
  {
    if fs != [] {
      var n := |fs| - 1;
      var init := fs[..n];
      ExtractedFrom(e, init);
      var xs := Extracted(e, fs);
      var pre := Extracted(e, init);
      assert xs == pre + if Extracts(fs[n]) then [FragmentEntity(e, fs[n])] else [];
      forall j | 0 <= j < |xs| ensures FromFragment(e, fs, xs[j]) {
        if j < |pre| {
          assert xs[j] == pre[j];
          assert FromFragment(e, init, pre[j]);
          var i :| 0 <= i < |init| && Extracts(init[i]) && pre[j] == FragmentEntity(e, init[i]);
          assert fs[i] == init[i];
          FromFragmentWitness(e, fs, xs[j], i);
        } else {
          FromFragmentWitness(e, fs, xs[j], n);
        }
      }
      forall i | 0 <= i < |fs| && Extracts(fs[i]) ensures FragmentEntity(e, fs[i]) in xs {
        if i < n {
          assert init[i] == fs[i];
          assert FragmentEntity(e, init[i]) in pre;
        } else {
          assert xs[|xs| - 1] == FragmentEntity(e, fs[n]);
        }
      }
    } else {
      assert Extracted(e, fs) == [];
    }
  }

  lemma ExtractedSource(e: Entity, fs: seq<set<Cell>>, j: nat) returns (k: nat)
    requires j < |Extracted(e, fs)|
    ensures k < |fs| && Extracts(fs[k]) && Extracted(e, fs)[j] == FragmentEntity(e, fs[k])
  {
    ExtractedFrom(e, fs);
    assert FromFragment(e, fs, Extracted(e, fs)[j]);
    k :| 0 <= k < |fs| && Extracts(fs[k]) && Extracted(e, fs)[j] == FragmentEntity(e, fs[k]);
  }

  lemma UncoveredByExtracted(e: Entity, fs: seq<set<Cell>>, l: Cell)
    requires forall k :: 0 <= k < |fs| && Extracts(fs[k]) ==> l !in fs[k]
    ensures forall j :: 0 <= j < |Extracted(e, fs)| ==> !Occupies(Extracted(e, fs)[j], (l.0 + e.x, l.1 + e.y))
  {
    forall j | 0 <= j < |Extracted(e, fs)| ensures !Occupies(Extracted(e, fs)[j], (l.0 + e.x, l.1 + e.y)) {
      var k := ExtractedSource(e, fs, j);
      UncoveredByFragment(e, fs[k], l, (l.0 + e.x, l.1 + e.y));
    }
  }

  lemma UncoveredByFragment(e: Entity, f: set<Cell>, l: Cell, c: Cell)
    requires Extracts(f) && l !in f && c == (l.0 + e.x, l.1 + e.y)
    ensures !Occupies(FragmentEntity(e, f), c)
  {
    FragmentEntityCells(e, f, c);
    assert (c.0 - e.x, c.1 - e.y) == l;
  }

  /** Fragments of fewer than four cells vanish: none of their cells stays
      in the residual matrix, and no new tetromino covers one. */
  lemma SmallFragmentsVanish(e: Entity, s: Shape, fs: seq<set<Cell>>, i: nat, l: Cell)
    requires IsGrid(s) && IsPartition(s, fs)
    requires i < |fs| && |fs[i]| < 4 && l in fs[i]
    ensures !Filled(Residual(s, fs), l)
    ensures forall j :: 0 <= j < |Extracted(e, fs)| ==> !Occupies(Extracted(e, fs)[j], (l.0 + e.x, l.1 + e.y))
  {
    ResidualOfPartition(s, fs, l);
    OnlyFragment(fs, i, l);
    UncoveredByExtracted(e, fs, l);
  }
}
