/** Line destruction in a cluster's matrix: rows and columns holding at least
    ten filled cells are cut out, both judged on the matrix as it was before
    any cut. */
module Lines {
  import opened Grid
  import opened Pieces

  /** A row or column is destroyed once it holds this many filled cells. */
  const LineLength := 10
  /** Points scored per destroyed row or column. */
  const PointsPerLine := 100

  /** The sum of a 0/1 row: the number of filled cells. */
  function Count(row: seq<bool>): (n: nat)
    ensures n <= |row|
  {
    if row == [] then 0 else Count(row[..|row| - 1]) + if row[|row| - 1] then 1 else 0
  }

  /** A row with no filled cell counts zero; a row with an unfilled cell counts
      less than its length. */
  lemma {:induction false} CountBounds(row: seq<bool>)
    ensures Count(row) == 0 <==> forall i :: 0 <= i < |row| ==> !row[i]
    ensures Count(row) == |row| <==> forall i :: 0 <= i < |row| ==> row[i]
  {
    if row != [] {
      var init := row[..|row| - 1];
      CountBounds(init);
      assert forall i :: 0 <= i < |init| ==> init[i] == row[i];
    }
  }

  predicate Full(row: seq<bool>) {
    Count(row) >= LineLength
  }

  /** Column x read top to bottom. */
  function Column(s: Shape, x: nat): (c: seq<bool>)
    requires forall y :: 0 <= y < |s| ==> x < |s[y]|
    ensures |c| == |s| && forall y :: 0 <= y < |s| ==> c[y] == s[y][x]
  {
    seq(|s|, y requires 0 <= y < |s| => s[y][x])
  }

  predicate Increasing(xs: seq<nat>) {
    forall i, j :: 0 <= i < j < |xs| ==> xs[i] < xs[j]
  }

  /** The indices below n of the full rows, in ascending order. */
  function FullRowsUpTo(s: Shape, n: nat): seq<nat>
    requires n <= |s|
  {
    if n == 0 then [] else FullRowsUpTo(s, n - 1) + if Full(s[n - 1]) then [n - 1] else []
  }

  function FullRows(s: Shape): seq<nat> {
    FullRowsUpTo(s, |s|)
  }

  /** The indices below n of the full columns, in ascending order. */
  function FullColumnsUpTo(s: Shape, n: nat): seq<nat>
    requires |s| > 0 && IsGrid(s) && n <= |s[0]|
  {
    if n == 0 then [] else FullColumnsUpTo(s, n - 1) + if Full(Column(s, n - 1)) then [n - 1] else []
  }

  function FullColumns(s: Shape): seq<nat>
    requires |s| > 0 && IsGrid(s)
  {
    FullColumnsUpTo(s, |s[0]|)
  }

  /** Appending (or not) an index above every element keeps the list
      ascending and adds exactly that index. */
  lemma AppendBelow(xs: seq<nat>, m: nat, add: bool)
    requires Increasing(xs) && forall v :: v in xs ==> v < m
    ensures var r := xs + if add then [m] else [];
            Increasing(r) && forall v :: v in r <==> v in xs || (add && v == m)
  {
    var r := xs + if add then [m] else [];
    forall i, j | 0 <= i < j < |r| ensures r[i] < r[j] {
      if j < |xs| {
        assert r[i] == xs[i] && r[j] == xs[j];
      } else {
        assert r[i] == xs[i] && xs[i] in xs && r[j] == m;
      }
    }
  }

  lemma {:induction false} FullRowsUpToSpec(s: Shape, n: nat)
    requires n <= |s|
    ensures Increasing(FullRowsUpTo(s, n))
    ensures forall y :: y in FullRowsUpTo(s, n) <==> 0 <= y < n && Full(s[y])
  {
    if n > 0 {
      FullRowsUpToSpec(s, n - 1);
      AppendBelow(FullRowsUpTo(s, n - 1), n - 1, Full(s[n - 1]));
    }
  }

  /** rows_to_remove holds, in ascending order, exactly the rows that sum to at
      least ten. */
  lemma FullRowsSpec(s: Shape)
    ensures Increasing(FullRows(s))
    ensures forall y :: y in FullRows(s) <==> 0 <= y < |s| && Full(s[y])
  {
    FullRowsUpToSpec(s, |s|);
  }

  lemma {:induction false} FullColumnsUpToSpec(s: Shape, n: nat)
    requires |s| > 0 && IsGrid(s) && n <= |s[0]|
    ensures Increasing(FullColumnsUpTo(s, n))
    ensures forall x :: x in FullColumnsUpTo(s, n) <==> 0 <= x < n && Full(Column(s, x))
  {
    if n > 0 {
      FullColumnsUpToSpec(s, n - 1);
      AppendBelow(FullColumnsUpTo(s, n - 1), n - 1, Full(Column(s, n - 1)));
    }
  }

  /** cols_to_remove holds, in ascending order, exactly the columns of the
      original matrix that sum to at least ten. */
  lemma FullColumnsSpec(s: Shape)
    requires |s| > 0 && IsGrid(s)
    ensures Increasing(FullColumns(s))
    ensures forall x :: x in FullColumns(s) <==> 0 <= x < |s[0]| && Full(Column(s, x))
  {
    FullColumnsUpToSpec(s, |s[0]|);
  }

  /** A matrix of fewer than ten rows has no full column: a column holds one
      cell per row. */
  lemma {:induction false} ShortNoFullColumns(s: Shape, n: nat)
    requires |s| > 0 && IsGrid(s) && n <= |s[0]| && |s| < LineLength
    ensures FullColumnsUpTo(s, n) == []
  {
    if n > 0 {
      ShortNoFullColumns(s, n - 1);
    }
  }

  /** The first loop of check_and_destroy_lines. */
  method FindFullRows(s: Shape) returns (rows: seq<nat>)
    ensures rows == FullRows(s)
  {
    rows := [];
    for y := 0 to |s|
      invariant rows == FullRowsUpTo(s, y)
    {
      if Count(s[y]) >= LineLength {
        rows := rows + [y];
      }
    }
  }

  /** The second loop of check_and_destroy_lines; it reads shape[0], so the
      matrix needs a first row. */
  method FindFullColumns(s: Shape) returns (cols: seq<nat>)
    requires |s| > 0 && IsGrid(s)
    ensures cols == FullColumns(s)
  {
    cols := [];
    for x := 0 to |s[0]|
      invariant cols == FullColumnsUpTo(s, x)
    {
      if Count(Column(s, x)) >= LineLength {
        cols := cols + [x];
      }
    }
  }

  /** The elements of xs whose index is not listed in drop, in order. */
  function Without<T>(xs: seq<T>, drop: seq<nat>): seq<T> {
    if xs == [] then []
    else Without(xs[..|xs| - 1], drop) + if |xs| - 1 in drop then [] else [xs[|xs| - 1]]
  }

  /** The survivors are exactly the elements at indices not dropped. */
  lemma {:induction false} WithoutMembers<T>(xs: seq<T>, drop: seq<nat>, v: T)
    ensures v in Without(xs, drop) <==> exists i :: 0 <= i < |xs| && i !in drop && xs[i] == v
  {
    if xs != [] {
      var n := |xs| - 1;
      var init := xs[..n];
      WithoutMembers(init, drop, v);
      assert forall i :: 0 <= i < n ==> init[i] == xs[i];
      if n !in drop && xs[n] == v {
        assert v in Without(xs, drop);
      }
    }
  }

  /** Only the dropped indices below |xs| matter. */
  lemma {:induction false} WithoutAgree<T>(xs: seq<T>, d1: seq<nat>, d2: seq<nat>)
    requires forall i :: 0 <= i < |xs| ==> (i in d1 <==> i in d2)
    ensures Without(xs, d1) == Without(xs, d2)
  {
    if xs != [] {
      WithoutAgree(xs[..|xs| - 1], d1, d2);
    }
  }

  /** Dropping an ascending list of distinct in-range indices shortens the
      sequence by the list's length. */
  lemma {:induction false} WithoutLength<T>(xs: seq<T>, drop: seq<nat>)
    requires Increasing(drop) && forall k :: 0 <= k < |drop| ==> drop[k] < |xs|
    ensures |Without(xs, drop)| == |xs| - |drop|
  {
    if xs != [] {
      var n := |xs| - 1;
      var init := xs[..n];
      if n in drop {
        var last := drop[..|drop| - 1];
        assert drop[|drop| - 1] == n by {
          var k :| 0 <= k < |drop| && drop[k] == n;
          assert drop[k] <= drop[|drop| - 1];
        }
        forall k | 0 <= k < |last| ensures last[k] < n {
          assert drop[k] < drop[|drop| - 1];
        }
        forall i | 0 <= i < n ensures i in drop <==> i in last {
          if i in drop {
            var k :| 0 <= k < |drop| && drop[k] == i;
            assert k < |drop| - 1 && last[k] == i;
          }
        }
        WithoutAgree(init, drop, last);
        WithoutLength(init, last);
      } else {
        WithoutLength(init, drop);
      }
    }
  }

  /** Every row with the cells at the listed column indices taken out. */
  function WithoutColumns(rows: Shape, cols: seq<nat>): (r: Shape)
    ensures |r| == |rows| && forall i :: 0 <= i < |r| ==> r[i] == Without(rows[i], cols)
  {
    seq(|rows|, i requires 0 <= i < |rows| => Without(rows[i], cols))
  }

  /** The matrix after the cut: full rows removed, then full columns of the
      original matrix removed from what is left. */
  function Cleared(s: Shape): Shape
    requires |s| > 0 && IsGrid(s)
  {
    WithoutColumns(Without(s, FullRows(s)), FullColumns(s))
  }

  /** lines_cleared */
  function LinesFound(s: Shape): nat
    requires |s| > 0 && IsGrid(s)
  {
    |FullRows(s)| + |FullColumns(s)|
  }

  /** The cut leaves an (R - rows) by (C - columns) matrix. */
  lemma ClearedDims(s: Shape)
    requires |s| > 0 && IsGrid(s)
    ensures |Cleared(s)| == |s| - |FullRows(s)|
    ensures forall i :: 0 <= i < |Cleared(s)| ==> |Cleared(s)[i]| == |s[0]| - |FullColumns(s)|
  {
    FullRowsSpec(s);
    FullColumnsSpec(s);
    var rows, cols := FullRows(s), FullColumns(s);
    assert forall k :: 0 <= k < |rows| ==> rows[k] in rows;
    assert forall k :: 0 <= k < |cols| ==> cols[k] in cols;
    WithoutLength(s, FullRows(s));
    var kept := Without(s, FullRows(s));
    forall i | 0 <= i < |kept| ensures |Without(kept[i], FullColumns(s))| == |s[0]| - |FullColumns(s)| {
      WithoutMembers(s, FullRows(s), kept[i]);
      var y :| 0 <= y < |s| && y !in FullRows(s) && s[y] == kept[i];
      WithoutLength(s[y], FullColumns(s));
    }
  }

  /** The rows of the cut matrix are exactly the rows of the original that
      are not full, each with the full columns taken out. */
  lemma ClearedRows(s: Shape, r: seq<bool>)
    requires |s| > 0 && IsGrid(s)
    ensures r in Cleared(s) <==>
              exists y :: 0 <= y < |s| && !Full(s[y]) && r == Without(s[y], FullColumns(s))
  {
    if r in Cleared(s) {
      ClearedRowFrom(s, r);
    }
    if exists y :: 0 <= y < |s| && !Full(s[y]) && r == Without(s[y], FullColumns(s)) {
      var y :| 0 <= y < |s| && !Full(s[y]) && r == Without(s[y], FullColumns(s));
      ClearedRowTo(s, y);
    }
  }

  lemma ClearedRowFrom(s: Shape, r: seq<bool>)
    requires |s| > 0 && IsGrid(s) && r in Cleared(s)
    ensures exists y :: 0 <= y < |s| && !Full(s[y]) && r == Without(s[y], FullColumns(s))
  {
    FullRowsSpec(s);
    var kept := Without(s, FullRows(s));
    var c := Cleared(s);
    var i :| 0 <= i < |c| && c[i] == r;
    WithoutMembers(s, FullRows(s), kept[i]);
    var y :| 0 <= y < |s| && y !in FullRows(s) && s[y] == kept[i];
    assert !Full(s[y]) && r == Without(s[y], FullColumns(s));
  }

  lemma ClearedRowTo(s: Shape, y: nat)
    requires |s| > 0 && IsGrid(s) && y < |s| && !Full(s[y])
    ensures Without(s[y], FullColumns(s)) in Cleared(s)
  {
    FullRowsSpec(s);
    var kept := Without(s, FullRows(s));
    var c := Cleared(s);
    WithoutMembers(s, FullRows(s), s[y]);
    var i :| 0 <= i < |kept| && kept[i] == s[y];
    assert c[i] == Without(s[y], FullColumns(s));
  }

  /** The cut removes every row exactly when every row is full; this is the
      case that leaves the cluster with no first row. */
  lemma ClearedEmpty(s: Shape)
    requires |s| > 0 && IsGrid(s)
    ensures Cleared(s) == [] <==> forall y :: 0 <= y < |s| ==> Full(s[y])
  {
    FullRowsSpec(s);
    var kept := Without(s, FullRows(s));
    if exists y :: 0 <= y < |s| && !Full(s[y]) {
      var y :| 0 <= y < |s| && !Full(s[y]);
      WithoutMembers(s, FullRows(s), s[y]);
    }
    if kept != [] {
      WithoutMembers(s, FullRows(s), kept[0]);
    }
  }

  lemma SomeFullRow(s: Shape)
    ensures |FullRows(s)| > 0 <==> exists y :: 0 <= y < |s| && Full(s[y])
  {
    FullRowsSpec(s);
    if exists y :: 0 <= y < |s| && Full(s[y]) {
      var y :| 0 <= y < |s| && Full(s[y]);
      assert y in FullRows(s);
    }
    if |FullRows(s)| > 0 {
      assert FullRows(s)[0] in FullRows(s);
    }
  }

  lemma SomeFullColumn(s: Shape)
    requires |s| > 0 && IsGrid(s)
    ensures |FullColumns(s)| > 0 <==> exists x :: 0 <= x < |s[0]| && Full(Column(s, x))
  {
    FullColumnsSpec(s);
    if exists x :: 0 <= x < |s[0]| && Full(Column(s, x)) {
      var x :| 0 <= x < |s[0]| && Full(Column(s, x));
      assert x in FullColumns(s);
    }
    if |FullColumns(s)| > 0 {
      assert FullColumns(s)[0] in FullColumns(s);
    }
  }

  /** Something is destroyed exactly when some row or some column of the
      original matrix is full. */
  lemma LinesFoundSpec(s: Shape)
    requires |s| > 0 && IsGrid(s)
    ensures LinesFound(s) > 0 <==>
              (exists y :: 0 <= y < |s| && Full(s[y])) || (exists x :: 0 <= x < |s[0]| && Full(Column(s, x)))
  {
    SomeFullRow(s);
    SomeFullColumn(s);
  }

  /** check_and_destroy_lines: find the full rows and full columns of the
      cluster's matrix, then cut them. When anything was found the score grows
      by 100 per line and the cluster takes the cut matrix; otherwise nothing
      changes. The source reads shape[0], so the matrix needs a first row. */
  method CheckAndDestroyLines(t: Tetromino, score: int) returns (destroyed: bool, newScore: int)
    requires |t.shape| > 0 && IsGrid(t.shape)
    modifies t`shape
    ensures destroyed <==> LinesFound(old(t.shape)) > 0
    ensures newScore == score + PointsPerLine * LinesFound(old(t.shape))
    ensures t.shape == if destroyed then Cleared(old(t.shape)) else old(t.shape)
  {
    var rowsToRemove := FindFullRows(t.shape);
    var colsToRemove := FindFullColumns(t.shape);
    var newShape := Without(t.shape, rowsToRemove);
    newShape := WithoutColumns(newShape, colsToRemove);
    var linesCleared := |rowsToRemove| + |colsToRemove|;
    newScore := score;
    destroyed := false;
    if linesCleared > 0 {
      newScore := score + linesCleared * PointsPerLine;
      t.shape := newShape;
      destroyed := true;
    }
  }
}
