/** The positional engine of `src/structs/matrix.rs`: a seam is a column
    number per row (vertical) or a row number per column (horizontal),
    neighbours are clamped at the border, and energies are plain numbers. */
module PositionalMatrix {
  import opened Seqs

  datatype Matrix<T> = Matrix(width: nat, vector: seq<T>)

  /** The column removed from each row, top to bottom. */
  datatype VerticalSeam = VerticalSeam(columns: seq<nat>)

  /** The row removed from each column, left to right. */
  datatype HorizontalSeam = HorizontalSeam(rows: seq<nat>)

  /** Number of complete rows. `src/structs/matrix.rs` defines its own
      `height` over its own `Matrix`, so this module does too. */
  function Height<T>(m: Matrix<T>): (h: nat)
    requires m.width > 0
    ensures h * m.width <= |m.vector| < h * m.width + m.width
  {
    |m.vector| / m.width
  }

  /** A matrix whose vector holds only complete rows. */
  predicate Full<T>(m: Matrix<T>) {
    m.width > 0 && |m.vector| == Height(m) * m.width
  }

  /** The row view of a full matrix. */
  function Cells<T>(m: Matrix<T>): (g: seq<seq<T>>)
    requires Full(m)
    ensures |g| == Height(m) && Rect(g, m.width)
  {
    Rows(m.vector, m.width, Height(m))
  }

  /** The row view of the complete rows; a trailing partial row is left out.
      On a full matrix this is the whole row view. */
  function CompleteRows<T>(m: Matrix<T>): (g: seq<seq<T>>)
    requires m.width > 0
    ensures |g| == Height(m) && Rect(g, m.width)
    ensures Full(m) ==> g == Cells(m)
  {
    var body := m.vector[..Height(m) * m.width];
    assert Full(m) ==> body == m.vector;
    Rows(body, m.width, Height(m))
  }

  /** Cell `(i, j)` of the complete rows is flat position `i * width + j`. */
  lemma CompleteRowsAt<T>(m: Matrix<T>, i: nat, j: nat)
    requires m.width > 0 && i < Height(m) && j < m.width
    ensures i * m.width + j < |m.vector| && CompleteRows(m)[i][j] == m.vector[i * m.width + j]
  {
    var n := Height(m) * m.width;
    var body := m.vector[..n];
    assert |body| == n;
    RowsAt(body, m.width, Height(m), i, j);
    var k := i * m.width + j;
    assert k < n && body[k] == m.vector[k];
  }

  /** `Vec::remove`: the entry at `k` goes, later entries move down by one. */
  function RemoveAt<T>(s: seq<T>, k: nat): (r: seq<T>)
    requires k < |s|
    ensures |r| == |s| - 1
    ensures forall i :: 0 <= i < |r| ==> r[i] == s[if i < k then i else i + 1]
  {
    s[..k] + s[k + 1..]
  }

  /** Every row of the seam names a column of the matrix. */
  predicate FitsVertical<T>(m: Matrix<T>, seam: VerticalSeam)
    requires Full(m)
  {
    |seam.columns| >= Height(m) && forall i :: 0 <= i < Height(m) ==> seam.columns[i] < m.width
  }

  /** `carve_vertical_seam`: row `i` loses the cell in column `columns[i]`,
      the other cells of the row keep their order and the width drops by one. */
  function CarveVertical<T>(m: Matrix<T>, seam: VerticalSeam): (r: Matrix<T>)
    requires Full(m) && FitsVertical(m, seam)
    ensures r.width == m.width - 1 && |r.vector| == Height(m) * r.width
    ensures r.width > 0 ==> Full(r) && Height(r) == Height(m)
    ensures forall i, j :: 0 <= i < Height(m) && 0 <= j < r.width ==>
      Rows(r.vector, r.width, Height(m))[i][j] == Cells(m)[i][if j < seam.columns[i] then j else j + 1]
  {
    var h, w := Height(m), m.width;
    var g := Cells(m);
    var kept := seq(h, i requires 0 <= i < h => RemoveAt(g[i], seam.columns[i]));
    RowsOfFlatten(kept, w - 1);
    HeightOf(h, w - 1);
    Matrix(w - 1, Flatten(kept))
  }

  lemma HeightOf(h: nat, w: nat)
    ensures w > 0 ==> (h * w) / w == h
  {
    if w > 0 {
      MulDiv(h, w);
    }
  }

  /** Every column of the seam names a row of the matrix. */
  predicate FitsHorizontal<T>(m: Matrix<T>, seam: HorizontalSeam)
    requires Full(m)
  {
    |seam.rows| >= m.width && forall j :: 0 <= j < m.width ==> seam.rows[j] < Height(m)
  }

  /** `carve_horizontal_seam`: column `j` loses the cell in row `rows[j]`,
      the other cells keep their column and their order, and the matrix is
      rebuilt row by row one row shorter. */
  function CarveHorizontal<T>(m: Matrix<T>, seam: HorizontalSeam): (r: Matrix<T>)
    requires Full(m) && FitsHorizontal(m, seam)
    ensures Height(m) > 0 && r.width == m.width && Full(r) && Height(r) == Height(m) - 1
    ensures forall i, j :: 0 <= i < Height(m) - 1 && 0 <= j < m.width ==>
      Cells(r)[i][j] == Cells(m)[if i < seam.rows[j] then i else i + 1][j]
  {
    var h, w := Height(m), m.width;
    assert seam.rows[0] < h;
    var g := Cells(m);
    var cols := seq(w, j requires 0 <= j < w => RemoveAt(Column(g, w, j), seam.rows[j]));
    var kept := seq(h - 1, i requires 0 <= i < h - 1 => seq(w, j requires 0 <= j < w => cols[j][i]));
    RowsOfFlatten(kept, w);
    MulDiv(h - 1, w);
    Matrix(w, Flatten(kept))
  }

  // ---------------------------------------------------------------------------
  // The clamped search over lines: rows for a vertical seam, columns for a
  // horizontal one.

  // The positional engine works on plain numbers with no removed cells, so
  // it keeps its own `Min` and `MinOf` over `int` instead of those of `Energies`.
  function Min(a: int, b: int): int {
    if a < b then a else b
  }

  /** The neighbour before `j`, clamped to `j` at the border. */
  function Before(j: nat): nat {
    if j == 0 then j else j - 1
  }

  /** The neighbour after `j`, clamped to `j` at the border. */
  function After(j: nat, w: nat): nat {
    if j == w - 1 then j else j + 1
  }

  /** `dp[k][j] = e[k][j] + min(dp[k-1][j], dp[k-1][j-1], dp[k-1][j+1])`,
      a neighbour outside the line replaced by `j` itself. */
  function DpAt(lines: seq<seq<int>>, w: nat, k: nat, j: nat): int
    requires Rect(lines, w) && k < |lines| && j < w
    decreases k
  {
    if k == 0 then lines[0][j]
    else
      Min(Min(DpAt(lines, w, k - 1, j), DpAt(lines, w, k - 1, Before(j))), DpAt(lines, w, k - 1, After(j, w)))
        + lines[k][j]
  }

  function DpLine(lines: seq<seq<int>>, w: nat, k: nat): (r: seq<int>)
    requires Rect(lines, w) && k < |lines|
    ensures |r| == w && forall j :: 0 <= j < w ==> r[j] == DpAt(lines, w, k, j)
  {
    seq(w, j requires 0 <= j < w => DpAt(lines, w, k, j))
  }

  function Table(lines: seq<seq<int>>, w: nat): (t: seq<seq<int>>)
    requires Rect(lines, w)
    ensures |t| == |lines| && Rect(t, w)
    ensures forall k :: 0 <= k < |lines| ==> t[k] == DpLine(lines, w, k)
  {
    seq(|lines|, k requires 0 <= k < |lines| => DpLine(lines, w, k))
  }

  /** The smallest entry of a non-empty line. */
  function MinOf(s: seq<int>): (m: int)
    requires |s| > 0
    ensures m in s && forall k :: 0 <= k < |s| ==> m <= s[k]
  {
    if |s| == 1 then s[0] else Min(MinOf(s[..|s| - 1]), s[|s| - 1])
  }

  /** The candidate scan over the first `n` entries: a strictly smaller
      entry restarts the list, an equal one (`else if`) is appended. */
  function MinScan(line: seq<int>, n: nat): (s: (seq<nat>, int))
    requires 0 < |line| && n <= |line|
    decreases n
  {
    if n == 0 then ([], line[0])
    else
      var prev := MinScan(line, n - 1);
      var v := line[n - 1];
      if v < prev.1 then ([n - 1], v)
      else if v == prev.1 then (prev.0 + [n - 1], prev.1)
      else prev
  }

  lemma {:induction false} MinScanLists(line: seq<int>, n: nat)
    requires 0 < |line| && 0 < n <= |line|
    ensures var s := MinScan(line, n);
      && |s.0| > 0
      && (forall k :: 0 <= k < |s.0| ==> s.0[k] < n && line[s.0[k]] == s.1)
      && (forall j :: 0 <= j < n ==> s.1 <= line[j])
      && (forall j :: 0 <= j < n && line[j] == s.1 ==> j in s.0)
      && (forall a, b :: 0 <= a < b < |s.0| ==> s.0[a] < s.0[b])
    decreases n
  {
    if n > 1 {
      MinScanLists(line, n - 1);
    }
  }

  /** The minimal positions of the last line, each listed once, in order. */
  function MinCandidates(line: seq<int>): (c: seq<nat>)
    requires |line| > 0
    ensures |c| > 0
    ensures forall k :: 0 <= k < |c| ==> c[k] < |line| && line[c[k]] == MinOf(line)
    ensures forall j :: 0 <= j < |line| && line[j] == MinOf(line) ==> j in c
    ensures forall a, b :: 0 <= a < b < |c| ==> c[a] < c[b]
  {
    MinScanLists(line, |line|);
    var s := MinScan(line, |line|);
    assert line[s.0[0]] == s.1;
    s.0
  }

  /** The random draw among the candidates. */
  function Pick(last: seq<int>, rand: nat): (j: nat)
    requires |last| > 0
    ensures j < |last| && last[j] == MinOf(last)
  {
    var c := MinCandidates(last);
    c[rand % |c|]
  }

  /** One backtrack step: the before-neighbour if strictly smaller than the
      straight one, then the after-neighbour unless the pick is strictly
      smaller, so ties go to the after side. */
  function StepBack(dp: seq<int>, mid: nat): (p: nat)
    requires mid < |dp|
    ensures p < |dp| && (p == Before(mid) || p == mid || p == After(mid, |dp|))
    ensures dp[p] == Min(Min(dp[mid], dp[Before(mid)]), dp[After(mid, |dp|)])
    ensures dp[After(mid, |dp|)] == Min(Min(dp[mid], dp[Before(mid)]), dp[After(mid, |dp|)]) ==> p == After(mid, |dp|)
    ensures p != mid && p == Before(mid) ==> dp[p] < dp[mid]
  {
    var w := |dp|;
    var pick := if dp[Before(mid)] < dp[mid] then Before(mid) else mid;
    if dp[pick] < dp[After(mid, w)] then pick else After(mid, w)
  }

  /** One position per line, each below `w`, consecutive positions at most one apart. */
  predicate ValidPath(path: seq<nat>, w: nat) {
    && (forall t :: 0 <= t < |path| ==> path[t] < w)
    && (forall t :: 0 <= t < |path| - 1 ==> Near(path, t))
  }

  predicate Near(path: seq<nat>, t: nat) {
    t + 1 < |path| && path[t + 1] <= path[t] + 1 && path[t] <= path[t + 1] + 1
  }

  function Backtrack(dp: seq<seq<int>>, w: nat, k: nat, last: nat): (path: seq<nat>)
    requires Rect(dp, w) && k < |dp| && last < w
    ensures |path| == k + 1 && path[k] == last && ValidPath(path, w)
    decreases k
  {
    if k == 0 then [last]
    else
      var init := Backtrack(dp, w, k - 1, StepBack(dp[k - 1], last));
      var path := init + [last];
      assert forall t :: 0 <= t < k - 1 ==> Near(init, t) ==> Near(path, t);
      path
  }

  /** Sum of the energies met along a path. */
  function Cost(lines: seq<seq<int>>, w: nat, path: seq<nat>): int
    requires Rect(lines, w) && |path| <= |lines| && forall t :: 0 <= t < |path| ==> path[t] < w
    decreases |path|
  {
    if |path| == 0 then 0
    else Cost(lines, w, path[..|path| - 1]) + lines[|path| - 1][path[|path| - 1]]
  }

  /** The search: pick a minimal cell of the last DP line, walk back, and
      report the path with its energy. */
  function Search(lines: seq<seq<int>>, w: nat, rand: nat): (r: (seq<nat>, int))
    requires Rect(lines, w) && |lines| > 0 && w > 0
    ensures |r.0| == |lines| && ValidPath(r.0, w)
    ensures r.1 == Cost(lines, w, r.0)
    ensures DpAt(lines, w, |lines| - 1, r.0[|lines| - 1]) == MinOf(DpLine(lines, w, |lines| - 1))
  {
    var k := |lines| - 1;
    var dp := Table(lines, w);
    var last := Pick(dp[k], rand);
    assert dp[k] == DpLine(lines, w, k) && dp[k][last] == DpAt(lines, w, k, last);
    var path := Backtrack(dp, w, k, last);
    (path, Cost(lines, w, path))
  }

  /** Along a backtracked path the energy sum is the DP value it ends at. */
  lemma {:induction false} BacktrackCost(lines: seq<seq<int>>, w: nat, k: nat, last: nat)
    requires Rect(lines, w) && k < |lines| && last < w
    ensures Cost(lines, w, Backtrack(Table(lines, w), w, k, last)) == DpAt(lines, w, k, last)
    decreases k
  {
    var dp := Table(lines, w);
    if k > 0 {
      var p := StepBack(dp[k - 1], last);
      var init := Backtrack(dp, w, k - 1, p);
      var path := Backtrack(dp, w, k, last);
      assert path[..k] == init;
      BacktrackCost(lines, w, k - 1, p);
    }
  }

  /** No valid path reaching position `j` of line `k` costs less than the DP value there. */
  lemma {:induction false} DpLowerBound(lines: seq<seq<int>>, w: nat, path: seq<nat>)
    requires Rect(lines, w) && 0 < |path| <= |lines| && ValidPath(path, w)
    ensures DpAt(lines, w, |path| - 1, path[|path| - 1]) <= Cost(lines, w, path)
    decreases |path|
  {
    var k := |path| - 1;
    if k > 0 {
      var init := path[..k];
      assert forall t :: 0 <= t < k - 1 ==> Near(path, t) ==> Near(init, t);
      DpLowerBound(lines, w, init);
      assert Near(path, k - 1);
      var a, j := path[k - 1], path[k];
      assert a == Before(j) || a == j || a == After(j, w);
    }
  }

  /** The energy the search reports is the minimum of the last DP line. */
  lemma SearchCost(lines: seq<seq<int>>, w: nat, rand: nat)
    requires Rect(lines, w) && |lines| > 0 && w > 0
    ensures Search(lines, w, rand).1 == MinOf(DpLine(lines, w, |lines| - 1))
  {
    var k := |lines| - 1;
    var r := Search(lines, w, rand);
    var dp := Table(lines, w);
    assert r.0 == Backtrack(dp, w, k, r.0[k]);
    BacktrackCost(lines, w, k, r.0[k]);
  }

  /** Every full-height valid path costs at least the minimum of the last DP line. */
  lemma PathAboveMin(lines: seq<seq<int>>, w: nat, q: seq<nat>)
    requires Rect(lines, w) && |lines| > 0 && w > 0
    requires |q| == |lines| && ValidPath(q, w)
    ensures MinOf(DpLine(lines, w, |lines| - 1)) <= Cost(lines, w, q)
  {
    var k := |lines| - 1;
    DpLowerBound(lines, w, q);
    assert DpLine(lines, w, k)[q[k]] == DpAt(lines, w, k, q[k]);
  }

  /** The search returns a cheapest path, and its energy is the minimum of the last DP line. */
  lemma SearchIsOptimal(lines: seq<seq<int>>, w: nat, rand: nat)
    requires Rect(lines, w) && |lines| > 0 && w > 0
    ensures Search(lines, w, rand).1 == MinOf(DpLine(lines, w, |lines| - 1))
    ensures forall q :: |q| == |lines| && ValidPath(q, w) ==> Search(lines, w, rand).1 <= Cost(lines, w, q)
  {
    SearchCost(lines, w, rand);
    forall q | |q| == |lines| && ValidPath(q, w)
      ensures MinOf(DpLine(lines, w, |lines| - 1)) <= Cost(lines, w, q)
    {
      PathAboveMin(lines, w, q);
    }
  }

  // ---------------------------------------------------------------------------
  // The fill loops, in place on the row view.

  /** Cells before `(i, j)` in row-major order hold their DP value, the others
      their energy. */
  ghost predicate RowsDone(rows: seq<seq<int>>, w: nat, dp: seq<seq<int>>, i: nat, j: nat)
    requires Rect(rows, w) && Rect(dp, w) && |dp| == |rows|
  {
    forall r, c :: 0 <= r < |rows| && 0 <= c < w ==>
      dp[r][c] == (if r < i || (r == i && c < j) then DpAt(rows, w, r, c) else rows[r][c])
  }

  /** The value the vertical fill stores at row `i`, column `j`. */
  function RowCell(dp: seq<seq<int>>, w: nat, i: nat, j: nat): int
    requires Rect(dp, w) && 0 < i < |dp| && j < w
  {
    Min(Min(dp[i - 1][j], dp[i - 1][Before(j)]), dp[i - 1][After(j, w)]) + dp[i][j]
  }

  lemma RowCellKeeps(rows: seq<seq<int>>, w: nat, dp: seq<seq<int>>, i: nat, j: nat)
    requires Rect(rows, w) && Rect(dp, w) && |dp| == |rows| && 0 < i < |rows| && j < w
    requires RowsDone(rows, w, dp, i, j)
    ensures RowsDone(rows, w, dp[i := dp[i][j := RowCell(dp, w, i, j)]], i, j + 1)
  {
    var v := RowCell(dp, w, i, j);
    assert v == DpAt(rows, w, i, j) by {
      assert dp[i][j] == rows[i][j];
    }
    var next := dp[i := dp[i][j := v]];
    assert forall r, c :: 0 <= r < |rows| && 0 <= c < w && (r != i || c != j) ==> next[r][c] == dp[r][c];
  }

  /** The vertical fill: rows `1..h` in order, each cell relaxed against the
      row above. */
  method FillRows(rows: seq<seq<int>>, w: nat) returns (dp: seq<seq<int>>)
    requires Rect(rows, w)
    ensures |dp| == |rows| && Rect(dp, w)
    ensures forall i, j :: 0 <= i < |rows| && 0 <= j < w ==> dp[i][j] == DpAt(rows, w, i, j)
  {
    dp := rows;
    var i := 1;
    while i < |rows|
      invariant 1 <= i && (i <= |rows| || |rows| == 0)
      invariant |dp| == |rows| && Rect(dp, w)
      invariant RowsDone(rows, w, dp, i, 0)
    {
      var j := 0;
      while j < w
        invariant 0 <= j <= w
        invariant |dp| == |rows| && Rect(dp, w)
        invariant RowsDone(rows, w, dp, i, j)
      {
        RowCellKeeps(rows, w, dp, i, j);
        dp := dp[i := dp[i][j := RowCell(dp, w, i, j)]];
        j := j + 1;
      }
      i := i + 1;
    }
  }

  /** The horizontal fill: columns `1..w` in order and, within a column, rows
      top to bottom, each cell relaxed against the finished column to its
      left. The loop order makes this the column recurrence exactly. */
  method FillColumns(rows: seq<seq<int>>, w: nat) returns (dp: seq<seq<int>>)
    requires Rect(rows, w)
    ensures |dp| == |rows| && Rect(dp, w)
    ensures forall i, j :: 0 <= i < |rows| && 0 <= j < w ==>
      dp[i][j] == DpAt(Transpose(rows, w), |rows|, j, i)
  {
    dp := rows;
    var j := 1;
    while j < w
      invariant 1 <= j <= w || w == 0
      invariant |dp| == |rows| && Rect(dp, w)
      invariant ColumnsDone(rows, w, dp, if w == 0 then 0 else j)
    {
      dp := FillColumn(rows, w, dp, j);
      j := j + 1;
    }
  }

  /** Columns before `j` hold their DP values, the others their energies. */
  ghost predicate ColumnsDone(rows: seq<seq<int>>, w: nat, dp: seq<seq<int>>, j: nat)
    requires Rect(rows, w) && Rect(dp, w) && |dp| == |rows|
  {
    && (forall r, c :: 0 <= r < |rows| && 0 <= c < j && c < w ==> dp[r][c] == DpAt(Transpose(rows, w), |rows|, c, r))
    && (forall r, c :: 0 <= r < |rows| && j <= c < w ==> dp[r][c] == rows[r][c])
  }

  /** Column `j` filled down to row `i`, every other column as `ColumnsDone(j)`. */
  ghost predicate ColumnPartial(rows: seq<seq<int>>, w: nat, dp: seq<seq<int>>, j: nat, i: nat)
    requires Rect(rows, w) && Rect(dp, w) && |dp| == |rows| && j < w
  {
    && (forall r, c :: 0 <= r < |rows| && 0 <= c < j ==> dp[r][c] == DpAt(Transpose(rows, w), |rows|, c, r))
    && (forall r :: 0 <= r < i && r < |rows| ==> dp[r][j] == DpAt(Transpose(rows, w), |rows|, j, r))
    && (forall r, c :: 0 <= r < |rows| && j <= c < w && (c > j || r >= i) ==> dp[r][c] == rows[r][c])
  }

  /** The value the horizontal fill stores at row `i`, column `j`. */
  function RelaxCell(dp: seq<seq<int>>, w: nat, i: nat, j: nat): int
    requires Rect(dp, w) && i < |dp| && 0 < j < w
  {
    Min(Min(dp[i][j - 1], dp[Before(i)][j - 1]), dp[After(i, |dp|)][j - 1]) + dp[i][j]
  }

  lemma RelaxCellKeeps(rows: seq<seq<int>>, w: nat, dp: seq<seq<int>>, j: nat, i: nat)
    requires Rect(rows, w) && Rect(dp, w) && |dp| == |rows| && 0 < j < w && i < |rows|
    requires ColumnPartial(rows, w, dp, j, i)
    ensures ColumnPartial(rows, w, dp[i := dp[i][j := RelaxCell(dp, w, i, j)]], j, i + 1)
  {
    var cols, h := Transpose(rows, w), |rows|;
    var v := RelaxCell(dp, w, i, j);
    assert v == DpAt(cols, h, j, i) by {
      assert dp[i][j] == rows[i][j] == cols[j][i];
    }
    var next := dp[i := dp[i][j := v]];
    assert forall r, c :: 0 <= r < h && 0 <= c < w && (r != i || c != j) ==> next[r][c] == dp[r][c];
  }

  /** The inner loop of the horizontal fill: column `j`, rows top to bottom. */
  method FillColumn(rows: seq<seq<int>>, w: nat, dp0: seq<seq<int>>, j: nat) returns (dp: seq<seq<int>>)
    requires Rect(rows, w) && Rect(dp0, w) && |dp0| == |rows| && 0 < j < w
    requires ColumnsDone(rows, w, dp0, j)
    ensures Rect(dp, w) && |dp| == |rows| && ColumnsDone(rows, w, dp, j + 1)
  {
    dp := dp0;
    var i := 0;
    while i < |rows|
      invariant 0 <= i <= |rows|
      invariant |dp| == |rows| && Rect(dp, w)
      invariant ColumnPartial(rows, w, dp, j, i)
    {
      RelaxCellKeeps(rows, w, dp, j, i);
      dp := dp[i := dp[i][j := RelaxCell(dp, w, i, j)]];
      i := i + 1;
    }
  }

  // ---------------------------------------------------------------------------
  // The two extractions.

  /** `extract_vertical_seam`: the search over the rows. */
  function ExtractVertical(m: Matrix<int>, rand: nat): (r: (VerticalSeam, int))
    requires Full(m) && Height(m) > 0
    ensures |r.0.columns| == Height(m) && ValidPath(r.0.columns, m.width)
    ensures r.1 == Cost(Cells(m), m.width, r.0.columns)
  {
    var s := Search(Cells(m), m.width, rand);
    (VerticalSeam(s.0), s.1)
  }

  /** `extract_horizontal_seam`: the search over the columns of the complete
      rows. Its fill, its scan down the last column and its walk back all stay
      within `height` rows, so a trailing partial row takes no part. */
  function ExtractHorizontal(m: Matrix<int>, rand: nat): (r: (HorizontalSeam, int))
    requires m.width > 0 && Height(m) > 0
    ensures |r.0.rows| == m.width && ValidPath(r.0.rows, Height(m))
    ensures r.1 == Cost(Transpose(CompleteRows(m), m.width), Height(m), r.0.rows)
  {
    var s := Search(Transpose(CompleteRows(m), m.width), Height(m), rand);
    (HorizontalSeam(s.0), s.1)
  }

  /** The vertical extraction returns a cheapest vertical seam. */
  lemma ExtractVerticalIsOptimal(m: Matrix<int>, rand: nat)
    requires Full(m) && Height(m) > 0
    ensures forall q :: |q| == Height(m) && ValidPath(q, m.width) ==>
      ExtractVertical(m, rand).1 <= Cost(Cells(m), m.width, q)
  {
    SearchIsOptimal(Cells(m), m.width, rand);
  }

  /** The horizontal extraction returns a cheapest horizontal seam through
      the complete rows. */
  lemma ExtractHorizontalIsOptimal(m: Matrix<int>, rand: nat)
    requires m.width > 0 && Height(m) > 0
    ensures forall q :: |q| == m.width && ValidPath(q, Height(m)) ==>
      ExtractHorizontal(m, rand).1 <= Cost(Transpose(CompleteRows(m), m.width), Height(m), q)
  {
    SearchIsOptimal(Transpose(CompleteRows(m), m.width), Height(m), rand);
  }

  // ---------------------------------------------------------------------------
  // The extraction example: energies `[0, 1, 3, 2, 0, 1, 3, 2, 0]` of width 3.

  function Sample(): Matrix<int> {
    Matrix(3, [0, 1, 3, 2, 0, 1, 3, 2, 0])
  }

  lemma SampleShape()
    ensures Full(Sample()) && Height(Sample()) == 3
    ensures Cells(Sample()) == [[0, 1, 3], [2, 0, 1], [3, 2, 0]]
    ensures Transpose(Cells(Sample()), 3) == [[0, 2, 3], [1, 0, 2], [3, 1, 0]]
  {
    var m := Sample();
    assert Height(m) == 3;
    var g := Cells(m);
    assert g[0] == m.vector[0..3] == [0, 1, 3];
    assert g[1] == m.vector[3..6] == [2, 0, 1];
    assert g[2] == m.vector[6..9] == [3, 2, 0];
    var t := Transpose(g, 3);
    assert t[0] == [0, 2, 3] && t[1] == [1, 0, 2] && t[2] == [3, 1, 0];
  }

  /** The search over `lines` returns the diagonal path `[0, 1, 2]` with energy 0. */
  lemma DiagonalSearch(lines: seq<seq<int>>, dp: seq<seq<int>>, rand: nat)
    requires Rect(lines, 3) && |lines| == 3 && dp == Table(lines, 3)
    requires lines[0][0] == 0 && lines[1][1] == 0 && lines[2][2] == 0
    requires dp[0][0] < dp[0][1] && dp[0][0] < dp[0][2]
    requires dp[1][1] < dp[1][2]
    requires dp[2][2] < dp[2][0] && dp[2][2] < dp[2][1]
    ensures Search(lines, 3, rand) == ([0, 1, 2], 0)
  {
    var last := dp[2];
    var c := MinCandidates(last);
    assert MinOf(last) == last[2];
    assert c == [2] by {
      assert 2 in c;
      if |c| > 1 {
        assert false;
      }
    }
    assert Pick(last, rand) == 2;
    assert StepBack(dp[1], 2) == 1;
    assert StepBack(dp[0], 1) == 0;
    var path := Backtrack(dp, 3, 2, 2);
    assert Backtrack(dp, 3, 0, 0) == [0];
    assert Backtrack(dp, 3, 1, 1) == [0] + [1];
    assert path == [0, 1] + [2];
    assert path[..2] == [0, 1] && [0, 1][..1] == [0] && [0][..0] == [];
    assert Cost(lines, 3, [0]) == 0;
    assert Cost(lines, 3, [0, 1]) == 0;
    assert Cost(lines, 3, path) == 0;
    assert Search(lines, 3, rand).0 == path == [0, 1, 2];
  }

  /** The vertical extraction of the example returns columns `[0, 1, 2]` and energy 0. */
  lemma SampleVerticalExtraction(rand: nat)
    ensures Full(Sample()) && Height(Sample()) > 0
    ensures ExtractVertical(Sample(), rand) == (VerticalSeam([0, 1, 2]), 0)
  {
    SampleShape();
    var g := Cells(Sample());
    var dp := Table(g, 3);
    assert DpLine(g, 3, 0) == [0, 1, 3];
    assert DpLine(g, 3, 1) == [2, 0, 2];
    assert DpLine(g, 3, 2) == [3, 2, 0];
    DiagonalSearch(g, dp, rand);
  }

  /** The horizontal extraction of the example returns rows `[0, 1, 2]` and energy 0. */
  lemma SampleHorizontalExtraction(rand: nat)
    ensures Full(Sample()) && Height(Sample()) > 0
    ensures ExtractHorizontal(Sample(), rand) == (HorizontalSeam([0, 1, 2]), 0)
  {
    SampleShape();
    assert CompleteRows(Sample()) == Cells(Sample());
    var t := Transpose(Cells(Sample()), 3);
    var dp := Table(t, 3);
    assert DpLine(t, 3, 0) == [0, 2, 3];
    assert DpLine(t, 3, 1) == [1, 0, 4];
    assert DpLine(t, 3, 2) == [3, 1, 0];
    DiagonalSearch(t, dp, rand);
  }

  // ---------------------------------------------------------------------------
  // The carving examples on a 4 by 4 grid of colours.

  datatype Color = Black | Red | Green | Yellow | Blue | Magenta | Cyan | White

  function ColorGrid(): Matrix<Color> {
    Matrix(4, [Black, Red, Green, Yellow, Blue, Magenta, Red, White,
               Cyan, Black, Blue, Yellow, Cyan, Red, Green, White])
  }

  lemma ColorGridShape()
    ensures Full(ColorGrid()) && Height(ColorGrid()) == 4
    ensures Cells(ColorGrid()) == [[Black, Red, Green, Yellow], [Blue, Magenta, Red, White],
                                   [Cyan, Black, Blue, Yellow], [Cyan, Red, Green, White]]
  {
    var m := ColorGrid();
    assert Height(m) == 4;
    var g := Cells(m);
    assert g[0] == m.vector[0..4] == [Black, Red, Green, Yellow];
    assert g[1] == m.vector[4..8] == [Blue, Magenta, Red, White];
    assert g[2] == m.vector[8..12] == [Cyan, Black, Blue, Yellow];
    assert g[3] == m.vector[12..16] == [Cyan, Red, Green, White];
  }

  /** A vertical carve is fixed by its cell-by-cell description. */
  lemma CarveVerticalMatches<T>(m: Matrix<T>, seam: VerticalSeam, expected: seq<seq<T>>)
    requires Full(m) && FitsVertical(m, seam) && m.width > 1
    requires |expected| == Height(m) && Rect(expected, m.width - 1)
    requires forall i, j :: 0 <= i < Height(m) && 0 <= j < m.width - 1 ==>
      expected[i][j] == Cells(m)[i][if j < seam.columns[i] then j else j + 1]
    ensures CarveVertical(m, seam) == Matrix(m.width - 1, Flatten(expected))
  {
    var r := CarveVertical(m, seam);
    var g := Rows(r.vector, r.width, Height(m));
    forall i | 0 <= i < |g| ensures g[i] == expected[i] {
      assert |g[i]| == |expected[i]| == r.width;
      forall j | 0 <= j < r.width ensures g[i][j] == expected[i][j] {
        var k := if j < seam.columns[i] then j else j + 1;
        assert g[i][j] == Cells(m)[i][k];
        assert expected[i][j] == Cells(m)[i][k];
      }
    }
    assert g == expected;
    FlattenOfRows(r.vector, r.width, Height(m));
  }

  /** A horizontal carve is fixed by its cell-by-cell description. */
  lemma CarveHorizontalMatches<T>(m: Matrix<T>, seam: HorizontalSeam, expected: seq<seq<T>>)
    requires Full(m) && FitsHorizontal(m, seam)
    requires |expected| + 1 == Height(m) && Rect(expected, m.width)
    requires forall i, j :: 0 <= i < |expected| && 0 <= j < m.width ==>
      expected[i][j] == Cells(m)[if i < seam.rows[j] then i else i + 1][j]
    ensures CarveHorizontal(m, seam) == Matrix(m.width, Flatten(expected))
  {
    var r := CarveHorizontal(m, seam);
    var g := Cells(r);
    forall i | 0 <= i < |g| ensures g[i] == expected[i] {
      assert |g[i]| == |expected[i]| == m.width;
      forall j | 0 <= j < m.width ensures g[i][j] == expected[i][j] {
        var k := if i < seam.rows[j] then i else i + 1;
        assert g[i][j] == Cells(m)[k][j];
        assert expected[i][j] == Cells(m)[k][j];
      }
    }
    assert g == expected;
    FlattenOfRows(r.vector, r.width, Height(r));
  }

  lemma VerticalExampleCells(m: Matrix<Color>, seam: VerticalSeam, e: seq<seq<Color>>)
    requires m == ColorGrid() && seam == VerticalSeam([0, 1, 2, 3])
    requires e == [[Red, Green, Yellow], [Blue, Red, White], [Cyan, Black, Yellow], [Cyan, Red, Green]]
    ensures Full(m) && FitsVertical(m, seam) && Height(m) == 4
    ensures forall i, j :: 0 <= i < 4 && 0 <= j < 3 ==>
      e[i][j] == Cells(m)[i][if j < seam.columns[i] then j else j + 1]
  {
    ColorGridShape();
    var g := Cells(m);
    forall i, j | 0 <= i < 4 && 0 <= j < 3
      ensures e[i][j] == g[i][if j < seam.columns[i] then j else j + 1]
    {
      assert i == 0 || i == 1 || i == 2 || i == 3;
      assert j == 0 || j == 1 || j == 2;
    }
  }

  /** Removing the diagonal `[0, 1, 2, 3]` leaves a 3-wide grid. */
  lemma VerticalCarvingExample(m: Matrix<Color>, seam: VerticalSeam)
    requires m == ColorGrid() && seam == VerticalSeam([0, 1, 2, 3])
    ensures Full(m) && FitsVertical(m, seam)
    ensures CarveVertical(m, seam)
      == Matrix(3, [Red, Green, Yellow, Blue, Red, White, Cyan, Black, Yellow, Cyan, Red, Green])
  {
    var e := [[Red, Green, Yellow], [Blue, Red, White], [Cyan, Black, Yellow], [Cyan, Red, Green]];
    VerticalExampleCells(m, seam, e);
    CarveVerticalMatches(m, seam, e);
    FlattenFour(e[0], e[1], e[2], e[3]);
  }

  lemma HorizontalExampleCells(m: Matrix<Color>, seam: HorizontalSeam, e: seq<seq<Color>>)
    requires m == ColorGrid() && seam == HorizontalSeam([0, 1, 1, 2])
    requires e == [[Blue, Red, Green, Yellow], [Cyan, Black, Blue, White], [Cyan, Red, Green, White]]
    ensures Full(m) && FitsHorizontal(m, seam) && Height(m) == 4
    ensures forall i, j :: 0 <= i < 3 && 0 <= j < 4 ==>
      e[i][j] == Cells(m)[if i < seam.rows[j] then i else i + 1][j]
  {
    ColorGridShape();
    var g := Cells(m);
    forall i, j | 0 <= i < 3 && 0 <= j < 4
      ensures e[i][j] == g[if i < seam.rows[j] then i else i + 1][j]
    {
      assert i == 0 || i == 1 || i == 2;
      assert j == 0 || j == 1 || j == 2 || j == 3;
    }
  }

  /** Removing rows `[0, 1, 1, 2]` column by column leaves a 3-high grid. */
  lemma HorizontalCarvingExample(m: Matrix<Color>, seam: HorizontalSeam)
    requires m == ColorGrid() && seam == HorizontalSeam([0, 1, 1, 2])
    ensures Full(m) && FitsHorizontal(m, seam)
    ensures CarveHorizontal(m, seam)
      == Matrix(4, [Blue, Red, Green, Yellow, Cyan, Black, Blue, White, Cyan, Red, Green, White])
  {
    var e := [[Blue, Red, Green, Yellow], [Cyan, Black, Blue, White], [Cyan, Red, Green, White]];
    HorizontalExampleCells(m, seam, e);
    CarveHorizontalMatches(m, seam, e);
    FlattenThree(e[0], e[1], e[2]);
  }
}
