/** The gap-skipping seam search of `src/seam_carver.rs`. Removed cells carry
    the infinite energy; when looking for the predecessors of a cell the search
    skips over them to the nearest live cell on either side. Both directions are
    the same search over "lines": rows for a vertical seam, columns for a
    horizontal one. */
module SeamCarver {
  import opened Seqs
  import opened Energies
  import opened TaggedMatrix

  // ---------------------------------------------------------------------------
  // The line recurrence.

  /** Cheapest predecessor of position `j`: the cell straight behind it, the
      nearest live cell before it and the nearest live cell after it on the
      previous line. Liveness is read from the energies `prevE`; the first two
      values come from `prevDp` and the after-side value from `after`. */
  function Best(prevDp: seq<Energy>, prevE: seq<Energy>, after: seq<Energy>, j: nat): Energy
    requires |prevDp| == |prevE| == |after| && j < |prevE|
  {
    Min(Min(prevDp[j], ValueAt(prevDp, NearestLiveBefore(prevE, j))),
        ValueAt(after, NearestLiveFrom(prevE, j + 1)))
  }

  function Relax(prevDp: seq<Energy>, prevE: seq<Energy>, after: seq<Energy>, cur: seq<Energy>): (r: seq<Energy>)
    requires |prevDp| == |prevE| == |after| == |cur|
    ensures |r| == |cur|
    ensures forall j :: 0 <= j < |cur| ==> r[j] == Add(Best(prevDp, prevE, after, j), cur[j])
  {
    seq(|cur|, j requires 0 <= j < |cur| => Add(Best(prevDp, prevE, after, j), cur[j]))
  }

  /** Position `j` of line `k` of the DP table. With `rawAfter` false this is
      the recurrence `dp[k][j] = e[k][j] + min(dp[k-1][j], dp[k-1][L], dp[k-1][R])`
      over the nearest live neighbours `L` and `R`; with `rawAfter` true the
      after-side neighbour contributes its raw energy instead of its DP value. */
  function DpAt(lines: seq<seq<Energy>>, w: nat, rawAfter: bool, k: nat, j: nat): Energy
    requires Rect(lines, w) && k < |lines| && j < w
    decreases k
  {
    if k == 0 then lines[0][j]
    else
      var e := lines[k - 1];
      var before := match NearestLiveBefore(e, j)
        case Some(a) => DpAt(lines, w, rawAfter, k - 1, a)
        case None => Inf;
      var after := match NearestLiveFrom(e, j + 1)
        case Some(b) => (if rawAfter then e[b] else DpAt(lines, w, rawAfter, k - 1, b))
        case None => Inf;
      Add(Min(Min(DpAt(lines, w, rawAfter, k - 1, j), before), after), lines[k][j])
  }

  /** Line `k` of the DP table. */
  function DpLine(lines: seq<seq<Energy>>, w: nat, rawAfter: bool, k: nat): (r: seq<Energy>)
    requires Rect(lines, w) && k < |lines|
    ensures |r| == w && forall j :: 0 <= j < w ==> r[j] == DpAt(lines, w, rawAfter, k, j)
  {
    seq(w, j requires 0 <= j < w => DpAt(lines, w, rawAfter, k, j))
  }

  /** Each DP line is the previous one relaxed by the current line's energies. */
  lemma DpLineStep(lines: seq<seq<Energy>>, w: nat, rawAfter: bool, k: nat)
    requires Rect(lines, w) && 0 < k < |lines|
    ensures var prev := DpLine(lines, w, rawAfter, k - 1);
      DpLine(lines, w, rawAfter, k) == Relax(prev, lines[k - 1], if rawAfter then lines[k - 1] else prev, lines[k])
  {
    var prev := DpLine(lines, w, rawAfter, k - 1);
    var after := if rawAfter then lines[k - 1] else prev;
    forall j | 0 <= j < w
      ensures DpAt(lines, w, rawAfter, k, j) == Add(Best(prev, lines[k - 1], after, j), lines[k][j])
    {
      DpStep(lines, w, rawAfter, k, j);
    }
  }

  lemma DpStep(lines: seq<seq<Energy>>, w: nat, rawAfter: bool, k: nat, j: nat)
    requires Rect(lines, w) && 0 < k < |lines| && j < w
    ensures var prev := DpLine(lines, w, rawAfter, k - 1);
      DpAt(lines, w, rawAfter, k, j)
        == Add(Best(prev, lines[k - 1], if rawAfter then lines[k - 1] else prev, j), lines[k][j])
  {
  }

  /** A removed cell gets a non-live DP value. */
  lemma DeadStaysDead(lines: seq<seq<Energy>>, w: nat, rawAfter: bool, k: nat, j: nat)
    requires Rect(lines, w) && k < |lines| && j < w && !Live(lines[k][j])
    ensures !Live(DpLine(lines, w, rawAfter, k)[j])
  {
  }

  // ---------------------------------------------------------------------------
  // Paths and their cost.

  /** `a` on one line may precede `b` on the next: straight, or the nearest
      live neighbour of `b` on either side. */
  predicate Adjacent(e: seq<Energy>, a: nat, b: nat)
    requires b < |e|
  {
    a == b || NearestLiveBefore(e, b) == Some(a) || NearestLiveFrom(e, b + 1) == Some(a)
  }

  /** One position per line, starting at line 0, each step between neighbours. */
  predicate ValidPath(lines: seq<seq<Energy>>, w: nat, path: seq<nat>)
    requires Rect(lines, w)
  {
    && |path| <= |lines|
    && (forall t :: 0 <= t < |path| ==> path[t] < w)
    && (forall t :: 0 <= t < |path| - 1 ==> Step(lines, path, t))
  }

  /** The move from line `t` to line `t + 1` of a path is between neighbours. */
  predicate Step(lines: seq<seq<Energy>>, path: seq<nat>, t: nat) {
    t + 1 < |path| && t < |lines| && path[t + 1] < |lines[t]| && Adjacent(lines[t], path[t], path[t + 1])
  }

  /** Energies met along a path. */
  function PathValues(lines: seq<seq<Energy>>, w: nat, path: seq<nat>): (vs: seq<Energy>)
    requires Rect(lines, w) && |path| <= |lines|
    requires forall t :: 0 <= t < |path| ==> path[t] < w
    ensures |vs| == |path|
  {
    seq(|path|, t requires 0 <= t < |path| => lines[t][path[t]])
  }

  /** Total energy of a path, folded left from zero as the source does. */
  function Cost(lines: seq<seq<Energy>>, w: nat, path: seq<nat>): Energy
    requires Rect(lines, w) && |path| <= |lines|
    requires forall t :: 0 <= t < |path| ==> path[t] < w
  {
    Sum(PathValues(lines, w, path))
  }

  lemma CostSnoc(lines: seq<seq<Energy>>, w: nat, path: seq<nat>)
    requires Rect(lines, w) && 0 < |path| <= |lines|
    requires forall t :: 0 <= t < |path| ==> path[t] < w
    ensures var n := |path|;
      Cost(lines, w, path) == Add(Cost(lines, w, path[..n - 1]), lines[n - 1][path[n - 1]])
  {
    var n := |path|;
    assert PathValues(lines, w, path)[..n - 1] == PathValues(lines, w, path[..n - 1]);
  }

  // ---------------------------------------------------------------------------
  // The bottom pick.

  /** `min_indices` after the first `n` entries of the last line, with the
      running minimum. The running minimum starts at entry 0; a strictly
      smaller entry empties the list and is pushed, and since the equality test
      that follows is not an `else`, it is pushed a second time. */
  function MinScan(line: seq<Energy>, n: nat): (s: (seq<nat>, Energy))
    requires 0 < |line| && n <= |line|
    ensures n == 0 ==> s == ([], line[0])
    ensures forall k :: 0 <= k < |s.0| ==> s.0[k] < n && line[s.0[k]] == s.1
    ensures forall j :: 0 <= j < n && line[j] == s.1 ==> j in s.0
    ensures n > 0 ==> |s.0| > 0 && forall j :: 0 <= j < n ==> LessEq(s.1, line[j])
    decreases n
  {
    if n == 0 then ([], line[0])
    else
      var prev := MinScan(line, n - 1);
      var v := line[n - 1];
      if Less(v, prev.1) then ([n - 1, n - 1], v)
      else if v == prev.1 then (prev.0 + [n - 1], prev.1)
      else prev
  }

  /** The candidate list of a whole line: every entry is a position holding
      the line's minimum, and every such position is listed. */
  function MinCandidates(line: seq<Energy>): (c: seq<nat>)
    requires |line| > 0
    ensures |c| > 0
    ensures forall k :: 0 <= k < |c| ==> c[k] < |line| && line[c[k]] == MinOf(line)
    ensures forall j :: 0 <= j < |line| && line[j] == MinOf(line) ==> j in c
  {
    var s := MinScan(line, |line|);
    assert line[s.0[0]] == s.1;
    MinUnique(line, s.1);
    s.0
  }

  lemma MinUnique(s: seq<Energy>, m: Energy)
    requires |s| > 0 && m in s && forall j :: 0 <= j < |s| ==> LessEq(m, s[j])
    ensures m == MinOf(s)
  {
    var k :| 0 <= k < |s| && s[k] == m;
    LessEqTotal(m, MinOf(s));
  }

  /** A new minimum after the first entry is listed twice, so the random pick
      favours it: on `[5, 3, 3]` the list is `[1, 1, 2]`. */
  lemma NewMinimumPushedTwice()
    ensures MinCandidates([Fin(5), Fin(3), Fin(3)]) == [1, 1, 2]
  {
    var line := [Fin(5), Fin(3), Fin(3)];
    assert MinScan(line, 0) == ([], Fin(5));
    assert line[0] == Fin(5) && line[1] == Fin(3) && line[2] == Fin(3);
    assert MinScan(line, 1) == ([] + [0], Fin(5));
    assert MinScan(line, 2) == ([1, 1], Fin(3));
    assert MinScan(line, 3) == ([1, 1] + [2], Fin(3));
  }

  // ---------------------------------------------------------------------------
  // Backtracking.

  /** One backtrack step from position `mid` of the line below: take the
      nearest live cell before `mid` if its DP value is strictly smaller, then
      the nearest live cell after `mid` unless the current pick is strictly
      smaller, so ties go to the after side. */
  function StepBack(dp: seq<Energy>, e: seq<Energy>, mid: nat): (p: nat)
    requires |dp| == |e| && mid < |e|
    ensures p < |e| && Adjacent(e, p, mid)
    ensures dp[p] == Best(dp, e, dp, mid)
    ensures NearestLiveBefore(e, mid) == Some(p) ==> Less(dp[p], dp[mid])
    ensures NearestLiveFrom(e, mid + 1) == Some(p) ==> LessEq(dp[p], dp[mid])
    ensures NearestLiveFrom(e, mid + 1).Some? && dp[NearestLiveFrom(e, mid + 1).value] == Best(dp, e, dp, mid) ==>
      p == NearestLiveFrom(e, mid + 1).value
  {
    var left := if NearestLiveBefore(e, mid).Some? then NearestLiveBefore(e, mid).value else mid;
    var pick := if Less(dp[left], dp[mid]) then left else mid;
    var right := if NearestLiveFrom(e, mid + 1).Some? then NearestLiveFrom(e, mid + 1).value else mid;
    if Less(dp[pick], dp[right]) then pick else right
  }

  /** The whole DP table, line by line. */
  function Table(lines: seq<seq<Energy>>, w: nat, rawAfter: bool): (t: seq<seq<Energy>>)
    requires Rect(lines, w)
    ensures |t| == |lines| && Rect(t, w)
    ensures forall k :: 0 <= k < |lines| ==> t[k] == DpLine(lines, w, rawAfter, k)
  {
    seq(|lines|, k requires 0 <= k < |lines| => DpLine(lines, w, rawAfter, k))
  }

  /** The backtracked positions of lines `0..k` through the DP table `dp`,
      ending at `last` on line `k`. */
  function Backtrack(lines: seq<seq<Energy>>, dp: seq<seq<Energy>>, w: nat, k: nat, last: nat): (path: seq<nat>)
    requires Rect(lines, w) && Rect(dp, w) && |dp| == |lines| && k < |lines| && last < w
    ensures |path| == k + 1 && path[k] == last
    ensures ValidPath(lines, w, path)
    decreases k
  {
    if k == 0 then [last]
    else
      var p := StepBack(dp[k - 1], lines[k - 1], last);
      var init := Backtrack(lines, dp, w, k - 1, p);
      ValidSnoc(lines, w, init, last);
      init + [last]
  }

  lemma ValidSnoc(lines: seq<seq<Energy>>, w: nat, init: seq<nat>, last: nat)
    requires Rect(lines, w) && ValidPath(lines, w, init) && 0 < |init| < |lines| && last < w
    requires Adjacent(lines[|init| - 1], init[|init| - 1], last)
    ensures ValidPath(lines, w, init + [last])
  {
    var path := init + [last];
    forall t | 0 <= t < |path| - 1 ensures Step(lines, path, t) {
      if t < |init| - 1 {
        assert Step(lines, init, t);
        assert path[t] == init[t] && path[t + 1] == init[t + 1];
      }
    }
  }

  /** The whole search over `lines`: candidates on the last DP line, the
      random pick `rand % |candidates|`, then the backtrack. */
  function LinePath(lines: seq<seq<Energy>>, w: nat, rawAfter: bool, rand: nat): (path: seq<nat>)
    requires Rect(lines, w) && |lines| > 0 && w > 0
    ensures |path| == |lines| && ValidPath(lines, w, path)
  {
    var k := |lines| - 1;
    Backtrack(lines, Table(lines, w, rawAfter), w, k, Pick(DpLine(lines, w, rawAfter, k), rand))
  }

  /** The search ends on a minimal cell of the last DP line. */
  lemma LinePathEndsAtMin(lines: seq<seq<Energy>>, w: nat, rawAfter: bool, rand: nat)
    requires Rect(lines, w) && |lines| > 0 && w > 0
    ensures DpLine(lines, w, rawAfter, |lines| - 1)[LinePath(lines, w, rawAfter, rand)[|lines| - 1]]
      == MinOf(DpLine(lines, w, rawAfter, |lines| - 1))
  {
    var k := |lines| - 1;
    var line := DpLine(lines, w, rawAfter, k);
    var last := Pick(line, rand);
    var path := LinePath(lines, w, rawAfter, rand);
    assert path[k] == last by {
      var dp := Table(lines, w, rawAfter);
      assert path == Backtrack(lines, dp, w, k, last);
    }
  }

  /** The random draw among the candidates of the last DP line. */
  function Pick(last: seq<Energy>, rand: nat): (j: nat)
    requires |last| > 0
    ensures j < |last| && last[j] == MinOf(last)
  {
    var cands := MinCandidates(last);
    cands[rand % |cands|]
  }

  // ---------------------------------------------------------------------------
  // The clean recurrence is exact.

  /** Along a backtracked path of the clean recurrence, the path's cost is the
      DP value it ends at. */
  lemma {:induction false} BacktrackCost(lines: seq<seq<Energy>>, w: nat, dp: seq<seq<Energy>>, k: nat, last: nat)
    requires Rect(lines, w) && k < |lines| && last < w && dp == Table(lines, w, false)
    ensures Cost(lines, w, Backtrack(lines, dp, w, k, last)) == dp[k][last]
    decreases k
  {
    if k > 0 {
      var p := StepBack(dp[k - 1], lines[k - 1], last);
      assert Cost(lines, w, Backtrack(lines, dp, w, k - 1, p)) == dp[k - 1][p] by {
        BacktrackCost(lines, w, dp, k - 1, p);
      }
      BacktrackStepCost(lines, w, dp, k, last);
    } else {
      var path := Backtrack(lines, dp, w, k, last);
      assert path == [last] && dp[0][last] == lines[0][last];
      CostSnoc(lines, w, path);
      assert Cost(lines, w, path[..0]) == Fin(0);
    }
  }

  /** One backtrack step adds the current cell's energy to the cost, as the
      clean recurrence adds it to the DP value of the chosen predecessor. */
  lemma BacktrackStepCost(lines: seq<seq<Energy>>, w: nat, dp: seq<seq<Energy>>, k: nat, last: nat)
    requires Rect(lines, w) && 0 < k < |lines| && last < w && dp == Table(lines, w, false)
    requires var p := StepBack(dp[k - 1], lines[k - 1], last);
      Cost(lines, w, Backtrack(lines, dp, w, k - 1, p)) == dp[k - 1][p]
    ensures Cost(lines, w, Backtrack(lines, dp, w, k, last)) == dp[k][last]
  {
    var path := Backtrack(lines, dp, w, k, last);
    var p := StepBack(dp[k - 1], lines[k - 1], last);
    var init := Backtrack(lines, dp, w, k - 1, p);
    assert Cost(lines, w, path) == Add(Cost(lines, w, init), lines[k][last]) by {
      assert path == init + [last];
      assert path[..k] == init;
      CostSnoc(lines, w, path);
    }
    assert dp[k][last] == Add(dp[k - 1][p], lines[k][last]) by {
      assert dp[k - 1] == DpLine(lines, w, false, k - 1) && dp[k][last] == DpAt(lines, w, false, k, last);
      DpStep(lines, w, false, k, last);
    }
  }

  /** `Best` is at most the value of each neighbour it considers. */
  lemma BestBelowNeighbours(prevDp: seq<Energy>, prevE: seq<Energy>, after: seq<Energy>, j: nat, a: nat)
    requires |prevDp| == |prevE| == |after| && j < |prevE| && Adjacent(prevE, a, j)
    ensures a < |prevE|
    ensures a == j || NearestLiveBefore(prevE, j) == Some(a) ==> LessEq(Best(prevDp, prevE, after, j), prevDp[a])
    ensures NearestLiveFrom(prevE, j + 1) == Some(a) ==> LessEq(Best(prevDp, prevE, after, j), after[a])
  {
    var inner := Min(prevDp[j], ValueAt(prevDp, NearestLiveBefore(prevE, j)));
    var b := Best(prevDp, prevE, after, j);
    if a == j {
      LessEqTrans(b, inner, prevDp[j]);
    }
    if NearestLiveBefore(prevE, j) == Some(a) {
      LessEqTrans(b, inner, prevDp[a]);
    }
  }

  /** No path reaching position `j` of line `k` costs less than the clean DP value there. */
  lemma {:induction false} DpLowerBound(lines: seq<seq<Energy>>, w: nat, path: seq<nat>)
    requires Rect(lines, w) && ValidPath(lines, w, path) && |path| > 0
    ensures var k := |path| - 1; LessEq(DpLine(lines, w, false, k)[path[k]], Cost(lines, w, path))
    decreases |path|
  {
    var k := |path| - 1;
    CostSnoc(lines, w, path);
    if k > 0 {
      var init := path[..k];
      forall t | 0 <= t < |init| - 1 ensures Step(lines, init, t) {
        assert Step(lines, path, t);
      }
      DpLowerBound(lines, w, init);
      var dp := DpLine(lines, w, false, k - 1);
      var a, j := path[k - 1], path[k];
      assert Step(lines, path, k - 1);
      DpStep(lines, w, false, k, j);
      BestBelowNeighbours(dp, lines[k - 1], dp, j, a);
      LessEqTrans(Best(dp, lines[k - 1], dp, j), dp[a], Cost(lines, w, init));
      AddMono(Best(dp, lines[k - 1], dp, j), Cost(lines, w, init), lines[k][j]);
    }
  }

  /** With the clean recurrence the search's path costs the minimum of the last DP line. */
  lemma CleanPathCost(lines: seq<seq<Energy>>, w: nat, rand: nat)
    requires Rect(lines, w) && |lines| > 0 && w > 0
    ensures Cost(lines, w, LinePath(lines, w, false, rand)) == MinOf(DpLine(lines, w, false, |lines| - 1))
  {
    var k := |lines| - 1;
    var path := LinePath(lines, w, false, rand);
    var dp := Table(lines, w, false);
    assert Cost(lines, w, path) == dp[k][path[k]] by {
      assert path == Backtrack(lines, dp, w, k, path[k]);
      BacktrackCost(lines, w, dp, k, path[k]);
    }
    assert dp[k] == DpLine(lines, w, false, k);
    LinePathEndsAtMin(lines, w, false, rand);
  }

  /** With the clean recurrence no full path costs less than the minimum of the last DP line. */
  lemma CleanPathBelow(lines: seq<seq<Energy>>, w: nat, q: seq<nat>)
    requires Rect(lines, w) && |lines| > 0 && w > 0
    requires ValidPath(lines, w, q) && |q| == |lines|
    ensures LessEq(MinOf(DpLine(lines, w, false, |lines| - 1)), Cost(lines, w, q))
  {
    var k := |lines| - 1;
    var last := DpLine(lines, w, false, k);
    DpLowerBound(lines, w, q);
    LessEqTrans(MinOf(last), last[q[k]], Cost(lines, w, q));
  }

  /** With the clean recurrence the search returns a cheapest full path: its
      cost is the minimum of the last DP line and no full path costs less. */
  lemma CleanPathIsOptimal(lines: seq<seq<Energy>>, w: nat, rand: nat)
    requires Rect(lines, w) && |lines| > 0 && w > 0
    ensures var path := LinePath(lines, w, false, rand);
      && Cost(lines, w, path) == MinOf(DpLine(lines, w, false, |lines| - 1))
      && forall q :: ValidPath(lines, w, q) && |q| == |lines| ==> LessEq(Cost(lines, w, path), Cost(lines, w, q))
  {
    CleanPathCost(lines, w, rand);
    forall q | ValidPath(lines, w, q) && |q| == |lines|
      ensures LessEq(MinOf(DpLine(lines, w, false, |lines| - 1)), Cost(lines, w, q))
    {
      CleanPathBelow(lines, w, q);
    }
  }

  // ---------------------------------------------------------------------------
  // The two extractions on a tagged energy matrix.

  /** The extractions index the last row and read every row in full. */
  predicate Extractable(m: Matrix<Energy>) {
    WellFormed(m) && Height(m) > 0 && |m.vector| == Height(m) * m.width
  }

  function VerticalPath(m: Matrix<Energy>, rand: nat): (path: seq<nat>)
    requires Extractable(m)
    ensures |path| == Height(m) && ValidPath(CellGrid(m), m.width, path)
  {
    LinePath(CellGrid(m), m.width, false, rand)
  }

  /** `extract_vertical_seam`: the tags of the path cells, row by row, and the
      energy summed along the path. */
  function ExtractVerticalSeam(m: Matrix<Energy>, rand: nat): (r: (Seam, Energy))
    requires Extractable(m)
    ensures r.0.isVertical && |r.0.indices| == Height(m)
    ensures forall i :: 0 <= i < Height(m) ==>
      r.0.indices[i] == TagGrid(m)[i][VerticalPath(m, rand)[i]]
    ensures r.1 == Cost(CellGrid(m), m.width, VerticalPath(m, rand))
  {
    var path := VerticalPath(m, rand);
    (VerticalSeamAlong(m, path), Cost(CellGrid(m), m.width, path))
  }

  /** The tags met along a vertical path, one per row. */
  function VerticalSeamAlong(m: Matrix<Energy>, path: seq<nat>): (s: Seam)
    requires Extractable(m) && |path| == Height(m)
    requires forall i :: 0 <= i < |path| ==> path[i] < m.width
    ensures s.isVertical && |s.indices| == Height(m)
    ensures forall i :: 0 <= i < Height(m) ==> s.indices[i] == TagGrid(m)[i][path[i]]
  {
    var tags := TagGrid(m);
    Seam(seq(Height(m), i requires 0 <= i < Height(m) => tags[i][path[i]]), true)
  }

  /** The tags met along a horizontal path, one per column. */
  function HorizontalSeamAlong(m: Matrix<Energy>, path: seq<nat>): (s: Seam)
    requires Extractable(m) && |path| == m.width
    requires forall k :: 0 <= k < |path| ==> path[k] < Height(m)
    ensures !s.isVertical && |s.indices| == m.width
    ensures forall k :: 0 <= k < m.width ==> s.indices[k] == TagGrid(m)[path[k]][k]
  {
    var tags := TagGrid(m);
    Seam(seq(m.width, k requires 0 <= k < m.width => tags[path[k]][k]), false)
  }

  /** The vertical seam is a cheapest seam, and its energy is the minimum of
      the last DP row. */
  lemma VerticalSeamIsOptimal(m: Matrix<Energy>, rand: nat)
    requires Extractable(m)
    ensures var g := CellGrid(m);
      && ExtractVerticalSeam(m, rand).1 == MinOf(DpLine(g, m.width, false, Height(m) - 1))
      && forall q :: ValidPath(g, m.width, q) && |q| == Height(m) ==>
           LessEq(ExtractVerticalSeam(m, rand).1, Cost(g, m.width, q))
  {
    var g := CellGrid(m);
    var c := ExtractVerticalSeam(m, rand).1;
    assert c == Cost(g, m.width, LinePath(g, m.width, false, rand)) by {
      assert VerticalPath(m, rand) == LinePath(g, m.width, false, rand);
    }
    CleanPathCost(g, m.width, rand);
    forall q | ValidPath(g, m.width, q) && |q| == Height(m) ensures LessEq(c, Cost(g, m.width, q)) {
      CleanPathBelow(g, m.width, q);
    }
  }

  /** Columns of the energy matrix, the lines of the horizontal search. */
  function Columns(m: Matrix<Energy>): (cols: seq<seq<Energy>>)
    requires Extractable(m)
    ensures |cols| == m.width && Rect(cols, Height(m))
  {
    Transpose(CellGrid(m), m.width)
  }

  /** `extract_horizontal_seam` as written: the loop runs row by row, so when
      column `j` is filled the cells below in column `j - 1` still hold their raw
      energy, and that is what the after-side predecessor contributes. */
  function HorizontalPath(m: Matrix<Energy>, rand: nat): (path: seq<nat>)
    requires Extractable(m)
    ensures |path| == m.width && ValidPath(Columns(m), Height(m), path)
  {
    LinePath(Columns(m), Height(m), true, rand)
  }

  function ExtractHorizontalSeam(m: Matrix<Energy>, rand: nat): (r: (Seam, Energy))
    requires Extractable(m)
    ensures !r.0.isVertical && |r.0.indices| == m.width
    ensures forall k :: 0 <= k < m.width ==>
      r.0.indices[k] == TagGrid(m)[HorizontalPath(m, rand)[k]][k]
    ensures r.1 == Cost(Columns(m), Height(m), HorizontalPath(m, rand))
  {
    var path := HorizontalPath(m, rand);
    (HorizontalSeamAlong(m, path), Cost(Columns(m), Height(m), path))
  }

  /** The corrected horizontal search: the clean recurrence over columns. */
  function HorizontalPathCorrected(m: Matrix<Energy>, rand: nat): (path: seq<nat>)
    requires Extractable(m)
    ensures |path| == m.width && ValidPath(Columns(m), Height(m), path)
  {
    LinePath(Columns(m), Height(m), false, rand)
  }

  function ExtractHorizontalSeamCorrected(m: Matrix<Energy>, rand: nat): (r: (Seam, Energy))
    requires Extractable(m)
    ensures !r.0.isVertical && |r.0.indices| == m.width
    ensures forall k :: 0 <= k < m.width ==>
      r.0.indices[k] == TagGrid(m)[HorizontalPathCorrected(m, rand)[k]][k]
    ensures r.1 == Cost(Columns(m), Height(m), HorizontalPathCorrected(m, rand))
  {
    var path := HorizontalPathCorrected(m, rand);
    (HorizontalSeamAlong(m, path), Cost(Columns(m), Height(m), path))
  }

  /** The corrected horizontal seam is a cheapest seam. */
  lemma HorizontalSeamCorrectedIsOptimal(m: Matrix<Energy>, rand: nat)
    requires Extractable(m)
    ensures var cols := Columns(m);
      && ExtractHorizontalSeamCorrected(m, rand).1 == MinOf(DpLine(cols, Height(m), false, m.width - 1))
      && forall q :: ValidPath(cols, Height(m), q) && |q| == m.width ==>
           LessEq(ExtractHorizontalSeamCorrected(m, rand).1, Cost(cols, Height(m), q))
  {
    var cols := Columns(m);
    var c := ExtractHorizontalSeamCorrected(m, rand).1;
    assert c == Cost(cols, Height(m), LinePath(cols, Height(m), false, rand)) by {
      assert HorizontalPathCorrected(m, rand) == LinePath(cols, Height(m), false, rand);
    }
    CleanPathCost(cols, Height(m), rand);
    forall q | ValidPath(cols, Height(m), q) && |q| == m.width ensures LessEq(c, Cost(cols, Height(m), q)) {
      CleanPathBelow(cols, Height(m), q);
    }
  }

  // ---------------------------------------------------------------------------
  // Choosing the next seam.

  /** Which seam the carving loop removes next, for a window of `winW` by
      `winH` and an image of `w` by `h`: `None` when the image already fits,
      `Some(true)` for a vertical seam and `Some(false)` for a horizontal one.
      `vE` and `hE` are the energies of the two candidate seams. */
  function Orientation(winW: nat, winH: nat, w: nat, h: nat, vE: Energy, hE: Energy): (r: Option<bool>)
    ensures r.None? <==> winW >= w && winH >= h
    ensures r == Some(true) ==> w > winW
    ensures r == Some(false) ==> h > winH
    ensures w > winW && h > winH ==> r == Some(Less(vE, hE))
  {
    if winW >= w && winH >= h then None
    else if winW >= w then Some(false)
    else if winH >= h then Some(true)
    else Some(Less(vE, hE))
  }

  /** One round of the carving loop: extract the seam `Orientation` asks for.
      `randV` and `randH` stand for the draws of the two extractions. The
      horizontal candidate comes from the as-written search. */
  function NextSeam(m: Matrix<Energy>, winW: nat, winH: nat, randV: nat, randH: nat): (r: Option<Seam>)
    requires Extractable(m)
    ensures r.None? <==> winW >= m.width && winH >= Height(m)
    ensures r.Some? && r.value.isVertical ==> m.width > winW && r.value == ExtractVerticalSeam(m, randV).0
    ensures r.Some? && !r.value.isVertical ==> Height(m) > winH && r.value == ExtractHorizontalSeam(m, randH).0
    ensures m.width > winW && Height(m) > winH ==>
      r.Some? && (r.value.isVertical <==> Less(ExtractVerticalSeam(m, randV).1, ExtractHorizontalSeam(m, randH).1))
  {
    var v := ExtractVerticalSeam(m, randV);
    var h := ExtractHorizontalSeam(m, randH);
    match Orientation(winW, winH, m.width, Height(m), v.1, h.1)
    case None => None
    case Some(vertical) => Some(if vertical then v.0 else h.0)
  }

  /** The same round with the corrected horizontal search in place of the
      as-written one. */
  function NextSeamCorrected(m: Matrix<Energy>, winW: nat, winH: nat, randV: nat, randH: nat): (r: Option<Seam>)
    requires Extractable(m)
    ensures r.None? <==> winW >= m.width && winH >= Height(m)
    ensures r.Some? && r.value.isVertical ==> m.width > winW && r.value == ExtractVerticalSeam(m, randV).0
    ensures r.Some? && !r.value.isVertical ==> Height(m) > winH && r.value == ExtractHorizontalSeamCorrected(m, randH).0
    ensures m.width > winW && Height(m) > winH ==>
      r.Some? && (r.value.isVertical <==> Less(ExtractVerticalSeam(m, randV).1, ExtractHorizontalSeamCorrected(m, randH).1))
  {
    var v := ExtractVerticalSeam(m, randV);
    var h := ExtractHorizontalSeamCorrected(m, randH);
    match Orientation(winW, winH, m.width, Height(m), v.1, h.1)
    case None => None
    case Some(vertical) => Some(if vertical then v.0 else h.0)
  }

  // ---------------------------------------------------------------------------
  // The fill loops, in place on the row view as the source runs them.

  /** Cells before `(i, j)` in row-major order hold their DP value, the others
      their raw energy. */
  ghost predicate VerticalDone(rows: seq<seq<Energy>>, w: nat, dp: seq<seq<Energy>>, i: nat, j: nat)
    requires Rect(rows, w) && Rect(dp, w) && |dp| == |rows|
  {
    forall r, c :: 0 <= r < |rows| && 0 <= c < w ==>
      dp[r][c] == (if r < i || (r == i && c < j) then DpAt(rows, w, false, r, c) else rows[r][c])
  }

  /** Relaxing cell `(i, j)` against the finished row above keeps `VerticalDone`. */
  lemma VerticalCell(rows: seq<seq<Energy>>, w: nat, dp: seq<seq<Energy>>, i: nat, j: nat)
    requires Rect(rows, w) && Rect(dp, w) && |dp| == |rows| && 0 < i < |rows| && j < w
    requires VerticalDone(rows, w, dp, i, j)
    ensures VerticalDone(rows, w, dp[i := dp[i][j := Add(Best(dp[i - 1], rows[i - 1], dp[i - 1], j), dp[i][j])]], i, j + 1)
  {
    var v := Add(Best(dp[i - 1], rows[i - 1], dp[i - 1], j), dp[i][j]);
    assert v == DpAt(rows, w, false, i, j) by {
      assert dp[i - 1] == DpLine(rows, w, false, i - 1);
      DpStep(rows, w, false, i, j);
    }
    var next := dp[i := dp[i][j := v]];
    forall r, c | 0 <= r < |rows| && 0 <= c < w
      ensures next[r][c] == (if r < i || (r == i && c < j + 1) then DpAt(rows, w, false, r, c) else rows[r][c])
    {
      if r != i || c != j {
        assert next[r][c] == dp[r][c];
      }
    }
  }

  /** The vertical fill: rows `1..h` in order, each cell relaxed against the
      finished row above it. */
  method FillVertical(rows: seq<seq<Energy>>, w: nat) returns (dp: seq<seq<Energy>>)
    requires Rect(rows, w)
    ensures |dp| == |rows| && Rect(dp, w)
    ensures forall i, j :: 0 <= i < |rows| && 0 <= j < w ==> dp[i][j] == DpAt(rows, w, false, i, j)
  {
    dp := rows;
    var i := 1;
    while i < |rows|
      invariant 1 <= i && (i <= |rows| || |rows| == 0)
      invariant |dp| == |rows| && Rect(dp, w)
      invariant VerticalDone(rows, w, dp, i, 0)
    {
      var j := 0;
      while j < w
        invariant 0 <= j <= w
        invariant |dp| == |rows| && Rect(dp, w)
        invariant VerticalDone(rows, w, dp, i, j)
      {
        VerticalCell(rows, w, dp, i, j);
        dp := dp[i := dp[i][j := Add(Best(dp[i - 1], rows[i - 1], dp[i - 1], j), dp[i][j])]];
        j := j + 1;
      }
      i := i + 1;
    }
  }

  /** Cells before `(i, j)` in row-major order hold the column recurrence with
      the after-side taken raw, the others their raw energy. */
  ghost predicate RowMajorDone(rows: seq<seq<Energy>>, w: nat, dp: seq<seq<Energy>>, i: nat, j: nat)
    requires Rect(rows, w) && Rect(dp, w) && |dp| == |rows|
  {
    forall r, c :: 0 <= r < |rows| && 0 <= c < w ==>
      dp[r][c] == (if r < i || (r == i && c < j) then DpAt(Transpose(rows, w), |rows|, true, c, r) else rows[r][c])
  }

  /** The value the row-major loop stores at `(i, j)`: column `j - 1` of the
      table as it stands, liveness read from the raw energies of that column. */
  function RowMajorCell(rows: seq<seq<Energy>>, w: nat, dp: seq<seq<Energy>>, i: nat, j: nat): Energy
    requires Rect(rows, w) && Rect(dp, w) && |dp| == |rows| && i < |rows| && 0 < j < w
  {
    var prev := Column(dp, w, j - 1);
    Add(Best(prev, Column(rows, w, j - 1), prev, i), dp[i][j])
  }

  /** The stored value is the column recurrence with the after-side taken raw:
      the cells after row `i` in column `j - 1` have not been visited yet. */
  lemma RowMajorCellValue(rows: seq<seq<Energy>>, w: nat, dp: seq<seq<Energy>>, i: nat, j: nat)
    requires Rect(rows, w) && Rect(dp, w) && |dp| == |rows| && i < |rows| && 0 < j < w
    requires RowMajorDone(rows, w, dp, i, j)
    ensures RowMajorCell(rows, w, dp, i, j) == DpAt(Transpose(rows, w), |rows|, true, j, i)
  {
    var cols := Transpose(rows, w);
    var h := |rows|;
    var prev := Column(dp, w, j - 1);
    var e := Column(rows, w, j - 1);
    assert e == cols[j - 1];
    var line := DpLine(cols, h, true, j - 1);
    assert prev[i] == line[i];
    assert ValueAt(prev, NearestLiveBefore(e, i)) == ValueAt(line, NearestLiveBefore(e, i));
    assert ValueAt(prev, NearestLiveFrom(e, i + 1)) == ValueAt(e, NearestLiveFrom(e, i + 1));
    DpStep(cols, h, true, j, i);
  }

  /** Relaxing cell `(i, j)` in row-major order keeps `RowMajorDone`. */
  lemma RowMajorStep(rows: seq<seq<Energy>>, w: nat, dp: seq<seq<Energy>>, i: nat, j: nat)
    requires Rect(rows, w) && Rect(dp, w) && |dp| == |rows| && i < |rows| && 0 < j < w
    requires RowMajorDone(rows, w, dp, i, j)
    ensures RowMajorDone(rows, w, dp[i := dp[i][j := RowMajorCell(rows, w, dp, i, j)]], i, j + 1)
  {
    var cols := Transpose(rows, w);
    var v := RowMajorCell(rows, w, dp, i, j);
    assert v == DpAt(cols, |rows|, true, j, i) by {
      RowMajorCellValue(rows, w, dp, i, j);
    }
    var next := dp[i := dp[i][j := v]];
    forall r, c | 0 <= r < |rows| && 0 <= c < w
      ensures next[r][c] == (if r < i || (r == i && c < j + 1) then DpAt(cols, |rows|, true, c, r) else rows[r][c])
    {
      if r != i || c != j {
        assert next[r][c] == dp[r][c];
      }
    }
  }

  /** `extract_horizontal_seam`'s fill as written: rows in order and, within a
      row, columns `1..w` in order, each cell relaxed against column `j - 1`
      of the same vector. The cells below in that column belong to rows not
      yet visited and still hold their raw energy, so the loop computes the
      column recurrence with the after-side value taken raw. */
  method FillRowMajor(rows: seq<seq<Energy>>, w: nat) returns (dp: seq<seq<Energy>>)
    requires Rect(rows, w)
    ensures |dp| == |rows| && Rect(dp, w)
    ensures forall i, j :: 0 <= i < |rows| && 0 <= j < w ==>
      dp[i][j] == DpAt(Transpose(rows, w), |rows|, true, j, i)
  {
    dp := rows;
    var i := 0;
    while i < |rows|
      invariant 0 <= i <= |rows|
      invariant |dp| == |rows| && Rect(dp, w)
      invariant RowMajorDone(rows, w, dp, i, 1)
    {
      var j := 1;
      while j < w
        invariant 1 <= j && (j <= w || w == 0)
        invariant |dp| == |rows| && Rect(dp, w)
        invariant RowMajorDone(rows, w, dp, i, j)
      {
        RowMajorStep(rows, w, dp, i, j);
        dp := dp[i := dp[i][j := RowMajorCell(rows, w, dp, i, j)]];
        j := j + 1;
      }
      i := i + 1;
    }
  }

  /** The three columns `[[10, 10], [10, 0], [1, 0]]` of a two-row energy matrix. */
  function SampleColumns(): (cols: seq<seq<Energy>>)
    ensures |cols| == 3 && Rect(cols, 2)
  {
    [[Fin(10), Fin(10)], [Fin(10), Fin(0)], [Fin(1), Fin(0)]]
  }

  /** Three columns of two rows each, `[[10, 10], [10, 0], [1, 0]]`: the
      row-major fill reports a minimum of 1 in the last column, the search
      returns the path `[1, 1, 0]` of cost 11, and the path `[1, 1, 1]` of
      cost 10 is cheaper. */
  lemma RowMajorHorizontalMissesCheapest(cols: seq<seq<Energy>>, rand: nat)
    requires cols == SampleColumns()
    ensures Rect(cols, 2) && |cols| == 3
    ensures LinePath(cols, 2, true, rand) == [1, 1, 0]
    ensures Cost(cols, 2, [1, 1, 0]) == Fin(11)
    ensures ValidPath(cols, 2, [1, 1, 1]) && Cost(cols, 2, [1, 1, 1]) == Fin(10)
  {
    var dp := Table(cols, 2, true);
    assert dp == [[Fin(10), Fin(10)], [Fin(20), Fin(10)], [Fin(1), Fin(10)]] by {
      SampleTable(cols);
    }
    var last := Pick(DpLine(cols, 2, true, 2), rand);
    assert last == 0 by {
      assert DpLine(cols, 2, true, 2) == dp[2];
      SamplePick(dp[2], rand);
    }
    assert Backtrack(cols, dp, 2, 2, 0) == [1, 1, 0] by {
      SampleBacktrack(cols, dp);
    }
    assert LinePath(cols, 2, true, rand) == Backtrack(cols, dp, 2, 2, last);
    SampleCosts(cols);
  }

  lemma SampleTable(cols: seq<seq<Energy>>)
    requires cols == SampleColumns()
    ensures Rect(cols, 2)
    ensures Table(cols, 2, true) == [[Fin(10), Fin(10)], [Fin(20), Fin(10)], [Fin(1), Fin(10)]]
  {
    assert cols[0] == [Fin(10), Fin(10)] && cols[1] == [Fin(10), Fin(0)] && cols[2] == [Fin(1), Fin(0)];
    assert NearestLiveBefore(cols[0], 0) == None && NearestLiveBefore(cols[0], 1) == Some(0);
    assert NearestLiveFrom(cols[0], 1) == Some(1) && NearestLiveFrom(cols[0], 2) == None;
    assert NearestLiveBefore(cols[1], 0) == None && NearestLiveBefore(cols[1], 1) == Some(0);
    assert NearestLiveFrom(cols[1], 1) == Some(1) && NearestLiveFrom(cols[1], 2) == None;
    assert DpAt(cols, 2, true, 0, 0) == Fin(10) && DpAt(cols, 2, true, 0, 1) == Fin(10);
    assert DpAt(cols, 2, true, 1, 0) == Fin(20);
    assert DpAt(cols, 2, true, 1, 1) == Fin(10);
    assert DpAt(cols, 2, true, 2, 0) == Fin(1);
    assert DpAt(cols, 2, true, 2, 1) == Fin(10);
    assert DpLine(cols, 2, true, 0) == [Fin(10), Fin(10)];
    assert DpLine(cols, 2, true, 1) == [Fin(20), Fin(10)];
    assert DpLine(cols, 2, true, 2) == [Fin(1), Fin(10)];
  }

  lemma SamplePick(last: seq<Energy>, rand: nat)
    requires last == [Fin(1), Fin(10)]
    ensures Pick(last, rand) == 0
  {
    assert last[0] == Fin(1) && last[1] == Fin(10) && !Less(Fin(10), Fin(1));
    assert MinScan(last, 0) == ([], Fin(1));
    assert MinScan(last, 1) == ([] + [0], Fin(1));
    assert [] + [0] == [0];
    assert MinScan(last, 2) == MinScan(last, 1);
    assert MinCandidates(last) == [0];
  }

  lemma SampleBacktrack(cols: seq<seq<Energy>>, dp: seq<seq<Energy>>)
    requires cols == SampleColumns()
    requires dp == [[Fin(10), Fin(10)], [Fin(20), Fin(10)], [Fin(1), Fin(10)]]
    ensures Rect(cols, 2) && Backtrack(cols, dp, 2, 2, 0) == [1, 1, 0]
  {
    assert cols[0] == [Fin(10), Fin(10)] && cols[1] == [Fin(10), Fin(0)];
    assert NearestLiveBefore(cols[0], 1) == Some(0) && NearestLiveFrom(cols[0], 2) == None;
    assert NearestLiveBefore(cols[1], 0) == None && NearestLiveFrom(cols[1], 1) == Some(1);
    assert StepBack(dp[1], cols[1], 0) == 1;
    assert StepBack(dp[0], cols[0], 1) == 1;
    assert Backtrack(cols, dp, 2, 0, 1) == [1];
    assert Backtrack(cols, dp, 2, 1, 1) == [1] + [1];
  }

  /** The three-step sum of the sample paths. */
  lemma SumThree(a: Energy, b: Energy, c: Energy)
    ensures Sum([a, b, c]) == Add(Add(Add(Fin(0), a), b), c)
  {
    assert [a, b, c][..2] == [a, b] && [a, b][..1] == [a] && [a][..0] == [];
    assert Sum([a]) == Add(Fin(0), a);
    assert Sum([a, b]) == Add(Add(Fin(0), a), b);
  }

  lemma SampleCosts(cols: seq<seq<Energy>>)
    requires cols == SampleColumns()
    ensures Rect(cols, 2) && |cols| == 3
    ensures Cost(cols, 2, [1, 1, 0]) == Fin(11)
    ensures ValidPath(cols, 2, [1, 1, 1]) && Cost(cols, 2, [1, 1, 1]) == Fin(10)
  {
    assert cols[0] == [Fin(10), Fin(10)] && cols[1] == [Fin(10), Fin(0)] && cols[2] == [Fin(1), Fin(0)];
    assert NearestLiveBefore(cols[0], 1) == Some(0) && NearestLiveBefore(cols[1], 1) == Some(0);
    assert Step(cols, [1, 1, 1], 0) && Step(cols, [1, 1, 1], 1);
    assert PathValues(cols, 2, [1, 1, 0]) == [Fin(10), Fin(0), Fin(1)];
    assert PathValues(cols, 2, [1, 1, 1]) == [Fin(10), Fin(0), Fin(0)];
    SumThree(Fin(10), Fin(0), Fin(1));
    SumThree(Fin(10), Fin(0), Fin(0));
  }
}
