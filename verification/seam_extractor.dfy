/** The first seam search of `src/seam_extractor.rs`: a vertical seam over a
    row view of the energies, with neighbours outside the row counted as
    infinite, the bottom cell taken as the first strict minimum, and the walk
    back guided by the raw energies. */
module SeamExtractor {
  import opened Seqs
  import opened Energies

  /** The clean recurrence `dp[i][j] = e[i][j] + min(dp[i-1][j-1], dp[i-1][j], dp[i-1][j+1])`,
      a neighbour outside the row contributing infinity. */
  function Dp(rows: seq<seq<Energy>>, w: nat, i: nat, j: nat): Energy
    requires Rect(rows, w) && i < |rows| && j < w
    decreases i
  {
    if i == 0 then rows[0][j]
    else
      var left := if j == 0 then Inf else Dp(rows, w, i - 1, j - 1);
      var right := if j == w - 1 then Inf else Dp(rows, w, i - 1, j + 1);
      Add(Min(Min(Dp(rows, w, i - 1, j), left), right), rows[i][j])
  }

  /** Whether the fill loop rewrites cell `(i, j)` of a table with `h` rows:
      every cell of rows `1..h-2`, and the first cell of the last row when
      there are at least three rows. */
  predicate Filled(h: nat, i: nat, j: nat) {
    (1 <= i && i + 2 <= h) || (h >= 3 && i == h - 1 && j == 0)
  }

  /** What the fill loop leaves in cell `(i, j)`. */
  function FilledAt(rows: seq<seq<Energy>>, w: nat, i: nat, j: nat): Energy
    requires Rect(rows, w) && i < |rows| && j < w
  {
    if Filled(|rows|, i, j) then Dp(rows, w, i, j) else rows[i][j]
  }

  /** The value the loop stores at `(i, j)`, read from the table as it stands. */
  function Relaxed(dp: seq<seq<Energy>>, w: nat, i: nat, j: nat): Energy
    requires Rect(dp, w) && 0 < i < |dp| && j < w
  {
    var left := if j == 0 then Inf else dp[i - 1][j - 1];
    var right := if j == w - 1 then Inf else dp[i - 1][j + 1];
    Add(Min(Min(dp[i - 1][j], left), right), dp[i][j])
  }

  /** Cells visited so far hold their DP value, every other cell its energy. */
  ghost predicate Visited(rows: seq<seq<Energy>>, w: nat, dp: seq<seq<Energy>>, i: nat, j: nat)
    requires Rect(rows, w) && Rect(dp, w) && |dp| == |rows|
  {
    forall r, c :: 0 <= r < |rows| && 0 <= c < w ==>
      dp[r][c] == (if 1 <= r && (r < i || (r == i && c < j)) then Dp(rows, w, r, c) else rows[r][c])
  }

  lemma RelaxedKeeps(rows: seq<seq<Energy>>, w: nat, dp: seq<seq<Energy>>, i: nat, j: nat)
    requires Rect(rows, w) && Rect(dp, w) && |dp| == |rows| && 0 < i < |rows| && j < w
    requires Visited(rows, w, dp, i, j)
    ensures Relaxed(dp, w, i, j) == Dp(rows, w, i, j)
    ensures Visited(rows, w, dp[i := dp[i][j := Relaxed(dp, w, i, j)]], i, j + 1)
  {
    var next := dp[i := dp[i][j := Relaxed(dp, w, i, j)]];
    assert forall r, c :: 0 <= r < |rows| && 0 <= c < w && (r != i || c != j) ==> next[r][c] == dp[r][c];
  }

  lemma VisitedWrap(rows: seq<seq<Energy>>, w: nat, dp: seq<seq<Energy>>, i: nat)
    requires Rect(rows, w) && Rect(dp, w) && |dp| == |rows| && Visited(rows, w, dp, i, w)
    ensures Visited(rows, w, dp, i + 1, 0)
  {
  }

  /** The fill loop of `vertical_seam`: a single `while` over `(i, j)` that
      wraps `j` back to 0 and moves to the next row at the top of the body,
      and stops once `i` reaches `h - 1`, one cell after the wrap. */
  method Fill(rows: seq<seq<Energy>>, w: nat) returns (dp: seq<seq<Energy>>)
    requires Rect(rows, w) && w > 0 && |rows| > 0
    ensures |dp| == |rows| && Rect(dp, w)
    ensures forall i, j :: 0 <= i < |rows| && 0 <= j < w ==> dp[i][j] == FilledAt(rows, w, i, j)
  {
    var h := |rows|;
    dp := rows;
    var i, j := 1, 0;
    while i < h - 1
      invariant 1 <= i && j <= w
      invariant i < h - 1 || (i == h - 1 && j == 1 && h >= 3) || (i == 1 && j == 0)
      invariant |dp| == h && Rect(dp, w)
      invariant Visited(rows, w, dp, i, j)
      decreases h - i, w - j
    {
      if j == w {
        VisitedWrap(rows, w, dp, i);
        j := 0;
        i := i + 1;
      }
      RelaxedKeeps(rows, w, dp, i, j);
      dp := dp[i := dp[i][j := Relaxed(dp, w, i, j)]];
      j := j + 1;
    }
    forall r, c | 0 <= r < h && 0 <= c < w ensures dp[r][c] == FilledAt(rows, w, r, c) {
    }
  }

  /** The bottom pick: a fold from `(0, INFINITY)` that moves to an entry only
      when the entry is strictly smaller than the one held. */
  function FirstMin(s: seq<Energy>, n: nat): (r: nat)
    requires n <= |s| && |s| > 0
    ensures r < |s| && (n == 0 ==> r == 0)
    decreases n
  {
    if n == 0 then 0
    else
      var acc := FirstMin(s, n - 1);
      var held := if n == 1 || AllDead(s, n - 1) then Inf else s[acc];
      if Less(s[n - 1], held) then n - 1 else acc
  }

  predicate AllDead(s: seq<Energy>, n: nat)
    requires n <= |s|
  {
    forall k :: 0 <= k < n ==> !Live(s[k])
  }

  /** The fold ends on the first position of the smallest entry, or on 0 when
      every entry is infinite. */
  lemma {:induction false} FirstMinIsFirstMinimum(s: seq<Energy>, n: nat)
    requires 0 < n <= |s|
    ensures var r := FirstMin(s, n);
      && r < n
      && (AllDead(s, n) ==> r == 0)
      && (!AllDead(s, n) ==> Live(s[r]))
      && (forall k :: 0 <= k < n ==> LessEq(s[r], s[k]))
      && (forall k :: 0 <= k < r ==> Less(s[r], s[k]))
    decreases n
  {
    if n > 1 {
      FirstMinIsFirstMinimum(s, n - 1);
      var acc := FirstMin(s, n - 1);
      forall k | 0 <= k < n ensures LessEq(s[FirstMin(s, n)], s[k]) {
        if k < n - 1 {
          LessEqTrans(s[FirstMin(s, n)], s[acc], s[k]);
        }
      }
    }
  }

  /** One step of the walk back, on the raw energies `e` of the row above:
      the left cell if strictly below the straight one, then the right cell
      if strictly below the current pick. */
  function StepUp(e: seq<Energy>, c: nat): (p: nat)
    requires c < |e|
    ensures p < |e| && (p + 1 == c || p == c || p == c + 1)
    ensures forall q :: 0 <= q < |e| && (q + 1 == c || q == c || q == c + 1) ==> LessEq(e[p], e[q])
    ensures p + 1 == c ==> Less(e[p], e[c])
    ensures p == c + 1 ==> Less(e[p], e[c]) && (c > 0 ==> Less(e[p], e[c - 1]) || LessEq(e[c], e[c - 1]))
  {
    var pick := if c > 0 && Less(e[c - 1], e[c]) then c - 1 else c;
    if c + 1 < |e| && Less(e[c + 1], e[pick]) then c + 1 else pick
  }

  /** The columns of rows `0..i`, ending at column `last` on row `i`. */
  function WalkUp(rows: seq<seq<Energy>>, w: nat, i: nat, last: nat): (cols: seq<nat>)
    requires Rect(rows, w) && i < |rows| && last < w
    ensures |cols| == i + 1 && cols[i] == last
    ensures forall t :: 0 <= t <= i ==> cols[t] < w
    ensures forall t :: 0 <= t < i ==> cols[t] <= cols[t + 1] + 1 && cols[t + 1] <= cols[t] + 1
    decreases i
  {
    if i == 0 then [last]
    else WalkUp(rows, w, i - 1, StepUp(rows[i - 1], last)) + [last]
  }

  /** Every earlier row of the walk is the raw-energy step up from the row below it. */
  lemma {:induction false} WalkUpSteps(rows: seq<seq<Energy>>, w: nat, i: nat, last: nat)
    requires Rect(rows, w) && i < |rows| && last < w
    ensures forall t :: 0 <= t < i ==>
      WalkUp(rows, w, i, last)[t] == StepUp(rows[t], WalkUp(rows, w, i, last)[t + 1])
    decreases i
  {
    if i > 0 {
      var up := StepUp(rows[i - 1], last);
      WalkUpSteps(rows, w, i - 1, up);
      var init := WalkUp(rows, w, i - 1, up);
      var cols := WalkUp(rows, w, i, last);
      assert cols == init + [last];
      forall t | 0 <= t < i ensures cols[t] == StepUp(rows[t], cols[t + 1]) {
        if t + 1 < i {
          assert cols[t] == init[t] && cols[t + 1] == init[t + 1];
          assert init[t] == StepUp(rows[t], init[t + 1]);
        } else {
          assert cols[t] == init[i - 1] == up && cols[t + 1] == last;
        }
      }
    }
  }

  /** The table the loop leaves satisfies the clean recurrence, read from the
      table itself, on every cell it rewrites. */
  lemma FilledFollowsRecurrence(rows: seq<seq<Energy>>, w: nat, i: nat, j: nat)
    requires Rect(rows, w) && i < |rows| && j < w && Filled(|rows|, i, j)
    ensures i > 0
    ensures var left := if j == 0 then Inf else FilledAt(rows, w, i - 1, j - 1);
      var right := if j == w - 1 then Inf else FilledAt(rows, w, i - 1, j + 1);
      FilledAt(rows, w, i, j) == Add(Min(Min(FilledAt(rows, w, i - 1, j), left), right), rows[i][j])
  {
  }

  /** The bottom column is the first column of smallest filled value in the last
      row, and column 0 when that whole row is infinite. */
  lemma BottomIsFirstMinimum(rows: seq<seq<Energy>>, w: nat)
    requires Rect(rows, w) && |rows| > 0 && w > 0
    ensures var b, line := Bottom(rows, w), BottomLine(rows, w);
      && (AllDead(line, w) ==> b == 0)
      && (!AllDead(line, w) ==> Live(line[b]))
      && (forall k :: 0 <= k < w ==> LessEq(line[b], line[k]))
      && (forall k :: 0 <= k < b ==> Less(line[b], line[k]))
  {
    FirstMinIsFirstMinimum(BottomLine(rows, w), w);
  }

  /** `vertical_seam`: the column of the seam in every row, top to bottom. */
  method VerticalSeam(rows: seq<seq<Energy>>, w: nat) returns (seam: seq<nat>)
    requires Rect(rows, w) && w > 0 && |rows| > 0
    ensures |seam| == |rows|
    ensures forall t :: 0 <= t < |seam| ==> seam[t] < w
    ensures forall t :: 0 <= t < |seam| - 1 ==> seam[t] <= seam[t + 1] + 1 && seam[t + 1] <= seam[t] + 1
    ensures seam[|seam| - 1] == Bottom(rows, w)
    ensures forall t :: 0 <= t < |seam| - 1 ==> seam[t] == StepUp(rows[t], seam[t + 1])
  {
    var dp := Fill(rows, w);
    var h := |rows|;
    assert dp[h - 1] == BottomLine(rows, w) by {
      forall j | 0 <= j < w ensures dp[h - 1][j] == BottomLine(rows, w)[j] {
      }
    }
    var last := FirstMin(dp[h - 1], w);
    seam := WalkUp(rows, w, h - 1, last);
    WalkUpSteps(rows, w, h - 1, last);
  }

  /** The last row as the fill loop leaves it. */
  function BottomLine(rows: seq<seq<Energy>>, w: nat): (r: seq<Energy>)
    requires Rect(rows, w) && |rows| > 0
    ensures |r| == w && forall j :: 0 <= j < w ==> r[j] == FilledAt(rows, w, |rows| - 1, j)
  {
    seq(w, j requires 0 <= j < w => FilledAt(rows, w, |rows| - 1, j))
  }

  /** The bottom column of the seam. */
  function Bottom(rows: seq<seq<Energy>>, w: nat): (b: nat)
    requires Rect(rows, w) && |rows| > 0 && w > 0
    ensures b < w
  {
    FirstMin(BottomLine(rows, w), w)
  }
}
