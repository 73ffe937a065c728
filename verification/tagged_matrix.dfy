/** The tagged matrix of `src/matrix.rs`: a flat row-major vector with a width,
    where every cell carries the identity tag (its index in the original image)
    it had before any carving. Seams name the cells to remove by tag, so a seam
    extracted once can be carved out of an already carved matrix. */
module TaggedMatrix {
  import opened Seqs

  /** The identity tags of the cells to remove, and the direction of the seam. */
  datatype Seam = Seam(indices: seq<nat>, isVertical: bool)

  datatype Matrix<T> = Matrix(width: nat, vector: seq<T>, originalIndices: seq<nat>)

  /** Values and tags run in parallel, and the width is positive (`height` divides by it). */
  predicate WellFormed<T>(m: Matrix<T>) {
    m.width > 0 && |m.originalIndices| == |m.vector|
  }

  /** Number of complete rows; a trailing partial row is not counted. The
      same rule as `height` of `src/structs/matrix.rs`, repeated because the
      two source files each define it on their own `Matrix`. */
  function Height<T>(m: Matrix<T>): (h: nat)
    requires m.width > 0
    ensures h * m.width <= |m.vector| < h * m.width + m.width
  {
    |m.vector| / m.width
  }

  /** A fresh matrix: every cell is tagged with its own position. */
  function New<T>(vector: seq<T>, width: nat): (m: Matrix<T>)
    ensures m.width == width && m.vector == vector
    ensures |m.originalIndices| == |vector| && Distinct(m.originalIndices)
    ensures forall k :: 0 <= k < |vector| ==> m.originalIndices[k] == k
  {
    Matrix(width, vector, seq(|vector|, k => k))
  }

  /** The complete rows of a flat vector of width `w`. */
  function Grid<T>(s: seq<T>, w: nat, h: nat): (g: seq<seq<T>>)
    requires h * w <= |s|
    ensures |g| == h && Rect(g, w)
  {
    Rows(s[..h * w], w, h)
  }

  function CellGrid<T>(m: Matrix<T>): (g: seq<seq<T>>)
    requires WellFormed(m)
    ensures |g| == Height(m) && Rect(g, m.width)
  {
    Grid(m.vector, m.width, Height(m))
  }

  function TagGrid<T>(m: Matrix<T>): (g: seq<seq<nat>>)
    requires WellFormed(m)
    ensures |g| == Height(m) && Rect(g, m.width)
  {
    Grid(m.originalIndices, m.width, Height(m))
  }

  /** Cell `(i, j)` of the grid views is flat position `i * width + j`. */
  lemma CellAt<T>(m: Matrix<T>, i: nat, j: nat)
    requires WellFormed(m) && i < Height(m) && j < m.width
    ensures i * m.width + j < |m.vector|
    ensures CellGrid(m)[i][j] == m.vector[i * m.width + j]
  {
    var h, w := Height(m), m.width;
    RowsAt(m.vector[..h * w], w, h, i, j);
  }

  lemma TagAt<T>(m: Matrix<T>, i: nat, j: nat)
    requires WellFormed(m) && i < Height(m) && j < m.width
    ensures i * m.width + j < |m.originalIndices|
    ensures TagGrid(m)[i][j] == m.originalIndices[i * m.width + j]
  {
    var h, w := Height(m), m.width;
    RowsAt(m.originalIndices[..h * w], w, h, i, j);
  }

  // ---------------------------------------------------------------------------
  // Vertical carving: one scan in storage order.

  /** The scan of `carve_vertical_seam`: `target` is the seam entry currently
      looked for and `pending` the entries after it. A cell whose tag equals
      `target` is dropped and the search moves on to the next entry; once the
      entries are used up the last one stays the target. */
  function Scan<T>(vector: seq<T>, tags: seq<nat>, target: nat, pending: seq<nat>): (r: (seq<T>, seq<nat>))
    requires |vector| == |tags|
    ensures |r.0| == |r.1| <= |tags|
    decreases |vector|
  {
    if |vector| == 0 then ([], [])
    else if tags[0] == target then
      if |pending| == 0 then Scan(vector[1..], tags[1..], target, [])
      else Scan(vector[1..], tags[1..], pending[0], pending[1..])
    else
      var rest := Scan(vector[1..], tags[1..], target, pending);
      ([vector[0]] + rest.0, [tags[0]] + rest.1)
  }

  /** Whatever the seam holds, the scan keeps cells in order, and it keeps
      every cell whose tag is not a seam entry. */
  lemma {:induction false} ScanKeepsOthers<T>(vector: seq<T>, tags: seq<nat>, target: nat, pending: seq<nat>)
    requires |vector| == |tags|
    ensures IsSubsequence(Scan(vector, tags, target, pending).1, tags)
    ensures forall x :: x in tags && x != target && x !in pending ==> x in Scan(vector, tags, target, pending).1
    decreases |vector|
  {
    if |vector| > 0 {
      var r := Scan(vector, tags, target, pending);
      if tags[0] == target {
        if |pending| == 0 {
          ScanKeepsOthers(vector[1..], tags[1..], target, []);
        } else {
          ScanKeepsOthers(vector[1..], tags[1..], pending[0], pending[1..]);
          assert pending == [pending[0]] + pending[1..];
        }
      } else {
        ScanKeepsOthers(vector[1..], tags[1..], target, pending);
        var rest := Scan(vector[1..], tags[1..], target, pending);
        assert r.1 == [tags[0]] + rest.1 && r.1[1..] == rest.1;
        forall x | x in tags && x != target && x !in pending ensures x in r.1 {
          if x != tags[0] {
            assert tags == [tags[0]] + tags[1..];
            assert x in tags[1..];
          }
        }
      }
    }
  }

  /** Reference removal: the cells whose tag is not in `drop`, values and tags
      kept together and in storage order. */
  function KeepUnlisted<T>(vector: seq<T>, tags: seq<nat>, drop: set<nat>): (r: (seq<T>, seq<nat>))
    requires |vector| == |tags|
    ensures |r.0| == |r.1|
    ensures IsSubsequence(r.1, tags)
    ensures forall x :: x in r.1 <==> x in tags && x !in drop
    decreases |vector|
  {
    if |vector| == 0 then ([], [])
    else
      var rest := KeepUnlisted(vector[1..], tags[1..], drop);
      if tags[0] in drop then rest else ([vector[0]] + rest.0, [tags[0]] + rest.1)
  }

  lemma {:induction false} KeepUnlistedAgree<T>(vector: seq<T>, tags: seq<nat>, d1: set<nat>, d2: set<nat>)
    requires |vector| == |tags|
    requires forall k :: 0 <= k < |tags| ==> (tags[k] in d1 <==> tags[k] in d2)
    ensures KeepUnlisted(vector, tags, d1) == KeepUnlisted(vector, tags, d2)
    decreases |vector|
  {
    if |vector| > 0 {
      assert tags[0] in d1 <==> tags[0] in d2;
      KeepUnlistedAgree(vector[1..], tags[1..], d1, d2);
    }
  }

  lemma {:induction false} KeepAll<T>(vector: seq<T>, tags: seq<nat>, drop: set<nat>)
    requires |vector| == |tags|
    requires forall k :: 0 <= k < |tags| ==> tags[k] !in drop
    ensures KeepUnlisted(vector, tags, drop) == (vector, tags)
    decreases |vector|
  {
    if |vector| > 0 {
      assert tags[0] !in drop;
      KeepAll(vector[1..], tags[1..], drop);
      assert vector == [vector[0]] + vector[1..];
      assert tags == [tags[0]] + tags[1..];
    }
  }

  /** A target that no cell carries removes nothing, and every later seam entry
      is never looked for. */
  lemma {:induction false} ScanMissing<T>(vector: seq<T>, tags: seq<nat>, target: nat, pending: seq<nat>)
    requires |vector| == |tags| && target !in tags
    ensures Scan(vector, tags, target, pending) == (vector, tags)
    decreases |vector|
  {
    if |vector| > 0 {
      assert tags[0] != target;
      ScanMissing(vector[1..], tags[1..], target, pending);
      assert vector == [vector[0]] + vector[1..];
      assert tags == [tags[0]] + tags[1..];
    }
  }

  /** With distinct tags and a seam whose tags occur in storage order, the scan
      removes exactly the seam's cells, one per entry. */
  lemma {:induction false} ScanRemovesSeam<T>(vector: seq<T>, tags: seq<nat>, target: nat, pending: seq<nat>)
    requires |vector| == |tags| && Distinct(tags)
    requires IsSubsequence([target] + pending, tags)
    ensures Scan(vector, tags, target, pending) == KeepUnlisted(vector, tags, {target} + Elems(pending))
    ensures |Scan(vector, tags, target, pending).0| + 1 + |pending| == |vector|
    decreases |vector|
  {
    var s := [target] + pending;
    var drop := {target} + Elems(pending);
    assert tags == [tags[0]] + tags[1..];
    DistinctCons(tags[0], tags[1..]);
    var rest := tags[1..];
    if tags[0] == target {
      assert s[1..] == pending;
      if !IsSubsequence(pending, rest) {
        SubsequenceMembers(s, rest);
        assert false;
      }
      SubsequenceMembers(pending, rest);
      if |pending| == 0 {
        ScanMissing(vector[1..], rest, target, []);
        KeepAll(vector[1..], rest, drop);
      } else {
        assert pending == [pending[0]] + pending[1..];
        ScanRemovesSeam(vector[1..], rest, pending[0], pending[1..]);
        forall k | 0 <= k < |rest|
          ensures (rest[k] in {pending[0]} + Elems(pending[1..])) <==> rest[k] in drop
        {
          assert rest[k] != target;
        }
        KeepUnlistedAgree(vector[1..], rest, {pending[0]} + Elems(pending[1..]), drop);
      }
    } else {
      ScanRemovesSeam(vector[1..], rest, target, pending);
      SubsequenceMembers(s, rest);
      assert tags[0] !in pending;
    }
  }

  /** `carve_vertical_seam`. An empty seam leaves the matrix as it is, width
      included; otherwise the width shrinks by one whatever the scan removed. */
  function CarveVertical<T>(m: Matrix<T>, seam: Seam): (r: Matrix<T>)
    requires WellFormed(m)
    ensures |seam.indices| == 0 ==> r == m
    ensures |seam.indices| > 0 ==> r.width + 1 == m.width
    ensures |r.vector| == |r.originalIndices| <= |m.vector|
    ensures IsSubsequence(r.originalIndices, m.originalIndices)
  {
    if |seam.indices| == 0 then SubsequenceRefl(m.originalIndices); m
    else
      var kept := Scan(m.vector, m.originalIndices, seam.indices[0], seam.indices[1..]);
      ScanKeepsOthers(m.vector, m.originalIndices, seam.indices[0], seam.indices[1..]);
      Matrix(m.width - 1, kept.0, kept.1)
  }

  /** A vertical carve of a seam listed in storage order over distinct tags
      removes exactly the seam's cells, one cell per entry, and the surviving
      tags stay distinct. */
  lemma CarveVerticalRemovesSeam<T>(m: Matrix<T>, seam: Seam)
    requires WellFormed(m) && Distinct(m.originalIndices)
    requires |seam.indices| > 0 && IsSubsequence(seam.indices, m.originalIndices)
    ensures var r := CarveVertical(m, seam);
      && (r.vector, r.originalIndices) == KeepUnlisted(m.vector, m.originalIndices, Elems(seam.indices))
      && |r.vector| + |seam.indices| == |m.vector|
      && Distinct(r.originalIndices)
  {
    var s := seam.indices;
    assert s == [s[0]] + s[1..];
    ScanRemovesSeam(m.vector, m.originalIndices, s[0], s[1..]);
    assert {s[0]} + Elems(s[1..]) == Elems(s);
    var r := CarveVertical(m, seam);
    SubsequenceKeepsDistinct(r.originalIndices, m.originalIndices);
  }

  /** With one seam entry per row of a full rectangle, every row loses one cell
      and the height is kept. */
  lemma CarveVerticalKeepsHeight<T>(m: Matrix<T>, seam: Seam)
    requires WellFormed(m) && Distinct(m.originalIndices) && m.width > 1
    requires |seam.indices| == Height(m) > 0 && |m.vector| == Height(m) * m.width
    requires IsSubsequence(seam.indices, m.originalIndices)
    ensures var r := CarveVertical(m, seam);
      Height(r) == Height(m) && |r.vector| == Height(r) * r.width
  {
    CarveVerticalRemovesSeam(m, seam);
    var h, w := Height(m), m.width;
    assert h * w == h * (w - 1) + h;
    MulDiv(h, w - 1);
  }

  // ---------------------------------------------------------------------------
  // Horizontal carving: one column at a time, then rows rebuilt.

  /** Rows `0..n` of column `c` whose tag differs from `target`, top to bottom. */
  function KeptRows(tags: seq<seq<nat>>, w: nat, c: nat, target: nat, n: nat): (r: seq<nat>)
    requires Rect(tags, w) && c < w && n <= |tags|
    ensures |r| <= n
    ensures forall k :: 0 <= k < |r| ==> r[k] < n && tags[r[k]][c] != target
    ensures forall k, l :: 0 <= k < l < |r| ==> r[k] < r[l]
    ensures forall i :: 0 <= i < n && tags[i][c] != target ==> i in r
    decreases n
  {
    if n == 0 then []
    else
      var rest := KeptRows(tags, w, c, target, n - 1);
      if tags[n - 1][c] != target then rest + [n - 1] else rest
  }

  /** The kept rows of every column, for the seam entry of that column. */
  function KeptColumns<T>(m: Matrix<T>, seam: Seam): (kept: seq<seq<nat>>)
    requires WellFormed(m) && |seam.indices| >= m.width
    ensures |kept| == m.width
    ensures forall c :: 0 <= c < m.width ==>
      kept[c] == KeptRows(TagGrid(m), m.width, c, seam.indices[c], Height(m))
  {
    seq(m.width, c requires 0 <= c < m.width =>
      KeptRows(TagGrid(m), m.width, c, seam.indices[c], Height(m)))
  }

  /** What the source needs to rebuild `height - 1` rows: at least one row, a
      seam entry for every column, and no column losing more than one cell. */
  predicate CanCarveHorizontal<T>(m: Matrix<T>, seam: Seam) {
    && WellFormed(m) && Height(m) >= 1 && |seam.indices| >= m.width
    && forall c :: 0 <= c < m.width ==>
         |KeptRows(TagGrid(m), m.width, c, seam.indices[c], Height(m))| >= Height(m) - 1
  }

  /** Row `i` of the result takes, in every column `c`, the `i`-th kept cell of that column. */
  function Regroup<T>(g: seq<seq<T>>, kept: seq<seq<nat>>, w: nat, n: nat): (r: seq<seq<T>>)
    requires Rect(g, w) && |kept| == w
    requires forall c :: 0 <= c < w ==> n <= |kept[c]|
    requires forall c, i :: 0 <= c < w && 0 <= i < |kept[c]| ==> kept[c][i] < |g|
    ensures |r| == n && Rect(r, w)
  {
    seq(n, i requires 0 <= i < n => seq(w, c requires 0 <= c < w => g[kept[c][i]][c]))
  }

  /** `carve_horizontal_seam`. When a column holds no cell with its seam tag,
      only its first `height - 1` cells are kept, so its bottom cell is lost. */
  function CarveHorizontal<T>(m: Matrix<T>, seam: Seam): (r: Matrix<T>)
    requires CanCarveHorizontal(m, seam)
    ensures WellFormed(r) && r.width == m.width
    ensures |r.vector| == (Height(m) - 1) * m.width && Height(r) == Height(m) - 1
    ensures |r.vector| < |m.vector|
  {
    var w, h := m.width, Height(m);
    var kept := KeptColumns(m, seam);
    var values := Regroup(CellGrid(m), kept, w, h - 1);
    var tags := Regroup(TagGrid(m), kept, w, h - 1);
    FlattenLength(values, w);
    FlattenLength(tags, w);
    MulDiv(h - 1, w);
    MulMono(h - 1, h, w);
    Matrix(w, Flatten(values), Flatten(tags))
  }

  /** Column `c` of the complete rows as (value, tag) pairs, top to bottom. */
  function ColumnCells<T>(m: Matrix<T>, c: nat): (col: seq<(T, nat)>)
    requires WellFormed(m) && c < m.width
    ensures |col| == Height(m)
  {
    seq(Height(m), i requires 0 <= i < Height(m) => (CellGrid(m)[i][c], TagGrid(m)[i][c]))
  }

  /** Reference filter: the pairs whose tag is not `t`, in order. */
  function DropTagged<T>(cells: seq<(T, nat)>, t: nat): (r: seq<(T, nat)>)
    ensures |r| <= |cells|
    ensures forall k :: 0 <= k < |r| ==> r[k].1 != t
    ensures (forall k :: 0 <= k < |cells| ==> cells[k].1 != t) ==> r == cells
  {
    if |cells| == 0 then []
    else
      var last := cells[|cells| - 1];
      DropTagged(cells[..|cells| - 1], t) + (if last.1 == t then [] else [last])
  }

  /** One step of the column filter. */
  lemma DropTaggedStep<T>(cells: seq<(T, nat)>, t: nat, n: nat)
    requires 0 < n <= |cells|
    ensures DropTagged(cells[..n], t)
      == DropTagged(cells[..n - 1], t) + (if cells[n - 1].1 == t then [] else [cells[n - 1]])
  {
    assert cells[..n][..n - 1] == cells[..n - 1];
  }

  /** The (cell, tag) pairs of column `c` at the given rows, in order. */
  function CellsAt<T>(m: Matrix<T>, c: nat, rows: seq<nat>): (r: seq<(T, nat)>)
    requires WellFormed(m) && c < m.width && forall k :: 0 <= k < |rows| ==> rows[k] < Height(m)
    ensures |r| == |rows|
    ensures forall k :: 0 <= k < |rows| ==> r[k] == (CellGrid(m)[rows[k]][c], TagGrid(m)[rows[k]][c])
  {
    seq(|rows|, k requires 0 <= k < |rows| => (CellGrid(m)[rows[k]][c], TagGrid(m)[rows[k]][c]))
  }

  lemma CellsAtSnoc<T>(m: Matrix<T>, c: nat, rows: seq<nat>, i: nat)
    requires WellFormed(m) && c < m.width && forall k :: 0 <= k < |rows| ==> rows[k] < Height(m)
    requires i < Height(m)
    ensures CellsAt(m, c, rows + [i]) == CellsAt(m, c, rows) + [ColumnCells(m, c)[i]]
  {
    var lhs, rhs := CellsAt(m, c, rows + [i]), CellsAt(m, c, rows) + [ColumnCells(m, c)[i]];
    forall k | 0 <= k < |lhs| ensures lhs[k] == rhs[k] {
      if k < |rows| {
        assert (rows + [i])[k] == rows[k];
      }
    }
  }

  /** Filtering the first `n` cells of a column by tag keeps exactly the
      cells of the rows `KeptRows` lists. */
  lemma {:induction false} DropTaggedKept<T>(m: Matrix<T>, c: nat, t: nat, n: nat)
    requires WellFormed(m) && c < m.width && n <= Height(m)
    ensures DropTagged(ColumnCells(m, c)[..n], t) == CellsAt(m, c, KeptRows(TagGrid(m), m.width, c, t, n))
    decreases n
  {
    if n > 0 {
      var tags := TagGrid(m);
      var col := ColumnCells(m, c);
      var rest := KeptRows(tags, m.width, c, t, n - 1);
      DropTaggedKept(m, c, t, n - 1);
      var last := col[n - 1];
      DropTaggedStep(col, t, n);
      assert last.1 == tags[n - 1][c];
      if tags[n - 1][c] != t {
        assert KeptRows(tags, m.width, c, t, n) == rest + [n - 1];
        CellsAtSnoc(m, c, rest, n - 1);
      } else {
        assert KeptRows(tags, m.width, c, t, n) == rest;
      }
    }
  }

  /** With distinct tags a column holds its seam tag at most once. */
  lemma {:induction false} KeptRowsCount(tags: seq<seq<nat>>, w: nat, c: nat, t: nat, n: nat)
    requires Rect(tags, w) && c < w && n <= |tags| && DistinctCells(tags, w)
    ensures (exists i :: 0 <= i < n && tags[i][c] == t) ==> |KeptRows(tags, w, c, t, n)| + 1 == n
    ensures (forall i :: 0 <= i < n ==> tags[i][c] != t) ==> |KeptRows(tags, w, c, t, n)| == n
    decreases n
  {
    if n > 0 {
      KeptRowsCount(tags, w, c, t, n - 1);
      if tags[n - 1][c] == t {
        forall i | 0 <= i < n - 1 ensures tags[i][c] != t {
          assert tags[i][c] != tags[n - 1][c];
        }
      }
    }
  }

  lemma GridOfFlatten<T>(rows: seq<seq<T>>, w: nat)
    requires Rect(rows, w)
    ensures |Flatten(rows)| == |rows| * w
    ensures Grid(Flatten(rows), w, |rows|) == rows
  {
    RowsOfFlatten(rows, w);
    var f := Flatten(rows);
    assert f[..|rows| * w] == f;
  }

  /** The row views of the carved matrix are the regrouped kept cells. */
  lemma CarvedGrids<T>(m: Matrix<T>, seam: Seam)
    requires CanCarveHorizontal(m, seam)
    ensures var r := CarveHorizontal(m, seam);
      var kept := KeptColumns(m, seam);
      && CellGrid(r) == Regroup(CellGrid(m), kept, m.width, Height(m) - 1)
      && TagGrid(r) == Regroup(TagGrid(m), kept, m.width, Height(m) - 1)
  {
    var w, h := m.width, Height(m);
    var kept := KeptColumns(m, seam);
    var r := CarveHorizontal(m, seam);
    assert Height(r) == h - 1;
    GridOfFlatten(Regroup(CellGrid(m), kept, w, h - 1), w);
    GridOfFlatten(Regroup(TagGrid(m), kept, w, h - 1), w);
  }

  /** Each column of the carved matrix is the column of the input with the
      cells carrying that column's seam tag removed, cut to `height - 1`. */
  lemma CarveHorizontalColumns<T>(m: Matrix<T>, seam: Seam, c: nat)
    requires CanCarveHorizontal(m, seam) && c < m.width
    ensures var dropped := DropTagged(ColumnCells(m, c), seam.indices[c]);
      && |dropped| >= Height(m) - 1
      && ColumnCells(CarveHorizontal(m, seam), c) == dropped[..Height(m) - 1]
  {
    var w, h, t := m.width, Height(m), seam.indices[c];
    var r := CarveHorizontal(m, seam);
    var kept := KeptRows(TagGrid(m), w, c, t, h);
    CarvedGrids(m, seam);
    DropTaggedKept(m, c, t, h);
    assert ColumnCells(m, c)[..h] == ColumnCells(m, c);
    var dropped := DropTagged(ColumnCells(m, c), t);
    assert |dropped| == |kept| >= h - 1;
    var lhs, rhs := ColumnCells(r, c), dropped[..h - 1];
    assert |lhs| == h - 1 == |rhs|;
    forall i | 0 <= i < h - 1 ensures lhs[i] == rhs[i] {
      assert lhs[i] == (CellGrid(r)[i][c], TagGrid(r)[i][c]);
      assert rhs[i] == (CellGrid(m)[kept[i]][c], TagGrid(m)[kept[i]][c]);
    }
  }

  lemma RegroupKeepsDistinct(g: seq<seq<nat>>, kept: seq<seq<nat>>, w: nat, n: nat)
    requires Rect(g, w) && |kept| == w && DistinctCells(g, w)
    requires forall c :: 0 <= c < w ==> n <= |kept[c]|
    requires forall c, i :: 0 <= c < w && 0 <= i < |kept[c]| ==> kept[c][i] < |g|
    requires forall c, i, j :: 0 <= c < w && 0 <= i < j < |kept[c]| ==> kept[c][i] < kept[c][j]
    ensures DistinctCells(Regroup(g, kept, w, n), w)
  {
    var r := Regroup(g, kept, w, n);
    forall i1, j1, i2, j2 |
      0 <= i1 < n && 0 <= j1 < w && 0 <= i2 < n && 0 <= j2 < w && (i1 != i2 || j1 != j2)
      ensures r[i1][j1] != r[i2][j2]
    {
      assert r[i1][j1] == g[kept[j1][i1]][j1] && r[i2][j2] == g[kept[j2][i2]][j2];
      if j1 == j2 {
        assert kept[j1][i1] != kept[j2][i2];
      }
    }
  }

  /** Carving a horizontal seam keeps identity tags distinct and only ever
      keeps tags the input had. */
  lemma CarveHorizontalKeepsTags<T>(m: Matrix<T>, seam: Seam)
    requires CanCarveHorizontal(m, seam) && Distinct(m.originalIndices)
    ensures Distinct(CarveHorizontal(m, seam).originalIndices)
    ensures forall x :: x in CarveHorizontal(m, seam).originalIndices ==> x in m.originalIndices
  {
    var w, h := m.width, Height(m);
    var kept := KeptColumns(m, seam);
    var tg := TagGrid(m);
    var r := CarveHorizontal(m, seam);
    var rt := r.originalIndices;
    CarvedGrids(m, seam);
    assert rt[..(h - 1) * w] == rt;
    DistinctRows(m.originalIndices[..h * w], w, h);
    RegroupKeepsDistinct(tg, kept, w, h - 1);
    DistinctRows(rt, w, h - 1);
    forall p | 0 <= p < |rt| ensures rt[p] in m.originalIndices {
      CarvedTagFrom(m, seam, p);
    }
  }

  lemma CarvedTagFrom<T>(m: Matrix<T>, seam: Seam, p: nat)
    requires CanCarveHorizontal(m, seam) && p < |CarveHorizontal(m, seam).originalIndices|
    ensures CarveHorizontal(m, seam).originalIndices[p] in m.originalIndices
  {
    var w, h := m.width, Height(m);
    var kept := KeptColumns(m, seam);
    var r := CarveHorizontal(m, seam);
    var rt := r.originalIndices;
    var pre := m.originalIndices[..h * w];
    var i, c := RowColumn(w, h - 1, p);
    var k := kept[c][i];
    assert rt[p] == TagGrid(m)[k][c] by {
      CarvedGrids(m, seam);
      assert rt[..(h - 1) * w] == rt;
      RowsAt(rt, w, h - 1, i, c);
    }
    var q := CellPosition(pre, w, h, k, c);
    assert pre[q] == m.originalIndices[q];
  }

  /** Every column holds the seam tag meant for it. */
  predicate SeamHitsEveryColumn<T>(m: Matrix<T>, seam: Seam)
    requires WellFormed(m) && |seam.indices| >= m.width
  {
    forall c :: 0 <= c < m.width ==> seam.indices[c] in Column(TagGrid(m), m.width, c)
  }

  lemma ExactColumn<T>(m: Matrix<T>, seam: Seam, c: nat)
    requires WellFormed(m) && |seam.indices| >= m.width && c < m.width
    requires Distinct(m.originalIndices) && seam.indices[c] in Column(TagGrid(m), m.width, c)
    ensures |KeptRows(TagGrid(m), m.width, c, seam.indices[c], Height(m))| + 1 == Height(m)
  {
    var w, h := m.width, Height(m);
    DistinctRows(m.originalIndices[..h * w], w, h);
    KeptRowsCount(TagGrid(m), w, c, seam.indices[c], h);
  }

  /** When tags are distinct and every column holds its seam tag, the carve is
      possible and removes exactly one cell per column, the one the seam names. */
  lemma CarveHorizontalExact<T>(m: Matrix<T>, seam: Seam)
    requires WellFormed(m) && Height(m) >= 1 && |seam.indices| >= m.width
    requires Distinct(m.originalIndices) && SeamHitsEveryColumn(m, seam)
    ensures CanCarveHorizontal(m, seam)
    ensures forall c :: 0 <= c < m.width ==>
      ColumnCells(CarveHorizontal(m, seam), c) == DropTagged(ColumnCells(m, c), seam.indices[c])
  {
    assert CanCarveHorizontal(m, seam) by {
      forall c | 0 <= c < m.width
        ensures |KeptRows(TagGrid(m), m.width, c, seam.indices[c], Height(m))| + 1 == Height(m)
      {
        ExactColumn(m, seam, c);
      }
    }
    forall c | 0 <= c < m.width
      ensures ColumnCells(CarveHorizontal(m, seam), c) == DropTagged(ColumnCells(m, c), seam.indices[c])
    {
      ExactColumnCarve(m, seam, c);
    }
  }

  /** Column `c` of an exact carve is the input column without its seam cell. */
  lemma ExactColumnCarve<T>(m: Matrix<T>, seam: Seam, c: nat)
    requires CanCarveHorizontal(m, seam) && c < m.width
    requires Distinct(m.originalIndices) && seam.indices[c] in Column(TagGrid(m), m.width, c)
    ensures ColumnCells(CarveHorizontal(m, seam), c) == DropTagged(ColumnCells(m, c), seam.indices[c])
  {
    var h, t := Height(m), seam.indices[c];
    ExactColumn(m, seam, c);
    CarveHorizontalColumns(m, seam, c);
    DropTaggedKept(m, c, t, h);
    assert ColumnCells(m, c)[..h] == ColumnCells(m, c);
  }

  /** `carve_seam`: dispatch on the direction. */
  function CarveSeam<T>(m: Matrix<T>, seam: Seam): (r: Matrix<T>)
    requires WellFormed(m) && (seam.isVertical || CanCarveHorizontal(m, seam))
    ensures seam.isVertical ==> r == CarveVertical(m, seam)
    ensures !seam.isVertical ==> r == CarveHorizontal(m, seam)
    ensures |r.vector| <= |m.vector|
  {
    if seam.isVertical then CarveVertical(m, seam) else CarveHorizontal(m, seam)
  }

  /** What the source can carve without panicking. */
  predicate CanCarve<T>(m: Matrix<T>, seam: Seam) {
    WellFormed(m) && (seam.isVertical || CanCarveHorizontal(m, seam))
  }

  /** Carving never duplicates an identity tag nor invents one. */
  lemma CarveSeamKeepsTags<T>(m: Matrix<T>, seam: Seam)
    requires CanCarve(m, seam) && Distinct(m.originalIndices)
    ensures Distinct(CarveSeam(m, seam).originalIndices)
    ensures forall x :: x in CarveSeam(m, seam).originalIndices ==> x in m.originalIndices
  {
    var r := CarveSeam(m, seam);
    if seam.isVertical {
      SubsequenceKeepsDistinct(r.originalIndices, m.originalIndices);
      SubsequenceMembers(r.originalIndices, m.originalIndices);
    } else {
      CarveHorizontalKeepsTags(m, seam);
    }
  }

  /** Every seam of the list can be carved, each from the result of the previous ones. */
  predicate CanCarveAll<T>(m: Matrix<T>, seams: seq<Seam>)
    decreases |seams|
  {
    |seams| == 0 || (CanCarve(m, seams[0]) && CanCarveAll(CarveSeam(m, seams[0]), seams[1..]))
  }

  /** Carving a list of seams in order. */
  function CarveAll<T>(m: Matrix<T>, seams: seq<Seam>): (r: Matrix<T>)
    requires CanCarveAll(m, seams)
    ensures |r.vector| <= |m.vector|
    decreases |seams|
  {
    if |seams| == 0 then m else CarveAll(CarveSeam(m, seams[0]), seams[1..])
  }

  /** Identity tags stay distinct, and a subset of the original ones, through
      any number of carves; this is what lets a later seam name cells by tag. */
  lemma {:induction false} CarveAllKeepsTags<T>(m: Matrix<T>, seams: seq<Seam>)
    requires CanCarveAll(m, seams) && Distinct(m.originalIndices)
    ensures Distinct(CarveAll(m, seams).originalIndices)
    ensures forall x :: x in CarveAll(m, seams).originalIndices ==> x in m.originalIndices
    decreases |seams|
  {
    if |seams| > 0 {
      CarveSeamKeepsTags(m, seams[0]);
      CarveAllKeepsTags(CarveSeam(m, seams[0]), seams[1..]);
    }
  }

  // The carving tests of `src/matrix.rs`, on a 4 by 4 grid of arbitrary cells.

  /** A cell whose tag is not the target is kept in front of the rest of the scan. */
  lemma ScanKeepsHead<T>(v: seq<T>, t: seq<nat>, target: nat, pending: seq<nat>)
    requires |v| == |t| > 0 && t[0] != target
    ensures var rest := Scan(v[1..], t[1..], target, pending);
      Scan(v, t, target, pending) == ([v[0]] + rest.0, [t[0]] + rest.1)
  {
  }

  lemma PrependPrefix<T>(s: seq<T>, n: nat, rest: seq<T>)
    requires 0 < n <= |s|
    ensures [s[0]] + (s[1..][..n - 1] + rest) == s[..n] + rest
  {
    assert s[..n] == [s[0]] + s[1..][..n - 1];
  }

  /** Cells whose tag is not the target pass through the scan unchanged. */
  lemma {:induction false} ScanSkip<T>(v: seq<T>, t: seq<nat>, target: nat, pending: seq<nat>, n: nat)
    requires |v| == |t| && n <= |t|
    requires forall k :: 0 <= k < n ==> t[k] != target
    ensures var rest := Scan(v[n..], t[n..], target, pending);
      Scan(v, t, target, pending) == (v[..n] + rest.0, t[..n] + rest.1)
    decreases n
  {
    var s := Scan(v, t, target, pending);
    if n > 0 {
      ScanSkip(v[1..], t[1..], target, pending, n - 1);
      var rest := Scan(v[n..], t[n..], target, pending);
      assert v[1..][n - 1..] == v[n..] && t[1..][n - 1..] == t[n..];
      ScanKeepsHead(v, t, target, pending);
      PrependPrefix(v, n, rest.0);
      PrependPrefix(t, n, rest.1);
    } else {
      assert v[0..] == v && t[0..] == t;
      assert v[..0] + s.0 == s.0 && t[..0] + s.1 == s.1;
    }
  }

  /** The scan drops the target cell and then keeps everything up to the next pending tag. */
  lemma DropThenKeep<T>(v: seq<T>, t: seq<nat>, target: nat, next: nat, later: seq<nat>, n: nat)
    requires |v| == |t| && 0 < n <= |t| && t[0] == target
    requires forall k :: 1 <= k < n ==> t[k] != next
    ensures var rest := Scan(v[n..], t[n..], next, later);
      Scan(v, t, target, [next] + later) == (v[1..n] + rest.0, t[1..n] + rest.1)
  {
    assert ([next] + later)[1..] == later;
    assert Scan(v, t, target, [next] + later) == Scan(v[1..], t[1..], next, later);
    ScanSkip(v[1..], t[1..], next, later, n - 1);
    assert v[1..][n - 1..] == v[n..] && t[1..][n - 1..] == t[n..];
    assert v[1..][..n - 1] == v[1..n] && t[1..][..n - 1] == t[1..n];
  }

  /** A 4 by 4 scan whose seam tags sit at flat positions 0, 5, 10 and 15. */
  lemma DiagonalScan<T>(v: seq<T>, t: seq<nat>, a: nat, b: nat, c: nat, d: nat)
    requires |v| == |t| == 16 && t[0] == a && t[5] == b && t[10] == c && t[15] == d
    requires forall k :: 1 <= k < 5 ==> t[k] != b
    requires forall k :: 6 <= k < 10 ==> t[k] != c
    requires forall k :: 11 <= k < 15 ==> t[k] != d
    ensures Scan(v, t, a, [b, c, d]) == (v[1..5] + v[6..10] + v[11..15], t[1..5] + t[6..10] + t[11..15])
  {
    var r3 := Scan(v[15..], t[15..], d, []);
    assert r3 == ([], []) by {
      assert |v[15..]| == 1 && t[15..][0] == d;
      assert r3 == Scan(v[15..][1..], t[15..][1..], d, []);
    }
    var r2 := Scan(v[10..], t[10..], c, [d]);
    assert r2.0 == v[11..15] && r2.1 == t[11..15] by {
      DropThenKeep(v[10..], t[10..], c, d, [], 5);
      assert v[10..][5..] == v[15..] && t[10..][5..] == t[15..];
      assert v[10..][1..5] == v[11..15] && t[10..][1..5] == t[11..15];
      assert [d] + [] == [d];
    }
    var r1 := Scan(v[5..], t[5..], b, [c, d]);
    assert r1.0 == v[6..10] + r2.0 && r1.1 == t[6..10] + r2.1 by {
      DropThenKeep(v[5..], t[5..], b, c, [d], 5);
      assert v[5..][5..] == v[10..] && t[5..][5..] == t[10..];
      assert v[5..][1..5] == v[6..10] && t[5..][1..5] == t[6..10];
      assert [c] + [d] == [c, d];
    }
    var r := Scan(v, t, a, [b, c, d]);
    assert r.0 == v[1..5] + r1.0 && r.1 == t[1..5] + r1.1 by {
      DropThenKeep(v, t, a, b, [c, d], 5);
      assert [b] + [c, d] == [b, c, d];
    }
    assert r.0 == v[1..5] + v[6..10] + v[11..15];
    assert r.1 == t[1..5] + t[6..10] + t[11..15];
  }

  /** The twelve cells of a 4 by 4 grid off its main diagonal, row by row. */
  lemma OffDiagonal<T>(s: seq<T>)
    requires |s| == 16
    ensures s[1..5] + s[6..10] + s[11..15]
      == [s[1], s[2], s[3], s[4], s[6], s[7], s[8], s[9], s[11], s[12], s[13], s[14]]
  {
    assert s[1..5] == [s[1], s[2], s[3], s[4]];
    assert s[6..10] == [s[6], s[7], s[8], s[9]];
    assert s[11..15] == [s[11], s[12], s[13], s[14]];
  }

  /** The vertical test on tags left out of order by an earlier horizontal carve:
      the seam is found by tag, not by position, so positions 0, 5, 10 and 15 go. */
  lemma MixedOrderVerticalCarve<T>(m: Matrix<T>, seam: Seam)
    requires m.width == 4 && |m.vector| == 16
    requires m.originalIndices == [0, 5, 2, 3, 4, 9, 6, 7, 8, 13, 10, 11, 12, 17, 14, 15]
    requires seam == Seam([0, 9, 10, 15], true)
    ensures WellFormed(m)
    ensures var v := m.vector;
      CarveVertical(m, seam)
        == Matrix(3, v[1..5] + v[6..10] + v[11..15], [5, 2, 3, 4, 6, 7, 8, 13, 11, 12, 17, 14])
  {
    var t := m.originalIndices;
    DiagonalScan(m.vector, t, 0, 9, 10, 15);
    assert seam.indices[1..] == [9, 10, 15];
    OffDiagonal(t);
    assert t[1..5] + t[6..10] + t[11..15] == [5, 2, 3, 4, 6, 7, 8, 13, 11, 12, 17, 14];
  }

  /** The vertical test: the diagonal seam leaves three columns of the untouched cells. */
  lemma IdentityVerticalCarve<T>(v: seq<T>, seam: Seam)
    requires |v| == 16 && seam == Seam([0, 5, 10, 15], true)
    ensures WellFormed(New(v, 4))
    ensures CarveVertical(New(v, 4), seam)
      == Matrix(3, v[1..5] + v[6..10] + v[11..15], [1, 2, 3, 4, 6, 7, 8, 9, 11, 12, 13, 14])
  {
    var t := New(v, 4).originalIndices;
    DiagonalScan(v, t, 0, 5, 10, 15);
    assert seam.indices[1..] == [5, 10, 15];
    assert t[1..5] + t[6..10] + t[11..15] == [1, 2, 3, 4, 6, 7, 8, 9, 11, 12, 13, 14];
  }

  /** Filtering four cells of which exactly the one at `r` carries the tag. */
  lemma DropOneOfFour<T>(cells: seq<(T, nat)>, t: nat, r: nat)
    requires |cells| == 4 && r < 4
    requires forall i :: 0 <= i < 4 ==> (cells[i].1 == t <==> i == r)
    ensures var d := DropTagged(cells, t);
      |d| == 3 && forall k :: 0 <= k < 3 ==> d[k] == cells[if k < r then k else k + 1]
  {
    var d1 := DropTagged(cells[..1], t);
    var d2 := DropTagged(cells[..2], t);
    var d3 := DropTagged(cells[..3], t);
    assert DropTagged(cells[..0], t) == [];
    assert d1 == (if r == 0 then [] else [cells[0]]) by { DropTaggedStep(cells, t, 1); }
    assert d2 == d1 + (if r == 1 then [] else [cells[1]]) by { DropTaggedStep(cells, t, 2); }
    assert d3 == d2 + (if r == 2 then [] else [cells[2]]) by { DropTaggedStep(cells, t, 3); }
    assert cells[..4] == cells;
    assert DropTagged(cells, t) == d3 + (if r == 3 then [] else [cells[3]]) by { DropTaggedStep(cells, t, 4); }
  }

  /** The columns of a fresh 4 by 4 matrix. */
  lemma FreshColumns<T>(v: seq<T>)
    requires |v| == 16
    ensures WellFormed(New(v, 4)) && Height(New(v, 4)) == 4
    ensures forall i, c :: 0 <= i < 4 && 0 <= c < 4 ==>
      ColumnCells(New(v, 4), c)[i] == (v[4 * i + c], 4 * i + c)
  {
    var m := New(v, 4);
    forall i, c | 0 <= i < 4 && 0 <= c < 4
      ensures ColumnCells(m, c)[i] == (v[4 * i + c], 4 * i + c)
    {
      CellAt(m, i, c);
      TagAt(m, i, c);
    }
  }

  /** Column `c` of `r` is column `c` of a fresh 4 by 4 matrix over `v` without row `row`. */
  ghost predicate SkipsRow<T>(r: Matrix<T>, v: seq<T>, c: nat, row: nat)
    requires WellFormed(r) && c < r.width && |v| == 16
  {
    var col := ColumnCells(r, c);
    |col| == 3 && forall k :: 0 <= k < 3 ==>
      var j := if k < row then k else k + 1; 4 * j + c < 16 && col[k] == (v[4 * j + c], 4 * j + c)
  }

  /** Column `c` of the carve of a fresh 4 by 4 matrix whose seam takes row `row` there. */
  lemma FreshColumnCarve<T>(v: seq<T>, seam: Seam, c: nat, row: nat)
    requires |v| == 16 && |seam.indices| >= 4 && c < 4 && row < 4 && seam.indices[c] == 4 * row + c
    requires CanCarveHorizontal(New(v, 4), seam)
    ensures SkipsRow(CarveHorizontal(New(v, 4), seam), v, c, row)
  {
    var m := New(v, 4);
    FreshColumns(v);
    assert Column(TagGrid(m), 4, c)[row] == seam.indices[c] by {
      assert ColumnCells(m, c)[row] == (CellGrid(m)[row][c], TagGrid(m)[row][c]);
    }
    ExactColumnCarve(m, seam, c);
    DropOneOfFour(ColumnCells(m, c), seam.indices[c], row);
  }

  /** The horizontal test seam names one cell in each column of a fresh 4 by 4 matrix. */
  lemma SeamHitsFresh<T>(v: seq<T>, seam: Seam)
    requires |v| == 16 && seam == Seam([0, 5, 6, 11], false)
    ensures WellFormed(New(v, 4)) && Height(New(v, 4)) == 4 && Distinct(New(v, 4).originalIndices)
    ensures SeamHitsEveryColumn(New(v, 4), seam)
  {
    var m := New(v, 4);
    FreshColumns(v);
    var rows := [0, 1, 1, 2];
    forall c | 0 <= c < 4 ensures seam.indices[c] in Column(TagGrid(m), 4, c) {
      assert seam.indices[c] == 4 * rows[c] + c;
      assert ColumnCells(m, c)[rows[c]] == (CellGrid(m)[rows[c]][c], TagGrid(m)[rows[c]][c]);
      assert Column(TagGrid(m), 4, c)[rows[c]] == seam.indices[c];
    }
  }

  /** The first six cells of a 3 by 4 matrix whose columns skip rows 0, 1, 1 and 2 of the fresh grid. */
  lemma AssembleTop<T>(r: Matrix<T>, v: seq<T>)
    requires WellFormed(r) && r.width == 4 && Height(r) == 3 && |r.vector| == 12 && |v| == 16
    requires SkipsRow(r, v, 0, 0) && SkipsRow(r, v, 1, 1) && SkipsRow(r, v, 2, 1) && SkipsRow(r, v, 3, 2)
    ensures r.vector[0] == v[4] && r.originalIndices[0] == 4
    ensures r.vector[1] == v[1] && r.originalIndices[1] == 1
    ensures r.vector[2] == v[2] && r.originalIndices[2] == 2
    ensures r.vector[3] == v[3] && r.originalIndices[3] == 3
    ensures r.vector[4] == v[8] && r.originalIndices[4] == 8
    ensures r.vector[5] == v[9] && r.originalIndices[5] == 9
  {
    assert r.vector[0] == v[4] && r.originalIndices[0] == 4 by { CellAt(r, 0, 0); TagAt(r, 0, 0); assert ColumnCells(r, 0)[0] == (v[4], 4); }
    assert r.vector[1] == v[1] && r.originalIndices[1] == 1 by { CellAt(r, 0, 1); TagAt(r, 0, 1); assert ColumnCells(r, 1)[0] == (v[1], 1); }
    assert r.vector[2] == v[2] && r.originalIndices[2] == 2 by { CellAt(r, 0, 2); TagAt(r, 0, 2); assert ColumnCells(r, 2)[0] == (v[2], 2); }
    assert r.vector[3] == v[3] && r.originalIndices[3] == 3 by { CellAt(r, 0, 3); TagAt(r, 0, 3); assert ColumnCells(r, 3)[0] == (v[3], 3); }
    assert r.vector[4] == v[8] && r.originalIndices[4] == 8 by { CellAt(r, 1, 0); TagAt(r, 1, 0); assert ColumnCells(r, 0)[1] == (v[8], 8); }
    assert r.vector[5] == v[9] && r.originalIndices[5] == 9 by { CellAt(r, 1, 1); TagAt(r, 1, 1); assert ColumnCells(r, 1)[1] == (v[9], 9); }
  }

  /** The last six cells of the same matrix. */
  lemma AssembleBottom<T>(r: Matrix<T>, v: seq<T>)
    requires WellFormed(r) && r.width == 4 && Height(r) == 3 && |r.vector| == 12 && |v| == 16
    requires SkipsRow(r, v, 0, 0) && SkipsRow(r, v, 1, 1) && SkipsRow(r, v, 2, 1) && SkipsRow(r, v, 3, 2)
    ensures r.vector[6] == v[10] && r.originalIndices[6] == 10
    ensures r.vector[7] == v[7] && r.originalIndices[7] == 7
    ensures r.vector[8] == v[12] && r.originalIndices[8] == 12
    ensures r.vector[9] == v[13] && r.originalIndices[9] == 13
    ensures r.vector[10] == v[14] && r.originalIndices[10] == 14
    ensures r.vector[11] == v[15] && r.originalIndices[11] == 15
  {
    assert r.vector[6] == v[10] && r.originalIndices[6] == 10 by { CellAt(r, 1, 2); TagAt(r, 1, 2); assert ColumnCells(r, 2)[1] == (v[10], 10); }
    assert r.vector[7] == v[7] && r.originalIndices[7] == 7 by { CellAt(r, 1, 3); TagAt(r, 1, 3); assert ColumnCells(r, 3)[1] == (v[7], 7); }
    assert r.vector[8] == v[12] && r.originalIndices[8] == 12 by { CellAt(r, 2, 0); TagAt(r, 2, 0); assert ColumnCells(r, 0)[2] == (v[12], 12); }
    assert r.vector[9] == v[13] && r.originalIndices[9] == 13 by { CellAt(r, 2, 1); TagAt(r, 2, 1); assert ColumnCells(r, 1)[2] == (v[13], 13); }
    assert r.vector[10] == v[14] && r.originalIndices[10] == 14 by { CellAt(r, 2, 2); TagAt(r, 2, 2); assert ColumnCells(r, 2)[2] == (v[14], 14); }
    assert r.vector[11] == v[15] && r.originalIndices[11] == 15 by { CellAt(r, 2, 3); TagAt(r, 2, 3); assert ColumnCells(r, 3)[2] == (v[15], 15); }
  }

  /** A 3 by 4 matrix whose columns skip rows 0, 1, 1 and 2 of the fresh grid. */
  lemma AssembleCarve<T>(r: Matrix<T>, v: seq<T>)
    requires WellFormed(r) && r.width == 4 && Height(r) == 3 && |r.vector| == 12 && |v| == 16
    requires SkipsRow(r, v, 0, 0) && SkipsRow(r, v, 1, 1) && SkipsRow(r, v, 2, 1) && SkipsRow(r, v, 3, 2)
    ensures r == Matrix(4, [v[4], v[1], v[2], v[3], v[8], v[9], v[10], v[7], v[12], v[13], v[14], v[15]],
                           [4, 1, 2, 3, 8, 9, 10, 7, 12, 13, 14, 15])
  {
    AssembleTop(r, v);
    AssembleBottom(r, v);
    assert r.vector == [v[4], v[1], v[2], v[3], v[8], v[9], v[10], v[7], v[12], v[13], v[14], v[15]];
    assert r.originalIndices == [4, 1, 2, 3, 8, 9, 10, 7, 12, 13, 14, 15];
  }

  /** The horizontal test: each column closes up over the cell the seam names,
      rows 0, 1, 1 and 2 from left to right. */
  lemma IdentityHorizontalCarve<T>(v: seq<T>, seam: Seam)
    requires |v| == 16 && seam == Seam([0, 5, 6, 11], false)
    ensures CanCarveHorizontal(New(v, 4), seam)
    ensures CarveHorizontal(New(v, 4), seam)
      == Matrix(4, [v[4], v[1], v[2], v[3], v[8], v[9], v[10], v[7], v[12], v[13], v[14], v[15]],
                   [4, 1, 2, 3, 8, 9, 10, 7, 12, 13, 14, 15])
  {
    var m := New(v, 4);
    SeamHitsFresh(v, seam);
    CarveHorizontalExact(m, seam);
    var r := CarveHorizontal(m, seam);
    FreshColumnCarve(v, seam, 0, 0);
    FreshColumnCarve(v, seam, 1, 1);
    FreshColumnCarve(v, seam, 2, 1);
    FreshColumnCarve(v, seam, 3, 2);
    AssembleCarve(r, v);
  }
}
