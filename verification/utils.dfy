/** The helpers of `src/utils.rs` over the tagged matrix: the grayscale and
    gradient passes that turn an image into energies, and the stand-alone
    horizontal carve. The pixel arithmetic (luma weights, squares, square
    root) is left to caller-supplied functions; what is modelled is the shape
    of the result, the mask of removed cells and the neighbour lookups. */
module Utils {
  import opened Seqs
  import opened Energies
  import opened TaggedMatrix

  // ---------------------------------------------------------------------------
  // grayscale

  /** `grayscale`: one value per cell from that cell's colour alone. */
  function Grayscale<C>(m: Matrix<C>, luma: C -> Energy): (r: Matrix<Energy>)
    ensures r.width == m.width && r.originalIndices == m.originalIndices
    ensures |r.vector| == |m.vector|
    ensures forall k :: 0 <= k < |m.vector| ==> r.vector[k] == luma(m.vector[k])
  {
    Matrix(m.width, seq(|m.vector|, k requires 0 <= k < |m.vector| => luma(m.vector[k])), m.originalIndices)
  }

  /** The scan of a vertical carve looks only at tags, so mapping the values
      before or after it gives the same cells. */
  lemma {:induction false} ScanMaps<C>(vector: seq<C>, mapped: seq<Energy>, tags: seq<nat>, target: nat, pending: seq<nat>, luma: C -> Energy)
    requires |vector| == |tags| == |mapped|
    requires forall k :: 0 <= k < |vector| ==> mapped[k] == luma(vector[k])
    ensures var before, after := Scan(mapped, tags, target, pending), Scan(vector, tags, target, pending);
      && before.1 == after.1
      && |before.0| == |after.0|
      && forall k :: 0 <= k < |after.0| ==> before.0[k] == luma(after.0[k])
    decreases |vector|
  {
    if |vector| > 0 {
      if tags[0] == target {
        if |pending| == 0 {
          ScanMaps(vector[1..], mapped[1..], tags[1..], target, [], luma);
        } else {
          ScanMaps(vector[1..], mapped[1..], tags[1..], pending[0], pending[1..], luma);
        }
      } else {
        ScanMaps(vector[1..], mapped[1..], tags[1..], target, pending, luma);
        var before, after := Scan(mapped, tags, target, pending), Scan(vector, tags, target, pending);
        var restBefore, restAfter := Scan(mapped[1..], tags[1..], target, pending), Scan(vector[1..], tags[1..], target, pending);
        assert before.0 == [mapped[0]] + restBefore.0 && after.0 == [vector[0]] + restAfter.0;
        forall k | 0 <= k < |after.0| ensures before.0[k] == luma(after.0[k]) {
          if k > 0 {
            assert before.0[k] == restBefore.0[k - 1] && after.0[k] == restAfter.0[k - 1];
          }
        }
      }
    }
  }

  /** Grayscale before or after a vertical carve gives the same matrix, so the
      energies of a carved image can be recomputed from the carved colours. */
  lemma GrayscaleCommutesWithVerticalCarve<C>(m: Matrix<C>, seam: Seam, luma: C -> Energy)
    requires WellFormed(m)
    ensures CarveVertical(Grayscale(m, luma), seam) == Grayscale(CarveVertical(m, seam), luma)
  {
    if |seam.indices| > 0 {
      var g := Grayscale(m, luma);
      ScanMaps(m.vector, g.vector, m.originalIndices, seam.indices[0], seam.indices[1..], luma);
      var lhs, rhs := CarveVertical(g, seam), Grayscale(CarveVertical(m, seam), luma);
      assert lhs.vector == rhs.vector;
    }
  }

  // ---------------------------------------------------------------------------
  // gradient_magnitude

  /** The value of a lookup: the entry found, or 0.0 when none was found. */
  function FoundValue(s: seq<Energy>, k: Option<nat>): int
    requires k.Some? ==> k.value < |s| && Live(s[k.value])
  {
    if k.Some? then s[k.value].v else 0
  }

  /** Row of the nearest live cell strictly above `(i, j)`. */
  function AboveOf(g: seq<seq<Energy>>, w: nat, i: nat, j: nat): (r: Option<nat>)
    requires Rect(g, w) && i < |g| && j < w
    ensures r.Some? ==> r.value < i && Live(g[r.value][j])
    ensures r.Some? ==> forall k :: r.value < k < i ==> !Live(g[k][j])
    ensures r.None? ==> forall k :: 0 <= k < i ==> !Live(g[k][j])
  {
    NearestLiveBefore(Column(g, w, j), i)
  }

  /** Row of the nearest live cell at or below `(i, j)`: the search starts at row `i`. */
  function BelowOf(g: seq<seq<Energy>>, w: nat, i: nat, j: nat): (r: Option<nat>)
    requires Rect(g, w) && i < |g| && j < w
    ensures r.Some? ==> i <= r.value < |g| && Live(g[r.value][j])
    ensures r.Some? ==> forall k :: i <= k < r.value ==> !Live(g[k][j])
    ensures r.None? ==> forall k :: i <= k < |g| ==> !Live(g[k][j])
  {
    NearestLiveFrom(Column(g, w, j), i)
  }

  /** Column of the nearest live cell strictly left of `(i, j)`. */
  function LeftOf(g: seq<seq<Energy>>, w: nat, i: nat, j: nat): (r: Option<nat>)
    requires Rect(g, w) && i < |g| && j < w
    ensures r.Some? ==> r.value < j && Live(g[i][r.value])
    ensures r.Some? ==> forall k :: r.value < k < j ==> !Live(g[i][k])
    ensures r.None? ==> forall k :: 0 <= k < j ==> !Live(g[i][k])
  {
    NearestLiveBefore(g[i], j)
  }

  /** Column of the nearest live cell at or right of `(i, j)`: the search starts at column `j`. */
  function RightOf(g: seq<seq<Energy>>, w: nat, i: nat, j: nat): (r: Option<nat>)
    requires Rect(g, w) && i < |g| && j < w
    ensures r.Some? ==> j <= r.value < w && Live(g[i][r.value])
    ensures r.Some? ==> forall k :: j <= k < r.value ==> !Live(g[i][k])
    ensures r.None? ==> forall k :: j <= k < w ==> !Live(g[i][k])
  {
    NearestLiveFrom(g[i], j)
  }

  /** The gradient of one cell: a removed cell stays removed; a live one gets
      `magnitude(above - below, left - right)`. */
  function GradientAt(g: seq<seq<Energy>>, w: nat, i: nat, j: nat, magnitude: (int, int) -> Energy): Energy
    requires Rect(g, w) && i < |g| && j < w
  {
    if !Live(g[i][j]) then Inf
    else
      var col := Column(g, w, j);
      var above := FoundValue(col, AboveOf(g, w, i, j));
      var below := FoundValue(col, BelowOf(g, w, i, j));
      var left := FoundValue(g[i], LeftOf(g, w, i, j));
      var right := FoundValue(g[i], RightOf(g, w, i, j));
      magnitude(above - below, left - right)
  }

  /** The gradient of every cell of a rectangle, row by row. */
  function GradientRows(g: seq<seq<Energy>>, w: nat, magnitude: (int, int) -> Energy): (rows: seq<seq<Energy>>)
    requires Rect(g, w)
    ensures |rows| == |g| && Rect(rows, w)
    ensures forall i, j :: 0 <= i < |g| && 0 <= j < w ==> rows[i][j] == GradientAt(g, w, i, j, magnitude)
  {
    seq(|g|, i requires 0 <= i < |g| => seq(w, j requires 0 <= j < w => GradientAt(g, w, i, j, magnitude)))
  }

  /** Rows of width `w` flattened and padded with `INFINITY` up to length `n`. */
  function Padded(rows: seq<seq<Energy>>, w: nat, n: nat): (v: seq<Energy>)
    requires Rect(rows, w) && |rows| * w <= n
    ensures |v| == n && v[..|rows| * w] == Flatten(rows)
    ensures forall k :: |rows| * w <= k < n ==> v[k] == Inf
  {
    FlattenLength(rows, w);
    var body := Flatten(rows);
    var v := body + seq(n - |rows| * w, _ => Inf);
    assert v[..|rows| * w] == body;
    v
  }

  /** The complete rows of a padded vector are the rows it was built from. */
  lemma PaddedGrid(rows: seq<seq<Energy>>, w: nat, n: nat)
    requires Rect(rows, w) && |rows| * w <= n
    ensures Grid(Padded(rows, w, n), w, |rows|) == rows
  {
    RowsOfFlatten(rows, w);
  }

  /** `gradient_magnitude`. The result starts as all `INFINITY` and only the
      complete rows are rewritten, so cells of a trailing partial row stay infinite. */
  function Gradient(m: Matrix<Energy>, magnitude: (int, int) -> Energy): (r: Matrix<Energy>)
    requires WellFormed(m)
    ensures WellFormed(r) && r.width == m.width && r.originalIndices == m.originalIndices
    ensures |r.vector| == |m.vector| && Height(r) == Height(m)
    ensures forall i, j :: 0 <= i < Height(m) && 0 <= j < m.width ==>
      CellGrid(r)[i][j] == GradientAt(CellGrid(m), m.width, i, j, magnitude)
    ensures forall k :: Height(m) * m.width <= k < |m.vector| ==> r.vector[k] == Inf
  {
    var rows := GradientRows(CellGrid(m), m.width, magnitude);
    PaddedGrid(rows, m.width, |m.vector|);
    Matrix(m.width, Padded(rows, m.width, |m.vector|), m.originalIndices)
  }

  /** A removed cell stays removed, and a live cell gets a finite value exactly
      when the magnitude function gives one. */
  lemma GradientKeepsMask(m: Matrix<Energy>, magnitude: (int, int) -> Energy, i: nat, j: nat)
    requires WellFormed(m) && i < Height(m) && j < m.width
    ensures !Live(CellGrid(m)[i][j]) ==> CellGrid(Gradient(m, magnitude))[i][j] == Inf
    ensures (forall a, b :: magnitude(a, b).Fin?) ==>
      (Live(CellGrid(Gradient(m, magnitude))[i][j]) <==> Live(CellGrid(m)[i][j]))
  {
  }

  /** For a live cell the below and right lookups find the cell itself, so its
      gradient compares the cell with its upper and left neighbours only. */
  lemma GradientOfLiveCell(g: seq<seq<Energy>>, w: nat, i: nat, j: nat, magnitude: (int, int) -> Energy)
    requires Rect(g, w) && i < |g| && j < w && Live(g[i][j])
    ensures BelowOf(g, w, i, j) == Some(i) && RightOf(g, w, i, j) == Some(j)
    ensures var up, before := AboveOf(g, w, i, j), LeftOf(g, w, i, j);
      GradientAt(g, w, i, j, magnitude) ==
        magnitude((if up.Some? then g[up.value][j].v else 0) - g[i][j].v,
                  (if before.Some? then g[i][before.value].v else 0) - g[i][j].v)
  {
  }

  // ---------------------------------------------------------------------------
  // carve_horizontal_seam

  /** Entries of column `c` of `g` at the listed rows. */
  function Gather<T>(g: seq<seq<T>>, w: nat, rows: seq<nat>, c: nat): (r: seq<T>)
    requires Rect(g, w) && c < w && forall k :: 0 <= k < |rows| ==> rows[k] < |g|
    ensures |r| == |rows|
  {
    seq(|rows|, k requires 0 <= k < |rows| => g[rows[k]][c])
  }

  /** The value stored at flat position `i * width + j`. */
  function FlatCell<T>(m: Matrix<T>, i: nat, j: nat): (x: T)
    requires WellFormed(m) && i < Height(m) && j < m.width
    ensures x == CellGrid(m)[i][j]
  {
    CellAt(m, i, j);
    m.vector[i * m.width + j]
  }

  /** The tag stored at flat position `i * width + j`. */
  function FlatTag<T>(m: Matrix<T>, i: nat, j: nat): (t: nat)
    requires WellFormed(m) && i < Height(m) && j < m.width
    ensures t == TagGrid(m)[i][j]
  {
    TagAt(m, i, j);
    m.originalIndices[i * m.width + j]
  }

  lemma GatherSnoc<T>(g: seq<seq<T>>, w: nat, rows: seq<nat>, c: nat, i: nat)
    requires Rect(g, w) && c < w && i < |g| && forall k :: 0 <= k < |rows| ==> rows[k] < |g|
    ensures Gather(g, w, rows + [i], c) == Gather(g, w, rows, c) + [g[i][c]]
  {
  }

  /** The per-column pass: the values and tags of column `c` whose tag differs
      from `target`, top to bottom, read from the flat vectors. */
  method KeepColumn<T>(m: Matrix<T>, target: nat, c: nat) returns (values: seq<T>, tags: seq<nat>)
    requires WellFormed(m) && c < m.width
    ensures var kept := KeptRows(TagGrid(m), m.width, c, target, Height(m));
      && values == Gather(CellGrid(m), m.width, kept, c)
      && tags == Gather(TagGrid(m), m.width, kept, c)
  {
    var w, h := m.width, Height(m);
    ghost var cells, ids := CellGrid(m), TagGrid(m);
    values, tags := [], [];
    var row := 0;
    while row < h
      invariant row <= h
      invariant values == Gather(cells, w, KeptRows(ids, w, c, target, row), c)
      invariant tags == Gather(ids, w, KeptRows(ids, w, c, target, row), c)
    {
      var index := FlatTag(m, row, c);
      KeepColumnStep(m, target, c, row);
      if target != index {
        values := values + [FlatCell(m, row, c)];
        tags := tags + [index];
      }
      row := row + 1;
    }
  }

  /** One more row of the per-column pass: the kept lists grow by that row's
      cell exactly when its tag differs from `target`. */
  lemma KeepColumnStep<T>(m: Matrix<T>, target: nat, c: nat, row: nat)
    requires WellFormed(m) && c < m.width && row < Height(m)
    ensures var w, before, next := m.width, KeptRows(TagGrid(m), m.width, c, target, row),
        KeptRows(TagGrid(m), m.width, c, target, row + 1);
      && (TagGrid(m)[row][c] != target ==>
            && Gather(CellGrid(m), w, next, c) == Gather(CellGrid(m), w, before, c) + [CellGrid(m)[row][c]]
            && Gather(TagGrid(m), w, next, c) == Gather(TagGrid(m), w, before, c) + [TagGrid(m)[row][c]])
      && (TagGrid(m)[row][c] == target ==> next == before)
  {
    var w := m.width;
    var before := KeptRows(TagGrid(m), w, c, target, row);
    if TagGrid(m)[row][c] != target {
      GatherSnoc(CellGrid(m), w, before, c, row);
      GatherSnoc(TagGrid(m), w, before, c, row);
    }
  }

  /** The per-column pass over every column, each against its own seam entry. */
  method KeepColumns<T>(m: Matrix<T>, seam: Seam) returns (colValues: seq<seq<T>>, colTags: seq<seq<nat>>)
    requires WellFormed(m) && |seam.indices| >= m.width
    ensures |colValues| == m.width && |colTags| == m.width
    ensures forall c :: 0 <= c < m.width ==>
      var kept := KeptColumns(m, seam)[c];
      colValues[c] == Gather(CellGrid(m), m.width, kept, c) && colTags[c] == Gather(TagGrid(m), m.width, kept, c)
  {
    colValues, colTags := [], [];
    var c := 0;
    while c < m.width
      invariant c <= m.width && |colValues| == c && |colTags| == c
      invariant forall k :: 0 <= k < c ==>
        var kept := KeptColumns(m, seam)[k];
        colValues[k] == Gather(CellGrid(m), m.width, kept, k) && colTags[k] == Gather(TagGrid(m), m.width, kept, k)
    {
      var values, tags := KeepColumn(m, seam.indices[c], c);
      colValues, colTags := colValues + [values], colTags + [tags];
      c := c + 1;
    }
  }

  /** The per-row pass: entry `i` of every column list, left to right. */
  method RowOf<T>(columns: seq<seq<T>>, i: nat) returns (row: seq<T>)
    requires forall c :: 0 <= c < |columns| ==> i < |columns[c]|
    ensures |row| == |columns| && forall c :: 0 <= c < |columns| ==> row[c] == columns[c][i]
  {
    row := [];
    var c := 0;
    while c < |columns|
      invariant c <= |columns| && |row| == c
      invariant forall k :: 0 <= k < c ==> row[k] == columns[k][i]
    {
      row := row + [columns[c][i]];
      c := c + 1;
    }
  }

  /** The first `n` rows read across the column lists. */
  method Rebuild<T>(columns: seq<seq<T>>, n: nat) returns (rows: seq<seq<T>>)
    requires forall c :: 0 <= c < |columns| ==> n <= |columns[c]|
    ensures |rows| == n && Rect(rows, |columns|)
    ensures forall i, c :: 0 <= i < n && 0 <= c < |columns| ==> rows[i][c] == columns[c][i]
  {
    rows := [];
    var i := 0;
    while i < n
      invariant i <= n && |rows| == i && Rect(rows, |columns|)
      invariant forall k, c :: 0 <= k < i && 0 <= c < |columns| ==> rows[k][c] == columns[c][k]
    {
      var row := RowOf(columns, i);
      rows := rows + [row];
      i := i + 1;
    }
  }

  /** Rebuilding rows from the gathered columns regroups the kept cells. */
  lemma RebuiltIsRegroup<T>(g: seq<seq<T>>, kept: seq<seq<nat>>, w: nat, n: nat, columns: seq<seq<T>>, rows: seq<seq<T>>)
    requires Rect(g, w) && |kept| == w && |columns| == w
    requires forall c :: 0 <= c < w ==> n <= |kept[c]|
    requires forall c, i :: 0 <= c < w && 0 <= i < |kept[c]| ==> kept[c][i] < |g|
    requires forall c :: 0 <= c < w ==> columns[c] == Gather(g, w, kept[c], c) && n <= |columns[c]|
    requires |rows| == n && Rect(rows, w)
    requires forall i, c :: 0 <= i < n && 0 <= c < w ==> rows[i][c] == columns[c][i]
    ensures rows == Regroup(g, kept, w, n)
  {
    var re := Regroup(g, kept, w, n);
    forall i | 0 <= i < n ensures rows[i] == re[i] {
      forall c | 0 <= c < w ensures rows[i][c] == re[i][c] {
        assert columns[c][i] == g[kept[c][i]][c];
      }
    }
  }

  /** `carve_horizontal_seam` of `src/utils.rs`: the per-column filter, then
      `height - 1` rows rebuilt row-major and concatenated. It builds a new
      matrix and computes the same carve as the tagged matrix's own method. */
  method CarveHorizontalSeam<T>(m: Matrix<T>, seam: Seam) returns (r: Matrix<T>)
    requires CanCarveHorizontal(m, seam)
    ensures r == CarveHorizontal(m, seam)
    ensures r.width == m.width && Height(r) + 1 == Height(m)
  {
    var w, h := m.width, Height(m);
    var colValues, colTags := KeepColumns(m, seam);
    var rowsValues := Rebuild(colValues, h - 1);
    var rowsTags := Rebuild(colTags, h - 1);
    ghost var kept := KeptColumns(m, seam);
    RebuiltIsRegroup(CellGrid(m), kept, w, h - 1, colValues, rowsValues);
    RebuiltIsRegroup(TagGrid(m), kept, w, h - 1, colTags, rowsTags);
    r := Matrix(w, Flatten(rowsValues), Flatten(rowsTags));
  }
}
