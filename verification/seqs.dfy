/** Sequence helpers shared by every iteration of the engine: distinctness of
    identity tags, order-preserving sub-sequences, and the row / column views
    of a flat row-major vector tagged with a width. */
module Seqs {

  /** No two positions of `s` hold the same value. */
  predicate Distinct<T(==)>(s: seq<T>) {
    forall i, j :: 0 <= i < j < |s| ==> s[i] != s[j]
  }

  /** `a` can be obtained from `b` by deleting entries, keeping the order. */
  predicate IsSubsequence<T(==)>(a: seq<T>, b: seq<T>)
    decreases |b|
  {
    || |a| == 0
    || (&& |b| > 0
        && ((a[0] == b[0] && IsSubsequence(a[1..], b[1..])) || IsSubsequence(a, b[1..])))
  }

  /** The set of entries of a sequence. */
  function Elems<T>(s: seq<T>): set<T> {
    set x | x in s
  }

  lemma DistinctCons<T>(x: T, s: seq<T>)
    ensures Distinct([x] + s) <==> x !in s && Distinct(s)
  {
    var t := [x] + s;
    if x !in s && Distinct(s) {
      forall i, j | 0 <= i < j < |t| ensures t[i] != t[j] {
        if i > 0 {
          assert t[i] == s[i - 1] && t[j] == s[j - 1];
        } else {
          assert t[j] == s[j - 1];
        }
      }
    }
    if Distinct(t) {
      forall k | 0 <= k < |s| ensures s[k] != x {
        assert t[0] == x && t[k + 1] == s[k];
      }
      forall i, j | 0 <= i < j < |s| ensures s[i] != s[j] {
        assert s[i] == t[i + 1] && s[j] == t[j + 1];
      }
    }
  }

  lemma {:induction false} SubsequenceRefl<T>(s: seq<T>)
    ensures IsSubsequence(s, s)
    decreases |s|
  {
    if |s| > 0 {
      SubsequenceRefl(s[1..]);
    }
  }

  /** Every entry of a sub-sequence is an entry of the whole. */
  lemma {:induction false} SubsequenceMembers<T>(a: seq<T>, b: seq<T>)
    requires IsSubsequence(a, b)
    ensures forall x :: x in a ==> x in b
    decreases |b|
  {
    if |a| == 0 {
    } else if a[0] == b[0] && IsSubsequence(a[1..], b[1..]) {
      SubsequenceMembers(a[1..], b[1..]);
      forall x | x in a ensures x in b {
        if x != a[0] {
          assert x in a[1..];
        }
      }
    } else {
      SubsequenceMembers(a, b[1..]);
    }
  }

  /** Deleting entries cannot create a repetition. */
  lemma {:induction false} SubsequenceKeepsDistinct<T>(a: seq<T>, b: seq<T>)
    requires IsSubsequence(a, b) && Distinct(b)
    ensures Distinct(a)
    decreases |b|
  {
    if |a| == 0 {
    } else if a[0] == b[0] && IsSubsequence(a[1..], b[1..]) {
      assert b == [b[0]] + b[1..];
      DistinctCons(b[0], b[1..]);
      SubsequenceKeepsDistinct(a[1..], b[1..]);
      SubsequenceMembers(a[1..], b[1..]);
      assert a == [a[0]] + a[1..];
      DistinctCons(a[0], a[1..]);
    } else {
      assert b == [b[0]] + b[1..];
      DistinctCons(b[0], b[1..]);
      SubsequenceKeepsDistinct(a, b[1..]);
    }
  }

  /** A rectangle stored row by row: every row has length `w`. */
  predicate Rect<T>(rows: seq<seq<T>>, w: nat) {
    forall i :: 0 <= i < |rows| ==> |rows[i]| == w
  }

  /** Row `i` of a flat row-major vector holding `h` rows of width `w`. */
  function Row<T>(s: seq<T>, w: nat, h: nat, i: nat): (r: seq<T>)
    requires h * w == |s| && i < h
    ensures |r| == w
  {
    RowFits(h, w, i);
    s[i * w .. i * w + w]
  }

  /** The row view of a flat row-major vector holding `h` rows of width `w`. */
  function Rows<T>(s: seq<T>, w: nat, h: nat): (r: seq<seq<T>>)
    requires h * w == |s|
    ensures |r| == h && Rect(r, w)
  {
    seq(h, i requires 0 <= i < h => Row(s, w, h, i))
  }

  /** Cell `(i, j)` of the row view is flat position `i * w + j`. */
  lemma RowsAt<T>(s: seq<T>, w: nat, h: nat, i: nat, j: nat)
    requires h * w == |s| && i < h && j < w
    ensures i * w + j < |s| && Rows(s, w, h)[i][j] == s[i * w + j]
  {
    RowFits(h, w, i);
  }

  lemma MulMono(a: int, b: int, w: nat)
    ensures a <= b ==> a * w <= b * w
  {
    assert b * w == a * w + (b - a) * w;
  }

  lemma RowFits(h: nat, w: nat, i: nat)
    requires i < h
    ensures i * w + w <= h * w
  {
    MulMono(i + 1, h, w);
    assert (i + 1) * w == i * w + w;
  }

  /** Flat position `i * w + j` decodes back to row `i`, column `j`. */
  lemma DivModCell(w: nat, i: nat, j: nat)
    requires j < w
    ensures (i * w + j) / w == i && (i * w + j) % w == j
  {
    var x := i * w + j;
    var q, r := x / w, x % w;
    assert x == q * w + r && 0 <= r < w;
    MulMono(i + 1, q, w);
    assert (i + 1) * w == i * w + w;
    MulMono(q + 1, i, w);
    assert (q + 1) * w == q * w + w;
  }

  lemma MulDiv(x: nat, w: nat)
    requires w > 0
    ensures (x * w) / w == x
  {
    DivModCell(w, x, 0);
  }

  /** Different cells of a rectangle sit at different flat positions. */
  lemma CellInjective(w: nat, i1: nat, j1: nat, i2: nat, j2: nat)
    requires j1 < w && j2 < w && (i1 != i2 || j1 != j2)
    ensures i1 * w + j1 != i2 * w + j2
  {
    DivModCell(w, i1, j1);
    DivModCell(w, i2, j2);
  }

  /** No two cells of a rectangle hold the same value. */
  predicate DistinctCells<T(==)>(g: seq<seq<T>>, w: nat)
    requires Rect(g, w)
  {
    forall i1, j1, i2, j2 ::
      0 <= i1 < |g| && 0 <= j1 < w && 0 <= i2 < |g| && 0 <= j2 < w && (i1 != i2 || j1 != j2)
      ==> g[i1][j1] != g[i2][j2]
  }

  /** Cell `(i, j)` of the row view sits at a flat position that decodes back to `(i, j)`. */
  lemma CellPosition<T>(s: seq<T>, w: nat, h: nat, i: nat, j: nat) returns (p: nat)
    requires h * w == |s| && i < h && j < w
    ensures p < |s| && Rows(s, w, h)[i][j] == s[p] && p / w == i && p % w == j
  {
    p := i * w + j;
    assert p < |s| && Rows(s, w, h)[i][j] == s[p] by { RowsAt(s, w, h, i, j); }
    assert p / w == i && p % w == j by { DivModCell(w, i, j); }
  }

  lemma DistinctPair<T>(s: seq<T>, w: nat, h: nat, i1: nat, j1: nat, i2: nat, j2: nat)
    requires h * w == |s| && Distinct(s)
    requires i1 < h && j1 < w && i2 < h && j2 < w && (i1 != i2 || j1 != j2)
    ensures Rows(s, w, h)[i1][j1] != Rows(s, w, h)[i2][j2]
  {
    var p1 := CellPosition(s, w, h, i1, j1);
    var p2 := CellPosition(s, w, h, i2, j2);
    assert p1 != p2;
    if p1 < p2 {
      assert s[p1] != s[p2];
    } else {
      assert s[p2] != s[p1];
    }
  }

  lemma CellsPair<T>(s: seq<T>, w: nat, h: nat, p1: nat, p2: nat)
    requires h * w == |s| && DistinctCells(Rows(s, w, h), w)
    requires p1 < p2 < |s|
    ensures s[p1] != s[p2]
  {
    var i1, j1 := RowColumn(w, h, p1);
    var i2, j2 := RowColumn(w, h, p2);
    RowsAt(s, w, h, i1, j1);
    RowsAt(s, w, h, i2, j2);
  }

  /** A flat vector has distinct entries exactly when its row view has distinct cells. */
  lemma DistinctRows<T>(s: seq<T>, w: nat, h: nat)
    requires h * w == |s|
    ensures Distinct(s) <==> DistinctCells(Rows(s, w, h), w)
  {
    if Distinct(s) {
      forall i1, j1, i2, j2 |
        0 <= i1 < h && 0 <= j1 < w && 0 <= i2 < h && 0 <= j2 < w && (i1 != i2 || j1 != j2)
        ensures Rows(s, w, h)[i1][j1] != Rows(s, w, h)[i2][j2]
      {
        DistinctPair(s, w, h, i1, j1, i2, j2);
      }
    }
    if DistinctCells(Rows(s, w, h), w) {
      forall p1, p2 | 0 <= p1 < p2 < |s| ensures s[p1] != s[p2] {
        CellsPair(s, w, h, p1, p2);
      }
    }
  }

  /** Concatenation of the rows, the inverse of `Rows`. */
  function Flatten<T>(rows: seq<seq<T>>): seq<T>
  {
    if |rows| == 0 then [] else Flatten(rows[..|rows| - 1]) + rows[|rows| - 1]
  }

  lemma {:induction false} FlattenLength<T>(rows: seq<seq<T>>, w: nat)
    requires Rect(rows, w)
    ensures |Flatten(rows)| == |rows| * w
  {
    if |rows| > 0 {
      FlattenLength(rows[..|rows| - 1], w);
      assert |rows| * w == (|rows| - 1) * w + w;
    }
  }

  /** Cutting a flattened rectangle into rows of width `w` gives the rectangle back. */
  lemma {:induction false} RowsOfFlatten<T>(rows: seq<seq<T>>, w: nat)
    requires Rect(rows, w)
    ensures |Flatten(rows)| == |rows| * w
    ensures Rows(Flatten(rows), w, |rows|) == rows
  {
    FlattenLength(rows, w);
    if |rows| > 0 {
      var n := |rows|;
      var init := rows[..n - 1];
      RowsOfFlatten(init, w);
      var f := Flatten(rows);
      var fi := Flatten(init);
      assert f == fi + rows[n - 1];
      assert |fi| == (n - 1) * w;
      var r := Rows(f, w, n);
      forall i | 0 <= i < n ensures r[i] == rows[i] {
        RowFits(n, w, i);
        assert r[i] == f[i * w .. i * w + w];
        if i < n - 1 {
          RowFits(n - 1, w, i);
          assert f[i * w .. i * w + w] == fi[i * w .. i * w + w];
          assert fi[i * w .. i * w + w] == Rows(fi, w, n - 1)[i] == init[i];
        } else {
          assert i * w == |fi|;
        }
      }
    }
  }

  /** Flattening the row view of a flat vector gives the vector back. */
  lemma FlattenOfRows<T>(s: seq<T>, w: nat, h: nat)
    requires h * w == |s|
    ensures Flatten(Rows(s, w, h)) == s
  {
    var rows := Rows(s, w, h);
    RowsOfFlatten(rows, w);
    var f := Flatten(rows);
    forall k | 0 <= k < |s| ensures f[k] == s[k] {
      var i, j := RowColumn(w, h, k);
      RowsAt(s, w, h, i, j);
      RowsAt(f, w, h, i, j);
    }
  }

  lemma FlattenThree<T>(a: seq<T>, b: seq<T>, c: seq<T>)
    ensures Flatten([a, b, c]) == a + b + c
  {
    var rows := [a, b, c];
    assert rows[..2] == [a, b] && rows[..2][..1] == [a] && rows[..2][..1][..0] == [];
    assert Flatten([a]) == a;
    assert Flatten([a, b]) == a + b;
  }

  lemma FlattenFour<T>(a: seq<T>, b: seq<T>, c: seq<T>, d: seq<T>)
    ensures Flatten([a, b, c, d]) == a + b + c + d
  {
    assert [a, b, c, d][..3] == [a, b, c];
    FlattenThree(a, b, c);
  }

  /** Every flat position of an `h` by `w` rectangle is some cell `(i, j)`. */
  lemma RowColumn(w: nat, h: nat, k: nat) returns (i: nat, j: nat)
    requires k < h * w
    ensures i < h && j < w && k == i * w + j
  {
    i, j := k / w, k % w;
    MulMono(h, i, w);
  }

  /** Column `j` of a rectangle, read top to bottom. */
  function Column<T>(rows: seq<seq<T>>, w: nat, j: nat): (c: seq<T>)
    requires Rect(rows, w) && j < w
    ensures |c| == |rows|
    ensures forall i :: 0 <= i < |rows| ==> c[i] == rows[i][j]
  {
    seq(|rows|, i requires 0 <= i < |rows| => rows[i][j])
  }

  /** The columns of a rectangle of width `w`, left to right. */
  function Transpose<T>(rows: seq<seq<T>>, w: nat): (cols: seq<seq<T>>)
    requires Rect(rows, w)
    ensures |cols| == w && Rect(cols, |rows|)
    ensures forall j, i :: 0 <= j < w && 0 <= i < |rows| ==> cols[j][i] == rows[i][j]
  {
    seq(w, j requires 0 <= j < w => Column(rows, w, j))
  }
}
