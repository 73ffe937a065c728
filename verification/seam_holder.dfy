/** The seam log of `src/structs/seam_holder.rs`: one stack of seams per
    orientation, with push, pop-the-last-n, and the splicing of "overflowing"
    tags into the most recent seams. Seams are the tagged seams of
    `src/matrix.rs` (tags plus the orientation flag). */
module SeamHolder {
  import opened Energies
  import opened TaggedMatrix

  datatype SeamHolder = SeamHolder(verticalSeams: seq<Seam>, horizontalSeams: seq<Seam>)

  /** The log of one orientation. */
  function Log(h: SeamHolder, vertical: bool): seq<Seam> {
    if vertical then h.verticalSeams else h.horizontalSeams
  }

  /** The holder with the log of one orientation replaced. */
  function WithLog(h: SeamHolder, vertical: bool, log: seq<Seam>): (r: SeamHolder)
    ensures Log(r, vertical) == log && Log(r, !vertical) == Log(h, !vertical)
  {
    if vertical then h.(verticalSeams := log) else h.(horizontalSeams := log)
  }

  /** `SeamHolder::new`. */
  function New(): (h: SeamHolder)
    ensures Log(h, true) == [] && Log(h, false) == []
  {
    SeamHolder([], [])
  }

  /** `push_seam`: the seam goes on top of the log its flag names. */
  function PushSeam(h: SeamHolder, seam: Seam): (r: SeamHolder)
    ensures Log(r, seam.isVertical) == Log(h, seam.isVertical) + [seam]
    ensures Log(r, !seam.isVertical) == Log(h, !seam.isVertical)
  {
    WithLog(h, seam.isVertical, Log(h, seam.isVertical) + [seam])
  }

  /** `pop_n_seams`: the splice of `len - n .. len` (or of everything when
      `n >= len`), returned oldest first. */
  function PopNSeams(h: SeamHolder, n: nat, vertical: bool): (r: (SeamHolder, seq<Seam>))
    ensures var old_ := Log(h, vertical);
      && |r.1| == (if n < |old_| then n else |old_|)
      && Log(r.0, vertical) + r.1 == old_
      && Log(r.0, !vertical) == Log(h, !vertical)
  {
    var log := Log(h, vertical);
    var start := if n < |log| then |log| - n else 0;
    assert log[..start] + log[start..] == log;
    (WithLog(h, vertical, log[..start]), log[start..])
  }

  /** Popping right after a push returns the pushed seam and the holder as it was. */
  lemma PopUndoesPush(h: SeamHolder, seam: Seam)
    ensures PopNSeams(PushSeam(h, seam), 1, seam.isVertical) == (h, [seam])
  {
    var r := PopNSeams(PushSeam(h, seam), 1, seam.isVertical);
    var log := Log(h, seam.isVertical);
    assert Log(r.0, seam.isVertical) + r.1 == log + [seam];
    assert r.1 == [seam];
    assert Log(r.0, seam.isVertical) == log;
  }

  /** Popping `a` and then `b` seams pops the same seams as popping `a + b` at once. */
  lemma PopTwice(h: SeamHolder, a: nat, b: nat, vertical: bool)
    ensures var first := PopNSeams(h, a, vertical);
      var second := PopNSeams(first.0, b, vertical);
      var both := PopNSeams(h, a + b, vertical);
      second.0 == both.0 && second.1 + first.1 == both.1
  {
    var first := PopNSeams(h, a, vertical);
    var second := PopNSeams(first.0, b, vertical);
    var both := PopNSeams(h, a + b, vertical);
    var log := Log(h, vertical);
    assert Log(second.0, vertical) + (second.1 + first.1) == log;
    assert |second.1 + first.1| == |both.1|;
    assert Log(second.0, vertical) == log[..|log| - |both.1|] == Log(both.0, vertical);
    assert second.1 + first.1 == log[|log| - |both.1|..] == both.1;
  }

  /** Pushing seams of one orientation in turn, oldest first. */
  function PushAll(h: SeamHolder, seams: seq<Seam>): (r: SeamHolder)
    decreases |seams|
  {
    if |seams| == 0 then h else PushAll(PushSeam(h, seams[0]), seams[1..])
  }

  /** Pushing seams of one orientation appends them, in order, to that log alone. */
  lemma {:induction false} PushAllAppends(h: SeamHolder, seams: seq<Seam>, vertical: bool)
    requires forall k :: 0 <= k < |seams| ==> seams[k].isVertical == vertical
    ensures Log(PushAll(h, seams), vertical) == Log(h, vertical) + seams
    ensures Log(PushAll(h, seams), !vertical) == Log(h, !vertical)
    decreases |seams|
  {
    if |seams| > 0 {
      PushAllAppends(PushSeam(h, seams[0]), seams[1..], vertical);
      assert Log(h, vertical) + [seams[0]] + seams[1..] == Log(h, vertical) + seams;
    }
  }

  /** Pushing seams into a fresh holder and popping `n <= |seams|` of them
      returns the last `n` in push order and leaves the first ones. */
  lemma PushThenPop(seams: seq<Seam>, n: nat, vertical: bool)
    requires forall k :: 0 <= k < |seams| ==> seams[k].isVertical == vertical
    requires n <= |seams|
    ensures var r := PopNSeams(PushAll(New(), seams), n, vertical);
      && r.1 == seams[|seams| - n..]
      && Log(r.0, vertical) == seams[..|seams| - n]
      && Log(r.0, !vertical) == []
  {
    PushAllAppends(New(), seams, vertical);
    var r := PopNSeams(PushAll(New(), seams), n, vertical);
    assert Log(r.0, vertical) + r.1 == seams;
    assert r.1 == seams[|seams| - n..];
  }

  /** The test seam number `i`: column `i` of a 10 by 10 grid, `i, i + 10, ..., i + 90`. */
  function ColumnSeam(i: nat): (s: Seam)
    ensures |s.indices| == 10 && s.isVertical
  {
    Seam(seq(10, k requires 0 <= k < 10 => i + 10 * k), true)
  }

  /** The test log: column seams `0 .. n`, oldest first. */
  function ColumnSeams(n: nat): (seams: seq<Seam>)
    ensures |seams| == n && forall k :: 0 <= k < n ==> seams[k] == ColumnSeam(k)
  {
    seq(n, k requires 0 <= k < n => ColumnSeam(k))
  }

  lemma ColumnSeamsSplit(all: seq<Seam>)
    requires all == ColumnSeams(11)
    ensures all[8..] == [ColumnSeam(8), ColumnSeam(9), ColumnSeam(10)]
    ensures all[..8] == ColumnSeams(8)
  {
    assert all[8..][0] == ColumnSeam(8) && all[8..][1] == ColumnSeam(9) && all[8..][2] == ColumnSeam(10);
  }

  /** Eleven column seams pushed, three popped: the pop returns seams 8, 9 and
      10 and the log keeps seams 0 to 7. */
  lemma VerticalPopping(all: seq<Seam>)
    requires all == ColumnSeams(11)
    ensures var r := PopNSeams(PushAll(New(), all), 3, true);
      r.1 == [ColumnSeam(8), ColumnSeam(9), ColumnSeam(10)] && Log(r.0, true) == ColumnSeams(8)
  {
    PushThenPop(all, 3, true);
    ColumnSeamsSplit(all);
  }

  /** The horizontal test seam number `i`: row `i` of a 10 by 10 grid, `10 * i .. 10 * i + 10`. */
  function RowSeam(i: nat): (s: Seam)
    ensures |s.indices| == 10 && !s.isVertical
  {
    Seam(seq(10, k requires 0 <= k < 10 => 10 * i + k), false)
  }

  /** The horizontal test log: row seams `0 .. n`, oldest first. */
  function RowSeams(n: nat): (seams: seq<Seam>)
    ensures |seams| == n && forall k :: 0 <= k < n ==> seams[k] == RowSeam(k)
  {
    seq(n, k requires 0 <= k < n => RowSeam(k))
  }

  lemma RowSeamsSplit(all: seq<Seam>)
    requires all == RowSeams(11)
    ensures all[8..] == [RowSeam(8), RowSeam(9), RowSeam(10)]
    ensures all[..8] == RowSeams(8)
  {
    assert all[8..][0] == RowSeam(8) && all[8..][1] == RowSeam(9) && all[8..][2] == RowSeam(10);
  }

  /** Eleven row seams pushed, three popped from the horizontal log: the pop
      returns seams 8, 9 and 10, the log keeps seams 0 to 7 and the vertical
      log stays empty. */
  lemma HorizontalPopping(all: seq<Seam>)
    requires all == RowSeams(11)
    ensures var r := PopNSeams(PushAll(New(), all), 3, false);
      && r.1 == [RowSeam(8), RowSeam(9), RowSeam(10)]
      && Log(r.0, false) == RowSeams(8)
      && Log(r.0, true) == []
  {
    PushThenPop(all, 3, false);
    RowSeamsSplit(all);
  }

  /** Popping from an empty log returns nothing and fails nowhere. */
  lemma PoppingOverflow(n: nat)
    ensures PopNSeams(New(), n, true) == (New(), [])
    ensures PopNSeams(New(), n, false) == (New(), [])
  {
  }

  // ---------------------------------------------------------------------------
  // insert_overflowing_indices

  /** Position of the first entry `>= id`, if any. */
  function FirstAtLeast(s: seq<nat>, id: nat): (r: Option<nat>)
    ensures r.Some? ==> r.value < |s| && s[r.value] >= id
    ensures r.Some? ==> forall k :: 0 <= k < r.value ==> s[k] < id
    ensures r.None? ==> forall k :: 0 <= k < |s| ==> s[k] < id
    decreases |s|
  {
    if |s| == 0 then None
    else if s[0] >= id then Some(0)
    else
      var rest := FirstAtLeast(s[1..], id);
      if rest.Some? then Some(rest.value + 1) else None
  }

  /** The splice into one seam: `id` goes in front of the first entry `>= id`
      and the entries from there on move one place right; when every entry
      is smaller, the seam is left as it was. */
  function InsertIntoSeam(s: seq<nat>, id: nat): (r: seq<nat>)
  {
    match FirstAtLeast(s, id)
    case None => s
    case Some(k) => s[..k] + [id] + s[k..]
  }

  /** The pass of the source: a carried `prev` that, once set, swaps with
      every later entry, and is pushed at the end. */
  method ShiftInsert(s: seq<nat>, id: nat) returns (r: seq<nat>)
    ensures r == InsertIntoSeam(s, id)
  {
    var out: seq<nat> := [];
    var prev: Option<nat> := None;
    var k := 0;
    while k < |s|
      invariant k <= |s| && Carried(s, id, out, prev, k)
    {
      CarriedStep(s, id, out, prev, k);
      match prev {
        case Some(p) =>
          out := out + [p];
          prev := Some(s[k]);
        case None =>
          if s[k] >= id {
            prev := Some(s[k]);
            out := out + [id];
          } else {
            out := out + [s[k]];
          }
      }
      k := k + 1;
    }
    CarriedDone(s, id, out, prev);
    match prev {
      case Some(p) =>
        out := out + [p];
      case None =>
    }
    r := out;
  }

  /** The state of the pass after `k` entries: nothing carried while every
      entry so far is below `id`; once the first entry `>= id` is met, `id`
      stands in its place and the carried value is the latest entry. */
  ghost predicate Carried(s: seq<nat>, id: nat, out: seq<nat>, prev: Option<nat>, k: nat)
    requires k <= |s|
  {
    match prev
    case None => out == s[..k] && forall q :: 0 <= q < k ==> s[q] < id
    case Some(v) =>
      && FirstAtLeast(s, id).Some? && FirstAtLeast(s, id).value < k
      && out == s[..FirstAtLeast(s, id).value] + [id] + s[FirstAtLeast(s, id).value..k - 1]
      && v == s[k - 1]
  }

  lemma CarriedStep(s: seq<nat>, id: nat, out: seq<nat>, prev: Option<nat>, k: nat)
    requires k < |s| && Carried(s, id, out, prev, k)
    ensures prev.Some? ==> Carried(s, id, out + [prev.value], Some(s[k]), k + 1)
    ensures prev.None? && s[k] >= id ==> Carried(s, id, out + [id], Some(s[k]), k + 1)
    ensures prev.None? && s[k] < id ==> Carried(s, id, out + [s[k]], None, k + 1)
  {
    if prev.Some? {
      var at := FirstAtLeast(s, id).value;
      assert s[at..k] == s[at..k - 1] + [s[k - 1]];
    } else if s[k] >= id {
      FirstAtLeastUnique(s, id, k);
      assert s[k..k] == [];
    } else {
      assert s[..k + 1] == s[..k] + [s[k]];
    }
  }

  lemma CarriedDone(s: seq<nat>, id: nat, out: seq<nat>, prev: Option<nat>)
    requires Carried(s, id, out, prev, |s|)
    ensures prev.Some? ==> out + [prev.value] == InsertIntoSeam(s, id)
    ensures prev.None? ==> out == InsertIntoSeam(s, id)
  {
    if prev.Some? {
      var at := FirstAtLeast(s, id).value;
      assert s[at..] == s[at..|s| - 1] + [s[|s| - 1]];
    } else {
      assert s[..|s|] == s;
    }
  }

  /** The first entry `>= id` is the one `FirstAtLeast` finds. */
  lemma FirstAtLeastUnique(s: seq<nat>, id: nat, k: nat)
    requires k < |s| && s[k] >= id && forall q :: 0 <= q < k ==> s[q] < id
    ensures FirstAtLeast(s, id) == Some(k)
  {
    var r := FirstAtLeast(s, id);
    assert r.Some? && r.value <= k && !(r.value < k);
  }

  predicate Ascending(s: seq<nat>) {
    forall i, j :: 0 <= i < j < |s| ==> s[i] <= s[j]
  }

  /** Splicing into an ascending seam keeps it ascending and adds `id` exactly
      once, unless `id` exceeds every entry, in which case nothing changes. */
  lemma InsertKeepsAscending(s: seq<nat>, id: nat)
    requires Ascending(s)
    ensures Ascending(InsertIntoSeam(s, id))
    ensures (exists k :: 0 <= k < |s| && s[k] >= id) ==>
      multiset(InsertIntoSeam(s, id)) == multiset(s) + multiset{id}
    ensures (forall k :: 0 <= k < |s| ==> s[k] < id) ==> InsertIntoSeam(s, id) == s
  {
    match FirstAtLeast(s, id)
    case None =>
    case Some(k) =>
      SpliceAscending(s, id, k);
      var r := s[..k] + [id] + s[k..];
      assert multiset(r) == multiset(s) + multiset{id} by {
        assert s == s[..k] + s[k..];
        assert multiset(r) == multiset(s[..k]) + multiset{id} + multiset(s[k..]);
      }
  }

  /** `id` spliced in front of the first entry `>= id` lands between its neighbours. */
  lemma SpliceAscending(s: seq<nat>, id: nat, k: nat)
    requires Ascending(s) && FirstAtLeast(s, id) == Some(k)
    ensures Ascending(s[..k] + [id] + s[k..])
  {
    var r := s[..k] + [id] + s[k..];
    assert forall i :: 0 <= i < k ==> r[i] == s[i] && s[i] < id;
    assert r[k] == id <= s[k];
    assert forall i :: k < i < |r| ==> r[i] == s[i - 1];
    forall i, j | 0 <= i < j < |r| ensures r[i] <= r[j] {
      if j <= k {
      } else if i == k {
        assert s[k] <= s[j - 1];
      } else if i < k {
        assert s[i] <= s[j - 1];
      } else {
        assert s[i - 1] <= s[j - 1];
      }
    }
  }

  /** Where `insert_overflowing_indices` sends id number `k`: with `|ids| <= len`
      it is seam `len - |ids| + k` of the log. */
  function Target(len: nat, count: nat, k: nat): nat
    requires count <= len && k < count
  {
    len - count + k
  }

  /** Seam `p` of a log after the splice: the last `|ids|` seams take one id each. */
  function SplicedSeam(log: seq<Seam>, ids: seq<nat>, p: nat): Seam
    requires |ids| <= |log| && p < |log|
  {
    var first := |log| - |ids|;
    if p < first then log[p] else log[p].(indices := InsertIntoSeam(log[p].indices, ids[p - first]))
  }

  /** `insert_overflowing_indices`. Id `k` is spliced into seam
      `len - |ids| + k`; earlier seams and the other log are untouched. With
      an empty log nothing is taken and nothing happens. With more ids than
      seams in a non-empty log the source's index arithmetic underflows, which
      the precondition rules out. */
  function InsertOverflowingIndices(h: SeamHolder, ids: seq<nat>, vertical: bool): (r: SeamHolder)
    requires |ids| <= |Log(h, vertical)| || |Log(h, vertical)| == 0
    ensures |Log(r, vertical)| == |Log(h, vertical)|
    ensures Log(r, !vertical) == Log(h, !vertical)
    ensures forall p :: 0 <= p < |Log(h, vertical)| && p + |ids| < |Log(h, vertical)| ==>
      Log(r, vertical)[p] == Log(h, vertical)[p]
    ensures |Log(h, vertical)| > 0 ==> forall k :: 0 <= k < |ids| ==>
      Log(r, vertical)[Target(|Log(h, vertical)|, |ids|, k)]
        == Log(h, vertical)[Target(|Log(h, vertical)|, |ids|, k)].(indices :=
             InsertIntoSeam(Log(h, vertical)[Target(|Log(h, vertical)|, |ids|, k)].indices, ids[k]))
  {
    var log := Log(h, vertical);
    if |log| == 0 then h
    else WithLog(h, vertical, seq(|log|, p requires 0 <= p < |log| => SplicedSeam(log, ids, p)))
  }

  /** The splice into the log as a loop over the ids, in order. */
  method InsertOverflowing(h: SeamHolder, ids: seq<nat>, vertical: bool) returns (r: SeamHolder)
    requires |ids| <= |Log(h, vertical)| || |Log(h, vertical)| == 0
    ensures r == InsertOverflowingIndices(h, ids, vertical)
  {
    var seams := Log(h, vertical);
    var len := |seams|;
    var taken := if |ids| < len then |ids| else len;
    var k := 0;
    while k < taken
      invariant k <= taken && |seams| == len
      invariant forall p :: 0 <= p < len ==>
        seams[p] == (if p + |ids| >= len && p + |ids| - len < k then SplicedSeam(Log(h, vertical), ids, p) else Log(h, vertical)[p])
    {
      var p := len - |ids| + k;
      var spliced := ShiftInsert(seams[p].indices, ids[k]);
      seams := seams[p := seams[p].(indices := spliced)];
      k := k + 1;
    }
    if len == 0 {
      r := h;
    } else {
      r := WithLog(h, vertical, seams);
      assert Log(r, vertical) == Log(InsertOverflowingIndices(h, ids, vertical), vertical);
    }
  }
}
