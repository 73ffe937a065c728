/** The energy scalar of the engine. The source stores energies as `f32` and
    marks a removed cell with positive infinity; here a finite energy is an
    integer and the sentinel is an explicit constructor, so comparisons, `min`
    and `+` are total and exact. */
module Energies {

  datatype Option<T> = None | Some(value: T)

  /** A finite energy, or the positive-infinity sentinel of a removed cell. */
  datatype Energy = Fin(v: int) | Inf

  /** A cell that has not been marked removed (`value != INFINITY`). */
  predicate Live(e: Energy) {
    e.Fin?
  }

  /** Strict `<` on `f32` restricted to finite values and `+inf`. */
  predicate Less(a: Energy, b: Energy) {
    match a
    case Inf => false
    case Fin(x) => b.Inf? || x < b.v
  }

  predicate LessEq(a: Energy, b: Energy) {
    !Less(b, a)
  }

  /** `f32::min`. */
  function Min(a: Energy, b: Energy): (r: Energy)
    ensures r == a || r == b
    ensures LessEq(r, a) && LessEq(r, b)
  {
    if Less(b, a) then b else a
  }

  /** `f32` addition: infinity absorbs any finite summand. */
  function Add(a: Energy, b: Energy): (r: Energy)
    ensures r.Inf? <==> a.Inf? || b.Inf?
  {
    if a.Inf? || b.Inf? then Inf else Fin(a.v + b.v)
  }

  lemma LessEqTotal(a: Energy, b: Energy)
    ensures LessEq(a, b) || LessEq(b, a)
    ensures LessEq(a, b) && LessEq(b, a) ==> a == b
  {
  }

  lemma LessEqTrans(a: Energy, b: Energy, c: Energy)
    requires LessEq(a, b) && LessEq(b, c)
    ensures LessEq(a, c)
  {
  }

  /** Adding the same energy on both sides keeps `<=`. */
  lemma AddMono(a: Energy, b: Energy, c: Energy)
    requires LessEq(a, b)
    ensures LessEq(Add(a, c), Add(b, c)) && LessEq(Add(c, a), Add(c, b))
  {
  }

  lemma AddComm(a: Energy, b: Energy)
    ensures Add(a, b) == Add(b, a)
  {
  }

  /** The value a predecessor lookup contributes: the entry it found, or `INFINITY`. */
  function ValueAt(s: seq<Energy>, k: Option<nat>): Energy
    requires k.Some? ==> k.value < |s|
  {
    if k.Some? then s[k.value] else Inf
  }

  /** Position of the nearest live entry strictly before `j` (the source's
      `(0..j).rev().find(|k| v[k] != INFINITY)`). */
  function NearestLiveBefore(s: seq<Energy>, j: nat): (r: Option<nat>)
    requires j <= |s|
    ensures r.Some? ==> r.value < j && Live(s[r.value])
    ensures r.Some? ==> forall k :: r.value < k < j ==> !Live(s[k])
    ensures r.None? ==> forall k :: 0 <= k < j ==> !Live(s[k])
  {
    if j == 0 then None
    else if Live(s[j - 1]) then Some(j - 1)
    else NearestLiveBefore(s, j - 1)
  }

  /** Position of the nearest live entry at or after `j` (the source's
      `(j..len).find(|k| v[k] != INFINITY)`). */
  function NearestLiveFrom(s: seq<Energy>, j: nat): (r: Option<nat>)
    requires j <= |s|
    ensures r.Some? ==> j <= r.value < |s| && Live(s[r.value])
    ensures r.Some? ==> forall k :: j <= k < r.value ==> !Live(s[k])
    ensures r.None? ==> forall k :: j <= k < |s| ==> !Live(s[k])
    decreases |s| - j
  {
    if j == |s| then None
    else if Live(s[j]) then Some(j)
    else NearestLiveFrom(s, j + 1)
  }

  /** The smallest energy of a non-empty sequence. */
  function MinOf(s: seq<Energy>): (m: Energy)
    requires |s| > 0
    ensures m in s
    ensures forall k :: 0 <= k < |s| ==> LessEq(m, s[k])
  {
    if |s| == 1 then s[0] else Min(MinOf(s[..|s| - 1]), s[|s| - 1])
  }

  /** Sum of a sequence of energies, folded left from zero. */
  function Sum(s: seq<Energy>): Energy
  {
    if |s| == 0 then Fin(0) else Add(Sum(s[..|s| - 1]), s[|s| - 1])
  }
}
