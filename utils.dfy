/** The grid and bound helpers of src/utils.ts. */
module Utils {

  /** A dense l×m×n grid of values, outermost index first. */
  type Grid<T> = seq<seq<seq<T>>>

  /** `makeGrid(l, m, n, fn)`: the grid whose cell [i][j][k] is fn(i, j, k),
      built as three nested comprehensions. */
  function MakeGrid<T>(l: nat, m: nat, n: nat, fn: (nat, nat, nat) -> T): (g: Grid<T>)
    ensures |g| == l
    ensures forall i :: 0 <= i < l ==> |g[i]| == m
    ensures forall i, j :: 0 <= i < l && 0 <= j < m ==> |g[i][j]| == n
    ensures forall i, j, k :: 0 <= i < l && 0 <= j < m && 0 <= k < n ==>
              g[i][j][k] == fn(i, j, k)
  {
    seq(l, i requires 0 <= i => seq(m, j requires 0 <= j => seq(n, k requires 0 <= k => fn(i, j, k))))
  }

  function Max(a: real, b: real): real { if a >= b then a else b }
  function Min(a: real, b: real): real { if a <= b then a else b }

  /** `clamp(v, min, max)` = max(min, min(max, v)). When the bounds are in
      order the result lies between them and equals v whenever v already
      does; when they are inverted the lower bound wins for every v. */
  function Clamp(v: real, lo: real, hi: real): (r: real)
    ensures lo <= hi ==> lo <= r <= hi
    ensures lo <= v <= hi ==> r == v
    ensures lo > hi ==> r == lo
    ensures r == lo || r == hi || r == v
  {
    Max(lo, Min(hi, v))
  }

  /** Clamping twice with the same bounds is clamping once. */
  lemma ClampIdempotent(v: real, lo: real, hi: real)
    ensures Clamp(Clamp(v, lo, hi), lo, hi) == Clamp(v, lo, hi)
  {
  }

  /** Clamp is monotone non-decreasing in the clamped value. */
  lemma ClampMonotone(v: real, w: real, lo: real, hi: real)
    requires v <= w
    ensures Clamp(v, lo, hi) <= Clamp(w, lo, hi)
  {
  }
}
