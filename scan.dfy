/** The left-to-right search every non-global `String.prototype.match`
    performs: try each start position in turn and report the first one at
    which the pattern matches. */
module Scan {
  import opened Wrappers

  /** The first position `q` in `[i, n]` at which `m` succeeds, paired with
      the end of that match; `m` gives the end of the match starting at `q`,
      if any. */
  function FirstFrom(m: nat -> Option<nat>, i: nat, n: nat): (r: Option<(nat, nat)>)
    requires i <= n
    ensures r.Some? ==> i <= r.value.0 <= n && m(r.value.0) == Some(r.value.1)
    ensures r.Some? ==> forall q: nat :: i <= q < r.value.0 ==> m(q).None?
    ensures r.None? ==> forall q: nat :: i <= q <= n ==> m(q).None?
    decreases n - i
  {
    match m(i)
    case Some(j) => Some((i, j))
    case None => if i == n then None else FirstFrom(m, i + 1, n)
  }
}
