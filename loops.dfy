/** The orders in which one round of the solver visits the diagonals. */
module Loops {

  /** lo, lo + 1, ..., hi - 1. */
  function Up(lo: int, hi: int): (r: seq<int>)
    ensures |r| == if lo < hi then hi - lo else 0
    ensures forall i :: 0 <= i < |r| ==> r[i] == lo + i
    decreases hi - lo
  {
    if lo < hi then [lo] + Up(lo + 1, hi) else []
  }

  /** hi, hi - 1, ..., lo + 1. */
  function Down(hi: int, lo: int): (r: seq<int>)
    ensures |r| == if lo < hi then hi - lo else 0
    ensures forall i :: 0 <= i < |r| ==> r[i] == hi - i
    decreases hi - lo
  {
    if lo < hi then [hi] + Down(hi - 1, lo) else []
  }

  /** Forward round p: the diagonals -p, ..., delta - 1 below delta upwards, then
      delta + p, ..., delta + 1 above delta downwards, then delta itself. */
  function GetForwardLoop(delta: int, p: int): (ks: seq<int>)
    ensures delta >= 0 && p >= 0 ==> ForwardOrder(ks, delta, p)
  {
    ForwardLoopVisits(delta, p);
    Up(-p, delta) + Down(delta + p, delta) + [delta]
  }

  /** Backward round: delta itself, then delta - 1, ..., -nx below delta downwards, then
      delta + 1, ..., ny above delta upwards. */
  function GetBackwardLoop(delta: int, nx: int, ny: int): (ks: seq<int>)
    ensures 0 <= nx && delta == ny - nx && delta >= 0 ==> BackwardOrder(ks, delta, nx, ny)
  {
    BackwardLoopVisits(delta, nx, ny);
    [delta] + Down(delta - 1, -nx - 1) + Up(delta + 1, ny + 1)
  }

  /** Where diagonal k comes in a forward round. */
  function ForwardPos(delta: int, p: int, k: int): int
  {
    if k < delta then k + p
    else if k > delta then 2 * (delta + p) - k
    else 2 * p + delta
  }

  /** Where diagonal k comes in a backward round. */
  function BackwardPos(delta: int, nx: int, k: int): int
  {
    if k < delta then delta - k
    else if k > delta then nx + k
    else 0
  }

  /** ks visits each diagonal of [-p, delta + p] exactly once, diagonal k at position
      ForwardPos(delta, p, k). */
  predicate ForwardOrder(ks: seq<int>, delta: int, p: int)
  {
    |ks| == 2 * p + delta + 1
    && (forall i :: 0 <= i < |ks| ==> -p <= ks[i] <= delta + p && ForwardPos(delta, p, ks[i]) == i)
    && (forall k :: -p <= k <= delta + p ==> 0 <= ForwardPos(delta, p, k) < |ks| && ks[ForwardPos(delta, p, k)] == k)
  }

  /** ks visits each diagonal of [-nx, ny] exactly once, diagonal k at position
      BackwardPos(delta, nx, k). */
  predicate BackwardOrder(ks: seq<int>, delta: int, nx: int, ny: int)
  {
    |ks| == nx + ny + 1
    && (forall i :: 0 <= i < |ks| ==> -nx <= ks[i] <= ny && BackwardPos(delta, nx, ks[i]) == i)
    && (forall k :: -nx <= k <= ny ==> 0 <= BackwardPos(delta, nx, k) < |ks| && ks[BackwardPos(delta, nx, k)] == k)
  }

  /** The forward visiting order visits each diagonal of [-p, delta + p] exactly once. */
  lemma {:induction false} ForwardLoopVisits(delta: int, p: int)
    ensures delta >= 0 && p >= 0 ==> ForwardOrder(Up(-p, delta) + Down(delta + p, delta) + [delta], delta, p)
  {
    var u, d := Up(-p, delta), Down(delta + p, delta);
    var ks := u + d + [delta];
    assert forall i :: 0 <= i < |u| ==> ks[i] == u[i];
    assert forall i :: |u| <= i < |u| + |d| ==> ks[i] == d[i - |u|];
  }

  /** The backward visiting order visits each diagonal of [-nx, ny] exactly once. */
  lemma {:induction false} BackwardLoopVisits(delta: int, nx: int, ny: int)
    ensures 0 <= nx && delta == ny - nx && delta >= 0
            ==> BackwardOrder([delta] + Down(delta - 1, -nx - 1) + Up(delta + 1, ny + 1), delta, nx, ny)
  {
    var d, u := Down(delta - 1, -nx - 1), Up(delta + 1, ny + 1);
    var ks := [delta] + d + u;
    assert forall i :: 1 <= i < 1 + |d| ==> ks[i] == d[i - 1];
    assert forall i :: 1 + |d| <= i < 1 + |d| + |u| ==> ks[i] == u[i - 1 - |d|];
  }
}
