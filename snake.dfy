/** Following a diagonal of the edit graph through a run of matching pairs ("a snake").
    Positions are absolute indices into `xs` and `ys`, as in the solver: a corner on diagonal
    `k` whose last consumed element of `ys` is `iy` has last consumed element
    `iy - iy1 - k + ix1` of `xs`.  Relative to the box xs[ix1..ix2] x ys[iy1..iy2] the same
    corner is (iy - iy1 - k + 1, iy - iy1 + 1) on the same diagonal `k`, which is how the
    results are tied to the replay functions SnakeF and SnakeB. */
module Snakes {
  import opened Wavefront
  import opened Replay

  /** A is the stretch of `xs` that starts at index ix1. */
  predicate Window<T(==)>(xs: seq<T>, ix1: int, A: seq<T>)
  {
    0 <= ix1 && ix1 + |A| <= |xs| && forall t :: 0 <= t < |A| ==> A[t] == xs[ix1 + t]
  }

  /** The index into `xs` paired with index `iy` of `ys` on diagonal `k`. */
  function XOf(k: int, iy: int, ix1: int, iy1: int): int
  {
    iy - iy1 - k + ix1
  }

  /** Forward: from the corner after (ix, iy), consume matching pairs (xs[ix+1], ys[iy+1]) while
      both stay below ix2 and iy2; returns the last consumed index of `ys`. */
  method SnakeForward<T(==)>(k: int, iy: int, xs: seq<T>, ix1: int, ix2: int, ys: seq<T>, iy1: int, iy2: int,
                             ghost A: seq<T>, ghost B: seq<T>)
    returns (r: int)
    requires Window(xs, ix1, A) && ix2 == ix1 + |A| && Window(ys, iy1, B) && iy2 == iy1 + |B|
    requires iy1 - 1 <= iy < iy2 && ix1 - 1 <= XOf(k, iy, ix1, iy1) < ix2
    ensures iy <= r < iy2 && XOf(k, r, ix1, iy1) < ix2
    ensures forall j :: iy < j <= r ==> xs[XOf(k, j, ix1, iy1)] == ys[j]
    ensures XOf(k, r, ix1, iy1) + 1 == ix2 || r + 1 == iy2
         || xs[XOf(k, r, ix1, iy1) + 1] != ys[r + 1]
    ensures r - (iy1 - 1) == SnakeF(A, B, k, iy - (iy1 - 1))
  {
    var ix := XOf(k, iy, ix1, iy1);
    r := iy;
    while ix + 1 < ix2 && r + 1 < iy2 && xs[ix + 1] == ys[r + 1]
      invariant iy <= r < iy2 && ix == XOf(k, r, ix1, iy1) && ix < ix2
      invariant forall j :: iy < j <= r ==> xs[XOf(k, j, ix1, iy1)] == ys[j]
      invariant SnakeF(A, B, k, r - (iy1 - 1)) == SnakeF(A, B, k, iy - (iy1 - 1))
      decreases iy2 - r
    {
      assert Pair(A, B, k, r - (iy1 - 1));
      ix := ix + 1;
      r := r + 1;
    }
    assert !Pair(A, B, k, r - (iy1 - 1));
  }

  /** Backward: from the corner after (ix, iy), consume matching pairs (xs[ix], ys[iy]) while
      both stay at or above ix1 and iy1; returns the index of `ys` where it stopped.  The
      ends ix2 and iy2 of the box only serve the specification. */
  method SnakeBackward<T(==)>(k: int, iy: int, xs: seq<T>, ix1: int, ys: seq<T>, iy1: int,
                              ghost ix2: int, ghost iy2: int, ghost A: seq<T>, ghost B: seq<T>)
    returns (r: int)
    requires Window(xs, ix1, A) && ix2 == ix1 + |A| && Window(ys, iy1, B) && iy2 == iy1 + |B|
    requires iy1 - 1 <= iy < iy2 && XOf(k, iy, ix1, iy1) < ix2
    ensures iy1 - 1 <= r <= iy
    ensures forall j :: r < j <= iy ==> ix1 <= XOf(k, j, ix1, iy1) && xs[XOf(k, j, ix1, iy1)] == ys[j]
    ensures XOf(k, r, ix1, iy1) < ix1 || r < iy1 || xs[XOf(k, r, ix1, iy1)] != ys[r]
    ensures r - (iy1 - 1) == SnakeB(A, B, k, iy - (iy1 - 1))
  {
    var ix := XOf(k, iy, ix1, iy1);
    r := iy;
    while ix1 <= ix && iy1 <= r && xs[ix] == ys[r]
      invariant iy1 - 1 <= r <= iy && ix == XOf(k, r, ix1, iy1)
      invariant forall j :: r < j <= iy ==> ix1 <= XOf(k, j, ix1, iy1) && xs[XOf(k, j, ix1, iy1)] == ys[j]
      invariant SnakeB(A, B, k, r - (iy1 - 1)) == SnakeB(A, B, k, iy - (iy1 - 1))
      decreases r
    {
      assert Pair(A, B, k, r - iy1);
      ix := ix - 1;
      r := r - 1;
    }
    assert !(r - (iy1 - 1) >= 1 && Pair(A, B, k, r - iy1));
  }
}
