/** The values the solver's two fronts hold, as functions that replay its rounds.
    Everything here is relative to one subproblem: A (length n) against B (length m >= n),
    delta = m - n.  A value y on diagonal k names the corner (y - k, y) of the edit graph
    (see EditGraph).  Forward round p visits the diagonals -p .. delta + p in the order of
    GetForwardLoop; backward round q visits -n .. m in the order of GetBackwardLoop.  While
    a round runs, a diagonal it has visited holds its value for this round and every other
    diagonal the value of the round before (or its initial value). */
module Replay {
  import opened Distance
  import opened EditGraph
  import opened Wavefront
  import opened Loops

  // ----- snakes -----

  /** End of the forward snake from corner (y - k, y): follow matching pairs down diagonal k. */
  ghost function SnakeF<T>(A: seq<T>, B: seq<T>, k: int, y: int): int
    decreases |B| - y
  {
    if Pair(A, B, k, y) then SnakeF(A, B, k, y + 1) else y
  }

  /** End of the backward snake from corner (y - k, y): follow matching pairs up diagonal k. */
  ghost function SnakeB<T>(A: seq<T>, B: seq<T>, k: int, y: int): int
    decreases y
  {
    if y >= 1 && Pair(A, B, k, y - 1) then SnakeB(A, B, k, y - 1) else y
  }

  /** A forward snake from a corner of the box stays in the box, runs along matching pairs
      only and ends where no matching pair leaves. */
  lemma {:induction false} SnakeFEnds<T>(A: seq<T>, B: seq<T>, k: int, y: int)
    requires InBox(A, B, y - k, y)
    ensures y <= SnakeF(A, B, k, y) && InBox(A, B, SnakeF(A, B, k, y) - k, SnakeF(A, B, k, y))
    ensures Matches(A, B, k, y, SnakeF(A, B, k, y)) && FEnd(A, B, k, SnakeF(A, B, k, y))
    decreases |B| - y
  {
    if Pair(A, B, k, y) {
      SnakeFEnds(A, B, k, y + 1);
    }
  }

  /** A backward snake from a corner that is not right of or below the box runs along
      matching pairs only and ends where no matching pair enters. */
  lemma {:induction false} SnakeBEnds<T>(A: seq<T>, B: seq<T>, k: int, y: int)
    requires 0 <= y <= |B| && y - k <= |A|
    ensures 0 <= SnakeB(A, B, k, y) <= y
    ensures Matches(A, B, k, SnakeB(A, B, k, y), y) && BEnd(A, B, k, SnakeB(A, B, k, y))
    decreases y
  {
    if y >= 1 && Pair(A, B, k, y - 1) {
      SnakeBEnds(A, B, k, y - 1);
    }
  }

  // ----- the forward front -----

  /** Initial forward values: the origin on diagonal 0, nothing elsewhere. */
  function FInit(k: int): int { if k == 0 then 0 else -1 }

  /** Forward round p visits diagonal k. */
  predicate InFwd(delta: int, p: int, k: int) { -p <= k <= delta + p }

  /** Termination measure of the forward replay. */
  function FRank(delta: int, p: int, k: int): int
  {
    if p >= 0 && InFwd(delta, p, k) then ForwardPos(delta, p, k) else 0
  }

  /** Value of diagonal k after forward round p (the initial value for p < 0). */
  ghost function FFinal<T>(A: seq<T>, B: seq<T>, p: int, k: int): int
    requires |A| <= |B|
    decreases if p < 0 then 0 else p + 1, FRank(|B| - |A|, p, k), 2
  {
    if p < 0 then FInit(k)
    else if !InFwd(|B| - |A|, p, k) then FFinal(A, B, p - 1, k)
    else SnakeF(A, B, k, FRaw(A, B, p, k))
  }

  /** Raw value of diagonal k in forward round p: one row below its left neighbour or one
      column right of its right neighbour, whichever is further. */
  ghost function FRaw<T>(A: seq<T>, B: seq<T>, p: int, k: int): int
    requires |A| <= |B| && 0 <= p && InFwd(|B| - |A|, p, k)
    decreases p + 1, FRank(|B| - |A|, p, k), 1
  {
    Max(FLeft(A, B, p, k) + 1, FRight(A, B, p, k))
  }

  /** Value diagonal k - 1 holds when round p visits k: this round's below delta, the last
      round's above it. */
  ghost function FLeft<T>(A: seq<T>, B: seq<T>, p: int, k: int): int
    requires |A| <= |B| && 0 <= p && InFwd(|B| - |A|, p, k)
    decreases p + 1, FRank(|B| - |A|, p, k), 0
  {
    if k <= |B| - |A| && InFwd(|B| - |A|, p, k - 1) then FFinal(A, B, p, k - 1)
    else FFinal(A, B, p - 1, k - 1)
  }

  /** Value diagonal k + 1 holds when round p visits k: the last round's below delta, this
      round's above it. */
  ghost function FRight<T>(A: seq<T>, B: seq<T>, p: int, k: int): int
    requires |A| <= |B| && 0 <= p && InFwd(|B| - |A|, p, k)
    decreases p + 1, FRank(|B| - |A|, p, k), 0
  {
    if |B| - |A| <= k && InFwd(|B| - |A|, p, k + 1) then FFinal(A, B, p, k + 1)
    else FFinal(A, B, p - 1, k + 1)
  }

  /** A diagonal that round p and the rounds before it do not visit is unreached. */
  lemma {:induction false} FFinalOut<T>(A: seq<T>, B: seq<T>, p: int, k: int)
    requires |A| <= |B| && 0 <= p && !InFwd(|B| - |A|, p, k)
    ensures FFinal(A, B, p, k) == -1
  {
    if p >= 1 {
      FFinalOut(A, B, p - 1, k);
    }
  }

  /** The distance bound a forward round may rely on: the rounds before it met nothing. */
  predicate FwdBound(delta: int, p: int, d: int)
  {
    p >= 1 ==> d >= 4 * p + delta - 2
  }

  /** Some corner of diagonal k is reached within any budget of at least |k|. */
  lemma {:induction false} FirstCorner<T>(A: seq<T>, B: seq<T>, k: int, c: int)
    requires -|A| <= k <= |B| && Abs(k) <= c
    ensures FReach(A, B, k, c, if k >= 0 then k else 0)
  {
    if k >= 0 {
      DfLeftEdge(A, B, k);
    } else {
      assert B[..0] == [];
    }
  }

  /** A corner the origin reaches within budget c leaves a path of cost at most c plus the
      steps still to take. */
  lemma {:induction false} FarCorner<T>(A: seq<T>, B: seq<T>, k: int, c: int, y: int)
    requires FReach(A, B, k, c, y)
    ensures Dist(A, B) <= c + (|A| - (y - k)) + (|B| - y)
  {
    Compose(A, B, y - k, y);
    DbUpper(A, B, y - k, y);
  }

  /** The left operand of diagonal k in round p is the furthest corner of diagonal k - 1
      within one less than k's budget. */
  lemma {:induction false} FLeftOK<T>(A: seq<T>, B: seq<T>, p: int, k: int)
    requires 1 <= |A| <= |B| && 0 <= p <= |A| && FwdBound(|B| - |A|, p, Dist(A, B))
    requires InFwd(|B| - |A|, p, k)
    ensures FLeft(A, B, p, k) >= -1
    ensures FwdOK(A, B, k - 1, CF(|B| - |A|, p, k) - 1, FLeft(A, B, p, k))
    decreases p + 1, FRank(|B| - |A|, p, k), 0
  {
    var delta, yl := |B| - |A|, FLeft(A, B, p, k);
    if k <= delta && InFwd(delta, p, k - 1) {
      assert yl == FFinal(A, B, p, k - 1);
      assert CF(delta, p, k - 1) == CF(delta, p, k) - 1;
      FFinalOK(A, B, p, k - 1);
    } else if p >= 1 && InFwd(delta, p - 1, k - 1) {
      assert yl == FFinal(A, B, p - 1, k - 1);
      assert CF(delta, p - 1, k - 1) == CF(delta, p, k) - 1;
      FFinalOK(A, B, p - 1, k - 1);
    } else {
      assert yl == FFinal(A, B, p - 1, k - 1);
      if p >= 1 {
        FFinalOut(A, B, p - 1, k - 1);
      }
      FUnreached(A, B, k - 1, CF(delta, p, k) - 1);
    }
  }

  /** The right operand of diagonal k in round p is the furthest corner of diagonal k + 1
      within one less than k's budget. */
  lemma {:induction false} FRightOK<T>(A: seq<T>, B: seq<T>, p: int, k: int)
    requires 1 <= |A| <= |B| && 0 <= p <= |A| && FwdBound(|B| - |A|, p, Dist(A, B))
    requires InFwd(|B| - |A|, p, k)
    ensures FRight(A, B, p, k) >= -1
    ensures FwdOK(A, B, k + 1, CF(|B| - |A|, p, k) - 1, FRight(A, B, p, k))
    decreases p + 1, FRank(|B| - |A|, p, k), 0
  {
    var delta, yr := |B| - |A|, FRight(A, B, p, k);
    if delta <= k && InFwd(delta, p, k + 1) {
      assert yr == FFinal(A, B, p, k + 1);
      assert CF(delta, p, k + 1) == CF(delta, p, k) - 1;
      FFinalOK(A, B, p, k + 1);
    } else if p >= 1 && InFwd(delta, p - 1, k + 1) {
      assert yr == FFinal(A, B, p - 1, k + 1);
      assert CF(delta, p - 1, k + 1) == CF(delta, p, k) - 1;
      FFinalOK(A, B, p - 1, k + 1);
    } else {
      assert yr == FFinal(A, B, p - 1, k + 1);
      if p >= 1 {
        FFinalOut(A, B, p - 1, k + 1);
      }
      FUnreached(A, B, k + 1, CF(delta, p, k) - 1);
    }
  }

  /** The left operand of a visited diagonal is not on the last row: a corner there within
      the operand's budget would leave a path cheaper than the distance bound allows. */
  lemma {:induction false} LeftAboveBottom<T>(A: seq<T>, B: seq<T>, p: int, k: int, yl: int)
    requires 1 <= |A| <= |B| && 0 <= p && FwdBound(|B| - |A|, p, Dist(A, B))
    requires InFwd(|B| - |A|, p, k) && FReach(A, B, k - 1, CF(|B| - |A|, p, k) - 1, yl)
    ensures yl < |B|
  {
    DistBounds(A, B);
    FarCorner(A, B, k - 1, CF(|B| - |A|, p, k) - 1, yl);
  }

  /** The right operand of a visited diagonal is not on the last column, for the same
      reason. */
  lemma {:induction false} RightBeforeEnd<T>(A: seq<T>, B: seq<T>, p: int, k: int, yr: int)
    requires 1 <= |A| <= |B| && 0 <= p && FwdBound(|B| - |A|, p, Dist(A, B))
    requires InFwd(|B| - |A|, p, k) && FReach(A, B, k + 1, CF(|B| - |A|, p, k) - 1, yr)
    ensures yr - k - 1 < |A|
  {
    DistBounds(A, B);
    FarCorner(A, B, k + 1, CF(|B| - |A|, p, k) - 1, yr);
  }

  /** Both operands of a visited diagonal are unreached only on the origin's diagonal. */
  lemma {:induction false} OnlyOriginUnreached<T>(A: seq<T>, B: seq<T>, p: int, k: int, c: int)
    requires |A| <= |B| && 0 <= p <= |A| && InFwd(|B| - |A|, p, k) && c == CF(|B| - |A|, p, k)
    requires FComplete(A, B, k - 1, c - 1, -1) && FComplete(A, B, k + 1, c - 1, -1)
    ensures k == 0 && c >= 0
  {
    if k > 0 {
      FirstCorner(A, B, k - 1, c - 1);
    } else if k < 0 {
      FirstCorner(A, B, k + 1, c - 1);
    }
  }

  /** The raw value of diagonal k in round p is reached within k's budget, and every corner
      within that budget is before it or joined to it by matching pairs. */
  lemma {:induction false} FRawOK<T>(A: seq<T>, B: seq<T>, p: int, k: int)
    requires 1 <= |A| <= |B| && 0 <= p <= |A| && FwdBound(|B| - |A|, p, Dist(A, B))
    requires InFwd(|B| - |A|, p, k)
    ensures var c, r := CF(|B| - |A|, p, k), FRaw(A, B, p, k);
            FReach(A, B, k, c, r)
            && forall y' :: FReach(A, B, k, c, y') ==> y' <= r || Matches(A, B, k, r, y')
    decreases p + 1, FRank(|B| - |A|, p, k), 1
  {
    var c, yl, yr := CF(|B| - |A|, p, k), FLeft(A, B, p, k), FRight(A, B, p, k);
    FLeftOK(A, B, p, k);
    FRightOK(A, B, p, k);
    if yl >= 0 {
      LeftAboveBottom(A, B, p, k, yl);
    }
    if yr >= 0 {
      RightBeforeEnd(A, B, p, k, yr);
    }
    if yl == -1 && yr == -1 {
      OnlyOriginUnreached(A, B, p, k, c);
    }
    FRawSound(A, B, k, c, yl, yr);
    forall y' | FReach(A, B, k, c, y') ensures y' <= Max(yl + 1, yr) || Matches(A, B, k, Max(yl + 1, yr), y') {
      FRawComplete(A, B, k, c, yl, yr, y');
    }
  }

  /** After forward round p every diagonal holds the furthest corner the origin reaches
      within the diagonal's budget CF, or -1 exactly where round p and the rounds before it
      have not been. */
  lemma {:induction false} FFinalOK<T>(A: seq<T>, B: seq<T>, p: int, k: int)
    requires 1 <= |A| <= |B| && 0 <= p <= |A| && FwdBound(|B| - |A|, p, Dist(A, B))
    ensures var f := FFinal(A, B, p, k);
            FwdOK(A, B, k, CF(|B| - |A|, p, k), f)
            && (InFwd(|B| - |A|, p, k) ==> f >= 0) && (!InFwd(|B| - |A|, p, k) ==> f == -1)
    decreases p + 1, FRank(|B| - |A|, p, k), 2
  {
    var delta, c := |B| - |A|, CF(|B| - |A|, p, k);
    if !InFwd(delta, p, k) {
      FFinalOut(A, B, p, k);
      FUnreached(A, B, k, c);
    } else {
      var r := FRaw(A, B, p, k);
      FRawOK(A, B, p, k);
      SnakeFEnds(A, B, k, r);
      FAfterSnake(A, B, k, c, r, SnakeF(A, B, k, r));
    }
  }

  // ----- the backward front -----

  /** Backward round q visits diagonal k. */
  predicate InBwd(n: int, m: int, k: int) { -n <= k <= m }

  function BRank(n: int, delta: int, q: int, k: int): int
  {
    if q >= 0 && InBwd(n, n + delta, k) then BackwardPos(delta, n, k) else 0
  }

  /** Value of diagonal k after backward round q (the initial value BInit for q < 0). */
  ghost function BFinal<T>(A: seq<T>, B: seq<T>, q: int, k: int): int
    requires |A| <= |B|
    decreases if q < 0 then 0 else q + 1, BRank(|A|, |B| - |A|, q, k), 2
  {
    if q < 0 then BInit(|A|, |B|, k)
    else if !InBwd(|A|, |B|, k) then BFinal(A, B, q - 1, k)
    else SnakeB(A, B, k, BRaw(A, B, q, k))
  }

  /** Initial backward values: one column past A left of delta, one row past B from delta on. */
  function BInit(n: int, m: int, k: int): int
  {
    if k < m - n then n + 1 + k else m + 1
  }

  /** Raw value of diagonal k in backward round q: its left neighbour or one row above its
      right neighbour, whichever is nearer, but not above the first row. */
  ghost function BRaw<T>(A: seq<T>, B: seq<T>, q: int, k: int): int
    requires |A| <= |B| && 0 <= q && InBwd(|A|, |B|, k)
    decreases q + 1, BRank(|A|, |B| - |A|, q, k), 1
  {
    Max(Min(BLeft(A, B, q, k), BRight(A, B, q, k) - 1), 0)
  }

  /** Value diagonal k - 1 holds when round q visits k: this round's above delta. */
  ghost function BLeft<T>(A: seq<T>, B: seq<T>, q: int, k: int): int
    requires |A| <= |B| && 0 <= q && InBwd(|A|, |B|, k)
    decreases q + 1, BRank(|A|, |B| - |A|, q, k), 0
  {
    if k > |B| - |A| then BFinal(A, B, q, k - 1) else BFinal(A, B, q - 1, k - 1)
  }

  /** Value diagonal k + 1 holds when round q visits k: this round's below delta. */
  ghost function BRight<T>(A: seq<T>, B: seq<T>, q: int, k: int): int
    requires |A| <= |B| && 0 <= q && InBwd(|A|, |B|, k)
    decreases q + 1, BRank(|A|, |B| - |A|, q, k), 0
  {
    if k < |B| - |A| then BFinal(A, B, q, k + 1) else BFinal(A, B, q - 1, k + 1)
  }

  lemma {:induction false} BFinalOut<T>(A: seq<T>, B: seq<T>, q: int, k: int)
    requires |A| <= |B| && !InBwd(|A|, |B|, k)
    ensures BFinal(A, B, q, k) == BInit(|A|, |B|, k)
    decreases if q < 0 then 0 else q + 1
  {
    if q >= 0 {
      BFinalOut(A, B, q - 1, k);
    }
  }

  /** The left operand of diagonal k in backward round q is the nearest corner of diagonal
      k - 1 within one less than k's budget, and itself within k's budget. */
  lemma {:induction false} BLeftOK<T>(A: seq<T>, B: seq<T>, q: int, k: int)
    requires 1 <= |A| <= |B| && 0 <= q && InBwd(|A|, |B|, k)
    ensures var bl, c := BLeft(A, B, q, k), CB(|B| - |A|, q, k);
            BComplete(A, B, k - 1, c - 1, bl) && BCand(A, B, k, c, bl)
    decreases q + 1, BRank(|A|, |B| - |A|, q, k), 0
  {
    var delta, c, bl := |B| - |A|, CB(|B| - |A|, q, k), BLeft(A, B, q, k);
    if k > delta {
      assert bl == BFinal(A, B, q, k - 1);
      assert CB(delta, q, k - 1) == c - 1;
      BFinalOK(A, B, q, k - 1);
      BFromLeft(A, B, k, c, bl);
    } else if q >= 1 && InBwd(|A|, |B|, k - 1) {
      assert bl == BFinal(A, B, q - 1, k - 1);
      assert CB(delta, q - 1, k - 1) == c - 1;
      BFinalOK(A, B, q - 1, k - 1);
      BFromLeft(A, B, k, c, bl);
    } else {
      assert bl == BFinal(A, B, q - 1, k - 1);
      BLeftInit(A, B, q, k);
    }
  }

  /** The left operand of a diagonal the earlier rounds have not touched is its initial
      value, one column past A. */
  lemma {:induction false} BLeftInit<T>(A: seq<T>, B: seq<T>, q: int, k: int)
    requires 1 <= |A| <= |B| && 0 <= q && InBwd(|A|, |B|, k) && k <= |B| - |A|
    requires q == 0 || !InBwd(|A|, |B|, k - 1)
    ensures var bl, c := BFinal(A, B, q - 1, k - 1), CB(|B| - |A|, q, k);
            BComplete(A, B, k - 1, c - 1, bl) && BCand(A, B, k, c, bl)
  {
    var c := CB(|B| - |A|, q, k);
    if q >= 1 {
      BFinalOut(A, B, q - 1, k - 1);
    }
    assert BFinal(A, B, q - 1, k - 1) == |A| + k;
    BUnreached(A, B, k - 1, c - 1, |A| + k);
    BInitLeft(A, B, k, c);
  }

  /** The right operand of diagonal k in backward round q is the nearest corner of diagonal
      k + 1 within one less than k's budget; one row above it is within k's budget. */
  lemma {:induction false} BRightOK<T>(A: seq<T>, B: seq<T>, q: int, k: int)
    requires 1 <= |A| <= |B| && 0 <= q && InBwd(|A|, |B|, k)
    ensures var br, c := BRight(A, B, q, k), CB(|B| - |A|, q, k);
            BComplete(A, B, k + 1, c - 1, br)
            && (br <= |B| ==> BCand(A, B, k + 1, c - 1, br))
            && (br > |B| ==> br == |B| + 1 && BCand(A, B, k, c, |B|))
    decreases q + 1, BRank(|A|, |B| - |A|, q, k), 0
  {
    var delta, c, br := |B| - |A|, CB(|B| - |A|, q, k), BRight(A, B, q, k);
    if k < delta {
      assert br == BFinal(A, B, q, k + 1);
      assert CB(delta, q, k + 1) == c - 1;
      BFinalOK(A, B, q, k + 1);
    } else if q >= 1 && InBwd(|A|, |B|, k + 1) {
      assert br == BFinal(A, B, q - 1, k + 1);
      assert CB(delta, q - 1, k + 1) == c - 1;
      BFinalOK(A, B, q - 1, k + 1);
    } else {
      assert br == BFinal(A, B, q - 1, k + 1);
      BRightInit(A, B, q, k);
    }
  }

  /** The right operand of a diagonal the earlier rounds have not touched is its initial
      value, one row past B. */
  lemma {:induction false} BRightInit<T>(A: seq<T>, B: seq<T>, q: int, k: int)
    requires 1 <= |A| <= |B| && 0 <= q && InBwd(|A|, |B|, k) && |B| - |A| <= k
    requires q == 0 || !InBwd(|A|, |B|, k + 1)
    ensures var br, c := BFinal(A, B, q - 1, k + 1), CB(|B| - |A|, q, k);
            BComplete(A, B, k + 1, c - 1, br) && br == |B| + 1 && BCand(A, B, k, c, |B|)
  {
    var c := CB(|B| - |A|, q, k);
    if q >= 1 {
      BFinalOut(A, B, q - 1, k + 1);
    }
    assert BFinal(A, B, q - 1, k + 1) == |B| + 1;
    BUnreached(A, B, k + 1, c - 1, |B| + 1);
    BInitRight(A, B, k, c);
  }

  /** A corner on the last column left of delta is within any budget of at least
      delta - k. */
  lemma {:induction false} BInitLeft<T>(A: seq<T>, B: seq<T>, k: int, c: int)
    requires -|A| <= k <= |B| - |A| && c >= (|B| - |A|) - k
    ensures BCand(A, B, k, c, |A| + k)
  {
    DbRightEdge(A, B, |A| + k);
  }

  /** A corner on the last row from delta on is within any budget of at least k - delta. */
  lemma {:induction false} BInitRight<T>(A: seq<T>, B: seq<T>, k: int, c: int)
    requires |B| - |A| <= k <= |B| && c >= k - (|B| - |A|)
    ensures BCand(A, B, k, c, |B|)
  {
    DbBottomEdge(A, B, |B| - k);
  }

  /** The raw value of diagonal k in backward round q reaches the terminus within k's
      budget, and every corner within that budget is after it or joined to it by matching
      pairs. */
  lemma {:induction false} BRawOK<T>(A: seq<T>, B: seq<T>, q: int, k: int)
    requires 1 <= |A| <= |B| && 0 <= q && InBwd(|A|, |B|, k)
    ensures var c, r := CB(|B| - |A|, q, k), BRaw(A, B, q, k);
            BCand(A, B, k, c, r)
            && forall y' :: BReach(A, B, k, c, y') ==> r <= y' || Matches(A, B, k, y', r)
    decreases q + 1, BRank(|A|, |B| - |A|, q, k), 1
  {
    var c, bl, br := CB(|B| - |A|, q, k), BLeft(A, B, q, k), BRight(A, B, q, k);
    BLeftOK(A, B, q, k);
    BRightOK(A, B, q, k);
    if br <= |B| {
      BFromRight(A, B, k, c, br);
    }
    forall y' | BReach(A, B, k, c, y') ensures Max(Min(bl, br - 1), 0) <= y' || Matches(A, B, k, y', Max(Min(bl, br - 1), 0)) {
      BRawComplete(A, B, k, c, bl, br, y');
    }
  }

  /** After backward round q every diagonal of the box holds the nearest corner that reaches
      the terminus within the diagonal's budget CB; the others keep their initial values. */
  lemma {:induction false} BFinalOK<T>(A: seq<T>, B: seq<T>, q: int, k: int)
    requires 1 <= |A| <= |B| && 0 <= q
    ensures InBwd(|A|, |B|, k) ==> BwdOK(A, B, k, CB(|B| - |A|, q, k), BFinal(A, B, q, k))
    ensures !InBwd(|A|, |B|, k) ==> BFinal(A, B, q, k) == BInit(|A|, |B|, k)
    decreases q + 1, BRank(|A|, |B| - |A|, q, k), 2
  {
    if !InBwd(|A|, |B|, k) {
      BFinalOut(A, B, q, k);
    } else {
      var c, r := CB(|B| - |A|, q, k), BRaw(A, B, q, k);
      BRawOK(A, B, q, k);
      SnakeBEnds(A, B, k, r);
      BAfterSnake(A, B, k, c, r, SnakeB(A, B, k, r));
    }
  }
}
