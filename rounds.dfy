/** What one forward or backward round of the middle-point search establishes, in terms of
    the replayed fronts of Replay: a meet names a corner that splits a cheapest path and is
    neither end of the box; a round that does not meet raises the lower bound on the
    distance.  Same relative coordinates as Replay: A (length n) against B (length m >= n),
    delta = m - n. */
module Rounds {
  import opened Distance
  import opened EditGraph
  import opened Wavefront
  import opened Replay
  import opened Loops

  /** (x, y) lies on a cheapest path and splits the problem into two strictly smaller ones. */
  ghost predicate MeetPoint<T>(A: seq<T>, B: seq<T>, x: int, y: int)
  {
    OnOpt(A, B, x, y) && (x, y) != (0, 0) && (x, y) != (|A|, |B|)
  }

  /** The distance bound that holds when backward round p starts: forward round p did not
      meet (p >= 1), or the shortcut did not apply (p == 0). */
  predicate BwdStart(delta: int, p: int, d: int)
  {
    d >= 4 * p + delta + (if p == 0 then 2 else 0)
  }

  /** Forward round p has been on diagonal k and stays apart from the backward front of the
      round before. */
  ghost predicate FApart<T>(A: seq<T>, B: seq<T>, p: int, k: int)
    requires |A| <= |B|
  {
    FFinal(A, B, p, k) < BFinal(A, B, p - 1, k)
  }

  /** Forward round p stayed apart at the first i positions of its visiting order ks. */
  ghost predicate FVisitedApart<T>(A: seq<T>, B: seq<T>, p: int, ks: seq<int>, i: int)
    requires |A| <= |B|
  {
    0 <= i <= |ks| && forall j {:trigger FApart(A, B, p, ks[j])} :: 0 <= j < i ==> FApart(A, B, p, ks[j])
  }

  /** Backward round q has been on diagonal k and stays apart from forward round q. */
  ghost predicate BApart<T>(A: seq<T>, B: seq<T>, q: int, k: int)
    requires |A| <= |B|
  {
    FFinal(A, B, q, k) < BFinal(A, B, q, k)
  }

  /** Backward round q stayed apart at the first i positions of its visiting order ks. */
  ghost predicate BVisitedApart<T>(A: seq<T>, B: seq<T>, q: int, ks: seq<int>, i: int)
    requires |A| <= |B|
  {
    0 <= i <= |ks| && forall j {:trigger BApart(A, B, q, ks[j])} :: 0 <= j < i ==> BApart(A, B, q, ks[j])
  }

  // ----- forward rounds -----

  /** A raw forward value of the first forward round lies before the initial backward
      value, so the first forward round never meets. */
  lemma {:induction false} FirstRoundNoMeet<T>(A: seq<T>, B: seq<T>, k: int)
    requires 1 <= |A| <= |B| && InFwd(|B| - |A|, 0, k)
    ensures FRaw(A, B, 0, k) < BFinal(A, B, -1, k)
  {
    FRawOK(A, B, 0, k);
  }

  /** The raw forward value on diagonal delta is not the terminus once its two neighbours
      have been visited and stayed apart: the backward front of the round before already
      holds the corners next to the terminus. */
  lemma {:induction false} NotTerminus<T>(A: seq<T>, B: seq<T>, p: int)
    requires 1 <= |A| <= |B| && 1 <= p <= |A| && FwdBound(|B| - |A|, p, Dist(A, B))
    requires FApart(A, B, p, |B| - |A| - 1) && FApart(A, B, p, |B| - |A| + 1)
    ensures FRaw(A, B, p, |B| - |A|) < |B|
  {
    BFinalOK(A, B, p - 1, |B| - |A| - 1);
    BFinalOK(A, B, p - 1, |B| - |A| + 1);
    DbStepY(A, B, |A|, |B| - 1);
    DbStepX(A, B, |A| - 1, |B|);
    DbTerminus(A, B);
    FLeftOK(A, B, p, |B| - |A|);
    FRightOK(A, B, p, |B| - |A|);
  }

  /** A forward meet: the raw value of diagonal k in round p has reached the backward value
      of round p - 1.  That happens only from round 1 on, and the corner it names is a
      middle point. */
  lemma {:induction false} ForwardMeetOK<T>(A: seq<T>, B: seq<T>, p: int, k: int)
    requires 1 <= |A| <= |B| && 0 <= p <= |A| && FwdBound(|B| - |A|, p, Dist(A, B))
    requires InFwd(|B| - |A|, p, k) && BFinal(A, B, p - 1, k) <= FRaw(A, B, p, k)
    requires k == |B| - |A| && p >= 1 ==>
               FApart(A, B, p, |B| - |A| - 1) && FApart(A, B, p, |B| - |A| + 1)
    ensures p >= 1 && MeetPoint(A, B, FRaw(A, B, p, k) - k, FRaw(A, B, p, k))
  {
    FRawOK(A, B, p, k);
    if p >= 1 {
      BFinalOK(A, B, p - 1, k);
      ForwardMeet(A, B, p, k, FRaw(A, B, p, k), BFinal(A, B, p - 1, k));
      if k == |B| - |A| {
        NotTerminus(A, B, p);
      }
    }
  }

  /** Without a meet, the snake from the raw value stops before the backward value. */
  lemma {:induction false} ForwardApart<T>(A: seq<T>, B: seq<T>, p: int, k: int)
    requires 1 <= |A| <= |B| && 1 <= p <= |A| && FwdBound(|B| - |A|, p, Dist(A, B))
    requires InFwd(|B| - |A|, p, k) && FRaw(A, B, p, k) < BFinal(A, B, p - 1, k)
    ensures FApart(A, B, p, k)
  {
    FRawOK(A, B, p, k);
    SnakeFEnds(A, B, k, FRaw(A, B, p, k));
    BFinalOK(A, B, p - 1, k);
    SnakeStops(A, B, k, FRaw(A, B, p, k), FFinal(A, B, p, k), BFinal(A, B, p - 1, k));
  }

  /** A forward round from round 1 on that stayed apart on every diagonal it visited raises
      the distance bound by two. */
  lemma {:induction false} ForwardRoundApart<T>(A: seq<T>, B: seq<T>, p: int)
    requires 1 <= |A| <= |B| && 1 <= p <= |A| && FwdBound(|B| - |A|, p, Dist(A, B))
    requires forall k :: InFwd(|B| - |A|, p, k) ==> FApart(A, B, p, k)
    ensures BwdStart(|B| - |A|, p, Dist(A, B))
  {
    forall k | InBwd(|A|, |B|, k) ensures FFinal(A, B, p, k) < BFinal(A, B, p - 1, k) {
      if InFwd(|B| - |A|, p, k) {
        assert FApart(A, B, p, k);
      } else {
        FFinalOut(A, B, p, k);
        BFinalOK(A, B, p - 1, k);
      }
    }
    FrontsApart(A, B, p, p - 1);
    ParityStep(A, B, 2 * p - 1);
  }

  /** Forward front p and backward front q that are apart on every diagonal of the box
      bound the distance from below by 2p + 2q + delta + 1: otherwise some corner of a
      cheapest path lies within both budgets, and the fronts would have met there. */
  lemma {:induction false} FrontsApart<T>(A: seq<T>, B: seq<T>, p: int, q: int)
    requires 1 <= |A| <= |B| && 0 <= p <= |A| && 0 <= q && FwdBound(|B| - |A|, p, Dist(A, B))
    requires forall k :: InBwd(|A|, |B|, k) ==> FFinal(A, B, p, k) < BFinal(A, B, q, k)
    ensures Dist(A, B) > 2 * p + 2 * q + (|B| - |A|)
  {
    if Dist(A, B) <= 2 * p + 2 * q + (|B| - |A|) {
      var x, y := BothReach(A, B, p, q);
      FFinalOK(A, B, p, y - x);
      BFinalOK(A, B, q, y - x);
      Apart(A, B, y - x, CF(|B| - |A|, p, y - x), CB(|B| - |A|, q, y - x),
            FFinal(A, B, p, y - x), BFinal(A, B, q, y - x), y);
      assert false;
    }
  }

  // ----- the shortcut after forward round 0 -----

  /** After forward round 0, diagonal delta holds the last row exactly when the distance is
      delta, that is when B is A with elements inserted. */
  lemma {:induction false} ShortcutIff<T>(A: seq<T>, B: seq<T>)
    requires 1 <= |A| <= |B|
    ensures FFinal(A, B, 0, |B| - |A|) == |B| <==> Dist(A, B) == |B| - |A|
  {
    FFinalOK(A, B, 0, |B| - |A|);
    ShortcutExact(A, B, FFinal(A, B, 0, |B| - |A|));
  }

  /** When the shortcut does not apply, backward round 0 may rely on a distance of at least
      delta + 2. */
  lemma {:induction false} NoShortcut<T>(A: seq<T>, B: seq<T>)
    requires 1 <= |A| <= |B| && FFinal(A, B, 0, |B| - |A|) != |B|
    ensures BwdStart(|B| - |A|, 0, Dist(A, B))
  {
    ShortcutIff(A, B);
    DistBounds(A, B);
    ParityStep(A, B, 0);
  }

  /** In forward round 0, diagonal k starts one row below where diagonal k - 1 ended. */
  lemma {:induction false} StairStart<T>(A: seq<T>, B: seq<T>, k: int)
    requires 1 <= |A| <= |B| && 0 <= k <= |B| - |A|
    ensures FRaw(A, B, 0, k) == if k == 0 then 0 else FFinal(A, B, 0, k - 1) + 1
  {
    assert FRight(A, B, 0, k) == FFinal(A, B, -1, k + 1);
    if k == 0 {
      assert FLeft(A, B, 0, k) == FFinal(A, B, -1, -1);
    } else {
      FFinalOK(A, B, 0, k - 1);
    }
  }

  /** In forward round 0, diagonal k runs along matching pairs from its start to its end,
      inside the box. */
  lemma {:induction false} StairRun<T>(A: seq<T>, B: seq<T>, k: int)
    requires 1 <= |A| <= |B| && 0 <= k <= |B| - |A|
    ensures 0 <= FRaw(A, B, 0, k) - k && FRaw(A, B, 0, k) <= FFinal(A, B, 0, k) <= |B|
    ensures FFinal(A, B, 0, k) - k <= |A|
    ensures Matches(A, B, k, FRaw(A, B, 0, k), FFinal(A, B, 0, k))
  {
    FRawOK(A, B, 0, k);
    SnakeFEnds(A, B, k, FRaw(A, B, 0, k));
  }

  /** In forward round 0, a diagonal below delta ends above the last row. */
  lemma {:induction false} StairAbove<T>(A: seq<T>, B: seq<T>, k: int)
    requires 1 <= |A| <= |B| && 0 <= k < |B| - |A|
    ensures FFinal(A, B, 0, k) < |B|
  {
    StairStart(A, B, k + 1);
    FRawOK(A, B, 0, k + 1);
  }

  // ----- backward rounds -----

  /** A backward meet: the raw value of diagonal k in backward round p has reached the
      forward value of round p.  The corner it names is a middle point. */
  lemma {:induction false} BackwardMeetOK<T>(A: seq<T>, B: seq<T>, p: int, k: int)
    requires 1 <= |A| <= |B| && 0 <= p <= |A| && BwdStart(|B| - |A|, p, Dist(A, B))
    requires InBwd(|A|, |B|, k) && BRaw(A, B, p, k) <= FFinal(A, B, p, k)
    ensures MeetPoint(A, B, BRaw(A, B, p, k) - k, BRaw(A, B, p, k))
  {
    BRawOK(A, B, p, k);
    FFinalOK(A, B, p, k);
    BackwardMeet(A, B, p, k, BRaw(A, B, p, k), FFinal(A, B, p, k));
  }

  /** Without a meet, the backward snake from the raw value stops after the forward value. */
  lemma {:induction false} BackwardApart<T>(A: seq<T>, B: seq<T>, p: int, k: int)
    requires 1 <= |A| <= |B| && 0 <= p <= |A| && BwdStart(|B| - |A|, p, Dist(A, B))
    requires InBwd(|A|, |B|, k) && FFinal(A, B, p, k) < BRaw(A, B, p, k)
    ensures FFinal(A, B, p, k) < BFinal(A, B, p, k)
  {
    BRawOK(A, B, p, k);
    SnakeBEnds(A, B, k, BRaw(A, B, p, k));
    FFinalOK(A, B, p, k);
    BackSnakeStops(A, B, k, BFinal(A, B, p, k), BRaw(A, B, p, k), FFinal(A, B, p, k));
  }

  /** A backward round that stayed apart on every diagonal raises the distance bound by two,
      to what forward round p + 1 relies on. */
  lemma {:induction false} BackwardRoundApart<T>(A: seq<T>, B: seq<T>, p: int)
    requires 1 <= |A| <= |B| && 0 <= p <= |A| && BwdStart(|B| - |A|, p, Dist(A, B))
    requires forall k :: InBwd(|A|, |B|, k) ==> FFinal(A, B, p, k) < BFinal(A, B, p, k)
    ensures Dist(A, B) >= 4 * p + (|B| - |A|) + 2
  {
    FrontsApart(A, B, p, p);
    ParityStep(A, B, 2 * p);
  }

  /** The distance bounds keep the round counter within the number of rows of A. */
  lemma {:induction false} RoundBound<T>(A: seq<T>, B: seq<T>, p: int)
    requires 1 <= |A| <= |B| && 0 <= p && Dist(A, B) >= 4 * p + (|B| - |A|) - 2
    ensures p <= |A|
  {
    DistBounds(A, B);
  }

  /** A middle point splits the distance into the distances of the two sub-boxes. */
  lemma {:induction false} MeetSplits<T>(A: seq<T>, B: seq<T>, x: int, y: int)
    requires MeetPoint(A, B, x, y)
    ensures 0 <= x <= |A| && 0 <= y <= |B| && 0 < x + y < |A| + |B|
    ensures Dist(A[..x], B[..y]) + Dist(A[x..], B[y..]) == Dist(A, B)
  {
    DfIsDist(A, B, x, y);
    DbIsDist(A, B, x, y);
  }

  // ----- the fronts while a round is under way -----

  /** Diagonal k after the first i diagonals of forward round p: this round's value once
      visited, the previous round's before. */
  ghost function FMid<T>(A: seq<T>, B: seq<T>, p: int, i: int, k: int): int
    requires |A| <= |B|
  {
    if InFwd(|B| - |A|, p, k) && ForwardPos(|B| - |A|, p, k) < i then FFinal(A, B, p, k)
    else FFinal(A, B, p - 1, k)
  }

  /** When diagonal k comes up in forward round p, its neighbours hold the operands FLeft
      and FRight of the replay. */
  lemma {:induction false} FMidOperands<T>(A: seq<T>, B: seq<T>, p: int, k: int)
    requires |A| <= |B| && 0 <= p && InFwd(|B| - |A|, p, k)
    ensures FMid(A, B, p, ForwardPos(|B| - |A|, p, k), k - 1) == FLeft(A, B, p, k)
    ensures FMid(A, B, p, ForwardPos(|B| - |A|, p, k), k + 1) == FRight(A, B, p, k)
  {
  }

  /** Visiting position i of forward round p changes only the diagonal at that position. */
  lemma {:induction false} FMidNext<T>(A: seq<T>, B: seq<T>, p: int, ks: seq<int>, i: int, k: int)
    requires |A| <= |B| && 0 <= p && ForwardOrder(ks, |B| - |A|, p) && 0 <= i < |ks|
    ensures k == ks[i] ==> FMid(A, B, p, i + 1, k) == FFinal(A, B, p, k)
    ensures k != ks[i] ==> FMid(A, B, p, i + 1, k) == FMid(A, B, p, i, k)
  {
  }

  /** Before forward round p the fronts are those of round p - 1; after it, those of p. */
  lemma {:induction false} FMidEnds<T>(A: seq<T>, B: seq<T>, p: int, k: int)
    requires |A| <= |B| && 0 <= p
    ensures FMid(A, B, p, 0, k) == FFinal(A, B, p - 1, k)
    ensures FMid(A, B, p, 2 * p + |B| - |A| + 1, k) == FFinal(A, B, p, k)
  {
  }

  /** Diagonal k after the first i diagonals of backward round q. */
  ghost function BMid<T>(A: seq<T>, B: seq<T>, q: int, i: int, k: int): int
    requires |A| <= |B|
  {
    if InBwd(|A|, |B|, k) && BackwardPos(|B| - |A|, |A|, k) < i then BFinal(A, B, q, k)
    else BFinal(A, B, q - 1, k)
  }

  /** When diagonal k comes up in backward round q, its neighbours hold the operands BLeft
      and BRight of the replay. */
  lemma {:induction false} BMidOperands<T>(A: seq<T>, B: seq<T>, q: int, k: int)
    requires |A| <= |B| && 0 <= q && InBwd(|A|, |B|, k)
    ensures BMid(A, B, q, BackwardPos(|B| - |A|, |A|, k), k - 1) == BLeft(A, B, q, k)
    ensures BMid(A, B, q, BackwardPos(|B| - |A|, |A|, k), k + 1) == BRight(A, B, q, k)
  {
    if k == |B| {
      BFinalOut(A, B, q, k + 1);
      if q >= 1 {
        BFinalOut(A, B, q - 1, k + 1);
      }
    }
    if k == -|A| {
      BFinalOut(A, B, q - 1, k - 1);
    }
  }

  /** Visiting position i of backward round q changes only the diagonal at that position. */
  lemma {:induction false} BMidNext<T>(A: seq<T>, B: seq<T>, q: int, ks: seq<int>, i: int, k: int)
    requires |A| <= |B| && 0 <= q && BackwardOrder(ks, |B| - |A|, |A|, |B|) && 0 <= i < |ks|
    ensures k == ks[i] ==> BMid(A, B, q, i + 1, k) == BFinal(A, B, q, k)
    ensures k != ks[i] ==> BMid(A, B, q, i + 1, k) == BMid(A, B, q, i, k)
  {
  }

  /** Before backward round q the fronts are those of round q - 1; after it, those of q. */
  lemma {:induction false} BMidEnds<T>(A: seq<T>, B: seq<T>, q: int, k: int)
    requires |A| <= |B| && 0 <= q
    ensures BMid(A, B, q, 0, k) == BFinal(A, B, q - 1, k)
    ensures BMid(A, B, q, |A| + |B| + 1, k) == BFinal(A, B, q, k)
  {
  }

  // ----- facts the solver's loops need, stated by position in the visiting order -----

  /** The raw forward value lies in the box. */
  lemma {:induction false} FRawInBox<T>(A: seq<T>, B: seq<T>, p: int, k: int)
    requires 1 <= |A| <= |B| && 0 <= p <= |A| && FwdBound(|B| - |A|, p, Dist(A, B))
    requires InFwd(|B| - |A|, p, k)
    ensures 0 <= FRaw(A, B, p, k) - k <= |A| && 0 <= FRaw(A, B, p, k) <= |B|
  {
    FRawOK(A, B, p, k);
  }

  /** The raw backward value lies in the rows of the box and not right of it. */
  lemma {:induction false} BRawInRange<T>(A: seq<T>, B: seq<T>, q: int, k: int)
    requires 1 <= |A| <= |B| && 0 <= q && InBwd(|A|, |B|, k)
    ensures 0 <= BRaw(A, B, q, k) <= |B| && BRaw(A, B, q, k) - k <= |A|
  {
    BRawOK(A, B, q, k);
  }

  /** When diagonal delta comes up in forward round p >= 1 (visiting order ks), both its
      neighbours have been visited. */
  lemma {:induction false} NeighboursVisited<T>(A: seq<T>, B: seq<T>, p: int, ks: seq<int>, i: int)
    requires |A| <= |B| && 1 <= p && ForwardOrder(ks, |B| - |A|, p)
    requires 0 <= i < |ks| && ks[i] == |B| - |A| && FVisitedApart(A, B, p, ks, i)
    ensures FApart(A, B, p, |B| - |A| - 1) && FApart(A, B, p, |B| - |A| + 1)
  {
    var delta := |B| - |A|;
    assert ks[ForwardPos(delta, p, delta - 1)] == delta - 1;
    assert ks[ForwardPos(delta, p, delta + 1)] == delta + 1;
  }

  /** A forward round that stayed apart at every position of its visiting order ks stayed
      apart on every diagonal it visits. */
  lemma {:induction false} ForwardVisitedAll<T>(A: seq<T>, B: seq<T>, p: int, ks: seq<int>)
    requires |A| <= |B| && 0 <= p && ForwardOrder(ks, |B| - |A|, p)
    requires FVisitedApart(A, B, p, ks, |ks|)
    ensures forall k :: InFwd(|B| - |A|, p, k) ==> FApart(A, B, p, k)
  {
    forall k | InFwd(|B| - |A|, p, k) ensures FApart(A, B, p, k) {
      assert ks[ForwardPos(|B| - |A|, p, k)] == k;
    }
  }

  /** A backward round that stayed apart at every position of its visiting order ks stayed
      apart on every diagonal of the box. */
  lemma {:induction false} BackwardVisitedAll<T>(A: seq<T>, B: seq<T>, q: int, ks: seq<int>)
    requires |A| <= |B| && BackwardOrder(ks, |B| - |A|, |A|, |B|)
    requires BVisitedApart(A, B, q, ks, |ks|)
    ensures forall k :: InBwd(|A|, |B|, k) ==> FFinal(A, B, q, k) < BFinal(A, B, q, k)
  {
    forall k | InBwd(|A|, |B|, k) ensures FFinal(A, B, q, k) < BFinal(A, B, q, k) {
      assert ks[BackwardPos(|B| - |A|, |A|, k)] == k;
      assert BApart(A, B, q, ks[BackwardPos(|B| - |A|, |A|, k)]);
    }
  }
}
