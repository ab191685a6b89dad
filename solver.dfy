/** The diff solver: Wu's O(NP) search for a middle point of a cheapest path, refined
    into Hirschberg's divide and conquer, writing an edit script into a shared array.
    The solver works on the box xs[ix1..ix2] x ys[iy1..iy2]; in the contracts that box is
    named by the ghost parameters A and B.  A front slot j stands for diagonal j - nx - 1
    and holds an absolute index of `ys`: base iy1 - 1 plus the relative row of the Replay
    functions. */
module Solver {
  import opened Ops
  import opened Distance
  import opened EditGraph
  import opened Wavefront
  import opened Replay
  import opened Rounds
  import opened Loops
  import opened Snakes
  import opened Arrays
  import opened Script

  /** A and B are the box the solver works on, with the shorter side first. */
  predicate Box<T(==)>(xs: seq<T>, ix1: int, ix2: int, ys: seq<T>, iy1: int, iy2: int, A: seq<T>, B: seq<T>)
  {
    Window(xs, ix1, A) && ix2 == ix1 + |A| && Window(ys, iy1, B) && iy2 == iy1 + |B|
    && 1 <= |A| <= |B|
  }

  /** Slot j of a front.  The predicates below quantify over this term rather than the
      plain index, so that their facts about the replay functions are produced only where a
      proof names a slot on purpose. */
  function At(s: seq<int>, j: int): int
    requires 0 <= j < |s|
  {
    s[j]
  }

  /** The forward slots hold the forward front after round p. */
  ghost predicate FwdFront<T>(fps: seq<int>, A: seq<T>, B: seq<T>, base: int, p: int)
    requires |A| <= |B|
  {
    |A| + |B| + 3 <= |fps|
    && forall j :: 0 <= j < |A| + |B| + 3 ==> At(fps, j) == base + FFinal(A, B, p, j - |A| - 1)
  }

  /** The backward slots hold the backward front after round q. */
  ghost predicate BwdFront<T>(bps: seq<int>, A: seq<T>, B: seq<T>, base: int, q: int)
    requires |A| <= |B|
  {
    |A| + |B| + 3 <= |bps|
    && forall j :: 0 <= j < |A| + |B| + 3 ==> At(bps, j) == base + BFinal(A, B, q, j - |A| - 1)
  }

  /** The forward slots part way through forward round p. */
  ghost predicate FwdSlots<T>(fps: seq<int>, A: seq<T>, B: seq<T>, base: int, p: int, i: int)
    requires |A| <= |B|
  {
    |A| + |B| + 3 <= |fps|
    && forall j :: 0 <= j < |A| + |B| + 3 ==> At(fps, j) == base + FMid(A, B, p, i, j - |A| - 1)
  }

  /** The backward slots part way through backward round q. */
  ghost predicate BwdSlots<T>(bps: seq<int>, A: seq<T>, B: seq<T>, base: int, q: int, i: int)
    requires |A| <= |B|
  {
    |A| + |B| + 3 <= |bps|
    && forall j :: 0 <= j < |A| + |B| + 3 ==> At(bps, j) == base + BMid(A, B, q, i, j - |A| - 1)
  }

  // ----- the slots through a round -----

  /** The slot of a diagonal of the box holds that diagonal's value in the front. */
  lemma {:induction false} FwdFrontSlot<T>(fps: seq<int>, A: seq<T>, B: seq<T>, base: int, p: int, k: int)
    requires |A| <= |B| && FwdFront(fps, A, B, base, p) && -|A| - 1 <= k <= |B| + 1
    ensures fps[|A| + 1 + k] == base + FFinal(A, B, p, k)
  {
    assert At(fps, |A| + 1 + k) == base + FFinal(A, B, p, k);
  }

  lemma {:induction false} BwdFrontSlot<T>(bps: seq<int>, A: seq<T>, B: seq<T>, base: int, q: int, k: int)
    requires |A| <= |B| && BwdFront(bps, A, B, base, q) && -|A| - 1 <= k <= |B| + 1
    ensures bps[|A| + 1 + k] == base + BFinal(A, B, q, k)
  {
    assert At(bps, |A| + 1 + k) == base + BFinal(A, B, q, k);
  }

  lemma {:induction false} FwdSlotsStart<T>(fps: seq<int>, A: seq<T>, B: seq<T>, base: int, p: int)
    requires |A| <= |B| && 0 <= p && FwdFront(fps, A, B, base, p - 1)
    ensures FwdSlots(fps, A, B, base, p, 0)
  {
    forall k ensures FMid(A, B, p, 0, k) == FFinal(A, B, p - 1, k) {
      FMidEnds(A, B, p, k);
    }
  }

  lemma {:induction false} FwdSlotsEnd<T>(fps: seq<int>, A: seq<T>, B: seq<T>, base: int, p: int)
    requires |A| <= |B| && 0 <= p && FwdSlots(fps, A, B, base, p, 2 * p + |B| - |A| + 1)
    ensures FwdFront(fps, A, B, base, p)
  {
    forall k ensures FMid(A, B, p, 2 * p + |B| - |A| + 1, k) == FFinal(A, B, p, k) {
      FMidEnds(A, B, p, k);
    }
  }

  /** The neighbours of the diagonal at position i of forward round p hold its operands. */
  lemma {:induction false} FwdSlotsOperands<T>(fps: seq<int>, A: seq<T>, B: seq<T>, base: int,
                                               p: int, ks: seq<int>, i: int, k: int)
    requires |A| <= |B| && 0 <= p <= |A| && ForwardOrder(ks, |B| - |A|, p) && 0 <= i < |ks| && k == ks[i]
    requires FwdSlots(fps, A, B, base, p, i)
    ensures fps[|A| + 1 + k - 1] == base + FLeft(A, B, p, k)
    ensures fps[|A| + 1 + k + 1] == base + FRight(A, B, p, k)
  {
    FMidOperands(A, B, p, k);
    assert At(fps, |A| + 1 + k - 1) == base + FMid(A, B, p, i, k - 1);
    assert At(fps, |A| + 1 + k + 1) == base + FMid(A, B, p, i, k + 1);
  }

  /** Writing the final value of the diagonal at position i, and nothing else, moves the
      slots on by one. */
  lemma {:induction false} FwdSlotsStep<T>(before: seq<int>, after: seq<int>, A: seq<T>, B: seq<T>, base: int,
                                           p: int, ks: seq<int>, i: int, k: int)
    requires |A| <= |B| && 0 <= p <= |A| && ForwardOrder(ks, |B| - |A|, p) && 0 <= i < |ks| && k == ks[i]
    requires FwdSlots(before, A, B, base, p, i) && |after| == |before|
    requires after[|A| + 1 + k] == base + FFinal(A, B, p, k)
    requires forall j :: 0 <= j < |before| && j != |A| + 1 + k ==> after[j] == before[j]
    ensures FwdSlots(after, A, B, base, p, i + 1)
  {
    forall j | 0 <= j < |A| + |B| + 3 ensures At(after, j) == base + FMid(A, B, p, i + 1, j - |A| - 1) {
      assert At(before, j) == base + FMid(A, B, p, i, j - |A| - 1);
      FMidNext(A, B, p, ks, i, j - |A| - 1);
    }
  }

  lemma {:induction false} BwdSlotsStart<T>(bps: seq<int>, A: seq<T>, B: seq<T>, base: int, q: int)
    requires |A| <= |B| && 0 <= q && BwdFront(bps, A, B, base, q - 1)
    ensures BwdSlots(bps, A, B, base, q, 0)
  {
    forall k ensures BMid(A, B, q, 0, k) == BFinal(A, B, q - 1, k) {
      BMidEnds(A, B, q, k);
    }
  }

  lemma {:induction false} BwdSlotsEnd<T>(bps: seq<int>, A: seq<T>, B: seq<T>, base: int, q: int)
    requires |A| <= |B| && 0 <= q && BwdSlots(bps, A, B, base, q, |A| + |B| + 1)
    ensures BwdFront(bps, A, B, base, q)
  {
    forall k ensures BMid(A, B, q, |A| + |B| + 1, k) == BFinal(A, B, q, k) {
      BMidEnds(A, B, q, k);
    }
  }

  /** The neighbours of the diagonal at position i of backward round q hold its operands. */
  lemma {:induction false} BwdSlotsOperands<T>(bps: seq<int>, A: seq<T>, B: seq<T>, base: int,
                                               q: int, ks: seq<int>, i: int, k: int)
    requires |A| <= |B| && 0 <= q && BackwardOrder(ks, |B| - |A|, |A|, |B|) && 0 <= i < |ks| && k == ks[i]
    requires BwdSlots(bps, A, B, base, q, i)
    ensures bps[|A| + 1 + k - 1] == base + BLeft(A, B, q, k)
    ensures bps[|A| + 1 + k + 1] == base + BRight(A, B, q, k)
  {
    BMidOperands(A, B, q, k);
    assert At(bps, |A| + 1 + k - 1) == base + BMid(A, B, q, i, k - 1);
    assert At(bps, |A| + 1 + k + 1) == base + BMid(A, B, q, i, k + 1);
  }

  /** Writing the final value of the diagonal at position i, and nothing else, moves the
      slots on by one. */
  lemma {:induction false} BwdSlotsStep<T>(before: seq<int>, after: seq<int>, A: seq<T>, B: seq<T>, base: int,
                                           q: int, ks: seq<int>, i: int, k: int)
    requires |A| <= |B| && 0 <= q && BackwardOrder(ks, |B| - |A|, |A|, |B|) && 0 <= i < |ks| && k == ks[i]
    requires BwdSlots(before, A, B, base, q, i) && |after| == |before|
    requires after[|A| + 1 + k] == base + BFinal(A, B, q, k)
    requires forall j :: 0 <= j < |before| && j != |A| + 1 + k ==> after[j] == before[j]
    ensures BwdSlots(after, A, B, base, q, i + 1)
  {
    forall j | 0 <= j < |A| + |B| + 3 ensures At(after, j) == base + BMid(A, B, q, i + 1, j - |A| - 1) {
      assert At(before, j) == base + BMid(A, B, q, i, j - |A| - 1);
      BMidNext(A, B, q, ks, i, j - |A| - 1);
    }
  }

  /** The initial fronts: every forward slot one row above the box except diagonal 0 at the
      origin; backward slots one column past the box left of delta and one row past it from
      delta on (to the end of the array). */
  method InitFronts(fps: array<int>, bps: array<int>, nx: int, ny: int, iy1: int, iy2: int)
    requires fps != bps && 0 <= nx <= ny && iy2 == iy1 + ny
    requires nx + ny + 3 <= fps.Length && nx + ny + 3 <= bps.Length
    modifies fps, bps
    ensures forall j :: 0 <= j < nx + ny + 3 ==> fps[j] == iy1 - 1 + FInit(j - nx - 1)
    ensures forall j :: 0 <= j < bps.Length ==> bps[j] == iy1 - 1 + BInit(nx, ny, j - nx - 1)
  {
    Fill(fps, iy1 - 2, 0, nx + ny + 3);
    fps[nx + 1] := iy1 - 1;
    var i := 0;
    while i < ny + 1
      invariant 0 <= i <= ny + 1
      invariant forall j :: 0 <= j < i ==> bps[j] == iy1 + j - 1
      invariant forall j :: 0 <= j < nx + ny + 3 ==> fps[j] == iy1 - 1 + FInit(j - nx - 1)
    {
      bps[i] := iy1 + i - 1;
      i := i + 1;
    }
    Fill(bps, iy2, ny + 1, bps.Length);
  }

  // ----- the state of a round -----

  /** Forward round p at position i of its visiting order ks: the forward slots part way
      through the round, the backward slots holding the round before, the distance bound
      the round relies on, and every diagonal visited so far apart from the backward front. */
  ghost predicate FwdRound<T>(fps: seq<int>, bps: seq<int>, A: seq<T>, B: seq<T>, base: int,
                              p: int, ks: seq<int>, i: int)
  {
    1 <= |A| <= |B| && 0 <= p <= |A| && FwdBound(|B| - |A|, p, Dist(A, B))
    && ForwardOrder(ks, |B| - |A|, p) && 0 <= i <= |ks|
    && FwdSlots(fps, A, B, base, p, i) && BwdFront(bps, A, B, base, p - 1)
    && (p >= 1 ==> FVisitedApart(A, B, p, ks, i))
  }

  /** Backward round q at position i of its visiting order ks: the forward slots holding
      forward round q, the backward slots part way through the round, the distance bound
      the round relies on, and every diagonal visited so far apart from the forward front. */
  ghost predicate BwdRound<T>(fps: seq<int>, bps: seq<int>, A: seq<T>, B: seq<T>, base: int,
                              q: int, ks: seq<int>, i: int)
  {
    1 <= |A| <= |B| && 0 <= q <= |A| && BwdStart(|B| - |A|, q, Dist(A, B))
    && BackwardOrder(ks, |B| - |A|, |A|, |B|) && 0 <= i <= |ks|
    && FwdFront(fps, A, B, base, q) && BwdSlots(bps, A, B, base, q, i)
    && BVisitedApart(A, B, q, ks, i)
  }

  lemma {:induction false} FwdRoundStart<T>(fps: seq<int>, bps: seq<int>, A: seq<T>, B: seq<T>, base: int,
                                            p: int, ks: seq<int>)
    requires 1 <= |A| <= |B| && 0 <= p <= |A| && FwdBound(|B| - |A|, p, Dist(A, B))
    requires ForwardOrder(ks, |B| - |A|, p)
    requires FwdFront(fps, A, B, base, p - 1) && BwdFront(bps, A, B, base, p - 1)
    ensures FwdRound(fps, bps, A, B, base, p, ks, 0)
  {
    FwdSlotsStart(fps, A, B, base, p);
  }

  /** A forward round that went through its whole visiting order leaves the forward front of
      round p and, from round 1 on, the distance bound backward round p relies on. */
  lemma {:induction false} FwdRoundEnd<T>(fps: seq<int>, bps: seq<int>, A: seq<T>, B: seq<T>, base: int,
                                          p: int, ks: seq<int>)
    requires FwdRound(fps, bps, A, B, base, p, ks, |ks|)
    ensures FwdFront(fps, A, B, base, p)
    ensures p >= 1 ==> BwdStart(|B| - |A|, p, Dist(A, B))
  {
    FwdSlotsEnd(fps, A, B, base, p);
    if p >= 1 {
      ForwardVisitedAll(A, B, p, ks);
      ForwardRoundApart(A, B, p);
    }
  }

  lemma {:induction false} BwdRoundStart<T>(fps: seq<int>, bps: seq<int>, A: seq<T>, B: seq<T>, base: int,
                                            q: int, ks: seq<int>)
    requires 1 <= |A| <= |B| && 0 <= q <= |A| && BwdStart(|B| - |A|, q, Dist(A, B))
    requires BackwardOrder(ks, |B| - |A|, |A|, |B|)
    requires FwdFront(fps, A, B, base, q) && BwdFront(bps, A, B, base, q - 1)
    ensures BwdRound(fps, bps, A, B, base, q, ks, 0)
  {
    BwdSlotsStart(bps, A, B, base, q);
  }

  /** A backward round that went through its whole visiting order leaves the backward front
      of round q and the distance bound forward round q + 1 relies on. */
  lemma {:induction false} BwdRoundEnd<T>(fps: seq<int>, bps: seq<int>, A: seq<T>, B: seq<T>, base: int,
                                          q: int, ks: seq<int>)
    requires BwdRound(fps, bps, A, B, base, q, ks, |ks|)
    ensures BwdFront(bps, A, B, base, q)
    ensures Dist(A, B) >= 4 * q + (|B| - |A|) + 2
  {
    BwdSlotsEnd(bps, A, B, base, q);
    BackwardVisitedAll(A, B, q, ks);
    BackwardRoundApart(A, B, q);
  }

  // ----- one visit -----

  /** What a forward visit at position i of round p finds, on the slot values alone: the
      raw value iy from the neighbouring slots lies in the box, and when it reaches the
      backward slot of the round before, the corner it names is a middle point. */
  lemma {:induction false} ForwardVisitRaw<T>(fps: seq<int>, bps: seq<int>, A: seq<T>, B: seq<T>, ix1: int, iy1: int,
                                              p: int, ks: seq<int>, i: int, k: int, iy: int)
    requires FwdRound(fps, bps, A, B, iy1 - 1, p, ks, i) && i < |ks| && k == ks[i]
    requires iy == Max(fps[|A| + k] + 1, fps[|A| + k + 2])
    ensures -p <= k <= |B| - |A| + p
    ensures 0 <= iy - (iy1 - 1) - k <= |A| && 0 <= iy - (iy1 - 1) <= |B|
    ensures bps[|A| + 1 + k] <= iy ==> p >= 1 && MeetPoint(A, B, XOf(k, iy, ix1, iy1) - ix1 + 1, iy - iy1 + 1)
  {
    var base := iy1 - 1;
    FwdSlotsOperands(fps, A, B, base, p, ks, i, k);
    FRawInBox(A, B, p, k);
    BwdFrontSlot(bps, A, B, base, p - 1, k);
    assert iy == base + FRaw(A, B, p, k);
    if k == |B| - |A| && p >= 1 {
      NeighboursVisited(A, B, p, ks, i);
    }
    if bps[|A| + 1 + k] <= iy {
      ForwardMeetOK(A, B, p, k);
      MeetAbs(A, B, k, iy, ix1, iy1);
    }
  }

  /** The slots after a forward visit without a meet, whose slot for diagonal k now holds
      the end s of the snake from the raw value and whose other slots are as before: the
      round has moved on by one position and stays apart on diagonal k. */
  lemma {:induction false} ForwardVisitSnake<T>(before: seq<int>, after: seq<int>, bps: seq<int>,
                                                A: seq<T>, B: seq<T>, base: int, p: int, ks: seq<int>,
                                                i: int, k: int, iy: int, s: int)
    requires FwdRound(before, bps, A, B, base, p, ks, i) && i < |ks| && k == ks[i]
    requires -p <= k <= |B| - |A| + p && iy == Max(before[|A| + k] + 1, before[|A| + k + 2])
    requires iy < bps[|A| + 1 + k] && s - base == SnakeF(A, B, k, iy - base)
    requires |after| == |before| && after[|A| + 1 + k] == s
    requires forall j :: 0 <= j < |before| && j != |A| + 1 + k ==> after[j] == before[j]
    ensures FwdRound(after, bps, A, B, base, p, ks, i + 1)
  {
    FwdSlotsOperands(before, A, B, base, p, ks, i, k);
    BwdFrontSlot(bps, A, B, base, p - 1, k);
    assert s == base + FFinal(A, B, p, k);
    FwdSlotsStep(before, after, A, B, base, p, ks, i, k);
    if p >= 1 {
      ForwardApart(A, B, p, k);
    }
  }

  /** A middle point found on diagonal k at absolute row iy, in the solver's coordinates. */
  lemma {:induction false} MeetAbs<T>(A: seq<T>, B: seq<T>, k: int, iy: int, ix1: int, iy1: int)
    requires MeetPoint(A, B, iy - (iy1 - 1) - k, iy - (iy1 - 1))
    ensures MeetPoint(A, B, XOf(k, iy, ix1, iy1) - ix1 + 1, iy - iy1 + 1)
  {
    assert XOf(k, iy, ix1, iy1) - ix1 + 1 == iy - (iy1 - 1) - k;
  }

  /** One diagonal k, at position i of forward round p (the body of the loop at lines
      271-291): its raw value from the neighbouring slots, the meet check against the
      backward slot, and otherwise the snake. */
  method ForwardVisit<T(==)>(fps: array<int>, bps: array<int>, xs: seq<T>, ix1: int, ix2: int,
                             ys: seq<T>, iy1: int, iy2: int, p: int, k: int,
                             ghost ks: seq<int>, ghost i: int, ghost A: seq<T>, ghost B: seq<T>)
    returns (met: bool, mx: int, my: int)
    requires Box(xs, ix1, ix2, ys, iy1, iy2, A, B) && fps != bps
    requires FwdRound(fps[..], bps[..], A, B, iy1 - 1, p, ks, i) && i < |ks| && k == ks[i]
    modifies fps
    ensures met ==> p >= 1 && MeetPoint(A, B, mx - ix1 + 1, my - iy1 + 1)
    ensures !met ==> FwdRound(fps[..], bps[..], A, B, iy1 - 1, p, ks, i + 1)
  {
    var offset := ix2 - ix1 + 1;
    ghost var before := fps[..];
    var iy := Max(fps[offset + k - 1] + 1, fps[offset + k + 1]);
    ForwardVisitRaw(before, bps[..], A, B, ix1, iy1, p, ks, i, k, iy);
    fps[offset + k] := iy;
    if bps[offset + k] <= iy {
      met, mx, my := true, XOf(k, iy, ix1, iy1), iy;
      return;
    }
    met, mx, my := false, 0, 0;
    var s := SnakeForward(k, iy, xs, ix1, ix2, ys, iy1, iy2, A, B);
    fps[offset + k] := s;
    ForwardVisitSnake(before, fps[..], bps[..], A, B, iy1 - 1, p, ks, i, k, iy, s);
  }

  /** The visits of forward round p in the order ks (the loop at lines 271-291), until one
      meets the backward front of the round before. */
  method ForwardSweep<T(==)>(fps: array<int>, bps: array<int>, xs: seq<T>, ix1: int, ix2: int,
                             ys: seq<T>, iy1: int, iy2: int, p: int, ks: seq<int>, ghost A: seq<T>, ghost B: seq<T>)
    returns (met: bool, mx: int, my: int)
    requires Box(xs, ix1, ix2, ys, iy1, iy2, A, B) && fps != bps
    requires FwdRound(fps[..], bps[..], A, B, iy1 - 1, p, ks, 0)
    modifies fps
    ensures met ==> p >= 1 && MeetPoint(A, B, mx - ix1 + 1, my - iy1 + 1)
    ensures !met ==> FwdRound(fps[..], bps[..], A, B, iy1 - 1, p, ks, |ks|)
  {
    var i := 0;
    while i < |ks|
      invariant FwdRound(fps[..], bps[..], A, B, iy1 - 1, p, ks, i)
      decreases |ks| - i
    {
      met, mx, my := ForwardVisit(fps, bps, xs, ix1, ix2, ys, iy1, iy2, p, ks[i], ks, i, A, B);
      if met {
        return;
      }
      i := i + 1;
    }
    met, mx, my := false, 0, 0;
  }

  /** Forward round p: visits the diagonals in the order of GetForwardLoop until one meets
      the backward front of the round before.  A meet names a middle point; a round without
      one leaves the forward front of round p and, from round 1 on, raises the lower bound on
      the distance. */
  method ForwardRound<T(==)>(fps: array<int>, bps: array<int>, xs: seq<T>, ix1: int, ix2: int,
                             ys: seq<T>, iy1: int, iy2: int, p: int, ghost A: seq<T>, ghost B: seq<T>)
    returns (met: bool, mx: int, my: int)
    requires Box(xs, ix1, ix2, ys, iy1, iy2, A, B) && fps != bps
    requires 0 <= p <= |A| && FwdBound(|B| - |A|, p, Dist(A, B))
    requires FwdFront(fps[..], A, B, iy1 - 1, p - 1) && BwdFront(bps[..], A, B, iy1 - 1, p - 1)
    modifies fps
    ensures met ==> p >= 1 && MeetPoint(A, B, mx - ix1 + 1, my - iy1 + 1)
    ensures !met ==> FwdFront(fps[..], A, B, iy1 - 1, p)
    ensures !met && p >= 1 ==> BwdStart(|B| - |A|, p, Dist(A, B))
  {
    var ks := GetForwardLoop((iy2 - iy1) - (ix2 - ix1), p);
    FwdRoundStart(fps[..], bps[..], A, B, iy1 - 1, p, ks);
    met, mx, my := ForwardSweep(fps, bps, xs, ix1, ix2, ys, iy1, iy2, p, ks, A, B);
    if !met {
      FwdRoundEnd(fps[..], bps[..], A, B, iy1 - 1, p, ks);
    }
  }

  /** What a backward visit at position i of round q finds, on the slot values alone: the
      raw value iy from the neighbouring slots lies in the rows of the box and not right of
      it, and when it reaches the forward slot of round q, the corner it names is a middle
      point. */
  lemma {:induction false} BackwardVisitRaw<T>(fps: seq<int>, bps: seq<int>, A: seq<T>, B: seq<T>, ix1: int, iy1: int,
                                               q: int, ks: seq<int>, i: int, k: int, iy: int)
    requires BwdRound(fps, bps, A, B, iy1 - 1, q, ks, i) && i < |ks| && k == ks[i]
    requires iy == Max(Min(bps[|A| + k], bps[|A| + k + 2] - 1), iy1 - 1)
    ensures -|A| <= k <= |B|
    ensures 0 <= iy - (iy1 - 1) <= |B| && iy - (iy1 - 1) - k <= |A|
    ensures iy <= fps[|A| + 1 + k] ==> MeetPoint(A, B, XOf(k, iy, ix1, iy1) - ix1 + 1, iy - iy1 + 1)
  {
    var base := iy1 - 1;
    BwdSlotsOperands(bps, A, B, base, q, ks, i, k);
    BRawInRange(A, B, q, k);
    FwdFrontSlot(fps, A, B, base, q, k);
    assert iy == base + BRaw(A, B, q, k);
    if iy <= fps[|A| + 1 + k] {
      BackwardMeetOK(A, B, q, k);
      MeetAbs(A, B, k, iy, ix1, iy1);
    }
  }

  /** The slots after a backward visit without a meet, whose slot for diagonal k now holds
      the end s of the backward snake from the raw value and whose other slots are as
      before: the round has moved on by one position and stays apart on diagonal k. */
  lemma {:induction false} BackwardVisitSnake<T>(fps: seq<int>, before: seq<int>, after: seq<int>,
                                                 A: seq<T>, B: seq<T>, base: int, q: int, ks: seq<int>,
                                                 i: int, k: int, iy: int, s: int)
    requires BwdRound(fps, before, A, B, base, q, ks, i) && i < |ks| && k == ks[i]
    requires -|A| <= k <= |B| && iy == Max(Min(before[|A| + k], before[|A| + k + 2] - 1), base)
    requires fps[|A| + 1 + k] < iy && s - base == SnakeB(A, B, k, iy - base)
    requires |after| == |before| && after[|A| + 1 + k] == s
    requires forall j :: 0 <= j < |before| && j != |A| + 1 + k ==> after[j] == before[j]
    ensures BwdRound(fps, after, A, B, base, q, ks, i + 1)
  {
    BwdSlotsOperands(before, A, B, base, q, ks, i, k);
    FwdFrontSlot(fps, A, B, base, q, k);
    assert s == base + BFinal(A, B, q, k);
    BwdSlotsStep(before, after, A, B, base, q, ks, i, k);
    BackwardApart(A, B, q, k);
  }

  /** One diagonal k, at position i of backward round p (the body of the loop at lines
      313-326): its raw value from the neighbouring slots, the meet check against the
      forward slot, and otherwise the snake backwards. */
  method BackwardVisit<T(==)>(fps: array<int>, bps: array<int>, xs: seq<T>, ix1: int, ix2: int,
                              ys: seq<T>, iy1: int, iy2: int, p: int, k: int,
                              ghost ks: seq<int>, ghost i: int, ghost A: seq<T>, ghost B: seq<T>)
    returns (met: bool, mx: int, my: int)
    requires Box(xs, ix1, ix2, ys, iy1, iy2, A, B) && fps != bps
    requires BwdRound(fps[..], bps[..], A, B, iy1 - 1, p, ks, i) && i < |ks| && k == ks[i]
    modifies bps
    ensures met ==> MeetPoint(A, B, mx - ix1 + 1, my - iy1 + 1)
    ensures !met ==> BwdRound(fps[..], bps[..], A, B, iy1 - 1, p, ks, i + 1)
  {
    var offset := ix2 - ix1 + 1;
    ghost var before := bps[..];
    var iy := Max(Min(bps[offset + k - 1], bps[offset + k + 1] - 1), iy1 - 1);
    BackwardVisitRaw(fps[..], before, A, B, ix1, iy1, p, ks, i, k, iy);
    bps[offset + k] := iy;
    if iy <= fps[offset + k] {
      met, mx, my := true, XOf(k, iy, ix1, iy1), iy;
      return;
    }
    met, mx, my := false, 0, 0;
    var s := SnakeBackward(k, iy, xs, ix1, ys, iy1, ix2, iy2, A, B);
    bps[offset + k] := s;
    BackwardVisitSnake(fps[..], before, bps[..], A, B, iy1 - 1, p, ks, i, k, iy, s);
  }

  /** The visits of backward round p in the order ks (the loop at lines 313-326), until
      one meets the forward front of round p. */
  method BackwardSweep<T(==)>(fps: array<int>, bps: array<int>, xs: seq<T>, ix1: int, ix2: int,
                              ys: seq<T>, iy1: int, iy2: int, p: int, ks: seq<int>, ghost A: seq<T>, ghost B: seq<T>)
    returns (met: bool, mx: int, my: int)
    requires Box(xs, ix1, ix2, ys, iy1, iy2, A, B) && fps != bps
    requires BwdRound(fps[..], bps[..], A, B, iy1 - 1, p, ks, 0)
    modifies bps
    ensures met ==> MeetPoint(A, B, mx - ix1 + 1, my - iy1 + 1)
    ensures !met ==> BwdRound(fps[..], bps[..], A, B, iy1 - 1, p, ks, |ks|)
  {
    var i := 0;
    while i < |ks|
      invariant BwdRound(fps[..], bps[..], A, B, iy1 - 1, p, ks, i)
      decreases |ks| - i
    {
      met, mx, my := BackwardVisit(fps, bps, xs, ix1, ix2, ys, iy1, iy2, p, ks[i], ks, i, A, B);
      if met {
        return;
      }
      i := i + 1;
    }
    met, mx, my := false, 0, 0;
  }

  /** Backward round p: visits every diagonal of the box in the order of GetBackwardLoop
      until one meets the forward front of round p.  A meet names a middle point; a round
      without one leaves the backward front of round p and raises the lower bound on the
      distance to what forward round p + 1 relies on. */
  method BackwardRound<T(==)>(fps: array<int>, bps: array<int>, xs: seq<T>, ix1: int, ix2: int,
                              ys: seq<T>, iy1: int, iy2: int, p: int, ghost A: seq<T>, ghost B: seq<T>)
    returns (met: bool, mx: int, my: int)
    requires Box(xs, ix1, ix2, ys, iy1, iy2, A, B) && fps != bps
    requires 0 <= p <= |A| && BwdStart(|B| - |A|, p, Dist(A, B))
    requires FwdFront(fps[..], A, B, iy1 - 1, p) && BwdFront(bps[..], A, B, iy1 - 1, p - 1)
    modifies bps
    ensures met ==> MeetPoint(A, B, mx - ix1 + 1, my - iy1 + 1)
    ensures !met ==> BwdFront(bps[..], A, B, iy1 - 1, p)
    ensures !met ==> Dist(A, B) >= 4 * p + (|B| - |A|) + 2
  {
    var nx, ny := ix2 - ix1, iy2 - iy1;
    var ks := GetBackwardLoop(ny - nx, nx, ny);
    BwdRoundStart(fps[..], bps[..], A, B, iy1 - 1, p, ks);
    met, mx, my := BackwardSweep(fps, bps, xs, ix1, ix2, ys, iy1, iy2, p, ks, A, B);
    if !met {
      BwdRoundEnd(fps[..], bps[..], A, B, iy1 - 1, p, ks);
    }
  }

  // ----- the shortcut after forward round 0 -----

  /** The initial fronts are the fronts before round 0. */
  lemma {:induction false} InitSlots<T>(fps: seq<int>, bps: seq<int>, A: seq<T>, B: seq<T>, base: int)
    requires |A| <= |B| && |A| + |B| + 3 <= |fps| && |A| + |B| + 3 <= |bps|
    requires forall j :: 0 <= j < |A| + |B| + 3 ==> fps[j] == base + FInit(j - |A| - 1)
    requires forall j :: 0 <= j < |bps| ==> bps[j] == base + BInit(|A|, |B|, j - |A| - 1)
    ensures FwdFront(fps, A, B, base, -1) && BwdFront(bps, A, B, base, -1)
  {
    forall j | 0 <= j < |A| + |B| + 3 ensures At(fps, j) == base + FFinal(A, B, -1, j - |A| - 1) {
    }
    forall j | 0 <= j < |A| + |B| + 3 ensures At(bps, j) == base + BFinal(A, B, -1, j - |A| - 1) {
    }
  }

  /** Writes a KEEP for every matching pair on diagonal k from row y up to row stop (the
      inner loops of the shortcut, lines 297-302 and 306-310), after the script w already
      written from iop1 on. */
  method WriteKeeps<T>(ops: array<Op>, iop1: int, iop: int, iy: int, stop: int, swapped: bool,
                       ghost orig: seq<Op>, ghost w: seq<Op>, ghost A: seq<T>, ghost B: seq<T>,
                       ghost base: int, ghost k: int)
    returns (iop': int, iy': int, ghost w': seq<Op>)
    requires Written(ops[..], orig, iop1, w) && iop == iop1 - 1 + |w|
    requires 0 <= k && 0 <= iy - base - k && iy - base <= stop - base && stop - base - k <= |A| && stop - base <= |B|
    requires Matches(A, B, k, iy - base, stop - base) && iop + (stop - iy) < ops.Length
    requires AlignsOriented(w, A[..iy - base - k], B[..iy - base], swapped)
    modifies ops
    ensures iy' == stop && iop' == iop + (stop - iy) && iop' == iop1 - 1 + |w'|
    ensures Written(ops[..], orig, iop1, w')
    ensures AlignsOriented(w', A[..stop - base - k], B[..stop - base], swapped) && Cost(w') == Cost(w)
  {
    iop', iy', w' := iop, iy, w;
    while iy' + 1 < stop + 1
      invariant iy <= iy' <= stop && iop' == iop + (iy' - iy) && iop' == iop1 - 1 + |w'|
      invariant Written(ops[..], orig, iop1, w')
      invariant AlignsOriented(w', A[..iy' - base - k], B[..iy' - base], swapped) && Cost(w') == Cost(w)
    {
      assert Pair(A, B, k, iy' - base);
      ExtendKeep(w', A, B, iy' - base - k, iy' - base, swapped);
      ghost var before := ops[..];
      WriteNext(before, orig, iop1, w', KEEP_OP);
      iy' := iy' + 1;
      iop' := iop' + 1;
      ops[iop'] := KEEP_OP;
      w' := w' + [KEEP_OP];
    }
  }

  /** One step of the shortcut's stair (lines 295-304): keep along diagonal k of round 0
      up to its furthest row, then insert one element of B to reach the start of diagonal
      k + 1. */
  method WriteStair<T(==)>(ops: array<Op>, iop1: int, iop: int, iy: int, fps: array<int>, offset: int,
                           swapped: bool, ghost orig: seq<Op>, ghost w: seq<Op>, ghost A: seq<T>,
                           ghost B: seq<T>, ghost base: int, k: int)
    returns (iop': int, iy': int, ghost w': seq<Op>)
    requires 1 <= |A| <= |B| && offset == |A| + 1 && 0 <= k < |B| - |A| && FwdFront(fps[..], A, B, base, 0)
    requires iy - base == FRaw(A, B, 0, k) && iop == iop1 - 1 + |w| && |w| == iy - base
    requires 0 <= iy - base - k <= |A| && iy - base <= |B| && iop1 + |B| <= ops.Length
    requires Written(ops[..], orig, iop1, w)
    requires AlignsOriented(w, A[..iy - base - k], B[..iy - base], swapped) && Cost(w) == k
    modifies ops
    ensures iy' - base == FRaw(A, B, 0, k + 1) && iop' == iop1 - 1 + |w'| && |w'| == iy' - base
    ensures 0 <= iy' - base - (k + 1) <= |A| && iy' - base <= |B|
    ensures Written(ops[..], orig, iop1, w')
    ensures AlignsOriented(w', A[..iy' - base - (k + 1)], B[..iy' - base], swapped) && Cost(w') == k + 1
  {
    StairRun(A, B, k);
    StairAbove(A, B, k);
    FwdFrontSlot(fps[..], A, B, base, 0, k);
    iop', iy', w' := WriteKeeps(ops, iop1, iop, iy, fps[offset + k], swapped, orig, w, A, B, base, k);
    ExtendIns(w', A, B, iy' - base - k, iy' - base, swapped);
    ghost var before := ops[..];
    WriteNext(before, orig, iop1, w', InsOp(swapped));
    iy' := iy' + 1;
    iop' := iop' + 1;
    ops[iop'] := InsOp(swapped);
    w' := w' + [InsOp(swapped)];
    StairStart(A, B, k + 1);
    StairRun(A, B, k + 1);
  }

  /** The script of the shortcut (lines 292-311), when forward round 0 reached the last row
      on diagonal delta: along each diagonal k < delta of round 0 keep its matching pairs,
      then insert one element of B to step to diagonal k + 1; on diagonal delta keep the
      rest.  It aligns A with B at cost delta, which is then the distance. */
  method WriteShortcut<T(==)>(ops: array<Op>, iop1: int, fps: array<int>, xs: seq<T>, ix1: int, ix2: int,
                              ys: seq<T>, iy1: int, iy2: int, swapped: bool, ghost A: seq<T>, ghost B: seq<T>)
    returns (n: int, ghost w: seq<Op>)
    requires Box(xs, ix1, ix2, ys, iy1, iy2, A, B)
    requires FwdFront(fps[..], A, B, iy1 - 1, 0) && FFinal(A, B, 0, |B| - |A|) == |B|
    requires 0 <= iop1 && iop1 + |B| <= ops.Length
    modifies ops
    ensures n == |B| == |w| && Written(ops[..], old(ops[..]), iop1, w)
    ensures AlignsOriented(w, A, B, swapped) && Cost(w) == Dist(A, B)
  {
    var offset := ix2 - ix1 + 1;
    var delta := (iy2 - iy1) - (ix2 - ix1);
    ghost var base := iy1 - 1;
    ghost var orig := ops[..];
    w := [];
    WrittenNothing(ops[..], iop1);
    var iop := iop1 - 1;
    var iy := iy1 - 1;
    StairStart(A, B, 0);
    StairRun(A, B, 0);
    for k := 0 to delta
      invariant iy - base == FRaw(A, B, 0, k) && iop == iop1 - 1 + |w| && |w| == iy - base
      invariant 0 <= iy - base - k <= |A| && iy - base <= |B|
      invariant Written(ops[..], orig, iop1, w)
      invariant AlignsOriented(w, A[..iy - base - k], B[..iy - base], swapped) && Cost(w) == k
    {
      iop, iy, w := WriteStair(ops, iop1, iop, iy, fps, offset, swapped, orig, w, A, B, base, k);
    }
    StairRun(A, B, delta);
    iop, iy, w := WriteKeeps(ops, iop1, iop, iy, iy2 - 1, swapped, orig, w, A, B, base, delta);
    assert A[..|A|] == A && B[..|B|] == B;
    ShortcutIff(A, B);
    n := iop - iop1 + 1;
  }

  // ----- the search for a middle point -----

  /** The search of lines 253-327: alternate forward and backward rounds p = 0, 1, ... until
      a forward or a backward visit meets the other front, or forward round 0 shows that the
      shortcut applies.  The search ends with the shortcut script written, or with a corner
      (mx + 1 - ix1, my + 1 - iy1) strictly inside the box that lies on an optimal path, and
      the operation array untouched. */
  method FindMiddle<T(==)>(ops: array<Op>, iop1: int, fps: array<int>, bps: array<int>, xs: seq<T>,
                           ix1: int, ix2: int, ys: seq<T>, iy1: int, iy2: int, swapped: bool,
                           ghost A: seq<T>, ghost B: seq<T>)
    returns (done: bool, n: int, mx: int, my: int, ghost w: seq<Op>)
    requires Box(xs, ix1, ix2, ys, iy1, iy2, A, B) && fps != bps
    requires |A| + |B| + 3 <= fps.Length && |A| + |B| + 3 <= bps.Length
    requires 0 <= iop1 && iop1 + |B| <= ops.Length
    modifies ops, fps, bps
    ensures done ==> n == |B| == |w| && Written(ops[..], old(ops[..]), iop1, w)
    ensures done ==> AlignsOriented(w, A, B, swapped) && Cost(w) == Dist(A, B)
    ensures !done ==> ops[..] == old(ops[..]) && MeetPoint(A, B, mx - ix1 + 1, my - iy1 + 1)
  {
    var nx, ny := ix2 - ix1, iy2 - iy1;
    InitFronts(fps, bps, nx, ny, iy1, iy2);
    InitSlots(fps[..], bps[..], A, B, iy1 - 1);
    var delta, offset := ny - nx, nx + 1;
    var p := 0;
    while true
      invariant 0 <= p <= |A| && FwdBound(|B| - |A|, p, Dist(A, B))
      invariant FwdFront(fps[..], A, B, iy1 - 1, p - 1) && BwdFront(bps[..], A, B, iy1 - 1, p - 1)
      invariant ops[..] == old(ops[..])
      decreases |A| - p
    {
      var met;
      met, mx, my := ForwardRound(fps, bps, xs, ix1, ix2, ys, iy1, iy2, p, A, B);
      if met {
        return false, 0, mx, my, [];
      }
      if p == 0 {
        FwdFrontSlot(fps[..], A, B, iy1 - 1, 0, delta);
        if iy2 - 1 == fps[offset + delta] {
          n, w := WriteShortcut(ops, iop1, fps, xs, ix1, ix2, ys, iy1, iy2, swapped, A, B);
          return true, n, mx, my, w;
        }
        NoShortcut(A, B);
      }
      met, mx, my := BackwardRound(fps, bps, xs, ix1, ix2, ys, iy1, iy2, p, A, B);
      if met {
        return false, 0, mx, my, [];
      }
      RoundBound(A, B, p + 1);
      p := p + 1;
    }
  }
}
