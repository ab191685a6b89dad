/** What the furthest-reaching values of the solver mean.  All positions here are relative: a
    value y on diagonal k names the corner (y - k, y) of the edit graph of A and B (see
    EditGraph).  A forward value with budget c is the furthest corner on its diagonal that the
    origin reaches at cost at most c; a backward value with budget c is the nearest corner that
    reaches the terminus at cost at most c. */
module Wavefront {
  import opened Ops
  import opened Distance
  import opened EditGraph

  function Max(a: int, b: int): int { if a < b then b else a }

  /** Forward budget of diagonal k in round p: 2p + delta - |delta - k|. */
  function CF(delta: int, p: int, k: int): int { 2 * p + delta - Abs(delta - k) }

  /** Backward budget of diagonal k in round q: 2q + |delta - k|. */
  function CB(delta: int, q: int, k: int): int { 2 * q + Abs(delta - k) }

  /** Every pair (A[y - k], B[y]) for lo <= y < hi exists and matches. */
  predicate Matches<T(==)>(A: seq<T>, B: seq<T>, k: int, lo: int, hi: int)
  {
    forall y :: lo <= y < hi ==> Pair(A, B, k, y)
  }

  /** The pair (A[y - k], B[y]) that leaves corner (y - k, y) diagonally exists and matches. */
  predicate Pair<T(==)>(A: seq<T>, B: seq<T>, k: int, y: int)
  {
    0 <= y - k < |A| && 0 <= y < |B| && A[y - k] == B[y]
  }

  // ----- forward values -----

  /** Corner (y - k, y) is in the box and the origin reaches it at cost at most c. */
  predicate FReach<T(==)>(A: seq<T>, B: seq<T>, k: int, c: int, y: int)
  {
    InBox(A, B, y - k, y) && Df(A, B, y - k, y) <= c
  }

  /** No corner of diagonal k beyond y is reached at cost at most c. */
  ghost predicate FComplete<T>(A: seq<T>, B: seq<T>, k: int, c: int, y: int)
  {
    forall y' :: FReach(A, B, k, c, y') ==> y' <= y
  }

  /** No matching pair leaves corner (y - k, y). */
  predicate FEnd<T(==)>(A: seq<T>, B: seq<T>, k: int, y: int)
  {
    y - k == |A| || y == |B| || (0 <= y - k < |A| && 0 <= y < |B| && A[y - k] != B[y])
  }

  /** y is the furthest corner of diagonal k within budget c, or -1 when there is none. */
  ghost predicate FwdOK<T>(A: seq<T>, B: seq<T>, k: int, c: int, y: int)
  {
    FComplete(A, B, k, c, y) && (y == -1 || (FReach(A, B, k, c, y) && FEnd(A, B, k, y)))
  }

  // ----- backward values -----

  /** Corner (y - k, y), possibly left of the box, reaches the terminus at extended cost at most c. */
  predicate BCand<T(==)>(A: seq<T>, B: seq<T>, k: int, c: int, y: int)
  {
    0 <= y <= |B| && y - k <= |A| && Dbx(A, B, y - k, y) <= c
  }

  /** Corner (y - k, y) is in the box and reaches the terminus at cost at most c. */
  predicate BReach<T(==)>(A: seq<T>, B: seq<T>, k: int, c: int, y: int)
  {
    InBox(A, B, y - k, y) && Db(A, B, y - k, y) <= c
  }

  /** No corner of diagonal k before y reaches the terminus at cost at most c. */
  ghost predicate BComplete<T>(A: seq<T>, B: seq<T>, k: int, c: int, y: int)
  {
    forall y' :: BReach(A, B, k, c, y') ==> y <= y'
  }

  /** No matching pair enters corner (y - k, y). */
  predicate BEnd<T(==)>(A: seq<T>, B: seq<T>, k: int, y: int)
  {
    y - k < 1 || y < 1 || (y - k <= |A| && y <= |B| && A[y - k - 1] != B[y - 1])
  }

  ghost predicate BwdOK<T>(A: seq<T>, B: seq<T>, k: int, c: int, y: int)
  {
    BComplete(A, B, k, c, y) && BCand(A, B, k, c, y) && BEnd(A, B, k, y)
  }

  // ----- lemmas -----

  /** A diagonal that no corner within the budget lies on has the value -1. */
  lemma {:induction false} FUnreached<T>(A: seq<T>, B: seq<T>, k: int, c: int)
    requires c < Abs(k)
    ensures FwdOK(A, B, k, c, -1)
  {
    forall y' ensures !FReach(A, B, k, c, y') {
      if InBox(A, B, y' - k, y') {
        DfLower(A, B, y' - k, y');
      }
    }
  }

  lemma {:induction false} BUnreached<T>(A: seq<T>, B: seq<T>, k: int, c: int, y: int)
    requires c < Abs((|B| - |A|) - k) || k < -|A| || k > |B|
    ensures BComplete(A, B, k, c, y)
  {
    forall y' ensures !BReach(A, B, k, c, y') {
      if InBox(A, B, y' - k, y') {
        DbLower(A, B, y' - k, y');
      }
    }
  }

  /** The forward cost is constant along matching pairs. */
  lemma {:induction false} DfAlong<T>(A: seq<T>, B: seq<T>, k: int, lo: int, hi: int)
    requires lo <= hi && InBox(A, B, lo - k, lo) && Matches(A, B, k, lo, hi)
    ensures InBox(A, B, hi - k, hi) && Df(A, B, hi - k, hi) == Df(A, B, lo - k, lo)
    decreases hi - lo
  {
    if lo < hi {
      assert Pair(A, B, k, hi - 1);
      DfAlong(A, B, k, lo, hi - 1);
      DfDiag(A, B, hi - 1 - k, hi - 1);
    }
  }

  /** The backward cost is constant along matching pairs. */
  lemma {:induction false} DbAlong<T>(A: seq<T>, B: seq<T>, k: int, lo: int, hi: int)
    requires lo <= hi && InBox(A, B, lo - k, lo) && Matches(A, B, k, lo, hi)
    ensures InBox(A, B, hi - k, hi) && Db(A, B, hi - k, hi) == Db(A, B, lo - k, lo)
    decreases hi - lo
  {
    if lo < hi {
      assert Pair(A, B, k, hi - 1);
      DbAlong(A, B, k, lo, hi - 1);
      DbDiag(A, B, hi - 1 - k, hi - 1);
    }
  }

  /** Every corner within budget on diagonal k is at most the raw value, or is joined to it
      by matching pairs. */
  lemma {:induction false} FRawComplete<T>(A: seq<T>, B: seq<T>, k: int, c: int, yl: int, yr: int, y': int)
    requires yl >= -1
    requires FComplete(A, B, k - 1, c - 1, yl) && FComplete(A, B, k + 1, c - 1, yr)
    requires FReach(A, B, k, c, y')
    ensures y' <= Max(yl + 1, yr) || Matches(A, B, k, Max(yl + 1, yr), y')
    decreases y'
  {
    var r := Max(yl + 1, yr);
    var x := y' - k;
    if x >= 1 && y' >= 1 && A[x - 1] == B[y' - 1] {
      DfDiag(A, B, x - 1, y' - 1);
      FRawComplete(A, B, k, c, yl, yr, y' - 1);
      assert Pair(A, B, k, y' - 1);
    } else if x != 0 || y' != 0 {
      DfBack(A, B, x, y');
      if x >= 1 && Df(A, B, x - 1, y') + 1 == Df(A, B, x, y') {
        assert FReach(A, B, k + 1, c - 1, y');
      } else {
        assert FReach(A, B, k - 1, c - 1, y' - 1);
      }
    }
  }

  /** The raw forward value of diagonal k: its neighbours' values step onto it. */
  lemma {:induction false} FRawSound<T>(A: seq<T>, B: seq<T>, k: int, c: int, yl: int, yr: int)
    requires FwdOK(A, B, k - 1, c - 1, yl) && FwdOK(A, B, k + 1, c - 1, yr)
    requires yl >= 0 ==> yl < |B|
    requires yr >= 0 ==> yr - k - 1 < |A|
    requires yl == -1 && yr == -1 ==> k == 0 && c >= 0
    ensures FReach(A, B, k, c, Max(yl + 1, yr))
  {
    var r := Max(yl + 1, yr);
    if yl == -1 && yr == -1 {
      DfOrigin(A, B);
    } else if yr >= 0 && r == yr {
      DfStepX(A, B, yr - k - 1, yr);
    } else {
      DfStepY(A, B, yl - k + 1, yl);
    }
  }

  /** The snake from a raw value ends on the furthest corner within budget. */
  lemma {:induction false} FAfterSnake<T>(A: seq<T>, B: seq<T>, k: int, c: int, r: int, s: int)
    requires FReach(A, B, k, c, r)
    requires forall y' :: FReach(A, B, k, c, y') ==> y' <= r || Matches(A, B, k, r, y')
    requires r <= s && Matches(A, B, k, r, s) && FEnd(A, B, k, s)
    ensures FwdOK(A, B, k, c, s)
  {
    DfAlong(A, B, k, r, s);
    assert !Pair(A, B, k, s);
    forall y' | FReach(A, B, k, c, y') ensures y' <= s {
    }
  }

  lemma {:induction false} BRawComplete<T>(A: seq<T>, B: seq<T>, k: int, c: int, bl: int, br: int, y': int)
    requires Max(Min(bl, br - 1), 0) <= |B|
    requires BComplete(A, B, k - 1, c - 1, bl) && BComplete(A, B, k + 1, c - 1, br)
    requires BReach(A, B, k, c, y')
    ensures Max(Min(bl, br - 1), 0) <= y' || Matches(A, B, k, y', Max(Min(bl, br - 1), 0))
    decreases |B| - y'
  {
    var r := Max(Min(bl, br - 1), 0);
    var x := y' - k;
    if x < |A| && y' < |B| && A[x] == B[y'] {
      DbDiag(A, B, x, y');
      BRawComplete(A, B, k, c, bl, br, y' + 1);
      assert Pair(A, B, k, y');
    } else if x != |A| || y' != |B| {
      DbFront(A, B, x, y');
      if x < |A| && Db(A, B, x + 1, y') + 1 == Db(A, B, x, y') {
        assert BReach(A, B, k - 1, c - 1, y');
      } else {
        assert BReach(A, B, k + 1, c - 1, y' + 1);
      }
    }
  }

  /** A value of diagonal k - 1 steps left onto diagonal k. */
  lemma {:induction false} BFromLeft<T>(A: seq<T>, B: seq<T>, k: int, c: int, y: int)
    requires BCand(A, B, k - 1, c - 1, y)
    ensures BCand(A, B, k, c, y)
  {
    DbxStepLeft(A, B, y - k + 1, y);
  }

  /** A value of diagonal k + 1 steps up onto diagonal k, or right when it is on row 0. */
  lemma {:induction false} BFromRight<T>(A: seq<T>, B: seq<T>, k: int, c: int, y: int)
    requires BCand(A, B, k + 1, c - 1, y) && -|A| <= k
    ensures y >= 1 ==> BCand(A, B, k, c, y - 1)
    ensures y == 0 ==> BCand(A, B, k, c, 0)
  {
    if y >= 1 {
      DbxStepUp(A, B, y - k - 1, y);
    } else {
      DbxStepRight(A, B, -k - 1, 0);
    }
  }

  /** The snake from a raw backward value ends on the nearest corner within budget. */
  lemma {:induction false} BAfterSnake<T>(A: seq<T>, B: seq<T>, k: int, c: int, r: int, s: int)
    requires BCand(A, B, k, c, r)
    requires forall y' :: BReach(A, B, k, c, y') ==> r <= y' || Matches(A, B, k, y', r)
    requires 0 <= s <= r && Matches(A, B, k, s, r) && BEnd(A, B, k, s)
    ensures BwdOK(A, B, k, c, s)
  {
    if s < r {
      assert Pair(A, B, k, s);
      DbAlong(A, B, k, s, r);
    }
    if s >= 1 {
      assert !Pair(A, B, k, s - 1);
    }
    forall y' | BReach(A, B, k, c, y') ensures s <= y' {
    }
  }

  // ----- meeting and its absence -----

  /** If both frontiers are complete and still apart on every diagonal, the distance exceeds
      the sum of their budgets. */
  lemma {:induction false} NoMeet<T>(A: seq<T>, B: seq<T>, p: nat, q: nat, F: int -> int, Bk: int -> int)
    requires |A| <= |B|
    requires forall k :: -|A| <= k <= |B| ==>
               FComplete(A, B, k, CF(|B| - |A|, p, k), F(k))
               && BComplete(A, B, k, CB(|B| - |A|, q, k), Bk(k)) && F(k) < Bk(k)
    ensures Dist(A, B) >= 2 * p + 2 * q + (|B| - |A|) + 2
  {
    if Dist(A, B) <= 2 * p + 2 * q + (|B| - |A|) {
      var x, y := BothReach(A, B, p, q);
      var k := y - x;
      Apart(A, B, k, CF(|B| - |A|, p, k), CB(|B| - |A|, q, k), F(k), Bk(k), y);
      assert false;
    }
    ParityStep(A, B, p + q);
  }

  /** Where both frontiers reach a corner, the backward one is at or before the forward one. */
  lemma {:induction false} Apart<T>(A: seq<T>, B: seq<T>, k: int, cf: int, cb: int, f: int, b: int, y: int)
    requires FComplete(A, B, k, cf, f) && BComplete(A, B, k, cb, b)
    requires FReach(A, B, k, cf, y) && BReach(A, B, k, cb, y)
    ensures b <= f
  {
  }

  /** A distance above delta + 2h is at least delta + 2h + 2. */
  lemma {:induction false} ParityStep<T>(A: seq<T>, B: seq<T>, h: int)
    requires |A| <= |B| && Dist(A, B) > |B| - |A| + 2 * h
    ensures Dist(A, B) >= |B| - |A| + 2 * h + 2
  {
    var i := DeltaParity(A, B);
  }

  /** The distance exceeds delta by an even amount. */
  lemma {:induction false} DeltaParity<T>(A: seq<T>, B: seq<T>) returns (i: int)
    requires |A| <= |B|
    ensures Dist(A, B) == |B| - |A| + 2 * i
  {
    DistParity(A, B);
    var j: nat :| |A| + |B| == Dist(A, B) + 2 * j;
    i := |A| - j;
  }

  /** When the distance is at most the sum of the budgets, some corner is within both. */
  lemma {:induction false} BothReach<T>(A: seq<T>, B: seq<T>, p: nat, q: nat) returns (x: int, y: int)
    requires |A| <= |B| && Dist(A, B) <= 2 * p + 2 * q + (|B| - |A|)
    ensures -|A| <= y - x <= |B|
    ensures FReach(A, B, y - x, CF(|B| - |A|, p, y - x), y)
    ensures BReach(A, B, y - x, CB(|B| - |A|, q, y - x), y)
  {
    Crossing(A, B, q, p);
    x, y :| OnOpt(A, B, x, y)
            && Dist(A, B) - 2 * q <= Potential(A, B, x, y) <= |B| - |A| + 2 * p;
  }

  lemma {:induction false} DbOrigin<T>(A: seq<T>, B: seq<T>)
    ensures Db(A, B, 0, 0) == Dist(A, B)
  {
    DbIsDist(A, B, 0, 0);
    assert A[0..] == A && B[0..] == B;
  }

  lemma {:induction false} DfTerminus<T>(A: seq<T>, B: seq<T>)
    ensures Df(A, B, |A|, |B|) == Dist(A, B)
  {
    DfIsDist(A, B, |A|, |B|);
    assert A[..|A|] == A && B[..|B|] == B;
  }

  /** A forward meet in round p: the raw forward value has reached a backward value of round
      p - 1.  The corner it names splits a cheapest path, and is not the origin. */
  lemma {:induction false} ForwardMeet<T>(A: seq<T>, B: seq<T>, p: int, k: int, r: int, b: int)
    requires |A| <= |B| && p >= 1 && Dist(A, B) >= 4 * p + (|B| - |A|) - 2
    requires FReach(A, B, k, CF(|B| - |A|, p, k), r)
    requires BCand(A, B, k, CB(|B| - |A|, p - 1, k), b) && b <= r
    ensures OnOpt(A, B, r - k, r) && (r - k, r) != (0, 0)
  {
    DbxDiagTo(A, B, k, b, r);
    assert Db(A, B, r - k, r) <= CB(|B| - |A|, p - 1, k);
    assert CF(|B| - |A|, p, k) + CB(|B| - |A|, p - 1, k) == 4 * p + (|B| - |A|) - 2;
    Compose(A, B, r - k, r);
    DbOrigin(A, B);
  }

  /** A backward meet in round p: the raw backward value has reached the forward value of
      round p.  The corner it names lies in the box, splits a cheapest path, and is neither
      the origin nor the terminus. */
  lemma {:induction false} BackwardMeet<T>(A: seq<T>, B: seq<T>, p: int, k: int, r: int, f: int)
    requires |A| <= |B| && p >= 0
    requires Dist(A, B) >= 4 * p + (|B| - |A|) + (if p == 0 then 2 else 0)
    requires BCand(A, B, k, CB(|B| - |A|, p, k), r)
    requires FReach(A, B, k, CF(|B| - |A|, p, k), f) && r <= f
    ensures 0 <= r - k && OnOpt(A, B, r - k, r)
    ensures (r - k, r) != (0, 0) && (r - k, r) != (|A|, |B|)
  {
    BackwardNotLeft(A, B, p, k, r, f);
    DfDiagTo(A, B, k, r, f);
    assert Df(A, B, r - k, r) <= CF(|B| - |A|, p, k) && Db(A, B, r - k, r) <= CB(|B| - |A|, p, k);
    assert CF(|B| - |A|, p, k) + CB(|B| - |A|, p, k) == 4 * p + (|B| - |A|);
    Compose(A, B, r - k, r);
    DbOrigin(A, B);
    DfTerminus(A, B);
  }

  /** The corner of a backward meet is not left of the box. */
  lemma {:induction false} BackwardNotLeft<T>(A: seq<T>, B: seq<T>, p: int, k: int, r: int, f: int)
    requires |A| <= |B| && p >= 0
    requires Dist(A, B) >= 4 * p + (|B| - |A|) + (if p == 0 then 2 else 0)
    requires BCand(A, B, k, CB(|B| - |A|, p, k), r)
    requires FReach(A, B, k, CF(|B| - |A|, p, k), f) && r <= f
    ensures 0 <= r - k
  {
    Compose(A, B, 0, r);
    DfLeftEdge(A, B, r);
    DfLower(A, B, f - k, f);
    NotLeftOfBox(Dist(A, B), |B| - |A|, p, k, r, Db(A, B, 0, r), Dbx(A, B, r - k, r));
  }

  /** The arithmetic that keeps a backward meet inside the box: a corner left of the box
      within the backward budget would give a path cheaper than the distance. */
  lemma {:induction false} NotLeftOfBox(D: int, delta: int, p: int, k: int, r: int, db0: int, dbx: int)
    requires delta >= 0 && p >= 0 && r >= 0
    requires D >= 4 * p + delta + (if p == 0 then 2 else 0)
    requires D <= r + db0
    requires r - k < 0 ==> dbx == db0 - (r - k)
    requires dbx <= CB(delta, p, k) && Abs(k) <= CF(delta, p, k)
    ensures 0 <= r - k
  {
  }

  /** After forward round 0, diagonal delta has reached the terminus exactly when the distance
      is delta. */
  lemma {:induction false} ShortcutExact<T>(A: seq<T>, B: seq<T>, f: int)
    requires |A| <= |B| && FwdOK(A, B, |B| - |A|, |B| - |A|, f)
    ensures f == |B| <==> Dist(A, B) == |B| - |A|
  {
    DfTerminus(A, B);
    DistBounds(A, B);
    ghost var reach := FReach(A, B, |B| - |A|, |B| - |A|, |B|);
  }

  /** A snake that starts before a backward value with no matching pair entering it stops
      before it too. */
  lemma {:induction false} SnakeStops<T>(A: seq<T>, B: seq<T>, k: int, r: int, v: int, b: int)
    requires 0 <= r - k && r < b && Matches(A, B, k, r, v) && BEnd(A, B, k, b)
    ensures v < b
  {
    assert b - 1 < r || !Pair(A, B, k, b - 1);
  }

  /** A backward snake that starts after a forward value with no matching pair leaving it
      stops after it too. */
  lemma {:induction false} BackSnakeStops<T>(A: seq<T>, B: seq<T>, k: int, s: int, r: int, f: int)
    requires f < r && Matches(A, B, k, s, r) && (f == -1 || (InBox(A, B, f - k, f) && FEnd(A, B, k, f)))
    requires 0 <= s
    ensures f < s
  {
    assert f < 0 || !Pair(A, B, k, f);
  }
}
