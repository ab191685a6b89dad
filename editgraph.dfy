/** The edit graph of a pair of sequences A (the x axis) and B (the y axis).
    A corner (x, y) stands for "the first x elements of A and the first y elements of B
    are consumed"; the origin is (0, 0) and the terminus (|A|, |B|).  Corner (x, y) lies on
    diagonal k = y - x. */
module EditGraph {
  import opened Ops
  import opened Distance

  predicate InBox<T>(A: seq<T>, B: seq<T>, x: int, y: int)
  {
    0 <= x <= |A| && 0 <= y <= |B|
  }

  /** Cost of the cheapest path from the origin to (x, y): the distance between the first
      x elements of A and the first y elements of B (DfIsDist), by the recurrence on the
      step that enters (x, y). */
  function Df<T(==)>(A: seq<T>, B: seq<T>, x: int, y: int): nat
    requires InBox(A, B, x, y)
    decreases x + y
  {
    if x == 0 then y
    else if y == 0 then x
    else if A[x - 1] == B[y - 1] then Df(A, B, x - 1, y - 1)
    else 1 + Min(Df(A, B, x - 1, y), Df(A, B, x, y - 1))
  }

  /** Cost of the cheapest path from (x, y) to the terminus: the distance between the rest
      of A and the rest of B (DbIsDist), by the recurrence on the step that leaves (x, y). */
  function Db<T(==)>(A: seq<T>, B: seq<T>, x: int, y: int): nat
    requires InBox(A, B, x, y)
    decreases |A| - x + |B| - y
  {
    if x == |A| then |B| - y
    else if y == |B| then |A| - x
    else if A[x] == B[y] then Db(A, B, x + 1, y + 1)
    else 1 + Min(Db(A, B, x + 1, y), Db(A, B, x, y + 1))
  }

  lemma {:induction false} DfIsDist<T>(A: seq<T>, B: seq<T>, x: int, y: int)
    requires InBox(A, B, x, y)
    ensures Df(A, B, x, y) == Dist(A[..x], B[..y])
    decreases x + y
  {
    if x > 0 && y > 0 {
      var a, b := A[..x], B[..y];
      assert a[..x - 1] == A[..x - 1];
      assert b[..y - 1] == B[..y - 1];
      DfIsDist(A, B, x - 1, y - 1);
      DfIsDist(A, B, x - 1, y);
      DfIsDist(A, B, x, y - 1);
    }
  }

  lemma {:induction false} DbIsDist<T>(A: seq<T>, B: seq<T>, x: int, y: int)
    requires InBox(A, B, x, y)
    ensures Db(A, B, x, y) == Dist(A[x..], B[y..])
    decreases |A| - x + |B| - y
  {
    if x < |A| && y < |B| {
      assert A[x..][1..] == A[x + 1..] && B[y..][1..] == B[y + 1..];
      DistFront(A[x..], B[y..]);
      DbIsDist(A, B, x + 1, y + 1);
      DbIsDist(A, B, x + 1, y);
      DbIsDist(A, B, x, y + 1);
    }
  }

  /** Db extended to corners left of the box: each missing column costs one. */
  function Dbx<T(==)>(A: seq<T>, B: seq<T>, x: int, y: int): int
    requires x <= |A| && 0 <= y <= |B|
  {
    if x >= 0 then Db(A, B, x, y) else Db(A, B, 0, y) - x
  }

  /** (x, y) lies on some cheapest path from the origin to the terminus. */
  predicate OnOpt<T(==)>(A: seq<T>, B: seq<T>, x: int, y: int)
  {
    InBox(A, B, x, y) && Df(A, B, x, y) + Db(A, B, x, y) == Dist(A, B)
  }

  function Abs(a: int): nat { if a < 0 then -a else a }

  // ----- forward distance -----

  lemma {:induction false} DfStepX<T>(A: seq<T>, B: seq<T>, x: int, y: int)
    requires InBox(A, B, x, y) && x < |A|
    ensures Df(A, B, x + 1, y) <= Df(A, B, x, y) + 1
  {
    DfIsDist(A, B, x, y);
    DfIsDist(A, B, x + 1, y);
    assert A[..x + 1][..x] == A[..x];
    GrowA(A[..x + 1], B[..y]);
  }

  lemma {:induction false} DfStepY<T>(A: seq<T>, B: seq<T>, x: int, y: int)
    requires InBox(A, B, x, y) && y < |B|
    ensures Df(A, B, x, y + 1) <= Df(A, B, x, y) + 1
  {
    DfIsDist(A, B, x, y);
    DfIsDist(A, B, x, y + 1);
    assert B[..y + 1][..y] == B[..y];
    GrowB(A[..x], B[..y + 1]);
  }

  /** Along a diagonal the forward cost never falls, and a matching pair keeps it. */
  lemma {:induction false} DfDiag<T>(A: seq<T>, B: seq<T>, x: int, y: int)
    requires InBox(A, B, x, y) && x < |A| && y < |B|
    ensures Df(A, B, x, y) <= Df(A, B, x + 1, y + 1)
    ensures A[x] == B[y] ==> Df(A, B, x + 1, y + 1) == Df(A, B, x, y)
  {
    DfIsDist(A, B, x, y);
    DfIsDist(A, B, x + 1, y + 1);
    assert A[..x + 1][..x] == A[..x] && B[..y + 1][..y] == B[..y];
    Diagonal(A[..x + 1], B[..y + 1]);
  }

  /** Along diagonal k the forward cost never falls. */
  lemma {:induction false} DfDiagTo<T>(A: seq<T>, B: seq<T>, k: int, lo: int, hi: int)
    requires lo <= hi && InBox(A, B, lo - k, lo) && InBox(A, B, hi - k, hi)
    ensures Df(A, B, lo - k, lo) <= Df(A, B, hi - k, hi)
    decreases hi - lo
  {
    if lo < hi {
      DfDiagTo(A, B, k, lo, hi - 1);
      DfDiag(A, B, hi - 1 - k, hi - 1);
    }
  }

  /** The recurrence at a corner that is not entered by a matching pair. */
  lemma {:induction false} DfBack<T>(A: seq<T>, B: seq<T>, x: int, y: int)
    requires InBox(A, B, x, y) && (x, y) != (0, 0)
    requires x >= 1 && y >= 1 ==> A[x - 1] != B[y - 1]
    ensures (x >= 1 && Df(A, B, x - 1, y) + 1 == Df(A, B, x, y))
         || (y >= 1 && Df(A, B, x, y - 1) + 1 == Df(A, B, x, y))
  {
  }

  lemma {:induction false} DfLower<T>(A: seq<T>, B: seq<T>, x: int, y: int)
    requires InBox(A, B, x, y)
    ensures Df(A, B, x, y) >= Abs(y - x)
  {
    DfIsDist(A, B, x, y);
    DistBounds(A[..x], B[..y]);
  }

  lemma {:induction false} DfOrigin<T>(A: seq<T>, B: seq<T>)
    ensures Df(A, B, 0, 0) == 0
  {
  }

  lemma {:induction false} DfLeftEdge<T>(A: seq<T>, B: seq<T>, y: int)
    requires 0 <= y <= |B|
    ensures Df(A, B, 0, y) == y
  {
  }

  // ----- backward distance -----

  lemma {:induction false} DbStepX<T>(A: seq<T>, B: seq<T>, x: int, y: int)
    requires InBox(A, B, x, y) && x < |A|
    ensures Db(A, B, x, y) <= Db(A, B, x + 1, y) + 1
    ensures Db(A, B, x + 1, y) <= Db(A, B, x, y) + 1
  {
    DbIsDist(A, B, x, y);
    DbIsDist(A, B, x + 1, y);
    var a, b := A[x..], B[y..];
    DistRev(a, b);
    DistRev(a[1..], b);
    RevFront(a);
    assert a[1..] == A[x + 1..];
    GrowA(Rev(a), Rev(b));
    ShrinkA(Rev(a), Rev(b));
  }

  lemma {:induction false} DbStepY<T>(A: seq<T>, B: seq<T>, x: int, y: int)
    requires InBox(A, B, x, y) && y < |B|
    ensures Db(A, B, x, y) <= Db(A, B, x, y + 1) + 1
    ensures Db(A, B, x, y + 1) <= Db(A, B, x, y) + 1
  {
    DbIsDist(A, B, x, y);
    DbIsDist(A, B, x, y + 1);
    var a, b := A[x..], B[y..];
    DistRev(a, b);
    DistRev(a, b[1..]);
    RevFront(b);
    assert b[1..] == B[y + 1..];
    GrowB(Rev(a), Rev(b));
    ShrinkB(Rev(a), Rev(b));
  }

  lemma {:induction false} DbDiag<T>(A: seq<T>, B: seq<T>, x: int, y: int)
    requires InBox(A, B, x, y) && x < |A| && y < |B|
    ensures Db(A, B, x + 1, y + 1) <= Db(A, B, x, y)
    ensures A[x] == B[y] ==> Db(A, B, x + 1, y + 1) == Db(A, B, x, y)
  {
    if A[x] != B[y] {
      DbStepX(A, B, x, y + 1);
      DbStepY(A, B, x + 1, y);
    }
  }

  /** The recurrence at a corner that is not left by a matching pair. */
  lemma {:induction false} DbFront<T>(A: seq<T>, B: seq<T>, x: int, y: int)
    requires InBox(A, B, x, y) && (x, y) != (|A|, |B|)
    requires x < |A| && y < |B| ==> A[x] != B[y]
    ensures (x < |A| && Db(A, B, x + 1, y) + 1 == Db(A, B, x, y))
         || (y < |B| && Db(A, B, x, y + 1) + 1 == Db(A, B, x, y))
  {
  }

  lemma {:induction false} DbLower<T>(A: seq<T>, B: seq<T>, x: int, y: int)
    requires InBox(A, B, x, y)
    ensures Db(A, B, x, y) >= Abs((|B| - y) - (|A| - x))
  {
    DbIsDist(A, B, x, y);
    DistBounds(A[x..], B[y..]);
  }

  lemma {:induction false} DbUpper<T>(A: seq<T>, B: seq<T>, x: int, y: int)
    requires InBox(A, B, x, y)
    ensures Db(A, B, x, y) <= (|A| - x) + (|B| - y)
  {
    DbIsDist(A, B, x, y);
    DistBounds(A[x..], B[y..]);
  }

  lemma {:induction false} DbRightEdge<T>(A: seq<T>, B: seq<T>, y: int)
    requires 0 <= y <= |B|
    ensures Db(A, B, |A|, y) == |B| - y
  {
  }

  lemma {:induction false} DbBottomEdge<T>(A: seq<T>, B: seq<T>, x: int)
    requires 0 <= x <= |A|
    ensures Db(A, B, x, |B|) == |A| - x
  {
  }

  lemma {:induction false} DbTerminus<T>(A: seq<T>, B: seq<T>)
    ensures Db(A, B, |A|, |B|) == 0
  {
  }

  // ----- the extended backward distance -----

  lemma {:induction false} DbxStepLeft<T>(A: seq<T>, B: seq<T>, x: int, y: int)
    requires x <= |A| && 0 <= y <= |B|
    ensures Dbx(A, B, x - 1, y) <= Dbx(A, B, x, y) + 1
  {
    if x >= 1 { DbStepX(A, B, x - 1, y); }
  }

  lemma {:induction false} DbxStepRight<T>(A: seq<T>, B: seq<T>, x: int, y: int)
    requires x < |A| && 0 <= y <= |B|
    ensures Dbx(A, B, x + 1, y) <= Dbx(A, B, x, y) + 1
  {
    if x >= 0 { DbStepX(A, B, x, y); }
  }

  lemma {:induction false} DbxStepUp<T>(A: seq<T>, B: seq<T>, x: int, y: int)
    requires x <= |A| && 1 <= y <= |B|
    ensures Dbx(A, B, x, y - 1) <= Dbx(A, B, x, y) + 1
  {
    if x >= 0 { DbStepY(A, B, x, y - 1); } else { DbStepY(A, B, 0, y - 1); }
  }

  lemma {:induction false} DbxDiag<T>(A: seq<T>, B: seq<T>, x: int, y: int)
    requires x < |A| && 0 <= y < |B|
    ensures Dbx(A, B, x + 1, y + 1) <= Dbx(A, B, x, y)
  {
    if x >= 0 { DbDiag(A, B, x, y); } else { DbStepY(A, B, 0, y); }
  }

  /** Along diagonal k the extended backward cost never rises. */
  lemma {:induction false} DbxDiagTo<T>(A: seq<T>, B: seq<T>, k: int, lo: int, hi: int)
    requires 0 <= lo <= hi <= |B| && hi - k <= |A|
    ensures Dbx(A, B, hi - k, hi) <= Dbx(A, B, lo - k, lo)
    decreases hi - lo
  {
    if lo < hi {
      DbxDiagTo(A, B, k, lo, hi - 1);
      DbxDiag(A, B, hi - 1 - k, hi - 1);
    }
  }

  // ----- paths -----

  /** Every corner splits the problem into two whose costs add up to at least the whole. */
  lemma {:induction false} Compose<T>(A: seq<T>, B: seq<T>, x: int, y: int)
    requires InBox(A, B, x, y)
    ensures Dist(A, B) <= Df(A, B, x, y) + Db(A, B, x, y)
  {
    DfIsDist(A, B, x, y);
    DbIsDist(A, B, x, y);
    assert A[..x] + A[x..] == A && B[..y] + B[y..] == B;
    Split(A[..x], A[x..], B[..y], B[y..]);
  }

  /** The potential Df + |delta - k| of a corner, where delta = |B| - |A|.  Along a cheapest
      path it starts at delta, ends at the total cost and grows in steps of 0 or 2. */
  function Potential<T(==)>(A: seq<T>, B: seq<T>, x: int, y: int): int
    requires InBox(A, B, x, y)
  {
    Df(A, B, x, y) + Abs((|B| - |A|) - (y - x))
  }

  /** A matching pair leaves a corner on a cheapest path along the path, at the same
      potential. */
  lemma {:induction false} OptStepDiag<T>(A: seq<T>, B: seq<T>, x: int, y: int)
    requires OnOpt(A, B, x, y) && x < |A| && y < |B| && A[x] == B[y]
    ensures OnOpt(A, B, x + 1, y + 1) && Potential(A, B, x + 1, y + 1) == Potential(A, B, x, y)
  {
    DbDiag(A, B, x, y);
    DfDiag(A, B, x, y);
    Compose(A, B, x + 1, y + 1);
  }

  /** A step right that keeps the backward cost optimal stays on the path. */
  lemma {:induction false} OptStepX<T>(A: seq<T>, B: seq<T>, x: int, y: int)
    requires OnOpt(A, B, x, y) && x < |A| && Db(A, B, x + 1, y) + 1 == Db(A, B, x, y)
    ensures OnOpt(A, B, x + 1, y)
    ensures Potential(A, B, x + 1, y) == Potential(A, B, x, y)
            || Potential(A, B, x + 1, y) == Potential(A, B, x, y) + 2
  {
    DfStepX(A, B, x, y);
    Compose(A, B, x + 1, y);
  }

  /** A step down that keeps the backward cost optimal stays on the path. */
  lemma {:induction false} OptStepY<T>(A: seq<T>, B: seq<T>, x: int, y: int)
    requires OnOpt(A, B, x, y) && y < |B| && Db(A, B, x, y + 1) + 1 == Db(A, B, x, y)
    ensures OnOpt(A, B, x, y + 1)
    ensures Potential(A, B, x, y + 1) == Potential(A, B, x, y)
            || Potential(A, B, x, y + 1) == Potential(A, B, x, y) + 2
  {
    DfStepY(A, B, x, y);
    Compose(A, B, x, y + 1);
  }

  /** A corner on a cheapest path other than the terminus has a successor on that path,
      one step right, down or diagonally, whose potential is the same or 2 higher. */
  lemma {:induction false} OptStep<T>(A: seq<T>, B: seq<T>, x: int, y: int) returns (x': int, y': int)
    requires OnOpt(A, B, x, y) && (x, y) != (|A|, |B|)
    ensures OnOpt(A, B, x', y') && x <= x' <= x + 1 && y <= y' <= y + 1 && x + y < x' + y'
    ensures Potential(A, B, x', y') == Potential(A, B, x, y)
            || Potential(A, B, x', y') == Potential(A, B, x, y) + 2
  {
    if x < |A| && y < |B| && A[x] == B[y] {
      OptStepDiag(A, B, x, y);
      x', y' := x + 1, y + 1;
    } else {
      DbFront(A, B, x, y);
      if x < |A| && Db(A, B, x + 1, y) + 1 == Db(A, B, x, y) {
        OptStepX(A, B, x, y);
        x', y' := x + 1, y;
      } else {
        OptStepY(A, B, x, y);
        x', y' := x, y + 1;
      }
    }
  }

  /** Walking a cheapest path from (x, y) reaches a corner of potential exactly `lo`. */
  lemma {:induction false} Walk<T>(A: seq<T>, B: seq<T>, x: int, y: int, lo: int, j: nat)
    requires OnOpt(A, B, x, y)
    requires Potential(A, B, x, y) + 2 * j == lo && lo <= Dist(A, B)
    ensures exists x', y' :: OnOpt(A, B, x', y') && Potential(A, B, x', y') == lo
    decreases |A| - x + |B| - y
  {
    if j == 0 {
      return;
    }
    if x == |A| && y == |B| {
      assert false;
    }
    var x', y' := OptStep(A, B, x, y);
    var j' := if Potential(A, B, x', y') == Potential(A, B, x, y) then j else j - 1;
    Walk(A, B, x', y', lo, j');
  }

  /** A cheapest path crosses every potential level between delta and the total cost that has
      the parity of the total cost: here the levels lo = Dist - 2i and hi = delta + 2j. */
  lemma {:induction false} Crossing<T>(A: seq<T>, B: seq<T>, i: nat, j: nat)
    requires |A| <= |B| && Dist(A, B) - 2 * i <= |B| - |A| + 2 * j
    ensures exists x, y :: OnOpt(A, B, x, y)
              && Dist(A, B) - 2 * i <= Potential(A, B, x, y) <= |B| - |A| + 2 * j
  {
    var delta, lo := |B| - |A|, Dist(A, B) - 2 * i;
    assert Db(A, B, 0, 0) == Dist(A, B) by {
      DbIsDist(A, B, 0, 0);
      assert A[0..] == A && B[0..] == B;
    }
    assert OnOpt(A, B, 0, 0);
    assert Potential(A, B, 0, 0) == delta;
    if lo > delta {
      DistParity(A, B);
      var jj: nat :| |A| + |B| == Dist(A, B) + 2 * jj;
      assert lo == delta + 2 * (|A| - jj - i);
      Walk(A, B, 0, 0, lo, |A| - jj - i);
    }
  }
}
