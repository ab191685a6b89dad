/** The divide-and-conquer driver `_diffWu` (src/_index.ts): small boxes are solved
    directly, larger ones are split at a middle point found by `Solver.FindMiddle` and the two
    halves solved in turn, each writing its script right after the previous one. */
module Diff {
  import opened Ops
  import opened Distance
  import opened Script
  import opened Rounds
  import opened Solver

  // ----- base cases -----

  /** Writes an insert for every element of B from index i on (the loops of lines 214-216
      and 235-237), after the script w already written from iop1 on. */
  method WriteInsertRun<T>(ops: array<Op>, iop1: int, i: int, ny: int, swapped: bool, ghost orig: seq<Op>,
                           ghost w: seq<Op>, ghost A: seq<T>, ghost B: seq<T>, ghost x: int)
    returns (ghost w': seq<Op>)
    requires ny == |B| && Written(ops[..], orig, iop1, w) && |w| == i && 0 <= x <= |A| && 0 <= i <= |B|
    requires iop1 + |B| <= ops.Length
    requires AlignsOriented(w, A[..x], B[..i], swapped)
    modifies ops
    ensures Written(ops[..], orig, iop1, w') && |w'| == |B|
    ensures w' == w + Repeat(InsOp(swapped), |B| - i)
    ensures AlignsOriented(w', A[..x], B, swapped) && Cost(w') == Cost(w) + (|B| - i)
  {
    w' := w;
    var j := i;
    while j < ny
      invariant i <= j <= |B| && |w'| == j
      invariant forall k :: 0 <= k < j ==> w'[k] == if k < i then w[k] else InsOp(swapped)
      invariant Written(ops[..], orig, iop1, w')
      invariant AlignsOriented(w', A[..x], B[..j], swapped) && Cost(w') == Cost(w) + (j - i)
    {
      ExtendIns(w', A, B, x, j, swapped);
      assert A[..x][..x] == A[..x];
      WriteNext(ops[..], orig, iop1, w', InsOp(swapped));
      ops[iop1 + j] := InsOp(swapped);
      w' := w' + [InsOp(swapped)];
      j := j + 1;
    }
    RunIsRepeat(w', w, InsOp(swapped));
    assert B[..|B|] == B;
  }

  /** Box 0 by m (lines 213-218): m inserts. */
  method DiffEmpty<T>(ops: array<Op>, iop1: int, ny: int, swapped: bool, ghost A: seq<T>, ghost B: seq<T>)
    returns (n: int, ghost w: seq<Op>)
    requires |A| == 0 && ny == |B| && 0 <= iop1 && iop1 + |B| <= ops.Length
    modifies ops
    ensures n == |B| && n == |w| && Written(ops[..], old(ops[..]), iop1, w)
    ensures w == Repeat(InsOp(swapped), |B|)
    ensures AlignsOriented(w, A, B, swapped)
    ensures Cost(w) == Dist(A, B)
  {
    ghost var orig := ops[..];
    WrittenNothing(ops[..], iop1);
    assert A[..0] == A && B[..0] == [];
    w := WriteInsertRun(ops, iop1, 0, ny, swapped, orig, [], A, B, 0);
    n := ny;
  }

  /** A 1 by 1 box of equal elements: one KEEP, at no cost. */
  lemma {:induction false} OneOneKeep<T>(A: seq<T>, B: seq<T>, swapped: bool)
    requires |A| == 1 && |B| == 1 && A[0] == B[0]
    ensures AlignsOriented([KEEP_OP], A, B, swapped) && Cost([KEEP_OP]) == Dist(A, B) == 0
  {
    assert A[..0] == [] && B[..0] == [];
    assert [KEEP_OP][..0] == [];
    assert Aligns([], A[..0], B[..0]);
    assert A[0] in B;
    DistOne(A, B);
    CountSingle(KEEP_OP, DELETE_OP);
    CountSingle(KEEP_OP, INSERT_OP);
  }

  /** A 1 by 1 box of different elements: a delete and an insert, at cost 2. */
  lemma {:induction false} OneOneEdit<T>(A: seq<T>, B: seq<T>, swapped: bool)
    requires |A| == 1 && |B| == 1 && A[0] != B[0]
    ensures AlignsOriented([DelOp(swapped), InsOp(swapped)], A, B, swapped)
    ensures Cost([DelOp(swapped), InsOp(swapped)]) == Dist(A, B) == 2
  {
    assert A[..0] == [] && B[..0] == [] && A[..1] == A && B[..1] == B;
    assert Aligns([], A[..0], B[..0]);
    ExtendDel([], A, B, 0, 0, swapped);
    ExtendIns([DelOp(swapped)], A, B, 1, 0, swapped);
    assert [DelOp(swapped)] + [InsOp(swapped)] == [DelOp(swapped), InsOp(swapped)];
    DistOne(A, B);
  }

  /** Box 1 by 1 (lines 219-227): a KEEP when the two elements are equal, otherwise a
      delete and an insert. */
  method DiffOneOne<T(==)>(ops: array<Op>, iop1: int, xs: seq<T>, ix1: int, ys: seq<T>, iy1: int,
                           swapped: bool, ghost A: seq<T>, ghost B: seq<T>)
    returns (n: int, ghost w: seq<Op>)
    requires 0 <= ix1 < |xs| && 0 <= iy1 < |ys| && A == [xs[ix1]] && B == [ys[iy1]]
    requires 0 <= iop1 && iop1 + 2 <= ops.Length
    modifies ops
    ensures 1 <= n <= 2 && n == |w| && Written(ops[..], old(ops[..]), iop1, w)
    ensures w == if A[0] == B[0] then [KEEP_OP] else [DelOp(swapped), InsOp(swapped)]
    ensures AlignsOriented(w, A, B, swapped)
    ensures Cost(w) == Dist(A, B)
  {
    ghost var orig := ops[..];
    WrittenNothing(ops[..], iop1);
    if xs[ix1] == ys[iy1] {
      WriteNext(ops[..], orig, iop1, [], KEEP_OP);
      ops[iop1] := KEEP_OP;
      n, w := 1, [KEEP_OP];
      OneOneKeep(A, B, swapped);
    } else {
      WriteNext(ops[..], orig, iop1, [], DelOp(swapped));
      ops[iop1] := DelOp(swapped);
      WriteNext(ops[..], orig, iop1, [DelOp(swapped)], InsOp(swapped));
      ops[iop1 + 1] := InsOp(swapped);
      n, w := 2, [DelOp(swapped), InsOp(swapped)];
      OneOneEdit(A, B, swapped);
    }
  }

  /** In a 1 by m box, keeping the single element of A against its first occurrence B[i]
      after i inserts costs i, and the distance is m - 1. */
  lemma {:induction false} OneManyFound<T>(w: seq<Op>, A: seq<T>, B: seq<T>, i: int, swapped: bool)
    requires |A| == 1 && 0 <= i < |B| && B[i] == A[0]
    requires AlignsOriented(w, A[..0], B[..i], swapped) && Cost(w) == i
    ensures AlignsOriented(w + [KEEP_OP], A[..1], B[..i + 1], swapped) && Cost(w + [KEEP_OP]) == i
    ensures Dist(A, B) == |B| - 1
  {
    ExtendKeep(w, A, B, 0, i, swapped);
    assert A[0] in B;
    DistOne(A, B);
  }

  /** In a 1 by m box without the element of A, m inserts and a delete align the box at
      its distance m + 1. */
  lemma {:induction false} OneManyMissing<T>(w: seq<Op>, A: seq<T>, B: seq<T>, swapped: bool)
    requires |A| == 1 && A[0] !in B
    requires AlignsOriented(w, A[..0], B, swapped) && Cost(w) == |B|
    ensures AlignsOriented(w + [DelOp(swapped)], A, B, swapped) && Cost(w + [DelOp(swapped)]) == Dist(A, B)
  {
    assert B[..|B|] == B && A[..1] == A;
    ExtendDel(w, A, B, 0, |B|, swapped);
    DistOne(A, B);
  }

  /** The scan of lines 230-241 up to the first element of B equal to the single element
      of A, writing an insert for each element passed over. */
  method ScanInserts<T(==)>(ops: array<Op>, iop1: int, xs: seq<T>, ix1: int, ys: seq<T>, iy1: int,
                            iy2: int, swapped: bool, ghost A: seq<T>, ghost B: seq<T>)
    returns (i: int, ghost w: seq<Op>)
    requires 0 <= ix1 < |xs| && 0 <= iy1 <= iy2 <= |ys| && A == [xs[ix1]] && B == ys[iy1..iy2]
    requires 0 <= iop1 && iop1 + 1 + |B| <= ops.Length
    modifies ops
    ensures 0 <= i <= |B| && |w| == i && Written(ops[..], old(ops[..]), iop1, w)
    ensures AlignsOriented(w, A[..0], B[..i], swapped) && Cost(w) == i
    ensures A[0] !in B[..i] && (i < |B| ==> B[i] == A[0])
    ensures w == Repeat(InsOp(swapped), i)
  {
    var ny := iy2 - iy1;
    ghost var orig := ops[..];
    w := [];
    WrittenNothing(ops[..], iop1);
    assert A[..0] == [] && B[..0] == [];
    assert Aligns([], A[..0], B[..0]);
    i := 0;
    while i < ny && xs[ix1] != ys[iy1 + i]
      invariant 0 <= i <= ny && |w| == i && Written(ops[..], orig, iop1, w)
      invariant forall k :: 0 <= k < i ==> w[k] == InsOp(swapped)
      invariant AlignsOriented(w, A[..0], B[..i], swapped) && Cost(w) == i
      invariant A[0] !in B[..i]
    {
      ExtendIns(w, A, B, 0, i, swapped);
      WriteNext(ops[..], orig, iop1, w, InsOp(swapped));
      ops[iop1 + i] := InsOp(swapped);
      w := w + [InsOp(swapped)];
      assert B[..i + 1] == B[..i] + [B[i]];
      i := i + 1;
    }
    RunIsRepeat(w, [], InsOp(swapped));
    assert [] + w == w;
  }

  /** Box 1 by m (lines 228-250): insert the elements of B up to the first one equal to the
      single element of A, keep that one and insert the rest; when there is none, insert
      all of B and delete the element of A. */
  method DiffOneMany<T(==)>(ops: array<Op>, iop1: int, xs: seq<T>, ix1: int, ys: seq<T>, iy1: int,
                            iy2: int, swapped: bool, ghost A: seq<T>, ghost B: seq<T>)
    returns (n: int, ghost w: seq<Op>, ghost i: int)
    requires 0 <= ix1 < |xs| && 0 <= iy1 <= iy2 <= |ys| && A == [xs[ix1]] && B == ys[iy1..iy2]
    requires 0 <= iop1 && iop1 + 1 + |B| <= ops.Length
    modifies ops
    ensures 0 <= n <= 1 + |B| && n == |w| && Written(ops[..], old(ops[..]), iop1, w)
    ensures A[0] in B ==> 0 <= i < |B| && B[i] == A[0] && A[0] !in B[..i]
                          && w == Repeat(InsOp(swapped), i) + [KEEP_OP] + Repeat(InsOp(swapped), |B| - i - 1)
    ensures A[0] !in B ==> w == Repeat(InsOp(swapped), |B|) + [DelOp(swapped)]
    ensures AlignsOriented(w, A, B, swapped)
    ensures Cost(w) == Dist(A, B)
  {
    var ny := iy2 - iy1;
    ghost var orig := ops[..];
    var j;
    j, w := ScanInserts(ops, iop1, xs, ix1, ys, iy1, iy2, swapped, A, B);
    i := j;
    if j < ny {
      OneManyFound(w, A, B, i, swapped);
      WriteNext(ops[..], orig, iop1, w, KEEP_OP);
      ops[iop1 + j] := KEEP_OP;
      w := WriteInsertRun(ops, iop1, j + 1, ny, swapped, orig, w + [KEEP_OP], A, B, 1);
      assert A[..1] == A;
      n := ny;
    } else {
      assert B[..i] == B;
      OneManyMissing(w, A, B, swapped);
      WriteNext(ops[..], orig, iop1, w, DelOp(swapped));
      ops[iop1 + ny] := DelOp(swapped);
      w := w + [DelOp(swapped)];
      n := ny + 1;
    }
  }

  // ----- the recursion -----

  /** The two parts of a window cut at position mid. */
  lemma {:induction false} WindowParts<T>(xs: seq<T>, lo: int, mid: int, hi: int)
    requires 0 <= lo <= mid <= hi <= |xs|
    ensures xs[lo..mid] == xs[lo..hi][..mid - lo] && xs[mid..hi] == xs[lo..hi][mid - lo..]
    ensures xs[lo..hi][..mid - lo] + xs[lo..hi][mid - lo..] == xs[lo..hi]
  {
  }

  /** Scripts of the two halves of a box split at a corner on an optimal path make an
      optimal script of the box. */
  lemma {:induction false} JoinHalves<T>(w1: seq<Op>, w2: seq<Op>, xs: seq<T>, ix1: int, ix2: int,
                                         ys: seq<T>, iy1: int, iy2: int, mx: int, my: int, swapped: bool)
    requires 0 <= ix1 <= ix2 <= |xs| && 0 <= iy1 <= iy2 <= |ys|
    requires MeetPoint(xs[ix1..ix2], ys[iy1..iy2], mx - ix1 + 1, my - iy1 + 1)
    requires AlignsOriented(w1, xs[ix1..mx + 1], ys[iy1..my + 1], swapped)
    requires Cost(w1) == Dist(xs[ix1..mx + 1], ys[iy1..my + 1])
    requires AlignsOriented(w2, xs[mx + 1..ix2], ys[my + 1..iy2], swapped)
    requires Cost(w2) == Dist(xs[mx + 1..ix2], ys[my + 1..iy2])
    ensures AlignsOriented(w1 + w2, xs[ix1..ix2], ys[iy1..iy2], swapped)
    ensures Cost(w1 + w2) == Dist(xs[ix1..ix2], ys[iy1..iy2])
  {
    var A, B := xs[ix1..ix2], ys[iy1..iy2];
    var x, y := mx - ix1 + 1, my - iy1 + 1;
    MeetSplits(A, B, x, y);
    WindowParts(xs, ix1, mx + 1, ix2);
    WindowParts(ys, iy1, my + 1, iy2);
    OrientedConcat(w1, A[..x], B[..y], w2, A[x..], B[y..], swapped);
    CostConcat(w1, w2);
  }

  /** `_diffWu` (lines 183-358) on the box xs[ix1..ix2] by ys[iy1..iy2]: writes from iop1
      on an optimal script of the box, with DELETE and INSERT exchanged when `swapped`, and
      returns its length; no other cell of `ops` changes. */
  method DiffWuInto<T(==)>(ops: array<Op>, iop1: int, fps: array<int>, bps: array<int>,
                           xs: seq<T>, ix1: int, ix2: int, ys: seq<T>, iy1: int, iy2: int, swapped: bool)
    returns (n: int, ghost w: seq<Op>)
    requires 0 <= ix1 <= ix2 <= |xs| && 0 <= iy1 <= iy2 <= |ys| && fps != bps
    requires 0 <= iop1 && iop1 + (ix2 - ix1) + (iy2 - iy1) <= ops.Length
    requires (ix2 - ix1) + (iy2 - iy1) + 3 <= fps.Length && (ix2 - ix1) + (iy2 - iy1) + 3 <= bps.Length
    modifies ops, fps, bps
    ensures 0 <= n <= (ix2 - ix1) + (iy2 - iy1) && iop1 + n <= ops.Length
    ensures n == |w| && Written(ops[..], old(ops[..]), iop1, w)
    ensures AlignsOriented(w, xs[ix1..ix2], ys[iy1..iy2], swapped)
    ensures Cost(w) == Dist(xs[ix1..ix2], ys[iy1..iy2])
    decreases (ix2 - ix1) + (iy2 - iy1), 2
  {
    if iy2 - iy1 < ix2 - ix1 {
      n, w := DiffOriented(ops, iop1, fps, bps, ys, iy1, iy2, xs, ix1, ix2, !swapped);
      AlignsOrientedSwap(w, xs[ix1..ix2], ys[iy1..iy2], swapped);
      DistSym(xs[ix1..ix2], ys[iy1..iy2]);
    } else {
      n, w := DiffOriented(ops, iop1, fps, bps, xs, ix1, ix2, ys, iy1, iy2, swapped);
    }
  }

  /** `_diffWu` after the swap of line 197: the box is at most as wide as it is tall. */
  method DiffOriented<T(==)>(ops: array<Op>, iop1: int, fps: array<int>, bps: array<int>,
                             xs: seq<T>, ix1: int, ix2: int, ys: seq<T>, iy1: int, iy2: int, swapped: bool)
    returns (n: int, ghost w: seq<Op>)
    requires 0 <= ix1 <= ix2 <= |xs| && 0 <= iy1 <= iy2 <= |ys| && ix2 - ix1 <= iy2 - iy1 && fps != bps
    requires 0 <= iop1 && iop1 + (ix2 - ix1) + (iy2 - iy1) <= ops.Length
    requires (ix2 - ix1) + (iy2 - iy1) + 3 <= fps.Length && (ix2 - ix1) + (iy2 - iy1) + 3 <= bps.Length
    modifies ops, fps, bps
    ensures 0 <= n <= (ix2 - ix1) + (iy2 - iy1) && iop1 + n <= ops.Length
    ensures n == |w| && Written(ops[..], old(ops[..]), iop1, w)
    ensures AlignsOriented(w, xs[ix1..ix2], ys[iy1..iy2], swapped)
    ensures Cost(w) == Dist(xs[ix1..ix2], ys[iy1..iy2])
    decreases (ix2 - ix1) + (iy2 - iy1), 1
  {
    var nx, ny := ix2 - ix1, iy2 - iy1;
    ghost var A, B := xs[ix1..ix2], ys[iy1..iy2];
    if ny == 0 {
      WrittenNothing(ops[..], iop1);
      return 0, [];
    }
    if nx == 0 {
      n, w := DiffEmpty(ops, iop1, ny, swapped, A, B);
      return;
    }
    if ny == 1 {
      n, w := DiffOneOne(ops, iop1, xs, ix1, ys, iy1, swapped, A, B);
      return;
    }
    if nx == 1 {
      ghost var i;
      n, w, i := DiffOneMany(ops, iop1, xs, ix1, ys, iy1, iy2, swapped, A, B);
      return;
    }
    var done, m, mx, my;
    done, m, mx, my, w := FindMiddle(ops, iop1, fps, bps, xs, ix1, ix2, ys, iy1, iy2, swapped, A, B);
    if done {
      return m, w;
    }
    n, w := DiffSplit(ops, iop1, fps, bps, xs, ix1, ix2, ys, iy1, iy2, swapped, mx, my);
  }

  /** The two recursive calls of lines 329-357: the top-left box up to the middle point,
      then the bottom-right box from it, its script right after the first one. */
  method DiffSplit<T(==)>(ops: array<Op>, iop1: int, fps: array<int>, bps: array<int>,
                          xs: seq<T>, ix1: int, ix2: int, ys: seq<T>, iy1: int, iy2: int, swapped: bool,
                          mx: int, my: int)
    returns (n: int, ghost w: seq<Op>)
    requires 0 <= ix1 <= ix2 <= |xs| && 0 <= iy1 <= iy2 <= |ys| && fps != bps
    requires 0 <= iop1 && iop1 + (ix2 - ix1) + (iy2 - iy1) <= ops.Length
    requires (ix2 - ix1) + (iy2 - iy1) + 3 <= fps.Length && (ix2 - ix1) + (iy2 - iy1) + 3 <= bps.Length
    requires MeetPoint(xs[ix1..ix2], ys[iy1..iy2], mx - ix1 + 1, my - iy1 + 1)
    modifies ops, fps, bps
    ensures 0 <= n <= (ix2 - ix1) + (iy2 - iy1) && iop1 + n <= ops.Length
    ensures n == |w| && Written(ops[..], old(ops[..]), iop1, w)
    ensures AlignsOriented(w, xs[ix1..ix2], ys[iy1..iy2], swapped)
    ensures Cost(w) == Dist(xs[ix1..ix2], ys[iy1..iy2])
    decreases (ix2 - ix1) + (iy2 - iy1), 0
  {
    ghost var orig := ops[..];
    MeetSplits(xs[ix1..ix2], ys[iy1..iy2], mx - ix1 + 1, my - iy1 + 1);
    var n1, w1 := DiffWuInto(ops, iop1, fps, bps, xs, ix1, mx + 1, ys, iy1, my + 1, swapped);
    ghost var mid := ops[..];
    var n2, w2 := DiffWuInto(ops, iop1 + n1, fps, bps, xs, mx + 1, ix2, ys, my + 1, iy2, swapped);
    WrittenThen(mid, orig, iop1, w1, ops[..], w2);
    JoinHalves(w1, w2, xs, ix1, ix2, ys, iy1, iy2, mx, my, swapped);
    n, w := n1 + n2, w1 + w2;
  }

  // ----- the entry point -----

  /** The reset cells before position `len` all held SENTINEL_OP and the script fits before
      it: the prefix is the script and the rest of the reset cells still hold SENTINEL_OP;
      cells from `len` on are as they were. */
  lemma {:induction false} ScriptAfterReset<T>(ops: seq<Op>, filled: seq<Op>, w: seq<Op>, a: seq<T>, b: seq<T>,
                                               len: int)
    requires Written(ops, filled, 0, w) && |w| < len <= |ops| && Aligns(w, a, b)
    requires forall i :: 0 <= i < len ==> filled[i] == SENTINEL_OP
    ensures Prefix(ops) == w
    ensures forall i :: |w| <= i < len ==> ops[i] == SENTINEL_OP
    ensures forall i :: len <= i < |ops| ==> ops[i] == filled[i]
  {
    AlignsNoSentinel(w, a, b);
    WrittenScript(ops, filled, 0, w);
    PrefixAt(ops, |w|);
  }

  /** `diffWu` (lines 169-181): a fresh array of |xs| + |ys| + 1 operations whose prefix
      before the first SENTINEL_OP is an optimal script turning xs into ys; every cell after
      that prefix holds SENTINEL_OP, so the array always ends with one. */
  method DiffWu<T(==)>(xs: seq<T>, ys: seq<T>) returns (ops: array<Op>)
    ensures fresh(ops) && ops.Length == |xs| + |ys| + 1
    ensures Aligns(Prefix(ops[..]), xs, ys) && Cost(Prefix(ops[..])) == Dist(xs, ys)
    ensures forall i :: |Prefix(ops[..])| <= i < ops.Length ==> ops[i] == SENTINEL_OP
    ensures ops[ops.Length - 1] == SENTINEL_OP
  {
    var nx, ny := |xs|, |ys|;
    ops := new Op[nx + ny + 1](_ => SENTINEL_OP);
    var fps := new int[nx + ny + 3];
    var bps := new int[nx + ny + 3];
    ghost var orig := ops[..];
    var n, w := DiffWuInto(ops, 0, fps, bps, xs, 0, nx, ys, 0, ny, false);
    assert xs[0..nx] == xs && ys[0..ny] == ys;
    ScriptAfterReset(ops[..], orig, w, xs, ys, ops.Length);
  }
}

/** The class `DiffWu` (lines 111-156), which keeps its working arrays between calls and
    grows them when a call needs more room. */
module Reusable {
  import opened Ops
  import opened Distance
  import opened Script
  import opened Arrays
  import opened Diff

  class DiffWu {
    var ops: array<Op>
    var fps: array<int>
    var bps: array<int>

    /** The two front arrays are distinct and equally long. */
    ghost predicate Valid()
      reads this
    {
      fps != bps && fps.Length == bps.Length
    }

    /** Lines 116-120: one SENTINEL_OP and front arrays of length 3. */
    constructor()
      ensures Valid() && fresh(ops) && fresh(fps) && fresh(bps)
      ensures ops[..] == [SENTINEL_OP] && fps.Length == 3
    {
      ops := new Op[1](_ => SENTINEL_OP);
      fps := new int[3];
      bps := new int[3];
    }

    /** `call` (lines 127-155): grows the operation array to |xs| + |ys| + 1 and the front
        arrays to |xs| + |ys| + 3 when they are shorter, resets the first |xs| + |ys| + 1
        operations to SENTINEL_OP and runs the solver in them.  The array returned is the
        one the object keeps: its prefix before the first SENTINEL_OP is an optimal script
        turning xs into ys, and cells past |xs| + |ys| + 1 left over from an earlier, longer
        call are not touched. */
    method Call<T(==)>(xs: seq<T>, ys: seq<T>) returns (r: array<Op>)
      requires Valid()
      modifies this, ops, fps, bps
      ensures Valid() && r == ops
      ensures r.Length == if old(ops.Length) < |xs| + |ys| + 1 then |xs| + |ys| + 1 else old(ops.Length)
      ensures fps.Length == if old(fps.Length) < |xs| + |ys| + 3 then |xs| + |ys| + 3 else old(fps.Length)
      ensures Aligns(Prefix(r[..]), xs, ys) && Cost(Prefix(r[..])) == Dist(xs, ys)
      ensures forall i :: |Prefix(r[..])| <= i < |xs| + |ys| + 1 ==> r[i] == SENTINEL_OP
      ensures old(ops.Length) >= |xs| + |ys| + 1 ==>
                r == old(ops) && forall i :: |xs| + |ys| + 1 <= i < r.Length ==> r[i] == old(ops[i])
    {
      var nx, ny := |xs|, |ys|;
      var opsLength := nx + ny + 1;
      if ops.Length < opsLength {
        ops := new Op[opsLength];
      }
      Fill(ops, SENTINEL_OP, 0, opsLength);
      var fpsLength := nx + ny + 3;
      if fps.Length < fpsLength {
        fps := new int[fpsLength];
        bps := new int[fpsLength];
      }
      ghost var filled := ops[..];
      var n, w := DiffWuInto(ops, 0, fps, bps, xs, 0, nx, ys, 0, ny, false);
      assert xs[0..nx] == xs && ys[0..ny] == ys;
      ScriptAfterReset(ops[..], filled, w, xs, ys, opsLength);
      r := ops;
    }
  }
}
