/** The reference checks the test-suite applies to every `diffWu` result: a two-row dynamic
    programme for the edit distance, the edit count of a script, and a replay that compares
    the elements each KEEP_OP pairs. */
module Oracle {
  import opened Ops
  import opened Distance
  import opened Diff

  /** One step of the recurrence on prefixes, as the dynamic programme indexes it. */
  lemma DistStep<T>(xs: seq<T>, ys: seq<T>, i: int, j: int)
    requires 1 <= i <= |xs| && 1 <= j <= |ys|
    ensures Dist(xs[..i], ys[..j])
         == if xs[i - 1] == ys[j - 1] then Dist(xs[..i - 1], ys[..j - 1])
            else Min(Dist(xs[..i - 1], ys[..j]) + 1, Dist(xs[..i], ys[..j - 1]) + 1)
  {
    assert xs[..i][..i - 1] == xs[..i - 1];
    assert ys[..j][..j - 1] == ys[..j - 1];
  }

  /** One row of the table (lines 285-291 of index.test.ts): from the row for `xs[..i - 1]`
      in `dpPrev`, writes the row for `xs[..i]` into `dpCurr`. */
  method FillRow<T(==)>(dpPrev: array<int>, dpCurr: array<int>, xs: seq<T>, ys: seq<T>, i: int)
    requires dpPrev != dpCurr && dpPrev.Length == |ys| + 1 && dpCurr.Length == |ys| + 1
    requires 1 <= i <= |xs|
    requires forall k :: 0 <= k <= |ys| ==> dpPrev[k] == Dist(xs[..i - 1], ys[..k])
    modifies dpCurr
    ensures forall k :: 0 <= k <= |ys| ==> dpCurr[k] == Dist(xs[..i], ys[..k])
  {
    dpCurr[0] := i;
    for j := 1 to |ys| + 1
      invariant forall k :: 0 <= k < j ==> dpCurr[k] == Dist(xs[..i], ys[..k])
    {
      DistStep(xs, ys, i, j);
      dpCurr[j] := if xs[i - 1] == ys[j - 1] then dpPrev[j - 1] else Min(dpPrev[j] + 1, dpCurr[j - 1] + 1);
    }
  }

  /** `editDistance` (index.test.ts): fills the rows of the table for `xs[..i]` against every
      prefix of `ys`, exchanging the two row arrays after each row. */
  method EditDistance<T(==)>(xs: seq<T>, ys: seq<T>) returns (d: int)
    ensures d == Dist(xs, ys)
  {
    var m, n := |xs|, |ys|;
    var dpPrev := new int[n + 1];
    var dpCurr := new int[n + 1];
    for j := 0 to n + 1
      invariant forall k :: 0 <= k < j ==> dpPrev[k] == Dist(xs[..0], ys[..k])
    {
      dpPrev[j] := j;
    }
    for i := 1 to m + 1
      invariant fresh(dpPrev) && fresh(dpCurr)
      invariant dpPrev != dpCurr && dpPrev.Length == n + 1 && dpCurr.Length == n + 1
      invariant forall k :: 0 <= k <= n ==> dpPrev[k] == Dist(xs[..i - 1], ys[..k])
    {
      FillRow(dpPrev, dpCurr, xs, ys, i);
      dpPrev, dpCurr := dpCurr, dpPrev;
    }
    d := dpPrev[n];
    assert xs[..m] == xs && ys[..n] == ys;
  }

  /** `editDistanceOfOps` (index.test.ts): the DELETE_OP and INSERT_OP codes before the
      first SENTINEL_OP. */
  method EditDistanceOfOps(ops: seq<Op>) returns (nEdits: int)
    ensures nEdits == Cost(Prefix(ops))
  {
    nEdits := 0;
    for i := 0 to |ops|
      invariant SENTINEL_OP !in ops[..i] && nEdits == Cost(ops[..i])
    {
      assert ops[..i + 1][..i] == ops[..i];
      if ops[i] == DELETE_OP || ops[i] == INSERT_OP {
        nEdits := nEdits + 1;
      } else if ops[i] == SENTINEL_OP {
        PrefixAt(ops, i);
        return;
      }
    }
    assert ops[..|ops|] == ops;
  }

  /** An element read from a JavaScript array: absent past either end. */
  datatype Read<T> = Absent | Present(v: T)

  function At<T>(s: seq<T>, i: int): Read<T>
  {
    if 0 <= i < |s| then Present(s[i]) else Absent
  }

  /** Every KEEP_OP of `p`, replayed with cursors that start before both arrays, reads the
      same value (or nothing) from both. */
  predicate KeepsMatch<T(==)>(p: seq<Op>, xs: seq<T>, ys: seq<T>)
  {
    p == [] ||
    (KeepsMatch(p[..|p| - 1], xs, ys)
     && (p[|p| - 1] == KEEP_OP ==>
           var q := p[..|p| - 1];
           At(xs, Count(q, KEEP_OP) + Count(q, DELETE_OP)) == At(ys, Count(q, KEEP_OP) + Count(q, INSERT_OP))))
  }

  /** What one more operation does to the cursors and to `KeepsMatch`. */
  lemma ReplayNext<T>(q: seq<Op>, o: Op, xs: seq<T>, ys: seq<T>)
    ensures Count(q + [o], KEEP_OP) == Count(q, KEEP_OP) + if o == KEEP_OP then 1 else 0
    ensures Count(q + [o], DELETE_OP) == Count(q, DELETE_OP) + if o == DELETE_OP then 1 else 0
    ensures Count(q + [o], INSERT_OP) == Count(q, INSERT_OP) + if o == INSERT_OP then 1 else 0
    ensures KeepsMatch(q + [o], xs, ys)
        <==> (KeepsMatch(q, xs, ys)
              && (o == KEEP_OP ==> At(xs, Count(q, KEEP_OP) + Count(q, DELETE_OP))
                                   == At(ys, Count(q, KEEP_OP) + Count(q, INSERT_OP))))
  {
    assert (q + [o])[..|q|] == q;
  }

  /** `checkOps` (index.test.ts) with each failed expectation as a `false` result: the edit
      count of the script equals the edit distance, and every KEEP_OP pairs equal reads. */
  method CheckOps<T(==)>(ops: seq<Op>, xs: seq<T>, ys: seq<T>) returns (ok: bool)
    ensures ok <==> Cost(Prefix(ops)) == Dist(xs, ys) && KeepsMatch(Prefix(ops), xs, ys)
  {
    var e1 := EditDistanceOfOps(ops);
    var e2 := EditDistance(xs, ys);
    if e1 != e2 {
      return false;
    }
    var ix, iy;
    ok, ix, iy := CheckKeeps(ops, xs, ys);
  }

  /** The state of the replay loop of `checkOps` after the operations `q`: no SENTINEL_OP
      yet, every KEEP_OP so far matched, and the cursors on the last elements consumed. */
  predicate Replayed<T(==)>(q: seq<Op>, ix: int, iy: int, xs: seq<T>, ys: seq<T>)
  {
    SENTINEL_OP !in q && KeepsMatch(q, xs, ys)
    && ix == Count(q, KEEP_OP) + Count(q, DELETE_OP) - 1
    && iy == Count(q, KEEP_OP) + Count(q, INSERT_OP) - 1
  }

  /** The replay loop of `checkOps`: both cursors start before the arrays, and each KEEP_OP
      compares the two elements it reaches. */
  method CheckKeeps<T(==)>(ops: seq<Op>, xs: seq<T>, ys: seq<T>) returns (ok: bool, ix: int, iy: int)
    ensures ok <==> KeepsMatch(Prefix(ops), xs, ys)
    ensures ok ==> Replayed(Prefix(ops), ix, iy, xs, ys)
  {
    ix, iy := -1, -1;
    ghost var q: seq<Op> := [];
    for i := 0 to |ops|
      invariant q == ops[..i] && Replayed(q, ix, iy, xs, ys)
    {
      var o := ops[i];
      assert ops[..i + 1] == q + [o];
      if o == KEEP_OP {
        ix, iy := ix + 1, iy + 1;
        if At(xs, ix) != At(ys, iy) {
          assert !KeepsMatch(ops[..i + 1], xs, ys) by { ReplayNext(q, o, xs, ys); }
          MismatchFails(ops, i, xs, ys);
          return false, ix, iy;
        }
        assert Replayed(q + [o], ix, iy, xs, ys) by { ReplayNext(q, o, xs, ys); }
      } else if o == DELETE_OP {
        ix := ix + 1;
        assert Replayed(q + [o], ix, iy, xs, ys) by { ReplayNext(q, o, xs, ys); }
      } else if o == INSERT_OP {
        iy := iy + 1;
        assert Replayed(q + [o], ix, iy, xs, ys) by { ReplayNext(q, o, xs, ys); }
      } else {
        assert Prefix(ops) == q by { PrefixAt(ops, i); }
        return true, ix, iy;
      }
      q := q + [o];
    }
    assert ops[..|ops|] == ops;
    ok := true;
  }

  /** When no SENTINEL_OP comes up to and including index `i`, the first `i + 1` operations
      begin the prefix. */
  lemma PrefixAfter(ops: seq<Op>, i: int)
    requires 0 <= i < |ops| && SENTINEL_OP !in ops[..i] && ops[i] != SENTINEL_OP
    ensures |Prefix(ops)| > i && Prefix(ops)[..i + 1] == ops[..i + 1]
  {
    var p := Prefix(ops);
    assert forall k :: 0 <= k < i ==> ops[..i][k] == ops[k];
    assert p[..i + 1] == ops[..|p|][..i + 1];
  }

  /** A mismatch among the first `i + 1` operations, none of them a SENTINEL_OP, is a mismatch
      of the whole prefix. */
  lemma MismatchFails<T>(ops: seq<Op>, i: int, xs: seq<T>, ys: seq<T>)
    requires 0 <= i < |ops| && SENTINEL_OP !in ops[..i] && ops[i] != SENTINEL_OP
    requires !KeepsMatch(ops[..i + 1], xs, ys)
    ensures !KeepsMatch(Prefix(ops), xs, ys)
  {
    PrefixAfter(ops, i);
    if KeepsMatch(Prefix(ops), xs, ys) {
      KeepsMatchPrefix(Prefix(ops), i + 1, xs, ys);
    }
  }

  lemma {:induction false} KeepsMatchPrefix<T>(p: seq<Op>, k: int, xs: seq<T>, ys: seq<T>)
    requires 0 <= k <= |p| && KeepsMatch(p, xs, ys)
    ensures KeepsMatch(p[..k], xs, ys)
    decreases |p| - k
  {
    if k < |p| {
      assert p[..|p| - 1][..k] == p[..k];
      KeepsMatchPrefix(p[..|p| - 1], k, xs, ys);
    } else {
      assert p[..k] == p;
    }
  }

  /** A complete alignment of prefixes of `xs` and `ys` replays without a mismatch and
      leaves the cursors on the last elements of those prefixes. */
  lemma {:induction false} AlignedReplays<T>(p: seq<Op>, xs: seq<T>, ys: seq<T>, m: int, n: int)
    requires 0 <= m <= |xs| && 0 <= n <= |ys| && Aligns(p, xs[..m], ys[..n])
    ensures Replayed(p, m - 1, n - 1, xs, ys)
    decreases |p|
  {
    if p != [] {
      var q, o := p[..|p| - 1], p[|p| - 1];
      if o == KEEP_OP {
        assert xs[..m][..m - 1] == xs[..m - 1] && ys[..n][..n - 1] == ys[..n - 1];
        AlignedReplays(q, xs, ys, m - 1, n - 1);
        assert xs[..m][m - 1] == ys[..n][n - 1];
      } else if o == DELETE_OP {
        assert xs[..m][..m - 1] == xs[..m - 1];
        AlignedReplays(q, xs, ys, m - 1, n);
      } else {
        assert ys[..n][..n - 1] == ys[..n - 1];
        AlignedReplays(q, xs, ys, m, n - 1);
      }
    }
  }

  /** The converse: a replay without a mismatch whose cursors stay inside `xs` and `ys` is a
      complete alignment of the prefixes the cursors reached. */
  lemma {:induction false} ReplayedAligns<T>(p: seq<Op>, xs: seq<T>, ys: seq<T>, m: int, n: int)
    requires 0 <= m <= |xs| && 0 <= n <= |ys| && Replayed(p, m - 1, n - 1, xs, ys)
    ensures Aligns(p, xs[..m], ys[..n])
    decreases |p|
  {
    if p != [] {
      var q, o := p[..|p| - 1], p[|p| - 1];
      assert o in p;
      if o == KEEP_OP {
        assert xs[..m][..m - 1] == xs[..m - 1] && ys[..n][..n - 1] == ys[..n - 1];
        ReplayedAligns(q, xs, ys, m - 1, n - 1);
      } else if o == DELETE_OP {
        assert xs[..m][..m - 1] == xs[..m - 1];
        ReplayedAligns(q, xs, ys, m - 1, n);
      } else {
        assert ys[..n][..n - 1] == ys[..n - 1];
        ReplayedAligns(q, xs, ys, m, n - 1);
      }
    } else {
      assert xs[..m] == [] && ys[..n] == [];
    }
  }

  /** `checkOps` as written accepts a script that is not a complete alignment: it never
      compares the final cursors with the ends of `xs` and `ys`, and a KEEP_OP past both ends
      compares two absent elements as equal. */
  lemma CheckOpsAcceptsIncomplete()
    ensures var ops, xs, ys := [SENTINEL_OP], [1], [1];
      Cost(Prefix(ops)) == Dist(xs, ys) && KeepsMatch(Prefix(ops), xs, ys) && !Aligns(Prefix(ops), xs, ys)
    ensures var ops, xs, ys := [KEEP_OP, SENTINEL_OP], [], [];
      Cost(Prefix(ops)) == Dist<int>(xs, ys) && KeepsMatch<int>(Prefix(ops), xs, ys) && !Aligns<int>(Prefix(ops), xs, ys)
  {
    PrefixAt([SENTINEL_OP], 0);
    PrefixAt([KEEP_OP, SENTINEL_OP], 1);
    assert [KEEP_OP, SENTINEL_OP][..1] == [KEEP_OP];
    assert [KEEP_OP][..0] == [];
    assert Dist([1], [1]) == 0 by { assert [1][..0] == []; }
  }

  /** `checkOps` with the check its replay leaves out: after the last operation both cursors
      must sit on the last elements. It accepts exactly the complete alignments of `xs` with
      `ys` whose edit count is the edit distance. */
  method CheckOpsComplete<T(==)>(ops: seq<Op>, xs: seq<T>, ys: seq<T>) returns (ok: bool)
    ensures ok <==> Aligns(Prefix(ops), xs, ys) && Cost(Prefix(ops)) == Dist(xs, ys)
  {
    var e1 := EditDistanceOfOps(ops);
    var e2 := EditDistance(xs, ys);
    if e1 != e2 {
      return false;
    }
    var ix, iy;
    ok, ix, iy := CheckKeeps(ops, xs, ys);
    assert xs[..|xs|] == xs && ys[..|ys|] == ys;
    if ok && ix == |xs| - 1 && iy == |ys| - 1 {
      ReplayedAligns(Prefix(ops), xs, ys, |xs|, |ys|);
    } else {
      if Aligns(Prefix(ops), xs, ys) {
        AlignedReplays(Prefix(ops), xs, ys, |xs|, |ys|);
      }
      ok := false;
    }
  }

  /** The property test on `diffWu` (index.test.ts): every script it returns passes
      `checkOps`, and also the complete check. */
  method DiffPassesCheck<T(==)>(xs: seq<T>, ys: seq<T>) returns (ok: bool, complete: bool)
    ensures ok && complete
  {
    var ops := DiffWu(xs, ys);
    assert xs[..|xs|] == xs && ys[..|ys|] == ys;
    AlignedReplays(Prefix(ops[..]), xs, ys, |xs|, |ys|);
    ok := CheckOps(ops[..], xs, ys);
    complete := CheckOpsComplete(ops[..], xs, ys);
  }
}
