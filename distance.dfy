/** Insert/delete edit distance and its relation to alignments. */
module Distance {
  import opened Ops

  function Min(a: int, b: int): (r: int)
    ensures r <= a && r <= b && (r == a || r == b)
  {
    if a <= b then a else b
  }

  /** The insert/delete edit distance (no substitution), by the recurrence on the last
      elements that the reference dynamic programme uses. */
  function Dist<T(==)>(a: seq<T>, b: seq<T>): nat
    decreases |a| + |b|
  {
    if |a| == 0 then |b|
    else if |b| == 0 then |a|
    else if a[|a| - 1] == b[|b| - 1] then Dist(a[..|a| - 1], b[..|b| - 1])
    else 1 + Min(Dist(a[..|a| - 1], b), Dist(a, b[..|b| - 1]))
  }

  lemma {:induction false} DistSym<T>(a: seq<T>, b: seq<T>)
    ensures Dist(a, b) == Dist(b, a)
    decreases |a| + |b|
  {
    if |a| > 0 && |b| > 0 {
      DistSym(a[..|a| - 1], b[..|b| - 1]);
      DistSym(a[..|a| - 1], b);
      DistSym(a, b[..|b| - 1]);
    }
  }

  /** The distance is bounded below by the length difference and above by the total length. */
  lemma {:induction false} DistBounds<T>(a: seq<T>, b: seq<T>)
    ensures Dist(a, b) >= |a| - |b| && Dist(a, b) >= |b| - |a|
    ensures Dist(a, b) <= |a| + |b|
    decreases |a| + |b|
  {
    if |a| > 0 && |b| > 0 {
      if a[|a| - 1] == b[|b| - 1] {
        DistBounds(a[..|a| - 1], b[..|b| - 1]);
      } else {
        DistBounds(a[..|a| - 1], b);
        DistBounds(a, b[..|b| - 1]);
      }
    }
  }

  /** The distance has the parity of the total length. */
  lemma {:induction false} DistParity<T>(a: seq<T>, b: seq<T>)
    ensures exists j: nat :: |a| + |b| == Dist(a, b) + 2 * j
    decreases |a| + |b|
  {
    if |a| == 0 || |b| == 0 {
      assert |a| + |b| == Dist(a, b) + 2 * 0;
    } else if a[|a| - 1] == b[|b| - 1] {
      DistParity(a[..|a| - 1], b[..|b| - 1]);
      var j: nat :| |a| - 1 + |b| - 1 == Dist(a[..|a| - 1], b[..|b| - 1]) + 2 * j;
      assert |a| + |b| == Dist(a, b) + 2 * (j + 1);
    } else if Dist(a[..|a| - 1], b) <= Dist(a, b[..|b| - 1]) {
      DistParity(a[..|a| - 1], b);
      var j: nat :| |a| - 1 + |b| == Dist(a[..|a| - 1], b) + 2 * j;
      assert |a| + |b| == Dist(a, b) + 2 * j;
    } else {
      DistParity(a, b[..|b| - 1]);
      var j: nat :| |a| + |b| - 1 == Dist(a, b[..|b| - 1]) + 2 * j;
      assert |a| + |b| == Dist(a, b) + 2 * j;
    }
  }

  /** Appending to `a` raises the distance by at most one. */
  lemma {:induction false} GrowA<T>(a: seq<T>, b: seq<T>)
    requires |a| > 0
    ensures Dist(a, b) <= Dist(a[..|a| - 1], b) + 1
    decreases |a| + |b|
  {
    if |b| > 0 && a[|a| - 1] == b[|b| - 1] {
      ShrinkB(a[..|a| - 1], b);
    }
  }

  /** Dropping the last element of `b` raises the distance by at most one. */
  lemma {:induction false} ShrinkB<T>(a: seq<T>, b: seq<T>)
    requires |b| > 0
    ensures Dist(a, b[..|b| - 1]) <= Dist(a, b) + 1
    decreases |a| + |b|
  {
    if |a| > 0 {
      var a', b' := a[..|a| - 1], b[..|b| - 1];
      if a[|a| - 1] == b[|b| - 1] {
        GrowA(a, b');
      } else {
        GrowA(a, b');
        ShrinkB(a', b);
      }
    }
  }

  lemma {:induction false} GrowB<T>(a: seq<T>, b: seq<T>)
    requires |b| > 0
    ensures Dist(a, b) <= Dist(a, b[..|b| - 1]) + 1
  {
    DistSym(a, b);
    DistSym(a, b[..|b| - 1]);
    GrowA(b, a);
  }

  lemma {:induction false} ShrinkA<T>(a: seq<T>, b: seq<T>)
    requires |a| > 0
    ensures Dist(a[..|a| - 1], b) <= Dist(a, b) + 1
  {
    DistSym(a, b);
    DistSym(a[..|a| - 1], b);
    ShrinkB(b, a);
  }

  /** Dropping the last element of both sequences never raises the distance. */
  lemma {:induction false} Diagonal<T>(a: seq<T>, b: seq<T>)
    requires |a| > 0 && |b| > 0
    ensures Dist(a[..|a| - 1], b[..|b| - 1]) <= Dist(a, b)
  {
    if a[|a| - 1] != b[|b| - 1] {
      ShrinkB(a[..|a| - 1], b);
      ShrinkA(a, b[..|b| - 1]);
    }
  }

  // ----- alignments -----

  /** An optimal alignment, read off the recurrence. */
  function Opt<T(==)>(a: seq<T>, b: seq<T>): (r: seq<Op>)
    ensures Aligns(r, a, b) && Cost(r) == Dist(a, b)
    decreases |a| + |b|
  {
    if |a| == 0 && |b| == 0 then []
    else if |a| == 0 then
      var r := Opt(a, b[..|b| - 1]) + [INSERT_OP];
      assert r[..|r| - 1] == Opt(a, b[..|b| - 1]);
      CostConcat(Opt(a, b[..|b| - 1]), [INSERT_OP]);
      CountSingle(INSERT_OP, INSERT_OP); CountSingle(INSERT_OP, DELETE_OP);
      r
    else if |b| == 0 then
      var r := Opt(a[..|a| - 1], b) + [DELETE_OP];
      assert r[..|r| - 1] == Opt(a[..|a| - 1], b);
      CostConcat(Opt(a[..|a| - 1], b), [DELETE_OP]);
      CountSingle(DELETE_OP, INSERT_OP); CountSingle(DELETE_OP, DELETE_OP);
      r
    else if a[|a| - 1] == b[|b| - 1] then
      var r := Opt(a[..|a| - 1], b[..|b| - 1]) + [KEEP_OP];
      assert r[..|r| - 1] == Opt(a[..|a| - 1], b[..|b| - 1]);
      CostConcat(Opt(a[..|a| - 1], b[..|b| - 1]), [KEEP_OP]);
      CountSingle(KEEP_OP, INSERT_OP); CountSingle(KEEP_OP, DELETE_OP);
      r
    else if Dist(a[..|a| - 1], b) <= Dist(a, b[..|b| - 1]) then
      var r := Opt(a[..|a| - 1], b) + [DELETE_OP];
      assert r[..|r| - 1] == Opt(a[..|a| - 1], b);
      CostConcat(Opt(a[..|a| - 1], b), [DELETE_OP]);
      CountSingle(DELETE_OP, INSERT_OP); CountSingle(DELETE_OP, DELETE_OP);
      r
    else
      var r := Opt(a, b[..|b| - 1]) + [INSERT_OP];
      assert r[..|r| - 1] == Opt(a, b[..|b| - 1]);
      CostConcat(Opt(a, b[..|b| - 1]), [INSERT_OP]);
      CountSingle(INSERT_OP, INSERT_OP); CountSingle(INSERT_OP, DELETE_OP);
      r
  }

  /** No alignment costs less than the distance. */
  lemma {:induction false} LowerBound<T>(ops: seq<Op>, a: seq<T>, b: seq<T>)
    requires Aligns(ops, a, b)
    ensures Cost(ops) >= Dist(a, b)
    decreases |ops|
  {
    if ops != [] {
      var o, rest := ops[|ops| - 1], ops[..|ops| - 1];
      assert rest + [o] == ops;
      CostConcat(rest, [o]);
      CountSingle(o, INSERT_OP); CountSingle(o, DELETE_OP);
      if o == KEEP_OP {
        LowerBound(rest, a[..|a| - 1], b[..|b| - 1]);
      } else if o == DELETE_OP {
        LowerBound(rest, a[..|a| - 1], b);
        GrowA(a, b);
      } else {
        LowerBound(rest, a, b[..|b| - 1]);
        GrowB(a, b);
      }
    }
  }

  /** The distance is the least cost of an alignment. */
  lemma {:induction false} DistIsLeastCost<T>(a: seq<T>, b: seq<T>)
    ensures exists ops :: Aligns(ops, a, b) && Cost(ops) == Dist(a, b)
    ensures forall ops :: Aligns(ops, a, b) ==> Cost(ops) >= Dist(a, b)
  {
    var o := Opt(a, b);
    forall ops | Aligns(ops, a, b) ensures Cost(ops) >= Dist(a, b) {
      LowerBound(ops, a, b);
    }
  }

  lemma {:induction false} DistRev<T>(a: seq<T>, b: seq<T>)
    ensures Dist(Rev(a), Rev(b)) == Dist(a, b)
  {
    var o := Opt(a, b);
    AlignsRev(o, a, b);
    LowerBound(Rev(o), Rev(a), Rev(b));
    var o' := Opt(Rev(a), Rev(b));
    AlignsRev(o', Rev(a), Rev(b));
    RevRev(a); RevRev(b);
    LowerBound(Rev(o'), a, b);
  }

  lemma {:induction false} RevRev<T>(s: seq<T>)
    ensures Rev(Rev(s)) == s
  {
  }

  lemma {:induction false} RevFront<T>(s: seq<T>)
    requires |s| > 0
    ensures Rev(s)[..|s| - 1] == Rev(s[1..]) && Rev(s)[|s| - 1] == s[0]
  {
    var r, t := Rev(s)[..|s| - 1], Rev(s[1..]);
    assert |r| == |t|;
    forall i | 0 <= i < |r| ensures r[i] == t[i] {
      assert r[i] == s[|s| - 1 - i];
      assert t[i] == s[1..][|s| - 2 - i];
    }
  }

  /** The same recurrence read from the first elements. */
  lemma {:induction false} DistFront<T>(a: seq<T>, b: seq<T>)
    requires |a| > 0 && |b| > 0
    ensures Dist(a, b) == if a[0] == b[0] then Dist(a[1..], b[1..])
                          else 1 + Min(Dist(a[1..], b), Dist(a, b[1..]))
  {
    DistRev(a, b);
    DistRev(a[1..], b[1..]);
    DistRev(a[1..], b);
    DistRev(a, b[1..]);
    RevFront(a);
    RevFront(b);
  }

  /** Any split of the two sequences costs at least the distance. */
  lemma {:induction false} Split<T>(a1: seq<T>, a2: seq<T>, b1: seq<T>, b2: seq<T>)
    ensures Dist(a1 + a2, b1 + b2) <= Dist(a1, b1) + Dist(a2, b2)
  {
    var o1, o2 := Opt(a1, b1), Opt(a2, b2);
    AlignsConcat(o1, a1, b1, o2, a2, b2);
    CostConcat(o1, o2);
    LowerBound(o1 + o2, a1 + a2, b1 + b2);
  }

  /** Against a single element, the distance is one less than the length of the other
      sequence when the element occurs in it, and one more otherwise. */
  lemma {:induction false} DistOne<T>(a: seq<T>, b: seq<T>)
    requires |a| == 1
    ensures Dist(a, b) == if a[0] in b then |b| - 1 else |b| + 1
    decreases |b|
  {
    if |b| > 0 {
      var b' := b[..|b| - 1];
      DistOne(a, b');
      assert a[..0] == [];
      assert b == b' + [b[|b| - 1]];
    }
  }
}
