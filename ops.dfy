/** Operation codes of an edit script and what it means for a script to align two sequences. */
module Ops {

  /** An operation code: SENTINEL_OP, KEEP_OP, DELETE_OP or INSERT_OP. */
  type Op = x: int | 0 <= x <= 3

  const SENTINEL_OP: Op := 0
  const KEEP_OP: Op := 1
  const DELETE_OP: Op := 2
  const INSERT_OP: Op := 3

  /** True for the two codes that cost one edit. */
  predicate IsEdit(o: Op) { o == DELETE_OP || o == INSERT_OP }

  /** `ops` is a complete alignment of `a` with `b`: KEEP consumes one equal element of each,
      DELETE one element of `a`, INSERT one element of `b`, and nothing is left over.
      Read from the last operation backwards, like the recurrence of `Distance.Dist`. */
  predicate Aligns<T(==)>(ops: seq<Op>, a: seq<T>, b: seq<T>)
    decreases |ops|
  {
    if ops == [] then a == [] && b == []
    else
      var o, rest := ops[|ops| - 1], ops[..|ops| - 1];
      if o == KEEP_OP then
        |a| > 0 && |b| > 0 && a[|a| - 1] == b[|b| - 1] && Aligns(rest, a[..|a| - 1], b[..|b| - 1])
      else if o == DELETE_OP then
        |a| > 0 && Aligns(rest, a[..|a| - 1], b)
      else if o == INSERT_OP then
        |b| > 0 && Aligns(rest, a, b[..|b| - 1])
      else
        false
  }

  /** Number of occurrences of `o` in `ops`. */
  function Count(ops: seq<Op>, o: Op): nat
  {
    if ops == [] then 0
    else Count(ops[..|ops| - 1], o) + (if ops[|ops| - 1] == o then 1 else 0)
  }

  /** Number of DELETE and INSERT operations: the edit count of a script. */
  function Cost(ops: seq<Op>): nat
  {
    Count(ops, DELETE_OP) + Count(ops, INSERT_OP)
  }

  /** The operations strictly before the first SENTINEL_OP (all of `ops` if there is none). */
  function Prefix(ops: seq<Op>): (r: seq<Op>)
    ensures |r| <= |ops| && r == ops[..|r|]
    ensures SENTINEL_OP !in r
    ensures |r| < |ops| ==> ops[|r|] == SENTINEL_OP
  {
    if ops == [] then []
    else if ops[0] == SENTINEL_OP then []
    else [ops[0]] + Prefix(ops[1..])
  }

  /** Exchanges DELETE and INSERT: the script read with the two sequences swapped. */
  function FlipOp(o: Op): Op
  {
    if o == DELETE_OP then INSERT_OP else if o == INSERT_OP then DELETE_OP else o
  }

  function Flip(ops: seq<Op>): (r: seq<Op>)
    ensures |r| == |ops|
    ensures forall i :: 0 <= i < |ops| ==> r[i] == FlipOp(ops[i])
  {
    if ops == [] then [] else Flip(ops[..|ops| - 1]) + [FlipOp(ops[|ops| - 1])]
  }

  /** The script a solver writes when its axes may be swapped: with `swapped`, its DELETE
      consumes `b` and its INSERT consumes `a`. */
  predicate AlignsOriented<T(==)>(ops: seq<Op>, a: seq<T>, b: seq<T>, swapped: bool)
  {
    if swapped then Aligns(ops, b, a) else Aligns(ops, a, b)
  }

  function Rev<T>(s: seq<T>): (r: seq<T>)
    ensures |r| == |s|
    ensures forall i :: 0 <= i < |s| ==> r[i] == s[|s| - 1 - i]
  {
    if s == [] then [] else [s[|s| - 1]] + Rev(s[..|s| - 1])
  }

  // ----- lemmas about counts -----

  lemma {:induction false} CountConcat(o1: seq<Op>, o2: seq<Op>, o: Op)
    ensures Count(o1 + o2, o) == Count(o1, o) + Count(o2, o)
    decreases |o2|
  {
    if o2 == [] {
      assert o1 + o2 == o1;
    } else {
      var i2 := o2[..|o2| - 1];
      assert (o1 + o2)[..|o1 + o2| - 1] == o1 + i2;
      CountConcat(o1, i2, o);
    }
  }

  lemma {:induction false} CostConcat(o1: seq<Op>, o2: seq<Op>)
    ensures Cost(o1 + o2) == Cost(o1) + Cost(o2)
  {
    CountConcat(o1, o2, DELETE_OP);
    CountConcat(o1, o2, INSERT_OP);
  }

  lemma {:induction false} CountSingle(o: Op, c: Op)
    ensures Count([o], c) == if o == c then 1 else 0
  {
    assert [o][..0] == [];
  }

  lemma {:induction false} CountBounds(ops: seq<Op>)
    ensures Count(ops, KEEP_OP) + Count(ops, DELETE_OP) + Count(ops, INSERT_OP) + Count(ops, SENTINEL_OP) == |ops|
  {
    if ops != [] {
      CountBounds(ops[..|ops| - 1]);
    }
  }

  lemma {:induction false} CountFlip(ops: seq<Op>)
    ensures Count(Flip(ops), DELETE_OP) == Count(ops, INSERT_OP)
    ensures Count(Flip(ops), INSERT_OP) == Count(ops, DELETE_OP)
    ensures Count(Flip(ops), KEEP_OP) == Count(ops, KEEP_OP)
  {
    if ops != [] {
      var f := Flip(ops);
      assert f[..|f| - 1] == Flip(ops[..|ops| - 1]);
      CountFlip(ops[..|ops| - 1]);
    }
  }

  // ----- lemmas about alignments -----

  /** An alignment consumes |a| elements of `a` and |b| of `b`. */
  lemma {:induction false} AlignsCounts<T>(ops: seq<Op>, a: seq<T>, b: seq<T>)
    requires Aligns(ops, a, b)
    ensures Count(ops, KEEP_OP) + Count(ops, DELETE_OP) == |a|
    ensures Count(ops, KEEP_OP) + Count(ops, INSERT_OP) == |b|
    ensures Count(ops, SENTINEL_OP) == 0
    decreases |ops|
  {
    if ops != [] {
      var o, rest := ops[|ops| - 1], ops[..|ops| - 1];
      if o == KEEP_OP {
        AlignsCounts(rest, a[..|a| - 1], b[..|b| - 1]);
      } else if o == DELETE_OP {
        AlignsCounts(rest, a[..|a| - 1], b);
      } else {
        AlignsCounts(rest, a, b[..|b| - 1]);
      }
    }
  }

  lemma {:induction false} AlignsNoSentinel<T>(ops: seq<Op>, a: seq<T>, b: seq<T>)
    requires Aligns(ops, a, b)
    ensures SENTINEL_OP !in ops
  {
    if SENTINEL_OP in ops {
      var i :| 0 <= i < |ops| && ops[i] == SENTINEL_OP;
      AlignsCounts(ops, a, b);
      CountPositive(ops, i, SENTINEL_OP);
    }
  }

  lemma {:induction false} CountPositive(ops: seq<Op>, i: int, o: Op)
    requires 0 <= i < |ops| && ops[i] == o
    ensures Count(ops, o) > 0
  {
    if i < |ops| - 1 {
      CountPositive(ops[..|ops| - 1], i, o);
    }
  }

  lemma {:induction false} AlignsConcat<T>(o1: seq<Op>, a1: seq<T>, b1: seq<T>, o2: seq<Op>, a2: seq<T>, b2: seq<T>)
    requires Aligns(o1, a1, b1) && Aligns(o2, a2, b2)
    ensures Aligns(o1 + o2, a1 + a2, b1 + b2)
    decreases |o2|
  {
    if o2 == [] {
      assert o1 + o2 == o1 && a1 + a2 == a1 && b1 + b2 == b1;
    } else {
      var o, rest := o2[|o2| - 1], o2[..|o2| - 1];
      assert (o1 + o2)[..|o1 + o2| - 1] == o1 + rest;
      assert (o1 + o2)[|o1 + o2| - 1] == o;
      if o == KEEP_OP {
        AlignsConcat(o1, a1, b1, rest, a2[..|a2| - 1], b2[..|b2| - 1]);
        assert (a1 + a2)[..|a1 + a2| - 1] == a1 + a2[..|a2| - 1];
        assert (b1 + b2)[..|b1 + b2| - 1] == b1 + b2[..|b2| - 1];
      } else if o == DELETE_OP {
        AlignsConcat(o1, a1, b1, rest, a2[..|a2| - 1], b2);
        assert (a1 + a2)[..|a1 + a2| - 1] == a1 + a2[..|a2| - 1];
      } else {
        AlignsConcat(o1, a1, b1, rest, a2, b2[..|b2| - 1]);
        assert (b1 + b2)[..|b1 + b2| - 1] == b1 + b2[..|b2| - 1];
      }
    }
  }

  lemma {:induction false} AlignsFlip<T>(ops: seq<Op>, a: seq<T>, b: seq<T>)
    requires Aligns(ops, a, b)
    ensures Aligns(Flip(ops), b, a)
    decreases |ops|
  {
    if ops != [] {
      var o, rest := ops[|ops| - 1], ops[..|ops| - 1];
      var f := Flip(ops);
      assert f[..|f| - 1] == Flip(rest);
      if o == KEEP_OP {
        AlignsFlip(rest, a[..|a| - 1], b[..|b| - 1]);
      } else if o == DELETE_OP {
        AlignsFlip(rest, a[..|a| - 1], b);
      } else {
        AlignsFlip(rest, a, b[..|b| - 1]);
      }
    }
  }

  lemma {:induction false} FlipFlip(ops: seq<Op>)
    ensures Flip(Flip(ops)) == ops
  {
    var ff := Flip(Flip(ops));
    assert |ff| == |ops|;
    forall i | 0 <= i < |ops| ensures ff[i] == ops[i] { }
  }

  /** The oriented form is invariant under swapping both the sequences and the flag. */
  lemma {:induction false} AlignsOrientedSwap<T>(ops: seq<Op>, a: seq<T>, b: seq<T>, swapped: bool)
    ensures AlignsOriented(ops, a, b, swapped) == AlignsOriented(ops, b, a, !swapped)
  {
  }

  /** Reversing an alignment aligns the reversed sequences. */
  lemma {:induction false} AlignsRev<T>(ops: seq<Op>, a: seq<T>, b: seq<T>)
    requires Aligns(ops, a, b)
    ensures Aligns(Rev(ops), Rev(a), Rev(b))
    ensures Cost(Rev(ops)) == Cost(ops)
    decreases |ops|
  {
    if ops == [] {
    } else {
      var o, rest := ops[|ops| - 1], ops[..|ops| - 1];
      assert Rev(ops) == [o] + Rev(rest);
      CostConcat([o], Rev(rest));
      CostConcat(rest, [o]);
      assert rest + [o] == ops;
      if o == KEEP_OP {
        var a', b' := a[..|a| - 1], b[..|b| - 1];
        AlignsRev(rest, a', b');
        assert Aligns([KEEP_OP], [a[|a| - 1]], [b[|b| - 1]]) by {
          assert [KEEP_OP][..0] == [];
          assert [a[|a| - 1]][..0] == [] && [b[|b| - 1]][..0] == [];
        }
        AlignsConcat([KEEP_OP], [a[|a| - 1]], [b[|b| - 1]], Rev(rest), Rev(a'), Rev(b'));
        assert Rev(a) == [a[|a| - 1]] + Rev(a');
        assert Rev(b) == [b[|b| - 1]] + Rev(b');
      } else if o == DELETE_OP {
        var a' := a[..|a| - 1];
        AlignsRev(rest, a', b);
        assert Aligns([DELETE_OP], [a[|a| - 1]], []) by {
          assert [DELETE_OP][..0] == [];
          assert [a[|a| - 1]][..0] == [];
        }
        AlignsConcat([DELETE_OP], [a[|a| - 1]], [], Rev(rest), Rev(a'), Rev(b));
        assert Rev(a) == [a[|a| - 1]] + Rev(a');
        assert [] + Rev(b) == Rev(b);
      } else {
        var b' := b[..|b| - 1];
        AlignsRev(rest, a, b');
        assert Aligns([INSERT_OP], [], [b[|b| - 1]]) by {
          assert [INSERT_OP][..0] == [];
          assert [b[|b| - 1]][..0] == [];
        }
        AlignsConcat([INSERT_OP], [], [b[|b| - 1]], Rev(rest), Rev(a), Rev(b'));
        assert Rev(b) == [b[|b| - 1]] + Rev(b');
        assert [] + Rev(a) == Rev(a);
      }
    }
  }

  // ----- writing an oriented script one operation at a time -----

  /** The code a solver writes for "consume one element of its first sequence". */
  function DelOp(swapped: bool): (r: Op)
    ensures r == if swapped then FlipOp(DELETE_OP) else DELETE_OP
  {
    if swapped then INSERT_OP else DELETE_OP
  }

  /** `n` copies of the code `o`. */
  function Repeat(o: Op, n: nat): (r: seq<Op>)
    ensures |r| == n
  {
    if n == 0 then [] else Repeat(o, n - 1) + [o]
  }

  /** A script that is w followed only by copies of `o` is w + Repeat(o, _). */
  lemma {:induction false} RunIsRepeat(w': seq<Op>, w: seq<Op>, o: Op)
    requires |w| <= |w'| && forall k :: 0 <= k < |w'| ==> w'[k] == if k < |w| then w[k] else o
    ensures w' == w + Repeat(o, |w'| - |w|)
    decreases |w'|
  {
    if |w'| > |w| {
      var v := w'[..|w'| - 1];
      RunIsRepeat(v, w, o);
      assert w' == v + [o];
    } else {
      assert w' == w;
    }
  }

  /** The code a solver writes for "consume one element of its second sequence". */
  function InsOp(swapped: bool): (r: Op)
    ensures r == if swapped then FlipOp(INSERT_OP) else INSERT_OP
  {
    if swapped then DELETE_OP else INSERT_OP
  }

  lemma {:induction false} ExtendKeep<T>(ops: seq<Op>, a: seq<T>, b: seq<T>, x: int, y: int, swapped: bool)
    requires 0 <= x < |a| && 0 <= y < |b| && a[x] == b[y]
    requires AlignsOriented(ops, a[..x], b[..y], swapped)
    ensures AlignsOriented(ops + [KEEP_OP], a[..x + 1], b[..y + 1], swapped)
    ensures Cost(ops + [KEEP_OP]) == Cost(ops)
  {
    var w := ops + [KEEP_OP];
    assert w[..|w| - 1] == ops;
    assert a[..x + 1][..x] == a[..x] && b[..y + 1][..y] == b[..y];
    CostConcat(ops, [KEEP_OP]);
    CountSingle(KEEP_OP, DELETE_OP); CountSingle(KEEP_OP, INSERT_OP);
  }

  lemma {:induction false} ExtendDel<T>(ops: seq<Op>, a: seq<T>, b: seq<T>, x: int, y: int, swapped: bool)
    requires 0 <= x < |a| && 0 <= y <= |b|
    requires AlignsOriented(ops, a[..x], b[..y], swapped)
    ensures AlignsOriented(ops + [DelOp(swapped)], a[..x + 1], b[..y], swapped)
    ensures Cost(ops + [DelOp(swapped)]) == Cost(ops) + 1
  {
    var o := DelOp(swapped);
    var w := ops + [o];
    assert w[..|w| - 1] == ops;
    assert a[..x + 1][..x] == a[..x];
    CostConcat(ops, [o]);
    CountSingle(o, DELETE_OP); CountSingle(o, INSERT_OP);
  }

  lemma {:induction false} ExtendIns<T>(ops: seq<Op>, a: seq<T>, b: seq<T>, x: int, y: int, swapped: bool)
    requires 0 <= x <= |a| && 0 <= y < |b|
    requires AlignsOriented(ops, a[..x], b[..y], swapped)
    ensures AlignsOriented(ops + [InsOp(swapped)], a[..x], b[..y + 1], swapped)
    ensures Cost(ops + [InsOp(swapped)]) == Cost(ops) + 1
  {
    var o := InsOp(swapped);
    var w := ops + [o];
    assert w[..|w| - 1] == ops;
    assert b[..y + 1][..y] == b[..y];
    CostConcat(ops, [o]);
    CountSingle(o, DELETE_OP); CountSingle(o, INSERT_OP);
  }

  lemma {:induction false} OrientedConcat<T>(o1: seq<Op>, a1: seq<T>, b1: seq<T>, o2: seq<Op>, a2: seq<T>, b2: seq<T>, swapped: bool)
    requires AlignsOriented(o1, a1, b1, swapped) && AlignsOriented(o2, a2, b2, swapped)
    ensures AlignsOriented(o1 + o2, a1 + a2, b1 + b2, swapped)
  {
    if swapped {
      AlignsConcat(o1, b1, a1, o2, b2, a2);
    } else {
      AlignsConcat(o1, a1, b1, o2, a2, b2);
    }
  }

  /** A script without SENTINEL_OP followed by SENTINEL_OP is the prefix of the whole. */
  lemma {:induction false} PrefixAt(ops: seq<Op>, r: int)
    requires 0 <= r < |ops| && SENTINEL_OP !in ops[..r] && ops[r] == SENTINEL_OP
    ensures Prefix(ops) == ops[..r]
    decreases r
  {
    if r > 0 {
      assert ops[0] in ops[..r];
      assert ops[1..][..r - 1] == ops[..r][1..];
      PrefixAt(ops[1..], r - 1);
    }
  }
}
