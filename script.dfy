/** The state of the shared operation array while the solver fills it: a script written
    from some position on, and every other cell as it was. */
module Script {
  import opened Ops

  /** `ops` is `orig` with the script `w` written from position `lo` on and nothing else
      changed. */
  ghost predicate Written(ops: seq<Op>, orig: seq<Op>, lo: int, w: seq<Op>)
  {
    |ops| == |orig| && 0 <= lo && lo + |w| <= |ops|
    && forall i :: 0 <= i < |ops| ==> ops[i] == if lo <= i < lo + |w| then w[i - lo] else orig[i]
  }

  /** The written cells hold the script. */
  lemma {:induction false} WrittenScript(ops: seq<Op>, orig: seq<Op>, lo: int, w: seq<Op>)
    requires Written(ops, orig, lo, w)
    ensures ops[lo..lo + |w|] == w
  {
    forall i | 0 <= i < |w| ensures ops[lo..lo + |w|][i] == w[i] {
      assert ops[lo + i] == w[i];
    }
  }

  /** Nothing written yet. */
  lemma {:induction false} WrittenNothing(ops: seq<Op>, lo: int)
    requires 0 <= lo <= |ops|
    ensures Written(ops, ops, lo, [])
  {
  }

  /** Writing `o` in the cell after the script extends the script by `o`. */
  lemma {:induction false} WriteNext(ops: seq<Op>, orig: seq<Op>, lo: int, w: seq<Op>, o: Op)
    requires Written(ops, orig, lo, w) && lo + |w| < |ops|
    ensures Written(ops[lo + |w| := o], orig, lo, w + [o])
  {
  }

  /** A script written after another one extends it. */
  lemma {:induction false} WrittenThen(mid: seq<Op>, orig: seq<Op>, lo: int, w1: seq<Op>, fin: seq<Op>, w2: seq<Op>)
    requires Written(mid, orig, lo, w1) && Written(fin, mid, lo + |w1|, w2)
    ensures Written(fin, orig, lo, w1 + w2)
  {
  }
}
