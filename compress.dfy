/** Run-length compression of an edit script for strings (`compressOpsForString`). */
module Compress {
  import opened Ops

  /** A compressed operation: `Num(-n)` deletes `n` source elements, `Num(n)` with `n >= 0`
      keeps `n` elements, `Str(s)` inserts the characters of `s`. */
  datatype COp = Num(n: int) | Str(s: string)

  /** Concatenation of all the strings of `ss`, as `Array.prototype.join("")` does. */
  function Join(ss: seq<string>): (r: string)
  {
    if ss == [] then [] else Join(ss[..|ss| - 1]) + ss[|ss| - 1]
  }

  lemma JoinSnoc(ss: seq<string>, x: string)
    ensures Join(ss + [x]) == Join(ss) + x
  {
    assert (ss + [x])[..|ss|] == ss;
  }

  lemma {:induction false} JoinConcat(s1: seq<string>, s2: seq<string>)
    ensures Join(s1 + s2) == Join(s1) + Join(s2)
    decreases |s2|
  {
    if s2 == [] {
      assert s1 + s2 == s1;
    } else {
      var s2', x := s2[..|s2| - 1], s2[|s2| - 1];
      assert s1 + s2 == (s1 + s2') + [x] && s2 == s2' + [x];
      JoinConcat(s1, s2');
      JoinSnoc(s1 + s2', x);
      JoinSnoc(s2', x);
    }
  }

  /** The element at `j`; an absent element reads as the empty string, which is what it
      contributes to a `join("")`. */
  function Elem(ys: seq<string>, j: int): string
  {
    if 0 <= j < |ys| then ys[j] else ""
  }

  /** The state of the compression loop. */
  datatype Acc = Acc(res: seq<COp>, iy: int, nDelete: int, nKeep: int, inserted: seq<string>, prev: Op)

  const Start: Acc := Acc([], -1, 0, 0, [], SENTINEL_OP)

  /** What the loop emits for the run it is closing (`prev`) when `op` differs from it. */
  function CloseRun(a: Acc, op: Op): Acc
  {
    if op != a.prev && a.prev != SENTINEL_OP then
      if a.prev == DELETE_OP then a.(res := a.res + [Num(-a.nDelete)], nDelete := 0)
      else if a.prev == KEEP_OP then a.(res := a.res + [Num(a.nKeep)], nKeep := 0)
      else a.(res := a.res + [Str(Join(a.inserted))], inserted := [])
    else a
  }

  /** How the loop takes one non-SENTINEL operation into the open run. */
  function TakeOp(a: Acc, op: Op, ys: seq<string>): Acc
    requires op != SENTINEL_OP
  {
    if op == KEEP_OP then a.(iy := a.iy + 1, nKeep := a.nKeep + 1, prev := op)
    else if op == DELETE_OP then a.(nDelete := a.nDelete + 1, prev := op)
    else a.(iy := a.iy + 1, inserted := a.inserted + [Elem(ys, a.iy + 1)], prev := op)
  }

  /** The loop state after a script without SENTINEL_OP. */
  function Scan(ops: seq<Op>, ys: seq<string>): Acc
    requires SENTINEL_OP !in ops
  {
    if ops == [] then Start
    else
      var o := ops[|ops| - 1];
      TakeOp(CloseRun(Scan(ops[..|ops| - 1], ys), o), o, ys)
  }

  /** The result of the compression: the runs of the script up to its first SENTINEL_OP,
      the last one emitted only when that SENTINEL_OP is present. */
  function Compressed(ops: seq<Op>, ys: seq<string>): seq<COp>
  {
    var p := Prefix(ops);
    if |p| < |ops| then CloseRun(Scan(p, ys), SENTINEL_OP).res else Scan(p, ys).res
  }

  /** `compressOpsForString`. */
  method CompressOpsForString(ops: seq<Op>, ys: seq<string>) returns (res: seq<COp>)
    ensures res == Compressed(ops, ys)
  {
    res := [];
    var iy := -1;
    var nDelete := 0;
    var nKeep := 0;
    var inserted: seq<string> := [];
    var prevOp := SENTINEL_OP;
    var i := 0;
    while i < |ops|
      invariant 0 <= i <= |ops| && SENTINEL_OP !in ops[..i]
      invariant Acc(res, iy, nDelete, nKeep, inserted, prevOp) == Scan(ops[..i], ys)
    {
      var op := ops[i];
      assert ops[..i + 1] == ops[..i] + [op];
      ghost var before := Scan(ops[..i], ys);
      if op != prevOp && prevOp != SENTINEL_OP {
        if prevOp == DELETE_OP {
          res := res + [Num(-nDelete)];
          nDelete := 0;
        } else if prevOp == KEEP_OP {
          res := res + [Num(nKeep)];
          nKeep := 0;
        } else if prevOp == INSERT_OP {
          res := res + [Str(Join(inserted))];
          inserted := [];
        }
      }
      assert Acc(res, iy, nDelete, nKeep, inserted, prevOp) == CloseRun(before, op);
      if op == KEEP_OP {
        iy := iy + 1;
        nKeep := nKeep + 1;
      } else if op == DELETE_OP {
        nDelete := nDelete + 1;
      } else if op == INSERT_OP {
        iy := iy + 1;
        inserted := inserted + [Elem(ys, iy)];
      } else {
        PrefixAt(ops, i);
        assert res == Compressed(ops, ys);
        return;
      }
      ScanSnoc(ops[..i], op, ys);
      prevOp := op;
      i := i + 1;
    }
    assert ops[..i] == ops;
  }

  /** The run the compression loop holds open and has not emitted yet. */
  function Pending(a: Acc): seq<COp>
  {
    if a.prev == KEEP_OP then [Num(a.nKeep)]
    else if a.prev == DELETE_OP then [Num(-a.nDelete)]
    else if a.prev == INSERT_OP then [Str(Join(a.inserted))]
    else []
  }

  /** Everything the compression of `q` emits once a SENTINEL_OP closes it. */
  function Final(q: seq<Op>, ys: seq<string>): seq<COp>
    requires SENTINEL_OP !in q
  {
    Scan(q, ys).res + Pending(Scan(q, ys))
  }

  /** The loop state after `q`: `prev` is the last operation and only its counter is non-zero. */
  predicate Tidy(a: Acc, q: seq<Op>)
  {
    (if q == [] then a.prev == SENTINEL_OP else a.prev == q[|q| - 1])
    && (a.prev == DELETE_OP <==> a.nDelete != 0) && a.nDelete >= 0
    && (a.prev == KEEP_OP <==> a.nKeep != 0) && a.nKeep >= 0
    && (a.prev != INSERT_OP ==> a.inserted == [])
  }

  lemma {:induction false} ScanTidy(q: seq<Op>, ys: seq<string>)
    requires SENTINEL_OP !in q
    ensures Tidy(Scan(q, ys), q)
    decreases |q|
  {
    if q != [] {
      var q', o := q[..|q| - 1], q[|q| - 1];
      assert SENTINEL_OP !in q' by { assert forall x :: x in q' ==> x in q; }
      ScanTidy(q', ys);
    }
  }

  /** After `q`, `iy` is the last index of `ys` consumed. */
  lemma {:induction false} ScanCursor(q: seq<Op>, ys: seq<string>)
    requires SENTINEL_OP !in q
    ensures Scan(q, ys).iy == Count(q, KEEP_OP) + Count(q, INSERT_OP) - 1
    decreases |q|
  {
    if q != [] {
      var q' := q[..|q| - 1];
      assert SENTINEL_OP !in q' by { assert forall x :: x in q' ==> x in q; }
      ScanCursor(q', ys);
    }
  }

  /** Closing the open run emits exactly the pending entry. */
  lemma ClosePending(a: Acc, o: Op)
    requires o != a.prev || a.prev == SENTINEL_OP
    ensures CloseRun(a, o).res == a.res + Pending(a)
  {
    if a.prev == SENTINEL_OP {
      assert Pending(a) == [] && a.res + [] == a.res;
    }
  }

  /** The compression of a script that ends in SENTINEL_OP is `Final` of its prefix. */
  lemma CompressedFinal(ops: seq<Op>, ys: seq<string>)
    requires SENTINEL_OP in ops
    ensures Compressed(ops, ys) == Final(Prefix(ops), ys)
  {
    var p := Prefix(ops);
    assert ops[..|ops|] == ops;
    assert |p| < |ops|;
    ScanTidy(p, ys);
    ClosePending(Scan(p, ys), SENTINEL_OP);
  }

  lemma ScanSnoc(q: seq<Op>, o: Op, ys: seq<string>)
    requires SENTINEL_OP !in q && o != SENTINEL_OP
    ensures SENTINEL_OP !in q + [o]
    ensures Scan(q + [o], ys) == TakeOp(CloseRun(Scan(q, ys), o), o, ys)
  {
    assert (q + [o])[..|q|] == q;
  }

  /** The operation a compressed entry repeats. */
  function Kind(c: COp): Op
  {
    match c
    case Num(n) => if n < 0 then DELETE_OP else KEEP_OP
    case Str(_) => INSERT_OP
  }

  /** No entry counts zero operations and neighbours repeat different operations: every entry
      is a whole run of equal operations. */
  predicate Maximal(r: seq<COp>)
  {
    (forall i :: 0 <= i < |r| ==> r[i] != Num(0))
    && (forall i :: 0 < i < |r| ==> Kind(r[i - 1]) != Kind(r[i]))
  }

  lemma MaximalSnoc(r: seq<COp>, x: COp)
    requires Maximal(r) && x != Num(0) && (|r| > 0 ==> Kind(r[|r| - 1]) != Kind(x))
    ensures Maximal(r + [x])
  {
  }

  /** The entries emitted so far are maximal runs, and the last one differs from the open run. */
  predicate RunsSoFar(a: Acc)
  {
    Maximal(a.res) && (|a.res| > 0 ==> a.prev != SENTINEL_OP && Kind(a.res[|a.res| - 1]) != a.prev)
  }

  lemma RunsStep(a: Acc, o: Op, ys: seq<string>)
    requires RunsSoFar(a) && o != SENTINEL_OP
    requires (a.prev == DELETE_OP <==> a.nDelete != 0) && a.nDelete >= 0
    requires (a.prev == KEEP_OP <==> a.nKeep != 0) && a.nKeep >= 0
    ensures RunsSoFar(TakeOp(CloseRun(a, o), o, ys))
  {
    if o != a.prev && a.prev != SENTINEL_OP {
      ClosePending(a, o);
      PendingKind(a);
      MaximalSnoc(a.res, Pending(a)[0]);
      assert Pending(a) == [Pending(a)[0]];
    }
  }

  lemma {:induction false} ScanMaximal(q: seq<Op>, ys: seq<string>)
    requires SENTINEL_OP !in q
    ensures RunsSoFar(Scan(q, ys))
    decreases |q|
  {
    if q != [] {
      var q', o := q[..|q| - 1], q[|q| - 1];
      assert q == q' + [o];
      assert SENTINEL_OP !in q' by { assert forall x :: x in q' ==> x in q; }
      ScanSnoc(q', o, ys);
      ScanMaximal(q', ys);
      ScanTidy(q', ys);
      RunsStep(Scan(q', ys), o, ys);
    }
  }

  /** The open run of a tidy state is one non-empty entry of its own kind. */
  lemma PendingKind(a: Acc)
    requires a.prev != SENTINEL_OP
    requires (a.prev == DELETE_OP <==> a.nDelete != 0) && a.nDelete >= 0
    requires (a.prev == KEEP_OP <==> a.nKeep != 0) && a.nKeep >= 0
    ensures |Pending(a)| == 1 && Pending(a)[0] != Num(0) && Kind(Pending(a)[0]) == a.prev
  {
  }

  /** Closing the open run keeps the entries maximal runs. */
  lemma RunsClosed(a: Acc)
    requires RunsSoFar(a)
    requires (a.prev == DELETE_OP <==> a.nDelete != 0) && a.nDelete >= 0
    requires (a.prev == KEEP_OP <==> a.nKeep != 0) && a.nKeep >= 0
    ensures Maximal(a.res + Pending(a))
  {
    if a.prev != SENTINEL_OP {
      PendingKind(a);
      MaximalSnoc(a.res, Pending(a)[0]);
      assert Pending(a) == [Pending(a)[0]];
    } else {
      assert a.res + Pending(a) == a.res;
    }
  }

  /** `compressOpsForString` turns every maximal run of equal operations into one entry. */
  lemma CompressedMaximal(ops: seq<Op>, ys: seq<string>)
    ensures Maximal(Compressed(ops, ys))
  {
    var p := Prefix(ops);
    ScanMaximal(p, ys);
    if |p| < |ops| {
      var a := Scan(p, ys);
      ClosePending(a, SENTINEL_OP);
      ScanTidy(p, ys);
      RunsClosed(a);
    }
  }
}
