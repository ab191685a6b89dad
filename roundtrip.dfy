/** Compressing an alignment of `xs` with `ys` and replaying it on `xs` rebuilds `ys`. */
module RoundTrip {
  import opened Ops
  import opened Compress
  import opened Apply

  /** The effect on the replay of one more operation `o` of the script, given the element
      `e` an INSERT_OP would add. */
  function ReplayOne(src: seq<string>, c: Cursor, o: Op, e: string): (d: Cursor)
    requires Fits(c)
    ensures Fits(d)
  {
    if o == KEEP_OP then Write(c, c.ix + 1, Elem(src, c.ix + 1))
    else if o == DELETE_OP then c.(ix := c.ix + 1)
    else if o == INSERT_OP then InsertRun(c, e)
    else c
  }

  lemma {:induction false} InsertRunConcat(c: Cursor, s: string, t: string)
    requires Fits(c)
    ensures InsertRun(c, s + t) == InsertRun(InsertRun(c, s), t)
    decreases |t|
  {
    if t == [] {
      assert s + t == s;
    } else {
      assert (s + t)[..|s + t| - 1] == s + t[..|t| - 1];
      InsertRunConcat(c, s, t[..|t| - 1]);
    }
  }

  lemma {:induction false} InsertRunJoin(c: Cursor, s: string)
    requires Fits(c)
    ensures Join(Out(InsertRun(c, s))) == Join(Out(c)) + s
    decreases |s|
  {
    if s != [] {
      var s', x := s[..|s| - 1], s[|s| - 1];
      assert s == s' + [x];
      InsertRunJoin(c, s');
      var e := InsertRun(c, s');
      assert InsertRun(c, s) == Write(e, e.ix, [x]);
      JoinSnoc(Out(e), [x]);
    }
  }

  lemma RunSnoc(src: seq<string>, c: Cursor, r: seq<COp>, x: COp)
    requires Fits(c)
    ensures Run(src, c, r + [x]) == Step(src, Run(src, c, r), x)
  {
    assert (r + [x])[..|r|] == r;
  }

  /** Growing the open run by one operation replays as that operation after the run. */
  lemma GrowRun(src: seq<string>, cur: Cursor, a: Acc, o: Op, ys: seq<string>)
    requires Fits(cur) && o != SENTINEL_OP && a.prev == o
    requires (a.prev == DELETE_OP ==> a.nDelete >= 1) && (a.prev == KEEP_OP ==> a.nKeep >= 0)
    ensures var a' := TakeOp(a, o, ys);
      |Pending(a)| == |Pending(a')| == 1
      && Step(src, cur, Pending(a')[0])
         == ReplayOne(src, Step(src, cur, Pending(a)[0]), o, Elem(ys, a.iy + 1))
  {
    if o == INSERT_OP {
      var e := Elem(ys, a.iy + 1);
      JoinConcat(a.inserted, [e]);
      assert Join([e]) == e by { assert [e][..0] == []; }
      InsertRunConcat(cur, Join(a.inserted), e);
    }
  }

  /** A run opened by one operation replays as that operation. */
  lemma OpenRun(src: seq<string>, cur: Cursor, b: Acc, o: Op, ys: seq<string>)
    requires Fits(cur) && o != SENTINEL_OP && b.prev != o
    requires b.nDelete == 0 || o != DELETE_OP
    requires b.nKeep == 0 || o != KEEP_OP
    requires b.inserted == [] || o != INSERT_OP
    ensures var b' := TakeOp(b, o, ys);
      |Pending(b')| == 1
      && Step(src, cur, Pending(b')[0]) == ReplayOne(src, cur, o, Elem(ys, b.iy + 1))
  {
    var e := Elem(ys, b.iy + 1);
    var b' := TakeOp(b, o, ys);
    if o == KEEP_OP {
      assert Pending(b') == [Num(1)];
      assert Step(src, cur, Num(1)) == ReplayOne(src, cur, o, e) by {
        assert CopyRun(src, cur, 1) == Write(cur, cur.ix + 1, Elem(src, cur.ix + 1));
      }
    } else if o == DELETE_OP {
      assert Pending(b') == [Num(-1)];
    } else {
      assert Pending(b') == [Str(e)] by {
        assert b.inserted + [e] == [e];
        assert Join([e]) == e by { assert [e][..0] == []; }
      }
    }
  }

  /** The loop state emits, once closed, what it emitted before followed by `o`'s effect. */
  lemma AccStep(src: seq<string>, c: Cursor, a: Acc, o: Op, ys: seq<string>)
    requires Fits(c) && o != SENTINEL_OP
    requires (a.prev == DELETE_OP <==> a.nDelete != 0) && a.nDelete >= 0
    requires (a.prev == KEEP_OP <==> a.nKeep != 0) && a.nKeep >= 0
    requires a.prev != INSERT_OP ==> a.inserted == []
    ensures var b' := TakeOp(CloseRun(a, o), o, ys);
      Run(src, c, b'.res + Pending(b'))
      == ReplayOne(src, Run(src, c, a.res + Pending(a)), o, Elem(ys, a.iy + 1))
  {
    var b := CloseRun(a, o);
    var b' := TakeOp(b, o, ys);
    var e := Elem(ys, a.iy + 1);
    if a.prev == o {
      var cur := Run(src, c, a.res);
      assert b'.res + Pending(b') == a.res + [Pending(b')[0]] && a.res + Pending(a) == a.res + [Pending(a)[0]] by {
        assert b == a;
        GrowRun(src, cur, a, o, ys);
      }
      assert Run(src, c, b'.res + Pending(b')) == ReplayOne(src, Run(src, c, a.res + Pending(a)), o, e) by {
        GrowRun(src, cur, a, o, ys);
        RunSnoc(src, c, a.res, Pending(a)[0]);
        RunSnoc(src, c, a.res, Pending(b')[0]);
      }
    } else {
      ClosePending(a, o);
      var cur := Run(src, c, b.res);
      OpenRun(src, cur, b, o, ys);
      assert Run(src, c, b'.res + Pending(b')) == ReplayOne(src, cur, o, e) by {
        RunSnoc(src, c, b.res, Pending(b')[0]);
        assert b'.res + Pending(b') == b.res + [Pending(b')[0]];
      }
    }
  }

  /** Replaying `Final` of one more operation is replaying `Final` of the shorter script,
      then that operation: extending a run and opening a new one replay alike. */
  lemma FinalStep(src: seq<string>, c: Cursor, q: seq<Op>, o: Op, ys: seq<string>)
    requires Fits(c) && SENTINEL_OP !in q && o != SENTINEL_OP
    ensures SENTINEL_OP !in q + [o]
    ensures Run(src, c, Final(q + [o], ys))
         == ReplayOne(src, Run(src, c, Final(q, ys)), o, Elem(ys, Scan(q, ys).iy + 1))
  {
    ScanSnoc(q, o, ys);
    ScanTidy(q, ys);
    var a := Scan(q, ys);
    var b' := TakeOp(CloseRun(a, o), o, ys);
    AccStep(src, c, a, o, ys);
    assert Final(q + [o], ys) == b'.res + Pending(b');
    assert Final(q, ys) == a.res + Pending(a);
  }

  /** Every element is a single character, as when a text is split into an array. */
  predicate OneCharEach(ys: seq<string>)
  {
    forall i :: 0 <= i < |ys| ==> |ys[i]| == 1
  }

  /** The replay `d` has consumed `xs'` and written `ys'`: exactly, when every element of
      `ys` is one character, and up to how inserted elements are split, otherwise. */
  predicate Rebuilt(d: Cursor, xs': seq<string>, ys': seq<string>, ys: seq<string>)
  {
    Fits(d) && d.ix == |xs'| - 1 && Join(Out(d)) == Join(ys') && (OneCharEach(ys) ==> Out(d) == ys')
  }

  lemma ReplayKeep(src: seq<string>, d1: Cursor, xs': seq<string>, ys': seq<string>, ys: seq<string>)
    requires |xs'| > 0 && |ys'| > 0 && xs'[|xs'| - 1] == ys'[|ys'| - 1]
    requires |xs'| <= |src| && src[..|xs'|] == xs'
    requires Rebuilt(d1, xs'[..|xs'| - 1], ys'[..|ys'| - 1], ys)
    ensures Rebuilt(ReplayOne(src, d1, KEEP_OP, ""), xs', ys', ys)
  {
    var d := ReplayOne(src, d1, KEEP_OP, "");
    var y := ys'[|ys'| - 1];
    assert src[|xs'| - 1] == xs'[|xs'| - 1];
    assert Out(d) == Out(d1) + [y];
    assert Out(d)[..|Out(d)| - 1] == Out(d1);
    assert ys' == ys'[..|ys'| - 1] + [y];
  }

  lemma ReplayInsert(d1: Cursor, xs': seq<string>, ys': seq<string>, ys: seq<string>)
    requires |ys'| > 0 && |ys'| <= |ys| && ys[..|ys'|] == ys'
    requires Rebuilt(d1, xs', ys'[..|ys'| - 1], ys)
    ensures Rebuilt(ReplayOne([], d1, INSERT_OP, ys'[|ys'| - 1]), xs', ys', ys)
  {
    var e, ys1 := ys'[|ys'| - 1], ys'[..|ys'| - 1];
    assert ys' == ys1 + [e];
    JoinSnoc(ys1, e);
    InsertRunJoin(d1, e);
    if OneCharEach(ys) {
      assert |e| == 1 by { assert e == ys[|ys'| - 1]; }
      assert e[..0] == [] && e == [e[0]];
      assert InsertRun(d1, e) == Write(d1, d1.ix, e);
    }
  }

  lemma ReplayDelete(d1: Cursor, xs': seq<string>, ys': seq<string>, ys: seq<string>)
    requires |xs'| > 0 && Rebuilt(d1, xs'[..|xs'| - 1], ys', ys)
    ensures Rebuilt(ReplayOne([], d1, DELETE_OP, ""), xs', ys', ys)
  {
    assert Out(ReplayOne([], d1, DELETE_OP, "")) == Out(d1);
  }

  /** The element sequences an alignment had consumed before its last operation `o`. */
  function Before(o: Op, s: seq<string>, consumed: bool): seq<string>
  {
    if consumed && |s| > 0 then s[..|s| - 1] else s
  }

  /** The last operation `o` of an alignment of `xs'` with `ys'` keeps the replay rebuilt. */
  lemma ReplayLast(src: seq<string>, d1: Cursor, o: Op, xs': seq<string>, ys': seq<string>, ys: seq<string>)
    requires o != SENTINEL_OP
    requires o == KEEP_OP ==> |xs'| > 0 && |ys'| > 0 && xs'[|xs'| - 1] == ys'[|ys'| - 1]
    requires o != INSERT_OP ==> |xs'| > 0
    requires o != DELETE_OP ==> |ys'| > 0
    requires |xs'| <= |src| && src[..|xs'|] == xs' && |ys'| <= |ys| && ys[..|ys'|] == ys'
    requires Rebuilt(d1, Before(o, xs', o != INSERT_OP), Before(o, ys', o != DELETE_OP), ys)
    ensures Rebuilt(ReplayOne(src, d1, o, Elem(ys, |Before(o, ys', o != DELETE_OP)|)), xs', ys', ys)
  {
    if o == KEEP_OP {
      ReplayKeep(src, d1, xs', ys', ys);
    } else if o == DELETE_OP {
      ReplayDelete(d1, xs', ys', ys);
    } else {
      assert ys[|ys'| - 1] == ys'[|ys'| - 1];
      ReplayInsert(d1, xs', ys', ys);
    }
  }

  /** The replay of `Final` of the prefix `q` of an alignment of `xs'` with `ys'` has
      consumed all of `xs'` and written `ys'`. */
  lemma {:induction false} ReplayPrefix(src: seq<string>, buf: seq<string>, q: seq<Op>,
                                        xs': seq<string>, ys': seq<string>, ys: seq<string>)
    requires Aligns(q, xs', ys')
    requires |xs'| <= |src| && src[..|xs'|] == xs' && |ys'| <= |ys| && ys[..|ys'|] == ys'
    ensures SENTINEL_OP !in q
    ensures Rebuilt(Run(src, Cursor(buf, -1, -1), Final(q, ys)), xs', ys', ys)
    decreases |q|
  {
    AlignsNoSentinel(q, xs', ys');
    var c := Cursor(buf, -1, -1);
    if q == [] {
      assert Final(q, ys) == [] && Out(c) == [] == ys';
    } else {
      var q', o := q[..|q| - 1], q[|q| - 1];
      assert q == q' + [o];
      var xs1 := Before(o, xs', o != INSERT_OP);
      var ys1 := Before(o, ys', o != DELETE_OP);
      assert Aligns(q', xs1, ys1);
      assert src[..|xs1|] == xs1 && ys[..|ys1|] == ys1;
      ReplayPrefix(src, buf, q', xs1, ys1, ys);
      var d1 := Run(src, c, Final(q', ys));
      assert Run(src, c, Final(q, ys)) == ReplayOne(src, d1, o, Elem(ys, |ys1|)) by {
        FinalStep(src, c, q', o, ys);
        ScanCursor(q', ys);
        AlignsCounts(q', xs1, ys1);
      }
      ReplayLast(src, d1, o, xs', ys', ys);
    }
  }

  /** Applying the compression of a complete alignment of `xs` with `ys` to `xs` rebuilds
      `ys`: all of `xs` is consumed, the written text is `Join(ys)`, and when every element
      of `ys` is a single character the written elements are `ys` itself. `src` is the
      array being read; elements past `|xs|` are never consulted. */
  lemma CompressApplyRoundTrip(ops: seq<Op>, xs: seq<string>, ys: seq<string>,
                               src: seq<string>, buf: seq<string>)
    requires SENTINEL_OP in ops && Aligns(Prefix(ops), xs, ys)
    requires |xs| <= |src| && src[..|xs|] == xs
    ensures var d := Run(src, Cursor(buf, -1, -1), Compressed(ops, ys));
      d.ix == |xs| - 1 && Join(Out(d)) == Join(ys) && (OneCharEach(ys) ==> Out(d) == ys)
  {
    assert ys[..|ys|] == ys;
    CompressedFinal(ops, ys);
    ReplayPrefix(src, buf, Prefix(ops), xs, ys, ys);
  }
}
