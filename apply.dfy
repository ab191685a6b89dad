/** Replaying a compressed edit script on an array of strings (`ApplyCompressedOpsForString`). */
module Apply {
  import opened Compress

  /** The replay position: `buf` is the array being written, `ix` the last source index
      consumed and `iy` the last index written. */
  datatype Cursor = Cursor(buf: seq<string>, ix: int, iy: int)

  /** The next write lands inside `buf` or right after its end. */
  predicate Fits(c: Cursor) { -1 <= c.iy < |c.buf| }

  /** What the replay has written so far. */
  function Out(c: Cursor): seq<string>
    requires Fits(c)
  {
    c.buf[..c.iy + 1]
  }

  /** `buf[j] = v` on a JavaScript array, where `j` is at most one past the end. */
  function Put(buf: seq<string>, j: int, v: string): (r: seq<string>)
    requires 0 <= j <= |buf|
    ensures |r| == if j < |buf| then |buf| else |buf| + 1
    ensures r[..j + 1] == buf[..j] + [v]
  {
    if j < |buf| then buf[j := v] else buf + [v]
  }

  /** Writes `v` at the next position: the written part grows by exactly `v`. */
  function Write(c: Cursor, ix: int, v: string): (d: Cursor)
    requires Fits(c)
    ensures Fits(d) && d.ix == ix && d.iy == c.iy + 1 && Out(d) == Out(c) + [v]
  {
    Cursor(Put(c.buf, c.iy + 1, v), ix, c.iy + 1)
  }

  /** Copies the next `n` source elements. */
  function CopyRun(src: seq<string>, c: Cursor, n: nat): (d: Cursor)
    requires Fits(c)
    ensures Fits(d) && d.ix == c.ix + n && d.iy == c.iy + n
  {
    if n == 0 then c
    else
      var e := CopyRun(src, c, n - 1);
      Write(e, e.ix + 1, Elem(src, e.ix + 1))
  }

  /** Writes each character of `s` as an element of its own. */
  function InsertRun(c: Cursor, s: string): (d: Cursor)
    requires Fits(c)
    ensures Fits(d) && d.ix == c.ix && d.iy == c.iy + |s|
  {
    if s == [] then c
    else
      var e := InsertRun(c, s[..|s| - 1]);
      Write(e, e.ix, [s[|s| - 1]])
  }

  /** One compressed operation. */
  function Step(src: seq<string>, c: Cursor, op: COp): (d: Cursor)
    requires Fits(c)
    ensures Fits(d)
  {
    match op
    case Num(n) => if n < 0 then c.(ix := c.ix - n) else CopyRun(src, c, n)
    case Str(s) => InsertRun(c, s)
  }

  /** A whole compressed script, from the left. */
  function Run(src: seq<string>, c: Cursor, ops: seq<COp>): (d: Cursor)
    requires Fits(c)
    ensures Fits(d)
  {
    if ops == [] then c else Step(src, Run(src, c, ops[..|ops| - 1]), ops[|ops| - 1])
  }

  /** `ApplyCompressedOpsForString`: `xs[..nXs]` is the current text, `ys` the array the
      next `Apply` writes into before the two are exchanged. */
  class ApplyCompressedOpsForString {
    var nXs: nat
    var xs: seq<string>
    var ys: seq<string>

    ghost predicate Valid()
      reads this
    {
      nXs <= |xs|
    }

    constructor(xs0: seq<string>)
      ensures Valid() && nXs == |xs0| && xs == xs0 && ys == []
    {
      nXs := |xs0|;
      xs := xs0;
      ys := [];
    }

    /** The current text: the first `nXs` elements joined (a JavaScript slice clamps at the end). */
    function Get(): string
      reads this
    {
      Join(if nXs <= |xs| then xs[..nXs] else xs)
    }

    /** Copies a run of `n` elements of `xs` into `ys`. */
    method CopyInto(ix0: int, iy0: int, n: nat) returns (ix: int, iy: int)
      requires -1 <= iy0 < |ys|
      modifies this
      ensures xs == old(xs) && nXs == old(nXs)
      ensures var d := CopyRun(xs, Cursor(old(ys), ix0, iy0), n);
        ys == d.buf && ix == d.ix && iy == d.iy
    {
      ix, iy := ix0, iy0;
      for i := 0 to n
        invariant xs == old(xs) && nXs == old(nXs)
        invariant Cursor(ys, ix, iy) == CopyRun(xs, Cursor(old(ys), ix0, iy0), i)
      {
        iy := iy + 1;
        ix := ix + 1;
        ys := Put(ys, iy, Elem(xs, ix));
      }
    }

    /** Writes the characters of `s` into `ys`, one element each. */
    method InsertInto(ix: int, iy0: int, s: string) returns (iy: int)
      requires -1 <= iy0 < |ys|
      modifies this
      ensures xs == old(xs) && nXs == old(nXs)
      ensures var d := InsertRun(Cursor(old(ys), ix, iy0), s);
        ys == d.buf && iy == d.iy
    {
      iy := iy0;
      for j := 0 to |s|
        invariant xs == old(xs) && nXs == old(nXs)
        invariant Cursor(ys, ix, iy) == InsertRun(Cursor(old(ys), ix, iy0), s[..j])
      {
        assert s[..j + 1][..j] == s[..j];
        iy := iy + 1;
        ys := Put(ys, iy, [s[j]]);
      }
      assert s[..|s|] == s;
    }

    /** `apply`: replays `ops` from `xs` into `ys`, then makes the result the current text. */
    method Apply(ops: seq<COp>) returns (r: ApplyCompressedOpsForString)
      modifies this
      ensures r == this && Valid()
      ensures var d := Run(old(xs), Cursor(old(ys), -1, -1), ops);
        xs == d.buf && ys == old(xs) && nXs == d.iy + 1
    {
      var ix := -1;
      var iy := -1;
      for i := 0 to |ops|
        invariant xs == old(xs)
        invariant Cursor(ys, ix, iy) == Run(old(xs), Cursor(old(ys), -1, -1), ops[..i])
      {
        assert ops[..i + 1][..i] == ops[..i];
        match ops[i]
        case Num(n) =>
          if n < 0 {
            ix := ix - n;
          } else {
            ix, iy := CopyInto(ix, iy, n);
          }
        case Str(s) =>
          iy := InsertInto(ix, iy, s);
      }
      assert ops[..|ops|] == ops;
      xs, ys := ys, xs;
      nXs := iy + 1;
      r := this;
    }
  }
}
