/** A chain of text revisions carried by compressed diffs: each text is split into
    one-character elements, diffed against the previous one, compressed, and replayed
    on the object that holds the previous text. */
module Revisions {
  import opened Ops
  import opened Compress
  import opened Apply
  import opened RoundTrip
  import opened Diff

  /** A text as an array of one-character strings, as `Array.from` splits it. */
  function Chars(t: string): (r: seq<string>)
    ensures |r| == |t| && OneCharEach(r)
    ensures forall i :: 0 <= i < |t| ==> r[i] == [t[i]]
  {
    seq(|t|, i requires 0 <= i < |t| => [t[i]])
  }

  lemma {:induction false} JoinChars(t: string)
    ensures Join(Chars(t)) == t
    decreases |t|
  {
    if t != [] {
      var t', x := t[..|t| - 1], t[|t| - 1];
      assert t == t' + [x];
      assert Chars(t) == Chars(t') + [[x]];
      JoinChars(t');
      JoinSnoc(Chars(t'), [x]);
    }
  }

  /** One revision: diff, compress, replay. The object then holds `next`. */
  method Revise(applier: ApplyCompressedOpsForString, prev: string, next: string)
    requires applier.Valid() && applier.xs[..applier.nXs] == Chars(prev)
    modifies applier
    ensures applier.Valid() && applier.xs[..applier.nXs] == Chars(next)
    ensures applier.Get() == next
  {
    var xs, ys := Chars(prev), Chars(next);
    var ops := DiffWu(xs, ys);
    assert ops[ops.Length - 1] in ops[..];
    var cops := CompressOpsForString(ops[..], ys);
    ghost var src, buf := applier.xs, applier.ys;
    assert |xs| == applier.nXs <= |src| && src[..|xs|] == xs;
    CompressApplyRoundTrip(ops[..], xs, ys, src, buf);
    ghost var d := Run(src, Cursor(buf, -1, -1), cops);
    assert Out(d) == ys;
    var _ := applier.Apply(cops);
    assert applier.xs == d.buf && applier.nXs == d.iy + 1;
    assert applier.xs[..applier.nXs] == ys;
    JoinChars(next);
  }

  /** Replays every revision after the first on one `ApplyCompressedOpsForString`: each
      step applies `compressOpsForString(diffWu(previous, next), next)`, and the text the
      object holds afterwards is read back. Every text read back is the revision itself. */
  method ReplayRevisions(texts: seq<string>) returns (seen: seq<string>)
    requires |texts| > 0
    ensures seen == texts
  {
    var applier := new ApplyCompressedOpsForString(Chars(texts[0]));
    assert applier.xs[..applier.nXs] == Chars(texts[0]);
    JoinChars(texts[0]);
    seen := [applier.Get()];
    for i := 1 to |texts|
      invariant applier.Valid() && applier.xs[..applier.nXs] == Chars(texts[i - 1])
      invariant seen == texts[..i]
    {
      Revise(applier, texts[i - 1], texts[i]);
      assert texts[..i + 1] == texts[..i] + [texts[i]];
      seen := seen + [applier.Get()];
    }
  }
}
