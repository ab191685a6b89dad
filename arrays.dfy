/** In-place helpers on arrays. */
module Arrays {

  /** Sets a[lo..hi] to v and leaves every other element as it was. */
  method Fill<T>(a: array<T>, v: T, lo: int, hi: int)
    requires 0 <= lo <= hi <= a.Length
    modifies a
    ensures forall j :: lo <= j < hi ==> a[j] == v
    ensures forall j :: 0 <= j < a.Length && !(lo <= j < hi) ==> a[j] == old(a[j])
  {
    var j := lo;
    while j < hi
      invariant lo <= j <= hi
      invariant forall j' :: lo <= j' < j ==> a[j'] == v
      invariant forall j' :: 0 <= j' < a.Length && !(lo <= j' < j) ==> a[j'] == old(a[j'])
    {
      a[j] := v;
      j := j + 1;
    }
  }
}
