/** batchVerify: the first item that does not verify. */
module BatchVerify {

  /** `r` is the least index whose item fails, or -1 when none does. */
  ghost predicate FirstFailure<T>(verify: T -> bool, items: seq<T>, r: int) {
    && -1 <= r < |items|
    && (forall i :: 0 <= i < (if r < 0 then |items| else r) ==> verify(items[i]))
    && (r >= 0 ==> !verify(items[r]))
  }

  method Verify<T>(verify: T -> bool, items: seq<T>) returns (r: int)
    ensures FirstFailure(verify, items, r)
    ensures r == -1 <==> forall i :: 0 <= i < |items| ==> verify(items[i])
    ensures r != -1 ==> 0 <= r < |items| && !verify(items[r]) && forall i :: 0 <= i < r ==> verify(items[i])
  {
    for i := 0 to |items|
      invariant forall j :: 0 <= j < i ==> verify(items[j])
    {
      if !verify(items[i]) {
        return i;
      }
    }
    r := -1;
  }

  /** Over a longer batch: the first part decides if it fails, else the second does, shifted. */
  lemma Append<T>(verify: T -> bool, xs: seq<T>, ys: seq<T>, r: int, s: int, t: int)
    requires FirstFailure(verify, xs, r) && FirstFailure(verify, ys, s)
    requires FirstFailure(verify, xs + ys, t)
    ensures t == if r >= 0 then r else if s >= 0 then |xs| + s else -1
  {
    Unique(verify, xs + ys, t, if r >= 0 then r else if s >= 0 then |xs| + s else -1);
  }

  lemma Unique<T>(verify: T -> bool, items: seq<T>, r: int, s: int)
    requires FirstFailure(verify, items, r) && FirstFailure(verify, items, s)
    ensures r == s
  {
  }
}
