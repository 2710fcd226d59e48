/** Facts about sequences: regrouping, and the index tables of the byte-to-char maps. */
module Sequences {
  /** Concatenation can be regrouped. */
  lemma ConcatAssociative<T>(a: seq<T>, b: seq<T>, c: seq<T>)
    ensures (a + b) + c == a + (b + c)
  {
  }

  /** Dropping a prefix leaves what followed it. */
  lemma DropPrefix<T>(a: seq<T>, rest: seq<T>)
    ensures (a + rest)[|a|..] == rest
  {
  }

  /** A suffix is its first part followed by the rest. */
  lemma SliceSplit<T>(s: seq<T>, i: nat, j: nat)
    requires i <= j <= |s|
    ensures s[i..j] + s[j..] == s[i..]
  {
  }

  /** The values never decrease along the sequence. */
  ghost predicate Ascending(ci: seq<int>) {
    forall a, b :: 0 <= a < b < |ci| ==> ci[a] <= ci[b]
  }

  /** Every value lies in `[lo, hi)`. */
  ghost predicate IndexesWithin(ci: seq<int>, lo: int, hi: int) {
    forall k :: 0 <= k < |ci| ==> lo <= ci[k] < hi
  }

  /** Joining an ascending run below `mid` to one from `mid` on stays ascending. */
  lemma AppendAscending(a: seq<int>, b: seq<int>, lo: int, mid: int, hi: int)
    requires lo <= mid <= hi
    requires IndexesWithin(a, lo, mid) && Ascending(a)
    requires IndexesWithin(b, mid, hi) && Ascending(b)
    ensures IndexesWithin(a + b, lo, hi) && Ascending(a + b)
  {
    var ab := a + b;
    forall k | 0 <= k < |ab|
      ensures lo <= ab[k] < hi
    {
      if k < |a| {
        assert ab[k] == a[k];
      } else {
        assert ab[k] == b[k - |a|];
      }
    }
    forall x, y | 0 <= x < y < |ab|
      ensures ab[x] <= ab[y]
    {
      if y < |a| {
      } else if x < |a| {
        assert ab[x] == a[x] && ab[y] == b[y - |a|];
      } else {
        assert ab[x] == b[x - |a|] && ab[y] == b[y - |a|];
      }
    }
  }
}
