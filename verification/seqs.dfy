/** Small facts about sequence concatenation, proved once in a context free
    of the model's own definitions. */
module Seqs {
  lemma AppendParts<T>(a: seq<T>, b: seq<T>)
    requires |a| > 0
    ensures (a + b)[0] == a[0] && (a + b)[1..] == a[1..] + b
  {
  }

  lemma ConcatAssoc<T>(x: seq<T>, y: seq<T>, z: seq<T>)
    ensures x + (y + z) == (x + y) + z
  {
  }

  lemma EmptyLeft<T>(x: seq<T>)
    ensures [] + x == x
  {
  }

  lemma SliceAfter<T>(head: seq<T>, tail: seq<T>, lo: nat, hi: nat)
    requires lo <= hi <= |tail|
    ensures (head + tail)[|head| + lo..|head| + hi] == tail[lo..hi]
    ensures (head + tail)[..|head|] == head
  {
  }

  /** A slice of `tail` reappears, shifted by `|head|`, in `head + tail`. */
  lemma ShiftSlice<T>(whole: seq<T>, head: seq<T>, tail: seq<T>, off: nat, lo: nat, size: nat)
    requires whole == head + tail && off == |head| + lo && lo + size <= |tail|
    ensures off + size <= |whole|
    ensures whole[off..off + size] == tail[lo..lo + size]
  {
    SliceAfter(head, tail, lo, lo + size);
  }

  lemma ConsIndex<T>(x: T, s: seq<T>, k: nat)
    requires 1 <= k <= |s|
    ensures ([x] + s)[k] == s[k - 1]
  {
  }

  lemma SuffixSlices<T>(s: seq<T>, a: nat, n: nat)
    requires a + n <= |s|
    ensures s[a..][..n] == s[a..a + n]
    ensures s[a..][n..] == s[a + n..]
  {
  }
}
