/**
  The few `str` operations of Rust's standard library the emulator leans on:
  `split_once` with a character or a string pattern, `split` on a character,
  and the matching `join`.
*/
module Text {
  import opened Wrappers

  /** `pat` occurs in `s` starting at position `i`. */
  predicate OccursAt(s: string, pat: string, i: nat) {
    i + |pat| <= |s| && s[i..i + |pat|] == pat
  }

  /** `str::split_once(sep)` for a character separator: the text before and
      after the FIRST occurrence of `sep`, or nothing when `sep` is absent. */
  function SplitOnce(s: string, sep: char): (r: Option<(string, string)>)
    ensures r.None? <==> sep !in s
    ensures r.Some? ==> s == r.value.0 + [sep] + r.value.1 && sep !in r.value.0
  {
    if |s| == 0 then None
    else if s[0] == sep then Some(([], s[1..]))
    else
      match SplitOnce(s[1..], sep)
      case None => None
      case Some((a, b)) => assert s == [s[0]] + s[1..]; Some(([s[0]] + a, b))
  }

  /** A separator-free head determines the split: this is why `split_once`
      is the inverse of gluing `a + [sep] + b` together. */
  lemma {:induction false} SplitOnceOfJoin(a: string, sep: char, b: string)
    requires sep !in a
    ensures SplitOnce(a + [sep] + b, sep) == Some((a, b))
  {
    if |a| == 0 {
      assert a + [sep] + b == [sep] + b;
    } else {
      var s := a + [sep] + b;
      assert s[0] == a[0] && a[0] != sep;
      assert s[1..] == a[1..] + [sep] + b;
      SplitOnceOfJoin(a[1..], sep, b);
      assert a == [a[0]] + a[1..];
    }
  }

  lemma OccursAtShift(s: string, pat: string, i: nat)
    requires |s| > 0
    ensures OccursAt(s, pat, i + 1) <==> OccursAt(s[1..], pat, i)
  {
    if i + 1 + |pat| <= |s| {
      assert s[i + 1..i + 1 + |pat|] == s[1..][i..i + |pat|];
    }
  }

  /** No occurrence at 0 and none in the tail up to `n - 1`: none up to `n` in `s`. */
  lemma NoOccurrenceShift(s: string, pat: string, n: nat)
    requires 0 < |s| && n <= |s|
    requires !OccursAt(s, pat, 0)
    requires forall i :: 0 <= i < n ==> !OccursAt(s[1..], pat, i)
    ensures forall i :: 0 <= i <= n ==> !OccursAt(s, pat, i)
  {
    forall i | 0 < i <= n ensures !OccursAt(s, pat, i) {
      OccursAtShift(s, pat, i - 1);
    }
  }

  lemma ConsSplit(s: string, a: string, pat: string, b: string)
    requires 0 < |s| && s[1..] == a + pat + b
    requires OccursAt(s[1..], pat, |a|)
    ensures s == [s[0]] + a + pat + b
    ensures OccursAt(s, pat, |a| + 1)
  {
    assert s == [s[0]] + s[1..];
    OccursAtShift(s, pat, |a|);
  }

  /** `str::split_once(pat)` for a string pattern: splits around the LEFTMOST
      occurrence of `pat`. */
  function SplitOnceStr(s: string, pat: string): (r: Option<(string, string)>)
    ensures r.Some? ==> s == r.value.0 + pat + r.value.1
    ensures r.Some? ==> OccursAt(s, pat, |r.value.0|)
    ensures r.Some? ==> forall i :: 0 <= i < |r.value.0| ==> !OccursAt(s, pat, i)
    ensures r.None? ==> forall i :: 0 <= i <= |s| ==> !OccursAt(s, pat, i)
    decreases |s|
  {
    if |s| < |pat| then None
    else if s[..|pat|] == pat then
      assert s == [] + pat + s[|pat|..];
      Some(([], s[|pat|..]))
    else
      var rest := SplitOnceStr(s[1..], pat);
      assert !OccursAt(s, pat, 0);
      match rest
      case None =>
        NoOccurrenceShift(s, pat, |s|);
        None
      case Some((a, b)) =>
        ConsSplit(s, a, pat, b);
        NoOccurrenceShift(s, pat, |a|);
        Some(([s[0]] + a, b))
  }

  /** The pieces joined back with `sep` between neighbours (`[..].join(sep)`). */
  function JoinWith(parts: seq<string>, sep: char): string {
    if |parts| == 0 then []
    else if |parts| == 1 then parts[0]
    else parts[0] + [sep] + JoinWith(parts[1..], sep)
  }

  /** `str::split(sep)`: every maximal separator-free piece, in order; even
      the empty text yields one (empty) piece. */
  function Split(s: string, sep: char): (r: seq<string>)
    ensures |r| >= 1
    ensures forall k :: 0 <= k < |r| ==> sep !in r[k]
    ensures JoinWith(r, sep) == s
    decreases |s|
  {
    match SplitOnce(s, sep)
    case None => [s]
    case Some((a, b)) =>
      var rest := Split(b, sep);
      assert ([a] + rest)[1..] == rest;
      [a] + rest
  }

  /** `split` undoes `join` whenever no piece contains the separator. */
  lemma {:induction false} SplitOfJoin(parts: seq<string>, sep: char)
    requires |parts| >= 1
    requires forall k :: 0 <= k < |parts| ==> sep !in parts[k]
    ensures Split(JoinWith(parts, sep), sep) == parts
  {
    if |parts| == 1 {
      assert SplitOnce(parts[0], sep).None?;
    } else {
      SplitOnceOfJoin(parts[0], sep, JoinWith(parts[1..], sep));
      SplitOfJoin(parts[1..], sep);
      assert parts == [parts[0]] + parts[1..];
    }
  }
}
