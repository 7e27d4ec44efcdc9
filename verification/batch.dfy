/**
  Processing a batch item by item and concatenating the outputs in item
  order, the first failing item failing the whole batch: the shape shared
  by the Splitting arm (one split per message) and by ingestion (one
  message list per input file).
*/
module Batch {
  import opened Wrappers
  import Seqs

  /** The outputs of `f` on every item, concatenated in item order; the
      first failure stops the batch. */
  function ConcatMap<T, U>(xs: seq<T>, f: T -> Result<seq<U>>): (r: Result<seq<U>>)
    ensures r.Ok? <==> forall k :: 0 <= k < |xs| ==> f(xs[k]).Ok?
    ensures |xs| > 0 && f(xs[0]).Err? ==> r == Err(f(xs[0]).fault)
    ensures r.Ok? && |xs| > 0 ==>
      |f(xs[0]).value| <= |r.value| && r.value[..|f(xs[0]).value|] == f(xs[0]).value
    ensures r.Ok? ==> forall i :: 0 <= i < |r.value| ==>
      exists k :: 0 <= k < |xs| && f(xs[k]).Ok? && r.value[i] in f(xs[k]).value
  {
    if |xs| == 0 then Ok([])
    else
      assert forall k :: 1 <= k < |xs| ==> xs[1..][k - 1] == xs[k];
      match f(xs[0])
      case Err(e) => Err(e)
      case Ok(head) =>
        match ConcatMap(xs[1..], f)
        case Err(e) => Err(e)
        case Ok(tail) =>
          var r := head + tail;
          assert r[..|head|] == head;
          assert forall i :: |head| <= i < |r| ==> r[i] == tail[i - |head|];
          Ok(r)
  }

  /** A failing batch fails with the fault of its first failing item. */
  lemma {:induction false} FirstFailure<T, U>(xs: seq<T>, f: T -> Result<seq<U>>)
    requires ConcatMap(xs, f).Err?
    ensures exists k ::
      && 0 <= k < |xs| && f(xs[k]).Err?
      && ConcatMap(xs, f).fault == f(xs[k]).fault
      && (forall j :: 0 <= j < k ==> f(xs[j]).Ok?)
  {
    if f(xs[0]).Ok? {
      var rest := xs[1..];
      FirstFailure(rest, f);
      var k :|
        && 0 <= k < |rest| && f(rest[k]).Err?
        && ConcatMap(rest, f).fault == f(rest[k]).fault
        && (forall j :: 0 <= j < k ==> f(rest[j]).Ok?);
      assert rest[k] == xs[k + 1];
      forall j | 0 <= j < k + 1 ensures f(xs[j]).Ok? {
        if j > 0 {
          assert xs[j] == rest[j - 1];
        }
      }
    }
  }

  /** The batch of two concatenated parts is the parts' outputs concatenated. */
  lemma {:induction false} Append<T, U>(a: seq<T>, b: seq<T>, f: T -> Result<seq<U>>)
    requires ConcatMap(a, f).Ok? && ConcatMap(b, f).Ok?
    ensures ConcatMap(a + b, f) == Ok(ConcatMap(a, f).value + ConcatMap(b, f).value)
  {
    if |a| == 0 {
      assert a + b == b;
      Seqs.EmptyLeft(ConcatMap(b, f).value);
    } else {
      Seqs.AppendParts(a, b);
      Append(a[1..], b, f);
      var h := f(a[0]).value;
      var ta, tb := ConcatMap(a[1..], f).value, ConcatMap(b, f).value;
      assert ConcatMap(a, f) == Ok(h + ta);
      assert ConcatMap(a + b, f) == Ok(h + (ta + tb));
      Seqs.ConcatAssoc(h, ta, tb);
    }
  }

  /** A one-item batch is that item's output. */
  lemma Single<T, U>(x: T, f: T -> Result<seq<U>>)
    ensures ConcatMap([x], f) == f(x)
  {
    assert [x][1..] == [];
    if f(x).Ok? {
      assert f(x).value + [] == f(x).value;
    }
  }
}
