/**
  The Splitting stage: one message becomes one message per element of the
  array found at the stage's `arrayPath`.

  A path whose first segment is "billingmediation" is resolved in the
  mediation map (`split_billingmediation`); any other path is resolved in
  the payload text (`split_payload`, by the byte splice `json_split`).

  The JSON parser that finds the array inside the payload text is a
  parameter (`Locator`): it reports where the array's raw text starts, how
  long it is (brackets included) and the compact serialization of each
  element.
*/
module Splitting {
  import opened Wrappers
  import opened JsonValue
  import opened Envelope
  import Seqs
  import Batch

  // -----------------------------------------------------------------------
  // The byte splice

  /** What the parser reports about the array at a path of the payload text. */
  datatype ArraySpan = ArraySpan(offset: nat, rawLen: nat, elems: seq<Payload>)

  /** Finds the array at a path of a payload; nothing when the parser finds
      no array there. */
  type Locator = (Payload, seq<string>) -> Option<ArraySpan>

  /** The ways a split can fail. */
  predicate SplitFault(f: Fault) {
    f == IndexOutOfRange || f == BadArrayPath || f == NotAnArray || f == PathNotFound || f == SpliceOverflow
  }

  /** The raw array text lies inside the payload and holds at least its brackets. */
  predicate ValidSpan(json: Payload, sp: ArraySpan) {
    sp.rawLen >= 2 && sp.offset + sp.rawLen <= |json|
  }

  const Space: byte := 32

  /** The array interior (between the brackets) starts here ... */
  function InteriorStart(sp: ArraySpan): nat {
    sp.offset + 1
  }

  /** ... and is this long. */
  function InteriorLen(sp: ArraySpan): nat
    requires sp.rawLen >= 2
  {
    sp.rawLen - 2
  }

  function Spaces(n: nat): (r: Payload)
    ensures |r| == n
    ensures forall i :: 0 <= i < n ==> r[i] == Space
  {
    seq(n, _ => Space)
  }

  /** The payload with the array interior overwritten by `e`, padded with
      spaces: same length, same bytes everywhere outside the interior. */
  function Splice(json: Payload, sp: ArraySpan, e: Payload): (r: Payload)
    requires ValidSpan(json, sp)
    requires |e| <= InteriorLen(sp)
    ensures |r| == |json|
    ensures forall i :: 0 <= i < |json| ==> (r[i] ==
      if InteriorStart(sp) <= i < InteriorStart(sp) + |e| then e[i - InteriorStart(sp)]
      else if InteriorStart(sp) + |e| <= i < InteriorStart(sp) + InteriorLen(sp) then Space
      else json[i])
  {
    var s, n := InteriorStart(sp), InteriorLen(sp);
    json[..s] + e + Spaces(n - |e|) + json[s + n..]
  }

  /** Every element fits in the interior of the array it came from. */
  predicate AllFit(sp: ArraySpan)
    requires sp.rawLen >= 2
  {
    forall j :: 0 <= j < |sp.elems| ==> |sp.elems[j]| <= InteriorLen(sp)
  }

  /** `json_split`: no payload for an empty array, the payload itself for a
      one-element array, and otherwise one spliced copy per element, in
      order; an element longer than the interior makes `split_at_mut` fail. */
  function JsonSplit(json: Payload, sp: ArraySpan): (r: Result<seq<Payload>>)
    requires ValidSpan(json, sp)
    ensures |sp.elems| == 0 ==> r == Ok([])
    ensures |sp.elems| == 1 ==> r == Ok([json])
    ensures |sp.elems| > 1 ==> (r.Ok? <==> AllFit(sp))
    ensures r.Err? ==> r.fault == SpliceOverflow
    ensures r.Ok? ==> |r.value| == |sp.elems|
    ensures r.Ok? ==> forall i :: 0 <= i < |r.value| ==> |r.value[i]| == |json|
    ensures r.Ok? ==> forall i, b ::
      (0 <= i < |r.value| && 0 <= b < |json| && !(InteriorStart(sp) <= b < InteriorStart(sp) + InteriorLen(sp)))
      ==> r.value[i][b] == json[b]
    ensures r.Ok? && |sp.elems| > 1 ==> forall i :: 0 <= i < |r.value| ==>
      r.value[i][InteriorStart(sp)..InteriorStart(sp) + InteriorLen(sp)]
        == sp.elems[i] + Spaces(InteriorLen(sp) - |sp.elems[i]|)
  {
    var elems := sp.elems;
    if |elems| == 0 then Ok([])
    else if |elems| == 1 then Ok([json])
    else if !AllFit(sp) then Err(SpliceOverflow)
    else
      var r := seq(|elems|, i requires 0 <= i < |elems| => Splice(json, sp, elems[i]));
      assert forall i :: 0 <= i < |r| ==>
        r[i][InteriorStart(sp)..InteriorStart(sp) + InteriorLen(sp)]
          == elems[i] + Spaces(InteriorLen(sp) - |elems[i]|) by {
        forall i | 0 <= i < |r|
          ensures r[i][InteriorStart(sp)..InteriorStart(sp) + InteriorLen(sp)]
               == elems[i] + Spaces(InteriorLen(sp) - |elems[i]|)
        {
          SpliceInterior(json, sp, elems[i]);
        }
      }
      Ok(r)
  }

  /** The interior of a splice is the element followed by spaces. */
  lemma SpliceInterior(json: Payload, sp: ArraySpan, e: Payload)
    requires ValidSpan(json, sp)
    requires |e| <= InteriorLen(sp)
    ensures Splice(json, sp, e)[InteriorStart(sp)..InteriorStart(sp) + InteriorLen(sp)]
         == e + Spaces(InteriorLen(sp) - |e|)
  {
    var s, n := InteriorStart(sp), InteriorLen(sp);
    var pad := Spaces(n - |e|);
    assert Splice(json, sp, e) == json[..s] + e + pad + json[s + n..];
    assert (json[..s] + e + pad + json[s + n..])[s..s + n] == e + pad;
  }

  /** The splice as the code performs it: one mutable copy of the payload,
      for each element the interior overwritten byte by byte and the rest of
      it filled with spaces, and a snapshot of the copy taken per element. */
  method JsonSplitInPlace(json: Payload, sp: ArraySpan) returns (r: Result<seq<Payload>>)
    requires ValidSpan(json, sp)
    ensures r == JsonSplit(json, sp)
  {
    var n := |sp.elems|;
    if n == 0 {
      return Ok([]);
    }
    if n == 1 {
      return Ok([json]);
    }
    var local := new byte[|json|](i requires 0 <= i < |json| => json[i]);
    var start, len := InteriorStart(sp), InteriorLen(sp);
    var ret: seq<Payload> := [];
    var k := 0;
    while k < n
      invariant 0 <= k <= n
      invariant local.Length == |json|
      invariant |ret| == k
      invariant forall j :: 0 <= j < k ==> |sp.elems[j]| <= len && ret[j] == Splice(json, sp, sp.elems[j])
      invariant forall b :: 0 <= b < |json| && !(start <= b < start + len) ==> local[b] == json[b]
    {
      var e := sp.elems[k];
      if |e| > len {
        return Err(SpliceOverflow);
      }
      var i := 0;
      while i < |e|
        invariant 0 <= i <= |e|
        invariant forall b :: start <= b < start + i ==> local[b] == e[b - start]
        invariant forall b :: 0 <= b < |json| && !(start <= b < start + len) ==> local[b] == json[b]
      {
        local[start + i] := e[i];
        i := i + 1;
      }
      var j := |e|;
      while j < len
        invariant |e| <= j <= len
        invariant forall b :: start <= b < start + |e| ==> local[b] == e[b - start]
        invariant forall b :: start + |e| <= b < start + j ==> local[b] == Space
        invariant forall b :: 0 <= b < |json| && !(start <= b < start + len) ==> local[b] == json[b]
      {
        local[start + j] := Space;
        j := j + 1;
      }
      var spliced := Splice(json, sp, e);
      assert local[..] == spliced;
      ret := ret + [local[..]];
      k := k + 1;
    }
    assert AllFit(sp);
    assert ret == seq(n, i requires 0 <= i < n => Splice(json, sp, sp.elems[i]));
    return Ok(ret);
  }

  // -----------------------------------------------------------------------
  // Splitting a message

  /** `split_payload`: one message per payload `json_split` returns, each
      with the original mediation map and date. Both panics of `json_split`
      (nothing at the path, and no array there) are `PathNotFound`, because
      the `Locator` answers `None` for either. */
  function SplitPayload(payload: Payload, path: seq<string>, bm: Object, date: string, locate: Locator)
    : (r: Result<seq<Message>>)
    ensures r.Ok? ==> forall i :: 0 <= i < |r.value| ==>
      r.value[i].inner.billingmediation == bm && r.value[i].date == date
    ensures r.Err? ==> r.fault == PathNotFound || r.fault == SpliceOverflow
    ensures r.Ok? ==> (locate(payload, path).Some? && ValidSpan(payload, locate(payload, path).value)
                       && |r.value| == |locate(payload, path).value.elems|)
    ensures r.Ok? && |r.value| == 1 ==> r.value[0] == Message(MessageInner(bm, payload), date)
    ensures r.Ok? <==> (locate(payload, path).Some? && ValidSpan(payload, locate(payload, path).value)
                        && JsonSplit(payload, locate(payload, path).value).Ok?)
    ensures r.Ok? ==> forall i :: 0 <= i < |r.value| ==>
      r.value[i].inner.payload == JsonSplit(payload, locate(payload, path).value).value[i]
  {
    match locate(payload, path)
    case None => Err(PathNotFound)
    case Some(sp) =>
      if !ValidSpan(payload, sp) then Err(PathNotFound)
      else
        var ps :- JsonSplit(payload, sp);
        Ok(seq(|ps|, i requires 0 <= i < |ps| => Message(MessageInner(bm, ps[i]), date)))
  }

  /** The path `split_billingmediation` READS the array from: the first
      segment, then the whole path again, first segment included. */
  function ReadPath(path: seq<string>): seq<string>
    requires |path| >= 1
  {
    [path[0]] + path
  }

  /** `split_billingmediation`, as written: it reads the array at
      `bm[p0][p0][p1]..` but writes each one-element array back at
      `bm[p0][p1]..`. Fails on an empty path, a missing member, a target that
      is not an array, or (for a non-empty array) a missing write place. */
  function SplitBillingMediation(bm: Object, path: seq<string>, payload: Payload, date: string)
    : (r: Result<seq<Message>>)
    ensures |path| == 0 ==> r == Err(IndexOutOfRange)
    ensures r.Err? ==> SplitFault(r.fault)
    ensures |path| >= 1 ==>
      (r.Ok? <==> At(JObj(bm), ReadPath(path)).Some? && At(JObj(bm), ReadPath(path)).value.JArr?
                  && (|At(JObj(bm), ReadPath(path)).value.items| > 0 ==> At(JObj(bm), path).Some?))
    ensures r.Ok? ==> |path| >= 1 && |r.value| == |At(JObj(bm), ReadPath(path)).value.items|
    ensures r.Ok? ==> forall i :: 0 <= i < |r.value| ==>
      r.value[i].inner.payload == payload && r.value[i].date == date
      && At(JObj(r.value[i].inner.billingmediation), path)
         == Some(JArr([At(JObj(bm), ReadPath(path)).value.items[i]]))
      && r.value[i].inner.billingmediation.Keys == bm.Keys
      && forall k :: k in bm && k != path[0] ==> r.value[i].inner.billingmediation[k] == bm[k]
    ensures r.Ok? ==> forall i, q :: 0 <= i < |r.value| && Diverges(path, q) ==>
      At(JObj(r.value[i].inner.billingmediation), q) == At(JObj(bm), q)
  {
    if |path| == 0 then Err(IndexOutOfRange)
    else
      var first := path[0];
      if first !in bm then Err(BadArrayPath)
      else
        match At(bm[first], path)
        case None => Err(BadArrayPath)
        case Some(target) =>
          if !target.JArr? then Err(NotAnArray)
          else
            var items := target.items;
            if |items| == 0 then Ok([])
            else if At(bm[first], path[1..]).None? then Err(BadArrayPath)
            else
              Ok(seq(|items|, i requires 0 <= i < |items| =>
                Message(MessageInner(WriteAt(bm, path, JArr([items[i]])), payload), date)))
  }

  /** The mediation map with `x` written at `path` (`*current = x` after
      walking `bm[p0][p1]..`): the place holds `x`, every place whose path
      parts ways with `path` is unchanged, and every map along the path keeps
      its members. */
  function WriteAt(bm: Object, path: seq<string>, x: Json): (r: Object)
    requires |path| >= 1 && At(JObj(bm), path).Some?
    ensures At(JObj(r), path) == Some(x)
    ensures r.Keys == bm.Keys
    ensures forall k :: k in bm && k != path[0] ==> r[k] == bm[k]
    ensures forall q :: Diverges(path, q) ==> At(JObj(r), q) == At(JObj(bm), q)
    ensures forall n :: 0 <= n < |path| ==>
      && At(JObj(bm), path[..n]).Some? && At(JObj(bm), path[..n]).value.JObj?
      && At(JObj(r), path[..n]).Some? && At(JObj(r), path[..n]).value.JObj?
      && At(JObj(r), path[..n]).value.fields.Keys == At(JObj(bm), path[..n]).value.fields.Keys
  {
    var r := bm[path[0] := Replace(bm[path[0]], path[1..], x)];
    assert JObj(r) == Replace(JObj(bm), path, x);
    forall q | Diverges(path, q) ensures At(JObj(r), q) == At(JObj(bm), q) {
      ReplaceFrame(JObj(bm), path, x, q);
    }
    forall n | 0 <= n < |path|
      ensures && At(JObj(bm), path[..n]).Some? && At(JObj(bm), path[..n]).value.JObj?
              && At(JObj(r), path[..n]).Some? && At(JObj(r), path[..n]).value.JObj?
              && At(JObj(r), path[..n]).value.fields.Keys == At(JObj(bm), path[..n]).value.fields.Keys
    {
      ReplaceKeepsKeys(JObj(bm), path, x, n);
    }
    r
  }

  /** Reading from the doubled path means that a flat mediation map `{"items": [1, 2]}` split at "billingmediation.items",
      fails instead of yielding two messages. */
  lemma FlatMediationArrayFails(payload: Payload, date: string)
    ensures SplitBillingMediation(map["items" := JArr([JNum(1), JNum(2)])], ["items"], payload, date)
         == Err(BadArrayPath)
  {
    var bm := map["items" := JArr([JNum(1), JNum(2)])];
    assert Member(bm["items"], "items").None?;
  }

  /** Splitting a message: by the mediation map when the first path segment
      is "billingmediation" (with the rest of the path), by the payload
      otherwise (with the whole path). Each output keeps the date, and the
      side that is not split is left as it was. */
  function SplitMessage(m: Message, path: seq<string>, locate: Locator): (r: Result<seq<Message>>)
    requires |path| >= 1
    ensures r.Err? ==> SplitFault(r.fault)
    ensures r.Ok? ==> forall i :: 0 <= i < |r.value| ==> r.value[i].date == m.date
    ensures r.Ok? && path[0] == BmKey ==> forall i :: 0 <= i < |r.value| ==>
      r.value[i].inner.payload == m.inner.payload
    ensures r.Ok? && path[0] != BmKey ==> forall i :: 0 <= i < |r.value| ==>
      r.value[i].inner.billingmediation == m.inner.billingmediation
    ensures path[0] == BmKey && |path| == 1 ==> r == Err(IndexOutOfRange)
    ensures path[0] == BmKey && |path| >= 2 ==>
      var bm, at := m.inner.billingmediation, path[1..];
      && (r.Ok? <==> At(JObj(bm), ReadPath(at)).Some? && At(JObj(bm), ReadPath(at)).value.JArr?
                     && (|At(JObj(bm), ReadPath(at)).value.items| > 0 ==> At(JObj(bm), at).Some?))
      && (r.Ok? ==> (
            && |r.value| == |At(JObj(bm), ReadPath(at)).value.items|
            && forall i :: 0 <= i < |r.value| ==>
                 At(JObj(r.value[i].inner.billingmediation), at)
                 == Some(JArr([At(JObj(bm), ReadPath(at)).value.items[i]]))))
    ensures path[0] != BmKey ==>
      var p := m.inner.payload;
      && (r.Ok? <==> locate(p, path).Some? && ValidSpan(p, locate(p, path).value)
                     && JsonSplit(p, locate(p, path).value).Ok?)
      && (r.Ok? ==> (
            && |r.value| == |locate(p, path).value.elems|
            && forall i :: 0 <= i < |r.value| ==>
                 r.value[i].inner.payload == JsonSplit(p, locate(p, path).value).value[i]))
  {
    if path[0] == BmKey then SplitBillingMediation(m.inner.billingmediation, path[1..], m.inner.payload, m.date)
    else SplitPayload(m.inner.payload, path, m.inner.billingmediation, m.date, locate)
  }

  /** `SplitMessage` at a fixed path, as a function of the message. */
  function Splitter(path: seq<string>, locate: Locator): (f: Message -> Result<seq<Message>>)
    requires |path| >= 1
    ensures forall m :: f(m) == SplitMessage(m, path, locate)
  {
    m => SplitMessage(m, path, locate)
  }

  /** The Splitting arm of the engine: every message split, the results
      concatenated in input order; the first failure stops it. */
  function SplitBatch(data: seq<Message>, path: seq<string>, locate: Locator): (r: Result<seq<Message>>)
    requires |path| >= 1
    ensures r.Err? ==> SplitFault(r.fault)
    ensures r.Ok? ==> forall i :: 0 <= i < |r.value| ==> exists k :: 0 <= k < |data| && r.value[i].date == data[k].date
    ensures r.Ok? <==> forall k :: 0 <= k < |data| ==> SplitMessage(data[k], path, locate).Ok?
  {
    var f := Splitter(path, locate);
    var r := Batch.ConcatMap(data, f);
    if r.Err? then
      Batch.FirstFailure(data, f);
      r
    else
      assert forall i :: 0 <= i < |r.value| ==> exists k :: 0 <= k < |data| && r.value[i].date == data[k].date by {
        forall i | 0 <= i < |r.value| ensures exists k :: 0 <= k < |data| && r.value[i].date == data[k].date {
          var k :| 0 <= k < |data| && f(data[k]).Ok? && r.value[i] in f(data[k]).value;
          var j :| 0 <= j < |f(data[k]).value| && f(data[k]).value[j] == r.value[i];
        }
      }
      r
  }

  /** A failing batch fails with the fault of its first failing message. */
  lemma SplitBatchFirstFailure(data: seq<Message>, path: seq<string>, locate: Locator)
    requires |path| >= 1
    requires SplitBatch(data, path, locate).Err?
    ensures exists k ::
      && 0 <= k < |data| && SplitMessage(data[k], path, locate).Err?
      && SplitBatch(data, path, locate).fault == SplitMessage(data[k], path, locate).fault
      && (forall j :: 0 <= j < k ==> SplitMessage(data[j], path, locate).Ok?)
  {
    Batch.FirstFailure(data, Splitter(path, locate));
  }

  /** Splitting a batch is splitting its parts and concatenating, in order. */
  lemma SplitBatchAppend(a: seq<Message>, b: seq<Message>, path: seq<string>, locate: Locator)
    requires |path| >= 1
    requires SplitBatch(a, path, locate).Ok? && SplitBatch(b, path, locate).Ok?
    ensures SplitBatch(a + b, path, locate)
         == Ok(SplitBatch(a, path, locate).value + SplitBatch(b, path, locate).value)
  {
    Batch.Append(a, b, Splitter(path, locate));
  }

  /** The batch of one message is that message's split. */
  lemma SplitBatchSingle(m: Message, path: seq<string>, locate: Locator)
    requires |path| >= 1
    ensures SplitBatch([m], path, locate) == SplitMessage(m, path, locate)
  {
    Batch.Single(m, Splitter(path, locate));
  }
}
