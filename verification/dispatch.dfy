/**
  The Logic stage: every message of the batch is sent, with its position,
  to the script workers; the results come back in whatever order the
  workers finish, are sorted by position, and are then routed by the text of
  their "route" mediation member.

  The workers are abstracted to a pure `Script` (entry name and envelope to
  envelope), and the order in which results arrive to a permutation `perm`
  of the batch positions: `perm[k]` is the position of the k-th result
  received.
*/
module Dispatch {
  import opened Wrappers
  import opened JsonValue
  import JsonText
  import opened Envelope
  import Text
  import Seqs

  /** A script entry applied to one envelope (`<entry>.process` on the
      parsed message, read back with `FromWithBm`). */
  type Script = (string, MessageInner) -> MessageInner

  // -----------------------------------------------------------------------
  // Export name

  /** The entry invoked for every message: the last rule up to its first
      ".js". No rules at all fails at `last().unwrap()`, a last rule without
      ".js" at `split_once(".js").unwrap()`. */
  function ExportName(rules: seq<string>): (r: Result<string>)
    ensures |rules| == 0 ==> r == Err(IndexOutOfRange)
    ensures |rules| > 0 ==>
      (r.Err? <==> forall i :: 0 <= i <= |LastRule(rules)| ==> !Text.OccursAt(LastRule(rules), ".js", i))
    ensures |rules| > 0 && r.Err? ==> r.fault == MissingJsSuffix
    ensures r.Ok? ==> (
      && |rules| > 0
      && |r.value| <= |LastRule(rules)|
      && r.value == LastRule(rules)[..|r.value|]
      && Text.OccursAt(LastRule(rules), ".js", |r.value|)
      && forall i :: 0 <= i < |r.value| ==> !Text.OccursAt(LastRule(rules), ".js", i))
  {
    if |rules| == 0 then Err(IndexOutOfRange)
    else
      match Text.SplitOnceStr(LastRule(rules), ".js")
      case None => Err(MissingJsSuffix)
      case Some((prefix, _)) => Ok(prefix)
  }

  function LastRule(rules: seq<string>): string
    requires |rules| > 0
  {
    rules[|rules| - 1]
  }

  /** One worker round trip: the script rewrites the envelope, the date stays. */
  function Invoke(script: Script, entry: string, m: Message): (r: Message)
    ensures r.date == m.date
  {
    Message(script(entry, m.inner), m.date)
  }

  // -----------------------------------------------------------------------
  // Reassembly

  /** A worker's reply: the position the message was sent with and the result. */
  datatype Ret = Ret(idx: nat, data: Message)

  /** `perm` lists every position below `n` exactly once. */
  predicate IsPerm(perm: seq<nat>, n: nat) {
    && |perm| == n
    && (forall k :: 0 <= k < n ==> perm[k] < n)
    && (forall k, l :: 0 <= k < l < n ==> perm[k] != perm[l])
  }

  /** The replies in arrival order, for results `outs` arriving as `perm` says. */
  function Arrivals(outs: seq<Message>, perm: seq<nat>): (r: seq<Ret>)
    requires IsPerm(perm, |outs|)
    ensures |r| == |outs|
    ensures forall k :: 0 <= k < |r| ==> r[k] == Ret(perm[k], outs[perm[k]])
  {
    seq(|perm|, k requires 0 <= k < |perm| => Ret(perm[k], outs[perm[k]]))
  }

  predicate SortedByIdx(s: seq<Ret>) {
    forall i, j :: 0 <= i < j < |s| ==> s[i].idx <= s[j].idx
  }

  function Insert(x: Ret, s: seq<Ret>): (r: seq<Ret>)
    requires SortedByIdx(s)
    ensures SortedByIdx(r)
    ensures multiset(r) == multiset(s) + multiset{x}
    ensures |r| == |s| + 1
    ensures r[0] == x || (|s| > 0 && r[0] == s[0])
  {
    if |s| == 0 || x.idx <= s[0].idx then
      var r := [x] + s;
      assert forall k :: 1 <= k < |r| ==> r[k] == s[k - 1];
      r
    else
      assert s == [s[0]] + s[1..];
      var rest := Insert(x, s[1..]);
      assert s[0].idx <= rest[0].idx;
      var r := [s[0]] + rest;
      assert forall k :: 1 <= k < |r| ==> r[k] == rest[k - 1];
      r
  }

  /** `sort_unstable_by_key(|x| x.0)`: the replies ordered by position. */
  function SortByIdx(s: seq<Ret>): (r: seq<Ret>)
    ensures SortedByIdx(r)
    ensures multiset(r) == multiset(s)
    ensures |r| == |s|
  {
    if |s| == 0 then []
    else
      assert s == [s[0]] + s[1..];
      Insert(s[0], SortByIdx(s[1..]))
  }

  /** The messages of the sorted replies. */
  function Collect(outs: seq<Message>, perm: seq<nat>): (r: seq<Message>)
    requires IsPerm(perm, |outs|)
    ensures |r| == |outs|
  {
    var s := SortByIdx(Arrivals(outs, perm));
    seq(|s|, i requires 0 <= i < |s| => s[i].data)
  }

  lemma NoDupMultiplicity(s: seq<Ret>, x: Ret)
    requires forall i, j :: 0 <= i < j < |s| ==> s[i] != s[j]
    ensures multiset(s)[x] <= 1
  {
    if |s| > 0 {
      assert s == [s[0]] + s[1..];
      NoDupMultiplicity(s[1..], x);
      if s[0] == x {
        assert x !in s[1..];
      }
    }
  }

  lemma RepeatMultiplicity(s: seq<Ret>, i: nat, j: nat)
    requires i < j < |s| && s[i] == s[j]
    ensures multiset(s)[s[i]] >= 2
  {
    assert s == s[..i] + [s[i]] + s[i + 1..j] + [s[j]] + s[j + 1..];
  }

  /** A strictly increasing sequence of `n` positions below `n` is 0, 1, .., n-1. */
  lemma {:induction false} StrictPositions(s: seq<Ret>)
    requires forall i, j :: 0 <= i < j < |s| ==> s[i].idx < s[j].idx
    requires forall i :: 0 <= i < |s| ==> s[i].idx < |s|
    ensures forall i :: 0 <= i < |s| ==> s[i].idx == i
  {
    if |s| > 0 {
      var n := |s| - 1;
      var init := s[..n];
      forall i | 0 <= i < n ensures init[i].idx < |init| {
        assert s[i].idx < s[n].idx < |s|;
      }
      StrictPositions(init);
      assert forall i :: 0 <= i < n ==> s[i].idx == i;
      if n > 0 {
        assert s[n - 1].idx == n - 1;
      }
    }
  }

  /** Every sorted reply carries a position below `|outs|` and the result
      for that position. */
  lemma SortedRepliesAreResults(outs: seq<Message>, perm: seq<nat>, x: Ret)
    requires IsPerm(perm, |outs|)
    requires x in SortByIdx(Arrivals(outs, perm))
    ensures x.idx < |outs| && x.data == outs[x.idx]
  {
    var a := Arrivals(outs, perm);
    assert x in multiset(SortByIdx(a));
    assert x in multiset(a);
    var k :| 0 <= k < |a| && a[k] == x;
  }

  /** Sorted replies have strictly increasing positions: two replies for one
      position would be one reply received twice. */
  lemma SortedRepliesStrict(outs: seq<Message>, perm: seq<nat>, i: nat, j: nat)
    requires IsPerm(perm, |outs|)
    requires i < j < |outs|
    ensures SortByIdx(Arrivals(outs, perm))[i].idx < SortByIdx(Arrivals(outs, perm))[j].idx
  {
    var a := Arrivals(outs, perm);
    var s := SortByIdx(a);
    assert s[i].idx <= s[j].idx;
    if s[i].idx == s[j].idx {
      assert s[i] in s && s[j] in s;
      SortedRepliesAreResults(outs, perm, s[i]);
      SortedRepliesAreResults(outs, perm, s[j]);
      assert s[i] == s[j];
      RepeatMultiplicity(s, i, j);
      forall k, l | 0 <= k < l < |a| ensures a[k] != a[l] {
        assert a[k].idx == perm[k] && a[l].idx == perm[l];
      }
      NoDupMultiplicity(a, s[i]);
      assert false;
    }
  }

  /** The dispatch order law: whatever order the results arrive in, position
      i of the reassembled batch holds the result for input i. */
  lemma DispatchOrderLaw(outs: seq<Message>, perm: seq<nat>)
    requires IsPerm(perm, |outs|)
    ensures Collect(outs, perm) == outs
  {
    var s := SortByIdx(Arrivals(outs, perm));
    var n := |outs|;
    forall i, j | 0 <= i < j < n ensures s[i].idx < s[j].idx {
      SortedRepliesStrict(outs, perm, i, j);
    }
    forall i | 0 <= i < n ensures s[i].idx < n {
      SortedRepliesAreResults(outs, perm, s[i]);
    }
    StrictPositions(s);
    forall i | 0 <= i < n ensures Collect(outs, perm)[i] == outs[i] {
      SortedRepliesAreResults(outs, perm, s[i]);
    }
  }

  // -----------------------------------------------------------------------
  // Routing

  const RouteKey: string := "route"

  /** The route a result listens for: the JSON text of its "route" mediation
      member (so a string keeps its quotes), or "output" when there is none. */
  function RouteText(m: Message): (r: string)
    ensures RouteKey !in m.inner.billingmediation ==> r == "output"
  {
    if RouteKey in m.inner.billingmediation then JsonText.Serialize(m.inner.billingmediation[RouteKey])
    else "output"
  }

  /** The results one child receives: those whose route text is its label, in order. */
  function ForRoute(out: seq<Message>, route: string): (r: seq<Message>)
    ensures forall m :: m in r <==> m in out && RouteText(m) == route
    ensures |r| <= |out|
  {
    if |out| == 0 then []
    else
      var rest := ForRoute(out[1..], route);
      assert out == [out[0]] + out[1..];
      if RouteText(out[0]) == route then [out[0]] + rest else rest
  }

  /** One step of `ForRoute`: the first result, kept or not, then the rest. */
  lemma ForRouteCons(x: Message, rest: seq<Message>, route: string)
    ensures ForRoute([x] + rest, route)
         == (if RouteText(x) == route then [x] else []) + ForRoute(rest, route)
  {
    assert ([x] + rest)[0] == x && ([x] + rest)[1..] == rest;
  }

  /** Filtering keeps the batch order: concatenated batches filter part by part. */
  lemma {:induction false} ForRouteAppend(a: seq<Message>, b: seq<Message>, route: string)
    ensures ForRoute(a + b, route) == ForRoute(a, route) + ForRoute(b, route)
  {
    if |a| > 0 {
      var head: seq<Message> := if RouteText(a[0]) == route then [a[0]] else [];
      assert a == [a[0]] + a[1..];
      assert a + b == [a[0]] + (a[1..] + b);
      ForRouteCons(a[0], a[1..], route);
      ForRouteCons(a[0], a[1..] + b, route);
      ForRouteAppend(a[1..], b, route);
      Seqs.ConcatAssoc(head, ForRoute(a[1..], route), ForRoute(b, route));
    } else {
      assert a + b == b;
    }
  }

  /** A result whose route is a string never reaches the child labelled with
      that bare string: its route text is the quoted string. */
  lemma StringRouteMissesBareLabel(out: seq<Message>, m: Message, route: string)
    requires RouteKey in m.inner.billingmediation
    requires m.inner.billingmediation[RouteKey] == JStr(route)
    ensures m !in ForRoute(out, route)
  {
    JsonText.StringTextKeepsQuotes(route);
  }

  /** It reaches the child whose label is the quoted string instead. */
  lemma StringRouteReachesQuotedLabel(out: seq<Message>, m: Message, route: string)
    requires m in out
    requires RouteKey in m.inner.billingmediation
    requires m.inner.billingmediation[RouteKey] == JStr(route)
    requires forall i :: 0 <= i < |route| ==> JsonText.Plain(route[i])
    ensures m in ForRoute(out, "\"" + route + "\"")
  {
    JsonText.PlainStringText(route);
  }

  // -----------------------------------------------------------------------
  // The stage

  /** The Logic arm before routing: the reassembled results. An empty batch
      sends nothing and so never evaluates the entry name. */
  function LogicStage(rules: seq<string>, batch: seq<Message>, script: Script, perm: seq<nat>)
    : (r: Result<seq<Message>>)
    requires IsPerm(perm, |batch|)
    ensures |batch| == 0 ==> r == Ok([])
    ensures |batch| > 0 ==> (r.Err? <==> ExportName(rules).Err?)
    ensures r.Err? ==> r.fault == ExportName(rules).fault
    ensures r.Ok? ==> |r.value| == |batch|
    ensures r.Ok? && |batch| > 0 ==> forall i :: 0 <= i < |batch| ==>
      r.value[i] == Invoke(script, ExportName(rules).value, batch[i])
  {
    if |batch| == 0 then Ok([])
    else
      var entry :- ExportName(rules);
      var outs := seq(|batch|, i requires 0 <= i < |batch| => Invoke(script, entry, batch[i]));
      DispatchOrderLaw(outs, perm);
      Ok(Collect(outs, perm))
  }
}
