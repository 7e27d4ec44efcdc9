/**
  The execution tree (`PbTree`) and its construction from the flat stage list.

  `New` takes `mods[0]` as the root and lets `Recurse` consume the rest of
  the list positionally. The builder is reproduced as the code writes it,
  including three of its quirks:
  - every edge `Recurse` adds wraps the FIRST module of the current suffix,
    whichever clause added it;
  - the loop over the modules after the next one looks at their `name`, not
    at their `input`;
  - `&mods[2..]` fails on a one-module suffix, so any list in which the
    second-to-last module gets attached cannot be built at all.
*/
module Tree {
  import opened Wrappers
  import opened Playbook
  import Text

  datatype PbTree = PbTree(stage: Module, children: seq<Edge>)

  /** A child subtree and the route label it listens on. */
  datatype Edge = Edge(node: PbTree, route: string)

  /** No path from `t` down to a leaf visits more than `h` nodes. */
  predicate HeightAtMost(t: PbTree, h: int)
    decreases t
  {
    h >= 1 && forall i :: 0 <= i < |t.children| ==> HeightAtMost(t.children[i].node, h - 1)
  }

  /** `reference` reads `"<producer>.<route>"` with a dot-free producer name:
      exactly the references whose `split_once('.')` yields `(producer, route)`. */
  predicate Feeds(producer: string, reference: string, route: string) {
    '.' !in producer && reference == producer + ['.'] + route
  }

  lemma FeedsIsSplitOnce(producer: string, reference: string, route: string)
    ensures Text.SplitOnce(reference, '.') == Some((producer, route)) <==> Feeds(producer, reference, route)
  {
    if Feeds(producer, reference, route) {
      Text.SplitOnceOfJoin(producer, '.', route);
    }
  }

  /** The label under which the next module hangs below `inputName`, if it
      hangs there at all: `"output"` without an input, the part after the
      first dot when the part before it is `inputName`. */
  function NextLabel(inputName: string, next: Module): Option<string>
  {
    match next.Input()
    case None => Some("output")
    case Some(s) =>
      match Text.SplitOnce(s, '.')
      case Some((a, b)) => if a == inputName then Some(b) else None
      case None => None
  }

  /** The labels the extra-children loop adds: one per later module whose
      NAME splits into `(inputName, route)`. */
  function ExtraLabels(inputName: string, later: seq<Module>): seq<string>
  {
    if |later| == 0 then []
    else
      var rest := ExtraLabels(inputName, later[1..]);
      match Text.SplitOnce(later[0].Name(), '.')
      case Some((a, b)) => if a == inputName then [b] + rest else rest
      case None => rest
  }

  lemma {:induction false} ExtraLabelsSpec(inputName: string, later: seq<Module>, route: string)
    ensures route in ExtraLabels(inputName, later)
        <==> exists k :: 0 <= k < |later| && Feeds(inputName, later[k].Name(), route)
  {
    if |later| > 0 {
      ExtraLabelsSpec(inputName, later[1..], route);
      FeedsIsSplitOnce(inputName, later[0].Name(), route);
      var rest := ExtraLabels(inputName, later[1..]);
      if exists k :: 0 <= k < |later| && Feeds(inputName, later[k].Name(), route) {
        var k :| 0 <= k < |later| && Feeds(inputName, later[k].Name(), route);
        if k > 0 {
          assert later[1..][k - 1] == later[k];
        }
      }
      if exists k :: 0 <= k < |later[1..]| && Feeds(inputName, later[1..][k].Name(), route) {
        var k :| 0 <= k < |later[1..]| && Feeds(inputName, later[1..][k].Name(), route);
        assert later[k + 1] == later[1..][k];
      }
      match Text.SplitOnce(later[0].Name(), '.')
      case Some((a, b)) =>
        FeedsIsSplitOnce(a, later[0].Name(), b);
        if a == inputName && b != route {
          assert !Feeds(inputName, later[0].Name(), route);
        }
      case None =>
    }
  }

  /** `PbTree::recurse`: the edges below a node called `inputName`, built from
      the modules that follow it. Every edge wraps `mods[0]` with the subtree
      built from `mods[1..]`, so the height is bounded by the list length. */
  function Recurse(inputName: string, mods: seq<Module>): (r: Result<seq<Edge>>)
    ensures |mods| == 0 ==> r == Ok([])
    ensures |mods| == 1 ==> r == Err(IndexOutOfRange)
    ensures r.Ok? ==> forall e :: e in r.value ==>
      e.node.stage == mods[0] && Recurse(mods[0].Name(), mods[1..]) == Ok(e.node.children)
    ensures r.Ok? ==> forall e :: e in r.value ==> HeightAtMost(e.node, |mods|)
    decreases |mods|
  {
    if |mods| == 0 then Ok([])
    else
      var first :- match NextLabel(inputName, mods[0])
        case None => Ok([])
        case Some(route) =>
          var sub :- Recurse(mods[0].Name(), mods[1..]);
          assert HeightAtMost(PbTree(mods[0], sub), |mods|) by {
            EdgesBoundHeight(PbTree(mods[0], sub), |mods[1..]|, |mods|);
          }
          Ok([Edge(PbTree(mods[0], sub), route)]);
      if |mods| < 2 then Err(IndexOutOfRange)
      else
        var extras := ExtraLabels(inputName, mods[2..]);
        if |extras| == 0 then Ok(first)
        else
          var sub :- Recurse(mods[0].Name(), mods[1..]);
          assert HeightAtMost(PbTree(mods[0], sub), |mods|) by {
            EdgesBoundHeight(PbTree(mods[0], sub), |mods[1..]|, |mods|);
          }
          Ok(first + seq(|extras|, k requires 0 <= k < |extras| => Edge(PbTree(mods[0], sub), extras[k])))
  }

  /** `PbTree::new`: the first module is the root; an empty list fails at `mods[0]`. */
  function New(mods: seq<Module>): (r: Result<PbTree>)
    ensures |mods| == 0 ==> r == Err(IndexOutOfRange)
    ensures r.Ok? ==> r.value.stage == mods[0] && HeightAtMost(r.value, |mods|)
    ensures r.Ok? ==> Recurse(mods[0].Name(), mods[1..]) == Ok(r.value.children)
  {
    if |mods| == 0 then Err(IndexOutOfRange)
    else
      var children :- Recurse(mods[0].Name(), mods[1..]);
      var t := PbTree(mods[0], children);
      assert forall i :: 0 <= i < |children| ==> children[i] in children;
      Ok(t)
  }

  // -----------------------------------------------------------------------
  // Which edges the builder adds

  /** A next module without `input` becomes the first child, on route "output". */
  lemma NoInputHangsOnOutput(inputName: string, mods: seq<Module>)
    requires |mods| >= 1 && mods[0].Input().None?
    requires Recurse(inputName, mods).Ok?
    ensures var es := Recurse(inputName, mods).value;
      |es| >= 1 && es[0].route == "output" && es[0].node.stage == mods[0]
  {
  }

  /** A next module whose input is `"<inputName>.<route>"` becomes the first child, on `route`. */
  lemma MatchingInputHangsOnLabel(inputName: string, mods: seq<Module>, route: string)
    requires |mods| >= 1 && mods[0].Input().Some?
    requires Feeds(inputName, mods[0].Input().value, route)
    requires Recurse(inputName, mods).Ok?
    ensures var es := Recurse(inputName, mods).value;
      |es| >= 1 && es[0].route == route && es[0].node.stage == mods[0]
  {
    FeedsIsSplitOnce(inputName, mods[0].Input().value, route);
  }

  /** A next module whose input names another producer, or has no dot, adds
      nothing itself: every edge that remains comes from a later module's name. */
  lemma MismatchedInputAddsNothing(inputName: string, mods: seq<Module>)
    requires |mods| >= 1 && mods[0].Input().Some?
    requires forall route :: !Feeds(inputName, mods[0].Input().value, route)
    requires Recurse(inputName, mods).Ok?
    ensures forall e :: e in Recurse(inputName, mods).value ==>
      exists k :: 2 <= k < |mods| && Feeds(inputName, mods[k].Name(), e.route)
  {
    var s := mods[0].Input().value;
    assert NextLabel(inputName, mods[0]).None? by {
      match Text.SplitOnce(s, '.')
      case Some((a, b)) =>
        FeedsIsSplitOnce(a, s, b);
      case None =>
    }
    RecurseRoutes(inputName, mods);
    var es := Recurse(inputName, mods).value;
    var extras := ExtraLabels(inputName, mods[2..]);
    forall e | e in es
      ensures exists k :: 2 <= k < |mods| && Feeds(inputName, mods[k].Name(), e.route)
    {
      var i :| 0 <= i < |es| && es[i] == e;
      assert Routes(es)[i] == e.route;
      assert e.route in extras;
      ExtraLabelsSpec(inputName, mods[2..], e.route);
      var k :| 0 <= k < |mods[2..]| && Feeds(inputName, mods[2..][k].Name(), e.route);
      assert mods[2..][k] == mods[k + 2];
    }
  }

  function Routes(es: seq<Edge>): seq<string> {
    seq(|es|, i requires 0 <= i < |es| => es[i].route)
  }

  function OptionToSeq(o: Option<string>): seq<string> {
    if o.Some? then [o.value] else []
  }

  /** The route labels `Recurse` produces: the next module's label, if it
      attaches, followed by one label per later module named after `inputName`. */
  lemma RecurseRoutes(inputName: string, mods: seq<Module>)
    requires |mods| >= 2
    requires Recurse(inputName, mods).Ok?
    ensures Routes(Recurse(inputName, mods).value)
         == OptionToSeq(NextLabel(inputName, mods[0])) + ExtraLabels(inputName, mods[2..])
  {
    var es := Recurse(inputName, mods).value;
    var next, extras := NextLabel(inputName, mods[0]), ExtraLabels(inputName, mods[2..]);
    var below := Recurse(mods[0].Name(), mods[1..]);
    if next.None? && |extras| == 0 {
      assert es == [];
    } else {
      assert below.Ok?;
      var node := PbTree(mods[0], below.value);
      var first: seq<Edge> := if next.Some? then [Edge(node, next.value)] else [];
      var copies := seq(|extras|, k requires 0 <= k < |extras| => Edge(node, extras[k]));
      assert es == first + copies;
      RoutesAppend(first, copies);
      assert Routes(first) == OptionToSeq(next);
      assert Routes(copies) == extras;
    }
  }

  lemma RoutesAppend(a: seq<Edge>, b: seq<Edge>)
    ensures Routes(a + b) == Routes(a) + Routes(b)
  {
    assert forall i :: 0 <= i < |a| + |b| ==> Routes(a + b)[i] == (Routes(a) + Routes(b))[i];
  }

  /** Every later module whose NAME reads `"<inputName>.<route>"` adds one more
      copy of the next module's subtree, on `route`. */
  lemma LaterNameAddsCopy(inputName: string, mods: seq<Module>, k: nat, route: string)
    requires 2 <= k < |mods|
    requires Feeds(inputName, mods[k].Name(), route)
    requires Recurse(inputName, mods).Ok?
    ensures exists e :: e in Recurse(inputName, mods).value && e.route == route && e.node.stage == mods[0]
  {
    assert mods[2..][k - 2] == mods[k];
    ExtraLabelsSpec(inputName, mods[2..], route);
    RecurseRoutes(inputName, mods);
    var es := Recurse(inputName, mods).value;
    assert route in Routes(es);
    var i :| 0 <= i < |es| && Routes(es)[i] == route;
    assert es[i] in es;
  }

  /** With exactly two modules left the call succeeds exactly when the first
      of them is NOT attached: attaching it recurses on a one-module suffix. */
  lemma TwoLeftSucceedsIffNextDetached(inputName: string, mods: seq<Module>)
    requires |mods| == 2
    ensures Recurse(inputName, mods).Ok? <==> NextLabel(inputName, mods[0]).None?
  {
    assert |mods[1..]| == 1;
    assert mods[2..] == [];
  }

  /** The node at level `d` of the recursion: the name it is called with
      (`inputName` at the top, the name of the module above it below that)
      and whether `mods[d]` hangs under it, on its input or on a later name. */
  predicate AttachesAt(inputName: string, mods: seq<Module>, d: nat)
    requires d + 2 <= |mods|
  {
    var name := if d == 0 then inputName else mods[d - 1].Name();
    NextLabel(name, mods[d]).Some? || |ExtraLabels(name, mods[d + 2..])| > 0
  }

  /** One step of the recursion: with two or more modules left the call
      succeeds when the first module does not attach at all, and otherwise
      exactly when the call one level down succeeds. */
  lemma RecurseStep(inputName: string, mods: seq<Module>)
    requires |mods| >= 2
    ensures Recurse(inputName, mods).Ok? <==>
      !AttachesAt(inputName, mods, 0) || Recurse(mods[0].Name(), mods[1..]).Ok?
  {
  }

  /** Level `d + 1` of a list is level `d` of its tail, called with the
      first module's name. */
  lemma AttachesAtShift(inputName: string, mods: seq<Module>, d: nat)
    requires |mods| >= 1 && d + 2 <= |mods| - 1
    ensures AttachesAt(mods[0].Name(), mods[1..], d) == AttachesAt(inputName, mods, d + 1)
  {
    assert mods[1..][d] == mods[d + 1];
    assert mods[1..][d + 2..] == mods[d + 3..];
    if d > 0 {
      assert mods[1..][d - 1] == mods[d];
    }
  }

  /** When the builder succeeds: the recursion descends one module per level
      for as long as the module attaches, and fails once it reaches a
      one-module suffix. So a non-empty list builds exactly when some level
      at least two modules from the end does not attach. */
  lemma {:induction false} RecurseOkIff(inputName: string, mods: seq<Module>)
    ensures Recurse(inputName, mods).Ok? <==>
      |mods| == 0 || exists d: nat :: d + 2 <= |mods| && !AttachesAt(inputName, mods, d)
    decreases |mods|
  {
    if |mods| >= 2 {
      var tail := mods[1..];
      var name := mods[0].Name();
      RecurseStep(inputName, mods);
      RecurseOkIff(name, tail);
      if exists d: nat :: d + 2 <= |tail| && !AttachesAt(name, tail, d) {
        var d: nat :| d + 2 <= |tail| && !AttachesAt(name, tail, d);
        AttachesAtShift(inputName, mods, d);
        assert !AttachesAt(inputName, mods, d + 1);
      }
      if exists d: nat :: d + 2 <= |mods| && !AttachesAt(inputName, mods, d) {
        var d: nat :| d + 2 <= |mods| && !AttachesAt(inputName, mods, d);
        if d > 0 {
          AttachesAtShift(inputName, mods, d - 1);
          assert !AttachesAt(name, tail, d - 1);
        }
      }
    }
  }

  /** The same at the root: a playbook builds exactly when it is non-empty
      and its tail has a level that does not attach, or it is a single stage. */
  lemma NewOkIff(mods: seq<Module>)
    ensures New(mods).Ok? <==>
      |mods| == 1 ||
      (|mods| >= 3 && exists d: nat :: d + 2 <= |mods| - 1 && !AttachesAt(mods[0].Name(), mods[1..], d))
  {
    if |mods| >= 1 {
      RecurseOkIff(mods[0].Name(), mods[1..]);
    }
  }

  /** A four-stage playbook that builds: "B" has no input and hangs on "A"'s
      output; "C" reads a producer that is not "B", so "B" gets no children
      and the last two stages are left out of the tree. */
  lemma FourStagePlaybookBuilds()
    ensures New([Lookup("A", None), Lookup("B", None), Lookup("C", Some("Z.x")), Lookup("D", None)])
         == Ok(PbTree(Lookup("A", None), [Edge(PbTree(Lookup("B", None), []), "output")]))
  {
    var mods := [Lookup("A", None), Lookup("B", None), Lookup("C", Some("Z.x")), Lookup("D", None)];
    assert mods[1..] == [Lookup("B", None), Lookup("C", Some("Z.x")), Lookup("D", None)];
    assert mods[1..][1..] == [Lookup("C", Some("Z.x")), Lookup("D", None)];
    assert mods[1..][2..] == [Lookup("D", None)];
    assert mods[1..][1..][2..] == [];
    assert "Z.x" == "Z" + ['.'] + "x";
    FeedsIsSplitOnce("Z", "Z.x", "x");
    assert Text.SplitOnce("D", '.').None? by {
      assert !Feeds("D", "D", "") && '.' !in "D";
    }
  }

  /** Every edge built from `n >= 2` modules has at most `n - 2` levels: the
      edge wraps `mods[0]` over the edges built from the `n - 1` modules
      after it, and a one-module suffix never builds. */
  lemma {:induction false} RecurseShallow(inputName: string, mods: seq<Module>)
    requires |mods| >= 2 && Recurse(inputName, mods).Ok?
    ensures EdgesAtMost(Recurse(inputName, mods).value, |mods| - 2)
    decreases |mods|
  {
    var es := Recurse(inputName, mods).value;
    var rest := mods[1..];
    var below := Recurse(mods[0].Name(), rest);
    if |es| > 0 {
      assert below == Ok(es[0].node.children) by {
        assert es[0] in es;
      }
      assert |rest| >= 2;
      RecurseShallow(mods[0].Name(), rest);
      forall e | e in es ensures HeightAtMost(e.node, |mods| - 2) {
        assert e.node.children == below.value;
        EdgesBoundHeight(e.node, |rest| - 2, |mods| - 2);
      }
    }
  }

  /** Every edge of `es` leads to a subtree of at most `h` levels. */
  predicate EdgesAtMost(es: seq<Edge>, h: int) {
    forall e :: e in es ==> HeightAtMost(e.node, h)
  }

  /** A node whose every child has at most `below` levels has at most
      `below + 1`. */
  lemma EdgesBoundHeight(t: PbTree, below: int, h: int)
    requires below >= 0 && h == below + 1
    requires EdgesAtMost(t.children, below)
    ensures HeightAtMost(t, h)
  {
    assert forall i :: 0 <= i < |t.children| ==> t.children[i] in t.children;
  }

  /** A built playbook of `n >= 3` modules has at most `n - 2` levels. The
      node at level `d` always wraps `mods[d]`, so the last two modules of
      the list never make it into a built tree. */
  lemma NewShallow(mods: seq<Module>)
    requires |mods| >= 3 && New(mods).Ok?
    ensures HeightAtMost(New(mods).value, |mods| - 2)
  {
    var rest := mods[1..];
    var kids := Recurse(mods[0].Name(), rest).value;
    RecurseShallow(mods[0].Name(), rest);
    EdgesBoundHeight(PbTree(mods[0], kids), |rest| - 2, |mods| - 2);
    assert New(mods).value == PbTree(mods[0], kids);
  }

  /** No two-module playbook can be built. */
  lemma TwoModuleListFails(a: Module, b: Module)
    ensures New([a, b]).Err?
  {
    assert [a, b][1..] == [b];
  }

  /** A three-stage chain whose middle stage attaches to the root cannot be
      built: attaching it recurses on the one-module suffix `[c]`. */
  lemma ThreeStageChainFails(a: Module, b: Module, c: Module)
    requires NextLabel(a.Name(), b).Some?
    ensures New([a, b, c]).Err?
  {
    assert [a, b, c][1..] == [b, c];
    assert [b, c][1..] == [c];
  }

  /** An ingestion, splitting, logic chain, each stage reading the output of
      the one before, is one of them. */
  lemma IngestSplitLogicPlaybookFails()
    ensures New([
      MessageIngestion(Edifact("grammar"), "In"),
      Splitting("billingmediation.items", false, "Sp", Some("In.output")),
      Logic(["r.js"], [], "Lg", Some("Sp.output"))]).Err?
  {
    var a := MessageIngestion(Edifact("grammar"), "In");
    var b := Splitting("billingmediation.items", false, "Sp", Some("In.output"));
    var c := Logic(["r.js"], [], "Lg", Some("Sp.output"));
    assert '.' !in "In";
    assert "In.output" == "In" + ['.'] + "output";
    FeedsIsSplitOnce("In", "In.output", "output");
    assert NextLabel(a.Name(), b) == Some("output");
    ThreeStageChainFails(a, b, c);
  }
}
