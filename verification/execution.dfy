/**
  Running a batch through the execution tree, as one sequential function.

  The engine runs the children of a node concurrently and writes every
  node's output batch to a file (`save`). Here the children run one after
  the other, in edge order, and the run returns the list of saved batches
  in that order: a node's own batch first, then the saved batches of each
  child subtree. A panic anywhere fails the whole run.

  What the environment decides is a parameter (`Env`): the scripts, the
  parser that finds an array inside a payload, and the order in which the
  workers return a Logic stage's results.
*/
module Execution {
  import opened Wrappers
  import opened Playbook
  import opened Tree
  import opened Envelope
  import Splitting
  import Dispatch
  import Text
  import Seqs

  /** `count > 200` fails on entry to a node. */
  const MaxDepth: nat := 200

  /** Scripts, array locator, and the arrival order of a Logic stage's
      results for a given stage name and input batch. */
  datatype Env = Env(
    script: Dispatch.Script,
    locate: Splitting.Locator,
    arrival: (string, seq<Message>) -> seq<nat>)

  /** Whatever order the workers answer in, each batch position answers once. */
  ghost predicate ArrivalsArePermutations(env: Env) {
    forall name, batch :: Dispatch.IsPerm(env.arrival(name, batch), |batch|)
  }

  /** One write of `save`: the stage name and the batch written. */
  datatype Saved = Saved(stage: string, batch: seq<Message>)

  /** The kinds whose arm is `todo!()`. */
  predicate Unimplemented(m: Module) {
    m.Lookup? || m.Reporting? || m.Aggregation? || m.Deduplication?
  }

  /** The batch a node produces from its input batch, before routing. */
  function NodeOutput(stage: Module, data: seq<Message>, env: Env): (r: Result<seq<Message>>)
    requires ArrivalsArePermutations(env)
    ensures stage.IsIngestion() ==> r == Ok(data)
    ensures Unimplemented(stage) ==> r == Err(NotImplemented)
    ensures r.Err? ==> r.fault != RecursionLimit
    ensures stage.Logic? && r.Ok? ==> |r.value| == |data|
    ensures stage.Logic? && r.Ok? && |data| > 0 ==> Dispatch.ExportName(stage.rules).Ok? && forall i :: 0 <= i < |data| ==>
      r.value[i] == Dispatch.Invoke(env.script, Dispatch.ExportName(stage.rules).value, data[i])
    ensures stage.Splitting? && r.Ok? ==> forall i :: 0 <= i < |r.value| ==>
      exists k :: 0 <= k < |data| && r.value[i].date == data[k].date
    ensures stage.Splitting? ==> (r.Ok? <==> forall k :: 0 <= k < |data| ==>
      Splitting.SplitMessage(data[k], Text.Split(stage.arrayPath, '.'), env.locate).Ok?)
    ensures stage.Logic? && |data| == 0 ==> r == Ok([])
    ensures stage.Logic? && |data| > 0 ==> (r.Ok? <==> Dispatch.ExportName(stage.rules).Ok?)
  {
    match stage
    case Logic(rules, _, name, _) =>
      Dispatch.LogicStage(rules, data, env.script, env.arrival(name, data))
    case Splitting(arrayPath, _, _, _) =>
      Splitting.SplitBatch(data, Text.Split(arrayPath, '.'), env.locate)
    case Lookup(_, _) => Err(NotImplemented)
    case Reporting(_, _, _, _) => Err(NotImplemented)
    case Aggregation(_, _, _) => Err(NotImplemented)
    case Deduplication(_, _, _) => Err(NotImplemented)
    case MessageIngestion(_, _) => Ok(data)
    case FileIngestion(_, _) => Ok(data)
  }

  /** What child `i` receives: a Logic node sends each child the results on
      its route; every other node sends every child the whole batch. */
  function ChildBatch(t: PbTree, out: seq<Message>, i: nat): seq<Message>
    requires i < |t.children|
  {
    if t.stage.Logic? then Dispatch.ForRoute(out, t.children[i].route) else out
  }

  /** Number of nodes of a tree. */
  function Size(t: PbTree): (n: nat)
    ensures n >= 1
    decreases t, |t.children| + 1
  {
    1 + SizeFrom(t, 0)
  }

  /** Number of nodes below the edges `i..` of `t`. */
  function SizeFrom(t: PbTree, i: nat): nat
    requires i <= |t.children|
    decreases t, |t.children| - i
  {
    if i == |t.children| then 0 else Size(t.children[i].node) + SizeFrom(t, i + 1)
  }

  /** `recurse`: fails past the depth limit, then computes the node's batch,
      saves it, and runs every child on its share of it. A successful run
      saves once per node, its own batch first. A tree short enough for the
      depth limit never fails on it. */
  function Run(t: PbTree, data: seq<Message>, count: nat, env: Env): (r: Result<seq<Saved>>)
    requires ArrivalsArePermutations(env)
    ensures count > MaxDepth ==> r == Err(RecursionLimit)
    ensures count <= MaxDepth && NodeOutput(t.stage, data, env).Err? ==>
      r == Err(NodeOutput(t.stage, data, env).fault)
    ensures r.Ok? ==> (
      && NodeOutput(t.stage, data, env).Ok?
      && |r.value| == Size(t))
    decreases t, |t.children| + 1
  {
    if count > MaxDepth then Err(RecursionLimit)
    else
      var out :- NodeOutput(t.stage, data, env);
      var below :- RunEdges(t, out, 0, count, env);
      Ok([Saved(t.stage.Name(), out)] + below)
  }

  /** The children `i..` of `t`, in edge order, each on its share of `out`. */
  function RunEdges(t: PbTree, out: seq<Message>, i: nat, count: nat, env: Env): (r: Result<seq<Saved>>)
    requires ArrivalsArePermutations(env)
    requires i <= |t.children|
    ensures r.Ok? ==> |r.value| == SizeFrom(t, i)
    decreases t, |t.children| - i
  {
    if i == |t.children| then Ok([])
    else
      var head :- Run(t.children[i].node, ChildBatch(t, out, i), count + 1, env);
      var tail :- RunEdges(t, out, i + 1, count, env);
      Ok(head + tail)
  }

  /** Every child from `i` on runs without failing on its share of `out`. */
  predicate ChildrenRun(t: PbTree, out: seq<Message>, i: nat, count: nat, env: Env)
    requires ArrivalsArePermutations(env)
  {
    forall j :: i <= j < |t.children| ==> Run(t.children[j].node, ChildBatch(t, out, j), count + 1, env).Ok?
  }

  /** `execute_playbook`: the root runs on the ingested batch at depth 0. */
  function Execute(t: PbTree, data: seq<Message>, env: Env): (r: Result<seq<Saved>>)
    requires ArrivalsArePermutations(env)
    ensures r.Ok? ==> |r.value| == Size(t) && r.value[0].stage == t.stage.Name()
    ensures HeightAtMost(t, MaxDepth + 1) && r.Err? ==> r.fault != RecursionLimit
  {
    RunWithinDepth(t, data, 0, env);
    var r := Run(t, data, 0, env);
    if r.Ok? then RunSavesOwnOutputFirst(t, data, 0, env); r else r
  }

  /** A successful run saves the node's own output first, under its stage's
      name. */
  lemma RunSavesOwnOutputFirst(t: PbTree, data: seq<Message>, count: nat, env: Env)
    requires ArrivalsArePermutations(env)
    requires Run(t, data, count, env).Ok?
    ensures NodeOutput(t.stage, data, env).Ok?
    ensures Run(t, data, count, env).value[0] == Saved(t.stage.Name(), NodeOutput(t.stage, data, env).value)
  {
  }

  /** In a tree no taller than the levels left below the limit, no run hits
      the recursion limit. */
  lemma {:induction false} RunWithinDepth(t: PbTree, data: seq<Message>, count: nat, env: Env)
    requires ArrivalsArePermutations(env)
    ensures HeightAtMost(t, MaxDepth + 1 - count) && Run(t, data, count, env).Err? ==>
      Run(t, data, count, env).fault != RecursionLimit
    decreases t, |t.children| + 1
  {
    if HeightAtMost(t, MaxDepth + 1 - count) && NodeOutput(t.stage, data, env).Ok? {
      RunEdgesWithinDepth(t, NodeOutput(t.stage, data, env).value, 0, count, env);
    }
  }

  /** The same for the children from edge `i` on. */
  lemma {:induction false} RunEdgesWithinDepth(t: PbTree, out: seq<Message>, i: nat, count: nat, env: Env)
    requires ArrivalsArePermutations(env)
    requires i <= |t.children|
    ensures HeightAtMost(t, MaxDepth + 1 - count) && RunEdges(t, out, i, count, env).Err? ==>
      RunEdges(t, out, i, count, env).fault != RecursionLimit
    decreases t, |t.children| - i
  {
    if HeightAtMost(t, MaxDepth + 1 - count) && i < |t.children| {
      RunEdgesStep(t, out, i, count, env);
      RunWithinDepth(t.children[i].node, ChildBatch(t, out, i), count + 1, env);
      RunEdgesWithinDepth(t, out, i + 1, count, env);
    }
  }

  // -----------------------------------------------------------------------
  // Where each child's saves sit in the trace

  /** Position in `RunEdges(t, out, i, ..)` where child `j`'s saves begin. */
  function EdgeOffset(t: PbTree, i: nat, j: nat): nat
    requires i <= j <= |t.children|
    decreases j - i
  {
    if i == j then 0 else Size(t.children[i].node) + EdgeOffset(t, i + 1, j)
  }

  lemma {:induction false} EdgeOffsetBound(t: PbTree, i: nat, j: nat)
    requires i <= j < |t.children|
    ensures EdgeOffset(t, i, j) + Size(t.children[j].node) <= SizeFrom(t, i)
    decreases j - i
  {
    if i < j {
      EdgeOffsetBound(t, i + 1, j);
    }
  }

  /** A trace made of one child's run followed by the rest, failing with the
      first failure. */
  function Then(head: Result<seq<Saved>>, tail: Result<seq<Saved>>): Result<seq<Saved>> {
    if head.Err? then Err(head.fault)
    else if tail.Err? then Err(tail.fault)
    else Ok(head.value + tail.value)
  }

  /** One step of `RunEdges`: child `i`'s run, then the children after it. */
  lemma RunEdgesStep(t: PbTree, out: seq<Message>, i: nat, count: nat, env: Env)
    requires ArrivalsArePermutations(env)
    requires i < |t.children|
    ensures RunEdges(t, out, i, count, env)
         == Then(Run(t.children[i].node, ChildBatch(t, out, i), count + 1, env), RunEdges(t, out, i + 1, count, env))
  {
  }

  /** The children from `i` on run without failing exactly when each of
      them does. */
  lemma {:induction false} RunEdgesOkIff(t: PbTree, out: seq<Message>, i: nat, count: nat, env: Env)
    requires ArrivalsArePermutations(env)
    requires i <= |t.children|
    ensures RunEdges(t, out, i, count, env).Ok? <==> ChildrenRun(t, out, i, count, env)
    decreases |t.children| - i
  {
    if i < |t.children| {
      RunEdgesStep(t, out, i, count, env);
      RunEdgesOkIff(t, out, i + 1, count, env);
    }
  }

  /** A node runs without failing exactly when it is within the depth limit,
      its stage succeeds on the batch, and every child succeeds on its share. */
  lemma RunOkIff(t: PbTree, data: seq<Message>, count: nat, env: Env)
    requires ArrivalsArePermutations(env)
    ensures Run(t, data, count, env).Ok?
        <==> (count <= MaxDepth && NodeOutput(t.stage, data, env).Ok?
              && ChildrenRun(t, NodeOutput(t.stage, data, env).value, 0, count, env))
  {
    if count <= MaxDepth && NodeOutput(t.stage, data, env).Ok? {
      RunEdgesOkIff(t, NodeOutput(t.stage, data, env).value, 0, count, env);
    }
  }

  /** The whole playbook runs without failing exactly when the root stage
      succeeds and every child of the root runs without failing at depth 1. */
  lemma ExecuteOkIff(t: PbTree, data: seq<Message>, env: Env)
    requires ArrivalsArePermutations(env)
    ensures Execute(t, data, env).Ok?
        <==> (NodeOutput(t.stage, data, env).Ok? && ChildrenRun(t, NodeOutput(t.stage, data, env).value, 0, 0, env))
  {
    RunOkIff(t, data, 0, env);
  }

  /** Within the children's part of the trace, child `j`'s segment is exactly
      the run of child `j` on its share of the batch. */
  lemma {:induction false} EdgeSegment(t: PbTree, out: seq<Message>, i: nat, j: nat, count: nat, env: Env)
    requires ArrivalsArePermutations(env)
    requires i <= j < |t.children|
    requires RunEdges(t, out, i, count, env).Ok?
    ensures Run(t.children[j].node, ChildBatch(t, out, j), count + 1, env).Ok?
    ensures EdgeOffset(t, i, j) + Size(t.children[j].node) <= |RunEdges(t, out, i, count, env).value|
    ensures RunEdges(t, out, i, count, env).value[EdgeOffset(t, i, j)..EdgeOffset(t, i, j) + Size(t.children[j].node)]
         == Run(t.children[j].node, ChildBatch(t, out, j), count + 1, env).value
    decreases j - i
  {
    if i == j {
      FirstEdgeSegment(t, out, i, count, env);
    } else {
      EdgeSegment(t, out, i + 1, j, count, env);
      LaterEdgeSegment(t, out, i, j, count, env);
    }
  }

  /** Child `i`'s saves open the trace of the children from `i` on. */
  lemma FirstEdgeSegment(t: PbTree, out: seq<Message>, i: nat, count: nat, env: Env)
    requires ArrivalsArePermutations(env)
    requires i < |t.children|
    requires RunEdges(t, out, i, count, env).Ok?
    ensures Run(t.children[i].node, ChildBatch(t, out, i), count + 1, env).Ok?
    ensures Size(t.children[i].node) <= |RunEdges(t, out, i, count, env).value|
    ensures RunEdges(t, out, i, count, env).value[..Size(t.children[i].node)]
         == Run(t.children[i].node, ChildBatch(t, out, i), count + 1, env).value
  {
    RunEdgesSplit(t, out, i, count, env);
    Seqs.SliceAfter(Run(t.children[i].node, ChildBatch(t, out, i), count + 1, env).value, RunEdges(t, out, i + 1, count, env).value, 0, 0);
  }

  /** A segment of the children after `i` sits, shifted by child `i`'s size,
      in the trace of the children from `i` on. */
  lemma LaterEdgeSegment(t: PbTree, out: seq<Message>, i: nat, j: nat, count: nat, env: Env)
    requires ArrivalsArePermutations(env)
    requires i < j < |t.children|
    requires RunEdges(t, out, i, count, env).Ok?
    requires RunEdges(t, out, i + 1, count, env).Ok?
    requires EdgeOffset(t, i + 1, j) + Size(t.children[j].node) <= |RunEdges(t, out, i + 1, count, env).value|
    ensures EdgeOffset(t, i, j) + Size(t.children[j].node) <= |RunEdges(t, out, i, count, env).value|
    ensures RunEdges(t, out, i, count, env).value[EdgeOffset(t, i, j)..EdgeOffset(t, i, j) + Size(t.children[j].node)]
         == RunEdges(t, out, i + 1, count, env).value[EdgeOffset(t, i + 1, j)..EdgeOffset(t, i + 1, j) + Size(t.children[j].node)]
  {
    RunEdgesSplit(t, out, i, count, env);
    EdgeOffsetStep(t, i, j);
    Seqs.ShiftSlice(RunEdges(t, out, i, count, env).value, Run(t.children[i].node, ChildBatch(t, out, i), count + 1, env).value,
                    RunEdges(t, out, i + 1, count, env).value, EdgeOffset(t, i, j), EdgeOffset(t, i + 1, j), Size(t.children[j].node));
  }

  /** The children's trace from `i` on is child `i`'s saves followed by the
      trace of the children after it. */
  lemma RunEdgesSplit(t: PbTree, out: seq<Message>, i: nat, count: nat, env: Env)
    requires ArrivalsArePermutations(env)
    requires i < |t.children|
    requires RunEdges(t, out, i, count, env).Ok?
    ensures Run(t.children[i].node, ChildBatch(t, out, i), count + 1, env).Ok?
    ensures RunEdges(t, out, i + 1, count, env).Ok?
    ensures |Run(t.children[i].node, ChildBatch(t, out, i), count + 1, env).value| == Size(t.children[i].node)
    ensures RunEdges(t, out, i, count, env).value
         == Run(t.children[i].node, ChildBatch(t, out, i), count + 1, env).value + RunEdges(t, out, i + 1, count, env).value
  {
    RunEdgesStep(t, out, i, count, env);
  }

  lemma EdgeOffsetStep(t: PbTree, i: nat, j: nat)
    requires i < j <= |t.children|
    ensures EdgeOffset(t, i, j) == Size(t.children[i].node) + EdgeOffset(t, i + 1, j)
  {
  }

  /** Child `j` of a node that ran successfully ran on its share of the
      node's batch; its saves follow those of the earlier children. */
  lemma ChildRunsOnItsShare(t: PbTree, data: seq<Message>, count: nat, env: Env, j: nat)
    requires ArrivalsArePermutations(env)
    requires j < |t.children|
    requires Run(t, data, count, env).Ok?
    ensures NodeOutput(t.stage, data, env).Ok?
    ensures Run(t.children[j].node, ChildBatch(t, NodeOutput(t.stage, data, env).value, j), count + 1, env).Ok?
    ensures 1 + EdgeOffset(t, 0, j) + Size(t.children[j].node) <= Size(t)
    ensures Run(t, data, count, env).value[1 + EdgeOffset(t, 0, j)..1 + EdgeOffset(t, 0, j) + Size(t.children[j].node)]
         == Run(t.children[j].node, ChildBatch(t, NodeOutput(t.stage, data, env).value, j), count + 1, env).value
  {
    var out := NodeOutput(t.stage, data, env).value;
    var below := RunEdges(t, out, 0, count, env).value;
    EdgeSegment(t, out, 0, j, count, env);
    var lo := EdgeOffset(t, 0, j);
    var hi := lo + Size(t.children[j].node);
    assert Run(t, data, count, env).value == [Saved(t.stage.Name(), out)] + below;
    Seqs.SliceAfter([Saved(t.stage.Name(), out)], below, lo, hi);
  }

  /** Every child of a non-Logic node runs on the node's whole batch,
      whatever its edge label. */
  lemma BroadcastToEveryChild(t: PbTree, data: seq<Message>, count: nat, env: Env, j: nat)
    requires ArrivalsArePermutations(env)
    requires !t.stage.Logic? && j < |t.children|
    requires Run(t, data, count, env).Ok?
    ensures Run(t.children[j].node, NodeOutput(t.stage, data, env).value, count + 1, env).Ok?
    ensures 1 + EdgeOffset(t, 0, j) + Size(t.children[j].node) <= Size(t)
    ensures Run(t, data, count, env).value[1 + EdgeOffset(t, 0, j)..1 + EdgeOffset(t, 0, j) + Size(t.children[j].node)]
         == Run(t.children[j].node, NodeOutput(t.stage, data, env).value, count + 1, env).value
  {
    ChildRunsOnItsShare(t, data, count, env, j);
  }

  /** Every child of a Logic node runs on exactly the results whose route
      text is its label, in batch order. */
  lemma LogicChildGetsItsRoute(t: PbTree, data: seq<Message>, count: nat, env: Env, j: nat)
    requires ArrivalsArePermutations(env)
    requires t.stage.Logic? && j < |t.children|
    requires Run(t, data, count, env).Ok?
    ensures var out := NodeOutput(t.stage, data, env).value;
      Run(t.children[j].node, Dispatch.ForRoute(out, t.children[j].route), count + 1, env).Ok?
      && forall m :: m in Dispatch.ForRoute(out, t.children[j].route)
           <==> m in out && Dispatch.RouteText(m) == t.children[j].route
    ensures 1 + EdgeOffset(t, 0, j) + Size(t.children[j].node) <= Size(t)
    ensures Run(t, data, count, env).value[1 + EdgeOffset(t, 0, j)..1 + EdgeOffset(t, 0, j) + Size(t.children[j].node)]
         == Run(t.children[j].node, Dispatch.ForRoute(NodeOutput(t.stage, data, env).value, t.children[j].route), count + 1, env).value
  {
    ChildRunsOnItsShare(t, data, count, env, j);
  }

  // -----------------------------------------------------------------------
  // Labels matter only below Logic nodes

  /** The same tree with every edge of the root relabelled. */
  predicate SameButLabels(t: PbTree, u: PbTree) {
    && t.stage == u.stage
    && |t.children| == |u.children|
    && forall i :: 0 <= i < |t.children| ==> t.children[i].node == u.children[i].node
  }

  lemma {:induction false} RelabelEdges(t: PbTree, u: PbTree, out: seq<Message>, i: nat, count: nat, env: Env)
    requires ArrivalsArePermutations(env)
    requires SameButLabels(t, u) && !t.stage.Logic?
    requires i <= |t.children|
    ensures RunEdges(t, out, i, count, env) == RunEdges(u, out, i, count, env)
    decreases |t.children| - i
  {
    if i < |t.children| {
      var headT := Run(t.children[i].node, ChildBatch(t, out, i), count + 1, env);
      var headU := Run(u.children[i].node, ChildBatch(u, out, i), count + 1, env);
      var tailT, tailU := RunEdges(t, out, i + 1, count, env), RunEdges(u, out, i + 1, count, env);
      assert tailT == tailU by {
        RelabelEdges(t, u, out, i + 1, count, env);
      }
      assert headT == headU by {
        SameChildRun(t, u, out, i, count, env);
      }
      RunEdgesStep(t, out, i, count, env);
      RunEdgesStep(u, out, i, count, env);
    }
  }

  /** Child `i` of either tree runs on the same batch. */
  lemma SameChildRun(t: PbTree, u: PbTree, out: seq<Message>, i: nat, count: nat, env: Env)
    requires ArrivalsArePermutations(env)
    requires SameButLabels(t, u) && !t.stage.Logic?
    requires i < |t.children|
    ensures Run(t.children[i].node, ChildBatch(t, out, i), count + 1, env)
         == Run(u.children[i].node, ChildBatch(u, out, i), count + 1, env)
  {
    assert u.children[i].node == t.children[i].node;
    assert ChildBatch(t, out, i) == out == ChildBatch(u, out, i);
  }

  /** A non-Logic node's edge labels do not change the run. */
  lemma RelabelNonLogic(t: PbTree, u: PbTree, data: seq<Message>, count: nat, env: Env)
    requires ArrivalsArePermutations(env)
    requires SameButLabels(t, u) && !t.stage.Logic?
    ensures Run(t, data, count, env) == Run(u, data, count, env)
  {
    if NodeOutput(t.stage, data, env).Ok? {
      RelabelEdges(t, u, NodeOutput(t.stage, data, env).value, 0, count, env);
    }
  }

  // -----------------------------------------------------------------------
  // The depth limit and the tree builder

  /** A playbook of at most 201 stages that builds never trips the depth limit. */
  lemma BuiltPlaybookWithinDepthLimit(mods: seq<Module>, data: seq<Message>, env: Env)
    requires ArrivalsArePermutations(env)
    requires |mods| <= MaxDepth + 1
    requires New(mods).Ok?
    ensures Execute(New(mods).value, data, env).Err? ==>
      Execute(New(mods).value, data, env).fault != RecursionLimit
  {
    HeightMonotone(New(mods).value, |mods|, MaxDepth + 1);
  }

  lemma {:induction false} HeightMonotone(t: PbTree, h: int, h': int)
    requires HeightAtMost(t, h) && h <= h'
    ensures HeightAtMost(t, h')
    decreases t
  {
    forall i | 0 <= i < |t.children| ensures HeightAtMost(t.children[i].node, h' - 1) {
      HeightMonotone(t.children[i].node, h - 1, h' - 1);
    }
  }

  /** A run that enters an unimplemented stage fails, wherever it sits. */
  lemma UnimplementedStageFails(t: PbTree, data: seq<Message>, count: nat, env: Env)
    requires ArrivalsArePermutations(env)
    requires Unimplemented(t.stage)
    ensures Run(t, data, count, env).Err?
  {
  }
}
