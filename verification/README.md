# emulator-rs core, modelled in Dafny

This project models the sequential core of emulator-rs, a billing-mediation
pipeline emulator. A playbook is a flat list of stage declarations (`Module`).
The builder turns the list into a routing tree (`PbTree`). A batch of
ingested messages then runs through that tree:

- Logic stages send every message to script workers and put the results back in
  input order. Each child then gets the results whose "route" matches its edge
  label.
- Splitting stages turn one message into one message per array element.
- Ingestion stages pass the batch unchanged to every child.

Each message carries a mediation map (`billingmediation`), a JSON payload
text and a date tag.

The files are:

| file | module | models |
|---|---|---|
| wrappers.dfy | `Wrappers` | `Option`, `Result`, and `Fault`, which stands for the panics of the code |
| seqs.dfy | `Seqs` | small facts about sequence slicing and concatenation |
| batch.dfy | `Batch` | a batch operation: one step per element, results concatenated, the first failure stops it |
| text.dfy | `Text` | `split_once`, `split` and `join` on strings |
| json.dfy | `JsonValue` | JSON values, member lookup along a path, replacement at a path |
| json_text.dfy | `JsonText` | compact JSON text (`Value::to_string`): integers, escaped strings, sorted object keys |
| playbook.dfy | `Playbook` | `Module`, `name`, `input`, `IngestionSchema::file`, script collection of `get_scripts` |
| tree.dfy | `Tree` | `PbTree::new` and `PbTree::recurse` |
| envelope.dfy | `Envelope` | `MessageInner`, `Message`, `Display`, `from_with_bm`, `From` |
| splitting.dfy | `Splitting` | `json_split`, `split_payload`, `split_billingmediation`, the Splitting arm |
| dispatch.dfy | `Dispatch` | the Logic arm: export name, index-sorted reassembly, routing by route text |
| execution.dfy | `Execution` | `recurse` and `route_output` as one sequential function |
| ingestion.dfy | `Ingestion` | line selection and message construction of `ingest` |

A panic on the calling thread of the modelled code (`unwrap`, indexing
out of range, `assert!`, `todo!()`, the recursion limit) is an `Err`, and
most have a `Fault` of their own. Two groups are not modelled, and "## Left
out" gives both: a panic inside a V8 worker, and a panic inside `save`.

The environment becomes parameters:

- the JSON text parser (`parse`, and the `Locator` that finds an array in a
  payload);
- the renderer of an object (`render`);
- the scripts (`Script`);
- the order in which workers answer (`Env.arrival`, required to be a
  permutation);
- the anonymiser (`Anonymiser`);
- the line pattern (a predicate).

### Behaviour of the code worth knowing

- **Tree building.** `PbTree::recurse` (src/tree.rs) attaches a later module
  only through the next module in the list.
  - It looks only at the next module's `input`. For modules after it, it
    looks at their `name`.
  - Every edge it adds wraps the next module.
  - It fails on the one-module suffix at `&mods[2..]`.
  - As a result, no two-module playbook builds (`Tree.TwoModuleListFails`).
    Nor does an ingestion → splitting → logic chain, each stage reading the
    previous one's output (`Tree.IngestSplitLogicPlaybookFails`).
  - A list builds exactly when the recursion reaches a level, at least two
    modules from the end, whose module does not attach (`Tree.RecurseOkIff`,
    `Tree.NewOkIff`, with the four-stage example `Tree.FourStagePlaybookBuilds`).
- **Splitting by mediation map.** `split_billingmediation` reads the array at
  `bm[p0][p0][p1]…` but writes at `bm[p0][p1]…`.
  - A flat mediation map `{"items": [1, 2]}` split at "billingmediation.items" fails
    instead of giving two messages (`Splitting.FlatMediationArrayFails`).
- **Routing.** The route text is the JSON text of the "route" value.
  - A message whose route is the string `reject` is therefore routed to a child
    labelled `"reject"`, with the quotes (`Dispatch.StringRouteReachesQuotedLabel`).
  - It never reaches a child labelled `reject` (`Dispatch.StringRouteMissesBareLabel`).
- **Empty rules.** `get_scripts` asserts that every Logic stage has rules.
  - The Logic arm reads `rules.last()` only once per message.
  - So with an empty batch, a rule-less Logic stage does not fail there
    (`Dispatch.LogicStage`).

## Model

| member | source | states |
|---|---|---|
| `Playbook.IngestionSchema.File` | src/playbook.rs:94-99 | every format variant yields its `file` field |
| `Playbook.Module.Name` | src/playbook.rs:173-184 | every stage kind yields its declared `name` |
| `Playbook.Module.Input` | src/playbook.rs:185-196 | ingestion stages have no producer reference; the six other kinds report the one they declare |
| `Playbook.FindSource` | src/playbook.rs:58 | the path of the first listing entry with the rule's file name, and nothing exactly when no entry has that name |
| `Playbook.DedupSpec` | src/playbook.rs:59-62 | the guarded pushes keep every hit once, with no duplicates, in first-occurrence order |
| `Playbook.ScriptHitsFailureSticks` | src/playbook.rs:53-55 | once a rule-less Logic stage is met, the assertion failure decides the outcome whatever follows |
| `Playbook.RulePathsMembers` | src/playbook.rs:57-61 | a stage contributes exactly the paths that one of its rules resolves to |
| `Playbook.ScriptHitsErrIff` | src/playbook.rs:53-55 | the `assert!` fails exactly when some Logic stage declares no rules |
| `Playbook.ScriptHitsMembers` | src/playbook.rs:52-64 | the hits are exactly the paths some rule of some Logic stage resolves to |
| `Playbook.CollectScripts` | src/playbook.rs:40-66 | fails exactly when some Logic stage has no rules; otherwise a path is collected exactly when some rule of some Logic stage resolves to it, each path once, in the order of the stage-by-stage, rule-by-rule hits |
| `Text.SplitOnce` | src/tree.rs:30 | nothing exactly when the separator is absent; otherwise the text is the part before the first separator, the separator, and the rest |
| `Text.SplitOnceOfJoin` | src/tree.rs:61 | splitting `a + "." + b` with a dot-free `a` gives back `(a, b)` |
| `Text.SplitOnceStr` | src/execution.rs:70 | the split is at the leftmost occurrence of the pattern, and nothing is returned when it never occurs |
| `Text.Split` | src/execution.rs:116 | at least one piece, no piece holds the separator, and joining the pieces gives the text back |
| `Text.SplitOfJoin` | src/execution.rs:116 | splitting undoes joining when no piece holds the separator |
| `Tree.FeedsIsSplitOnce` | src/tree.rs:30-31 | a reference feeds `(producer, route)` exactly when its first-dot split is that pair |
| `Tree.ExtraLabelsSpec` | src/tree.rs:60-62 | a label is added for a later module exactly when that module's name reads `"<current>.<label>"` |
| `Tree.Recurse` | src/tree.rs:24-76 | no modules give no edges; a one-module suffix fails; every edge wraps the suffix's first module with the subtree built from the rest; height is bounded by the suffix length |
| `Tree.New` | src/tree.rs:14-23 | an empty list fails; the root holds the first module, its children are the edges built from the rest of the list, and the tree is no taller than the list |
| `Tree.NoInputHangsOnOutput` | src/tree.rs:44-53 | a next module without input becomes the first child, on "output" |
| `Tree.MatchingInputHangsOnLabel` | src/tree.rs:28-41 | a next module whose input is `"<current>.<label>"` becomes the first child, on that label |
| `Tree.MismatchedInputAddsNothing` | src/tree.rs:28-43 | a next module whose input names another producer adds no edge; every remaining edge comes from a later module's name |
| `Tree.RecurseRoutes` | src/tree.rs:27-75 | the edge labels are the next module's label, if it attaches, followed by the later modules' labels in list order |
| `Tree.LaterNameAddsCopy` | src/tree.rs:60-74 | every later module named `"<current>.<label>"` adds a copy of the next module's subtree on that label |
| `Tree.RecurseStep` | src/tree.rs:27-76 | with two or more modules left, recursion succeeds when the first module attaches neither on its input nor on a later name, and otherwise exactly when the recursion on the rest succeeds |
| `Tree.RecurseOkIff` | src/tree.rs:24-76 | recursion succeeds exactly when no modules are left or some level at least two modules from the end does not attach; this is both directions of when the builder succeeds |
| `Tree.NewOkIff` | src/tree.rs:14-23 | a playbook builds exactly when it is a single stage, or it has three or more stages and some level of its tail does not attach |
| `Tree.FourStagePlaybookBuilds` | src/tree.rs:14-76 | a concrete four-stage list builds: the second stage hangs on the root's "output" with no children, and the last two stages stay out of the tree |
| `Tree.TwoLeftSucceedsIffNextDetached` | src/tree.rs:27-60 | with two modules left, recursion succeeds exactly when the first of them does not attach |
| `Tree.RecurseShallow` | src/tree.rs:24-76 | with two or more modules left, every subtree built is at most two levels shorter than the list, since the last module of a suffix never becomes a node |
| `Tree.NewShallow` | src/tree.rs:14-23 | a built tree of three or more modules is at most the list length minus two tall |
| `Tree.TwoModuleListFails` | src/tree.rs:14-60 | no two-module playbook can be built |
| `Tree.ThreeStageChainFails` | src/tree.rs:14-60 | a three-module list whose second module attaches to the root cannot be built |
| `Tree.IngestSplitLogicPlaybookFails` | src/tree.rs:14-60 | the ingestion, splitting and logic chain In, Sp, Lg cannot be built |
| `JsonValue.Member` | src/execution.rs:203 | a member is found exactly when the value is an object holding that key |
| `JsonValue.Replace` | src/execution.rs:213-218 | after the write the path holds the new value; the other members along the path are unchanged |
| `JsonValue.ReplaceFrame` | src/execution.rs:213-218 | a write at a path leaves every location that branches off the path, at any depth, as it was |
| `JsonValue.ReplaceKeepsKeys` | src/execution.rs:213-218 | every object along the written path keeps its key set |
| `JsonValue.ReplaceSame` | src/execution.rs:213-218 | writing back the value already at a path changes nothing |
| `JsonValue.ReplaceTwice` | src/execution.rs:212-218 | the second write to the same path wins, so each split message can start from the same map |
| `JsonText.NatTextValue` | src/execution.rs:87 | the decimal text of a number reads back as that number |
| `JsonText.IntText` | src/execution.rs:87 | an integer's text starts with a minus sign exactly when it is negative |
| `JsonText.EscapeChar` | src/execution.rs:87 | a plain character is written as itself; any other character is written as an escape of at least two characters starting with a backslash |
| `JsonText.UnescapeChar` | src/execution.rs:87 | decoding the escape of one character gives that character back, whatever text follows |
| `JsonText.UnescapeEscape` | src/execution.rs:87 | unescaping the escaped text of a string gives the string back |
| `JsonText.EscapePlain` | src/execution.rs:87 | a string without quotes, backslashes or control characters is its own escape |
| `JsonText.SortedKeys` | src/execution.rs:87 | object keys are written each once, in strictly increasing order |
| `JsonText.Serialize` | src/execution.rs:87 | the first character tells the kind of value: `"` for a string, `[` for an array, `{` for an object, a sign or digit for a number; strings, arrays and objects end with the matching closing character |
| `JsonText.IntTextInjective` | src/execution.rs:87 | different integers have different texts |
| `JsonText.QuoteInjective` | src/execution.rs:87 | different strings have different quoted texts |
| `JsonText.ScalarTextInjective` | src/execution.rs:87 | two nulls, booleans, numbers or strings with the same text are the same value, so a route text names one scalar route |
| `JsonText.StringTextKeepsQuotes` | src/execution.rs:83-88 | the text of a string value never equals the string itself |
| `JsonText.PlainStringText` | src/execution.rs:83-88 | the text of a plain string is the string in double quotes |
| `Envelope.FromPayload` | src/opts.rs:65-71 | a wrapped payload has an empty mediation map and that payload |
| `Envelope.Display` | src/opts.rs:53-62 | succeeds exactly when the payload parses to an object; the result is that object with "billingmediation" set to the mediation map |
| `Envelope.FromWithBm` | src/opts.rs:17-36 | succeeds exactly for an object whose "billingmediation" member, if any, is an object; the mediation map is that member or empty, the payload is the rest |
| `Envelope.DisplayThenFromWithBm` | src/opts.rs:29-62 | reading back a rendered envelope gives its mediation map and its payload object without "billingmediation" |
| `Envelope.FromWithBmThenDisplay` | src/opts.rs:29-62 | rendering a read-in object gives the object back, with an empty mediation member added when it had none |
| `Envelope.FromPayloadDisplay` | src/opts.rs:53-71 | a freshly wrapped payload renders with an empty mediation member |
| `Splitting.Splice` | src/execution.rs:265-281 | one splice keeps the length and all bytes outside the array interior; the interior is the element then spaces |
| `Splitting.JsonSplit` | src/execution.rs:250-292 | no elements give no payloads, one gives the input itself; otherwise one payload per element exactly when each fits, each as long as the input, unchanged outside the interior, the interior being the element's text then spaces |
| `Splitting.JsonSplitInPlace` | src/execution.rs:262-291 | the in-place loop over a byte copy computes the same payloads |
| `Splitting.SplitPayload` | src/execution.rs:231-248 | succeeds exactly when the array is located, its span is valid and the splice of every element succeeds; message i carries the i-th spliced payload, with the original mediation map and date; one element gives the message back |
| `Splitting.SplitBillingMediation` | src/execution.rs:192-229 | fails on an empty path; succeeds exactly when the doubled read path leads to an array and, for a non-empty one, the write path exists; one message per element, each with the payload and date kept and the one-element array written at the path; every location that branches off the write path, at any depth, is untouched |
| `Splitting.WriteAt` | src/execution.rs:212-218 | after the write the path holds the one-element array, the key set of every object along the path is unchanged, and every location branching off the path is unchanged |
| `Splitting.FlatMediationArrayFails` | src/execution.rs:199-204 | the map `{"items": [1, 2]}` split at "billingmediation.items" fails |
| `Splitting.SplitMessage` | src/execution.rs:116-137 | the path is cut at dots; a lone "billingmediation" segment fails; a longer "billingmediation" path succeeds exactly when the doubled read path leads to an array (and, when it is not empty, the write path exists), and message i holds element i alone at the rest of the path; any other path succeeds exactly when the array is located and spliced, and message i carries splice i; the untouched half and the date are kept |
| `Splitting.SplitBatch` | src/execution.rs:119-138 | succeeds exactly when every message splits; only split faults can occur; every output carries the date of some input |
| `Splitting.SplitBatchFirstFailure` | src/execution.rs:119-138 | a failing batch fails with the fault of its first message that fails to split |
| `Splitting.SplitBatchAppend` | src/execution.rs:119-138 | outputs are concatenated in input-message order |
| `Splitting.SplitBatchSingle` | src/execution.rs:119-138 | a one-message batch splits as that message |
| `Dispatch.ExportName` | src/execution.rs:67-73 | no rules or no ".js" in the last rule fail; otherwise the prefix of the last rule before its first ".js" |
| `Dispatch.Invoke` | src/js.rs:131-149 | a worker keeps the message's date |
| `Dispatch.SortByIdx` | src/execution.rs:92 | the replies are ordered by position and are a permutation of those received |
| `Dispatch.SortedRepliesStrict` | src/execution.rs:80-92 | after sorting, no position appears twice, since every position was sent once |
| `Dispatch.DispatchOrderLaw` | src/execution.rs:80-92 | for every arrival permutation, position i of the reassembled batch is the result for input i |
| `Dispatch.RouteText` | src/execution.rs:83-88 | without a "route" member the route is "output" |
| `Dispatch.ForRoute` | src/execution.rs:97-102 | a child gets exactly the results whose route text is its label |
| `Dispatch.ForRouteAppend` | src/execution.rs:98-102 | filtering keeps the batch order |
| `Dispatch.StringRouteMissesBareLabel` | src/execution.rs:83-104 | a string route never reaches the child labelled with the bare string |
| `Dispatch.StringRouteReachesQuotedLabel` | src/execution.rs:83-104 | a plain string route reaches the child labelled with the quoted string |
| `Dispatch.LogicStage` | src/execution.rs:57-92 | an empty batch gives no results; otherwise it fails exactly when the export name does, else one result per input, in input order |
| `Execution.NodeOutput` | src/execution.rs:49-154 | ingestion passes the batch through, the `todo!()` kinds fail; Logic gives nothing for an empty batch, otherwise succeeds exactly when the export name is found, with one script result per input in order; Splitting succeeds exactly when every message splits at the dot-cut path, and keeps dates |
| `Execution.Run` | src/execution.rs:36-158 | past depth 200 it fails; a node's failure is the run's; a successful run saves once per node |
| `Execution.RunEdges` | src/execution.rs:97-106 | the children's saves, one per node below |
| `Execution.RunSavesOwnOutputFirst` | src/execution.rs:160-176 | a successful run saves the node's own output first, under its stage's name |
| `Execution.RunWithinDepth` | src/execution.rs:44-45 | a node no taller than the levels left below depth 200 never fails with the recursion limit |
| `Execution.RunEdgesWithinDepth` | src/execution.rs:97-104 | the same for the children from any edge on |
| `Execution.Execute` | src/execution.rs:31-33 | the root runs at depth 0; a successful run saves once per node, the root first |
| `Execution.RunEdgesOkIff` | src/execution.rs:97-106 | the children from edge i on all succeed exactly when each of them runs without failure on its share, one level deeper |
| `Execution.RunOkIff` | src/execution.rs:36-158 | a run succeeds exactly when the depth is at most 200, the node's own stage succeeds and every child succeeds on its share |
| `Execution.ExecuteOkIff` | src/execution.rs:31-33 | a playbook run succeeds exactly when the root's stage succeeds and every child of the root succeeds on its share |
| `Execution.EdgeSegment` | src/execution.rs:97-104 | in the children's saves, child j's segment is the run of child j on its share |
| `Execution.RunEdgesSplit` | src/execution.rs:97-104 | the children's saves from edge i on are child i's saves, which have one entry per node of its subtree, followed by those of the later children |
| `Execution.ChildRunsOnItsShare` | src/execution.rs:97-104 | a child of a successful node ran on its share of the node's batch |
| `Execution.BroadcastToEveryChild` | src/execution.rs:169-181 | every child of a non-Logic node runs on the whole batch, and its saves are exactly its segment of the trace |
| `Execution.LogicChildGetsItsRoute` | src/execution.rs:97-104 | every child of a Logic node runs on exactly the results routed to its label, and its saves are exactly its segment of the trace |
| `Execution.RelabelNonLogic` | src/execution.rs:177-181 | edge labels below a non-Logic node do not change the run |
| `Execution.BuiltPlaybookWithinDepthLimit` | src/execution.rs:44-45 | a built playbook of at most 201 stages never hits the recursion limit |
| `Execution.UnimplementedStageFails` | src/execution.rs:142-150 | a run entering Lookup, Reporting, Aggregation or Deduplication fails |
| `Ingestion.Trim` | src/ingestion.rs:55 | the result is a slice of the text with only white space cut off either end, and starts and ends with non-white space |
| `Ingestion.TrimIdempotent` | src/ingestion.rs:55 | trimming twice changes nothing more |
| `Ingestion.Lines` | src/ingestion.rs:56 | no line holds a newline |
| `Ingestion.LinesOfJoin` | src/ingestion.rs:56 | cutting newline-joined lines gives the lines back |
| `Ingestion.Filter` | src/ingestion.rs:58 | a line is kept exactly when it matches the pattern, or when there is none |
| `Ingestion.NoPatternKeepsAll` | src/ingestion.rs:58 | without a pattern every line is kept |
| `Ingestion.KeptIndices` | src/ingestion.rs:57-58 | the kept positions are at or past the skip point, hold matching lines, and increase |
| `Ingestion.KeptIndicesComplete` | src/ingestion.rs:57-58 | every matching position at or past the skip point is kept |
| `Ingestion.KeptIndicesFilter` | src/ingestion.rs:57-58 | the kept positions hold exactly the lines the filter keeps from the skipped list, in order |
| `Ingestion.SelectLines` | src/ingestion.rs:54-61 | fails exactly when more lines are dropped than kept; otherwise the matching lines after the first `head` raw lines, in order, minus the last `tail` |
| `Ingestion.GrammarFile` | src/ingestion.rs:78-85 | only ingestion stages have a grammar file, their schema's `file` |
| `Ingestion.DateOf` | src/ingestion.rs:112-114 | the process date, or "" without metadata |
| `Ingestion.IngestOne` | src/ingestion.rs:54-137 | selection and root-kind failures first, then a line-count mismatch; once lines are selected under an ingestion root it succeeds exactly when the anonymiser returns one record per line; a success holds one message per line, record as payload, empty mediation map, the input's date |
| `Ingestion.Ingest` | src/ingestion.rs:38-139 | succeeds exactly when every input does; every message has an empty mediation map; the first input's messages come first, and a failing first input is the result |
| `Ingestion.IngestFirstFailure` | src/ingestion.rs:38-139 | when some input fails, the ingestion fails, with the fault of its first failing input |
| `Ingestion.IngestAppend` | src/ingestion.rs:123-137 | when every input of both parts ingests, the messages of all inputs are concatenated in input order |
| `Ingestion.NonIngestionRootFails` | src/ingestion.rs:78-85 | a root that is not an ingestion stage fails once lines are selected |

## Left out

- Concurrency. The tokio, rayon and crossbeam fan-out, `join_all` and `spawn`
  are left out. Children run one after another, in edge order.
- Execution.Run: when several children panic, the engine fails on
  whichever panics first. The model reports the first failure in edge
  order.
- `save` (src/execution.rs:160-167) writes each batch to a file. The model
  records the stage name and batch it would write.
- Execution.Run: a panic inside `save` is not modelled. `save` renders every
  message with `Display`, whose `unwrap` (src/opts.rs:54) panics on a payload
  that is not a JSON object text. It also unwraps `fs::write`
  (src/execution.rs:164).
  - For an ingestion or Splitting node, `route_output` unwraps the save
    handle (src/execution.rs:189), so the whole run panics.
  - For a Logic node the save result is thrown away
    (src/execution.rs:106), so the run goes on.
  - The model renders nothing while saving. A Splitting node whose output
    payloads are not JSON object texts therefore gives `Ok` in the model,
    but the code panics.
- Splitting.SplitPayload: `json_split` panics in two places. One is when
  nothing is at the path (src/execution.rs:251). The other is when the
  located text is not an array (src/execution.rs:254). A single `Locator`
  answer decides both, so both become `PathNotFound`.
- The V8 workers of src/js.rs. A script export is a pure function of the
  export name and envelope.
  - The fallback to a no-op function for a missing export is part of that
    function.
  - So is the JSON round trip through the engine.
- A panic inside a worker is left out. Two examples:
  - the `unwrap` of `Display` on a payload that is not a JSON object
    (src/opts.rs:54, reached from src/js.rs:135);
  - a script that throws (src/js.rs:142).
  - Either panic ends the worker thread. The Logic arm still holds
    `return_tx` (src/execution.rs:57, cloned at 66), so `rx.recv()`
    (src/execution.rs:82) waits forever and the run hangs.
  - In the model the `Script` is total, so this hang cannot happen.
- JSON text parsing and serde/sonic rendering are parameters. The array
  span and the element texts come from the `Locator`.
- Floating-point numbers are left out: `JNum` holds integers only.
- JsonText.Serialize: distinct texts for distinct values are proved for
  null, booleans, numbers and strings only. For arrays and objects the model
  proves the opening and closing characters, not injectivity.
- JsonText.Serialize writes object keys in sorted order, which is the order
  of serde_json's default map.
- Reading files and directories is left out:
  - the YAML playbook loading (`Playbook::new`);
  - the directory scans and reads of `get_scripts`;
  - the input files of `ingest`.
- The `.cache` directory and `DefaultHasher` key of `ingest` are left out.
  Ingestion.IngestOne models a cache miss. On a cache hit the code skips
  both the root-kind panic and the line-count assertion.
- `call_anon` runs the Java anonymiser and is a parameter.
- Regex compilation, and its `unwrap` on a bad pattern, are left out. The
  pattern is a line predicate.
- Ingestion.SelectLines: `lines.len() - tail` is modelled as the checked
  subtraction of a debug build, which panics. A release build wraps
  instead, and `truncate` then keeps every line.
- `allow_empty` of Splitting and `routes` of Logic are read by nothing in
  the code. They are carried but unused.
- The unused free function `new` of src/tree.rs:79-111 is left out.
- src/driver.rs, src/main.rs, src/lib.rs and benches/load.rs are left out.
- The `Benchmarker` timing calls are left out.
- Payloads are byte sequences. Strings are sequences of characters with
  no encoding.
