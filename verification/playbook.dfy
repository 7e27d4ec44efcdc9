/**
  The playbook's stage declarations (`Module`) and the collection of the
  script files the Logic stages name (`Playbook::get_scripts`).

  Loading the YAML and reading the directories and files are left to the
  caller: the directory listing is an input sequence of `SourceFile`s (the
  `logic` directory first, then the shared libraries), and the result is the
  list of paths whose contents would then be read.
*/
module Playbook {
  import opened Wrappers
  import Seqs

  datatype IngestionSchema =
    | Csv(file: string, separator: string, mapping: map<string, string>)
    | Edifact(file: string)
    | JsonRecords(file: string)
  {
    /** The grammar file of the format, whichever format it is. */
    function File(): (f: string)
      ensures f == file
    {
      match this
      case Csv(f, _, _) => f
      case Edifact(f) => f
      case JsonRecords(f) => f
    }
  }

  datatype SchemaRecords = SchemaRecords(records: IngestionSchema)

  datatype ReportingFrequency = Daily | Weekly | Monthly

  /** One stage declaration. Every stage has a unique `name`; all but the two
      ingestion stages may name their producer as `input = "<producer>.<route>"`. */
  datatype Module =
    | MessageIngestion(schema: IngestionSchema, name: string)
    | FileIngestion(recordSchema: SchemaRecords, name: string)
    | Splitting(arrayPath: string, allowEmpty: bool, name: string, input: Option<string>)
    | Reporting(scheduling: ReportingFrequency, format: string, name: string, input: Option<string>)
    | Logic(rules: seq<string>, routes: seq<string>, name: string, input: Option<string>)
    | Aggregation(key: seq<string>, name: string, input: Option<string>)
    | Deduplication(key: seq<string>, name: string, input: Option<string>)
    | Lookup(name: string, input: Option<string>)
  {
    predicate IsIngestion() {
      MessageIngestion? || FileIngestion?
    }

    /** The stage's declared name, for every kind of stage. */
    function Name(): (r: string)
      ensures r == name
    {
      match this
      case MessageIngestion(_, name) => name
      case FileIngestion(_, name) => name
      case Splitting(_, _, name, _) => name
      case Reporting(_, _, name, _) => name
      case Logic(_, _, name, _) => name
      case Aggregation(_, name, _) => name
      case Deduplication(_, name, _) => name
      case Lookup(name, _) => name
    }

    /** The producer reference: ingestion stages have none, every other kind
        reports the one it declares. */
    function Input(): (r: Option<string>)
      ensures IsIngestion() ==> r.None?
      ensures !IsIngestion() ==> r == input
    {
      match this
      case MessageIngestion(_, _) => None
      case FileIngestion(_, _) => None
      case Splitting(_, _, _, input) => input
      case Reporting(_, _, _, input) => input
      case Logic(_, _, _, input) => input
      case Aggregation(_, _, input) => input
      case Deduplication(_, _, input) => input
      case Lookup(_, input) => input
    }
  }

  // -----------------------------------------------------------------------
  // Script collection

  /** One entry of a directory listing: its file name and its full path. */
  datatype SourceFile = SourceFile(fileName: string, path: string)

  /** `sources.iter().find(|x| x.file_name() == name)`: the first entry with
      that file name. */
  function FindSource(sources: seq<SourceFile>, name: string): (r: Option<string>)
    ensures r.None? <==> forall i :: 0 <= i < |sources| ==> sources[i].fileName != name
    ensures r.Some? ==> exists i :: 0 <= i < |sources| && sources[i] == SourceFile(name, r.value)
                                    && forall j :: 0 <= j < i ==> sources[j].fileName != name
  {
    if |sources| == 0 then None
    else if sources[0].fileName == name then Some(sources[0].path)
    else
      var r := FindSource(sources[1..], name);
      assert forall i :: 1 <= i < |sources| ==> sources[i] == sources[1..][i - 1];
      r
  }

  /** The paths the rules of one stage resolve to, in rule order; a rule
      without a source file contributes nothing. */
  function RulePaths(rules: seq<string>, sources: seq<SourceFile>): seq<string>
  {
    if |rules| == 0 then []
    else
      var init := RulePaths(rules[..|rules| - 1], sources);
      match FindSource(sources, rules[|rules| - 1])
      case Some(p) => init + [p]
      case None => init
  }

  /** Every resolved rule path of the playbook, in stage and rule order, with
      repetitions; fails at a Logic stage that declares no rules. */
  function ScriptHits(mods: seq<Module>, sources: seq<SourceFile>): Result<seq<string>>
  {
    if |mods| == 0 then Ok([])
    else
      var init :- ScriptHits(mods[..|mods| - 1], sources);
      var last := mods[|mods| - 1];
      if last.Logic? then
        if |last.rules| == 0 then Err(EmptyRules) else Ok(init + RulePaths(last.rules, sources))
      else Ok(init)
  }

  lemma {:induction false} ScriptHitsFailureSticks(mods: seq<Module>, n: nat, sources: seq<SourceFile>)
    requires n <= |mods|
    requires ScriptHits(mods[..n], sources).Err?
    ensures ScriptHits(mods, sources) == ScriptHits(mods[..n], sources)
    decreases |mods| - n
  {
    if n < |mods| {
      assert mods[..n + 1][..n] == mods[..n];
      ScriptHitsFailureSticks(mods, n + 1, sources);
    } else {
      assert mods[..n] == mods;
    }
  }

  /** One more rule adds its resolved path, if any, at the end. */
  lemma RulePathsStep(rules: seq<string>, j: nat, sources: seq<SourceFile>)
    requires j < |rules|
    ensures RulePaths(rules[..j + 1], sources)
         == RulePaths(rules[..j], sources) + (if FindSource(sources, rules[j]).Some? then [FindSource(sources, rules[j]).value] else [])
  {
    assert rules[..j + 1][..j] == rules[..j];
  }

  /** A rule list resolves to exactly the paths of the rules that have a
      source file. */
  lemma {:induction false} RulePathsMembers(rules: seq<string>, sources: seq<SourceFile>)
    ensures forall p :: (p in RulePaths(rules, sources)
        <==> exists k :: 0 <= k < |rules| && FindSource(sources, rules[k]) == Some(p))
  {
    if |rules| > 0 {
      var n := |rules| - 1;
      var init := rules[..n];
      RulePathsMembers(init, sources);
      RulePathsStep(rules, n, sources);
      assert rules[..n + 1] == rules;
      forall p ensures p in RulePaths(rules, sources)
          ==> exists k :: 0 <= k < |rules| && FindSource(sources, rules[k]) == Some(p)
      {
        if p in RulePaths(rules, sources) {
          if p in RulePaths(init, sources) {
            var k :| 0 <= k < n && FindSource(sources, init[k]) == Some(p);
            assert init[k] == rules[k];
          } else {
            assert FindSource(sources, rules[n]) == Some(p);
          }
        }
      }
      forall p, k | 0 <= k < |rules| && FindSource(sources, rules[k]) == Some(p)
        ensures p in RulePaths(rules, sources)
      {
        if k < n {
          assert init[k] == rules[k];
        }
      }
    }
  }

  /** Collecting fails exactly when some Logic stage declares no rules. */
  lemma {:induction false} ScriptHitsErrIff(mods: seq<Module>, sources: seq<SourceFile>)
    ensures ScriptHits(mods, sources).Err?
        <==> exists i :: 0 <= i < |mods| && mods[i].Logic? && |mods[i].rules| == 0
  {
    if |mods| > 0 {
      var n := |mods| - 1;
      var init := mods[..n];
      ScriptHitsErrIff(init, sources);
      assert forall i :: 0 <= i < n ==> init[i] == mods[i];
    }
  }

  /** The collected paths are exactly those some rule of some Logic stage
      resolves to. */
  lemma {:induction false} ScriptHitsMembers(mods: seq<Module>, sources: seq<SourceFile>)
    requires ScriptHits(mods, sources).Ok?
    ensures forall p :: (p in ScriptHits(mods, sources).value
        <==> exists i, k :: 0 <= i < |mods| && mods[i].Logic? && 0 <= k < |mods[i].rules|
                            && FindSource(sources, mods[i].rules[k]) == Some(p))
  {
    if |mods| > 0 {
      var n := |mods| - 1;
      var init := mods[..n];
      ScriptHitsMembers(init, sources);
      assert forall i :: 0 <= i < n ==> init[i] == mods[i];
      if mods[n].Logic? {
        RulePathsMembers(mods[n].rules, sources);
      }
    }
  }

  /** `paths.contains(..)`-guarded pushes: each path kept at its first occurrence. */
  function Dedup(s: seq<string>): seq<string>
  {
    if |s| == 0 then []
    else
      var d := Dedup(s[..|s| - 1]);
      if s[|s| - 1] in d then d else d + [s[|s| - 1]]
  }

  /** One more hit is pushed unless it is already there. */
  lemma DedupSnoc(s: seq<string>, x: string)
    ensures Dedup(s + [x]) == if x in Dedup(s) then Dedup(s) else Dedup(s) + [x]
  {
    assert (s + [x])[..|s|] == s;
  }

  predicate NoDuplicates(s: seq<string>) {
    forall i, j :: 0 <= i < j < |s| ==> s[i] != s[j]
  }

  /** Position of the first occurrence of `x` in `s`. */
  function IndexOf(s: seq<string>, x: string): (k: nat)
    requires x in s
    ensures k < |s| && s[k] == x && x !in s[..k]
  {
    if s[0] == x then 0
    else
      var k := IndexOf(s[1..], x);
      assert s[..k + 1] == [s[0]] + s[1..][..k];
      k + 1
  }

  lemma IndexOfPrefix(s: seq<string>, n: nat, x: string)
    requires n <= |s| && x in s[..n]
    ensures IndexOf(s, x) == IndexOf(s[..n], x)
  {
    var k := IndexOf(s[..n], x);
    var k' := IndexOf(s, x);
    assert s[..n][..k] == s[..k];
  }

  /** `Dedup` keeps exactly the distinct entries, once each, ordered by where
      they first occur. */
  lemma {:induction false} DedupSpec(s: seq<string>)
    ensures NoDuplicates(Dedup(s))
    ensures forall x :: x in Dedup(s) <==> x in s
    ensures forall i, j :: 0 <= i < j < |Dedup(s)| ==> IndexOf(s, Dedup(s)[i]) < IndexOf(s, Dedup(s)[j])
  {
    if |s| > 0 {
      var n := |s| - 1;
      var init := s[..n];
      DedupSpec(init);
      var d := Dedup(init);
      assert s == init + [s[n]];
      forall x | x in init ensures IndexOf(s, x) == IndexOf(init, x) && IndexOf(s, x) < n {
        IndexOfPrefix(s, n, x);
      }
      if s[n] !in d {
        assert s[n] !in init;
        assert IndexOf(s, s[n]) == n;
      }
    }
  }

  /** `Playbook::get_scripts` before the reads: the deduplicated script paths
      in first-occurrence order, or the failed assertion on a rule-less Logic
      stage. */
  method CollectScripts(mods: seq<Module>, sources: seq<SourceFile>) returns (r: Result<seq<string>>)
    ensures r.Err? <==> ScriptHits(mods, sources).Err?
    ensures r.Err? ==> r.fault == EmptyRules
    ensures r.Ok? ==> r.value == Dedup(ScriptHits(mods, sources).value)
    ensures r.Ok? ==> NoDuplicates(r.value)
    ensures r.Err? <==> exists i :: 0 <= i < |mods| && mods[i].Logic? && |mods[i].rules| == 0
    ensures r.Ok? ==> forall p :: (p in r.value
        <==> exists i, k :: 0 <= i < |mods| && mods[i].Logic? && 0 <= k < |mods[i].rules|
                            && FindSource(sources, mods[i].rules[k]) == Some(p))
  {
    ScriptHitsErrIff(mods, sources);
    var paths: seq<string> := [];
    var i := 0;
    while i < |mods|
      invariant 0 <= i <= |mods|
      invariant ScriptHits(mods[..i], sources).Ok?
      invariant paths == Dedup(ScriptHits(mods[..i], sources).value)
    {
      assert mods[..i + 1][..i] == mods[..i];
      var hits := ScriptHits(mods[..i], sources).value;
      if mods[i].Logic? {
        var rules := mods[i].rules;
        if |rules| == 0 {
          ScriptHitsFailureSticks(mods, i + 1, sources);
          return Err(EmptyRules);
        }
        var j := 0;
        assert hits + RulePaths(rules[..0], sources) == hits;
        while j < |rules|
          invariant 0 <= j <= |rules|
          invariant paths == Dedup(hits + RulePaths(rules[..j], sources))
        {
          var before := hits + RulePaths(rules[..j], sources);
          RulePathsStep(rules, j, sources);
          match FindSource(sources, rules[j]) {
            case Some(p) =>
              assert hits + RulePaths(rules[..j + 1], sources) == before + [p] by {
                Seqs.ConcatAssoc(hits, RulePaths(rules[..j], sources), [p]);
              }
              DedupSnoc(before, p);
              if p !in paths {
                paths := paths + [p];
              }
            case None =>
              assert RulePaths(rules[..j + 1], sources) == RulePaths(rules[..j], sources) + [];
              assert hits + RulePaths(rules[..j + 1], sources) == before;
          }
          j := j + 1;
        }
        assert rules[..j] == rules;
      }
      i := i + 1;
    }
    assert mods[..i] == mods;
    DedupSpec(ScriptHits(mods, sources).value);
    ScriptHitsMembers(mods, sources);
    return Ok(paths);
  }
}
