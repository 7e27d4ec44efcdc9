/**
  Ingestion: from the text of each input file to the batch of messages that
  enters the execution tree.

  The text is trimmed and cut into lines; the first `head` lines are
  skipped, the rest filtered by the optional line pattern, and the last
  `tail` kept lines dropped. The selected lines, joined by newlines, go to
  the anonymiser together with the root stage's grammar file; it must give
  back one record per line, and each record becomes a message with an empty
  mediation map, dated with the input's process date.

  Reading the files, the record cache and the anonymiser process are left
  to the caller: the file text is part of `Input`, the line pattern is a
  predicate and the anonymiser a function.
*/
module Ingestion {
  import opened Wrappers
  import opened Playbook
  import opened Envelope
  import Text
  import Seqs
  import Batch

  // -----------------------------------------------------------------------
  // str::trim

  /** The Unicode White_Space characters, which `str::trim` removes. */
  predicate IsWhite(c: char) {
    || ('\U{09}' <= c <= '\U{0D}') || c == ' ' || c == '\U{85}' || c == '\U{A0}' || c == '\U{1680}'
    || ('\U{2000}' <= c <= '\U{200A}') || c == '\U{2028}' || c == '\U{2029}' || c == '\U{202F}'
    || c == '\U{205F}' || c == '\U{3000}'
  }

  predicate AllWhite(s: string) {
    forall i :: 0 <= i < |s| ==> IsWhite(s[i])
  }

  function TrimStart(s: string): (r: string)
    ensures |r| <= |s| && r == s[|s| - |r|..]
    ensures AllWhite(s[..|s| - |r|])
    ensures |r| > 0 ==> !IsWhite(r[0])
  {
    if |s| > 0 && IsWhite(s[0]) then
      var r := TrimStart(s[1..]);
      var k := |s| - |r|;
      Seqs.SuffixSlices(s, 1, k - 1);
      WhitePrefixCons(s, k);
      r
    else s
  }

  lemma WhitePrefixCons(s: string, k: nat)
    requires 1 <= k <= |s| && IsWhite(s[0]) && AllWhite(s[1..][..k - 1])
    ensures AllWhite(s[..k])
  {
    forall i | 1 <= i < k ensures IsWhite(s[..k][i]) {
      assert s[..k][i] == s[1..][..k - 1][i - 1];
    }
  }

  function TrimEnd(s: string): (r: string)
    ensures |r| <= |s| && r == s[..|r|]
    ensures AllWhite(s[|r|..])
    ensures |r| > 0 ==> !IsWhite(r[|r| - 1])
  {
    if |s| > 0 && IsWhite(s[|s| - 1]) then
      var r := TrimEnd(s[..|s| - 1]);
      assert s[|r|..] == s[..|s| - 1][|r|..] + [s[|s| - 1]];
      r
    else s
  }

  /** The length of the longest all-white prefix. */
  function Leading(s: string): (n: nat)
    ensures n <= |s| && AllWhite(s[..n])
    ensures n < |s| ==> !IsWhite(s[n])
  {
    var t := TrimStart(s);
    assert |t| > 0 ==> t[0] == s[|s| - |t|];
    |s| - |t|
  }

  /** `str::trim`: the text without its leading and trailing white space. */
  function Trim(s: string): (r: string)
    ensures Leading(s) + |r| <= |s| && r == s[Leading(s)..Leading(s) + |r|]
    ensures AllWhite(s[Leading(s) + |r|..])
    ensures |r| > 0 ==> !IsWhite(r[0]) && !IsWhite(r[|r| - 1])
  {
    var t := TrimStart(s);
    var r := TrimEnd(t);
    var a := Leading(s);
    assert t == s[a..];
    Seqs.SuffixSlices(s, a, |r|);
    r
  }

  /** Trimming twice trims nothing more. */
  lemma TrimIdempotent(s: string)
    ensures Trim(Trim(s)) == Trim(s)
  {
    var r := Trim(s);
    if |r| > 0 {
      assert TrimStart(r) == r;
      assert TrimEnd(r) == r;
    }
  }

  // -----------------------------------------------------------------------
  // str::lines

  /** A line ending "\r\n" leaves the "\r" out of the line. */
  function StripCr(line: string): (r: string)
    ensures '\n' !in line ==> '\n' !in r
    ensures |line| > 0 && line[|line| - 1] == '\r' ==> line == r + "\r"
    ensures (|line| == 0 || line[|line| - 1] != '\r') ==> r == line
  {
    if |line| > 0 && line[|line| - 1] == '\r' then line[..|line| - 1] else line
  }

  /** `str::lines`: the pieces between newlines, each without the "\r" of a
      "\r\n" ending, and no empty last piece after a final newline (so the
      empty text has no lines). */
  function Lines(text: string): (r: seq<string>)
    ensures forall k :: 0 <= k < |r| ==> '\n' !in r[k]
    ensures |r| <= |Text.Split(text, '\n')|
  {
    var pieces := Text.Split(text, '\n');
    var body := if pieces[|pieces| - 1] == "" then pieces[..|pieces| - 1] else pieces;
    seq(|body|, k requires 0 <= k < |body| =>
      if k < |pieces| - 1 then StripCr(body[k]) else body[k])
  }

  /** `lines` undoes joining with newlines, for lines without newlines or a
      trailing "\r" and with a non-empty last line. */
  lemma LinesOfJoin(ls: seq<string>)
    requires forall k :: 0 <= k < |ls| ==> '\n' !in ls[k] && (|ls[k]| == 0 || ls[k][|ls[k]| - 1] != '\r')
    requires |ls| > 0 ==> ls[|ls| - 1] != ""
    ensures Lines(Text.JoinWith(ls, '\n')) == ls
  {
    var text := Text.JoinWith(ls, '\n');
    if |ls| > 0 {
      Text.SplitOfJoin(ls, '\n');
      assert Text.Split(text, '\n') == ls;
      var r := Lines(text);
      assert |r| == |ls|;
      forall k | 0 <= k < |ls| ensures r[k] == ls[k] {
        assert StripCr(ls[k]) == ls[k];
      }
    } else {
      assert Text.SplitOnce(text, '\n').None?;
      assert Text.Split(text, '\n') == [""];
    }
  }

  // -----------------------------------------------------------------------
  // Selection

  /** Whether a line passes the optional pattern; without one every line does. */
  predicate Matches(keep: Option<string -> bool>, line: string) {
    keep.None? || keep.value(line)
  }

  /** `filter`: the matching lines, in order. */
  function Filter(ls: seq<string>, keep: Option<string -> bool>): (r: seq<string>)
    ensures forall x :: x in r <==> x in ls && Matches(keep, x)
    ensures |r| <= |ls|
  {
    if |ls| == 0 then []
    else
      assert ls == [ls[0]] + ls[1..];
      (if Matches(keep, ls[0]) then [ls[0]] else []) + Filter(ls[1..], keep)
  }

  /** Without a pattern nothing is filtered out. */
  lemma {:induction false} NoPatternKeepsAll(ls: seq<string>)
    ensures Filter(ls, None) == ls
  {
    if |ls| > 0 {
      NoPatternKeepsAll(ls[1..]);
      assert ls == [ls[0]] + ls[1..];
    }
  }

  /** The positions, from `from` on, of the lines that match, in increasing
      order. */
  function KeptIndices(ls: seq<string>, from: nat, keep: Option<string -> bool>): (idx: seq<nat>)
    requires from <= |ls|
    ensures forall k :: 0 <= k < |idx| ==> from <= idx[k] < |ls| && Matches(keep, ls[idx[k]])
    ensures forall k, l :: 0 <= k < l < |idx| ==> idx[k] < idx[l]
    decreases |ls| - from
  {
    if from == |ls| then []
    else
      var rest := KeptIndices(ls, from + 1, keep);
      if Matches(keep, ls[from]) then
        var r := [from] + rest;
        assert forall k :: 1 <= k < |r| ==> r[k] == rest[k - 1];
        r
      else rest
  }

  /** No matching position is skipped. */
  lemma {:induction false} KeptIndicesComplete(ls: seq<string>, from: nat, keep: Option<string -> bool>)
    requires from <= |ls|
    ensures forall i :: from <= i < |ls| && Matches(keep, ls[i]) ==> i in KeptIndices(ls, from, keep)
    decreases |ls| - from
  {
    if from < |ls| {
      KeptIndicesComplete(ls, from + 1, keep);
    }
  }

  /** The kept positions hold exactly the lines `Filter` keeps from the suffix. */
  lemma {:induction false} KeptIndicesFilter(ls: seq<string>, from: nat, keep: Option<string -> bool>)
    requires from <= |ls|
    ensures |KeptIndices(ls, from, keep)| == |Filter(ls[from..], keep)|
    ensures forall k :: 0 <= k < |KeptIndices(ls, from, keep)| ==>
      Filter(ls[from..], keep)[k] == ls[KeptIndices(ls, from, keep)[k]]
    decreases |ls| - from
  {
    if from == |ls| {
      assert ls[from..] == [];
    } else {
      var idx, rest := KeptIndices(ls, from, keep), KeptIndices(ls, from + 1, keep);
      var kept, tail := Filter(ls[from..], keep), Filter(ls[from + 1..], keep);
      assert |rest| == |tail| && forall k :: 0 <= k < |rest| ==> tail[k] == ls[rest[k]] by {
        KeptIndicesFilter(ls, from + 1, keep);
      }
      assert kept == (if Matches(keep, ls[from]) then [ls[from]] else []) + tail by {
        FilterStep(ls, from, keep);
      }
      if Matches(keep, ls[from]) {
        assert idx == [from] + rest;
        assert kept == [ls[from]] + tail;
        forall k | 1 <= k < |idx| ensures kept[k] == ls[idx[k]] {
          Seqs.ConsIndex(ls[from], tail, k);
          Seqs.ConsIndex(from, rest, k);
        }
      } else {
        assert idx == rest;
        Seqs.EmptyLeft(tail);
      }
    }
  }

  /** `Filter` on the suffix from `from`, one line at a time. */
  lemma FilterStep(ls: seq<string>, from: nat, keep: Option<string -> bool>)
    requires from < |ls|
    ensures Filter(ls[from..], keep)
         == (if Matches(keep, ls[from]) then [ls[from]] else []) + Filter(ls[from + 1..], keep)
  {
    assert ls[from..][0] == ls[from];
    assert ls[from..][1..] == ls[from + 1..];
  }

  /** The trim / lines / skip / filter / truncate pipeline. Skipping counts
      raw lines, before the filter; dropping more lines than were kept
      underflows. */
  function SelectLines(text: string, head: nat, tail: nat, keep: Option<string -> bool>)
    : (r: Result<seq<string>>)
    ensures var ls := Lines(Trim(text));
            var idx := KeptIndices(ls, if head <= |ls| then head else |ls|, keep);
            && (r.Err? <==> tail > |idx|)
            && (r.Err? ==> r.fault == TailUnderflow)
            && (r.Ok? ==> |r.value| == |idx| - tail
                          && forall k :: 0 <= k < |r.value| ==> r.value[k] == ls[idx[k]])
  {
    SelectFrom(Lines(Trim(text)), head, tail, keep)
  }

  /** Skip, filter and truncate on the lines of the trimmed text. */
  function SelectFrom(ls: seq<string>, head: nat, tail: nat, keep: Option<string -> bool>)
    : (r: Result<seq<string>>)
    ensures var idx := KeptIndices(ls, if head <= |ls| then head else |ls|, keep);
            && (r.Err? <==> tail > |idx|)
            && (r.Err? ==> r.fault == TailUnderflow)
            && (r.Ok? ==> |r.value| == |idx| - tail
                          && forall k :: 0 <= k < |r.value| ==> r.value[k] == ls[idx[k]])
  {
    var from := if head <= |ls| then head else |ls|;
    var skipped := if head <= |ls| then ls[head..] else [];
    assert skipped == ls[from..];
    var kept := Filter(skipped, keep);
    var idx := KeptIndices(ls, from, keep);
    assert |kept| == |idx| && forall k :: 0 <= k < |idx| ==> kept[k] == ls[idx[k]] by {
      KeptIndicesFilter(ls, from, keep);
    }
    if tail > |kept| then Err(TailUnderflow)
    else
      var r := kept[..|kept| - tail];
      assert forall k :: 0 <= k < |r| ==> r[k] == ls[idx[k]];
      Ok(r)
  }

  // -----------------------------------------------------------------------
  // Messages

  /** One input: the text of its file and the process date of its metadata, if any. */
  datatype Input = Input(text: string, processDate: Option<string>)

  datatype IngestionOpts = IngestionOpts(head: nat, tail: nat, keep: Option<string -> bool>)

  /** The anonymiser: from grammar file and selected text to one record per line. */
  type Anonymiser = (string, string) -> seq<Payload>

  /** The grammar file of the root stage; only an ingestion stage has one. */
  function GrammarFile(root: Module): (r: Result<string>)
    ensures r.Ok? <==> root.IsIngestion()
    ensures r.Err? ==> r.fault == NotIngestion
    ensures root.MessageIngestion? ==> r == Ok(root.schema.file)
    ensures root.FileIngestion? ==> r == Ok(root.recordSchema.records.file)
  {
    match root
    case MessageIngestion(schema, _) => Ok(schema.File())
    case FileIngestion(schema, _) => Ok(schema.records.File())
    case _ => Err(NotIngestion)
  }

  /** The date every record of an input carries. */
  function DateOf(processDate: Option<string>): (d: string)
    ensures processDate.None? ==> d == ""
    ensures processDate.Some? ==> d == processDate.value
  {
    match processDate
    case None => ""
    case Some(date) => date
  }

  /** One input's messages: a fresh envelope per anonymised record, in order. */
  function IngestOne(root: Module, opts: IngestionOpts, input: Input, anon: Anonymiser): (r: Result<seq<Message>>)
    ensures var sel := SelectLines(input.text, opts.head, opts.tail, opts.keep);
      && (sel.Err? ==> r == Err(TailUnderflow))
      && (sel.Ok? && !root.IsIngestion() ==> r == Err(NotIngestion))
      && (r.Err? && sel.Ok? && root.IsIngestion() ==> r.fault == LineMismatch)
      && (r.Ok? ==> sel.Ok? && root.IsIngestion() && Records(root, sel.value, input, anon, r.value))
      && (sel.Ok? && root.IsIngestion() ==>
            (r.Ok? <==> |anon(GrammarFile(root).value, Text.JoinWith(sel.value, '\n'))| == |sel.value|))
  {
    var sel := SelectLines(input.text, opts.head, opts.tail, opts.keep);
    if sel.Err? then Err(TailUnderflow)
    else if !root.IsIngestion() then Err(NotIngestion)
    else
      var lines := sel.value;
      var records := anon(GrammarFile(root).value, Text.JoinWith(lines, '\n'));
      if |records| != |lines| then Err(LineMismatch)
      else Ok(Wrap(records, DateOf(input.processDate)))
  }

  /** One message per record, each a fresh envelope with the given date. */
  function Wrap(records: seq<Payload>, date: string): (out: seq<Message>)
    ensures |out| == |records|
    ensures forall i :: 0 <= i < |out| ==> out[i].inner == MessageInner(map[], records[i]) && out[i].date == date
  {
    seq(|records|, i requires 0 <= i < |records| => Message(FromPayload(records[i]), date))
  }

  /** `out` holds, in order, one message per selected line: the anonymiser's
      record for it, an empty mediation map, and the input's date. */
  predicate Records(root: Module, lines: seq<string>, input: Input, anon: Anonymiser, out: seq<Message>)
    requires root.IsIngestion()
  {
    var records := anon(GrammarFile(root).value, Text.JoinWith(lines, '\n'));
    && |out| == |lines| == |records|
    && forall i :: 0 <= i < |out| ==>
         out[i] == Message(MessageInner(map[], records[i]), DateOf(input.processDate))
  }

  /** `IngestOne` with the root, options and anonymiser fixed. */
  function Ingester(root: Module, opts: IngestionOpts, anon: Anonymiser): (f: Input -> Result<seq<Message>>)
    ensures forall x :: f(x) == IngestOne(root, opts, x, anon)
  {
    x => IngestOne(root, opts, x, anon)
  }

  /** `ingest`: the messages of every input, inputs in order; the first
      failing input fails the whole ingestion. */
  function Ingest(root: Module, opts: IngestionOpts, inputs: seq<Input>, anon: Anonymiser): (r: Result<seq<Message>>)
    ensures r.Ok? ==> forall i :: 0 <= i < |r.value| ==> r.value[i].inner.billingmediation == map[]
    ensures r.Ok? && |inputs| > 0 ==> (
      && IngestOne(root, opts, inputs[0], anon).Ok?
      && |r.value| >= |IngestOne(root, opts, inputs[0], anon).value|
      && r.value[..|IngestOne(root, opts, inputs[0], anon).value|] == IngestOne(root, opts, inputs[0], anon).value)
    ensures |inputs| > 0 && IngestOne(root, opts, inputs[0], anon).Err? ==> r == IngestOne(root, opts, inputs[0], anon)
    ensures r.Ok? <==> forall k :: 0 <= k < |inputs| ==> IngestOne(root, opts, inputs[k], anon).Ok?
  {
    var f := Ingester(root, opts, anon);
    var r := Batch.ConcatMap(inputs, f);
    if r.Err? then r
    else
      assert forall i :: 0 <= i < |r.value| ==> r.value[i].inner.billingmediation == map[] by {
        forall i | 0 <= i < |r.value| ensures r.value[i].inner.billingmediation == map[] {
          var k :| 0 <= k < |inputs| && f(inputs[k]).Ok? && r.value[i] in f(inputs[k]).value;
          FreshEnvelopes(root, opts, inputs[k], anon);
        }
      }
      r
  }

  /** A failing ingestion fails with the fault of its first failing input. */
  lemma IngestFirstFailure(root: Module, opts: IngestionOpts, inputs: seq<Input>, anon: Anonymiser)
    requires exists k :: 0 <= k < |inputs| && IngestOne(root, opts, inputs[k], anon).Err?
    ensures Ingest(root, opts, inputs, anon).Err?
    ensures exists k ::
      && 0 <= k < |inputs| && IngestOne(root, opts, inputs[k], anon).Err?
      && Ingest(root, opts, inputs, anon).fault == IngestOne(root, opts, inputs[k], anon).fault
      && (forall j :: 0 <= j < k ==> IngestOne(root, opts, inputs[j], anon).Ok?)
  {
    Batch.FirstFailure(inputs, Ingester(root, opts, anon));
  }

  /** Ingestion output is the per-input outputs, concatenated in input order. */
  lemma IngestAppend(root: Module, opts: IngestionOpts, a: seq<Input>, b: seq<Input>, anon: Anonymiser)
    requires forall k :: 0 <= k < |a| ==> IngestOne(root, opts, a[k], anon).Ok?
    requires forall k :: 0 <= k < |b| ==> IngestOne(root, opts, b[k], anon).Ok?
    ensures Ingest(root, opts, a, anon).Ok? && Ingest(root, opts, b, anon).Ok?
    ensures Ingest(root, opts, a + b, anon) == Ok(Ingest(root, opts, a, anon).value + Ingest(root, opts, b, anon).value)
  {
    Batch.Append(a, b, Ingester(root, opts, anon));
  }

  /** Every message of one input starts with an empty mediation map. */
  lemma FreshEnvelopes(root: Module, opts: IngestionOpts, input: Input, anon: Anonymiser)
    requires IngestOne(root, opts, input, anon).Ok?
    ensures forall i :: 0 <= i < |IngestOne(root, opts, input, anon).value| ==>
      IngestOne(root, opts, input, anon).value[i].inner.billingmediation == map[]
  {
    var lines := SelectLines(input.text, opts.head, opts.tail, opts.keep).value;
    assert Records(root, lines, input, anon, IngestOne(root, opts, input, anon).value);
  }

  /** A root that is not an ingestion stage fails as soon as one input's
      lines are selected. */
  lemma NonIngestionRootFails(root: Module, opts: IngestionOpts, inputs: seq<Input>, anon: Anonymiser)
    requires !root.IsIngestion()
    requires |inputs| > 0 && SelectLines(inputs[0].text, opts.head, opts.tail, opts.keep).Ok?
    ensures Ingest(root, opts, inputs, anon) == Err(NotIngestion)
  {
  }
}
