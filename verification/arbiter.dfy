/**
 * `OllamaClassifier` of subsystems/classifier.py: the few-shot prompt, and
 * the resolution of the language model's raw output to one of the
 * candidates. The `ollama run` subprocess is an oracle from the prompt to
 * its standard output, or to `None` when the call raises.
 */
module Arbiter {
  import opened Wrappers
  import opened Strings
  import opened Seqs
  import opened CandidateGeneration

  /** One few-shot example: its `text_summary` and `correct_label`, `None` when missing. */
  datatype Example = Example(textSummary: Option<string>, correctLabel: Option<string>)

  /** `if summary and label`: only such examples are shown. */
  predicate Usable(ex: Example) {
    Truthy(ex.textSummary) && Truthy(ex.correctLabel)
  }

  const Instruction: string := "你是一个文档分类助手。请根据文档摘要，从候选类别中选择最合适的一个类别，并且**只输出类别名称**。"
  const ExamplesHeader: string := "以下是一些示例（供参考）："
  const CandidatesHeader: string := "候选类别（请从中选择，严格输出其中之一）："
  const SummaryHeader: string := "待分类文档摘要："
  const Closing: string := "注意：最终答案必须是候选类别中的**精确文本**，不要包含编号或其他说明。无法判断时输出 'other'。"

  const ExampleTag: string := "示例 "
  const SummaryTag: string := " 摘要: "
  const LabelTag: string := " 正确类别: "

  /** The three lines of example number `n`, or none when it is not usable. */
  function ExampleBlock(n: nat, ex: Example): seq<string> {
    if Usable(ex) then
      [ExampleTag + NatToString(n) + SummaryTag + ex.textSummary.value,
       ExampleTag + NatToString(n) + LabelTag + ex.correctLabel.value,
       ""]
    else []
  }

  /** The blocks of the examples, numbered by position starting at `first`. */
  function ExampleBlocks(exs: seq<Example>, first: nat): seq<string> {
    if exs == [] then []
    else ExampleBlocks(exs[..|exs| - 1], first) + ExampleBlock(first + |exs| - 1, exs[|exs| - 1])
  }

  /** The numbered candidate list `1. c1` ... `n. cn`. */
  function CandidateLines(cs: seq<string>, first: nat): (lines: seq<string>)
    ensures |lines| == |cs|
    ensures forall i :: 0 <= i < |cs| ==> lines[i] == NatToString(first + i) + ". " + cs[i]
  {
    if cs == [] then []
    else CandidateLines(cs[..|cs| - 1], first) + [NatToString(first + |cs| - 1) + ". " + cs[|cs| - 1]]
  }

  /** The few-shot section, present only for a non-empty example list. */
  function FewShotSection(fewshot: Option<seq<Example>>): seq<string> {
    if fewshot.Some? && fewshot.value != [] then [ExamplesHeader] + ExampleBlocks(fewshot.value, 1) else []
  }

  function PromptLines(summary: string, cs: seq<string>, fewshot: Option<seq<Example>>): seq<string> {
    [Instruction, ""] + FewShotSection(fewshot) + [CandidatesHeader] + CandidateLines(cs, 1)
    + ["", SummaryHeader, summary, "", Closing]
  }

  function PromptText(summary: string, cs: seq<string>, fewshot: Option<seq<Example>>): string {
    JoinLines(PromptLines(summary, cs, fewshot))
  }

  /** `_build_prompt`: appends the prompt's lines one by one and joins them with newlines. */
  method BuildPrompt(summary: string, cs: seq<string>, fewshot: Option<seq<Example>>) returns (prompt: string)
    ensures prompt == PromptText(summary, cs, fewshot)
  {
    var parts: seq<string> := [Instruction, ""];
    if fewshot.Some? && fewshot.value != [] {
      parts := parts + [ExamplesHeader];
      var exs := fewshot.value;
      for i := 0 to |exs|
        invariant parts == [Instruction, "", ExamplesHeader] + ExampleBlocks(exs[..i], 1)
      {
        var ex := exs[i];
        assert exs[..i + 1][..i] == exs[..i];
        if Truthy(ex.textSummary) && Truthy(ex.correctLabel) {
          var n := NatToString(i + 1);
          parts := parts + [ExampleTag + n + SummaryTag + ex.textSummary.value];
          parts := parts + [ExampleTag + n + LabelTag + ex.correctLabel.value];
          parts := parts + [""];
        }
      }
      assert exs[..|exs|] == exs;
    }
    assert parts == [Instruction, ""] + FewShotSection(fewshot);
    parts := parts + [CandidatesHeader];
    ghost var before := parts;
    for idx := 0 to |cs|
      invariant parts == before + CandidateLines(cs[..idx], 1)
    {
      assert cs[..idx + 1][..idx] == cs[..idx];
      parts := parts + [NatToString(idx + 1) + ". " + cs[idx]];
    }
    assert cs[..|cs|] == cs;
    parts := parts + ["", SummaryHeader, summary, "", Closing];
    prompt := JoinLines(parts);
  }

  lemma {:induction false} ExampleBlocksAppend(a: seq<Example>, b: seq<Example>, first: nat)
    ensures ExampleBlocks(a + b, first) == ExampleBlocks(a, first) + ExampleBlocks(b, first + |a|)
  {
    if b == [] {
      assert a + b == a;
    } else {
      var init, last := b[..|b| - 1], b[|b| - 1];
      var block := ExampleBlock(first + |a| + |b| - 1, last);
      assert (a + b)[..|a + b| - 1] == a + init;
      assert (a + b)[|a + b| - 1] == last;
      calc {
        ExampleBlocks(a + b, first);
        ExampleBlocks(a + init, first) + block;
        { ExampleBlocksAppend(a, init, first); }
        (ExampleBlocks(a, first) + ExampleBlocks(init, first + |a|)) + block;
        ExampleBlocks(a, first) + (ExampleBlocks(init, first + |a|) + block);
        ExampleBlocks(a, first) + ExampleBlocks(b, first + |a|);
      }
    }
  }

  /**
   * The example after `pre` is shown as number `|pre| + 1` whatever `pre`
   * holds: a skipped example still uses up its number.
   */
  lemma ExampleBlocksSplit(pre: seq<Example>, x: Example, post: seq<Example>)
    ensures ExampleBlocks(pre + [x] + post, 1)
            == ExampleBlocks(pre, 1) + ExampleBlock(|pre| + 1, x) + ExampleBlocks(post, |pre| + 2)
  {
    var mid := ExampleBlock(|pre| + 1, x);
    calc {
      ExampleBlocks(pre + [x] + post, 1);
      { ExampleBlocksAppend(pre + [x], post, 1); }
      ExampleBlocks(pre + [x], 1) + ExampleBlocks(post, |pre| + 2);
      { ExampleBlocksAppend(pre, [x], 1); ExampleBlocksSingle(x, |pre| + 1); }
      ExampleBlocks(pre, 1) + mid + ExampleBlocks(post, |pre| + 2);
    }
  }

  lemma ExampleBlocksSingle(x: Example, first: nat)
    ensures ExampleBlocks([x], first) == ExampleBlock(first, x)
  {
    assert [x][..0] == [];
    assert ExampleBlocks([x], first) == ExampleBlocks([], first) + ExampleBlock(first, x);
  }

  // Resolution of the model's output.

  /** A Python `dict` of strings: its keys in first-insertion order and its current values. */
  datatype OrderedDict = OrderedDict(keys: seq<string>, values: map<string, string>)

  /** `d[k] = v`: a new key goes last; an existing key keeps its place and takes the new value. */
  function Put(d: OrderedDict, k: string, v: string): OrderedDict {
    OrderedDict(if k in d.values then d.keys else d.keys + [k], d.values[k := v])
  }

  /** `canonical_map = {c.lower(): c for c in candidate_labels}`. */
  function CanonicalMap(cs: seq<string>): (d: OrderedDict)
    ensures forall k :: k in d.values <==> k in d.keys
    ensures forall i :: 0 <= i < |cs| ==> Lower(cs[i]) in d.values
  {
    if cs == [] then OrderedDict([], map[])
    else Put(CanonicalMap(cs[..|cs| - 1]), Lower(cs[|cs| - 1]), cs[|cs| - 1])
  }

  /** The loop over `canonical_map.items()` that returns the first value whose key occurs in `low`. */
  function ScanContained(keys: seq<string>, values: map<string, string>, low: string): Option<string>
    requires forall k :: k in keys ==> k in values
  {
    if keys == [] then None
    else if Contains(low, keys[0]) then Some(values[keys[0]])
    else ScanContained(keys[1..], values, low)
  }

  /** Exact match of the lower-cased line, then containment in dictionary order, else no decision. */
  function ResolveLine(low: string, cs: seq<string>): Option<string> {
    var d := CanonicalMap(cs);
    if low in d.values then Some(d.values[low]) else ScanContained(d.keys, d.values, low)
  }

  /**
   * From the subprocess's standard output (`None` when it raised) to a
   * candidate or no decision: strip the output, give up when it is empty,
   * and resolve the lower-cased, stripped first line.
   */
  function Resolve(stdout: Option<string>, cs: seq<string>): (r: Option<string>)
    ensures stdout.None? ==> r.None?
    ensures stdout.Some? && (forall k :: 0 <= k < |stdout.value| ==> IsSpace(stdout.value[k])) ==> r.None?
  {
    if stdout.None? then None
    else
      var output := Strip(stdout.value);
      if output == "" then None else ResolveLine(Lower(Strip(FirstLine(output))), cs)
  }

  /** `c` is the last candidate whose lower-case form is `key`. */
  ghost predicate LastWithKey(cs: seq<string>, key: string, c: string) {
    exists i :: 0 <= i < |cs| && cs[i] == c && Lower(c) == key
                && forall j :: i < j < |cs| ==> Lower(cs[j]) != key
  }

  lemma {:induction false} CanonicalMapKeys(cs: seq<string>)
    ensures CanonicalMap(cs).keys == Dedup(LowerAll(cs))
  {
    if cs != [] {
      var init := cs[..|cs| - 1];
      CanonicalMapKeys(init);
      assert LowerAll(cs)[..|cs| - 1] == LowerAll(init);
    }
  }

  /** Each key of the map holds the last candidate with that lower-case form. */
  lemma {:induction false} CanonicalMapValue(cs: seq<string>, k: string)
    requires k in CanonicalMap(cs).values
    ensures LastWithKey(cs, k, CanonicalMap(cs).values[k])
  {
    var init, c := cs[..|cs| - 1], cs[|cs| - 1];
    var v := CanonicalMap(cs).values[k];
    if k == Lower(c) {
      assert cs[|cs| - 1] == v;
    } else {
      assert k in CanonicalMap(init).values;
      CanonicalMapValue(init, k);
      assert v == CanonicalMap(init).values[k];
      var i :| 0 <= i < |init| && init[i] == v && Lower(v) == k
               && forall j :: i < j < |init| ==> Lower(init[j]) != k;
      assert cs[i] == v;
      forall j | i < j < |cs|
        ensures Lower(cs[j]) != k
      {
        if j < |cs| - 1 {
          assert cs[j] == init[j];
        }
      }
    }
  }

  lemma {:induction false} ScanContainedFirstMatch(keys: seq<string>, values: map<string, string>, low: string)
    requires forall k :: k in keys ==> k in values
    ensures var m := FirstMatch(keys, (k: string) => Contains(low, k));
            ScanContained(keys, values, low) == if m == -1 then None else Some(values[keys[m]])
  {
    if keys != [] {
      ScanContainedFirstMatch(keys[1..], values, low);
    }
  }

  /** The dictionary scan returns the value of the key of the first candidate contained in the line. */
  lemma ScanMatchesCandidates(low: string, cs: seq<string>)
    ensures var d, m := CanonicalMap(cs), FirstMatch(LowerAll(cs), (k: string) => Contains(low, k));
            ScanContained(d.keys, d.values, low) == if m == -1 then None else Some(d.values[Lower(cs[m])])
  {
    var p := (k: string) => Contains(low, k);
    var d := CanonicalMap(cs);
    CanonicalMapKeys(cs);
    ScanContainedFirstMatch(d.keys, d.values, low);
    DedupFirstMatch(LowerAll(cs), p);
  }

  /**
   * The resolution policy stated on the candidate list itself: a line equal
   * to a candidate ignoring case gives that candidate; otherwise the first
   * candidate in list order whose lower-case text occurs in the line
   * decides; otherwise there is no decision. Where several candidates share
   * a lower-case form, the last of them is returned.
   */
  ghost predicate FollowsPolicy(low: string, cs: seq<string>, r: Option<string>) {
    && (r.Some? ==> r.value in cs && LastWithKey(cs, Lower(r.value), r.value) && Contains(low, Lower(r.value)))
    && (r.None? <==> forall i :: 0 <= i < |cs| ==> !Contains(low, Lower(cs[i])))
    && ((exists i :: 0 <= i < |cs| && Lower(cs[i]) == low) ==> r.Some? && Lower(r.value) == low)
    && ((forall i :: 0 <= i < |cs| ==> Lower(cs[i]) != low) && r.Some? ==>
          exists j :: 0 <= j < |cs| && Lower(cs[j]) == Lower(r.value)
                      && forall i :: 0 <= i < j ==> !Contains(low, Lower(cs[i])))
  }

  /** The dictionary-based resolution follows the policy. */
  lemma ResolveLineSpec(low: string, cs: seq<string>)
    ensures FollowsPolicy(low, cs, ResolveLine(low, cs))
  {
    if low in CanonicalMap(cs).values {
      ExactCase(low, cs);
    } else {
      ScanCase(low, cs);
    }
  }

  lemma ExactCase(low: string, cs: seq<string>)
    requires low in CanonicalMap(cs).values
    ensures FollowsPolicy(low, cs, ResolveLine(low, cs))
  {
    var r := ResolveLine(low, cs);
    CanonicalMapValue(cs, low);
    ContainsSelf(low);
    var i :| 0 <= i < |cs| && cs[i] == r.value && Lower(r.value) == low
             && forall j :: i < j < |cs| ==> Lower(cs[j]) != low;
    assert Contains(low, Lower(cs[i]));
  }

  lemma ScanCase(low: string, cs: seq<string>)
    requires low !in CanonicalMap(cs).values
    ensures FollowsPolicy(low, cs, ResolveLine(low, cs))
  {
    var d := CanonicalMap(cs);
    var r := ResolveLine(low, cs);
    var p := (k: string) => Contains(low, k);
    ScanMatchesCandidates(low, cs);
    var m := FirstMatch(LowerAll(cs), p);
    assert forall i :: 0 <= i < |cs| ==> Lower(cs[i]) != low;
    if m == -1 {
      forall i | 0 <= i < |cs|
        ensures !Contains(low, Lower(cs[i]))
      {
        assert !p(LowerAll(cs)[i]);
      }
    } else {
      var key := Lower(cs[m]);
      assert r == Some(d.values[key]);
      CanonicalMapValue(cs, key);
      var i :| 0 <= i < |cs| && cs[i] == r.value && Lower(r.value) == key
               && forall j :: i < j < |cs| ==> Lower(cs[j]) != key;
      assert Contains(low, key) by {
        assert p(LowerAll(cs)[m]);
      }
      forall k | 0 <= k < m
        ensures !Contains(low, Lower(cs[k]))
      {
        assert !p(LowerAll(cs)[k]);
      }
    }
  }

  /** The language-model call: a prompt to standard output, or `None` when the subprocess raises. */
  type Llm = string -> Option<string>

  /** What `OllamaClassifier.classify` returns for a summary, candidates and examples. */
  function ArbiterDecision(textSummary: Option<string>, cs: seq<string>, fewshot: Option<seq<Example>>, llm: Llm): Option<string> {
    if !Truthy(textSummary) then None
    else
      var labels := EnsureOther(cs);
      Resolve(llm(PromptText(textSummary.value, labels, fewshot)), labels)
  }

  /**
   * `OllamaClassifier.classify`: no decision without a summary; otherwise
   * "other" is added to the candidates when missing, the prompt is sent and
   * the output resolved, so any decision is one of those candidates.
   */
  method OllamaClassify(textSummary: Option<string>, cs: seq<string>, fewshot: Option<seq<Example>>, llm: Llm)
    returns (decision: Option<string>)
    ensures decision == ArbiterDecision(textSummary, cs, fewshot, llm)
    ensures !Truthy(textSummary) ==> decision == None
    ensures decision.Some? ==> decision.value in EnsureOther(cs)
  {
    var summary := if textSummary.Some? then textSummary.value else "";
    if summary == "" {
      return None;
    }
    var labels := cs;
    if "other" !in LowerAll(labels) {
      labels := labels + ["other"];
    }
    var prompt := BuildPrompt(summary, labels, fewshot);
    var stdout := llm(prompt);
    decision := Resolve(stdout, labels);
    ArbiterDecisionIsCandidate(textSummary, cs, fewshot, llm);
  }

  /** Whatever the model answers, a decision is one of the candidates it was offered. */
  lemma ArbiterDecisionIsCandidate(textSummary: Option<string>, cs: seq<string>, fewshot: Option<seq<Example>>, llm: Llm)
    ensures var d := ArbiterDecision(textSummary, cs, fewshot, llm);
            d.Some? ==> d.value in EnsureOther(cs)
  {
    if Truthy(textSummary) {
      var labels := EnsureOther(cs);
      ResolveIsCandidate(llm(PromptText(textSummary.value, labels, fewshot)), labels);
    }
  }

  /** Resolution only ever answers with one of the candidates. */
  lemma ResolveIsCandidate(stdout: Option<string>, cs: seq<string>)
    ensures Resolve(stdout, cs).Some? ==> Resolve(stdout, cs).value in cs
  {
    if stdout.Some? {
      var output := Strip(stdout.value);
      if output != "" {
        var low := Lower(Strip(FirstLine(output)));
        assert Resolve(stdout, cs) == ResolveLine(low, cs);
        ResolveLineIsCandidate(low, cs);
      }
    }
  }

  lemma ResolveLineIsCandidate(low: string, cs: seq<string>)
    ensures ResolveLine(low, cs).Some? ==> ResolveLine(low, cs).value in cs
  {
    ResolveLineSpec(low, cs);
  }

  /** A candidate equal to the line ignoring case, and the last with that lower-case form, is the answer. */
  lemma ResolveLineExact(low: string, cs: seq<string>, i: nat)
    requires i < |cs| && Lower(cs[i]) == low
    requires forall j :: i < j < |cs| ==> Lower(cs[j]) != low
    ensures ResolveLine(low, cs) == Some(cs[i])
  {
    ResolveLineSpec(low, cs);
    var r := ResolveLine(low, cs);
    var i' :| 0 <= i' < |cs| && cs[i'] == r.value && Lower(r.value) == low
              && forall j :: i' < j < |cs| ==> Lower(cs[j]) != low;
    assert i' == i;
  }

  /**
   * With no exact match, the first candidate contained in the line is the
   * answer when no later candidate shares its lower-case form.
   */
  lemma ResolveLineContained(low: string, cs: seq<string>, j: nat)
    requires forall i :: 0 <= i < |cs| ==> Lower(cs[i]) != low
    requires j < |cs| && Contains(low, Lower(cs[j]))
    requires forall i :: 0 <= i < j ==> !Contains(low, Lower(cs[i]))
    requires forall i :: j < i < |cs| ==> Lower(cs[i]) != Lower(cs[j])
    ensures ResolveLine(low, cs) == Some(cs[j])
  {
    ResolveLineSpec(low, cs);
    var r := ResolveLine(low, cs);
    var j' :| 0 <= j' < |cs| && Lower(cs[j']) == Lower(r.value)
              && forall i :: 0 <= i < j' ==> !Contains(low, Lower(cs[i]));
    assert j' == j;
    var i' :| 0 <= i' < |cs| && cs[i'] == r.value && Lower(r.value) == Lower(r.value)
              && forall k :: i' < k < |cs| ==> Lower(cs[k]) != Lower(r.value);
    assert i' == j;
  }

  /** A non-empty line without line breaks and without surrounding white space. */
  predicate PlainLine(out: string) {
    out != [] && !IsSpace(out[0]) && !IsSpace(out[|out| - 1])
    && forall k :: 0 <= k < |out| ==> !IsLineBreak(out[k])
  }

  /** A line that is its own stripped first line resolves as its lower-case form. */
  lemma ResolvePlainLine(out: string, cs: seq<string>)
    requires PlainLine(out)
    ensures Resolve(Some(out), cs) == ResolveLine(Lower(out), cs)
  {
    StripUntrimmed(out);
    assert FirstLine(out) == out;
  }

  /**
   * Padded or multi-line output: blank lines and white space before the
   * answer line, padding around it and everything from its line break on
   * (any line boundary, or none when the line ends the output) are ignored;
   * the answer line, stripped and lower-cased, is resolved.
   */
  lemma ResolveFirstNonBlankLine(w: string, line: string, z: string, cs: seq<string>)
    requires forall k :: 0 <= k < |w| ==> IsSpace(w[k])
    requires exists k :: 0 <= k < |line| && !IsSpace(line[k])
    requires forall k :: 0 <= k < |line| ==> !IsLineBreak(line[k])
    requires z == [] || IsLineBreak(z[0])
    ensures Resolve(Some(w + line + z), cs) == ResolveLine(Lower(Strip(line)), cs)
  {
    FirstStrippedLine(w, line, z);
  }

  /** Output "Research Paper" against research paper, invoice: an exact match ignoring case. */
  lemma ResolveExactIgnoringCase(out: string, cs: seq<string>)
    requires out == "Research Paper" && cs == ["research paper", "invoice"]
    ensures Resolve(Some(out), cs) == Some("research paper")
  {
    ExactLine(cs);
    PlainExact(out);
    ResolvePlainLine(out, cs);
  }

  lemma PlainExact(out: string)
    requires out == "Research Paper"
    ensures PlainLine(out) && Lower(out) == "research paper"
  {
  }

  lemma ExactLine(cs: seq<string>)
    requires cs == ["research paper", "invoice"]
    ensures ResolveLine(cs[0], cs) == Some(cs[0])
  {
    LowerOfLowercase(cs[0]);
    LowerOfLowercase(cs[1]);
    ResolveLineExact(cs[0], cs, 0);
  }

  /** Output "this looks like an invoice to me" against research paper, invoice: a containment match. */
  lemma ResolveByContainment(out: string, cs: seq<string>)
    requires out == "this looks like an invoice to me" && cs == ["research paper", "invoice"]
    ensures Resolve(Some(out), cs) == Some("invoice")
  {
    ContainmentLine(out, cs);
    PlainContainment(out);
    ResolvePlainLine(out, cs);
  }

  lemma PlainContainment(out: string)
    requires out == "this looks like an invoice to me"
    ensures PlainLine(out) && Lower(out) == out
  {
    LowerOfLowercase(out);
  }

  lemma ContainmentLine(out: string, cs: seq<string>)
    requires out == "this looks like an invoice to me" && cs == ["research paper", "invoice"]
    ensures ResolveLine(out, cs) == Some(cs[1])
  {
    LowerOfLowercase(cs[0]);
    LowerOfLowercase(cs[1]);
    ContainsFirstChar(out, cs[0]);
    assert cs[1] <= out[19..];
    ResolveLineContained(out, cs, 1);
  }

  /** Output "banana" against research paper, invoice, other: no candidate occurs, so no decision. */
  lemma ResolveNoDecision(out: string, cs: seq<string>)
    requires out == "banana" && cs == ["research paper", "invoice", "other"]
    ensures Resolve(Some(out), cs) == None
  {
    NoDecisionLine(out, cs);
    PlainNoDecision(out);
    ResolvePlainLine(out, cs);
  }

  lemma PlainNoDecision(out: string)
    requires out == "banana"
    ensures PlainLine(out) && Lower(out) == out
  {
    LowerOfLowercase(out);
  }

  lemma NoDecisionLine(out: string, cs: seq<string>)
    requires out == "banana" && cs == ["research paper", "invoice", "other"]
    ensures ResolveLine(out, cs) == None
  {
    LowerOfLowercase(cs[0]);
    LowerOfLowercase(cs[1]);
    LowerOfLowercase(cs[2]);
    NotContainsLonger(out, cs[0]);
    NotContainsLonger(out, cs[1]);
    ContainsFirstChar(out, cs[2]);
    ResolveLineSpec(out, cs);
  }
}
