/**
 * Candidate generation in `Classifier.classify` of subsystems/classifier.py:
 * the labels of the nearest stored files, first-seen and without empty
 * labels or repeats, a fixed default list when none survives, and a
 * guaranteed "other".
 */
module CandidateGeneration {
  import opened Wrappers
  import opened Strings
  import opened Seqs
  import opened Records
  import opened EmbeddingStore

  const DefaultCandidates: seq<string> :=
    ["research paper", "code script", "contract", "invoice", "image", "other"]

  /**
   * The label of one search result, `metadata.get("final_label") or
   * metadata.get("label")`: a stored `to_dict()` snapshot has no `label`
   * key, so a falsy final label gives `None`.
   */
  function NeighbourLabel(e: Entry): (lab: Option<string>)
    ensures lab.Some? <==> Truthy(e.metadata.finalLabel)
    ensures lab.Some? ==> lab == e.metadata.finalLabel && lab.value != ""
  {
    if Truthy(e.metadata.finalLabel) then e.metadata.finalLabel else None
  }

  function NeighbourLabels(results: seq<Entry>): seq<Option<string>> {
    seq(|results|, i requires 0 <= i < |results| => NeighbourLabel(results[i]))
  }

  /** The labels that pass the test `if lab`, in order. */
  function TruthyLabels(labels: seq<Option<string>>): seq<string> {
    if labels == [] then []
    else
      var last := labels[|labels| - 1];
      TruthyLabels(labels[..|labels| - 1]) + if Truthy(last) then [last.value] else []
  }

  /** The list the `seen` loop builds: truthy labels, first occurrence only. */
  function FirstSeen(labels: seq<Option<string>>): seq<string> {
    Dedup(TruthyLabels(labels))
  }

  /** `[c.lower() for c in candidates]`. */
  function LowerAll(cs: seq<string>): seq<string> {
    seq(|cs|, i requires 0 <= i < |cs| => Lower(cs[i]))
  }

  /** `"other" in [c.lower() for c in candidates]`. */
  predicate HasOther(cs: seq<string>) {
    "other" in LowerAll(cs)
  }

  /**
   * Appends a literal "other" when no candidate is "other" ignoring case;
   * an existing one is never duplicated.
   */
  function EnsureOther(cs: seq<string>): (r: seq<string>)
    ensures HasOther(r)
    ensures |cs| <= |r| <= |cs| + 1 && r[..|cs|] == cs
    ensures |r| == |cs| + 1 <==> !HasOther(cs)
    ensures |r| == |cs| + 1 ==> r[|cs|] == "other"
  {
    if HasOther(cs) then cs
    else
      var r := cs + ["other"];
      assert LowerAll(r)[|cs|] == Lower("other") == "other";
      r
  }

  /** The candidate list stored on the record, as a function of the neighbour labels. */
  function Candidates(labels: seq<Option<string>>): seq<string> {
    EnsureOther(if FirstSeen(labels) == [] then DefaultCandidates else FirstSeen(labels))
  }

  /** The candidate list already holds "other", so the arbiter's own top-up leaves it alone. */
  lemma CandidatesKeepOther(labels: seq<Option<string>>)
    ensures EnsureOther(Candidates(labels)) == Candidates(labels)
  {
  }

  /** The candidate-building loop of `Classifier.classify`. */
  method GenerateCandidates(results: seq<Entry>) returns (candidates: seq<string>)
    ensures candidates == Candidates(NeighbourLabels(results))
  {
    ghost var labels := NeighbourLabels(results);
    candidates := [];
    var seen: set<string> := {};
    for i := 0 to |results|
      invariant candidates == FirstSeen(labels[..i])
      invariant seen == set c | c in candidates
    {
      var lab := NeighbourLabel(results[i]);
      ghost var t := TruthyLabels(labels[..i]);
      assert labels[..i + 1][..i] == labels[..i];
      if Truthy(lab) {
        assert TruthyLabels(labels[..i + 1]) == t + [lab.value];
        assert (t + [lab.value])[..|t|] == t;
      } else {
        assert TruthyLabels(labels[..i + 1]) == t;
      }
      if Truthy(lab) && lab.value !in seen {
        candidates := candidates + [lab.value];
        seen := seen + {lab.value};
      }
    }
    assert labels[..|results|] == labels;
    if candidates == [] {
      candidates := DefaultCandidates;
    }
    if "other" !in LowerAll(candidates) {
      candidates := candidates + ["other"];
    }
  }

  lemma {:induction false} TruthyLabelsMembers(labels: seq<Option<string>>)
    ensures forall x :: x in TruthyLabels(labels) <==> x != "" && Some(x) in labels
  {
    if labels != [] {
      var init := labels[..|labels| - 1];
      TruthyLabelsMembers(init);
      assert labels == init + [labels[|labels| - 1]];
    }
  }

  /**
   * Every position of the truthy labels comes from a position of the raw
   * labels, and the truthy labels before it are those of the raw labels
   * before it.
   */
  lemma {:induction false} TruthyLabelsPosition(labels: seq<Option<string>>, p: nat)
    requires p < |TruthyLabels(labels)|
    ensures exists q :: 0 <= q < |labels| && labels[q] == Some(TruthyLabels(labels)[p])
                        && TruthyLabels(labels[..q]) == TruthyLabels(labels)[..p]
  {
    var init := labels[..|labels| - 1];
    var last := labels[|labels| - 1];
    var t := TruthyLabels(labels);
    assert t == TruthyLabels(init) + if Truthy(last) then [last.value] else [];
    if p < |TruthyLabels(init)| {
      TruthyLabelsPosition(init, p);
      var q :| 0 <= q < |init| && init[q] == Some(TruthyLabels(init)[p])
                && TruthyLabels(init[..q]) == TruthyLabels(init)[..p];
      assert init[..q] == labels[..q];
      assert t[..p] == TruthyLabels(init)[..p];
    } else {
      assert labels[..|labels| - 1] == init;
      assert t[..p] == TruthyLabels(init);
    }
  }

  /**
   * The kept neighbour labels: exactly the non-empty labels that occur,
   * each once, in the order of their first occurrence.
   */
  lemma FirstSeenSpec(labels: seq<Option<string>>)
    ensures forall x :: x in FirstSeen(labels) <==> x != "" && Some(x) in labels
    ensures Distinct(FirstSeen(labels))
  {
    DedupMembers(TruthyLabels(labels));
    TruthyLabelsMembers(labels);
    DedupDistinct(TruthyLabels(labels));
  }

  lemma FirstSeenOrder(labels: seq<Option<string>>, i: nat, j: nat)
    requires i < j < |FirstSeen(labels)|
    ensures exists q :: 0 <= q < |labels| && labels[q] == Some(FirstSeen(labels)[i])
                        && Some(FirstSeen(labels)[j]) !in labels[..q]
  {
    var t := TruthyLabels(labels);
    var fs := FirstSeen(labels);
    DedupOrder(t, i, j);
    var p :| 0 <= p < |t| && t[p] == fs[i] && fs[j] !in t[..p];
    TruthyLabelsPosition(labels, p);
    var q :| 0 <= q < |labels| && labels[q] == Some(t[p]) && TruthyLabels(labels[..q]) == t[..p];
    FirstSeenSpec(labels);
    TruthyLabelsMembers(labels[..q]);
    assert fs[j] in fs;
  }

  lemma DefaultCandidatesSpec()
    ensures HasOther(DefaultCandidates) && Distinct(DefaultCandidates)
    ensures forall k :: 0 <= k < |DefaultCandidates| ==> DefaultCandidates[k] != ""
  {
    assert LowerAll(DefaultCandidates)[5] == Lower("other") == "other";
  }

  /** Appending "other" to a list that lacks it ignoring case keeps the list free of repeats. */
  lemma EnsureOtherDistinct(cs: seq<string>)
    requires Distinct(cs)
    ensures Distinct(EnsureOther(cs))
  {
    if !HasOther(cs) {
      forall k | 0 <= k < |cs|
        ensures cs[k] != "other"
      {
        assert LowerAll(cs)[k] == Lower(cs[k]) != "other";
        assert Lower("other") == "other";
      }
    }
  }

  /**
   * The candidate list: it holds "other" (ignoring case), has no repeated
   * or empty label, is the default list when no neighbour label survives,
   * and otherwise is the kept neighbour labels followed by at most a
   * literal "other".
   */
  lemma CandidatesSpec(labels: seq<Option<string>>)
    ensures var c, fs := Candidates(labels), FirstSeen(labels);
      && HasOther(c)
      && Distinct(c)
      && (forall k :: 0 <= k < |c| ==> c[k] != "")
      && (fs == [] ==> c == DefaultCandidates)
      && (fs != [] ==> c[..|fs|] == fs && |c| <= |fs| + 1)
  {
    var fs := FirstSeen(labels);
    DefaultCandidatesSpec();
    if fs != [] {
      FirstSeenSpec(labels);
      EnsureOtherDistinct(fs);
      var c := EnsureOther(fs);
      assert forall k :: 0 <= k < |fs| ==> fs[k] in fs;
      assert forall k :: 0 <= k < |fs| ==> c[k] == fs[k];
    }
  }

  /** Neighbour labels A, B, A, C give the candidates A, B, C, other. */
  lemma CandidatesExample()
    ensures Candidates([Some("A"), Some("B"), Some("A"), Some("C")]) == ["A", "B", "C", "other"]
  {
    ExampleTruthyLabels();
    ExampleDedup();
    var fs := ["A", "B", "C"];
    forall k | 0 <= k < 3
      ensures LowerAll(fs)[k] != "other"
    {
      assert |LowerAll(fs)[k]| == 1;
    }
  }

  lemma ExampleTruthyLabels()
    ensures TruthyLabels([Some("A"), Some("B"), Some("A"), Some("C")]) == ["A", "B", "A", "C"]
  {
    var l4 := [Some("A"), Some("B"), Some("A"), Some("C")];
    var l3, l2, l1 := l4[..3], l4[..2], l4[..1];
    assert l3[..2] == l2 && l2[..1] == l1 && l1[..0] == [];
    assert TruthyLabels(l1) == ["A"];
    assert TruthyLabels(l2) == ["A", "B"];
    assert TruthyLabels(l3) == ["A", "B", "A"];
  }

  lemma ExampleDedup()
    ensures Dedup(["A", "B", "A", "C"]) == ["A", "B", "C"]
  {
    var t := ["A", "B", "A", "C"];
    assert t[..3][..2] == t[..2] && t[..2][..1] == t[..1] && t[..1][..0] == [];
    assert Dedup(t[..1]) == ["A"];
    assert Dedup(t[..2]) == ["A", "B"];
    assert Dedup(t[..3]) == ["A", "B"];
  }

  /**
   * Two neighbour labels that differ only in case are both kept, so the
   * candidates may hold "other" twice ignoring case; no literal "other" is
   * appended then.
   */
  lemma OtherMayRepeatIgnoringCase()
    ensures Candidates([Some("Other"), Some("other")]) == ["Other", "other"]
  {
    var l2 := [Some("Other"), Some("other")];
    assert l2[..1][..0] == [];
    assert TruthyLabels(l2[..1]) == ["Other"];
    assert TruthyLabels(l2) == ["Other", "other"];
    var t := ["Other", "other"];
    assert t[..1][..0] == [];
    assert Dedup(t[..1]) == ["Other"];
    assert Dedup(t) == ["Other", "other"];
    assert LowerAll(t)[1] == Lower("other") == "other";
  }
}
