/**
 * `Classifier` of subsystems/classifier.py: the hybrid pipeline that sets a
 * file's coarse type, its candidate labels and its final label.
 */
module Pipeline {
  import opened Wrappers
  import opened Strings
  import opened Seqs
  import opened Records
  import opened EmbeddingStore
  import opened RuleEngine
  import opened CandidateGeneration
  import opened FeedbackManagement
  import opened Arbiter

  /** The neighbours consulted for candidate labels (`k=5`). */
  const NeighbourCount: nat := 5

  /** The neighbours `classify` asks the store for: none when there is no summary to search with. */
  function Neighbours(em: EmbeddingManager, summary: Option<string>, rank: Ranker): seq<Entry>
    reads em
  {
    if Truthy(summary) then em.Search(summary.value, NeighbourCount, rank) else []
  }

  class Classifier {
    /** The language-model arbiter, absent when the classifier was built without one. */
    const llm: Option<Llm>
    /**
     * The feedback manager. It offers no few-shot retrieval, so the
     * examples passed to the arbiter are always `None`.
     */
    const feedbackManager: FeedbackManager?

    constructor (llm: Option<Llm>, feedbackManager: FeedbackManager?)
      ensures this.llm == llm && this.feedbackManager == feedbackManager
    {
      this.llm := llm;
      this.feedbackManager := feedbackManager;
    }

    /** The arbiter's answer for a summary and candidate list, `None` without an arbiter. */
    function Decision(summary: Option<string>, cs: seq<string>): Option<string> {
      if llm.Some? then ArbiterDecision(summary, cs, None, llm.value) else None
    }

    /** The record `classify` leaves behind, given the neighbours the store returns. */
    function Classified(s: Snapshot, neighbours: seq<Entry>): Snapshot {
      var coarse := ClassifyByExtension(s.ext);
      if !Truthy(s.content.textSummary) then s.(fileType := coarse, finalLabel := Some(coarse))
      else
        var cs := Candidates(NeighbourLabels(neighbours));
        s.(fileType := coarse, candidates := cs, finalLabel := Some(OrElse(Decision(s.content.textSummary, cs), coarse)))
    }

    /**
     * `Classifier.classify`: sets the type from the extension table, then
     * the candidates and the final label as `Classified` describes; nothing
     * else in the record changes.
     */
    method Classify(fi: FileInfo, em: EmbeddingManager, rank: Ranker)
      modifies fi
      ensures fi.ToDict() == Classified(old(fi.ToDict()), Neighbours(em, old(fi.content.textSummary), rank))
    {
      var ruleBasedType := ClassifyByExtension(fi.ext);
      fi.fileType := ruleBasedType;
      if !Truthy(fi.content.textSummary) {
        fi.finalLabel := Some(ruleBasedType);
        return;
      }
      var searchResults := em.Search(fi.content.textSummary.value, NeighbourCount, rank);
      var candidateLabels := GenerateCandidates(searchResults);
      fi.candidates := candidateLabels;
      var finalLabel: Option<string> := None;
      if llm.Some? {
        finalLabel := OllamaClassify(fi.content.textSummary, candidateLabels, None, llm.value);
      }
      fi.finalLabel := Some(OrElse(finalLabel, ruleBasedType));
    }

    /**
     * What `classify` promises: the type always comes from the extension
     * table; a file without a summary is labelled with it and keeps its
     * candidates; otherwise the candidates are built from the neighbours'
     * labels (distinct, "other" among them), and the final label is one of
     * them or, when the arbiter gives no answer, the type. Only `type`,
     * `candidates` and `final_label` change.
     */
    lemma ClassifiedSpec(s: Snapshot, neighbours: seq<Entry>)
      ensures var t := Classified(s, neighbours);
        && t == s.(fileType := t.fileType, candidates := t.candidates, finalLabel := t.finalLabel)
        && t.fileType == ClassifyByExtension(s.ext)
        && t.finalLabel.Some? && (t.finalLabel.value == t.fileType || t.finalLabel.value in t.candidates)
        && (!Truthy(s.content.textSummary) ==> t.finalLabel == Some(t.fileType) && t.candidates == s.candidates)
        && (Truthy(s.content.textSummary) ==>
              && t.candidates == Candidates(NeighbourLabels(neighbours))
              && HasOther(t.candidates) && Distinct(t.candidates))
        && (llm.None? ==> t.finalLabel == Some(t.fileType))
    {
      if Truthy(s.content.textSummary) {
        var labels := NeighbourLabels(neighbours);
        var cs := Candidates(labels);
        CandidatesSpec(labels);
        CandidatesKeepOther(labels);
        if llm.Some? {
          ArbiterDecisionIsCandidate(s.content.textSummary, cs, None, llm.value);
        }
      }
    }

    /** Classifying an already classified record with the same neighbours changes nothing. */
    lemma ClassifiedIdempotent(s: Snapshot, neighbours: seq<Entry>)
      ensures Classified(Classified(s, neighbours), neighbours) == Classified(s, neighbours)
    {
    }
  }

  /**
   * Classifying twice in a row gives the same record: the second pass
   * recomputes exactly what the first one stored.
   */
  method ClassifyTwice(c: Classifier, fi: FileInfo, em: EmbeddingManager, rank: Ranker)
    returns (first: Snapshot, second: Snapshot)
    modifies fi
    ensures first == c.Classified(old(fi.ToDict()), Neighbours(em, old(fi.content.textSummary), rank))
    ensures second == first && fi.ToDict() == second
  {
    c.Classify(fi, em, rank);
    first := fi.ToDict();
    c.Classify(fi, em, rank);
    second := fi.ToDict();
    c.ClassifiedIdempotent(old(fi.ToDict()), Neighbours(em, old(fi.content.textSummary), rank));
  }
}
