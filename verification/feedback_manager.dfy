/**
 * subsystems/feedback_manager.py: an append-only, in-memory log of user
 * corrections.
 */
module FeedbackManagement {
  import opened Wrappers
  import opened Records

  /** One entry of `corrections`: the keys `file_id`, `text_summary`, `correct_label`. */
  datatype Correction = Correction(fileId: string, textSummary: Option<string>, correctLabel: string)

  class FeedbackManager {
    var corrections: seq<Correction>

    constructor ()
      ensures corrections == []
    {
      corrections := [];
    }

    /**
     * `add_feedback(file_info, correct_label)`: records the correction on the
     * file (its `feedback` field only, so `final_label` keeps the automated
     * decision) and appends exactly one entry holding the file's identifier,
     * its current summary and the label.
     */
    method AddFeedback(fi: FileInfo, correctLabel: string)
      modifies this, fi
      ensures corrections == old(corrections) + [Correction(fi.fileId, old(fi.content.textSummary), correctLabel)]
      ensures fi.ToDict() == old(fi.ToDict()).(feedback := Some(correctLabel))
    {
      fi.UpdateLabel(correctLabel, true);
      corrections := corrections + [Correction(fi.fileId, fi.content.textSummary, correctLabel)];
    }
  }

  /**
   * Two calls with the same arguments log two identical entries, after
   * everything logged before, in call order: the log is not idempotent.
   */
  method AddFeedbackTwice(m: FeedbackManager, fi: FileInfo, correctLabel: string)
    modifies m, fi
    ensures var c := Correction(fi.fileId, old(fi.content.textSummary), correctLabel);
            m.corrections == old(m.corrections) + [c, c]
    ensures fi.finalLabel == old(fi.finalLabel) && fi.feedback == Some(correctLabel)
  {
    m.AddFeedback(fi, correctLabel);
    m.AddFeedback(fi, correctLabel);
  }
}
