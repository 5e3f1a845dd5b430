/**
 * The file record of data_structures/file_info.py: a class whose fields are
 * set by its constructor and later reassigned by the classifier and by
 * `update_label`, and its `to_dict` snapshot.
 */
module Records {
  import opened Wrappers
  import opened Strings

  /** The `metadata` dictionary: exactly the keys `size`, `created_at`, `modified_at`. */
  datatype Metadata = Metadata(size: int, createdAt: string, modifiedAt: string)

  /**
   * The `content` dictionary: exactly the keys `text_summary`,
   * `image_features`, `audio_transcript`, `video_keyframes`, each possibly `None`.
   */
  datatype Content = Content(
    textSummary: Option<string>,
    imageFeatures: Option<string>,
    audioTranscript: Option<string>,
    videoKeyframes: Option<seq<string>>)

  /** The eleven-key dictionary returned by `to_dict`. */
  datatype Snapshot = Snapshot(
    fileId: string,
    path: string,
    name: string,
    ext: string,
    fileType: string,
    metadata: Metadata,
    content: Content,
    embedding: Option<seq<real>>,
    candidates: seq<string>,
    finalLabel: Option<string>,
    feedback: Option<string>)

  class FileInfo {
    /** Assigned once, by the constructor; nothing reassigns it. */
    const fileId: string
    var path: string
    var name: string
    var ext: string
    /** The attribute `type`: "document", "image", "audio", "video" or "other". */
    var fileType: string
    var metadata: Metadata
    var content: Content
    var embedding: Option<seq<real>>
    var candidates: seq<string>
    var finalLabel: Option<string>
    var feedback: Option<string>

    /**
     * `FileInfo(...)`. The identifier `uuid4()` and the clock reading
     * `datetime.now().isoformat()` are parameters.
     */
    constructor (fileId: string, path: string, name: string, ext: string, ftype: string, size: int,
                 createdAt: Option<string>, modifiedAt: Option<string>,
                 textSummary: Option<string>, imageFeatures: Option<string>,
                 audioTranscript: Option<string>, videoKeyframes: Option<seq<string>>,
                 now: string)
      ensures this.fileId == fileId && this.path == path && this.name == name
      ensures this.ext == ext && this.fileType == ftype
      ensures metadata.size == size
      ensures metadata.createdAt == (if Truthy(createdAt) then createdAt.value else now)
      ensures metadata.modifiedAt == (if Truthy(modifiedAt) then modifiedAt.value else now)
      ensures content == Content(textSummary, imageFeatures, audioTranscript, videoKeyframes)
      ensures embedding == None && candidates == [] && finalLabel == None && feedback == None
    {
      this.fileId := fileId;
      this.path := path;
      this.name := name;
      this.ext := ext;
      this.fileType := ftype;
      metadata := Metadata(size, OrElse(createdAt, now), OrElse(modifiedAt, now));
      content := Content(textSummary, imageFeatures, audioTranscript, videoKeyframes);
      embedding := None;
      candidates := [];
      finalLabel := None;
      feedback := None;
    }

    /** `to_dict()`: the record's eleven attributes as one value. */
    function ToDict(): (d: Snapshot)
      reads this
      ensures d.fileId == fileId && d.path == path && d.name == name && d.ext == ext
      ensures d.fileType == fileType && d.metadata == metadata && d.content == content
      ensures d.embedding == embedding && d.candidates == candidates
      ensures d.finalLabel == finalLabel && d.feedback == feedback
    {
      Snapshot(fileId, path, name, ext, fileType, metadata, content, embedding,
               candidates, finalLabel, feedback)
    }

    /**
     * `update_label(label, feedback)`: a correction goes to `feedback` and
     * leaves `final_label` as the pipeline set it; otherwise `final_label`
     * is overwritten. Nothing else changes.
     */
    method UpdateLabel(newLabel: string, asFeedback: bool)
      modifies this
      ensures asFeedback ==> ToDict() == old(ToDict()).(feedback := Some(newLabel))
      ensures !asFeedback ==> ToDict() == old(ToDict()).(finalLabel := Some(newLabel))
    {
      if asFeedback {
        feedback := Some(newLabel);
      } else {
        finalLabel := Some(newLabel);
      }
    }
  }

  /**
   * The snapshot holds all eleven attributes and nothing else: two records
   * have equal snapshots exactly when they agree on every attribute.
   */
  lemma SnapshotDeterminesRecord(a: FileInfo, b: FileInfo)
    ensures a.ToDict() == b.ToDict() <==>
      && a.fileId == b.fileId && a.path == b.path && a.name == b.name && a.ext == b.ext
      && a.fileType == b.fileType && a.metadata == b.metadata && a.content == b.content
      && a.embedding == b.embedding && a.candidates == b.candidates
      && a.finalLabel == b.finalLabel && a.feedback == b.feedback
  {
  }
}
