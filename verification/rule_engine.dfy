/** `Classifier._classify_by_extension` of subsystems/classifier.py: the coarse type of a file from its extension. */
module RuleEngine {
  import opened Strings

  const ExtensionTable: map<string, string> := map[
    "pdf" := "document", "docx" := "document", "pptx" := "document", "ppt" := "document",
    "txt" := "document", "md" := "document", "xlsx" := "document", "xls" := "document",
    "csv" := "document", "jpg" := "image", "jpeg" := "image", "png" := "image",
    "gif" := "image", "py" := "code", "js" := "code", "html" := "code", "css" := "code"]

  /**
   * The extension is lower-cased and looked up; the seventeen listed
   * extensions give their category and every other one gives "other".
   */
  function ClassifyByExtension(ext: string): (coarse: string)
    ensures coarse in {"document", "image", "code", "other"}
    ensures coarse == "document" <==> Lower(ext) in {"pdf", "docx", "pptx", "ppt", "txt", "md", "xlsx", "xls", "csv"}
    ensures coarse == "image" <==> Lower(ext) in {"jpg", "jpeg", "png", "gif"}
    ensures coarse == "code" <==> Lower(ext) in {"py", "js", "html", "css"}
  {
    var key := Lower(ext);
    if key in ExtensionTable then ExtensionTable[key] else "other"
  }

  /** The lookup ignores the case of ASCII letters. */
  lemma ClassifyByExtensionIgnoresCase(ext: string)
    ensures ClassifyByExtension(ext) == ClassifyByExtension(Lower(ext))
  {
    LowerIdempotent(ext);
  }
}
