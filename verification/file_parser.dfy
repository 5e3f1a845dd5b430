/**
 * `FileParser.parse_file` of subsystems/file_parser.py: the extension of a
 * path, the dispatch from extension to file type, and the summary requests
 * built from the first 2000 characters of the extracted text. The file
 * system, the content extractors and the `ollama run` subprocess are
 * parameters.
 */
module FileParsing {
  import opened Wrappers
  import opened Strings
  import opened Records
  import opened RuleEngine

  /** What `os.path.getsize`, `getctime` and `getmtime` report, the times already in ISO form. */
  datatype FileStat = FileStat(size: int, createdAt: string, modifiedAt: string)

  /**
   * An `ollama run` call on a prompt and an optional image path: its
   * standard output, or `None` when the subprocess raises.
   */
  type Ollama = (string, Option<string>) -> Option<string>

  /** Only this many characters of extracted text reach the summariser. */
  const SummaryLimit: nat := 2000

  const TextPrompt: string := "请总结以下文本内容：\n"
  const PdfPrompt: string := "请总结以下 PDF 内容：\n"
  const WordPrompt: string := "请总结以下 Word 文档内容：\n"
  const SlidesPrompt: string := "请总结以下 PPT 内容：\n"
  const SheetPrompt: string := "请总结以下 Excel 表格内容：\n"
  const ImagePrompt: string := "请描述这张图片的内容。"
  const OcrTag: string := "OCR文本："
  const DescriptionTag: string := "\n视觉模型描述："

  /** `os.path.basename` on a POSIX path: the text after the last slash. */
  function Basename(path: string): string {
    AfterLast(path, '/')
  }

  /**
   * `file_name.split('.')[-1].lower()`: the lower-cased text after the last
   * dot, or the whole lower-cased name when it has no dot.
   */
  function ExtensionOf(name: string): (ext: string)
    ensures |ext| <= |name| && ext == Lower(name[|name| - |ext|..])
    ensures '.' !in ext
    ensures |ext| < |name| ==> name[|name| - |ext| - 1] == '.'
    ensures '.' !in name ==> ext == Lower(name)
  {
    var suffix := AfterLast(name, '.');
    assert '.' !in Lower(suffix) by {
      forall k | 0 <= k < |suffix|
        ensures Lower(suffix)[k] != '.'
      {
        assert suffix[k] != '.';
      }
    }
    assert |suffix| < |name| ==> name[|name| - |suffix| - 1] in name;
    Lower(suffix)
  }

  /** The branches of the `if`/`elif` chain of `parse_file`. */
  datatype Branch = PlainText | Pdf | Word | Slides | Sheet | Picture | Unhandled

  function BranchOf(ext: string): Branch {
    if ext == "txt" || ext == "md" then PlainText
    else if ext == "pdf" then Pdf
    else if ext == "docx" || ext == "doc" then Word
    else if ext == "pptx" || ext == "ppt" then Slides
    else if ext == "xlsx" || ext == "xls" then Sheet
    else if ext == "jpg" || ext == "jpeg" || ext == "png" then Picture
    else Unhandled
  }

  /** The `ftype` a branch sets; "other" when no branch is taken. */
  function FileTypeOf(ext: string): (ftype: string)
    ensures ftype == "document" <==> ext in {"txt", "md", "pdf", "docx", "doc", "pptx", "ppt", "xlsx", "xls"}
    ensures ftype == "image" <==> ext in {"jpg", "jpeg", "png"}
    ensures ftype == "other" <==> BranchOf(ext) == Unhandled
  {
    match BranchOf(ext)
    case Picture => "image"
    case Unhandled => "other"
    case _ => "document"
  }

  /** `raw_text[:2000]`. */
  function Truncated(raw: string): (t: string)
    ensures |t| == if |raw| < SummaryLimit then |raw| else SummaryLimit
    ensures t == raw[..|t|]
  {
    if |raw| <= SummaryLimit then raw else raw[..SummaryLimit]
  }

  /** The summary request of a document branch. */
  function SummaryPrompt(b: Branch, raw: string): string
    requires b != Picture && b != Unhandled
  {
    var head := match b
      case PlainText => TextPrompt
      case Pdf => PdfPrompt
      case Word => WordPrompt
      case Slides => SlidesPrompt
      case Sheet => SheetPrompt;
    head + Truncated(raw)
  }

  /**
   * `_call_ollama`: the stripped standard output, or "" when the subprocess
   * raises. The image is passed only when its path is non-empty.
   */
  function CallOllama(ollama: Ollama, prompt: string, imagePath: Option<string>): (r: string)
    ensures var out := ollama(prompt, if Truthy(imagePath) then imagePath else None);
            (out.None? ==> r == "") && (out.Some? ==> IsStripOf(out.value, r))
  {
    var out := ollama(prompt, if Truthy(imagePath) then imagePath else None);
    if out.Some? then Strip(out.value) else ""
  }

  /** What `parse_file` puts in `type`, `text_summary` and `image_features`. */
  datatype Parsed = Parsed(fileType: string, textSummary: Option<string>, imageFeatures: Option<string>)

  /**
   * The content `parse_file` derives from the extracted text (for an
   * image, its OCR text), which is `None` when the extractor raises; the
   * result is `None` when that makes `parse_file` itself give up.
   */
  function ParsedContent(path: string, ext: string, extracted: Option<string>, ollama: Ollama): (p: Option<Parsed>)
    ensures p.None? <==> FileTypeOf(ext) == "document" && extracted.None?
    ensures p.Some? ==> p.value.fileType == FileTypeOf(ext)
    ensures p.Some? && p.value.fileType == "other" ==> p.value.textSummary == None && p.value.imageFeatures == None
    ensures p.Some? && p.value.fileType == "document" ==> p.value.textSummary.Some? && p.value.imageFeatures == None
    ensures p.Some? && p.value.fileType == "image" ==>
              if extracted.None? then p.value.textSummary == Some("") && p.value.imageFeatures == Some("")
              else p.value.imageFeatures.Some?
                   && p.value.textSummary == Some(OcrTag + extracted.value + DescriptionTag + p.value.imageFeatures.value)
  {
    match BranchOf(ext)
    case Unhandled => Some(Parsed("other", None, None))
    case Picture =>
      if extracted.None? then Some(Parsed("image", Some(""), Some("")))
      else
        var description := CallOllama(ollama, ImagePrompt, Some(path));
        Some(Parsed("image", Some(OcrTag + extracted.value + DescriptionTag + description), Some(description)))
    case _ =>
      if extracted.None? then None
      else Some(Parsed("document", Some(CallOllama(ollama, SummaryPrompt(BranchOf(ext), extracted.value), None)), None))
  }

  /** The record `parse_file` returns, as its `to_dict` snapshot. */
  function ParsedRecord(fileId: string, path: string, stat: FileStat, p: Parsed, now: string): Snapshot {
    var name := Basename(path);
    Snapshot(fileId, path, name, ExtensionOf(name), p.fileType,
             Metadata(stat.size, OrElse(Some(stat.createdAt), now), OrElse(Some(stat.modifiedAt), now)),
             Content(p.textSummary, p.imageFeatures, None, None),
             None, [], None, None)
  }

  /**
   * The `if`/`elif` chain of `parse_file`: the type, summary and image
   * features it assigns, or `None` when extraction raises outside the
   * image branch.
   */
  method DeriveContent(filePath: string, fileExt: string, extracted: Option<string>, ollama: Ollama)
    returns (parsed: Option<Parsed>)
    ensures parsed == ParsedContent(filePath, fileExt, extracted, ollama)
  {
    var textSummary: Option<string> := None;
    var imageFeatures: Option<string> := None;
    var ftype := "other";
    if fileExt == "txt" || fileExt == "md" {
      ftype := "document";
      if extracted.None? {
        return None;
      }
      textSummary := Some(CallOllama(ollama, TextPrompt + Truncated(extracted.value), None));
    } else if fileExt == "pdf" {
      ftype := "document";
      if extracted.None? {
        return None;
      }
      textSummary := Some(CallOllama(ollama, PdfPrompt + Truncated(extracted.value), None));
    } else if fileExt == "docx" || fileExt == "doc" {
      ftype := "document";
      if extracted.None? {
        return None;
      }
      textSummary := Some(CallOllama(ollama, WordPrompt + Truncated(extracted.value), None));
    } else if fileExt == "pptx" || fileExt == "ppt" {
      ftype := "document";
      if extracted.None? {
        return None;
      }
      textSummary := Some(CallOllama(ollama, SlidesPrompt + Truncated(extracted.value), None));
    } else if fileExt == "xlsx" || fileExt == "xls" {
      ftype := "document";
      if extracted.None? {
        return None;
      }
      textSummary := Some(CallOllama(ollama, SheetPrompt + Truncated(extracted.value), None));
    } else if fileExt == "jpg" || fileExt == "jpeg" || fileExt == "png" {
      ftype := "image";
      if extracted.None? {
        textSummary := Some("");
        imageFeatures := Some("");
      } else {
        var imageDesc := CallOllama(ollama, ImagePrompt, Some(filePath));
        imageFeatures := Some(imageDesc);
        textSummary := Some(OcrTag + extracted.value + DescriptionTag + imageDesc);
      }
    }
    parsed := Some(Parsed(ftype, textSummary, imageFeatures));
  }

  /**
   * `FileParser.parse_file`. `stat` is `None` when the file cannot be
   * stat-ed; `extracted` is the extractor's text, or the OCR text for an
   * image, and `None` when that step raises. The identifier and the clock
   * reading for the new record are parameters.
   */
  method ParseFile(filePath: string, stat: Option<FileStat>, extracted: Option<string>, ollama: Ollama,
                   fileId: string, now: string)
    returns (fi: FileInfo?)
    ensures fi == null <==> stat.None? || ParsedContent(filePath, ExtensionOf(Basename(filePath)), extracted, ollama).None?
    ensures fi != null ==> fresh(fi)
    ensures fi != null ==>
              fi.ToDict() == ParsedRecord(fileId, filePath, stat.value,
                                          ParsedContent(filePath, ExtensionOf(Basename(filePath)), extracted, ollama).value, now)
  {
    var fileName := Basename(filePath);
    var fileExt := ExtensionOf(fileName);
    if stat.None? {
      return null;
    }
    var parsed := DeriveContent(filePath, fileExt, extracted, ollama);
    if parsed.None? {
      return null;
    }
    var p := parsed.value;
    fi := new FileInfo(fileId, filePath, fileName, fileExt, p.fileType, stat.value.size,
                       Some(stat.value.createdAt), Some(stat.value.modifiedAt),
                       p.textSummary, p.imageFeatures, None, None, now);
  }

  /**
   * Text past the first 2000 characters never reaches the summariser: a
   * document's content is the same whether its extracted text is cut to
   * 2000 characters first or not, for texts of any length.
   */
  lemma TruncationIgnoresTail(path: string, ext: string, a: string, ollama: Ollama)
    requires FileTypeOf(ext) == "document"
    ensures ParsedContent(path, ext, Some(a), ollama) == ParsedContent(path, ext, Some(Truncated(a)), ollama)
  {
    assert Truncated(Truncated(a)) == Truncated(a);
  }

  /**
   * The parser's dispatch and the classifier's extension table give the
   * same type exactly when the extension is not one of doc, csv, gif, py,
   * js, html and css.
   */
  lemma ParserAgreesWithRuleTable(ext: string)
    ensures FileTypeOf(Lower(ext)) == ClassifyByExtension(ext)
            <==> Lower(ext) !in {"doc", "csv", "gif", "py", "js", "html", "css"}
  {
    LowerIdempotent(ext);
  }
}
