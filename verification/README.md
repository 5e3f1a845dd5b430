# HottoFile classification core in Dafny

This project models the part of HottoFile's smart file system that turns a
parsed file into a labelled record. It also proves properties of that model.
The model covers these parts:

- **File record** (`data_structures/file_info.py`): the `FileInfo` class,
  its `to_dict` snapshot and `update_label`.
- **File parser** (`subsystems/file_parser.py`): the extension of a path, the
  dispatch from extension to file type, and the summary requests built from
  the first 2000 characters of the extracted text. The file system, the
  content extractors and the `ollama run` subprocess are parameters.
- **Rule engine** (`Classifier._classify_by_extension`): the fixed table from
  extension to coarse type.
- **Candidate generation** (the loop in `Classifier.classify`): the labels of
  the nearest indexed files, deduplicated in first-seen order. It falls back
  to a default list and appends `"other"` when missing.
- **Arbiter** (`OllamaClassifier`): the numbered, few-shot prompt, and the
  resolution of the model's raw answer. An exact match ignoring case is tried
  first, then containment in dictionary order, then no decision.
- **Pipeline** (`Classifier.classify`): type, then candidates, then the
  arbiter, falling back to the coarse type.
- **Vector store** (`EmbeddingManager`): the index as an ordered sequence of
  `(text, metadata snapshot)` entries, with build, add, delete, update, search
  and save. The ranking of the similarity search is an oracle.
- **Feedback store** (`FeedbackManager`): the append-only correction log.

The model takes these as parameters:

- the language model (a function from the prompt to its standard output, or
  `None` when the subprocess raises);
- the similarity ranking;
- the parser's `ollama` call and its extractors;
- `uuid4()` and `datetime.now()`.

Python's `str.lower` is modelled on ASCII letters. `str.strip` and
`str.splitlines` use Python's white-space and line-boundary characters.

Some behaviours of the code are easy to misread; the model keeps them as
written:

- `build_index` with nothing to index leaves an existing store as it was.
- `delete_file` returns `True` whenever a store exists, even when no entry
  matched. So `update_file` prints its "updated" message whenever a store
  exists, including for a file the store never held. `update_file` returns
  nothing.
- The candidate list holds `"other"` at least once ignoring case. It can hold
  it twice when two neighbour labels differ only in case
  (`CandidateGeneration.OtherMayRepeatIgnoringCase`). It never holds the same
  exact string twice.
- `FeedbackManager` has no `get_fewshot_examples`, so `Classifier.classify`
  always passes no examples to the arbiter. The prompt's few-shot section is
  still modelled and proved for callers that pass examples.

## Model

| member | source | states |
|---|---|---|
| Records.FileInfo.constructor | HottoFile/smart_file_system/data_structures/file_info.py:8-36 | every attribute takes its argument; a missing or empty timestamp becomes the creation instant; embedding, final label and feedback start absent and candidates start empty |
| Records.FileInfo.UpdateLabel | HottoFile/smart_file_system/data_structures/file_info.py:59-63 | a correction sets only `feedback`, otherwise only `final_label` is overwritten; every other attribute of the snapshot is unchanged |
| Records.FileInfo.ToDict | HottoFile/smart_file_system/data_structures/file_info.py:39-52 | each of the eleven keys holds the attribute of the same name |
| Records.SnapshotDeterminesRecord | HottoFile/smart_file_system/data_structures/file_info.py:39-52 | two records have equal `to_dict` snapshots exactly when all eleven attributes are equal |
| FeedbackManagement.FeedbackManager.constructor | HottoFile/smart_file_system/subsystems/feedback_manager.py:3-4 | the correction log starts empty |
| FeedbackManagement.FeedbackManager.AddFeedback | HottoFile/smart_file_system/subsystems/feedback_manager.py:6-19 | appends exactly one correction (file id, summary at correction time, label) and sets the record's feedback, leaving its final label and all else unchanged |
| FeedbackManagement.AddFeedbackTwice | HottoFile/smart_file_system/subsystems/feedback_manager.py:6-19 | the same correction given twice is logged twice: adding feedback is not idempotent |
| EmbeddingStore.EmbeddingManager.constructor | HottoFile/smart_file_system/subsystems/embedding_manager.py:9-28 | the store is the loaded index, or absent when loading fails; memory and disk agree |
| EmbeddingStore.EmbeddingManager.SaveIndex | HottoFile/smart_file_system/subsystems/embedding_manager.py:117-121 | a present store is written to the persist path; an absent one writes nothing |
| EmbeddingStore.EmbeddingManager.BuildIndex | HottoFile/smart_file_system/subsystems/embedding_manager.py:54-65 | the store becomes the entries of the files with a truthy summary, in input order, and is saved; with no such file nothing changes |
| EmbeddingStore.EmbeddingManager.AddFile | HottoFile/smart_file_system/subsystems/embedding_manager.py:67-78 | an absent store is built from the one file; a present one gains one entry at the end when the summary is truthy; saved exactly when it changed |
| EmbeddingStore.EmbeddingManager.DeleteFile | HottoFile/smart_file_system/subsystems/embedding_manager.py:80-100 | reports false and changes nothing on an absent store; otherwise drops every entry with the identifier, keeps the others in order, saves, and reports true |
| EmbeddingStore.EmbeddingManager.UpdateFile | HottoFile/smart_file_system/subsystems/embedding_manager.py:102-109 | the store becomes delete-then-add of the file, and a store in step with its saved copy stays in step |
| EmbeddingStore.EmbeddingManager.Search | HottoFile/smart_file_system/subsystems/embedding_manager.py:111-115 | an absent store answers nothing; at most `k` results, each an entry of the store |
| EmbeddingStore.IndexEntriesMembers | HottoFile/smart_file_system/subsystems/embedding_manager.py:58-61 | an entry is indexed exactly when it is the snapshot entry of an input file with a truthy summary |
| EmbeddingStore.IndexEntriesAppend | HottoFile/smart_file_system/subsystems/embedding_manager.py:54-61 | indexing a concatenation concatenates the indexes: input order is kept |
| EmbeddingStore.WithoutMembers | HottoFile/smart_file_system/subsystems/embedding_manager.py:86-89 | after deletion an entry remains exactly when it was there and carries another identifier |
| EmbeddingStore.WithoutAppend | HottoFile/smart_file_system/subsystems/embedding_manager.py:86-94 | deletion distributes over concatenation, so survivors keep their order |
| EmbeddingStore.WithoutUnseen | HottoFile/smart_file_system/subsystems/embedding_manager.py:86-89 | deleting an identifier no entry carries changes nothing |
| EmbeddingStore.WithIdOfWithout | HottoFile/smart_file_system/subsystems/embedding_manager.py:86-89 | after deletion no entry carries the identifier, and deleting again changes nothing |
| EmbeddingStore.AddOnAbsentIsBuild | HottoFile/smart_file_system/subsystems/embedding_manager.py:69-71 | adding to an absent store is building from the single file |
| EmbeddingStore.UpdateReplaces | HottoFile/smart_file_system/subsystems/embedding_manager.py:102-105 | after an update, other files' entries are those before, in order, and the identifier is carried by exactly the new snapshot (or by nothing without a summary) |
| EmbeddingStore.UpdateKeepsIdsDistinct | HottoFile/smart_file_system/subsystems/embedding_manager.py:102-105 | if each identifier had at most one entry before an update, the same holds after it |
| EmbeddingStore.WithoutSubsequenceDistinct | HottoFile/smart_file_system/subsystems/embedding_manager.py:86-89 | deletion keeps identifiers distinct |
| EmbeddingStore.UpdateUnseenIsAdd | HottoFile/smart_file_system/subsystems/embedding_manager.py:102-105 | updating a file the store does not hold is adding it |
| EmbeddingStore.SearchAfterDelete | HottoFile/smart_file_system/subsystems/embedding_manager.py:80-115 | after deleting an identifier, no search answer carries it, whatever the ranking |
| EmbeddingStore.Nearest | HottoFile/smart_file_system/subsystems/embedding_manager.py:115 | the ranked answer has at most `k` entries, all from the store |
| RuleEngine.ClassifyByExtension | HottoFile/smart_file_system/subsystems/classifier.py:96-103 | the lower-cased extension gives "document" exactly for the nine document extensions, "image" exactly for jpg, jpeg, png, gif, "code" exactly for py, js, html, css, and "other" otherwise |
| RuleEngine.ClassifyByExtensionIgnoresCase | HottoFile/smart_file_system/subsystems/classifier.py:103 | the lookup does not depend on letter case |
| CandidateGeneration.NeighbourLabel | HottoFile/smart_file_system/subsystems/classifier.py:126-127 | a neighbour contributes a label exactly when its stored final label is non-empty, and then contributes that label; stored snapshots have no `label` key |
| CandidateGeneration.GenerateCandidates | HottoFile/smart_file_system/subsystems/classifier.py:120-142 | the loop with its `seen` set computes the candidate list of the neighbours' labels |
| CandidateGeneration.EnsureOther | HottoFile/smart_file_system/subsystems/classifier.py:139-140 | the result holds "other" ignoring case, keeps the input as prefix, and gains one literal "other" exactly when the input lacked it |
| CandidateGeneration.TruthyLabelsMembers | HottoFile/smart_file_system/subsystems/classifier.py:132 | the kept labels are exactly the non-empty labels present |
| CandidateGeneration.TruthyLabelsPosition | HottoFile/smart_file_system/subsystems/classifier.py:132 | every kept label comes from a raw position, and the kept labels before it are those of the raw labels before it |
| CandidateGeneration.FirstSeenSpec | HottoFile/smart_file_system/subsystems/classifier.py:120-134 | the loop keeps exactly the non-empty labels that occur, each once |
| CandidateGeneration.FirstSeenOrder | HottoFile/smart_file_system/subsystems/classifier.py:120-134 | kept labels appear in the order of their first occurrence among the neighbours |
| CandidateGeneration.DefaultCandidatesSpec | HottoFile/smart_file_system/subsystems/classifier.py:136-137 | the default list holds "other", has no repeats and no empty label |
| CandidateGeneration.EnsureOtherDistinct | HottoFile/smart_file_system/subsystems/classifier.py:139-140 | appending "other" keeps a repeat-free list repeat-free |
| CandidateGeneration.CandidatesSpec | HottoFile/smart_file_system/subsystems/classifier.py:120-142 | candidates hold "other", have no repeats and no empty label, are the defaults when no neighbour label survives, and otherwise the kept labels followed by at most one "other" |
| CandidateGeneration.CandidatesKeepOther | HottoFile/smart_file_system/subsystems/classifier.py:54-55 | the arbiter's own "other" top-up leaves the pipeline's candidates unchanged |
| CandidateGeneration.CandidatesExample | HottoFile/smart_file_system/subsystems/classifier.py:120-142 | neighbour labels A, B, A, C give candidates A, B, C, other |
| CandidateGeneration.OtherMayRepeatIgnoringCase | HottoFile/smart_file_system/subsystems/classifier.py:132-140 | labels "Other" and "other" are both kept and no literal "other" is added |
| Arbiter.CandidateLines | HottoFile/smart_file_system/subsystems/classifier.py:34-35 | line `i` of the list is the number `first + i`, a dot, a space and candidate `i` |
| Arbiter.BuildPrompt | HottoFile/smart_file_system/subsystems/classifier.py:8-44 | the loops build exactly the prompt text: instruction, optional numbered examples, numbered candidates, the summary and the closing note, joined by newlines |
| Arbiter.ExampleBlocksAppend | HottoFile/smart_file_system/subsystems/classifier.py:24-30 | the example section of a concatenation is the two sections, the second numbered on from the first |
| Arbiter.ExampleBlocksSplit | HottoFile/smart_file_system/subsystems/classifier.py:24-30 | the example after `pre` is shown as number `|pre| + 1`, even when earlier examples were skipped |
| Arbiter.CanonicalMap | HottoFile/smart_file_system/subsystems/classifier.py:74 | every candidate's lower-case form is a key; the keys listed in order are exactly the keys present |
| Arbiter.CanonicalMapKeys | HottoFile/smart_file_system/subsystems/classifier.py:74 | the dictionary's keys are the lower-cased candidates, deduplicated in first-insertion order |
| Arbiter.CanonicalMapValue | HottoFile/smart_file_system/subsystems/classifier.py:74 | each key maps to the last candidate with that lower-case form |
| Arbiter.ScanMatchesCandidates | HottoFile/smart_file_system/subsystems/classifier.py:80-83 | scanning the dictionary returns the value for the first candidate, in list order, whose lower-case form the line contains |
| Arbiter.Resolve | HottoFile/smart_file_system/subsystems/classifier.py:59-88 | a failed subprocess or an output that is all white space gives no decision; otherwise the stripped output's first line, stripped and lower-cased, is resolved (see ResolveFirstNonBlankLine and ResolvePlainLine) |
| Arbiter.ResolveLineSpec | HottoFile/smart_file_system/subsystems/classifier.py:74-85 | any answer is a candidate contained in the line; no answer exactly when no candidate is contained; an exact match ignoring case wins; otherwise the first contained candidate decides |
| Arbiter.ResolveLineExact | HottoFile/smart_file_system/subsystems/classifier.py:76-78 | a line equal to a candidate ignoring case resolves to that candidate, when no later candidate has the same lower-case form (otherwise the last such candidate wins, see CanonicalMapValue) |
| Arbiter.ResolveLineContained | HottoFile/smart_file_system/subsystems/classifier.py:80-83 | with no exact match, the first contained candidate is the answer, when no later candidate has the same lower-case form |
| Arbiter.ResolveFirstNonBlankLine | HottoFile/smart_file_system/subsystems/classifier.py:67-72 | for output made of blank space, an answer line with a non-space character and no line boundary, then either nothing or any line boundary followed by anything, the answer is that of the answer line stripped and lower-cased |
| Strings.FirstStrippedLine | HottoFile/smart_file_system/subsystems/classifier.py:67-71 | strip, then the first line, then strip again gives the first non-blank line with its padding removed, whether that line ends the text or is ended by any line boundary, and the stripped text is never empty |
| Arbiter.ResolvePlainLine | HottoFile/smart_file_system/subsystems/classifier.py:67-72 | a one-line answer without surrounding white space is resolved as its lower-case form |
| Arbiter.ResolveIsCandidate | HottoFile/smart_file_system/subsystems/classifier.py:67-88 | whatever the model prints, a decision is one of the candidates |
| Arbiter.ArbiterDecisionIsCandidate | HottoFile/smart_file_system/subsystems/classifier.py:46-88 | any decision is one of the candidates after "other" was added |
| Arbiter.OllamaClassify | HottoFile/smart_file_system/subsystems/classifier.py:46-88 | no decision without a summary; otherwise the resolved answer to the built prompt, which is a candidate or "other" |
| Arbiter.ResolveExactIgnoringCase | HottoFile/smart_file_system/subsystems/classifier.py:67-78 | "Research Paper" against research paper, invoice resolves to "research paper" |
| Arbiter.ResolveByContainment | HottoFile/smart_file_system/subsystems/classifier.py:67-83 | "this looks like an invoice to me" against research paper, invoice resolves to "invoice" |
| Arbiter.ResolveNoDecision | HottoFile/smart_file_system/subsystems/classifier.py:67-85 | "banana" against research paper, invoice, other gives no decision |
| Pipeline.Classifier.constructor | HottoFile/smart_file_system/subsystems/classifier.py:92-94 | keeps the arbiter and the feedback manager |
| Pipeline.Classifier.Classify | HottoFile/smart_file_system/subsystems/classifier.py:105-161 | the record becomes the classified record for the neighbours of its summary |
| Pipeline.Classifier.ClassifiedSpec | HottoFile/smart_file_system/subsystems/classifier.py:105-161 | type from the table; no summary gives the type as final label and keeps the candidates; otherwise repeat-free candidates holding "other"; the final label is always set, to a candidate or the type; only three attributes change |
| Pipeline.Classifier.ClassifiedIdempotent | HottoFile/smart_file_system/subsystems/classifier.py:105-161 | classifying a classified record again with the same neighbours changes nothing |
| Pipeline.ClassifyTwice | HottoFile/smart_file_system/subsystems/classifier.py:105-161 | on an unchanged store and model, the first run stores the classification of the original record and the second run stores that same record again |
| FileParsing.ExtensionOf | HottoFile/smart_file_system/subsystems/file_parser.py:39-40 | the lower-cased text after the last dot, holding no dot; the whole lower-cased name when there is no dot |
| FileParsing.FileTypeOf | HottoFile/smart_file_system/subsystems/file_parser.py:45-93 | "document" exactly for txt, md, pdf, docx, doc, pptx, ppt, xlsx, xls; "image" exactly for jpg, jpeg, png; otherwise "other" |
| FileParsing.Truncated | HottoFile/smart_file_system/subsystems/file_parser.py:55 | a prefix of the raw text of length at most 2000 |
| FileParsing.ParsedContent | HottoFile/smart_file_system/subsystems/file_parser.py:45-104 | gives up only for a document whose extraction failed; type per the dispatch; no content for "other"; a document summary only; a failed image gives empty summary and features; otherwise the summary is the OCR text followed by the description |
| FileParsing.DeriveContent | HottoFile/smart_file_system/subsystems/file_parser.py:45-104 | the `if`/`elif` chain computes that content |
| FileParsing.ParseFile | HottoFile/smart_file_system/subsystems/file_parser.py:37-123 | no record when the file cannot be stat-ed or a document cannot be read; otherwise a fresh record with that content, its name, extension and metadata |
| FileParsing.TruncationIgnoresTail | HottoFile/smart_file_system/subsystems/file_parser.py:55-89 | for any document text, cutting it to its first 2000 characters beforehand does not change the content |
| FileParsing.CallOllama | HottoFile/smart_file_system/subsystems/file_parser.py:23-35 | the image path is passed only when truthy; a failed call gives the empty string, otherwise the output with exactly its surrounding white space removed |
| FileParsing.ParserAgreesWithRuleTable | HottoFile/smart_file_system/subsystems/file_parser.py:47-93 | the parser's type and the classifier's table agree exactly except for doc, csv, gif, py, js, html and css |
| Strings.Strip | HottoFile/smart_file_system/subsystems/classifier.py:67 | the result is the slice of the input left after removing its leading and trailing white space: only white space lies outside it, and it neither starts nor ends with white space |
| Strings.StripUnique | HottoFile/smart_file_system/subsystems/classifier.py:67 | that description determines the result: any string meeting it is the stripped input |
| Strings.FirstLine | HottoFile/smart_file_system/subsystems/classifier.py:71 | the prefix up to the first line boundary, containing none |
| Strings.AfterLast | HottoFile/smart_file_system/subsystems/file_parser.py:40 | the suffix after the last separator, containing none, or the whole string |
| Seqs.DedupMembers | HottoFile/smart_file_system/subsystems/classifier.py:132-134 | deduplication keeps exactly the members |
| Seqs.DedupDistinct | HottoFile/smart_file_system/subsystems/classifier.py:132-134 | deduplication leaves no repeats |
| Seqs.DedupOrder | HottoFile/smart_file_system/subsystems/classifier.py:132-134 | deduplicated elements keep the order of first occurrence |
| Seqs.DedupFirstMatch | HottoFile/smart_file_system/subsystems/classifier.py:81-83 | the first deduplicated element passing a test is the first raw element passing it |

## Left out

- Similarity search: FAISS's ranking and the embedding model are an oracle. So "a file added and searched with its own text is the nearest match" is not proved.
- The FAISS index internals are not modelled: the docstore dictionary, `index.reset()` and the index-to-docstore map. Deletion is modelled as what the code intends, re-adding the surviving entries in order.
- Exceptions inside FAISS are not modelled: add, delete, search and save always succeed. The `except` branches of `delete_file` and of the search in `Classifier.classify` are not modelled.
- `_init_embeddings` and `_check_ollama_model` are left out (model selection through the `ollama list` subprocess).
- Loading a saved index is a parameter of the constructor.
- Printing and logging are left out, including the "updated" and "added" messages of `update_file`.
- `to_json` is left out (JSON text rendering).
- There is no `get_fewshot_examples` in `FeedbackManager`, so no few-shot retrieval is modelled.
- Only neighbour results carrying a metadata snapshot are modelled. The search only returns such results, so the dictionary and `file` shapes tested in `Classifier.classify` cannot occur.
- The content extractors (pdfplumber, docx, pptx, openpyxl, pytesseract) become one extracted text, or `None` when they raise. How each library joins pages, paragraphs, shapes and cells is not modelled.
- Windows path separators in `os.path.basename` are not modelled.
- Unicode `str.lower` is not modelled: only ASCII letters are lower-cased.
- Audio and video content are left out: the parser never fills them.
- `file_monitor.py` and `main.py` are not part of this model.
- Concurrency is left out: each call runs alone.
- The two `datetime.now()` calls of the `FileInfo` constructor are one instant `now`.
- EmbeddingStore.EmbeddingManager.Search: does not state which entries the ranking picks, because the ranking is an oracle.
