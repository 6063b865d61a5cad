# HR assistant CV matching: a Dafny model

This project models the core of the HR assistant's CV-matching pipeline and proves properties of that model.

- **Ingestion** (`embed_files.py`) walks the input folder and keeps the regular files with a `.pdf`, `.docx`, `.txt` or `.doc` suffix, in any case. It loads each kept file with the loader for its suffix. Every loaded document is stamped with four file keys: source path, name, size and MD5. A file whose loading raises has its name recorded and is skipped. The documents are then chunked, and every chunk gets a 16-character id. Finally the index is built and saved, and ingestion returns a summary record.
- **Matching** (`compare_cvs.py`) runs a similarity search for a job description. It groups the hits by CV file and keeps, per file, the closest hit; among equally close hits the earliest wins. The console entry point reads the job description line by line, up to an `END` line.
- **HTTP handlers** (`main.py`) cover two endpoints. The upload endpoint saves the uploaded files and runs ingestion. The compare endpoint turns the grouping into records of file name, distance and the first 500 characters of the matched text.
- **Sample CVs** (`app/sample_cv_creator.py`) are generated as PDFs. The text is first sanitised by replacing five typographic characters with ASCII ones. The PDF is then written one line per cell.

## How the model is built

- Python dicts are association lists in insertion order (`PyDict`). Assigning to a present key keeps its place; assigning to a new key appends it.
- `str` is `seq<char>` (`Text`).
- Every library call is a field of an `Env` value, or a function parameter:
  - the document loaders;
  - `stat` and `read_bytes`;
  - MD5 and SHA-256, returning 32- and 64-character hex strings;
  - `repr`;
  - the text splitter;
  - the index build and save;
  - the similarity search.
- A call that may raise returns `Option`, or `false` for the index build; `None` or `false` means it raised.
- Loops that grow lists or update dicts are methods with loop invariants. The ingestion, grouping and conversion loops are proved equal to a function, and the properties are proved about that function. The console loop, the two endpoints and the PDF generation are described directly by their postconditions.
- `Path.suffix` follows the rule of `pathlib` up to Python 3.13: the suffix starts at the last dot of the name, unless that dot is the first or the last character.
- `os.path.join` is the POSIX one: an absolute second part replaces the first, otherwise one `/` separates them.
- Lower- and upper-casing use the ASCII mapping. No non-ASCII character lower-cases or upper-cases onto the letters the code compares against (`.pdf`, `.docx`, `.txt`, `.doc`, `END`), so the comparisons come out as with Python's full Unicode mapping.
- Which characters the PDF library's built-in font can encode is a parameter, `encodable`.
- Modules follow the source files:
  - `EmbedFiles`, `CompareCvs`, `Api` (main.py) and `SampleCvCreator` model the four source files;
  - `PyDict`, `Text`, `Documents` and `Wrappers` hold the shared data model.

## Model

| member | source | states |
|---|---|---|
| PyDict.GetMeaning | compare_cvs.py:42 | `d.get(k)` finds a value exactly when `k` is a key, and the value found is the one stored with `k` |
| PyDict.Put | compare_cvs.py:44 | after `d[k] = v`, `k` maps to `v`, every other key keeps its value, and distinct keys stay distinct |
| PyDict.PutKeys | compare_cvs.py:44 | `d[k] = v` leaves the key order unchanged when `k` is present; otherwise `k` is appended |
| PyDict.Update | embed_files.py:54-59 | after `d.update(other)`, a key of `other` has `other`'s value and every other key keeps its own |
| Text.StripEmptyIffAllSpace | compare_cvs.py:68-69 | `s.strip()` is empty exactly when every character of `s` is whitespace |
| Text.Split | app/sample_cv_creator.py:63 | `s.split(c)` has one more piece than `s` has `c`s, no piece holds `c`, and joining the pieces with `c` gives back `s` |
| Text.ReplaceChar | app/sample_cv_creator.py:52-56 | `s.replace(x, y)` keeps the length, turns every `x` into `y` and leaves every other character in place |
| Text.IsSpace | compare_cvs.py:64 | definition: the characters `str.strip()` removes by default, Python's whitespace set |
| Text.Strip | compare_cvs.py:64 | definition: `s.strip()` drops leading, then trailing, whitespace |
| Text.Lower | embed_files.py:36 | definition: `s.lower()`, character by character |
| Text.Join | compare_cvs.py:68 | definition: `sep.join(parts)`, the parts with `sep` between neighbours |
| Text.Prefix | main.py:61 | definition: `s[:n]`, the first `min(n, len(s))` characters |
| Text.PathJoin | main.py:27 | definition: the POSIX `os.path.join(a, b)`: an absolute `b` replaces `a`, otherwise one `/` separates them |
| EmbedFiles.Suffix | embed_files.py:36 | definition: `Path.suffix`, from the last dot of the name unless that dot is first or last, else empty |
| EmbedFiles.IsSupported | embed_files.py:36 | definition: the walk filter, a regular file whose lower-cased suffix is one of the four supported ones |
| EmbedFiles.LoaderFor | embed_files.py:41-49 | on the accepted suffixes: `.pdf` gets PyPDF, `.docx` Docx2txt, `.doc` Unstructured, `.txt` the text loader, each if and only if |
| EmbedFiles.FilterIgnoresCase | embed_files.py:36 | two entries whose names agree up to case are both accepted or both rejected, and get the same loader |
| EmbedFiles.SuffixExamples | embed_files.py:21 | `Resume.PDF` is accepted and goes to PyPDF; `old.Doc` goes to Unstructured; `.txt`, `notes.md` and a directory `sub.pdf` are rejected; the suffix of `a.tar.docx` is `.docx` |
| EmbedFiles.StampMetadata | embed_files.py:54-59 | the four file keys are set to path, name, size and hash, overwriting earlier values; every other key is unchanged; keys stay distinct |
| EmbedFiles.StampDocument | embed_files.py:53-59 | definition: a document's text kept and its metadata updated with the four file keys |
| EmbedFiles.ProcessFile | embed_files.py:36-65 | definition: one entry of the walk. An entry that is not accepted is skipped. Otherwise it fails if its loader raises, or if it loaded documents and `stat` or `read_bytes` raises; else it contributes its loaded documents, stamped |
| EmbedFiles.LoadedDocuments | embed_files.py:31-60 | definition: `documents`, the contributions of the entries concatenated in walk order |
| EmbedFiles.FailedFiles | embed_files.py:32-64 | definition: `failed_files`, the names of the failed entries in walk order |
| EmbedFiles.SucceededFileIsStamped | embed_files.py:52-60 | a file that loads contributes exactly its loaded documents in loader order, texts unchanged, four file keys stamped, other keys as loaded |
| EmbedFiles.FailedFileCause | embed_files.py:37-65 | an accepted file fails exactly when its loader raises, or when it loaded documents and `stat` or `read_bytes` raises |
| EmbedFiles.LoadOneFile | embed_files.py:37-60 | the `try` block returns nothing exactly when the file fails, and otherwise returns that file's stamped documents |
| EmbedFiles.StampLoaded | embed_files.py:53-59 | the stamping loop over loaded documents: fails exactly when there is a document and `stat` or `read_bytes` raises; otherwise every document is stamped, in order |
| EmbedFiles.LoadAndProcessDocuments | embed_files.py:29-69 | `documents` and `failed_files` are the per-file contributions, concatenated in walk order |
| EmbedFiles.LoadedDocumentsProvenance | embed_files.py:60 | a document is loaded exactly when it comes from the contribution of some file that loaded |
| EmbedFiles.FailedFilesExact | embed_files.py:64 | a name is listed as failed exactly when some accepted file with that name failed |
| EmbedFiles.EveryDocumentStamped | embed_files.py:53-60 | every loaded document comes from an accepted file and carries that file's path, name, size and hash |
| EmbedFiles.NoSupportedFiles | embed_files.py:35-36 | a walk with no accepted file loads nothing and records no failure |
| EmbedFiles.CorruptThenValid | embed_files.py:52-65 | a failing file followed by a good one lists only the first as failed and keeps exactly the second's documents: processing goes on after a failure |
| EmbedFiles.DictRepr | embed_files.py:91 | definition: `str(metadata)`, `{` then `repr(key): value` pairs in key order separated by `, `, then `}`; strings through `repr`, integers in decimal |
| EmbedFiles.ChunkIdInput | embed_files.py:90-92 | definition: the hashed text; the trailing comma makes `content` a one-element tuple, rendered `(repr(text),)`, followed by `str(metadata)` |
| EmbedFiles.ChunkId | embed_files.py:90-92 | a chunk id is 16 hex characters, the prefix of the SHA-256 of `(repr(text),)` followed by `str(metadata)` |
| EmbedFiles.AssignChunkIds | embed_files.py:89-93 | every chunk gets `chunk_id` computed from its own text and its metadata before the id was added; its text and every other key are unchanged |
| EmbedFiles.EmbedFolderResult | embed_files.py:99-120 | definition: `embed_folder` as a value. It loads, splits with size 1000 and overlap 200, and fails if the splitter raises. It assigns ids and fails if building or saving the index raises. Otherwise it returns the summary of document count, chunk count, failed files and output path |
| EmbedFiles.EmbedFolder | embed_files.py:99-120 | `embed_folder` loads, chunks with size 1000 and overlap 200, assigns ids, builds and saves, and either summarises or fails with the error that escaped |
| EmbedFiles.SummaryFields | embed_files.py:115-120 | a run fails exactly when chunking or indexing raised; a summary counts the loaded documents and the chunks, lists exactly the failed files and names the output path |
| EmbedFiles.EmptyFolderSummary | embed_files.py:115-120 | if the run over a folder without accepted files completes, its summary has no documents and no failures |
| CompareCvs.FileKey | compare_cvs.py:42 | definition: `doc.metadata.get("file_name", "Unknown")` |
| CompareCvs.Step | compare_cvs.py:42-44 | definition: one pass of the loop; the hit is stored under its file when none is stored yet or it is strictly closer |
| CompareCvs.Group | compare_cvs.py:40-44 | definition: the loop as a left fold of `Step` over the hits, from the empty dict |
| CompareCvs.GroupBestByFile | compare_cvs.py:40-44 | the grouping loop computes the grouping of all hits |
| CompareCvs.StepPreserves | compare_cvs.py:43-44 | one pass of the loop keeps the dict describing the best hit of each file among the hits seen so far |
| CompareCvs.GroupMeaning | compare_cvs.py:40-44 | a file is a key exactly when some hit has that file, and the hit stored for it is a real hit of that file: strictly closer than every earlier hit of the file and no farther than any later one |
| CompareCvs.BestIsUnique | compare_cvs.py:43 | the earliest closest hit of a file is unique, so ties keep the first |
| CompareCvs.GroupKeysExact | compare_cvs.py:40-44 | the keys are exactly the files of the hits |
| CompareCvs.StoredScoreIsMinimum | compare_cvs.py:43-44 | a file's stored distance is no greater than the distance of any of its hits |
| CompareCvs.MissingFileNameIsUnknown | compare_cvs.py:42 | a hit without `file_name` is grouped under `"Unknown"` |
| CompareCvs.GroupHasNoDupKeys | compare_cvs.py:40-44 | no key occurs twice in the grouping |
| CompareCvs.GroupKeyOrder | compare_cvs.py:40-47 | keys come out in order of the files' first appearance among the hits; replacing a stored hit does not move its key |
| CompareCvs.CompareWithJobDescription | compare_cvs.py:29-55 | returns the empty list exactly when the search found nothing, and otherwise the grouping of the 20 nearest hits |
| CompareCvs.NonEmptySearchHasMatches | compare_cvs.py:35-44 | a non-empty search result yields at least one match |
| CompareCvs.IsEndLine | compare_cvs.py:64 | definition: `line.strip().upper() == "END"` |
| CompareCvs.RunConsole | compare_cvs.py:58-72 | reading stops at the first line equal to `END` after stripping and upper-casing, and that line is left out. With no such line, input runs out. If the joined and stripped earlier lines are empty, there is no job description; otherwise comparison runs on them |
| CompareCvs.EndLineExamples | compare_cvs.py:64 | `END`, `  end\t` and `End` end the input; `ENDING` and the empty line do not |
| Api.ToRecord | main.py:58-62 | definition: the record of one entry; the key as `file_name`, the stored distance as `Score`, the first 500 characters of the hit's text as `Matched_content` |
| Api.Records | main.py:56-62 | definition: the records of the entries of a grouping, in its iteration order |
| Api.SerializeMatches | main.py:56-62 | the conversion loop yields one record per entry of the grouping, in its iteration order |
| Api.RecordsDescribeMatches | main.py:56-62 | there is one record per distinct file among the hits, in first-appearance order; each record has its file's earliest closest hit's distance and the first 500 characters of that hit's text |
| Api.MatchedContentIsPrefix | main.py:61 | `Matched_content` is the prefix of the text of length `min(500, len(text))` |
| Api.CompareJobDescriptionEndpoint | main.py:53-64 | as written: the endpoint fails exactly when the search found nothing, and otherwise returns the records of the grouping |
| Api.CompareJobDescriptionEndpointCorrected | main.py:53-64 | as intended: `matches` is empty exactly when the search found nothing, and is always the records of the grouping |
| Api.UploadCvEmbed | main.py:17-42 | every upload is written to `os.path.join("cv_documents", name)` in upload order; `saved_files` lists every uploaded name in order, duplicates included; `summary` is exactly the `embed_folder` result, whose failure is the endpoint's failure |
| SampleCvCreator.SanitizeChar | app/sample_cv_creator.py:52-56 | definition: the substitution table; U+2013 and U+2014 to `-`, U+2019 to `'`, U+201C and U+201D to `"`, every other character to itself |
| SampleCvCreator.SanitizeText | app/sample_cv_creator.py:50-56 | sanitising keeps the length and maps each character through the table: both dashes to `-`, the right single quote to `'`, both double quotes to `"` |
| SampleCvCreator.SanitizeRemovesReplaced | app/sample_cv_creator.py:52-56 | none of the five replaced characters survives |
| SampleCvCreator.SanitizeKeepsOthers | app/sample_cv_creator.py:52-56 | every other character stays where it was |
| SampleCvCreator.LeftSingleQuoteUntouched | app/sample_cv_creator.py:52-56 | the left single quote U+2018 is not replaced |
| SampleCvCreator.SanitizeIdempotent | app/sample_cv_creator.py:50-56 | sanitising twice gives the same text as sanitising once |
| SampleCvCreator.SanitizeKeepsNewlines | app/sample_cv_creator.py:52-56 | sanitising keeps the number of line breaks |
| SampleCvCreator.PdfFileName | app/sample_cv_creator.py:70 | the file name is the CV name with every space made `_`, followed by `.pdf`, so it has no space and ends in `.pdf` |
| SampleCvCreator.TwoWordFileName | app/sample_cv_creator.py:70 | a two-word name such as `Data Analyst` becomes the words joined by `_`, plus `.pdf` |
| SampleCvCreator.PdfPathInOutputDir | app/sample_cv_creator.py:71 | unless the name starts with `/`, the PDF path is `cv_documents/` followed by the file name |
| SampleCvCreator.PdfLines | app/sample_cv_creator.py:63 | definition: the lines written are the sanitised text split at `\n` |
| SampleCvCreator.CellEncodable | app/sample_cv_creator.py:62-64 | definition: a line can be written when the font encodes each of its characters |
| SampleCvCreator.PdfFails | app/sample_cv_creator.py:58-65 | definition: `create_pdf` raises when some line cannot be written |
| SampleCvCreator.PdfFailsIffUnencodable | app/sample_cv_creator.py:58-65 | `create_pdf` raises exactly when the sanitised text holds a character, other than a line break, that the font cannot encode; that U+2018 survives sanitising is `LeftSingleQuoteUntouched` |
| SampleCvCreator.EncodableTextSucceeds | app/sample_cv_creator.py:50-65 | if the font encodes `-`, `'` and `"`, a text whose other characters it encodes never makes `create_pdf` raise: sanitising is what makes the five typographic characters writable |
| SampleCvCreator.CreatePdf | app/sample_cv_creator.py:58-65 | fails exactly when some line cannot be encoded. Otherwise there is one cell per line of the sanitised text, so the newline count plus one; no cell holds a newline, and the cells rejoined with newlines are the sanitised text |
| SampleCvCreator.GeneratePdfs | app/sample_cv_creator.py:67-73 | `pdf_files` has one path per sample, in sample order, up to the first sample whose PDF raises. The script stops with the error exactly when some sample raises, and then the next sample is the one that raised. Every PDF made is saved at `os.path.join("cv_documents", <derived name>)` and holds that sample's lines |

## Left out

- The langchain loaders, the text splitter, the HuggingFace embeddings and the FAISS index are not modelled. They and their load, build, save and search are fields of `Env` or the `search` parameter. The splitter's guarantees about chunk size and overlap are not modelled; only the parameters 1000 and 200 are passed on.
- MD5 and SHA-256 internals are not modelled: they are functions that return 32- and 64-character hex strings. `repr` of a string is a parameter too.
- The folder walk is the sequence of entries it yields. `stat`, `read_bytes` and the upload writes are parameters, or a log of the writes made. Directory creation is left out.
- The similarity search is total: a failure to load the vector store, or to search it, is not modelled.
- All `print` output is left out, including the file count on embed_files.py:67 and the report on compare_cvs.py:46-54.
- Distances are integers, not floats; only `<` is applied to them, and `float(score)` on main.py:60 is the identity here.
- Metadata update in place and object aliasing are not modelled. Documents and chunks are values, and each loop replaces the element it changes.
- FastAPI routing, request parsing, async I/O and the JSON encoding of responses are left out.
- PDF layout and page breaks, and writing the PDF file, are not modelled. A PDF is its path and its list of cell texts.
- CreatePdf: which characters the built-in Arial font encodes is the parameter `encodable`, not the library's own table. A partly written file left behind by a PDF that raises is not modelled.
- GeneratePdfs: the two bundled samples of `cv_samples` are not part of this model; the generation loop takes the list of samples as input.
- upload_cvs.py (the Streamlit interface), app/utils/auth.py, app/models, app/database and app/init are not part of this model.

## Findings

| source | as written | input that shows it | evidently intended | confidence | as-written member | corrected member |
|---|---|---|---|---|---|---|
| main.py:57 | with no search hits, `compare_with_job_description` returns the list `[]` (compare_cvs.py:37), and `results.items()` raises `AttributeError` on it | any job description for which the search returns no hits, e.g. an empty vector store | an empty `matches` list | not executed | Api.CompareJobDescriptionEndpoint | Api.CompareJobDescriptionEndpointCorrected |
