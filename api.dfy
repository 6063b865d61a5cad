/**
 * `main.py`: the two HTTP handlers.  `/compare_job_description` turns the
 * grouped matches into serialisable records; `/upload_cv_embed` saves the
 * uploaded files and runs the ingestion.  Routing, request parsing and the
 * JSON encoding of the response are not modelled.
 */
module Api {
  import opened Wrappers
  import opened Text
  import opened PyDict
  import opened Documents
  import opened CompareCvs
  import opened EmbedFiles

  const MatchedContentLength: nat := 500
  const UploadMessage: string := "CVs processed successfully."

  /** `{"file_name": ..., "Score": ..., "Matched_content": ...}` */
  datatype MatchRecord = MatchRecord(fileName: MetaValue, score: int, matchedContent: string)

  /** `results.items()` on the list `[]`: an `AttributeError`, answered with status 500. */
  datatype EndpointError = ListHasNoItems

  function ToRecord(entry: (MetaValue, Hit)): MatchRecord
  {
    MatchRecord(entry.0, entry.1.1, Prefix(entry.1.0.pageContent, MatchedContentLength))
  }

  /** The records for a grouping, in its iteration order. */
  function Records(best: BestByFile): seq<MatchRecord>
  {
    seq(|best|, i requires 0 <= i < |best| => ToRecord(best[i]))
  }

  /** The conversion loop of lines 56-62: one record per entry, in iteration order. */
  method SerializeMatches(best: BestByFile) returns (output: seq<MatchRecord>)
    ensures output == Records(best)
  {
    output := [];
    var i := 0;
    while i < |best|
      invariant 0 <= i <= |best|
      invariant |output| == i
      invariant forall j :: 0 <= j < i ==> output[j] == ToRecord(best[j])
    {
      var (fileName, (doc, score)) := best[i];
      output := output + [MatchRecord(fileName, score, Prefix(doc.pageContent, MatchedContentLength))];
      i := i + 1;
    }
  }

  /**
   * `compare_job_description_endpoint` as written: with no search hits the
   * comparison returns a list, and `.items()` on it raises.
   */
  method CompareJobDescriptionEndpoint(jobDescription: string, search: Search)
    returns (r: Result<seq<MatchRecord>, EndpointError>)
    ensures r.Failure? <==> search(jobDescription, TopK) == []
    ensures r.Success? ==> r.value == Records(Group(search(jobDescription, TopK)))
  {
    var results := CompareWithJobDescription(jobDescription, search);
    if results.EmptyList? {
      return Failure(ListHasNoItems);
    }
    var output := SerializeMatches(results.best);
    return Success(output);
  }

  /** The endpoint as evidently intended: no hits give an empty `matches` list. */
  method CompareJobDescriptionEndpointCorrected(jobDescription: string, search: Search)
    returns (matches: seq<MatchRecord>)
    ensures matches == [] <==> search(jobDescription, TopK) == []
    ensures matches == Records(Group(search(jobDescription, TopK)))
  {
    var results := CompareWithJobDescription(jobDescription, search);
    if results.EmptyList? {
      return [];
    }
    matches := SerializeMatches(results.best);
    NonEmptySearchHasMatches(search(jobDescription, TopK));
  }

  /**
   * The records of a grouping: one per distinct file among the hits, in
   * order of first appearance, each carrying that file's earliest closest
   * hit's distance and the first 500 characters of its text.
   */
  lemma RecordsDescribeMatches(hits: seq<Hit>, j: int)
    requires 0 <= j < |Records(Group(hits))|
    ensures |Records(Group(hits))| == |Dedup(FileKeys(hits))|
    ensures Records(Group(hits))[j].fileName == Dedup(FileKeys(hits))[j]
    ensures exists i :: (IsBestFor(hits, Records(Group(hits))[j].fileName, i)
      && Records(Group(hits))[j].score == hits[i].1
      && Records(Group(hits))[j].matchedContent == Prefix(hits[i].0.pageContent, MatchedContentLength))
  {
    var g := Group(hits);
    GroupKeyOrder(hits);
    GroupHasNoDupKeys(hits);
    assert Keys(g)[j] == g[j].0;
    GetAt(g, j);
    var k := g[j].0;
    GroupMeaning(hits, k);
    var i :| IsBestFor(hits, k, i) && Get(g, k).value == hits[i];
    assert Records(g)[j] == ToRecord(g[j]);
  }

  /** `Matched_content` is a prefix of the chunk text of length `min(500, len(text))`. */
  lemma MatchedContentIsPrefix(text: string)
    ensures |Prefix(text, MatchedContentLength)| == Min(MatchedContentLength, |text|)
    ensures Prefix(text, MatchedContentLength) <= text
  {
  }

  // ---------------------------------------------------------------------
  // /upload_cv_embed

  /** An uploaded file: its client-side name and its bytes. */
  datatype UploadFile = UploadFile(filename: string, content: seq<byte>)

  datatype UploadResponse = UploadResponse(message: string, summary: Summary, savedFiles: seq<string>)

  /**
   * `upload_cv_embed` (lines 17-42): write every upload to the input folder,
   * record its name, then embed the folder.  `written` lists the writes in
   * order; `folder` is the walk of the input folder once they are done.
   */
  method UploadCvEmbed(files: seq<UploadFile>, folder: seq<FileEntry>, env: Env)
    returns (written: seq<(string, seq<byte>)>, r: Result<UploadResponse, Fatal>)
    ensures |written| == |files|
    ensures forall i :: 0 <= i < |files| ==>
      written[i] == (PathJoin(InputFolder, files[i].filename), files[i].content)
    ensures r.Failure? <==> EmbedFolderResult(folder, VectorDbPath, env).Failure?
    ensures r.Failure? ==> r.error == EmbedFolderResult(folder, VectorDbPath, env).error
    ensures r.Success? ==>
      && r.value.message == UploadMessage
      && r.value.summary == EmbedFolderResult(folder, VectorDbPath, env).value
      && |r.value.savedFiles| == |files|
      && forall i :: 0 <= i < |files| ==> r.value.savedFiles[i] == files[i].filename
  {
    var saved := [];
    written := [];
    var i := 0;
    while i < |files|
      invariant 0 <= i <= |files|
      invariant |saved| == i && |written| == i
      invariant forall j :: 0 <= j < i ==> saved[j] == files[j].filename
      invariant forall j :: 0 <= j < i ==>
        written[j] == (PathJoin(InputFolder, files[j].filename), files[j].content)
    {
      var file := files[i];
      var path := PathJoin(InputFolder, file.filename);
      written := written + [(path, file.content)];
      saved := saved + [file.filename];
      i := i + 1;
    }
    var result := EmbedFolder(folder, VectorDbPath, env);
    if result.Failure? {
      return written, Failure(result.error);
    }
    r := Success(UploadResponse(UploadMessage, result.value, saved));
  }
}
