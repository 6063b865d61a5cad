/**
 * Ingestion (embed_files.py): walk the input folder, load every file whose
 * suffix is supported, stamp file metadata on each loaded document, collect
 * the names of files whose loading raised, then chunk, give every chunk a
 * content-derived id, build and persist the vector index, and report a
 * summary.
 *
 * The document loaders, the text splitter, the embedding model, the FAISS
 * index, `stat`, `read_bytes`, MD5, SHA-256 and `repr` are not defined here:
 * they are the fields of an `Env` value, and a field returning `None` (or
 * `false`) stands for a call that raised.
 */
module EmbedFiles {
  import opened Wrappers
  import opened PyDict
  import opened Text
  import opened Documents

  const InputFolder: string := "cv_documents"
  const VectorDbPath: string := "cv_vectorstore"
  const SupportedExtensions: seq<string> := [".pdf", ".docx", ".txt", ".doc"]
  const ChunkSize: nat := 1000
  const ChunkOverlap: nat := 200

  /** One path yielded by `Path(folder).rglob('*')`: `str(path)`, `path.name`, `path.is_file()`. */
  datatype FileEntry = FileEntry(path: string, name: string, isFile: bool)

  /** The four LangChain loaders the pipeline chooses between. */
  datatype LoaderKind = PyPdf | Docx2txt | Unstructured | TextFile

  /** The calls into libraries and the file system; `None`/`false` means the call raised. */
  datatype Env = Env(
    load: (LoaderKind, string) -> Option<seq<Document>>,          // Loader(str(path)).load()
    fileSize: string -> Option<nat>,                               // path.stat().st_size
    readBytes: string -> Option<seq<byte>>,                        // path.read_bytes()
    md5: seq<byte> -> Md5Hex,                                      // hashlib.md5(b).hexdigest()
    sha256: string -> Sha256Hex,                                   // hashlib.sha256(s.encode()).hexdigest()
    repr: string -> string,                                        // repr() of a str
    split: (seq<Document>, nat, nat) -> Option<seq<Document>>,     // RecursiveCharacterTextSplitter
    persistIndex: (seq<Document>, string) -> bool                  // FAISS.from_documents + save_local
  )

  // ---------------------------------------------------------------------
  // Which files are loaded, and by which loader

  /** `Path.suffix`: from the last dot of the name, unless that dot is first or last. */
  function Suffix(name: string): string
  {
    var i := RFind(name, '.');
    if 0 < i < |name| - 1 then name[i..] else ""
  }

  /** The filter of the folder walk: a regular file with a supported suffix, compared in lower case. */
  predicate IsSupported(e: FileEntry)
  {
    e.isFile && Lower(Suffix(e.name)) in SupportedExtensions
  }

  /** The loader for a lower-cased suffix; anything other than pdf, docx and doc is read as text. */
  function LoaderFor(ext: string): (k: LoaderKind)
    ensures ext in SupportedExtensions ==>
      && (k == PyPdf <==> ext == ".pdf")
      && (k == Docx2txt <==> ext == ".docx")
      && (k == Unstructured <==> ext == ".doc")
      && (k == TextFile <==> ext == ".txt")
  {
    if ext == ".pdf" then PyPdf
    else if ext == ".docx" then Docx2txt
    else if ext == ".doc" then Unstructured
    else TextFile
  }

  lemma LowerKeepsDots(s: string)
    ensures |Lower(s)| == |s|
    ensures forall j :: 0 <= j < |s| ==> (Lower(s)[j] == '.' <==> s[j] == '.')
  {
  }

  lemma {:induction false} RFindLower(s: string)
    ensures RFind(Lower(s), '.') == RFind(s, '.')
    decreases |s|
  {
    if s != [] {
      var init := s[..|s| - 1];
      LowerKeepsDots(s);
      assert Lower(s)[..|s| - 1] == Lower(init);
      if s[|s| - 1] != '.' {
        RFindLower(init);
      }
    }
  }

  /** Taking the suffix and lower-casing commute, so the filter depends only on the lower-cased name. */
  lemma SuffixOfLower(name: string)
    ensures Lower(Suffix(name)) == Suffix(Lower(name))
  {
    RFindLower(name);
    var i := RFind(name, '.');
    if 0 < i < |name| - 1 {
      assert Lower(name[i..]) == Lower(name)[i..];
    }
  }

  /**
   * Suffix matching ignores case: two entries whose names agree after
   * lower-casing are both loaded or both skipped, and by the same loader.
   */
  lemma FilterIgnoresCase(e: FileEntry, e': FileEntry)
    requires e.isFile == e'.isFile && Lower(e.name) == Lower(e'.name)
    ensures IsSupported(e) <==> IsSupported(e')
    ensures LoaderFor(Lower(Suffix(e.name))) == LoaderFor(Lower(Suffix(e'.name)))
  {
    SuffixOfLower(e.name);
    SuffixOfLower(e'.name);
  }

  lemma RFindAt(s: string, c: char, i: int)
    requires 0 <= i < |s| && s[i] == c
    requires forall j :: i < j < |s| ==> s[j] != c
    ensures RFind(s, c) == i
  {
  }

  /** Upper-case suffixes are accepted; a bare ".txt" has no suffix; only the last suffix counts. */
  lemma SuffixExamples()
    ensures IsSupported(FileEntry("/cv/Resume.PDF", "Resume.PDF", true))
    ensures LoaderFor(Lower(Suffix("Resume.PDF"))) == PyPdf
    ensures LoaderFor(Lower(Suffix("old.Doc"))) == Unstructured
    ensures !IsSupported(FileEntry("/cv/.txt", ".txt", true))
    ensures !IsSupported(FileEntry("/cv/notes.md", "notes.md", true))
    ensures !IsSupported(FileEntry("/cv/sub.pdf", "sub.pdf", false))
    ensures Suffix("a.tar.docx") == ".docx"
  {
    RFindAt("Resume.PDF", '.', 6);
    assert Lower(".PDF") == ".pdf";
    RFindAt("old.Doc", '.', 3);
    assert Lower(".Doc") == ".doc";
    RFindAt(".txt", '.', 0);
    RFindAt("notes.md", '.', 5);
    assert Lower(".md") == ".md";
    RFindAt("a.tar.docx", '.', 5);
  }

  // ---------------------------------------------------------------------
  // Loading one file

  const SourceFileKey: string := "source_file"
  const FileNameKey: string := "file_name"
  const FileSizeKey: string := "file_size"
  const FileHashKey: string := "file_hash"
  const ChunkIdKey: string := "chunk_id"

  /** The four keys are pairwise different. */
  lemma StampKeysDistinct()
    ensures SourceFileKey != FileNameKey && SourceFileKey != FileSizeKey && SourceFileKey != FileHashKey
    ensures FileNameKey != FileSizeKey && FileNameKey != FileHashKey && FileSizeKey != FileHashKey
  {
    assert |SourceFileKey| == 11 && |FileNameKey| == 9 && |FileSizeKey| == 9 && |FileHashKey| == 9;
    assert FileNameKey[5] == 'n' && FileSizeKey[5] == 's' && FileHashKey[5] == 'h';
  }

  predicate IsStampKey(k: string)
  {
    k == SourceFileKey || k == FileNameKey || k == FileSizeKey || k == FileHashKey
  }

  /** `doc.metadata.update({...})`: the four file keys are written in this order. */
  function StampMetadata(m: Metadata, e: FileEntry, size: nat, hash: Md5Hex): (r: Metadata)
    ensures Get(r, SourceFileKey) == Some(Str(e.path))
    ensures Get(r, FileNameKey) == Some(Str(e.name))
    ensures Get(r, FileSizeKey) == Some(Int(size))
    ensures Get(r, FileHashKey) == Some(Str(hash))
    ensures forall k :: !IsStampKey(k) ==> Get(r, k) == Get(m, k)
    ensures NoDupKeys(m) ==> NoDupKeys(r)
  {
    StampKeysDistinct();
    var pairs := [(SourceFileKey, Str(e.path)), (FileNameKey, Str(e.name)),
                  (FileSizeKey, Int(size)), (FileHashKey, Str(hash))];
    assert pairs[0].0 == SourceFileKey && pairs[1].0 == FileNameKey;
    assert pairs[2].0 == FileSizeKey && pairs[3].0 == FileHashKey;
    assert Find(pairs, SourceFileKey) == 0;
    assert Find(pairs, FileNameKey) == 1;
    assert Find(pairs, FileSizeKey) == 2;
    assert Find(pairs, FileHashKey) == 3;
    Update(m, pairs)
  }

  function StampDocument(d: Document, e: FileEntry, size: nat, hash: Md5Hex): Document
  {
    Document(d.pageContent, StampMetadata(d.metadata, e, size, hash))
  }

  function StampAll(raw: seq<Document>, e: FileEntry, size: nat, hash: Md5Hex): seq<Document>
  {
    seq(|raw|, i requires 0 <= i < |raw| => StampDocument(raw[i], e, size, hash))
  }

  /** What one entry of the walk contributes: nothing, its stamped documents, or its name as a failure. */
  datatype FileOutcome = Skipped | Succeeded(docs: seq<Document>) | Failed

  /**
   * The body of the loop for one entry.  `stat` and `read_bytes` are called
   * once per loaded document, so a file whose loader returns no documents
   * succeeds even when they would raise.
   */
  function ProcessFile(e: FileEntry, env: Env): FileOutcome
  {
    if !IsSupported(e) then Skipped
    else
      var loaded := env.load(LoaderFor(Lower(Suffix(e.name))), e.path);
      if loaded.None? then Failed
      else if loaded.value == [] then Succeeded([])
      else if env.fileSize(e.path).None? || env.readBytes(e.path).None? then Failed
      else Succeeded(StampAll(loaded.value, e, env.fileSize(e.path).value, env.md5(env.readBytes(e.path).value)))
  }

  /**
   * A file that loads contributes exactly its loaded documents, in loader
   * order, each with its text kept, the four file keys set from this file and
   * every other key as the loader left it.
   */
  lemma SucceededFileIsStamped(e: FileEntry, env: Env)
    requires ProcessFile(e, env).Succeeded?
    ensures IsSupported(e)
    ensures env.load(LoaderFor(Lower(Suffix(e.name))), e.path).Some?
    ensures var raw := env.load(LoaderFor(Lower(Suffix(e.name))), e.path).value;
            var docs := ProcessFile(e, env).docs;
            && |docs| == |raw|
            && (docs != [] ==> env.fileSize(e.path).Some? && env.readBytes(e.path).Some?)
            && forall i :: 0 <= i < |docs| ==>
                 && docs[i].pageContent == raw[i].pageContent
                 && Get(docs[i].metadata, SourceFileKey) == Some(Str(e.path))
                 && Get(docs[i].metadata, FileNameKey) == Some(Str(e.name))
                 && Get(docs[i].metadata, FileSizeKey) == Some(Int(env.fileSize(e.path).value))
                 && Get(docs[i].metadata, FileHashKey) == Some(Str(env.md5(env.readBytes(e.path).value)))
                 && forall k :: !IsStampKey(k) ==>
                      Get(docs[i].metadata, k) == Get(raw[i].metadata, k)
  {
  }

  /** A file fails exactly when its loader raises, or when it loaded something and `stat` or `read_bytes` raises. */
  lemma FailedFileCause(e: FileEntry, env: Env)
    requires IsSupported(e)
    ensures ProcessFile(e, env).Failed? <==>
      match env.load(LoaderFor(Lower(Suffix(e.name))), e.path)
      case None => true
      case Some(raw) => raw != [] && (env.fileSize(e.path).None? || env.readBytes(e.path).None?)
  {
  }

  /**
   * The `try` block for one supported file: pick the loader, load, then stamp
   * the loaded documents; `None` when any of these calls raised.
   */
  method LoadOneFile(e: FileEntry, env: Env) returns (r: Option<seq<Document>>)
    requires IsSupported(e)
    ensures r.None? <==> ProcessFile(e, env).Failed?
    ensures r.Some? ==> ProcessFile(e, env) == Succeeded(r.value)
  {
    var kind := LoaderFor(Lower(Suffix(e.name)));
    var loaded := env.load(kind, e.path);
    if loaded.None? {
      return None;
    }
    r := StampLoaded(loaded.value, e, env);
  }

  /**
   * The inner loop of the `try` block: stamp each loaded document in place,
   * calling `stat` and `read_bytes` for each; `None` when one of them raised.
   */
  method StampLoaded(raw: seq<Document>, e: FileEntry, env: Env) returns (r: Option<seq<Document>>)
    ensures r.None? <==> raw != [] && (env.fileSize(e.path).None? || env.readBytes(e.path).None?)
    ensures r.Some? && raw == [] ==> r.value == []
    ensures r.Some? && raw != [] ==>
      r.value == StampAll(raw, e, env.fileSize(e.path).value, env.md5(env.readBytes(e.path).value))
  {
    ghost var fs, rb := env.fileSize(e.path), env.readBytes(e.path);
    ghost var stamped := if fs.Some? && rb.Some? then StampAll(raw, e, fs.value, env.md5(rb.value)) else raw;
    var docs := raw;
    var i := 0;
    while i < |docs|
      invariant 0 <= i <= |docs| == |raw|
      invariant 0 < i ==> fs.Some? && rb.Some?
      invariant forall j :: 0 <= j < i ==> docs[j] == stamped[j]
      invariant forall j :: i <= j < |docs| ==> docs[j] == raw[j]
    {
      var size := env.fileSize(e.path);
      if size.None? {
        return None;
      }
      var bytes := env.readBytes(e.path);
      if bytes.None? {
        return None;
      }
      var doc := docs[i];
      var stampedDoc := StampDocument(doc, e, size.value, env.md5(bytes.value));
      assert stampedDoc == stamped[i];
      ghost var prev := docs;
      docs := docs[i := stampedDoc];
      assert forall j :: 0 <= j < |docs| && j != i ==> docs[j] == prev[j];
      i := i + 1;
    }
    assert docs == stamped;
    return Some(docs);
  }

  // ---------------------------------------------------------------------
  // The folder walk

  function Contribution(o: FileOutcome): seq<Document>
  {
    if o.Succeeded? then o.docs else []
  }

  /** The outcome of every entry of the walk, in walk order. */
  function Outcomes(entries: seq<FileEntry>, env: Env): (outs: seq<FileOutcome>)
    ensures |outs| == |entries|
    ensures forall i :: 0 <= i < |entries| ==> outs[i] == ProcessFile(entries[i], env)
  {
    seq(|entries|, i requires 0 <= i < |entries| => ProcessFile(entries[i], env))
  }

  /** The contributions of a run of outcomes, concatenated in order. */
  function DocumentsOf(outs: seq<FileOutcome>): seq<Document>
    decreases |outs|
  {
    if outs == [] then []
    else DocumentsOf(outs[..|outs| - 1]) + Contribution(outs[|outs| - 1])
  }

  /** The names of the entries whose outcome is a failure, in order. */
  function FailedNamesOf(entries: seq<FileEntry>, outs: seq<FileOutcome>): seq<string>
    requires |entries| == |outs|
    decreases |outs|
  {
    if outs == [] then []
    else
      var n := |outs| - 1;
      FailedNamesOf(entries[..n], outs[..n]) + (if outs[n].Failed? then [entries[n].name] else [])
  }

  /** `documents`: the contributions of the entries, in walk order. */
  function LoadedDocuments(entries: seq<FileEntry>, env: Env): seq<Document>
  {
    DocumentsOf(Outcomes(entries, env))
  }

  /** `failed_files`: the names of the entries that failed, in walk order. */
  function FailedFiles(entries: seq<FileEntry>, env: Env): seq<string>
  {
    FailedNamesOf(entries, Outcomes(entries, env))
  }

  /**
   * `load_and_process_documents`: one pass over the walk, isolating each
   * file's failure and continuing with the next file.
   */
  method LoadAndProcessDocuments(entries: seq<FileEntry>, env: Env)
    returns (documents: seq<Document>, failedFiles: seq<string>)
    ensures documents == LoadedDocuments(entries, env)
    ensures failedFiles == FailedFiles(entries, env)
  {
    ghost var outs := Outcomes(entries, env);
    documents, failedFiles := [], [];
    var n := 0;
    while n < |entries|
      invariant 0 <= n <= |entries|
      invariant documents == DocumentsOf(outs[..n])
      invariant failedFiles == FailedNamesOf(entries[..n], outs[..n])
    {
      var e := entries[n];
      FoldStep(entries, outs, n);
      if e.isFile && Lower(Suffix(e.name)) in SupportedExtensions {
        var loaded := LoadOneFile(e, env);
        match loaded {
          case Some(docs) =>
            documents := documents + docs;
          case None =>
            failedFiles := failedFiles + [e.name];
        }
      }
      n := n + 1;
    }
    assert entries[..|entries|] == entries;
    assert outs[..|entries|] == outs;
  }

  /** One more entry of the walk adds its contribution and, if it failed, its name. */
  lemma FoldStep(entries: seq<FileEntry>, outs: seq<FileOutcome>, n: int)
    requires |entries| == |outs| && 0 <= n < |outs|
    ensures DocumentsOf(outs[..n + 1]) == DocumentsOf(outs[..n]) + Contribution(outs[n])
    ensures FailedNamesOf(entries[..n + 1], outs[..n + 1]) ==
      FailedNamesOf(entries[..n], outs[..n]) + (if outs[n].Failed? then [entries[n].name] else [])
  {
    assert entries[..n + 1][..n] == entries[..n];
    assert outs[..n + 1][..n] == outs[..n];
  }

  lemma {:induction false} DocumentsOfProvenance(outs: seq<FileOutcome>, d: Document)
    ensures d in DocumentsOf(outs) <==> exists i :: 0 <= i < |outs| && d in Contribution(outs[i])
    decreases |outs|
  {
    if outs != [] {
      var n := |outs| - 1;
      DocumentsOfProvenance(outs[..n], d);
      assert forall i :: 0 <= i < n ==> outs[..n][i] == outs[i];
    }
  }

  /** A document is in `documents` exactly when some entry's successful load produced it. */
  lemma LoadedDocumentsProvenance(entries: seq<FileEntry>, env: Env, d: Document)
    ensures d in LoadedDocuments(entries, env) <==>
      exists i :: 0 <= i < |entries| && d in Contribution(ProcessFile(entries[i], env))
  {
    DocumentsOfProvenance(Outcomes(entries, env), d);
  }

  lemma {:induction false} FailedNamesOfExact(entries: seq<FileEntry>, outs: seq<FileOutcome>, name: string)
    requires |entries| == |outs|
    ensures name in FailedNamesOf(entries, outs) <==>
      exists i :: 0 <= i < |outs| && outs[i].Failed? && entries[i].name == name
    decreases |outs|
  {
    if outs != [] {
      var n := |outs| - 1;
      FailedNamesOfExact(entries[..n], outs[..n], name);
      assert forall i :: 0 <= i < n ==> outs[..n][i] == outs[i] && entries[..n][i] == entries[i];
    }
  }

  /** A name is in `failed_files` exactly when some entry with that name failed. */
  lemma FailedFilesExact(entries: seq<FileEntry>, env: Env, name: string)
    ensures name in FailedFiles(entries, env) <==>
      exists i :: 0 <= i < |entries| && ProcessFile(entries[i], env).Failed? && entries[i].name == name
  {
    FailedNamesOfExact(entries, Outcomes(entries, env), name);
  }

  /** Every document that reaches chunking carries the metadata of the supported file it was loaded from. */
  lemma EveryDocumentStamped(entries: seq<FileEntry>, env: Env, d: Document)
    requires d in LoadedDocuments(entries, env)
    ensures exists i :: (0 <= i < |entries| && IsSupported(entries[i])
      && env.fileSize(entries[i].path).Some? && env.readBytes(entries[i].path).Some?
      && Get(d.metadata, SourceFileKey) == Some(Str(entries[i].path))
      && Get(d.metadata, FileNameKey) == Some(Str(entries[i].name))
      && Get(d.metadata, FileSizeKey) == Some(Int(env.fileSize(entries[i].path).value))
      && Get(d.metadata, FileHashKey) == Some(Str(env.md5(env.readBytes(entries[i].path).value))))
  {
    LoadedDocumentsProvenance(entries, env, d);
    var i :| 0 <= i < |entries| && d in Contribution(ProcessFile(entries[i], env));
    SucceededFileIsStamped(entries[i], env);
    var docs := ProcessFile(entries[i], env).docs;
    var j :| 0 <= j < |docs| && docs[j] == d;
  }

  /** A walk with no supported file yields no documents and no failures. */
  lemma {:induction false} AllSkipped(entries: seq<FileEntry>, outs: seq<FileOutcome>)
    requires |entries| == |outs|
    requires forall i :: 0 <= i < |outs| ==> outs[i].Skipped?
    ensures DocumentsOf(outs) == [] && FailedNamesOf(entries, outs) == []
    decreases |outs|
  {
    if outs != [] {
      var n := |outs| - 1;
      AllSkipped(entries[..n], outs[..n]);
    }
  }

  /** A walk with no supported file yields no documents and no failures. */
  lemma NoSupportedFiles(entries: seq<FileEntry>, env: Env)
    requires forall i :: 0 <= i < |entries| ==> !IsSupported(entries[i])
    ensures LoadedDocuments(entries, env) == [] && FailedFiles(entries, env) == []
  {
    AllSkipped(entries, Outcomes(entries, env));
  }

  /** One corrupt file before one good file: the corrupt one is reported, the good one is loaded. */
  lemma CorruptThenValid(bad: FileEntry, good: FileEntry, env: Env)
    requires IsSupported(bad) && IsSupported(good)
    requires env.load(LoaderFor(Lower(Suffix(bad.name))), bad.path).None?
    requires env.load(LoaderFor(Lower(Suffix(good.name))), good.path).Some?
    requires env.fileSize(good.path).Some? && env.readBytes(good.path).Some?
    ensures FailedFiles([bad, good], env) == [bad.name]
    ensures ProcessFile(good, env).Succeeded?
    ensures LoadedDocuments([bad, good], env) == ProcessFile(good, env).docs
  {
    var outs := Outcomes([bad, good], env);
    assert outs == [ProcessFile(bad, env), ProcessFile(good, env)];
    TwoOutcomes(bad, good, outs[0], outs[1]);
  }

  lemma TwoOutcomes(a: FileEntry, b: FileEntry, o1: FileOutcome, o2: FileOutcome)
    ensures DocumentsOf([o1, o2]) == Contribution(o1) + Contribution(o2)
    ensures FailedNamesOf([a, b], [o1, o2]) ==
      (if o1.Failed? then [a.name] else []) + (if o2.Failed? then [b.name] else [])
  {
    assert [o1, o2][..1] == [o1] && [o1][..0] == [];
    assert [a, b][..1] == [a] && [a][..0] == [];
    assert DocumentsOf([o1]) == Contribution(o1);
    assert FailedNamesOf([a], [o1]) == if o1.Failed? then [a.name] else [];
  }

  // ---------------------------------------------------------------------
  // Chunk ids

  function DigitChar(d: nat): char
    requires d < 10
  {
    ('0' as int + d) as char
  }

  function NatString(n: nat): string
    decreases n
  {
    if n < 10 then [DigitChar(n)] else NatString(n / 10) + [DigitChar(n % 10)]
  }

  /** `str(n)` for an int. */
  function IntString(n: int): string
  {
    if n < 0 then "-" + NatString(-n) else NatString(n)
  }

  function ValueRepr(v: MetaValue, env: Env): string
  {
    match v
    case Str(s) => env.repr(s)
    case Int(n) => IntString(n)
  }

  /** `str(d)` for a metadata dict: `{'k': v, ...}` in key order. */
  function DictRepr(m: Metadata, env: Env): string
  {
    "{" + Join(", ", seq(|m|, i requires 0 <= i < |m| => env.repr(m[i].0) + ": " + ValueRepr(m[i].1, env))) + "}"
  }

  /**
   * The text that is hashed: `content = chunk.page_content,` makes `content`
   * a one-element tuple, so the f-string renders `(repr(text),)` followed by
   * the metadata dict as it stood before `chunk_id` was added.
   */
  function ChunkIdInput(c: Document, env: Env): string
  {
    "(" + env.repr(c.pageContent) + ",)" + DictRepr(c.metadata, env)
  }

  /** The first 16 hex characters of the SHA-256 of that text. */
  function ChunkId(c: Document, env: Env): (id: string)
    ensures |id| == 16 && IsHex(id)
    ensures id == env.sha256(ChunkIdInput(c, env))[..16]
  {
    env.sha256(ChunkIdInput(c, env))[..16]
  }

  function WithChunkId(c: Document, env: Env): Document
  {
    Document(c.pageContent, Put(c.metadata, ChunkIdKey, Str(ChunkId(c, env))))
  }

  /**
   * The id loop of `generate_embeddings`: every chunk gets a `chunk_id` of
   * 16 hex characters derived from its own text and prior metadata; its text
   * and every other metadata key stay as they were.
   */
  method AssignChunkIds(chunks: seq<Document>, env: Env) returns (r: seq<Document>)
    ensures |r| == |chunks|
    ensures forall i :: 0 <= i < |r| ==> r[i] == WithChunkId(chunks[i], env)
    ensures forall i :: 0 <= i < |r| ==>
      && r[i].pageContent == chunks[i].pageContent
      && Get(r[i].metadata, ChunkIdKey) == Some(Str(ChunkId(chunks[i], env)))
      && |ChunkId(chunks[i], env)| == 16
      && (forall k :: k != ChunkIdKey ==> Get(r[i].metadata, k) == Get(chunks[i].metadata, k))
  {
    r := chunks;
    var i := 0;
    while i < |r|
      invariant 0 <= i <= |r| == |chunks|
      invariant forall j :: 0 <= j < i ==> r[j] == WithChunkId(chunks[j], env)
      invariant r[i..] == chunks[i..]
    {
      var chunk := r[i];
      assert chunk == chunks[i] by { assert r[i..][0] == chunks[i..][0]; }
      var id := env.sha256(ChunkIdInput(chunk, env))[..16];
      r := r[i := Document(chunk.pageContent, Put(chunk.metadata, ChunkIdKey, Str(id)))];
      i := i + 1;
    }
  }

  // ---------------------------------------------------------------------
  // The run

  /** The record `embed_folder` returns. */
  datatype Summary = Summary(totalDocuments: nat, totalChunks: nat, failedFiles: seq<string>, vectorDbPath: string)

  /** The steps after loading are not inside any `try`: their errors end the run. */
  datatype Fatal = SplitterRaised | IndexRaised

  /** `embed_folder(folder, output_path)` as a value: the summary, or the error that escaped. */
  function EmbedFolderResult(entries: seq<FileEntry>, outputPath: string, env: Env): Result<Summary, Fatal>
  {
    var documents := LoadedDocuments(entries, env);
    match env.split(documents, ChunkSize, ChunkOverlap)
    case None => Failure(SplitterRaised)
    case Some(chunks) =>
      var withIds := seq(|chunks|, i requires 0 <= i < |chunks| => WithChunkId(chunks[i], env));
      if !env.persistIndex(withIds, outputPath) then Failure(IndexRaised)
      else Success(Summary(|documents|, |chunks|, FailedFiles(entries, env), outputPath))
  }

  /** `embed_folder`: load, chunk with size 1000 and overlap 200, assign ids, build and save, summarise. */
  method EmbedFolder(entries: seq<FileEntry>, outputPath: string, env: Env) returns (r: Result<Summary, Fatal>)
    ensures r == EmbedFolderResult(entries, outputPath, env)
  {
    var documents, failed := LoadAndProcessDocuments(entries, env);
    var chunks := env.split(documents, ChunkSize, ChunkOverlap);
    if chunks.None? {
      return Failure(SplitterRaised);
    }
    var withIds := AssignChunkIds(chunks.value, env);
    assert withIds == seq(|chunks.value|, i requires 0 <= i < |chunks.value| => WithChunkId(chunks.value[i], env));
    if !env.persistIndex(withIds, outputPath) {
      return Failure(IndexRaised);
    }
    return Success(Summary(|documents|, |chunks.value|, failed, outputPath));
  }

  /**
   * The summary of a completed run counts the loaded documents and the
   * chunks, lists exactly the files that failed to load and names the output
   * path; a run fails only when chunking or indexing raised, and then no
   * summary exists.
   */
  lemma SummaryFields(entries: seq<FileEntry>, outputPath: string, env: Env)
    ensures var r := EmbedFolderResult(entries, outputPath, env);
      var split := env.split(LoadedDocuments(entries, env), ChunkSize, ChunkOverlap);
      && (r.Failure? <==> split.None? || !env.persistIndex(
            seq(|split.value|, i requires 0 <= i < |split.value| => WithChunkId(split.value[i], env)), outputPath))
      && (r.Success? ==>
            && r.value.totalDocuments == |LoadedDocuments(entries, env)|
            && r.value.totalChunks == |split.value|
            && r.value.vectorDbPath == outputPath
            && (forall name :: name in r.value.failedFiles <==>
                  exists i :: 0 <= i < |entries| && ProcessFile(entries[i], env).Failed? && entries[i].name == name))
  {
    forall name {
      FailedFilesExact(entries, env, name);
    }
  }

  /** If the run over an empty folder, or one without supported files, completes, its summary has no documents and no failures. */
  lemma EmptyFolderSummary(entries: seq<FileEntry>, outputPath: string, env: Env)
    requires forall i :: 0 <= i < |entries| ==> !IsSupported(entries[i])
    requires EmbedFolderResult(entries, outputPath, env).Success?
    ensures EmbedFolderResult(entries, outputPath, env).value.totalDocuments == 0
    ensures EmbedFolderResult(entries, outputPath, env).value.failedFiles == []
  {
    NoSupportedFiles(entries, env);
  }

}
