/**
 * `compare_cvs.py`: the similarity search hands back the `TOP_K` nearest
 * chunks with their distances; the chunks are grouped by the CV file they
 * came from, keeping for each file its closest chunk.  The console entry
 * point reads a job description line by line up to an `END` line.
 *
 * The vector store and its search are a parameter: for a query and a `k`
 * it yields the (chunk, distance) pairs, nearest first.  Distances are
 * integers, since only `<` is applied to them.
 */
module CompareCvs {
  import opened Wrappers
  import opened PyDict
  import opened Text
  import opened Documents
  import EmbedFiles

  const TopK: nat := 20

  /** The group key used when a chunk has no `file_name` metadata. */
  const UnknownFile: MetaValue := Str("Unknown")

  /** One search hit: a chunk and its distance (lower is more similar). */
  type Hit = (Document, int)

  /** `best_by_file`: file name to that file's best hit, in first-seen order. */
  type BestByFile = Dict<MetaValue, Hit>

  /** The similarity search of the vector store: query and `k` to hits. */
  type Search = (string, nat) -> seq<Hit>

  /** `doc.metadata.get("file_name", "Unknown")` */
  function FileKey(d: Document): MetaValue
  {
    match Get(d.metadata, EmbedFiles.FileNameKey)
    case Some(v) => v
    case None => UnknownFile
  }

  /** The group key of every hit, in hit order. */
  function FileKeys(hits: seq<Hit>): seq<MetaValue>
  {
    seq(|hits|, i requires 0 <= i < |hits| => FileKey(hits[i].0))
  }

  /** One pass of the grouping loop: the hit replaces the stored one only when strictly closer. */
  function Step(best: BestByFile, h: Hit): BestByFile
  {
    var k := FileKey(h.0);
    var cur := Get(best, k);
    if cur.None? || h.1 < cur.value.1 then Put(best, k, h) else best
  }

  /** The grouping loop over a prefix of the hits. */
  function Group(hits: seq<Hit>): BestByFile
    decreases |hits|
  {
    if hits == [] then [] else Step(Group(hits[..|hits| - 1]), hits[|hits| - 1])
  }

  /**
   * The grouping loop at lines 40-44, one hit at a time, the dict updated
   * in place.
   */
  method GroupBestByFile(hits: seq<Hit>) returns (best: BestByFile)
    ensures best == Group(hits)
  {
    best := [];
    var i := 0;
    while i < |hits|
      invariant 0 <= i <= |hits|
      invariant best == Group(hits[..i])
    {
      var (doc, score) := hits[i];
      var fileName := FileKey(doc);
      var stored := Get(best, fileName);
      if stored.None? || score < stored.value.1 {
        best := Put(best, fileName, (doc, score));
      }
      assert hits[..i + 1][..i] == hits[..i];
      i := i + 1;
    }
    assert hits[..|hits|] == hits;
  }

  // ---------------------------------------------------------------------
  // What the grouping computes

  /**
   * `hits[j]` is the hit kept for key `k`: it has key `k`, every earlier hit
   * with key `k` is strictly farther, and no later hit with key `k` is closer.
   */
  predicate IsBestFor(hits: seq<Hit>, k: MetaValue, j: int)
  {
    && 0 <= j < |hits|
    && FileKey(hits[j].0) == k
    && (forall i :: 0 <= i < j && FileKey(hits[i].0) == k ==> hits[i].1 > hits[j].1)
    && (forall i :: j < i < |hits| && FileKey(hits[i].0) == k ==> hits[j].1 <= hits[i].1)
  }

  /** What one pass does to the value stored under any key. */
  lemma StepGet(g: BestByFile, h: Hit, k: MetaValue)
    ensures Get(Step(g, h), k) ==
      if FileKey(h.0) == k && (Get(g, k).None? || h.1 < Get(g, k).value.1) then Some(h) else Get(g, k)
  {
  }

  /** `g` holds, under `k`, what the grouping of `hits` should hold. */
  ghost predicate Describes(g: BestByFile, hits: seq<Hit>, k: MetaValue)
  {
    && (Get(g, k).None? <==> forall i :: 0 <= i < |hits| ==> FileKey(hits[i].0) != k)
    && (Get(g, k).Some? ==> exists j :: IsBestFor(hits, k, j) && Get(g, k).value == hits[j])
  }

  /** One pass of the loop keeps `g` describing the hits seen so far. */
  lemma StepPreserves(g: BestByFile, hits: seq<Hit>, h: Hit, k: MetaValue)
    requires Describes(g, hits, k)
    ensures Describes(Step(g, h), hits + [h], k)
  {
    StepGet(g, h, k);
    if FileKey(h.0) != k {
      StepOtherFile(g, hits, h, k);
    } else if Get(g, k).None? {
      StepFirstOfFile(g, hits, h, k);
    } else if h.1 < Get(g, k).value.1 {
      StepCloser(g, hits, h, k);
    } else {
      StepNotCloser(g, hits, h, k);
    }
  }

  /** A hit of another file leaves `k` alone. */
  lemma StepOtherFile(g: BestByFile, hits: seq<Hit>, h: Hit, k: MetaValue)
    requires Describes(g, hits, k) && FileKey(h.0) != k
    ensures Describes(g, hits + [h], k)
  {
    var all := hits + [h];
    assert forall i :: 0 <= i < |hits| ==> all[i] == hits[i];
    if Get(g, k).Some? {
      var j :| IsBestFor(hits, k, j) && Get(g, k).value == hits[j];
      assert IsBestFor(all, k, j);
    }
  }

  /** The first hit of a file is stored. */
  lemma StepFirstOfFile(g: BestByFile, hits: seq<Hit>, h: Hit, k: MetaValue)
    requires Describes(g, hits, k) && FileKey(h.0) == k && Get(g, k).None?
    ensures Describes(Put(g, k, h), hits + [h], k)
  {
    var all := hits + [h];
    assert forall i :: 0 <= i < |hits| ==> all[i] == hits[i];
    assert IsBestFor(all, k, |hits|);
  }

  /** A hit strictly closer than the best one for `k` is closer than every hit with key `k`. */
  lemma CloserThanAll(hits: seq<Hit>, k: MetaValue, j: int, h: Hit)
    requires IsBestFor(hits, k, j) && h.1 < hits[j].1
    ensures forall i :: 0 <= i < |hits| && FileKey(hits[i].0) == k ==> hits[i].1 > h.1
  {
  }

  /** A strictly closer hit replaces the stored one. */
  lemma StepCloser(g: BestByFile, hits: seq<Hit>, h: Hit, k: MetaValue)
    requires Describes(g, hits, k) && FileKey(h.0) == k && Get(g, k).Some? && h.1 < Get(g, k).value.1
    ensures Describes(Put(g, k, h), hits + [h], k)
  {
    var all := hits + [h];
    assert forall i :: 0 <= i < |hits| ==> all[i] == hits[i];
    var j :| IsBestFor(hits, k, j) && Get(g, k).value == hits[j];
    CloserThanAll(hits, k, j, h);
    assert IsBestFor(all, k, |hits|);
  }

  /** A hit that is not strictly closer leaves the stored one in place: ties keep the earliest. */
  lemma StepNotCloser(g: BestByFile, hits: seq<Hit>, h: Hit, k: MetaValue)
    requires Describes(g, hits, k) && FileKey(h.0) == k && Get(g, k).Some? && !(h.1 < Get(g, k).value.1)
    ensures Describes(g, hits + [h], k)
  {
    var all := hits + [h];
    assert forall i :: 0 <= i < |hits| ==> all[i] == hits[i];
    var j :| IsBestFor(hits, k, j) && Get(g, k).value == hits[j];
    assert IsBestFor(all, k, j);
  }

  /**
   * A key is present exactly when some hit has it, and the hit stored under
   * it is the earliest of the closest hits with that key.
   */
  lemma {:induction false} GroupMeaning(hits: seq<Hit>, k: MetaValue)
    ensures Get(Group(hits), k).None? <==> forall i :: 0 <= i < |hits| ==> FileKey(hits[i].0) != k
    ensures Get(Group(hits), k).Some? ==>
      exists j :: IsBestFor(hits, k, j) && Get(Group(hits), k).value == hits[j]
    decreases |hits|
  {
    if hits != [] {
      var n := |hits| - 1;
      var init := hits[..n];
      GroupMeaning(init, k);
      assert init + [hits[n]] == hits;
      StepPreserves(Group(init), init, hits[n], k);
      assert Describes(Group(hits), hits, k);
    }
  }

  /** The earliest closest hit of a key is unique. */
  lemma BestIsUnique(hits: seq<Hit>, k: MetaValue, j: int, j': int)
    requires IsBestFor(hits, k, j) && IsBestFor(hits, k, j')
    ensures j == j'
  {
  }

  /** Every hit's file is a key, and every key is some hit's file. */
  lemma GroupKeysExact(hits: seq<Hit>, k: MetaValue)
    ensures k in Keys(Group(hits)) <==> k in FileKeys(hits)
  {
    GroupMeaning(hits, k);
    GetMeaning(Group(hits), k);
    if k in FileKeys(hits) {
      var i :| 0 <= i < |hits| && FileKeys(hits)[i] == k;
      assert FileKey(hits[i].0) == k;
    }
    if k in Keys(Group(hits)) {
      var i :| 0 <= i < |hits| && FileKey(hits[i].0) == k;
      assert FileKeys(hits)[i] == k;
    }
  }

  lemma DescribedScoreIsMinimum(g: BestByFile, hits: seq<Hit>, k: MetaValue, i: int)
    requires Describes(g, hits, k)
    requires 0 <= i < |hits| && FileKey(hits[i].0) == k
    ensures Get(g, k).Some? && Get(g, k).value.1 <= hits[i].1
  {
    var j :| IsBestFor(hits, k, j) && Get(g, k).value == hits[j];
    if i < j {
      assert hits[i].1 > hits[j].1;
    } else if j < i {
      assert hits[j].1 <= hits[i].1;
    }
  }

  /** The stored distance of a file is the least distance among that file's hits. */
  lemma StoredScoreIsMinimum(hits: seq<Hit>, i: int)
    requires 0 <= i < |hits|
    ensures Get(Group(hits), FileKey(hits[i].0)).Some?
    ensures Get(Group(hits), FileKey(hits[i].0)).value.1 <= hits[i].1
  {
    var k := FileKey(hits[i].0);
    GroupMeaning(hits, k);
    DescribedScoreIsMinimum(Group(hits), hits, k, i);
  }

  /** A chunk without `file_name` metadata is grouped under `"Unknown"`. */
  lemma MissingFileNameIsUnknown(hits: seq<Hit>, i: int)
    requires 0 <= i < |hits|
    requires Get(hits[i].0.metadata, EmbedFiles.FileNameKey).None?
    ensures Get(Group(hits), UnknownFile).Some?
  {
    StoredScoreIsMinimum(hits, i);
  }

  /** Every dict the grouping builds has distinct keys. */
  lemma {:induction false} GroupHasNoDupKeys(hits: seq<Hit>)
    ensures NoDupKeys(Group(hits))
    decreases |hits|
  {
    if hits != [] {
      GroupHasNoDupKeys(hits[..|hits| - 1]);
    }
  }

  /** The distinct elements of `s` in order of first appearance. */
  function Dedup<T(==)>(s: seq<T>): seq<T>
    decreases |s|
  {
    if s == [] then []
    else
      var d := Dedup(s[..|s| - 1]);
      if s[|s| - 1] in d then d else d + [s[|s| - 1]]
  }

  /**
   * The keys come out in the order in which their files first appear among
   * the hits; replacing a stored hit does not move its key.
   */
  lemma {:induction false} GroupKeyOrder(hits: seq<Hit>)
    ensures Keys(Group(hits)) == Dedup(FileKeys(hits))
    decreases |hits|
  {
    if hits != [] {
      var n := |hits| - 1;
      var init, h := hits[..n], hits[n];
      GroupKeyOrder(init);
      var g := Group(init);
      var k := FileKey(h.0);
      assert FileKeys(hits)[..n] == FileKeys(init);
      assert FileKeys(hits)[n] == k;
      GetMeaning(g, k);
      PutKeys(g, k, h);
    }
  }

  // ---------------------------------------------------------------------
  // compare_with_job_description

  /** What the function hands back: `[]` when the search found nothing, else `best_by_file`. */
  datatype CompareResult = EmptyList | BestMatches(best: BestByFile)

  /**
   * `compare_with_job_description` (lines 29-55): search, then either return
   * `[]` or group.  The printed report is left out.
   */
  method CompareWithJobDescription(jobDescription: string, search: Search) returns (r: CompareResult)
    ensures r.EmptyList? <==> search(jobDescription, TopK) == []
    ensures r.BestMatches? ==> r.best == Group(search(jobDescription, TopK))
  {
    var resultsWithScores := search(jobDescription, TopK);
    if resultsWithScores == [] {
      return EmptyList;
    }
    var best := GroupBestByFile(resultsWithScores);
    return BestMatches(best);
  }

  /** A non-empty search result always yields at least one match. */
  lemma NonEmptySearchHasMatches(hits: seq<Hit>)
    requires hits != []
    ensures |Group(hits)| >= 1
  {
    StoredScoreIsMinimum(hits, 0);
    GetMeaning(Group(hits), FileKey(hits[0].0));
  }

  // ---------------------------------------------------------------------
  // The console entry point

  /** `line.strip().upper() == "END"` */
  predicate IsEndLine(line: string)
  {
    Upper(Strip(line)) == "END"
  }

  /** `e` is the first end line of the input. */
  predicate EndsAt(input: seq<string>, e: int)
  {
    0 <= e < |input| && IsEndLine(input[e]) && forall i :: 0 <= i < e ==> !IsEndLine(input[i])
  }

  /** How a console run ends. */
  datatype ConsoleOutcome =
    | InputExhausted   // `input()` raised `EOFError` before an end line
    | NoJobDescription
    | Compared(jobDescription: string, result: CompareResult)

  /**
   * The `__main__` block (lines 58-72).  `input` is the sequence of lines
   * standard input delivers, each without its newline.
   */
  method RunConsole(input: seq<string>, search: Search) returns (r: ConsoleOutcome)
    ensures r.InputExhausted? <==> forall i :: 0 <= i < |input| ==> !IsEndLine(input[i])
    ensures r.NoJobDescription? <==> exists e :: EndsAt(input, e) && AllSpace(Join("\n", input[..e]))
    ensures r.Compared? ==> exists e :: (EndsAt(input, e)
      && r.jobDescription == Strip(Join("\n", input[..e])) && r.jobDescription != []
      && (r.result.EmptyList? <==> search(r.jobDescription, TopK) == [])
      && (r.result.BestMatches? ==> r.result.best == Group(search(r.jobDescription, TopK))))
  {
    var jobDescLines := [];
    var n := 0;
    while n < |input| && !IsEndLine(input[n])
      invariant 0 <= n <= |input|
      invariant jobDescLines == input[..n]
      invariant forall i :: 0 <= i < n ==> !IsEndLine(input[i])
    {
      jobDescLines := jobDescLines + [input[n]];
      n := n + 1;
    }
    if n == |input| {
      return InputExhausted;
    }
    assert EndsAt(input, n);
    assert forall e :: EndsAt(input, e) ==> e == n;
    var jobDescriptionText := Strip(Join("\n", jobDescLines));
    StripEmptyIffAllSpace(Join("\n", jobDescLines));
    if jobDescriptionText != [] {
      var result := CompareWithJobDescription(jobDescriptionText, search);
      return Compared(jobDescriptionText, result);
    }
    return NoJobDescription;
  }

  /** The end line is recognised after stripping and regardless of case. */
  lemma EndLineExamples()
    ensures IsEndLine("END") && IsEndLine("  end\t") && IsEndLine("End")
    ensures !IsEndLine("ENDING") && !IsEndLine("")
  {
    assert Strip("END") == "END";
    assert StripLeading("  end\t") == "end\t";
    assert Strip("  end\t") == "end";
    assert Strip("End") == "End";
    assert Strip("ENDING") == "ENDING";
    assert |Upper("ENDING")| == 6;
  }
}
