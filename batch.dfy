/**
 * `process_pdfs`: score every document of a batch, keep going past per-document
 * failures, compare the extracted texts with each other and average the scores.
 */
module Batch {
  import opened Wrappers
  import opened Paths
  import opened Scoring

  /** The similarity matrix is produced by a collaborator; no claim is made about its entries. */
  type Matrix = seq<seq<real>>

  /** The calls `process_pdfs` makes into code outside this model; each Failure is a raised exception. */
  datatype Collaborators = Collaborators(
    extractText: Path -> Result<string>,
    preprocessForModel: string -> Result<string>,
    model: Option<Classifier>,
    calculateSimilarityMatrix: seq<string> -> Result<Matrix>)

  /** One record of `results['files']`: with a `text_preview`, or with an `error` and no preview. */
  datatype FileEntry =
    | Scored(name: string, aiScore: real, textPreview: string)
    | Failed(name: string, aiScore: real, error: string)

  /** The `results` dictionary returned by `process_pdfs`. */
  datatype BatchResult = BatchResult(files: seq<FileEntry>, similarityMatrix: Option<Matrix>, averageAiScore: real)

  const PreviewLength: nat := 200
  const Ellipsis: string := "..."

  /** `text_preview`: a long text is cut to its first 200 characters and marked with `...`. */
  function Preview(text: string): (preview: string)
    ensures |preview| <= PreviewLength + |Ellipsis|
    ensures |text| <= PreviewLength ==> preview == text
    ensures |text| > PreviewLength ==> |preview| == PreviewLength + |Ellipsis|
                                       && preview[..PreviewLength] == text[..PreviewLength]
                                       && preview[PreviewLength..] == Ellipsis
  {
    if |text| > PreviewLength then text[..PreviewLength] + Ellipsis else text
  }

  /** What one iteration of the loop appends to `results['files']` for `pdfPath`. */
  function EntryFor(pdfPath: Path, env: Collaborators): (entry: FileEntry)
    ensures entry.name == Basename(pdfPath)
    ensures entry.Failed? ==> entry.aiScore == 0.0
    ensures entry.Scored? ==> env.extractText(pdfPath).Success?
  {
    match env.extractText(pdfPath)
    case Failure(e) => Failed(Basename(pdfPath), 0.0, e)
    case Success(text) =>
      match env.preprocessForModel(text)
      case Failure(e) => Failed(Basename(pdfPath), 0.0, e)
      case Success(processedText) => Scored(Basename(pdfPath), ScoreFor(env.model, processedText), Preview(text))
  }

  /** `results['files']` after the loop has run over `pdfFiles`: one entry per path, in order. */
  function Entries(pdfFiles: seq<Path>, env: Collaborators): (files: seq<FileEntry>)
    ensures |files| == |pdfFiles|
    ensures forall k :: 0 <= k < |pdfFiles| ==> files[k] == EntryFor(pdfFiles[k], env)
  {
    if pdfFiles == [] then []
    else Entries(pdfFiles[..|pdfFiles| - 1], env) + [EntryFor(pdfFiles[|pdfFiles| - 1], env)]
  }

  /** `texts` after the loop has run over `pdfFiles`: every text that was extracted, in order. */
  function ExtractedTexts(pdfFiles: seq<Path>, env: Collaborators): (texts: seq<string>)
    ensures |texts| <= |pdfFiles|
  {
    if pdfFiles == [] then []
    else
      var last := pdfFiles[|pdfFiles| - 1];
      ExtractedTexts(pdfFiles[..|pdfFiles| - 1], env)
        + match env.extractText(last) case Success(text) => [text] case Failure(_) => []
  }

  /** `valid_scores`: the scores of the entries without an `error`, in order. */
  function ValidScores(files: seq<FileEntry>): (scores: seq<real>)
    ensures |scores| <= |files|
  {
    if files == [] then []
    else (if files[0].Scored? then [files[0].aiScore] else []) + ValidScores(files[1..])
  }

  /** Python's `sum`, over exact reals. */
  function Sum(xs: seq<real>): real {
    if xs == [] then 0.0 else xs[0] + Sum(xs[1..])
  }

  /** `average_ai_score`: the mean, or 0 for no scores. */
  function Mean(xs: seq<real>): (mean: real)
    ensures xs == [] ==> mean == 0.0
  {
    if xs == [] then 0.0 else Sum(xs) / |xs| as real
  }

  /** The number of entries without an error, counted from the end of the list. */
  ghost function ErrorFreeCount(files: seq<FileEntry>): nat {
    if files == [] then 0
    else ErrorFreeCount(files[..|files| - 1]) + (if files[|files| - 1].Scored? then 1 else 0)
  }

  /**
   * `process_pdfs`. Of the calls it makes to collaborators, only the similarity
   * computation runs outside the per-document exception handler.
   */
  method ProcessPdfs(pdfFiles: seq<Path>, env: Collaborators) returns (outcome: Result<BatchResult>)
    ensures var texts := ExtractedTexts(pdfFiles, env);
            outcome.Failure? <==> |texts| > 1 && env.calculateSimilarityMatrix(texts).Failure?
    ensures var texts := ExtractedTexts(pdfFiles, env);
            outcome.Failure? ==> outcome.error == env.calculateSimilarityMatrix(texts).error
    ensures var texts := ExtractedTexts(pdfFiles, env);
            outcome.Success? ==>
              outcome.value.files == Entries(pdfFiles, env) &&
              outcome.value.similarityMatrix
                == (if |texts| > 1 then Some(env.calculateSimilarityMatrix(texts).value) else None) &&
              outcome.value.averageAiScore == Mean(ValidScores(Entries(pdfFiles, env)))
  {
    var files: seq<FileEntry> := [];
    var similarityMatrix: Option<Matrix> := None;
    var texts: seq<string> := [];
    for i := 0 to |pdfFiles|
      invariant files == Entries(pdfFiles[..i], env)
      invariant texts == ExtractedTexts(pdfFiles[..i], env)
    {
      var pdfPath := pdfFiles[i];
      assert pdfFiles[..i + 1][..i] == pdfFiles[..i];
      var extracted := env.extractText(pdfPath);
      if extracted.Failure? {
        files := files + [Failed(Basename(pdfPath), 0.0, extracted.error)];
      } else {
        var text := extracted.value;
        texts := texts + [text];
        var processed := env.preprocessForModel(text);
        if processed.Failure? {
          files := files + [Failed(Basename(pdfPath), 0.0, processed.error)];
        } else {
          var aiScore := ScoreFor(env.model, processed.value);
          files := files + [Scored(Basename(pdfPath), aiScore, Preview(text))];
        }
      }
    }
    assert pdfFiles[..|pdfFiles|] == pdfFiles;
    if |texts| > 1 {
      var matrix := env.calculateSimilarityMatrix(texts);
      if matrix.Failure? {
        return Failure(matrix.error);
      }
      similarityMatrix := Some(matrix.value);
    }
    var averageAiScore := Mean(ValidScores(files));
    outcome := Success(BatchResult(files, similarityMatrix, averageAiScore));
  }

  /** Cutting a preview again changes nothing. */
  lemma PreviewIdempotent(text: string)
    ensures Preview(Preview(text)) == Preview(text)
  {
  }

  /**
   * Each entry is named by the basename of its path; it carries an error exactly when
   * extraction or preprocessing raised, and then its score is 0.0 and its error the message.
   */
  lemma EntryForOutcome(pdfPath: Path, env: Collaborators)
    ensures EntryFor(pdfPath, env).name == Basename(pdfPath)
    ensures EntryFor(pdfPath, env).Failed? <==>
              env.extractText(pdfPath).Failure?
              || env.preprocessForModel(env.extractText(pdfPath).value).Failure?
    ensures env.extractText(pdfPath).Failure? ==>
              EntryFor(pdfPath, env) == Failed(Basename(pdfPath), 0.0, env.extractText(pdfPath).error)
    ensures env.extractText(pdfPath).Success? && env.preprocessForModel(env.extractText(pdfPath).value).Failure? ==>
              EntryFor(pdfPath, env)
                == Failed(Basename(pdfPath), 0.0, env.preprocessForModel(env.extractText(pdfPath).value).error)
    ensures EntryFor(pdfPath, env).Failed? ==> EntryFor(pdfPath, env).aiScore == 0.0
    ensures EntryFor(pdfPath, env).Scored? ==>
              EntryFor(pdfPath, env).aiScore
                == ScoreFor(env.model, env.preprocessForModel(env.extractText(pdfPath).value).value)
    ensures EntryFor(pdfPath, env).Scored? ==>
              EntryFor(pdfPath, env).textPreview == Preview(env.extractText(pdfPath).value)
  {
  }

  /** The texts of two consecutive runs of paths are the texts of each, in that order. */
  lemma {:induction false} ExtractedTextsAppend(ps: seq<Path>, qs: seq<Path>, env: Collaborators)
    ensures ExtractedTexts(ps + qs, env) == ExtractedTexts(ps, env) + ExtractedTexts(qs, env)
  {
    if qs == [] {
      assert ps + qs == ps;
    } else {
      var last := qs[|qs| - 1];
      assert (ps + qs)[..|ps + qs| - 1] == ps + qs[..|qs| - 1];
      ExtractedTextsAppend(ps, qs[..|qs| - 1], env);
    }
  }

  /** A text is compared exactly when some path's extraction produced it. */
  lemma {:induction false} ExtractedTextsMembership(ps: seq<Path>, env: Collaborators, text: string)
    ensures text in ExtractedTexts(ps, env) <==>
              exists k :: 0 <= k < |ps| && env.extractText(ps[k]) == Success(text)
  {
    if ps != [] {
      var init := ps[..|ps| - 1];
      ExtractedTextsMembership(init, env, text);
      if exists k :: 0 <= k < |ps| && env.extractText(ps[k]) == Success(text) {
        var k :| 0 <= k < |ps| && env.extractText(ps[k]) == Success(text);
        if k < |ps| - 1 {
          assert init[k] == ps[k];
        }
      }
      if exists k :: 0 <= k < |init| && env.extractText(init[k]) == Success(text) {
        var k :| 0 <= k < |init| && env.extractText(init[k]) == Success(text);
        assert ps[k] == init[k];
      }
    }
  }

  /** The texts number as many as the paths exactly when no extraction failed, and none exactly when all failed. */
  lemma {:induction false} ExtractedTextsCount(ps: seq<Path>, env: Collaborators)
    ensures |ExtractedTexts(ps, env)| == |ps| <==> forall k :: 0 <= k < |ps| ==> env.extractText(ps[k]).Success?
    ensures ExtractedTexts(ps, env) == [] <==> forall k :: 0 <= k < |ps| ==> env.extractText(ps[k]).Failure?
  {
    if ps != [] {
      var init := ps[..|ps| - 1];
      ExtractedTextsCount(init, env);
      assert forall k :: 0 <= k < |init| ==> init[k] == ps[k];
    }
  }

  /**
   * A document whose text was extracted but whose preprocessing raised gets an error
   * entry, yet its text is still collected into `texts`, the input of the similarity step.
   */
  lemma PreprocessFailureStillCompared(ps: seq<Path>, env: Collaborators, k: nat)
    requires k < |ps|
    requires env.extractText(ps[k]).Success?
    requires env.preprocessForModel(env.extractText(ps[k]).value).Failure?
    ensures Entries(ps, env)[k].Failed?
    ensures env.extractText(ps[k]).value in ExtractedTexts(ps, env)
  {
    ExtractedTextsMembership(ps, env, env.extractText(ps[k]).value);
  }

  /** The valid scores are exactly the scores of the entries without an error. */
  lemma {:induction false} ValidScoresMembership(files: seq<FileEntry>, x: real)
    ensures x in ValidScores(files) <==> exists k :: 0 <= k < |files| && files[k].Scored? && files[k].aiScore == x
  {
    if files != [] {
      ValidScoresMembership(files[1..], x);
      if exists k :: 0 <= k < |files| && files[k].Scored? && files[k].aiScore == x {
        var k :| 0 <= k < |files| && files[k].Scored? && files[k].aiScore == x;
        if k > 0 {
          assert files[1..][k - 1] == files[k];
        }
      }
      if exists k :: 0 <= k < |files[1..]| && files[1..][k].Scored? && files[1..][k].aiScore == x {
        var k :| 0 <= k < |files[1..]| && files[1..][k].Scored? && files[1..][k].aiScore == x;
        assert files[k + 1] == files[1..][k];
      }
    }
  }

  /** The valid scores of two runs of entries are those of the first run followed by those of the second. */
  lemma {:induction false} ValidScoresAppend(a: seq<FileEntry>, b: seq<FileEntry>)
    ensures ValidScores(a + b) == ValidScores(a) + ValidScores(b)
  {
    if a == [] {
      assert a + b == b;
    } else {
      assert (a + b)[0] == a[0];
      assert (a + b)[1..] == a[1..] + b;
      ValidScoresAppend(a[1..], b);
    }
  }

  /** There are as many valid scores as entries without an error, so the average divides by that number. */
  lemma {:induction false} ValidScoresCount(files: seq<FileEntry>)
    ensures |ValidScores(files)| == ErrorFreeCount(files)
  {
    if files != [] {
      var init := files[..|files| - 1];
      var last := files[|files| - 1];
      assert files == init + [last];
      ValidScoresAppend(init, [last]);
      assert ValidScores([last]) == (if last.Scored? then [last.aiScore] else []) + ValidScores([]);
      ValidScoresCount(init);
    }
  }

  lemma {:induction false} SumBounds(xs: seq<real>, lo: real, hi: real)
    requires forall i :: 0 <= i < |xs| ==> lo <= xs[i] <= hi
    ensures |xs| as real * lo <= Sum(xs) <= |xs| as real * hi
  {
    if xs != [] {
      SumBounds(xs[1..], lo, hi);
    }
  }

  /** The mean of scores lies within any bounds of every score. */
  lemma MeanBounds(xs: seq<real>, lo: real, hi: real)
    requires xs != []
    requires forall i :: 0 <= i < |xs| ==> lo <= xs[i] <= hi
    ensures lo <= Mean(xs) <= hi
  {
    SumBounds(xs, lo, hi);
    var n := |xs| as real;
    var m := Sum(xs) / n;
    assert Mean(xs) == m;
    assert m * n == Sum(xs);
    assert (m - lo) * n >= 0.0 && (hi - m) * n >= 0.0;
  }

  /** A batch whose valid scores are 10, 20 and 30 averages to exactly 20. */
  lemma AverageOfThreeValidScores(ps: seq<Path>, env: Collaborators)
    requires ValidScores(Entries(ps, env)) == [10.0, 20.0, 30.0]
    ensures Mean(ValidScores(Entries(ps, env))) == 20.0
  {
    var scores := [10.0, 20.0, 30.0];
    assert scores[1..][1..] == [30.0];
    assert Sum(scores) == 60.0;
  }

  /** With a classifier that returns probabilities, every score and the average lie in [0, 100]. */
  lemma BatchScoresInRange(ps: seq<Path>, env: Collaborators)
    requires env.model.Some? ==> ProbabilitiesValid(env.model.value)
    ensures forall k :: 0 <= k < |ps| ==> 0.0 <= Entries(ps, env)[k].aiScore <= 100.0
    ensures 0.0 <= Mean(ValidScores(Entries(ps, env))) <= 100.0
  {
    var files := Entries(ps, env);
    var valid := ValidScores(files);
    forall k | 0 <= k < |ps| ensures 0.0 <= files[k].aiScore <= 100.0 {
      var entry := EntryFor(ps[k], env);
      assert files[k] == entry;
      if entry.Scored? {
        var processed := env.preprocessForModel(env.extractText(ps[k]).value).value;
        assert entry.aiScore == ScoreFor(env.model, processed);
      }
    }
    if valid != [] {
      forall i | 0 <= i < |valid| ensures 0.0 <= valid[i] <= 100.0 {
        ValidScoresMembership(files, valid[i]);
      }
      MeanBounds(valid, 0.0, 100.0);
    }
  }

  /**
   * Without a model, every document whose text was extracted and preprocessed scores 0.0
   * without an error, and the average is 0.
   */
  lemma ModelAbsent(ps: seq<Path>, env: Collaborators)
    requires env.model.None?
    ensures forall k :: 0 <= k < |ps| ==> Entries(ps, env)[k].aiScore == 0.0
    ensures forall k :: 0 <= k < |ps| && env.extractText(ps[k]).Success?
                        && env.preprocessForModel(env.extractText(ps[k]).value).Success?
                        ==> Entries(ps, env)[k].Scored?
    ensures Mean(ValidScores(Entries(ps, env))) == 0.0
  {
    var files := Entries(ps, env);
    var valid := ValidScores(files);
    forall k | 0 <= k < |ps| ensures files[k].aiScore == 0.0 {
      var entry := EntryFor(ps[k], env);
      assert files[k] == entry;
      if entry.Scored? {
        var processed := env.preprocessForModel(env.extractText(ps[k]).value).value;
        assert entry.aiScore == ScoreFor(env.model, processed);
      }
    }
    if valid != [] {
      forall i | 0 <= i < |valid| ensures 0.0 <= valid[i] <= 0.0 {
        ValidScoresMembership(files, valid[i]);
      }
      MeanBounds(valid, 0.0, 0.0);
    }
  }

  /** When every extraction fails: every entry is an error, nothing is compared, the average is 0. */
  lemma AllExtractionsFail(ps: seq<Path>, env: Collaborators)
    requires forall k :: 0 <= k < |ps| ==> env.extractText(ps[k]).Failure?
    ensures forall k :: 0 <= k < |ps| ==> Entries(ps, env)[k].Failed? && Entries(ps, env)[k].aiScore == 0.0
    ensures ExtractedTexts(ps, env) == []
    ensures Mean(ValidScores(Entries(ps, env))) == 0.0
  {
    ExtractedTextsCount(ps, env);
    var files := Entries(ps, env);
    if ValidScores(files) != [] {
      ValidScoresMembership(files, ValidScores(files)[0]);
    }
  }

  /** A batch of one document has no similarity matrix and averages to that document's score if it has one. */
  lemma SingleDocument(p: Path, env: Collaborators)
    ensures |ExtractedTexts([p], env)| <= 1
    ensures Entries([p], env)[0].Scored? ==> Mean(ValidScores(Entries([p], env))) == Entries([p], env)[0].aiScore
    ensures Entries([p], env)[0].Failed? ==> Mean(ValidScores(Entries([p], env))) == 0.0
  {
    var files := Entries([p], env);
    assert files[1..] == [];
    if files[0].Scored? {
      assert ValidScores(files) == [files[0].aiScore];
      assert Sum([files[0].aiScore]) == files[0].aiScore;
    }
  }
}
