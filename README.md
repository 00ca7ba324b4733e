# Batch authenticity scoring — a Dafny model

This project models the document-batch pipeline of a small Flask application. The application estimates, for each submitted PDF, how likely it is to be machine-generated, and compares the submitted texts with one another. The model covers the pure and imperative logic of `app.py`:

- `process_pdfs` walks the ordered list of document paths. For each path it extracts the text, collects it for the similarity step, preprocesses and scores it, and appends one record to `results['files']`. A raised exception turns into an error record with score 0.0, and the loop goes on. After the loop it asks for a similarity matrix only when more than one text was collected. Then it averages the scores of the records without an error, or gives 0 when there are none. This is modelled as `Batch.ProcessPdfs`, a method with a loop, proved against specification functions (`Entries`, `ExtractedTexts`, `ValidScores`, `Mean`).
- `get_ai_score` and the "no model loaded" branch give the score: 100 times the positive-class probability, 0.0 when the prediction raises, and 0.0 when there is no model (`Scoring`).
- The text preview keeps the first 200 characters and appends `...` to longer texts (`Batch.Preview`).
- `allowed_file` accepts a file name whose extension, after the last `.` and lower-cased, is configured (`Upload`).

The collaborators whose code lies outside `app.py` are fields of `Batch.Collaborators`: PDF text extraction, preprocessing for the model, the classifier's `predict_proba` and `calculate_similarity_matrix`. They are arbitrary functions, and each may fail with a message, which stands for a raised exception. Nothing is assumed about what they compute. The classifier is `Option<Classifier>`, and `None` stands for a model that failed to load.

Three behaviours of `process_pdfs` are worth spelling out:

- When the classifier raises, `get_ai_score` returns 0.0 and the record carries no `error` key. Such a document is therefore counted in the average, with its score of 0.0, like any other record without an error.
- An empty list of paths is not rejected by `process_pdfs`. The route refuses it earlier. `ProcessPdfs([])` gives no records, no matrix and an average of 0.
- An exception from `calculate_similarity_matrix` is not caught inside `process_pdfs`. It propagates to the caller, so `ProcessPdfs` returns `Failure` in that case. Building the PDF handler and the text processor (app.py:93-94) also happens outside the handler; the model assumes these constructors do not raise.

## Model

| member | source | states |
|---|---|---|
| `Batch.ProcessPdfs` | app.py:92-140 | The outcome fails exactly when more than one text was extracted and the similarity call raises, and then it carries that error. Otherwise `files` is one entry per path in order, the matrix is the similarity of the extracted texts if there are at least two and None otherwise, and the average is the mean of the valid scores. |
| `Batch.Entries` | app.py:104-130 | There is exactly one record per input path, and record k is the outcome for path k, so the input order is kept. |
| `Batch.EntryFor` | app.py:105-130 | One loop iteration's record: named by the basename of the path, score 0.0 whenever it carries an error, and error-free only if extraction succeeded. The body gives the error record of the first step that raised, else the scored record with the preview. |
| `Batch.EntryForOutcome` | app.py:104-130 | A record is named by the basename of its path. It has an error exactly when extraction or preprocessing raised, and then its score is 0.0 and its error is the message of the exception raised first (extraction's, else preprocessing's). Otherwise its score is the score rule applied to the preprocessed text and it holds the preview of the extracted text. |
| `Batch.ExtractedTexts` | app.py:102-111 | The collected texts are never more than the paths. |
| `Batch.ExtractedTextsAppend` | app.py:104-108 | The texts of two consecutive runs of paths are the texts of the first run followed by those of the second, so input order is kept. |
| `Batch.ExtractedTextsMembership` | app.py:104-108 | A text is collected exactly when the extraction of some path produced it, in both directions. |
| `Batch.ExtractedTextsCount` | app.py:104-108 | Every path contributes a text exactly when no extraction failed. No text is collected exactly when every extraction failed. |
| `Batch.PreprocessFailureStillCompared` | app.py:107-130 | A document whose preprocessing raised gets an error record, yet its text is still collected into `texts`, the input of the similarity step (which runs only when more than one text was collected). |
| `Batch.ValidScores` | app.py:137 | There are never more valid scores than records. The body keeps the scores of the records without an error, in order. |
| `Batch.ValidScoresAppend` | app.py:137 | The valid scores of two runs of records are those of the first run followed by those of the second. |
| `Batch.ValidScoresCount` | app.py:137-138 | There are exactly as many valid scores as records without an error, so the average divides by that number. |
| `Batch.ValidScoresMembership` | app.py:137 | The valid scores are exactly the scores of the records without an error. |
| `Batch.Sum` | app.py:138 | No contract; `sum` of the scores, first to last, over exact reals. |
| `Batch.Mean` | app.py:138 | The average of no scores is 0. The body divides the sum by the number of scores otherwise. |
| `Batch.MeanBounds` | app.py:137-138 | The average of a non-empty list of scores lies within any bounds that hold for every score, and so between the minimum and the maximum. |
| `Batch.AverageOfThreeValidScores` | app.py:137-138 | A batch whose valid scores are 10, 20 and 30 averages to exactly 20. |
| `Batch.BatchScoresInRange` | app.py:114-138 | If the classifier returns probabilities in [0,1], every record's score and the average lie in [0,100]. |
| `Batch.ModelAbsent` | app.py:114-117 | Without a model, every score is 0.0. A document that was extracted and preprocessed has no error record, and the average is 0. |
| `Batch.AllExtractionsFail` | app.py:104-138 | If every extraction fails, every record is an error with score 0.0, no text is collected (so no matrix is requested), and the average is 0. |
| `Batch.SingleDocument` | app.py:133-138 | A one-document batch collects at most one text, so it has no matrix. Its average is the document's score if the record is valid, and 0 otherwise. |
| `Batch.Preview` | app.py:122 | The preview has at most 203 characters. A text of at most 200 characters is kept whole. A longer one becomes its first 200 characters followed by `...`. |
| `Batch.PreviewIdempotent` | app.py:122 | Taking the preview of a preview changes nothing. |
| `Scoring.GetAiScore` | app.py:142-151 | The score divided by 100 is the positive-class probability. It is 0.0 when the prediction raises or the row has no second column. It lies in [0,100] when the row holds probabilities. |
| `Scoring.ScoreFor` | app.py:114-117 | The score is 0.0 when no model is loaded. It lies in [0,100] when the loaded classifier returns probabilities. |
| `Upload.AllowedFile` | app.py:27-28 | A name without a `.` is never accepted. |
| `Upload.AllowedFileCharacterized` | app.py:27-28 | A name is accepted exactly when it has a last `.` and the lower-cased text after it is an allowed extension, in both directions. |
| `Upload.AllowedFileByExtension` | app.py:27-28 | For `stem.ext` with a dot-free `ext`, acceptance depends only on the lower-cased `ext`, whatever the stem. |
| `Upload.AllowedFileIgnoresCase` | app.py:27-28 | Two names that are equal once lower-cased are accepted or refused together. |
| `Strings.Lower` | app.py:28 | `.lower()`: the result is as long as the input. The body lower-cases each ASCII capital and keeps every other character. |
| `Strings.LowerKeepsAllButCapitals` | app.py:28 | A lower-cased string has no ASCII capital, and every character that was not a capital is unchanged. |
| `Strings.LastIndexOf` | app.py:28 | `rsplit('.', 1)` splits at the last occurrence. The result is None exactly when the character is absent. Otherwise it is an index holding the character, with none after it. |
| `Strings.LastIndexOfAt` | app.py:28 | An occurrence with no later occurrence is the one found, so the split point is unique. |
| `Paths.Basename` | app.py:120 | The name has no `/`. It is a suffix of the path, and either the whole path or preceded by a `/`, so it is the longest `/`-free suffix. |
| `Paths.BasenameOfJoin` | app.py:120 | The basename of `dir/name` is `name` when `name` has no `/`. |

## Left out

- The Flask routes (`index`, `upload_files`): request handling, flash messages, redirects and template rendering.
- Saving uploads, expanding ZIP archives, walking the upload directory and removing it. This is file-system I/O on a folder shared between requests.
- Loading the model with `joblib` at start-up. Whether a model is present is a parameter instead.
- PDF text extraction, preprocessing for the model, `predict_proba` and `calculate_similarity_matrix`. Their code is not part of this model. They are arbitrary, possibly failing functions, so no property of the similarity matrix (size, symmetry, range) is claimed.
- `secure_filename` is used only by the route and is not modelled.
- The model of `os.path.basename` follows POSIX, where `/` is the only separator.
- Logging with `print`.
- Batch.ProcessPdfs: assumes that constructing `PDFHandler()` and `TextProcessor()` (app.py:93-94) does not raise; an exception there would propagate out of `process_pdfs`, which the model does not represent.
- Scoring.ScoreFor: models `if model:` (app.py:114) as "a model was loaded"; Python truthiness of a loaded model object that is falsy (for instance an estimator defining `__len__` as 0) is not modelled.
- Scores and the average are exact reals, not floating-point numbers. An empty average is 0.0, where Python gives the integer 0.
- Strings.Lower: lower-cases ASCII letters only, because Python's Unicode `str.lower` (including characters whose lower case is longer) is not modelled.
- Sequential execution only. The model has no parallel scoring and no request concurrency.
