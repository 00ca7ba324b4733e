/**
 * The "AI likelihood" of one preprocessed text: 100 times the classifier's
 * probability for the positive class, with 0.0 as the fallback.
 */
module Scoring {
  import opened Wrappers

  /** One row of `predict_proba`: the probability of each class, the positive class at index 1. */
  type Probabilities = seq<real>

  /** `model.predict_proba([text])[0]`; a Failure when the call raises. */
  type Classifier = string -> Result<Probabilities>

  ghost predicate IsProbabilityRow(row: Probabilities) {
    forall j :: 0 <= j < |row| ==> 0.0 <= row[j] <= 1.0
  }

  /** Every row the classifier returns holds probabilities. */
  ghost predicate ProbabilitiesValid(predictProba: Classifier) {
    forall text :: predictProba(text).Success? ==> IsProbabilityRow(predictProba(text).value)
  }

  /**
   * `get_ai_score`: the score divided by 100 is the positive-class probability;
   * when the prediction raises, or its row has no index 1 (an IndexError caught by
   * the same handler), the score is 0.0.
   */
  function GetAiScore(predictProba: Classifier, text: string): (score: real)
    ensures match predictProba(text)
            case Failure(_) => score == 0.0
            case Success(row) =>
              (|row| > 1 ==> score / 100.0 == row[1]) && (|row| <= 1 ==> score == 0.0)
    ensures predictProba(text).Success? && IsProbabilityRow(predictProba(text).value) ==> 0.0 <= score <= 100.0
  {
    match predictProba(text)
    case Failure(_) => 0.0
    case Success(proba) => if |proba| > 1 then proba[1] * 100.0 else 0.0
  }

  /** The score of a document: 0.0 without a loaded model, `get_ai_score` with one. */
  function ScoreFor(model: Option<Classifier>, processedText: string): (score: real)
    ensures model.None? ==> score == 0.0
    ensures model.Some? && ProbabilitiesValid(model.value) ==> 0.0 <= score <= 100.0
  {
    if model.Some? then GetAiScore(model.value, processedText) else 0.0
  }
}
