/** The response records of app/schemas.py and the range constraints their
    fields carry. A record whose fields break a constraint cannot be built:
    construction raises a validation error. The Python field `label` is
    called `category` here. */
module Schemas {
  import opened Wrappers

  /** One flagged log line. */
  datatype Anomaly = Anomaly(lineNumber: int, score: real, message: string)

  /** `line_number >= 1` and `-1.0 <= score <= 1.0`. */
  predicate ValidAnomaly(a: Anomaly) {
    a.lineNumber >= 1 && -1.0 <= a.score <= 1.0
  }

  /** One classified log line. */
  datatype Classification = Classification(lineNumber: int, category: string, confidence: real, message: string)

  /** `0.0 <= confidence <= 1.0`; the line number carries no bound. */
  predicate ValidClassification(c: Classification) {
    0.0 <= c.confidence <= 1.0
  }

  predicate AllValidAnomalies(anomalies: seq<Anomaly>) {
    forall k :: 0 <= k < |anomalies| ==> ValidAnomaly(anomalies[k])
  }

  predicate AllValidClassifications(records: seq<Classification>) {
    forall k :: 0 <= k < |records| ==> ValidClassification(records[k])
  }

  /** The analysis response; the creation time is not modelled. */
  datatype AnalyseResponse = AnalyseResponse(
    anomalies: seq<Anomaly>,
    classifications: Option<seq<Classification>>,
    modelUsed: string)

  predicate ValidAnalyseResponse(r: AnalyseResponse) {
    AllValidAnomalies(r.anomalies)
    && (r.classifications.Some? ==> AllValidClassifications(r.classifications.value))
  }

  /** `AnalyseResponse(anomalies=..., model_used=...)`: the classifications
      are optional and absent unless given, so such a response is valid
      exactly when its anomalies are. */
  function NewAnalyseResponse(anomalies: seq<Anomaly>, modelUsed: string): (r: AnalyseResponse)
    ensures r.classifications.None?
    ensures ValidAnalyseResponse(r) <==> AllValidAnomalies(anomalies)
  {
    AnalyseResponse(anomalies, None, modelUsed)
  }

  /** The training response; the training time is not modelled. */
  datatype TrainResponse = TrainResponse(modelPath: string)

  /** One stored bundle: its stem, its modification time in seconds since the
      epoch, and its path. */
  datatype ModelInfo = ModelInfo(name: string, createdAt: int, path: string)
}
