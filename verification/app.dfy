/** The two prediction flows of the page, with the persisted model, the
    audio decoder and the classifier passed in as parameters: replaying a
    held-out test sample (app.py:89-108) and analysing an uploaded
    recording (app.py:132-157). */
module App {
  import opened Options
  import opened Utf8
  import opened Text
  import opened Labels
  import opened Audio
  import opened Display

  /** What the page reads from the loaded model: its `n_features_in_`
      attribute, when it has one. */
  datatype ModelInfo = ModelInfo(nFeaturesIn: Option<int>)

  /** `getattr(model, 'n_features_in_', 14773)` (app.py:69). */
  function ExpectedFeatures(model: ModelInfo): (n: int)
    ensures model.nFeaturesIn.Some? ==> n == model.nFeaturesIn.value
    ensures model.nFeaturesIn.None? ==> n == 14773
  {
    match model.nFeaturesIn
    case Some(k) => k
    case None => DefaultTargetLength
  }

  /** The outcome of the upload flow: the audio could not be decoded, the
      classifier raised, or a banner was shown for the decoded label. */
  datatype UploadOutcome =
    | DecodeFailed
    | PredictFailed
    | Shown(category: Category, predictedLabel: string)

  /** The upload flow: fit the recording to the model's input width, ask the
      classifier (`predict`, `None` when it raises) for a label, decode it
      and pick the banner. */
  function AnalyzeUpload<A, T>(
    file: A, load: A -> Option<seq<T>>, zero: T,
    model: ModelInfo, predict: Matrix<T> -> Option<Label>
  ): (r: UploadOutcome)
    ensures r.DecodeFailed? <==> load(file).None?
    ensures r.Shown? ==> r.category == Classify(r.predictedLabel)
    ensures load(file).Some? && ExpectedFeatures(model) >= 0 ==>
      var row := ReshapeRow(Fitted(load(file).value, zero, ExpectedFeatures(model)));
      && (r.PredictFailed? <==> predict(row).None?)
      && (r.Shown? ==> r.predictedLabel == DecodeLabel(predict(row).value))
  {
    match ProcessAudioFile(file, load, zero, ExpectedFeatures(model))
    case None => DecodeFailed
    case Some(features) =>
      match predict(features)
      case None => PredictFailed
      case Some(prediction) =>
        var shown := DecodeLabel(prediction);
        Shown(Classify(shown), shown)
  }

  /** Whatever the model reports as its width, a decodable upload reaches
      the classifier as one row of exactly that width (the default 14773
      when the attribute is missing). */
  lemma UploadRowHasModelWidth<A, T>(file: A, load: A -> Option<seq<T>>, zero: T, model: ModelInfo)
    requires load(file).Some?
    requires model.nFeaturesIn.Some? ==> model.nFeaturesIn.value >= 0
    ensures ProcessAudioFile(file, load, zero, ExpectedFeatures(model)).Some?
    ensures ProcessAudioFile(file, load, zero, ExpectedFeatures(model)).value.Shape()
         == (1, if model.nFeaturesIn.Some? then model.nFeaturesIn.value else 14773)
  {
  }

  /** The test-set verdict (app.py:93-104): both labels are decoded, then
      compared ignoring case. A label always matches itself, and otherwise
      the decoded texts must agree letter by letter up to ASCII case. */
  predicate TestSampleCorrect(truth: Label, predicted: Label): (r: bool)
    ensures truth == predicted ==> r
    ensures r <==> var a, b := DecodeLabel(truth), DecodeLabel(predicted);
      |a| == |b| && forall i | 0 <= i < |a| :: LowerChar(a[i]) == LowerChar(b[i])
  {
    IsCorrect(DecodeLabel(truth), DecodeLabel(predicted))
  }

  /** A ground truth stored as UTF-8 bytes is judged against a textual
      prediction exactly as the two texts compare ignoring case. */
  lemma TestSampleCorrectAcrossRepresentations(truth: string, predicted: string)
    ensures TestSampleCorrect(Bytes(Encode(truth)), Text(predicted)) <==> IsCorrect(truth, predicted)
    ensures TestSampleCorrect(Text(truth), Bytes(Encode(predicted))) <==> IsCorrect(truth, predicted)
  {
    DecodeLabelOfEncoded(truth);
    DecodeLabelOfEncoded(predicted);
  }
}
