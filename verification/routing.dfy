/** How the web app turns a saved upload into a prediction: a configured
    mode picks the dummy classifier or the real model, and the real model
    falls back to the dummy classifier when inference raises. */
module Routing {
  import opened Outcomes
  import opened Predict

  /** The label and description the dummy classifier always reports. */
  const DummyLabel := "Diffuse Large B-Cell Lymphoma"
  const DummyDescription := "High-grade malignant lymphoma characterized by large B-cells."

  /** The class list the web app passes to `predict_image`. */
  const AppClassNames: seq<string> := ["DLBCL", "Follicular", "Hodgkin"]

  const NotLoadedMessage :=
    "ML model not loaded. Make sure MODEL_MODE is set to 'REAL' and model file exists."

  /** A draw of `random.uniform(90.00, 99.99)` rounded to two decimals,
      counted in hundredths of a percent. */
  type DummyHundredths = h: int | 9000 <= h <= 9999 witness 9000

  /** The process-wide configuration a request sees: the `MODEL_MODE`
      setting and whether startup loaded the model and the processor. */
  datatype Config = Config(mode: string, modelLoaded: bool, processorLoaded: bool)

  /** The message of the `ValueError` for an unknown mode. */
  function InvalidModeMessage(mode: string): (r: string)
  {
    "Invalid MODEL_MODE: " + mode + ". Must be 'DUMMY' or 'REAL'."
  }

  /** `classify_with_dummy_model`: the fixed DLBCL answer with a random
      confidence between 90.00 and 99.99 percent, in whole hundredths. */
  function ClassifyWithDummyModel(h: DummyHundredths): (r: Prediction)
    ensures r.displayName == DummyLabel && r.description == DummyDescription
    ensures 90.0 <= r.confidence <= 99.99
    ensures (r.confidence * 100.0).Floor as real == r.confidence * 100.0
  {
    var c := h as real / 100.0;
    assert c * 100.0 == h as real;
    assert (h as real).Floor == h;
    Prediction(DummyLabel, c, DummyDescription)
  }

  /** `classify_with_ml_model`: raise when the model or the processor is not
      loaded; otherwise run `predict_image` with the app's class list and
      answer with the dummy classifier when it raises. */
  function ClassifyWithMlModel(config: Config, forward: Result<seq<real>, Failure>, h: DummyHundredths): (r: Result<Prediction, Failure>)
    ensures !(config.modelLoaded && config.processorLoaded) ==> r == Err(RuntimeError(NotLoadedMessage))
    ensures config.modelLoaded && config.processorLoaded && PredictImage(forward, Some(AppClassNames)).Ok? ==>
      r == PredictImage(forward, Some(AppClassNames))
    ensures config.modelLoaded && config.processorLoaded && PredictImage(forward, Some(AppClassNames)).Err? ==>
      r == Ok(ClassifyWithDummyModel(h))
  {
    if !config.modelLoaded || !config.processorLoaded then
      Err(RuntimeError(NotLoadedMessage))
    else
      match PredictImage(forward, Some(AppClassNames))
      case Ok(p) => Ok(p)
      case Err(_) => Ok(ClassifyWithDummyModel(h))
  }

  /** `classify_image`: route on the configured mode; any mode other than
      the exact strings `DUMMY` and `REAL` is a `ValueError`. */
  function ClassifyImage(config: Config, forward: Result<seq<real>, Failure>, h: DummyHundredths): (r: Result<Prediction, Failure>)
    ensures r.Err? <==>
      (config.mode != "DUMMY" && config.mode != "REAL")
      || (config.mode == "REAL" && !(config.modelLoaded && config.processorLoaded))
    ensures config.mode != "DUMMY" && config.mode != "REAL" ==>
      r == Err(ValueError(InvalidModeMessage(config.mode)))
    ensures r.Ok? ==>
      r.value == ClassifyWithDummyModel(h)
      || (config.mode == "REAL" && PredictImage(forward, Some(AppClassNames)) == r)
    ensures config.mode == "REAL" && config.modelLoaded && config.processorLoaded
            && PredictImage(forward, Some(AppClassNames)).Ok? ==>
      r == PredictImage(forward, Some(AppClassNames))
  {
    if config.mode == "DUMMY" then Ok(ClassifyWithDummyModel(h))
    else if config.mode == "REAL" then ClassifyWithMlModel(config, forward, h)
    else Err(ValueError(InvalidModeMessage(config.mode)))
  }

  /** The dummy answer is word for word what a genuine DLBCL prediction
      reports, so only its confidence could tell the two apart. */
  lemma DummyMimicsDlbclPrediction(h: DummyHundredths)
    ensures ClassifyWithDummyModel(h).displayName == DisplayName("DLBCL")
    ensures ClassifyWithDummyModel(h).description == Description("DLBCL")
  {
  }

  /** Every two-decimal percentage from 90.00 to 99.99 is a possible dummy
      confidence. */
  lemma DummyConfidenceRange(c: real)
    requires 90.0 <= c <= 99.99 && (c * 100.0).Floor as real == c * 100.0
    ensures exists h: DummyHundredths :: ClassifyWithDummyModel(h).confidence == c
  {
    var h: int := (c * 100.0).Floor;
    assert 9000 <= h <= 9999;
    assert ClassifyWithDummyModel(h).confidence == c;
  }

  /** In `DUMMY` mode the answer depends on nothing but the random draw:
      not on the model state and not on the image. */
  lemma DummyModeIgnoresModel(config: Config, forward: Result<seq<real>, Failure>, h: DummyHundredths)
    requires config.mode == "DUMMY"
    ensures ClassifyImage(config, forward, h) == Ok(ClassifyWithDummyModel(h))
  {
  }

  /** A model that is not loaded is reported, not masked by the fallback,
      whatever inference would have done. */
  lemma NotLoadedIsNotMasked(config: Config, forward: Result<seq<real>, Failure>, h: DummyHundredths)
    requires config.mode == "REAL" && !(config.modelLoaded && config.processorLoaded)
    ensures ClassifyImage(config, forward, h) == Err(RuntimeError(NotLoadedMessage))
  {
  }

  /** When inference raises in `REAL` mode, the answer is exactly the one
      `DUMMY` mode gives: the fallback cannot be told from the demo path. */
  lemma FallbackEqualsDummyMode(config: Config, forward: Result<seq<real>, Failure>, h: DummyHundredths)
    requires config.mode == "REAL" && config.modelLoaded && config.processorLoaded
    requires PredictImage(forward, Some(AppClassNames)).Err?
    ensures ClassifyImage(config, forward, h) == ClassifyImage(config.(mode := "DUMMY"), forward, h)
  {
  }

  /** In `REAL` mode with a loaded model, classification never fails: it
      yields one of the three display names with the description of the
      same class, or the dummy answer. A forward pass that raises yields
      the dummy answer. */
  lemma RealModeAnswers(config: Config, forward: Result<seq<real>, Failure>, h: DummyHundredths)
    requires config.mode == "REAL" && config.modelLoaded && config.processorLoaded
    ensures ClassifyImage(config, forward, h).Ok?
    ensures var p := ClassifyImage(config, forward, h).value;
      exists code :: code in DefaultClassNames
        && p.displayName == DisplayNames[code] && p.description == Descriptions[code]
    ensures forward.Err? ==> ClassifyImage(config, forward, h) == Ok(ClassifyWithDummyModel(h))
  {
    var p := ClassifyImage(config, forward, h).value;
    if forward.Ok? && |forward.value| > 0 && PredictImage(forward, Some(AppClassNames)).Ok? {
      var k := FirstMaxIndex(forward.value);
      assert AppClassNames[k] in DefaultClassNames;
    } else {
      assert p.displayName == DisplayNames["DLBCL"];
    }
  }
}
