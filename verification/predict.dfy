/** The decision `predict_image` takes after softmax: pick the first most
    probable class, report its probability as a percentage, and look up
    the class's display name and description. The forward pass that
    produces the probabilities is abstract. */
module Predict {
  import opened Outcomes

  /** The class codes used when the caller passes no list, in the order of
      the classifier's three output logits. */
  const DefaultClassNames: seq<string> := ["DLBCL", "Follicular", "Hodgkin"]

  /** Number of logits the classification head produces. */
  const NumClasses := 3

  /** Display name of each known class code. */
  const DisplayNames: map<string, string> := map[
    "DLBCL" := "Diffuse Large B-Cell Lymphoma",
    "Follicular" := "Follicular Lymphoma",
    "Hodgkin" := "Hodgkin Lymphoma"]

  /** One-sentence description of each known class code. */
  const Descriptions: map<string, string> := map[
    "DLBCL" := "High-grade malignant lymphoma characterized by large B-cells.",
    "Follicular" := "Indolent B-cell lymphoma with follicular growth pattern.",
    "Hodgkin" := "Lymphoma characterized by Reed-Sternberg cells."]

  /** Description given to a class code with no entry of its own. */
  const GenericDescription := "Lymphoma subtype classification."

  /** The triple every classification path returns. `confidence` is a
      percentage; its rendering as text with two decimals is not modelled. */
  datatype Prediction = Prediction(displayName: string, confidence: real, description: string)

  /** `class_display_names.get(code, code)`: a known code gets a full name
      different from the code; any other string is its own display name. */
  function DisplayName(code: string): (r: string)
    ensures code in DefaultClassNames ==> r in DisplayNames.Values && r != code
    ensures code !in DefaultClassNames ==> r == code
  {
    if code in DisplayNames then DisplayNames[code] else code
  }

  /** `descriptions.get(code, 'Lymphoma subtype classification.')`: total,
      and the generic sentence goes exactly to the codes outside the
      default list. */
  function Description(code: string): (r: string)
    ensures r == GenericDescription <==> code !in DefaultClassNames
    ensures code in DefaultClassNames ==> r in Descriptions.Values
  {
    if code in Descriptions then Descriptions[code] else GenericDescription
  }

  /** `k` is where `torch.max` reports the maximum: no entry is larger,
      and every earlier entry is strictly smaller. */
  ghost predicate IsFirstMax(p: seq<real>, k: int)
  {
    && 0 <= k < |p|
    && (forall j :: 0 <= j < |p| ==> p[j] <= p[k])
    && (forall j :: 0 <= j < k ==> p[j] < p[k])
  }

  /** First-occurrence argmax over a non-empty sequence, scanning left to
      right and moving only on a strictly larger entry. */
  function FirstMaxIndex(p: seq<real>): (k: nat)
    requires |p| > 0
    ensures IsFirstMax(p, k)
  {
    if |p| == 1 then 0
    else
      var k := FirstMaxIndex(p[..|p| - 1]);
      if p[|p| - 1] > p[k] then |p| - 1 else k
  }

  /** At most one index is the first maximum, so ties are broken the same
      way every time. */
  lemma FirstMaxUnique(p: seq<real>, k: int, k': int)
    requires IsFirstMax(p, k) && IsFirstMax(p, k')
    ensures k == k'
  {
    assert p[k] == p[k'];
    if k < k' {
      assert false;
    } else if k' < k {
      assert false;
    }
  }

  /** The class list `predict_image` indexes: the given one, or the default
      when none is given. An empty list is a list, not a missing one. */
  function ClassNames(given: Option<seq<string>>): (r: seq<string>)
    ensures given.None? ==> r == DefaultClassNames
    ensures given.Some? ==> r == given.value
  {
    match given
    case Some(names) => names
    case None => DefaultClassNames
  }

  /** `predict_image` from the softmax output on: the first most probable
      class, its probability times 100, and the two table lookups; an
      `IndexError` when the class list is too short for that index. */
  function PredictFromProbabilities(probs: seq<real>, classNames: Option<seq<string>>): (r: Result<Prediction, Failure>)
    requires |probs| > 0
    ensures forall k :: IsFirstMax(probs, k) ==>
      (r.Ok? <==> k < |ClassNames(classNames)|)
    ensures forall k :: IsFirstMax(probs, k) && r.Ok? ==>
      var code := ClassNames(classNames)[k];
      r.value == Prediction(DisplayName(code), probs[k] * 100.0, Description(code))
    ensures r.Err? ==> r.error == IndexError
  {
    var names := ClassNames(classNames);
    var k := FirstMaxIndex(probs);
    if k < |names| then
      Ok(Prediction(DisplayName(names[k]), probs[k] * 100.0, Description(names[k])))
    else
      Err(IndexError)
  }

  /** `predict_image` as a whole: an exception from preprocessing or the
      forward pass propagates, `torch.max` over no entries raises, and the
      rest is `PredictFromProbabilities`. */
  function PredictImage(forward: Result<seq<real>, Failure>, classNames: Option<seq<string>>): (r: Result<Prediction, Failure>)
    ensures forward.Err? ==> r == Err(forward.error)
    ensures forward.Ok? && |forward.value| > 0 ==> r == PredictFromProbabilities(forward.value, classNames)
  {
    match forward
    case Err(e) => Err(e)
    case Ok(probs) =>
      if |probs| == 0 then Err(InferenceError) else PredictFromProbabilities(probs, classNames)
  }

  /** Sum of the entries. */
  function Sum(p: seq<real>): (r: real)
  {
    if |p| == 0 then 0.0 else p[0] + Sum(p[1..])
  }

  /** What softmax produces: non-negative entries that sum to 1. */
  ghost predicate IsDistribution(p: seq<real>)
  {
    && (forall j :: 0 <= j < |p| ==> 0.0 <= p[j])
    && Sum(p) == 1.0
  }

  lemma {:induction false} SumNonNegative(p: seq<real>)
    requires forall j :: 0 <= j < |p| ==> 0.0 <= p[j]
    ensures Sum(p) >= 0.0
  {
    if |p| > 0 {
      SumNonNegative(p[1..]);
    }
  }

  /** A sum of non-negative entries is at least each entry. */
  lemma {:induction false} EntryAtMostSum(p: seq<real>, k: int)
    requires forall j :: 0 <= j < |p| ==> 0.0 <= p[j]
    requires 0 <= k < |p|
    ensures p[k] <= Sum(p)
  {
    if k == 0 {
      SumNonNegative(p[1..]);
    } else {
      EntryAtMostSum(p[1..], k - 1);
    }
  }

  /** A sum of entries each at most `m` is at most `|p| * m`. */
  lemma {:induction false} SumAtMostCountTimesBound(p: seq<real>, m: real)
    requires forall j :: 0 <= j < |p| ==> p[j] <= m
    ensures Sum(p) <= |p| as real * m
  {
    if |p| > 0 {
      SumAtMostCountTimesBound(p[1..], m);
    }
  }

  /** On a softmax output the largest probability, as a percentage, is at
      most 100 and at least the uniform share `100 / |p|`, because it is
      at least the average. */
  lemma MaxPercentBounds(p: seq<real>, k: int)
    requires IsDistribution(p) && IsFirstMax(p, k)
    ensures p[k] * 100.0 <= 100.0 && (p[k] * 100.0) * (|p| as real) >= 100.0
  {
    EntryAtMostSum(p, k);
    SumAtMostCountTimesBound(p, p[k]);
    assert (p[k] * 100.0) * (|p| as real) == 100.0 * ((|p| as real) * p[k]);
  }

  /** The bounds of `MaxPercentBounds` for the three-logit head. */
  lemma MaxPercentBoundsForHead(p: seq<real>, k: int)
    requires |p| == NumClasses && IsDistribution(p) && IsFirstMax(p, k)
    ensures p[k] * 100.0 <= 100.0 && p[k] * 300.0 >= 100.0
  {
    MaxPercentBounds(p, k);
  }

  /** On the head's softmax output the reported confidence is a percentage
      no larger than 100 and no smaller than the uniform share of one
      class in three. */
  lemma ConfidenceBounds(probs: seq<real>, classNames: Option<seq<string>>)
    requires |probs| == NumClasses && IsDistribution(probs)
    requires PredictFromProbabilities(probs, classNames).Ok?
    ensures var c := PredictFromProbabilities(probs, classNames).value.confidence;
      c <= 100.0 && 3.0 * c >= 100.0
  {
    var k := FirstMaxIndex(probs);
    assert PredictFromProbabilities(probs, classNames).value.confidence == probs[k] * 100.0;
    MaxPercentBoundsForHead(probs, k);
  }

  /** The two lookup tables know exactly the default class codes, so a
      default prediction always has a specific display name and a specific
      description. */
  lemma TablesCoverDefaultClasses()
    ensures DisplayNames.Keys == Descriptions.Keys
    ensures forall code :: code in DisplayNames <==> code in DefaultClassNames
    ensures |DefaultClassNames| == NumClasses
  {
  }

  /** With a class list of known codes at least as long as the probability
      vector, a prediction always succeeds, and its display name and
      description belong to the same class code. */
  lemma KnownClassesPredictConsistently(probs: seq<real>, names: seq<string>)
    requires 0 < |probs| <= |names|
    requires forall i :: 0 <= i < |names| ==> names[i] in DefaultClassNames
    ensures PredictFromProbabilities(probs, Some(names)).Ok?
    ensures var p := PredictFromProbabilities(probs, Some(names)).value;
      exists code :: code in DefaultClassNames
        && p.displayName == DisplayNames[code] && p.description == Descriptions[code]
  {
    var k := FirstMaxIndex(probs);
    var code := names[k];
    assert code in DefaultClassNames;
  }

  /** Without a class list the default codes are used: a probability
      vector no longer than the default list always yields the full name
      and description of the code at the first most probable index. */
  lemma DefaultClassesPredict(probs: seq<real>)
    requires 0 < |probs| <= |DefaultClassNames|
    ensures PredictFromProbabilities(probs, None).Ok?
    ensures forall k :: IsFirstMax(probs, k) ==>
      var p := PredictFromProbabilities(probs, None).value;
      && p.displayName == DisplayNames[DefaultClassNames[k]]
      && p.description == Descriptions[DefaultClassNames[k]]
  {
    var k := FirstMaxIndex(probs);
    forall k' | IsFirstMax(probs, k')
      ensures k' == k
    {
      FirstMaxUnique(probs, k, k');
    }
    assert DefaultClassNames[k] in DisplayNames && DefaultClassNames[k] in Descriptions;
  }

  /** With the three-logit head every prediction succeeds exactly when the
      class list has at least three entries: with a shorter list, every
      vector whose last class is the most probable raises `IndexError`,
      and such vectors exist. */
  lemma ClassListLength(names: seq<string>)
    ensures |names| >= NumClasses ==>
      forall probs :: |probs| == NumClasses ==> PredictFromProbabilities(probs, Some(names)).Ok?
    ensures |names| < NumClasses ==>
      forall probs :: |probs| == NumClasses && IsFirstMax(probs, NumClasses - 1) ==>
        PredictFromProbabilities(probs, Some(names)) == Err(IndexError)
    ensures IsFirstMax([0.0, 0.0, 1.0], NumClasses - 1)
  {
    forall probs | |probs| == NumClasses && IsFirstMax(probs, NumClasses - 1)
      ensures FirstMaxIndex(probs) == NumClasses - 1
    {
      FirstMaxUnique(probs, FirstMaxIndex(probs), NumClasses - 1);
    }
  }
}
