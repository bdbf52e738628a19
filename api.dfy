/** The serving side of the ticket classifier: the model slot filled once at
    startup (left empty if loading fails), the welcome and health endpoints,
    and the prediction endpoint, which refuses with 503 while no model is
    loaded and otherwise returns the classifier's per-label scores rounded to
    four decimals and stably sorted by descending confidence. */
module Api {
  import opened Wrappers
  import StableSort
  import Rounding

  /** One entry of the pipeline's answer for a text: a label and its score. */
  datatype RawScore = RawScore(category: string, score: real)

  /** The loaded text-classification pipeline (all scores requested), applied
      to one text: the score list that `classifier(text)[0]` selects. */
  type Classifier = string -> seq<RawScore>

  /** The model slot: a loaded classifier, or empty (`None`) after a failed load. */
  datatype ModelState = Ready(classify: Classifier) | Failed

  /** What the pipeline construction at startup did: returned a classifier, or raised. */
  datatype LoadAttempt = Loaded(pipeline: Classifier) | Raised(reason: string)

  /** An output prediction; `confidence` counts ten-thousandths. */
  datatype Prediction = Prediction(category: string, confidence: int)

  datatype Health = Health(status: string, modelLoaded: bool)

  datatype HttpError = HttpError(statusCode: int, detail: string)

  const WelcomeMessage: string := "Welcome to the Support Ticket Classifier API!"

  const Unavailable: HttpError := HttpError(503, "Model is not available.")

  function Confidence(p: Prediction): int {
    p.confidence
  }

  function LabelsOf(ps: seq<Prediction>): (ls: seq<string>)
    ensures |ls| == |ps|
  {
    seq(|ps|, i requires 0 <= i < |ps| => ps[i].category)
  }

  /** The classifier's labels, in its order. `RawScore` and `Prediction` are
      different records, so each has its own projection. */
  function RawLabels(raw: seq<RawScore>): (ls: seq<string>)
    ensures |ls| == |raw|
  {
    seq(|raw|, i requires 0 <= i < |raw| => raw[i].category)
  }

  /** The list comprehension: one prediction per raw entry, same label, the
      score rounded to four decimals. */
  function Format(raw: seq<RawScore>): (ps: seq<Prediction>)
    ensures |ps| == |raw| && LabelsOf(ps) == RawLabels(raw)
    ensures forall i :: 0 <= i < |ps| ==>
      -0.5 <= ps[i].confidence as real - raw[i].score * Rounding.Scale as real <= 0.5
  {
    seq(|raw|, i requires 0 <= i < |raw| => Prediction(raw[i].category, Rounding.Round4(raw[i].score)))
  }

  /** What the endpoint promises about its answer: the formatted predictions,
      rearranged, in non-increasing confidence, equal confidences in the
      classifier's order. */
  ghost predicate IsRanking(raw: seq<RawScore>, out: seq<Prediction>) {
    && multiset(out) == multiset(Format(raw))
    && StableSort.SortedDesc(out, Confidence)
    && StableSort.SameOrderPerKey(out, Format(raw), Confidence)
  }

  /** The API process: `classifier` is assigned once, when the module loads. */
  class Service {
    const classifier: ModelState

    /** Startup: a load that raises is caught, and the slot stays empty. */
    constructor (attempt: LoadAttempt)
      ensures attempt.Loaded? ==> classifier == Ready(attempt.pipeline)
      ensures attempt.Raised? ==> classifier == Failed
    {
      match attempt
      case Loaded(pipeline) =>
        classifier := Ready(pipeline);
      case Raised(_) =>
        classifier := Failed;
    }

    /** GET /: the same message whatever the model slot holds. */
    function ReadRoot(): (message: string)
      ensures message == WelcomeMessage
    {
      WelcomeMessage
    }

    /** GET /health: "ok" exactly when a model is loaded, and that same fact as a flag. */
    function HealthCheck(): (h: Health)
      ensures h.modelLoaded <==> classifier.Ready?
      ensures h.status == "ok" <==> classifier.Ready?
      ensures h.status == "ok" || h.status == "error"
    {
      Health(if classifier.Ready? then "ok" else "error", classifier.Ready?)
    }

    /** POST /predict. Without a model: 503, and the classifier is not consulted.
        With one: the ranking of the classifier's scores for `text`. */
    method PredictTicket(text: string) returns (r: Result<seq<Prediction>, HttpError>)
      ensures classifier.Failed? ==> r == Err(Unavailable)
      ensures classifier.Ready? ==> r.Ok? && IsRanking(classifier.classify(text), r.value)
      ensures classifier.Ready? ==> r.Ok? && r.value == StableSort.Sort(Format(classifier.classify(text)), Confidence)
    {
      if classifier.Failed? {
        return Err(Unavailable);
      }
      var raw := classifier.classify(text);
      var formatted := Format(raw);
      var a := new Prediction[|formatted|](i requires 0 <= i < |formatted| => formatted[i]);
      assert a[..] == formatted;
      StableSort.SortInPlace(a, Confidence);
      StableSort.SortIsStableSortedPermutation(formatted, Confidence);
      r := Ok(a[..]);
    }
  }

  /** The answer has one prediction per raw entry, and its labels are the raw
      labels rearranged. */
  lemma RankingPermutesLabels(raw: seq<RawScore>, out: seq<Prediction>)
    requires IsRanking(raw, out)
    ensures |out| == |raw|
    ensures multiset(LabelsOf(out)) == multiset(RawLabels(raw))
  {
    assert |multiset(out)| == |multiset(Format(raw))|;
    LabelsPermute(out, Format(raw));
  }

  lemma LabelsOfAppend(a: seq<Prediction>, b: seq<Prediction>)
    ensures LabelsOf(a + b) == LabelsOf(a) + LabelsOf(b)
  {
  }

  lemma MultisetWithout<T>(t: seq<T>, p: nat)
    requires p < |t|
    ensures multiset(t[..p] + t[p + 1..]) == multiset(t) - multiset{t[p]}
  {
    assert t == t[..p] + [t[p]] + t[p + 1..];
  }

  lemma IndexOf<T>(t: seq<T>, x: T) returns (p: nat)
    requires x in multiset(t)
    ensures p < |t| && t[p] == x
  {
    assert x in t;
    p :| 0 <= p < |t| && t[p] == x;
  }

  /** Taking out the element at `p` takes its label out of the labels. */
  lemma LabelsWithout(t: seq<Prediction>, p: nat)
    requires p < |t|
    ensures multiset(LabelsOf(t)) == multiset(LabelsOf(t[..p] + t[p + 1..])) + multiset{t[p].category}
  {
    assert t == t[..p] + ([t[p]] + t[p + 1..]);
    LabelsOfAppend(t[..p], [t[p]] + t[p + 1..]);
    LabelsOfAppend([t[p]], t[p + 1..]);
    LabelsOfAppend(t[..p], t[p + 1..]);
  }

  lemma {:induction false} LabelsPermute(s: seq<Prediction>, t: seq<Prediction>)
    requires multiset(s) == multiset(t)
    ensures multiset(LabelsOf(s)) == multiset(LabelsOf(t))
    decreases |s|
  {
    if s == [] {
      assert |multiset(t)| == 0;
    } else {
      var last := |s| - 1;
      var p := IndexOf(t, s[last]);
      var s', t' := s[..last] + s[last + 1..], t[..p] + t[p + 1..];
      MultisetWithout(s, last);
      MultisetWithout(t, p);
      LabelsPermute(s', t');
      LabelsWithout(s, last);
      LabelsWithout(t, p);
    }
  }

  /** When the classifier names each label once, every output confidence is
      the rounded score the classifier gave that label. */
  lemma RankingKeepsEachLabelsScore(raw: seq<RawScore>, out: seq<Prediction>)
    requires IsRanking(raw, out)
    requires NoDuplicates(RawLabels(raw))
    ensures forall i, j :: 0 <= i < |out| && 0 <= j < |raw| && out[i].category == raw[j].category ==>
      out[i].confidence == Rounding.Round4(raw[j].score)
  {
    var formatted := Format(raw);
    forall i, j | 0 <= i < |out| && 0 <= j < |raw| && out[i].category == raw[j].category
      ensures out[i].confidence == Rounding.Round4(raw[j].score)
    {
      assert out[i] in multiset(formatted);
      var m :| 0 <= m < |formatted| && formatted[m] == out[i];
      assert RawLabels(raw)[m] == RawLabels(raw)[j];
    }
  }

  /** The endpoint's order is the only one with these properties, so it is
      what Python's own stable sort produces. */
  lemma RankingIsUnique(raw: seq<RawScore>, out: seq<Prediction>)
    requires IsRanking(raw, out)
    ensures out == StableSort.Sort(Format(raw), Confidence)
  {
    StableSort.SortIsUnique(Format(raw), out, Confidence);
  }

  /** Probabilities in [0, 1] give confidences between 0 and 10000 ten-thousandths. */
  lemma RankingConfidencesInRange(raw: seq<RawScore>, out: seq<Prediction>)
    requires IsRanking(raw, out)
    requires forall j :: 0 <= j < |raw| ==> 0.0 <= raw[j].score <= 1.0
    ensures forall i :: 0 <= i < |out| ==> 0 <= out[i].confidence <= Rounding.Scale
  {
    var formatted := Format(raw);
    forall i | 0 <= i < |out| ensures 0 <= out[i].confidence <= Rounding.Scale {
      assert out[i] in multiset(formatted);
      var m :| 0 <= m < |formatted| && formatted[m] == out[i];
      Rounding.Round4InUnitRange(raw[m].score);
    }
  }
}
