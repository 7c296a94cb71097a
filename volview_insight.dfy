/**
 * The multimodal LLM analysis endpoint: the choice of the 2-D slice handed
 * to the model, and the lookup of the inference routine by model name.
 */
module VolviewInsight {
  import opened Errors

  // ---------------------------------------------------------------------------
  // Slice extraction

  /** An image region: the start index and the size along each axis. */
  class Region {
    var index: seq<int>
    var size: seq<nat>

    constructor (index: seq<int>, size: seq<nat>)
      ensures this.index == index && this.size == size
    {
      this.index := index;
      this.size := size;
    }

    method SetSize(size: seq<nat>)
      modifies this
      ensures this.size == size && index == old(index)
    {
      this.size := size;
    }

    method SetIndex(index: seq<int>)
      modifies this
      ensures this.index == index && size == old(size)
    {
      this.index := index;
    }
  }

  /** An image, as far as slicing sees it: its dimension and its buffered
      region. */
  datatype Image = Image(dimension: nat, index: seq<int>, size: seq<nat>)

  /** The region of an image has one entry per axis. */
  predicate WellFormed(img: Image) {
    |img.index| == img.dimension && |img.size| == img.dimension
  }

  /** What slicing gives the model: the image itself, or the region the
      extraction filter is told to extract. */
  datatype Slice = Whole(image: Image) | Extracted(index: seq<int>, size: seq<nat>)

  const InvalidDimensionMessage := "Input image has an invalid dimension"

  /** The slice of `img` at `activeLayer` (layer 0 when none is given). */
  function SliceOf(img: Image, activeLayer: Option<int>): Result<Slice>
    requires WellFormed(img)
  {
    var layer := activeLayer.GetOr(0);
    if img.dimension == 2 then Success(Whole(img))
    else if img.dimension == 3 then Success(Extracted(img.index[2 := layer], img.size[2 := 1]))
    else Failure(RuntimeError(InvalidDimensionMessage))
  }

  /** Returns a 2-D image unchanged and, for a 3-D image, the buffered
      region narrowed to the one z-slice `activeLayer`. */
  method GetImageSlice(img: Image, activeLayer: Option<int>) returns (r: Result<Slice>)
    requires WellFormed(img)
    ensures r == SliceOf(img, activeLayer)
  {
    var layer := if activeLayer.None? then 0 else activeLayer.value;
    if img.dimension == 2 {
      r := Success(Whole(img));
    } else if img.dimension == 3 {
      var region := new Region(img.index, img.size);
      var size := region.size;
      size := size[2 := 1];
      var start := region.index;
      start := start[2 := layer];
      region.SetSize(size);
      region.SetIndex(start);
      r := Success(Extracted(region.index, region.size));
    } else {
      r := Failure(RuntimeError(InvalidDimensionMessage));
    }
  }

  /** Slicing fails exactly for an image that is neither 2-D nor 3-D; a
      2-D image comes back unchanged. */
  lemma SliceCases(img: Image, activeLayer: Option<int>)
    requires WellFormed(img)
    ensures SliceOf(img, activeLayer).Failure? <==> img.dimension != 2 && img.dimension != 3
    ensures SliceOf(img, activeLayer).Failure? ==>
      SliceOf(img, activeLayer).error == RuntimeError(InvalidDimensionMessage)
    ensures img.dimension == 2 ==> SliceOf(img, activeLayer) == Success(Whole(img))
  {
  }

  /** The region extracted from a 3-D image agrees with the buffered region
      on x and y, is one voxel thick, and starts at the active layer, which
      defaults to 0. */
  lemma ExtractedRegion(img: Image, activeLayer: Option<int>)
    requires WellFormed(img) && img.dimension == 3
    ensures SliceOf(img, activeLayer).Success? && SliceOf(img, activeLayer).value.Extracted?
    ensures var s := SliceOf(img, activeLayer).value;
      && |s.index| == 3 && |s.size| == 3
      && s.index[0] == img.index[0] && s.index[1] == img.index[1]
      && s.size[0] == img.size[0] && s.size[1] == img.size[1]
      && s.size[2] == 1
      && s.index[2] == (if activeLayer.None? then 0 else activeLayer.value)
  {
  }

  /** Region `inner` lies inside region `outer`, axis by axis. */
  predicate Inside(innerIndex: seq<int>, innerSize: seq<nat>, outerIndex: seq<int>, outerSize: seq<nat>)
    requires |innerIndex| == |innerSize| == |outerIndex| == |outerSize|
  {
    forall a :: 0 <= a < |innerIndex| ==>
      outerIndex[a] <= innerIndex[a] && innerIndex[a] + innerSize[a] <= outerIndex[a] + outerSize[a]
  }

  /** The extracted slice lies inside the image's buffered region exactly
      when the active layer is one of the image's z-slices. */
  lemma SliceInsideImage(img: Image, activeLayer: Option<int>)
    requires WellFormed(img) && img.dimension == 3
    ensures var s := SliceOf(img, activeLayer).value;
      var layer := if activeLayer.None? then 0 else activeLayer.value;
      s.Extracted? && |s.index| == |s.size| == 3 &&
      (Inside(s.index, s.size, img.index, img.size) <==>
       img.index[2] <= layer < img.index[2] + img.size[2])
  {
    var s := SliceOf(img, activeLayer).value;
    var layer := if activeLayer.None? then 0 else activeLayer.value;
    if img.index[2] <= layer < img.index[2] + img.size[2] {
      forall a | 0 <= a < 3
        ensures img.index[a] <= s.index[a] && s.index[a] + s.size[a] <= img.index[a] + img.size[a]
      {
        if a < 2 {
          assert s.index[a] == img.index[a] && s.size[a] == img.size[a];
        }
      }
    }
    if Inside(s.index, s.size, img.index, img.size) {
      assert img.index[2] <= s.index[2] && s.index[2] + s.size[2] <= img.index[2] + img.size[2];
    }
  }

  // ---------------------------------------------------------------------------
  // Model dispatch

  /** The inference routines the server can run. */
  datatype Model = MedGemma | ClaraCxr

  /** The dispatch table, by the model name the client selects. */
  const Dispatch: map<string, Model> := map["MedGemma" := MedGemma, "Clara NV-Reason-CXR-3B" := ClaraCxr]

  /** The table's keys as Python prints the list of them. */
  const AvailableModelsText := "['MedGemma', 'Clara NV-Reason-CXR-3B']"

  function UnknownModelMessage(selected: string): string {
    "Unknown model specified: '" + selected + "'. Available models: " + AvailableModelsText
  }

  /** The inference routine for the selected model name. */
  function Lookup(selected: string): (r: Result<Model>)
    ensures r.Success? <==> selected == "MedGemma" || selected == "Clara NV-Reason-CXR-3B"
    ensures r.Success? ==> r.value == Dispatch[selected]
    ensures r.Failure? ==> r.error == ValueError(UnknownModelMessage(selected))
  {
    if selected in Dispatch then Success(Dispatch[selected])
    else Failure(ValueError(UnknownModelMessage(selected)))
  }

  // ---------------------------------------------------------------------------
  // The analysis endpoint

  /** The calls the endpoint makes to the client's stores and to the
      process pool, in order. */
  datatype Effect =
    | FetchSelectedModel
    | FetchAnalysisInput
    | FetchImage
    | RunInference(model: Model)
    | StoreResult(response: string)

  /** The endpoint's calls, and the response it stored or the error it
      raised. */
  datatype Analysis = Analysis(effects: seq<Effect>, outcome: Result<string>)

  /** `str(e)` of an exception: a `KeyError` prints its key quoted. */
  function ExceptionText(e: Exception): string {
    if e.KeyError? then "'" + e.message + "'" else e.message
  }

  function InferenceErrorMessage(selected: string, e: Exception): string {
    "Unexpected error during " + selected + " inference: " + ExceptionText(e)
  }

  /** One run of the endpoint: `selected` is the model name the client's
      store holds, `img` the image its cache returns, and `inference` the
      response of the inference routine or the exception it raised. The
      selected model and the analysis input are fetched first; the image is
      fetched only for a known model; only a failure of the inference or of
      storing its result is wrapped in a `RuntimeError`. */
  function Analyse(selected: string, img: Image, activeLayer: Option<int>, inference: Result<string>): Analysis
    requires WellFormed(img)
  {
    var fetched := [FetchSelectedModel, FetchAnalysisInput];
    match Lookup(selected)
    case Failure(e) => Analysis(fetched, Failure(e))
    case Success(m) =>
      match SliceOf(img, activeLayer)
      case Failure(e) => Analysis(fetched + [FetchImage], Failure(e))
      case Success(_) =>
        var ran := fetched + [FetchImage, RunInference(m)];
        match inference
        case Failure(e) => Analysis(ran, Failure(RuntimeError(InferenceErrorMessage(selected, e))))
        case Success(response) => Analysis(ran + [StoreResult(response)], Success(response))
  }

  /** An unknown model name is rejected with the list of known ones before
      any image is fetched or any inference runs. */
  lemma UnknownModelFetchesNoImage(selected: string, img: Image, activeLayer: Option<int>, inference: Result<string>)
    requires WellFormed(img)
    requires selected !in Dispatch
    ensures var a := Analyse(selected, img, activeLayer, inference);
      && a.outcome == Failure(ValueError(UnknownModelMessage(selected)))
      && FetchImage !in a.effects
      && forall k :: 0 <= k < |a.effects| ==> !a.effects[k].RunInference?
  {
  }

  /** A failed inference is raised again as a `RuntimeError` that names the
      selected model and carries the original error's text; nothing is
      stored. */
  lemma InferenceFailureWrapped(selected: string, img: Image, activeLayer: Option<int>, e: Exception)
    requires WellFormed(img)
    requires selected in Dispatch && (img.dimension == 2 || img.dimension == 3)
    ensures var a := Analyse(selected, img, activeLayer, Failure(e));
      && a.outcome == Failure(RuntimeError(InferenceErrorMessage(selected, e)))
      && a.effects[|a.effects| - 1] == RunInference(Dispatch[selected])
      && forall k :: 0 <= k < |a.effects| ==> !a.effects[k].StoreResult?
  {
  }

  /** A successful run fetches, runs the selected model on the slice, and
      stores the model's response last. */
  lemma SuccessfulAnalysis(selected: string, img: Image, activeLayer: Option<int>, response: string)
    requires WellFormed(img)
    requires selected in Dispatch && (img.dimension == 2 || img.dimension == 3)
    ensures Analyse(selected, img, activeLayer, Success(response)) ==
      Analysis([FetchSelectedModel, FetchAnalysisInput, FetchImage, RunInference(Dispatch[selected]),
                StoreResult(response)], Success(response))
  {
  }

  /** The analysis succeeds exactly when the model is known, the image is
      2-D or 3-D, and the inference succeeds; whatever happens, the
      selected model and the analysis input are fetched first. */
  lemma AnalysisOutcome(selected: string, img: Image, activeLayer: Option<int>, inference: Result<string>)
    requires WellFormed(img)
    ensures var a := Analyse(selected, img, activeLayer, inference);
      && |a.effects| >= 2 && a.effects[..2] == [FetchSelectedModel, FetchAnalysisInput]
      && (a.outcome.Success? <==>
          selected in Dispatch && (img.dimension == 2 || img.dimension == 3) && inference.Success?)
  {
  }
}
