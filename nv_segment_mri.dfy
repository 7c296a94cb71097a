/**
 * NV-Segment-CTMR MRI segmentation: the merge of the masks the pipeline
 * returns into one label volume, and the checks of the RPC endpoint.
 *
 * Volumes are flattened: a volume of shape `shape` holds `Volume(shape)`
 * voxels, and voxel `k` of a mask lines up with voxel `k` of the input.
 */
module NvSegmentMri {
  import opened Errors
  import Text

  /** The largest value a `uint8` voxel can hold. */
  const MaxLabel := 255

  const NoResultsMessage := "Pipeline returned no segmentation results"

  /** A binary mask (the pipeline's mask after `mask > 0.5`). */
  datatype Mask = Mask(shape: seq<nat>, covers: seq<bool>)

  /** One result of the pipeline: a dictionary that may lack `mask`. */
  datatype Segment = Segment(mask: Option<Mask>)

  /** What the pipeline call returned. */
  datatype PipelineOutput = NotAList | Results(items: seq<Segment>)

  function Volume(shape: seq<nat>): nat {
    if shape == [] then 1 else shape[0] * Volume(shape[1..])
  }

  /** A mask holds one voxel per position of its shape, as an array does. */
  predicate WellFormed(m: Mask) {
    |m.covers| == Volume(m.shape)
  }

  predicate AllWellFormed(items: seq<Segment>) {
    forall i :: 0 <= i < |items| && items[i].mask.Some? ==> WellFormed(items[i].mask.value)
  }

  /** Result `i` has a mask covering voxel `k`. */
  predicate Covers(s: Segment, k: int) {
    s.mask.Some? && 0 <= k < |s.mask.value.covers| && s.mask.value.covers[k]
  }

  function MismatchMessage(maskShape: seq<nat>, inputShape: seq<nat>): string {
    "Mask shape " + Text.IntTupleText(maskShape) + " does not match input shape " + Text.IntTupleText(inputShape)
  }

  function OverflowMessage(labelId: nat): string {
    "Python integer " + Text.NatToString(labelId) + " out of bounds for uint8"
  }

  /** What goes wrong with result `i`, if anything: a mask of the wrong
      shape, or a label too large for the `uint8` volume. A result without
      a mask is skipped before either check. */
  function Problem(shape: seq<nat>, s: Segment, i: nat): Option<Exception> {
    if s.mask.None? then None
    else if s.mask.value.shape != shape then Some(ValueError(MismatchMessage(s.mask.value.shape, shape)))
    else if i + 1 > MaxLabel then Some(OverflowError(OverflowMessage(i + 1)))
    else None
  }

  /** The problem of the earliest result that has one. */
  function FirstProblem(shape: seq<nat>, items: seq<Segment>): Option<Exception> {
    if items == [] then None
    else
      var n := |items| - 1;
      var before := FirstProblem(shape, items[..n]);
      if before.Some? then before else Problem(shape, items[n], n)
  }

  /** `v` with `labelId` written over every voxel `covers` marks. */
  function Paint(v: seq<int>, covers: seq<bool>, labelId: int): (r: seq<int>)
    ensures |r| == |v|
  {
    seq(|v|, k requires 0 <= k < |v| => if k < |covers| && covers[k] then labelId else v[k])
  }

  /** The label volume after results `items` have written their labels in
      order over an all-zero volume of shape `shape`. */
  function Labels(shape: seq<nat>, items: seq<Segment>): (r: seq<int>)
    ensures |r| == Volume(shape)
  {
    if items == [] then seq(Volume(shape), _ => 0)
    else
      var n := |items| - 1;
      var before := Labels(shape, items[..n]);
      if items[n].mask.Some? then Paint(before, items[n].mask.value.covers, n + 1) else before
  }

  /** The label volume the merge produces, or the error it raises. */
  function Merge(shape: seq<nat>, output: PipelineOutput): Result<seq<int>> {
    if output.NotAList? || output.items == [] then Failure(ValueError(NoResultsMessage))
    else
      match FirstProblem(shape, output.items)
      case Some(e) => Failure(e)
      case None => Success(Labels(shape, output.items))
  }

  // ---------------------------------------------------------------------------
  // The merge loop

  /** `segmentation[mask] = labelId`: writes `labelId` over the voxels the mask
      covers, in place. */
  method ApplyMask(segmentation: array<int>, covers: seq<bool>, labelId: int)
    requires |covers| == segmentation.Length
    modifies segmentation
    ensures segmentation[..] == Paint(old(segmentation[..]), covers, labelId)
  {
    for k := 0 to segmentation.Length
      invariant forall j :: 0 <= j < k ==> segmentation[j] == (if covers[j] then labelId else old(segmentation[j]))
      invariant forall j :: k <= j < segmentation.Length ==> segmentation[j] == old(segmentation[j])
    {
      if covers[k] {
        segmentation[k] := labelId;
      }
    }
  }

  /** A problem found in a prefix of the results is the first problem of
      them all. */
  lemma {:induction false} FirstProblemOfPrefix(shape: seq<nat>, items: seq<Segment>, m: nat)
    requires m <= |items| && FirstProblem(shape, items[..m]).Some?
    ensures FirstProblem(shape, items) == FirstProblem(shape, items[..m])
    decreases |items| - m
  {
    if m < |items| {
      var n := |items| - 1;
      assert items[..n][..m] == items[..m];
      FirstProblemOfPrefix(shape, items[..n], m);
    } else {
      assert items[..m] == items;
    }
  }

  /** Taking one more result: its problem counts only when the results
      before it had none, and its mask paints over what they made. */
  lemma MergeStep(shape: seq<nat>, items: seq<Segment>, i: nat)
    requires i < |items|
    ensures FirstProblem(shape, items[..i + 1]) ==
      if FirstProblem(shape, items[..i]).Some? then FirstProblem(shape, items[..i]) else Problem(shape, items[i], i)
    ensures Labels(shape, items[..i + 1]) ==
      if items[i].mask.Some? then Paint(Labels(shape, items[..i]), items[i].mask.value.covers, i + 1)
      else Labels(shape, items[..i])
  {
    assert items[..i + 1][..i] == items[..i];
  }

  /** Merges the pipeline's results into a fresh label volume the shape of
      the input, one result at a time. */
  method MergeMasks(shape: seq<nat>, output: PipelineOutput) returns (r: Result<seq<int>>)
    requires output.Results? ==> AllWellFormed(output.items)
    ensures r == Merge(shape, output)
  {
    if output.NotAList? || |output.items| == 0 {
      return Failure(ValueError(NoResultsMessage));
    }
    var items := output.items;
    var segmentation := new int[Volume(shape)](_ => 0);
    assert segmentation[..] == Labels(shape, items[..0]);
    for i := 0 to |items|
      invariant FirstProblem(shape, items[..i]) == None
      invariant segmentation[..] == Labels(shape, items[..i])
    {
      MergeStep(shape, items, i);
      var result := items[i];
      if result.mask.None? {
        continue;
      }
      var mask := result.mask.value;
      if mask.shape != shape {
        FirstProblemOfPrefix(shape, items, i + 1);
        return Failure(ValueError(MismatchMessage(mask.shape, shape)));
      }
      var labelId := i + 1;
      if labelId > MaxLabel {
        FirstProblemOfPrefix(shape, items, i + 1);
        return Failure(OverflowError(OverflowMessage(labelId)));
      }
      ApplyMask(segmentation, mask.covers, labelId);
    }
    assert items[..|items|] == items;
    return Success(segmentation[..]);
  }

  // ---------------------------------------------------------------------------
  // What the merge promises

  /** No result has a problem exactly when each one passes its checks. */
  lemma {:induction false} NoProblemIff(shape: seq<nat>, items: seq<Segment>)
    ensures FirstProblem(shape, items) == None <==>
      forall i :: 0 <= i < |items| ==> Problem(shape, items[i], i) == None
  {
    if items != [] {
      var n := |items| - 1;
      var before := items[..n];
      NoProblemIff(shape, before);
      assert FirstProblem(shape, items) == None <==>
        FirstProblem(shape, before) == None && Problem(shape, items[n], n) == None;
      assert (forall i :: 0 <= i < |items| ==> Problem(shape, items[i], i) == None) <==>
        (forall i :: 0 <= i < n ==> Problem(shape, before[i], i) == None) && Problem(shape, items[n], n) == None
      by {
        assert forall i :: 0 <= i < n ==> before[i] == items[i];
      }
    }
  }

  /** The position of the last result whose mask covers voxel `k`, or -1. */
  function LastCover(items: seq<Segment>, k: int): (r: int)
    ensures -1 <= r < |items|
  {
    if items == [] then -1
    else if Covers(items[|items| - 1], k) then |items| - 1
    else LastCover(items[..|items| - 1], k)
  }

  /** `LastCover` is -1 exactly when no mask covers the voxel, and otherwise
      a result covering it after which none does. */
  lemma {:induction false} LastCoverIsLast(items: seq<Segment>, k: int)
    ensures LastCover(items, k) == -1 <==> forall i :: 0 <= i < |items| ==> !Covers(items[i], k)
    ensures LastCover(items, k) >= 0 ==>
      Covers(items[LastCover(items, k)], k) &&
      forall j :: LastCover(items, k) < j < |items| ==> !Covers(items[j], k)
  {
    if items != [] {
      var n := |items| - 1;
      if !Covers(items[n], k) {
        LastCoverIsLast(items[..n], k);
        assert forall i :: 0 <= i < n ==> items[..n][i] == items[i];
      }
    }
  }

  /** The last result decides a voxel it covers and leaves the others as
      the results before it made them. */
  lemma LabelsStep(shape: seq<nat>, items: seq<Segment>, k: int)
    requires items != [] && 0 <= k < Volume(shape)
    ensures Labels(shape, items)[k] ==
      if Covers(items[|items| - 1], k) then |items| else Labels(shape, items[..|items| - 1])[k]
  {
  }

  /** Voxel `k` of the merged volume holds label `i + 1` of the last result
      `i` whose mask covers it, and 0 when no mask does: later masks
      overwrite earlier ones, and labels follow the results' positions,
      counting those without a mask. */
  lemma {:induction false} MergedVoxel(shape: seq<nat>, items: seq<Segment>, k: int)
    requires 0 <= k < Volume(shape)
    ensures Labels(shape, items)[k] == LastCover(items, k) + 1
  {
    if items != [] {
      var n := |items| - 1;
      LabelsStep(shape, items, k);
      if !Covers(items[n], k) {
        MergedVoxel(shape, items[..n], k);
      }
    }
  }

  /** Every voxel of a merged volume is a label from 0 to the number of
      results, which fits in `uint8`. */
  lemma MergedRange(shape: seq<nat>, output: PipelineOutput)
    requires Merge(shape, output).Success?
    ensures |Merge(shape, output).value| == Volume(shape)
    ensures forall k :: 0 <= k < Volume(shape) ==>
      0 <= Merge(shape, output).value[k] <= |output.items| && Merge(shape, output).value[k] <= MaxLabel
  {
    var items := output.items;
    NoProblemIff(shape, items);
    forall k | 0 <= k < Volume(shape)
      ensures 0 <= Labels(shape, items)[k] <= |items| && Labels(shape, items)[k] <= MaxLabel
    {
      MergedVoxel(shape, items, k);
      LastCoverIsLast(items, k);
      var i := LastCover(items, k);
      if i >= 0 {
        assert Problem(shape, items[i], i) == None;
      }
    }
  }

  /** The merge fails exactly when the pipeline gave no list, an empty
      list, or a result whose mask has the wrong shape or whose label does
      not fit in `uint8`. */
  lemma MergeErrors(shape: seq<nat>, output: PipelineOutput)
    ensures Merge(shape, output).Failure? <==>
      output.NotAList? || output.items == [] ||
      exists i :: 0 <= i < |output.items| && Problem(shape, output.items[i], i).Some?
    ensures (output.NotAList? || output.items == []) ==>
      Merge(shape, output) == Failure(ValueError(NoResultsMessage))
  {
    if output.Results? {
      NoProblemIff(shape, output.items);
    }
  }

  /** A result without a mask still uses up label 1: of two voxels, both
      covered by the mask of the second result, both get label 2. */
  lemma SkippedResultKeepsItsLabel()
    ensures Merge([2], Results([Segment(None), Segment(Some(Mask([2], [true, true])))])) == Success([2, 2])
  {
    var items := [Segment(None), Segment(Some(Mask([2], [true, true])))];
    assert Volume([2]) == 2;
    assert items[..1] == [Segment(None)];
    assert items[..1][..0] == [];
    assert Labels([2], items[..1]) == Labels([2], []) == [0, 0];
    assert FirstProblem([2], items[..1]) == None;
    assert Problem([2], items[1], 1) == None;
    assert FirstProblem([2], items) == None;
    assert Labels([2], items) == Paint([0, 0], [true, true], 2) == [2, 2];
  }

  // ---------------------------------------------------------------------------
  // The endpoint

  const DefaultModality := "MRI_BODY"

  /** The arguments the segmentation runs with. */
  datatype MriRequest<Image> = MriRequest(image: Image, labelPrompt: seq<int>, modality: string)

  /** Defaults the class list to empty and the modality to `MRI_BODY`,
      and rejects an image id the image cache does not know; `cached` is
      what the cache returned for `imgId`. */
  function PrepareMriRequest<Image>(imgId: string, labelPrompt: Option<seq<int>>, modality: Option<string>,
                                    cached: Option<Image>): (r: Result<MriRequest<Image>>)
    ensures r.Failure? <==> cached.None?
    ensures r.Failure? ==> r.error == ValueError("No image found for ID: " + imgId)
    ensures r.Success? ==> r.value.image == cached.value
    ensures r.Success? ==> r.value.labelPrompt == if labelPrompt.None? then [] else labelPrompt.value
    ensures r.Success? ==> r.value.modality == if modality.None? then DefaultModality else modality.value
  {
    var classes := if labelPrompt.None? then [] else labelPrompt.value;
    match cached
    case None => Failure(ValueError("No image found for ID: " + imgId))
    case Some(image) => Success(MriRequest(image, classes, modality.GetOr(DefaultModality)))
  }
}
