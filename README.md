# VolView GTC demo inference server: a verified model of its request logic

This project models, in Dafny, the request-handling logic of the inference
server behind the VolView GTC demo. The model covers five parts of the server:

- **Clara NV-Reason-CXR-3B** (`Clara`): how a chat request, made of a prompt
  and a history of turns, becomes the message list given to the model's chat
  template. Blank turns are dropped. The history is trimmed before the first
  assistant answer. The prompt is appended as a user turn. One image marker
  goes in front of the first message. The history loop is the method
  `ScanHistory`, proved equal to the functions `Filtered` and `ValidIndex`.
  The whole construction is the method `BuildMessages`, proved equal to the
  function `Messages`.
- **MAISI CT generation** (`Maisi`): the MONAI bundle command line with its
  optional overrides, the message raised when the generation process fails,
  and the choice of the generated image among the files written.
  `BuildInferenceCommand` builds the command by appending to it, as the
  worker does.
- **NV-Segment-CTMR MRI segmentation** (`NvSegmentMri`): the merge of the
  pipeline's masks into one `uint8` label volume, done in place on an array
  by `MergeMasks` and `ApplyMask`. It is proved equal to the function
  `Merge`. The module also covers the endpoint's defaults and its
  missing-image check.
- **VISTA-3D / NV-Segment-CT** (`NvSegment`): the `input_dict` literal given
  to the bundle, the path where the bundle leaves its result, and the
  endpoint's checks.
- **Multimodal LLM analysis** (`VolviewInsight`): the 2-D slice region cut
  from a 3-D image, done in place on a `Region` object by `GetImageSlice`,
  and the lookup of the inference routine by model name. The endpoint is
  modelled as the sequence of calls it makes and the outcome it reaches.

Supporting modules:

- `Errors`: `Option`, `Result`, and the Python exception kinds raised.
- `Text`: `str.strip`, `str(int)` and `int(str)`, `str(list)` and
  `str(tuple)` of integers, and `str.find` / `str.rfind`.
- `Paths`: `os.path.join`, `os.path.splitext`, and `glob` with a `*suffix`
  pattern.

Integers are unbounded. The one place where a width matters is the `uint8`
label volume, and there it is modelled explicitly.

## Model

| member | source | states |
|---|---|---|
| Clara.BuildMessages | server/2025_nvidiagtcdc/volview_insight_clara_nv_reason_cxr_3b_inference.py:44-99 | the message construction (image check, defaults, history scan, trim, prompt append, image insertion) returns exactly `Messages(request, hasImage)` |
| Clara.ScanHistory | server/2025_nvidiagtcdc/volview_insight_clara_nv_reason_cxr_3b_inference.py:74-86 | the history loop succeeds iff every non-blank turn has a role, else raises `KeyError('role')`; on success it yields the kept turns as messages and `valid_index` = first answer's history index minus one |
| Clara.ExtendByTurn | server/2025_nvidiagtcdc/volview_insight_clara_nv_reason_cxr_3b_inference.py:77-86 | one more turn appends its message iff it is non-blank and sets `valid_index` only at the first non-blank assistant turn |
| Clara.FirstAnswer | server/2025_nvidiagtcdc/volview_insight_clara_nv_reason_cxr_3b_inference.py:79-82 | the index found is a non-blank assistant turn inside the history |
| Clara.FirstAnswerIsFirst | server/2025_nvidiagtcdc/volview_insight_clara_nv_reason_cxr_3b_inference.py:79-82 | nothing is found iff no turn is a non-blank assistant turn; what is found is preceded by none |
| Clara.TrimIsHistory | server/2025_nvidiagtcdc/volview_insight_clara_nv_reason_cxr_3b_inference.py:89-92 | emptying the list when no answer exists, then slicing from `valid_index` when it is positive and the list non-empty, gives the history part |
| Clara.TrimOffset | server/2025_nvidiagtcdc/volview_insight_clara_nv_reason_cxr_3b_inference.py:81-99 | when the history holds an answer, the built messages without the image marker are the FILTERED list sliced at the first answer's HISTORY index minus one (unsliced when that offset is not positive), then the prompt as a user turn |
| Clara.HistoryIsKeptSuffix | server/2025_nvidiagtcdc/volview_insight_clara_nv_reason_cxr_3b_inference.py:88-92 | the history part is a suffix of the kept messages |
| Clara.FilteredKeepsTurns | server/2025_nvidiagtcdc/volview_insight_clara_nv_reason_cxr_3b_inference.py:76-86 | the kept messages are exactly the non-blank turns, in ascending history order, each with its role and its unstripped text |
| Clara.FilteredTextOnly | server/2025_nvidiagtcdc/volview_insight_clara_nv_reason_cxr_3b_inference.py:83-86 | each kept message holds a single text item |
| Clara.FilteredSplit | server/2025_nvidiagtcdc/volview_insight_clara_nv_reason_cxr_3b_inference.py:76-86 | filtering a history equals filtering its two halves around any split, concatenated |
| Clara.MessagesErrors | server/2025_nvidiagtcdc/volview_insight_clara_nv_reason_cxr_3b_inference.py:44-45 | a missing image raises `ValueError` before anything else; otherwise a non-blank turn without a role raises `KeyError('role')`; success iff neither |
| Clara.DefaultsApply | server/2025_nvidiagtcdc/volview_insight_clara_nv_reason_cxr_3b_inference.py:69-70 | a missing prompt becomes "Find abnormalities and support devices."; a missing history gives the prompt alone, carrying the image |
| Clara.NoAnswerDropsHistory | server/2025_nvidiagtcdc/volview_insight_clara_nv_reason_cxr_3b_inference.py:89-90 | with no non-blank assistant turn, the output is the single user prompt message with the image |
| Clara.MessagesAreKeptSuffixThenPrompt | server/2025_nvidiagtcdc/volview_insight_clara_nv_reason_cxr_3b_inference.py:95 | the output is never empty, ends with the prompt as a user turn, and before it holds the last few kept turns unchanged |
| Clara.SingleImageMarker | server/2025_nvidiagtcdc/volview_insight_clara_nv_reason_cxr_3b_inference.py:99 | exactly one image item is added, at position 0 of the first message whatever its role; every other item is text |
| Clara.ImageRoundTrip | server/2025_nvidiagtcdc/volview_insight_clara_nv_reason_cxr_3b_inference.py:99 | removing the first item of the first message undoes the insertion |
| Clara.BlankReplyDropsQuestion | server/2025_nvidiagtcdc/volview_insight_clara_nv_reason_cxr_3b_inference.py:81-92 | on question, blank reply, question, answer, the code as written drops the second question and puts the image on the assistant turn |
| Clara.StartsAtAnsweredQuestion | server/2025_nvidiagtcdc/volview_insight_clara_nv_reason_cxr_3b_inference.py:91-92 | the corrected trim keeps the last kept turn before the first answer, that answer, and every kept turn after it |
| Clara.AgreesWithoutBlankTurns | server/2025_nvidiagtcdc/volview_insight_clara_nv_reason_cxr_3b_inference.py:81-92 | when no turn before the first answer is blank, the code as written and the corrected trim agree |
| Clara.BlankReplyKeepsQuestionWhenIntended | server/2025_nvidiagtcdc/volview_insight_clara_nv_reason_cxr_3b_inference.py:91-99 | on the same history the corrected trim keeps the answered question and puts the image on it |
| Maisi.BaseCommand | server/2025_nvidiagtcdc/maisi.py:63-68 | the fixed part has 8 arguments, starts with the interpreter and passes `--output_dir=<dir>` |
| Maisi.BuildInferenceCommand | server/2025_nvidiagtcdc/maisi.py:63-86 | the command is the fixed part followed by exactly the overrides for the usable parameters |
| Maisi.OverridesReadBack | server/2025_nvidiagtcdc/maisi.py:76-86 | the anatomy list reaches the bundle iff present and non-empty, size and spacing iff they have exactly 3 items, each with its dumped list; nothing else is appended; order is anatomy, size, spacing |
| Maisi.OnlyUsableOverrides | server/2025_nvidiagtcdc/maisi.py:76-86 | an empty anatomy list and a 2-item spacing are dropped while a 3-item size is written `--output_size=[4, 4, 2]` |
| Maisi.FailureMessageCode | server/2025_nvidiagtcdc/maisi.py:99-105 | the return code can be read back out of the failure message |
| Maisi.FailureMessageLayout | server/2025_nvidiagtcdc/maisi.py:99-105 | the failure message starts with its header, carries stdout and then stderr each right after its banner, and ends with the dashed footer |
| Maisi.PickResultRules | server/2025_nvidiagtcdc/maisi.py:116-130 | no image iff no visible `.nii.gz` entry, then `FileNotFoundError` naming the directory; otherwise the first `*image.nii.gz` entry, or, only when there is none, the first `*.nii.gz` entry |
| Maisi.GenerationOutcomes | server/2025_nvidiagtcdc/maisi.py:90-130 | a failed process raises an exception carrying its return code; a finished one fails only with `FileNotFoundError`, and succeeds iff a `.nii.gz` entry exists |
| NvSegment.InputDictRoundTrip | server/2025_nvidiagtcdc/nv_segment.py:85-89 | for a path without a quote, the `input_dict` literal reads back as the image path and, for a non-empty class list, a `label_prompt` key holding that list; for an empty list it reads back with no `label_prompt` key at all |
| NvSegment.ImageOnlyIffEmpty | server/2025_nvidiagtcdc/nv_segment.py:85-89 | the literal is the image-only `{'image':'<path>'}` exactly when the class list is empty |
| NvSegment.ClassListReadBack | server/2025_nvidiagtcdc/nv_segment.py:85-89 | the text after the image path reads back as the class list when one was asked for, and as no `label_prompt` key when the list is empty |
| NvSegment.ResultPathShape | server/2025_nvidiagtcdc/nv_segment.py:106-110 | for a file `stem + ext` the result is `<root>/eval/<stem>/<stem>_trans.nii.gz` |
| NvSegment.ServerResultPath | server/2025_nvidiagtcdc/nv_segment.py:60 | with the server's constants the result is `bundles/vista3d/eval/input_image/input_image_trans.nii.gz` |
| NvSegment.BundleRootIs | server/2025_nvidiagtcdc/nv_segment.py:77 | the bundle root is `bundles/vista3d` |
| NvSegment.LocateResult | server/2025_nvidiagtcdc/nv_segment.py:111-115 | succeeds with the result path iff it exists, else `FileNotFoundError` naming the path |
| NvSegment.PrepareCtRequest | server/2025_nvidiagtcdc/nv_segment.py:162-172 | fails with `ValueError` iff the cache has no image; a missing class list becomes empty |
| NvSegmentMri.ApplyMask | server/2025_nvidiagtcdc/nv_segment_mri.py:152 | the covered voxels get the label, in place, and no other voxel changes |
| NvSegmentMri.MergeMasks | server/2025_nvidiagtcdc/nv_segment_mri.py:134-152 | the in-place merge loop returns exactly `Merge(shape, output)` |
| NvSegmentMri.MergeStep | server/2025_nvidiagtcdc/nv_segment_mri.py:141-152 | one more result raises its problem only when none came before, and otherwise paints its mask over the volume so far |
| NvSegmentMri.FirstProblemOfPrefix | server/2025_nvidiagtcdc/nv_segment_mri.py:141-148 | the error met first in the loop is the error of the whole merge |
| NvSegmentMri.MergeErrors | server/2025_nvidiagtcdc/nv_segment_mri.py:134-151 | the merge fails iff the output is not a list, is empty, or some result has a wrongly shaped mask or a label above 255; the first two raise `ValueError('Pipeline returned no segmentation results')` |
| NvSegmentMri.NoProblemIff | server/2025_nvidiagtcdc/nv_segment_mri.py:141-151 | no error is raised iff every result passes its shape and label checks |
| NvSegmentMri.LastCover | server/2025_nvidiagtcdc/nv_segment_mri.py:141-152 | the index of the last result covering a voxel lies in the list, or is -1 |
| NvSegmentMri.LastCoverIsLast | server/2025_nvidiagtcdc/nv_segment_mri.py:141-152 | -1 iff no mask covers the voxel; otherwise that result covers it and no later one does |
| NvSegmentMri.MergedVoxel | server/2025_nvidiagtcdc/nv_segment_mri.py:138-152 | each voxel holds `i + 1` for the last result `i` covering it, and 0 when none does |
| NvSegmentMri.LabelsStep | server/2025_nvidiagtcdc/nv_segment_mri.py:151-152 | the last result decides the voxels it covers and leaves the others |
| NvSegmentMri.MergedRange | server/2025_nvidiagtcdc/nv_segment_mri.py:138-152 | the merged volume has the input's size and every voxel is a label from 0 to the number of results, at most 255 |
| NvSegmentMri.SkippedResultKeepsItsLabel | server/2025_nvidiagtcdc/nv_segment_mri.py:141-143 | a result without a mask still uses up its label: the mask after it paints label 2 |
| NvSegmentMri.Labels | server/2025_nvidiagtcdc/nv_segment_mri.py:138 | the label volume has one voxel per position of the input's shape |
| NvSegmentMri.PrepareMriRequest | server/2025_nvidiagtcdc/nv_segment_mri.py:205-231 | fails with `ValueError` iff the cache has no image; a missing class list becomes empty and a missing modality `MRI_BODY` |
| VolviewInsight.GetImageSlice | server/2025_nvidiagtcdc/volview_insight_methods.py:19-56 | returns exactly `SliceOf(img, activeLayer)`, narrowing a `Region` in place |
| VolviewInsight.Region.constructor | server/2025_nvidiagtcdc/volview_insight_methods.py:41 | the region starts as the image's buffered region |
| VolviewInsight.Region.SetSize | server/2025_nvidiagtcdc/volview_insight_methods.py:47 | sets the size and keeps the index |
| VolviewInsight.Region.SetIndex | server/2025_nvidiagtcdc/volview_insight_methods.py:48 | sets the index and keeps the size |
| VolviewInsight.SliceCases | server/2025_nvidiagtcdc/volview_insight_methods.py:33-54 | slicing fails with `RuntimeError` iff the dimension is neither 2 nor 3; a 2-D image comes back unchanged |
| VolviewInsight.ExtractedRegion | server/2025_nvidiagtcdc/volview_insight_methods.py:30-48 | the 3-D region keeps x and y, is one voxel thick, and starts at the active layer, which defaults to 0 |
| VolviewInsight.SliceInsideImage | server/2025_nvidiagtcdc/volview_insight_methods.py:40-48 | the extracted region lies inside the buffered region iff the layer is one of the image's z-slices |
| VolviewInsight.Lookup | server/2025_nvidiagtcdc/volview_insight_methods.py:82-85 | succeeds iff the name is "MedGemma" or "Clara NV-Reason-CXR-3B", else `ValueError` listing the known names |
| VolviewInsight.UnknownModelFetchesNoImage | server/2025_nvidiagtcdc/volview_insight_methods.py:106-113 | an unknown model is rejected before the image is fetched or any inference runs |
| VolviewInsight.InferenceFailureWrapped | server/2025_nvidiagtcdc/volview_insight_methods.py:129-132 | a failed inference is raised again as `RuntimeError` naming the model and carrying the error's text; nothing is stored |
| VolviewInsight.SuccessfulAnalysis | server/2025_nvidiagtcdc/volview_insight_methods.py:96-124 | a successful run fetches the model and input, fetches the image, runs the selected model and stores its response last |
| VolviewInsight.AnalysisOutcome | server/2025_nvidiagtcdc/volview_insight_methods.py:96-132 | the model name and the analysis input are always fetched first; success iff the model is known, the image is 2-D or 3-D, and inference succeeds |
| Paths.Join | server/2025_nvidiagtcdc/nv_segment.py:108-110 | `os.path.join`: an absolute part replaces the path, otherwise the result starts with the first part and ends with the second |
| Paths.SplitExtOf | server/2025_nvidiagtcdc/nv_segment.py:106 | `os.path.splitext` of `stem + ext` gives back the stem and the extension |
| Paths.GlobFirst | server/2025_nvidiagtcdc/maisi.py:116-117 | `glob` finds nothing iff no visible entry ends in the suffix; otherwise it first returns the first such entry |
| Text.Strip | server/2025_nvidiagtcdc/volview_insight_clara_nv_reason_cxr_3b_inference.py:79 | `str.strip()` is empty iff the text is blank, and otherwise starts and ends with a non-whitespace character |
| Text.IntRoundTrip | server/2025_nvidiagtcdc/maisi.py:101 | `str(int)` reads back as the integer |
| Text.IntListRoundTrip | server/2025_nvidiagtcdc/nv_segment.py:86 | `str(list)` of integers reads back as the list |

## Left out

- Model loading and caching, torch and transformers inference, chat templating and decoding: these are foreign library calls.
- Image intensity normalisation to 8 bits and the `mask > 0.5` threshold: this is floating-point work. Masks are modelled as boolean arrays.
- The MONAI bundle download and run, temporary directories, `itk.imread` and `itk.imwrite`, the `rmtree` of the old eval directory, and `os.path.abspath`: these are process and file I/O. The process's outcome and the directory listing are parameters. The existing files are a set of paths.
- The VISTA-3D inference command line: it is a fixed list around `input_dict`, which is modelled.
- The vtk.js conversions, the ITK extraction filter and the process pool: these are foreign or concurrency plumbing. The slice is modelled as the region handed to the filter.
- `ITK` rejecting an active layer outside the image is not modelled. `SliceInsideImage` states when the region fits.
- `GetBufferedRegion` is treated as returning a copy. Aliasing with the image's own region is not modelled.
- `json.dumps` is an abstract parameter `dumps` of the command builder. Only its integer-list case is made concrete, in `OnlyUsableOverrides`.
- Paths.Glob: the listing holds plain entry names, each joined to the directory with `os.path.join`. Wildcard characters inside the directory name, and the order of the listing, are not modelled: the listing's order is a parameter.
- NvSegmentMri.Merge: it assumes NumPy 2, where assigning a label above 255 to a `uint8` array raises `OverflowError`. NumPy 1 would wrap the label instead.
- NvSegmentMri.PrepareMriRequest: the class list and the modality are checked and defaulted, but the merge does not use them. The pipeline call that would receive them is a foreign call.
- Clara.BuildMessages: a request whose `prompt` or `history` key is present with the value `None` is treated as if the key were missing. In the code, an explicit `None` prompt is not replaced by the default prompt but becomes the text of the last message, and an explicit `None` history raises `TypeError` at `len(history)`. The request record has no way to say "present but `None`".
- Clara.ScanHistory: a turn whose `role` or `content` key is present with the value `None` is treated as if the key were missing. In the code, a `None` content makes `.strip()` raise `AttributeError`, where the model reads the text as empty and drops the turn. A `None` role on a non-blank turn is appended as a message with role `None`, where the model raises `KeyError('role')`. The turn record has no way to say "present but `None`".
- NvSegmentMri.Merge: a result whose `mask` key is present with the value `None` is treated as a result without a mask and skipped. In the code, `np.array(None).shape` is `()`, so the shape check raises `ValueError`. The result record has no way to say "present but `None`".
- Maisi.BuildInferenceCommand: a parameter present with the value `None` is treated as a missing key. For `anatomy_list` that matches the code, which skips a falsy value. For `output_size` and `spacing`, the code raises `TypeError` at `len(...)`, and the model does not.
- NvSegment.PrepareCtRequest and NvSegmentMri.PrepareMriRequest: a key given explicitly as `None` is not distinguished from a missing one.
- VolviewInsight.Analyse: a `None` model name and a `None` image are not modelled.
- VolviewInsight.Analyse: a missing analysis input for the image id, which makes the client store raise, is not modelled.
- VolviewInsight.Analyse: storing the result is assumed not to fail, although the code wraps a store failure in the same `RuntimeError`.
- The MedGemma inference routine and the two `api.py` files are not part of this model.

## Findings

| source | as written | input that shows it | evidently intended | confidence | as-written member | corrected member |
|---|---|---|---|---|---|---|
| server/2025_nvidiagtcdc/volview_insight_clara_nv_reason_cxr_3b_inference.py:81-92 | `valid_index = i - 1` is a position in `history`, but `messages[valid_index:]` slices the list of non-blank turns, so each blank turn before the first answer shifts the cut one message later | history `[user "q1", assistant "", user "q2", assistant "a2"]`: the first answer is at index 3, so the filtered list `[q1, q2, a2]` is sliced from 2, which drops `q2` and puts the image on the assistant turn | start at the non-blank turn just before the first answer, counting positions in the filtered list, so the question it answers is kept and carries the image | not executed | Clara.BlankReplyDropsQuestion | Clara.StartsAtAnsweredQuestion |
