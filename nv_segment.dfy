/**
 * VISTA-3D (NV-Segment-CT) segmentation: the `input_dict` argument handed
 * to the MONAI bundle, the path where the bundle leaves its result, and the
 * checks of the RPC endpoint.
 */
module NvSegment {
  import opened Errors
  import Text
  import Paths

  const BundleDir := "bundles/"
  const BundleName := "vista3d"
  const InputFilename := "input_image.nrrd"
  const ResultSuffix := "_trans.nii.gz"

  /** The directory the bundle runs in. */
  function BundleRoot(): string {
    Paths.Join(BundleDir, BundleName)
  }

  // ---------------------------------------------------------------------------
  // input_dict

  const DictHead := "{'image':'"
  const PromptKey := "','label_prompt':"
  const DictEnd := "'}"

  /** The dictionary literal naming the image and, when classes were asked
      for, the class list (written as Python prints a list). */
  function InputDict(imagePath: string, labelPrompt: seq<int>): string {
    DictHead + (imagePath + DictTail(labelPrompt))
  }

  /** What follows the image path: the class list when there is one, then
      the closing brace. */
  function DictTail(labelPrompt: seq<int>): string {
    if |labelPrompt| > 0 then PromptKey + (Text.IntListText(labelPrompt) + "}") else DictEnd
  }

  /** Reads back exactly the `input_dict` literals `InputDict` writes (it is
      not a general Python literal reader): the image path runs up to the next
      quote, then comes either the end of the dictionary or the class list. The class list is `None` when the
      dictionary has no `label_prompt` key. */
  function ParseInputDict(s: string): Option<(string, Option<seq<int>>)> {
    if !Text.StartsWith(s, DictHead) then None
    else
      var rest := s[|DictHead|..];
      var q := Text.IndexOf(rest, '\'');
      if q < 0 then None
      else
        match ParseTail(rest[q..])
        case Some(l) => Some((rest[..q], l))
        case None => None
  }

  /** Reads what follows the image path: the end of the dictionary (no
      `label_prompt` key), or the class list and then the end. */
  function ParseTail(after: string): Option<Option<seq<int>>> {
    if after == DictEnd then Some(None)
    else if Text.StartsWith(after, PromptKey) && |after| > |PromptKey| && after[|after| - 1] == '}' then
      match Text.ParseIntList(after[|PromptKey|..|after| - 1])
      case Some(l) => Some(Some(l))
      case None => None
    else None
  }

  /** The `label_prompt` key a class list gives rise to: none for the empty
      list, the list itself otherwise. */
  function PromptEntry(labelPrompt: seq<int>): Option<seq<int>> {
    if labelPrompt == [] then None else Some(labelPrompt)
  }

  /** For an image path without a quote, the dictionary gives back the path
      and the class list: both keys when classes were asked for, and only the
      image, with no `label_prompt` key at all, when the list is empty. */
  lemma InputDictRoundTrip(imagePath: string, labelPrompt: seq<int>)
    requires forall k :: 0 <= k < |imagePath| ==> imagePath[k] != '\''
    ensures ParseInputDict(InputDict(imagePath, labelPrompt)) == Some((imagePath, PromptEntry(labelPrompt)))
  {
    var after := DictTail(labelPrompt);
    var s := DictHead + (imagePath + after);
    var rest := s[|DictHead|..];
    assert Text.StartsWith(s, DictHead) && rest == imagePath + after by {
      assert s[..|DictHead|] == DictHead;
    }
    var q := Text.IndexOf(rest, '\'');
    assert q == |imagePath| by {
      Text.IndexOfPastPrefix(imagePath, after, '\'');
    }
    assert rest[..q] == imagePath;
    assert rest[q..] == after;
    ClassListReadBack(labelPrompt);
  }

  /** The dictionary names only the image exactly when the class list is
      empty. */
  lemma ImageOnlyIffEmpty(imagePath: string, labelPrompt: seq<int>)
    ensures labelPrompt == [] <==> InputDict(imagePath, labelPrompt) == DictHead + (imagePath + DictEnd)
  {
    if labelPrompt != [] {
      var after := DictTail(labelPrompt);
      assert after != DictEnd by {
        assert after[1] == ',' != DictEnd[1];
      }
      DifferentRest(imagePath, after, DictEnd);
      DifferentRest(DictHead, imagePath + after, imagePath + DictEnd);
    }
  }

  /** Strings with the same start and different rests differ. */
  lemma DifferentRest(p: string, c: string, d: string)
    requires c != d
    ensures p + c != p + d
  {
    assert (p + c)[|p|..] == c && (p + d)[|p|..] == d;
  }

  /** The tail written for a class list reads back as that list, and as no
      `label_prompt` key when the list is empty. */
  lemma ClassListReadBack(labelPrompt: seq<int>)
    ensures ParseTail(DictTail(labelPrompt)) == Some(PromptEntry(labelPrompt))
  {
    if |labelPrompt| == 0 {
      return;
    }
    var list := Text.IntListText(labelPrompt);
    var after := PromptKey + (list + "}");
    assert after[1] == ',' != DictEnd[1];
    assert after[..|PromptKey|] == PromptKey;
    assert after[|PromptKey|..|after| - 1] == list;
    Text.IntListRoundTrip(labelPrompt);
  }

  // ---------------------------------------------------------------------------
  // The result path

  /** `bundle_root/eval/<stem>/<stem>_trans.nii.gz`, where `<stem>` is the
      input file name without its last extension. */
  function ResultPath(bundleRoot: string, inputFilename: string): string {
    var stem := Paths.SplitExt(inputFilename).0;
    Paths.Join(Paths.Join(Paths.Join(bundleRoot, "eval"), stem), stem + ResultSuffix)
  }

  /** For a file name `stem + ext` and a bundle root without a trailing
      separator, the result lies in `eval/<stem>` under the bundle root and
      is named after the stem. */
  lemma ResultPathShape(bundleRoot: string, stem: string, ext: string)
    requires bundleRoot != [] && bundleRoot[|bundleRoot| - 1] != '/'
    requires stem != [] && forall k :: 0 <= k < |stem| ==> stem[k] != '/'
    requires exists k :: 0 <= k < |stem| && stem[k] != '.'
    requires |ext| >= 1 && ext[0] == '.'
    requires forall k :: 1 <= k < |ext| ==> ext[k] != '.' && ext[k] != '/'
    ensures ResultPath(bundleRoot, stem + ext) == bundleRoot + "/eval/" + stem + "/" + stem + ResultSuffix
  {
    assert Paths.SplitExt(stem + ext).0 == stem by {
      Paths.SplitExtOf(stem, ext);
    }
    var evalDir := bundleRoot + "/" + "eval";
    assert Paths.Join(bundleRoot, "eval") == evalDir by {
      Paths.JoinRelative(bundleRoot, "eval");
    }
    var stemDir := evalDir + "/" + stem;
    assert Paths.Join(evalDir, stem) == stemDir by {
      Paths.JoinRelative(evalDir, stem);
    }
    var path := stemDir + "/" + (stem + ResultSuffix);
    assert Paths.Join(stemDir, stem + ResultSuffix) == path by {
      assert stemDir[|stemDir| - 1] == stem[|stem| - 1];
      Paths.JoinRelative(stemDir, stem + ResultSuffix);
    }
    SeparatorsMerge(bundleRoot, stem, ResultSuffix);
  }

  lemma SeparatorsMerge(root: string, stem: string, suffix: string)
    ensures root + "/" + "eval" + "/" + stem + "/" + (stem + suffix) == root + "/eval/" + stem + "/" + stem + suffix
  {
    assert "/" + "eval" + "/" == "/eval/";
  }

  lemma BundleRootIs()
    ensures BundleRoot() == "bundles/vista3d"
  {
    assert BundleName[..1][0] == 'v';
    assert !Text.StartsWith(BundleName, "/");
  }

  /** With the server's constants, the result is
      `bundles/vista3d/eval/input_image/input_image_trans.nii.gz`. */
  lemma ServerResultPath()
    ensures ResultPath(BundleRoot(), InputFilename) ==
      "bundles/vista3d" + "/eval/" + "input_image" + "/" + "input_image" + "_trans.nii.gz"
  {
    BundleRootIs();
    var stem, ext := "input_image", ".nrrd";
    assert InputFilename == stem + ext;
    assert forall k :: 0 <= k < |stem| ==> stem[k] != '/' by {
      forall k | 0 <= k < |stem| ensures stem[k] != '/' {
        assert stem[k] in "input_image";
      }
    }
    assert stem[0] != '.';
    assert forall k :: 1 <= k < |ext| ==> ext[k] != '.' && ext[k] != '/';
    ResultPathShape("bundles/vista3d", stem, ext);
  }

  function MissingResultMessage(path: string): string {
    "VISTA-3D inference finished but the expected output file was not found at " + path
  }

  /** The result path when the bundle wrote it; `existing` is the set of
      paths that exist once the bundle has run. */
  function LocateResult(bundleRoot: string, inputFilename: string, existing: set<string>): (r: Result<string>)
    ensures r.Success? <==> ResultPath(bundleRoot, inputFilename) in existing
    ensures r.Success? ==> r.value == ResultPath(bundleRoot, inputFilename)
    ensures r.Failure? ==> r.error == FileNotFoundError(MissingResultMessage(ResultPath(bundleRoot, inputFilename)))
  {
    var path := ResultPath(bundleRoot, inputFilename);
    if path !in existing then Failure(FileNotFoundError(MissingResultMessage(path))) else Success(path)
  }

  // ---------------------------------------------------------------------------
  // The endpoint

  /** The arguments the segmentation runs with. */
  datatype CtRequest<Image> = CtRequest(image: Image, labelPrompt: seq<int>)

  /** Defaults the class list to empty (all classes) and rejects an image
      id the image cache does not know; `cached` is what the cache returned
      for `imgId`. */
  function PrepareCtRequest<Image>(imgId: string, labelPrompt: Option<seq<int>>, cached: Option<Image>)
    : (r: Result<CtRequest<Image>>)
    ensures r.Failure? <==> cached.None?
    ensures r.Failure? ==> r.error == ValueError("No image found for ID: " + imgId)
    ensures r.Success? ==> r.value.image == cached.value
    ensures r.Success? ==> r.value.labelPrompt == if labelPrompt.None? then [] else labelPrompt.value
  {
    var classes := if labelPrompt.None? then [] else labelPrompt.value;
    match cached
    case None => Failure(ValueError("No image found for ID: " + imgId))
    case Some(image) => Success(CtRequest(image, classes))
  }
}
