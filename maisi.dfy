/**
 * The MAISI CT generation worker: the command line that runs the MONAI
 * bundle, the error raised when that process fails, and the choice of the
 * generated image among the files the process wrote.
 */
module Maisi {
  import opened Errors
  import Text
  import Paths

  /** The bundle's inference configuration, relative to the bundle root. */
  const ConfigFile := "configs/inference.json"

  const AnatomyFlag := "--anatomy_list="
  const SizeFlag := "--output_size="
  const SpacingFlag := "--spacing="

  /** The generation parameters sent by the client. A key the client left
      out is `None`; `V` is the type of the list items, which are written
      on the command line by `dumps` (`json.dumps`). */
  datatype Params<V> = Params(
    anatomyList: Option<seq<V>>,
    outputSize: Option<seq<V>>,
    spacing: Option<seq<V>>)

  // ---------------------------------------------------------------------------
  // The inference command

  /** The fixed part of the command: run the bundle with its inference
      configuration, writing one sample into `outputDir`. */
  function BaseCommand(python: string, outputDir: string): (r: seq<string>)
    ensures |r| == 8 && r[0] == python && r[6] == "--output_dir=" + outputDir
  {
    [python, "-m", "monai.bundle", "run", "--config_file", ConfigFile,
     "--output_dir=" + outputDir, "--num_output_samples=1"]
  }

  /** An anatomy list is passed on only when it is present and not empty. */
  predicate WantsAnatomy<V>(p: Params<V>) {
    p.anatomyList.Some? && |p.anatomyList.value| > 0
  }

  /** An output size is passed on only when it has exactly three items. */
  predicate WantsSize<V>(p: Params<V>) {
    p.outputSize.Some? && |p.outputSize.value| == 3
  }

  /** A spacing is passed on only when it has exactly three items. */
  predicate WantsSpacing<V>(p: Params<V>) {
    p.spacing.Some? && |p.spacing.value| == 3
  }

  /** The override arguments the command ends with, in the order anatomy
      list, output size, spacing. */
  function Overrides<V>(p: Params<V>, dumps: seq<V> -> string): seq<string> {
    (if WantsAnatomy(p) then [AnatomyFlag + dumps(p.anatomyList.value)] else []) +
    (if WantsSize(p) then [SizeFlag + dumps(p.outputSize.value)] else []) +
    (if WantsSpacing(p) then [SpacingFlag + dumps(p.spacing.value)] else [])
  }

  /** Builds the inference command by appending to the fixed part one
      override per usable parameter. */
  method BuildInferenceCommand<V>(python: string, outputDir: string, p: Params<V>, dumps: seq<V> -> string)
    returns (cmd: seq<string>)
    ensures cmd == BaseCommand(python, outputDir) + Overrides(p, dumps)
  {
    cmd := [python, "-m", "monai.bundle", "run", "--config_file", ConfigFile,
            "--output_dir=" + outputDir, "--num_output_samples=1"];
    var appended: seq<string> := [];
    if p.anatomyList.Some? && |p.anatomyList.value| > 0 {
      appended := appended + [AnatomyFlag + dumps(p.anatomyList.value)];
    }
    if p.outputSize.Some? && |p.outputSize.value| == 3 {
      appended := appended + [SizeFlag + dumps(p.outputSize.value)];
    }
    if p.spacing.Some? && |p.spacing.value| == 3 {
      appended := appended + [SpacingFlag + dumps(p.spacing.value)];
    }
    cmd := cmd + appended;
  }

  /** The value given to `flag` by the first argument that starts with it.
      This reads back exactly the `--flag=value` arguments the builder writes;
      it is not a general command-line parser. */
  function FlagValue(args: seq<string>, flag: string): Option<string> {
    if args == [] then None
    else if Text.StartsWith(args[0], flag) then Some(args[0][|flag|..])
    else FlagValue(args[1..], flag)
  }

  /** The position of an override argument among the three kinds. */
  function FlagRank(arg: string): int {
    if Text.StartsWith(arg, AnatomyFlag) then 0
    else if Text.StartsWith(arg, SizeFlag) then 1
    else if Text.StartsWith(arg, SpacingFlag) then 2
    else -1
  }

  lemma ValueAfterOtherFlag(arg: string, rest: seq<string>, flag: string)
    requires !Text.StartsWith(arg, flag)
    ensures FlagValue([arg] + rest, flag) == FlagValue(rest, flag)
  {
    assert ([arg] + rest)[1..] == rest;
  }

  lemma ValueAtFlag(flag: string, v: string, rest: seq<string>)
    ensures FlagValue([flag + v] + rest, flag) == Some(v)
  {
    assert ([flag + v] + rest)[0] == flag + v;
    assert (flag + v)[..|flag|] == flag;
  }

  /** Each of the three parameters reaches the bundle exactly when it is
      usable, carrying the dumped list; nothing else is appended; and the
      overrides come in the order anatomy list, output size, spacing. */
  lemma OverridesReadBack<V>(p: Params<V>, dumps: seq<V> -> string)
    ensures var o := Overrides(p, dumps);
      && FlagValue(o, AnatomyFlag) == (if WantsAnatomy(p) then Some(dumps(p.anatomyList.value)) else None)
      && FlagValue(o, SizeFlag) == (if WantsSize(p) then Some(dumps(p.outputSize.value)) else None)
      && FlagValue(o, SpacingFlag) == (if WantsSpacing(p) then Some(dumps(p.spacing.value)) else None)
      && (forall i :: 0 <= i < |o| ==> FlagRank(o[i]) >= 0)
      && (forall i, j :: 0 <= i < j < |o| ==> FlagRank(o[i]) < FlagRank(o[j]))
  {
    var a := if WantsAnatomy(p) then [AnatomyFlag + dumps(p.anatomyList.value)] else [];
    var s := if WantsSize(p) then [SizeFlag + dumps(p.outputSize.value)] else [];
    var t := if WantsSpacing(p) then [SpacingFlag + dumps(p.spacing.value)] else [];
    var o := Overrides(p, dumps);
    assert o == a + s + t;
    // The three flags differ in their third character, so none starts another's argument.
    forall x: string
      ensures Text.StartsWith(AnatomyFlag + x, AnatomyFlag) && FlagRank(AnatomyFlag + x) == 0
      ensures Text.StartsWith(SizeFlag + x, SizeFlag) && FlagRank(SizeFlag + x) == 1
      ensures Text.StartsWith(SpacingFlag + x, SpacingFlag) && FlagRank(SpacingFlag + x) == 2
      ensures !Text.StartsWith(AnatomyFlag + x, SizeFlag) && !Text.StartsWith(AnatomyFlag + x, SpacingFlag)
      ensures !Text.StartsWith(SizeFlag + x, AnatomyFlag) && !Text.StartsWith(SizeFlag + x, SpacingFlag)
      ensures !Text.StartsWith(SpacingFlag + x, AnatomyFlag) && !Text.StartsWith(SpacingFlag + x, SizeFlag)
    {
      assert (AnatomyFlag + x)[..|AnatomyFlag|] == AnatomyFlag;
      assert (SizeFlag + x)[..|SizeFlag|] == SizeFlag;
      assert (SpacingFlag + x)[..|SpacingFlag|] == SpacingFlag;
      assert (AnatomyFlag + x)[2] == 'a';
      assert (SizeFlag + x)[2] == 'o';
      assert (SpacingFlag + x)[2] == 's';
    }
    // Reading back each flag.
    if WantsAnatomy(p) {
      ValueAtFlag(AnatomyFlag, dumps(p.anatomyList.value), s + t);
      assert o == [AnatomyFlag + dumps(p.anatomyList.value)] + (s + t);
    }
    if WantsSize(p) {
      ValueAtFlag(SizeFlag, dumps(p.outputSize.value), t);
    }
    if WantsSpacing(p) {
      ValueAtFlag(SpacingFlag, dumps(p.spacing.value), []);
      assert t == [SpacingFlag + dumps(p.spacing.value)] + [];
    }
    assert FlagValue([], AnatomyFlag) == None;
    assert FlagValue([], SizeFlag) == None;
    assert FlagValue([], SpacingFlag) == None;
    if WantsSpacing(p) {
      ValueAfterOtherFlag(SpacingFlag + dumps(p.spacing.value), [], AnatomyFlag);
      ValueAfterOtherFlag(SpacingFlag + dumps(p.spacing.value), [], SizeFlag);
    }
    if WantsSize(p) {
      ValueAfterOtherFlag(SizeFlag + dumps(p.outputSize.value), t, AnatomyFlag);
      ValueAfterOtherFlag(SizeFlag + dumps(p.outputSize.value), t, SpacingFlag);
      assert s + t == [SizeFlag + dumps(p.outputSize.value)] + t;
    }
    if WantsAnatomy(p) {
      ValueAfterOtherFlag(AnatomyFlag + dumps(p.anatomyList.value), s + t, SizeFlag);
      ValueAfterOtherFlag(AnatomyFlag + dumps(p.anatomyList.value), s + t, SpacingFlag);
    } else {
      assert o == s + t;
    }
  }

  lemma SizeText()
    ensures Text.IntListText([4, 4, 2]) == "[4, 4, 2]"
  {
    assert Text.JoinInts([2]) == "2";
    assert Text.JoinInts([4, 2]) == "4, 2" by {
      assert [4, 2][1..] == [2];
    }
    assert Text.JoinInts([4, 4, 2]) == "4, 4, 2" by {
      assert [4, 4, 2][1..] == [4, 2];
    }
  }

  /** With `json.dumps` over integers, an empty anatomy list and a spacing
      of two items are dropped, and the size is written as a JSON list. */
  lemma OnlyUsableOverrides()
    ensures Overrides(Params(Some([]), Some([4, 4, 2]), Some([1, 1])), Text.IntListText)
      == ["--output_size=[4, 4, 2]"]
  {
    SizeText();
    var p := Params(Some([]), Some([4, 4, 2]), Some([1, 1]));
    assert !WantsAnatomy(p) && WantsSize(p) && !WantsSpacing(p);
    assert Overrides(p, Text.IntListText) == [SizeFlag + Text.IntListText([4, 4, 2])];
    assert SizeFlag + "[4, 4, 2]" == "--output_size=[4, 4, 2]";
  }

  // ---------------------------------------------------------------------------
  // A failed generation process

  const FailureHeader := "\n--- MONAI Subprocess Failed ---\nReturn Code: "
  const StdoutBanner := "\n--- STDOUT ---\n"
  const StderrBanner := "\n--- STDERR ---\n"
  const FailureFooter := "-----------------------------"

  /** The message of the exception raised when the generation process exits
      with a non-zero code. */
  function FailureMessage(code: int, stdout: string, stderr: string): string {
    FailureHeader + Text.IntToString(code) + Details(stdout, stderr)
  }

  /** The part of the failure message after the return code. */
  function Details(stdout: string, stderr: string): string {
    "\n" + (StdoutBanner + (stdout + ("\n" + (StderrBanner + (stderr + ("\n" + FailureFooter))))))
  }

  /** Reads the return code back out of a failure message. */
  function ReturnCodeOf(m: string): Option<int> {
    if Text.StartsWith(m, FailureHeader) then
      var rest := m[|FailureHeader|..];
      var k := Text.IndexOf(rest, '\n');
      if k < 0 then None else Text.ParseInt(rest[..k])
    else None
  }

  /** After the header, the code runs up to the first line break. */
  lemma CodeAfterHeader(d: string, t: string)
    requires forall j :: 0 <= j < |d| ==> d[j] != '\n'
    requires t != [] && t[0] == '\n'
    ensures ReturnCodeOf(FailureHeader + d + t) == Text.ParseInt(d)
  {
    var m := FailureHeader + d + t;
    assert m[..|FailureHeader|] == FailureHeader;
    assert m[|FailureHeader|..] == d + t;
    Text.IndexOfPastPrefix(d, t, '\n');
    assert (d + t)[..|d|] == d;
  }

  /** The failure message gives back the process's return code. */
  lemma FailureMessageCode(code: int, stdout: string, stderr: string)
    ensures ReturnCodeOf(FailureMessage(code, stdout, stderr)) == Some(code)
  {
    var d := Text.IntToString(code);
    var t := Details(stdout, stderr);
    assert t[0] == '\n';
    CodeAfterHeader(d, t);
    Text.IntRoundTrip(code);
  }

  /** After `h` and a line break come banner `a` and then text `x`. */
  lemma FirstSection(h: string, a: string, x: string, r: string)
    ensures var m := h + ("\n" + (a + (x + r)));
      Text.OccursAt(m, a, |h| + 1) && Text.OccursAt(m, x, |h| + 1 + |a|)
  {
    Text.OccursAtStart(x, r);
    Text.OccursShift(a, x + r, x, 0);
    Text.OccursShift("\n", a + (x + r), x, |a|);
    Text.OccursShift(h, "\n" + (a + (x + r)), x, 1 + |a|);
    Text.OccursAtStart(a, x + r);
    Text.OccursShift("\n", a + (x + r), a, 0);
    Text.OccursShift(h, "\n" + (a + (x + r)), a, 1);
  }

  /** After a line break come banner `b`, text `y`, a line break and
      footer `c`. */
  lemma LastSection(b: string, y: string, c: string)
    ensures var r := "\n" + (b + (y + ("\n" + c)));
      && Text.OccursAt(r, b, 1) && Text.OccursAt(r, y, 1 + |b|)
      && Text.OccursAt(r, c, |r| - |c|)
  {
    Text.OccursAtStart(b, y + ("\n" + c));
    Text.OccursShift("\n", b + (y + ("\n" + c)), b, 0);
    Text.OccursAtStart(y, "\n" + c);
    Text.OccursShift(b, y + ("\n" + c), y, 0);
    Text.OccursShift("\n", b + (y + ("\n" + c)), y, |b|);
    assert (b + (y + ("\n" + c)))[|b| + |y| + 1..] == c;
    assert ("\n" + (b + (y + ("\n" + c))))[|b| + |y| + 2..] == c;
  }

  /** What occurs in the last section occurs in the whole message, after
      `h`, the line break, `a` and `x`. */
  lemma PastFirstSection(h: string, a: string, x: string, r: string, t: string, k: int)
    requires Text.OccursAt(r, t, k)
    ensures Text.OccursAt(h + ("\n" + (a + (x + r))), t, |h| + 1 + |a| + |x| + k)
  {
    Text.OccursShift(x, r, t, k);
    Text.OccursShift(a, x + r, t, |x| + k);
    Text.OccursShift("\n", a + (x + r), t, |a| + |x| + k);
    Text.OccursShift(h, "\n" + (a + (x + r)), t, 1 + |a| + |x| + k);
  }

  /** The failure message starts with its header, carries the process's
      whole standard output and then its whole standard error, each right
      after its banner, and ends with the footer. */
  lemma FailureMessageLayout(code: int, stdout: string, stderr: string)
    ensures var m := FailureMessage(code, stdout, stderr);
      var i := |FailureHeader| + |Text.IntToString(code)| + 1;
      var j := i + |StdoutBanner| + |stdout| + 1;
      && Text.StartsWith(m, FailureHeader)
      && Text.OccursAt(m, StdoutBanner, i) && Text.OccursAt(m, stdout, i + |StdoutBanner|)
      && Text.OccursAt(m, StderrBanner, j) && Text.OccursAt(m, stderr, j + |StderrBanner|)
      && Text.EndsWith(m, FailureFooter)
  {
    var h := FailureHeader + Text.IntToString(code);
    var r := "\n" + (StderrBanner + (stderr + ("\n" + FailureFooter)));
    assert (h + Details(stdout, stderr))[..|FailureHeader|] == FailureHeader;
    FirstSection(h, StdoutBanner, stdout, r);
    LastSection(StderrBanner, stderr, FailureFooter);
    PastFirstSection(h, StdoutBanner, stdout, r, StderrBanner, 1);
    PastFirstSection(h, StdoutBanner, stdout, r, stderr, 1 + |StderrBanner|);
    PastFirstSection(h, StdoutBanner, stdout, r, FailureFooter, |r| - |FailureFooter|);
  }

  // ---------------------------------------------------------------------------
  // Picking the generated image

  const PreferredSuffix := "image.nii.gz"
  const FallbackSuffix := ".nii.gz"

  function NotFoundMessage(outputDir: string): string {
    "MONAI generation finished but the expected output file was not found in " + outputDir
  }

  /** The first path `glob` finds for `*image.nii.gz` in the output
      directory, else the first for `*.nii.gz`; `listing` is the directory's
      entries in the order the file system lists them. */
  function PickResult(outputDir: string, listing: seq<string>): Result<string> {
    var preferred := Paths.Glob(outputDir, listing, PreferredSuffix);
    var results := if preferred == [] then Paths.Glob(outputDir, listing, FallbackSuffix) else preferred;
    if results == [] then Failure(FileNotFoundError(NotFoundMessage(outputDir)))
    else Success(results[0])
  }

  /** Entry `k` is the first entry of `listing` that the pattern `*suffix`
      matches. */
  predicate FirstMatch(listing: seq<string>, suffix: string, k: int) {
    0 <= k < |listing| && Paths.Matches(listing[k], suffix) &&
    forall j :: 0 <= j < k ==> !Paths.Matches(listing[j], suffix)
  }

  lemma PreferredIsNifti(name: string)
    requires Paths.Matches(name, PreferredSuffix)
    ensures Paths.Matches(name, FallbackSuffix)
  {
    assert name[|name| - |FallbackSuffix|..] == PreferredSuffix[|PreferredSuffix| - |FallbackSuffix|..];
  }

  /** No image is found exactly when the directory holds no visible
      `.nii.gz` file. Otherwise the first `*image.nii.gz` entry is taken, and
      only when there is none the first `.nii.gz` entry. */
  lemma PickResultRules(outputDir: string, listing: seq<string>)
    ensures PickResult(outputDir, listing).Failure? <==>
      forall i :: 0 <= i < |listing| ==> !Paths.Matches(listing[i], FallbackSuffix)
    ensures PickResult(outputDir, listing).Failure? ==>
      PickResult(outputDir, listing).error == FileNotFoundError(NotFoundMessage(outputDir))
    ensures forall k :: FirstMatch(listing, PreferredSuffix, k) ==>
      PickResult(outputDir, listing) == Success(Paths.Join(outputDir, listing[k]))
    ensures (forall i :: 0 <= i < |listing| ==> !Paths.Matches(listing[i], PreferredSuffix)) ==>
      forall k :: FirstMatch(listing, FallbackSuffix, k) ==>
        PickResult(outputDir, listing) == Success(Paths.Join(outputDir, listing[k]))
  {
    Paths.GlobFirst(outputDir, listing, PreferredSuffix);
    Paths.GlobFirst(outputDir, listing, FallbackSuffix);
    forall i | 0 <= i < |listing| && Paths.Matches(listing[i], PreferredSuffix)
      ensures Paths.Matches(listing[i], FallbackSuffix)
    {
      PreferredIsNifti(listing[i]);
    }
  }

  // ---------------------------------------------------------------------------
  // The whole generation step

  /** How the generation process ended. */
  datatype RunOutcome = Finished | Failed(returnCode: int, stdout: string, stderr: string)

  /** The image path the worker reads back, or the exception it raises. */
  function Generation(run: RunOutcome, outputDir: string, listing: seq<string>): Result<string> {
    match run
    case Failed(code, out, err) => Failure(GenericException(FailureMessage(code, out, err)))
    case Finished => PickResult(outputDir, listing)
  }

  /** A failed process is reported with its return code, whatever the
      directory holds; a finished one fails only with a missing image. */
  lemma GenerationOutcomes(run: RunOutcome, outputDir: string, listing: seq<string>)
    ensures run.Failed? ==>
      (Generation(run, outputDir, listing).Failure? &&
       ReturnCodeOf(Generation(run, outputDir, listing).error.message) == Some(run.returnCode))
    ensures run.Finished? && Generation(run, outputDir, listing).Failure? ==>
      Generation(run, outputDir, listing).error.FileNotFoundError?
    ensures run.Finished? ==> (Generation(run, outputDir, listing).Success? <==>
      exists i :: 0 <= i < |listing| && Paths.Matches(listing[i], FallbackSuffix))
  {
    if run.Failed? {
      FailureMessageCode(run.returnCode, run.stdout, run.stderr);
    } else {
      PickResultRules(outputDir, listing);
    }
  }
}
