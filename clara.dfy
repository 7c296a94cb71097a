/** How the Clara NV-Reason-CXR-3B endpoint turns a chat request into the
    message list handed to the model's chat template: blank turns are
    dropped, history before the first answer is trimmed, the new prompt is
    appended as a user turn and one image marker is put in front of the
    first message. Model loading, image normalisation, templating and
    generation are not part of this model. */
module Clara {
  import opened Errors
  import Text

  const DefaultPrompt: string := "Find abnormalities and support devices."
  const MissingImageMessage: string := "Nvidia CXR model requires an image for analysis."

  /** One entry of the `history` list: a dictionary whose `role` and
      `content` keys may each be absent. */
  datatype Turn = Turn(role: Option<string>, content: Option<string>)

  /** The request dictionary: `prompt` and `history` keys, each optional. */
  datatype Request = Request(prompt: Option<string>, history: Option<seq<Turn>>)

  /** An item of a message's `content` list: `{"type": "image"}` or
      `{"type": "text", "text": ...}`. */
  datatype Part = ImagePart | TextPart(text: string)

  datatype Message = Message(role: string, content: seq<Part>)

  function PromptOf(r: Request): string {
    r.prompt.GetOr(DefaultPrompt)
  }

  function HistoryOf(r: Request): seq<Turn> {
    r.history.GetOr([])
  }

  /** `h.get('content', '')`. */
  function TextOf(t: Turn): string {
    t.content.GetOr("")
  }

  /** A turn is kept when its content has a non-whitespace character, that
      is, when `len(content.strip()) > 0` (see `Text.Strip`). */
  predicate IsKept(t: Turn) {
    !Text.IsBlank(TextOf(t))
  }

  predicate IsAnswer(t: Turn) {
    IsKept(t) && t.role == Some("assistant")
  }

  /** Reading `h['role']` of a kept turn must not fail. */
  predicate RolesPresent(h: seq<Turn>) {
    forall i :: 0 <= i < |h| && IsKept(h[i]) ==> h[i].role.Some?
  }

  /** The message built from a kept turn: its role and its unstripped text. */
  function AsMessage(t: Turn): Message
    requires IsKept(t) && t.role.Some?
  {
    Message(t.role.value, [TextPart(TextOf(t))])
  }

  function UserMessage(text: string): Message {
    Message("user", [TextPart(text)])
  }

  /** The kept turns of `h` as messages, in order. */
  function Filtered(h: seq<Turn>): seq<Message>
    requires RolesPresent(h)
  {
    if h == [] then []
    else
      var last := h[|h| - 1];
      Filtered(h[..|h| - 1]) + (if IsKept(last) then [AsMessage(last)] else [])
  }

  /** The history index of the first kept assistant turn, if any. */
  function FirstAnswer(h: seq<Turn>): (r: Option<nat>)
    ensures r.Some? ==> r.value < |h| && IsAnswer(h[r.value])
  {
    if h == [] then None
    else
      match FirstAnswer(h[..|h| - 1])
      case Some(k) => Some(k)
      case None => if IsAnswer(h[|h| - 1]) then Some(|h| - 1) else None
  }

  /** `FirstAnswer` finds the kept assistant turn that no other precedes,
      and finds nothing exactly when there is none. */
  lemma {:induction false} FirstAnswerIsFirst(h: seq<Turn>)
    ensures FirstAnswer(h).None? <==> forall j :: 0 <= j < |h| ==> !IsAnswer(h[j])
    ensures FirstAnswer(h).Some? ==>
      var i := FirstAnswer(h).value;
      IsAnswer(h[i]) && forall j :: 0 <= j < i ==> !IsAnswer(h[j])
  {
    if h != [] {
      var init := h[..|h| - 1];
      FirstAnswerIsFirst(init);
      assert forall j :: 0 <= j < |init| ==> init[j] == h[j];
    }
  }

  /** Python's `s[k:]` for a non-negative `k`: empty when `k` is past the end. */
  function SliceFrom(s: seq<Message>, k: nat): seq<Message> {
    if k <= |s| then s[k..] else []
  }

  /** The history part as written is a suffix of the kept messages. */
  lemma HistoryIsKeptSuffix(h: seq<Turn>)
    requires RolesPresent(h)
    ensures var body := HistoryAsWritten(h);
      var kept := Filtered(h);
      |body| <= |kept| && body == kept[|kept| - |body|..]
  {
    var kept := Filtered(h);
    if FirstAnswer(h).Some? {
      TrimIsSuffix(kept, FirstAnswer(h).value);
    } else {
      assert HistoryAsWritten(h) == [] == kept[|kept|..];
    }
  }

  /** A trim keeps a suffix of the list. */
  lemma TrimIsSuffix(kept: seq<Message>, j: int)
    ensures |TrimAt(kept, j)| <= |kept| && TrimAt(kept, j) == kept[|kept| - |TrimAt(kept, j)|..]
  {
  }

  /** The history part of the message list, as the code computes it: the
      offset is the first answer's HISTORY index minus one, applied to the
      FILTERED list. */
  function HistoryAsWritten(h: seq<Turn>): seq<Message>
    requires RolesPresent(h)
  {
    match FirstAnswer(h)
    case None => []
    case Some(i) => TrimAt(Filtered(h), i)
  }

  /** The trim `messages[valid_index:]` with `valid_index = j - 1`, done only
      when the list is non-empty and the offset is positive. */
  function TrimAt(kept: seq<Message>, j: int): seq<Message> {
    if |kept| > 0 && j - 1 > 0 then SliceFrom(kept, j - 1) else kept
  }

  /** `messages[0]['content'].insert(0, {"type": "image"})`. */
  function WithImage(ms: seq<Message>): seq<Message>
    requires ms != []
  {
    [Message(ms[0].role, [ImagePart] + ms[0].content)] + ms[1..]
  }

  /** The outcome of the message construction for a request, given whether
      an image was supplied. */
  function Messages(r: Request, hasImage: bool): Result<seq<Message>> {
    if !hasImage then Failure(ValueError(MissingImageMessage))
    else if !RolesPresent(HistoryOf(r)) then Failure(KeyError("role"))
    else Success(WithImage(HistoryAsWritten(HistoryOf(r)) + [UserMessage(PromptOf(r))]))
  }

  /** What one more turn of history adds to the kept messages and to the
      search for the first answer. */
  lemma ExtendByTurn(h: seq<Turn>, i: nat)
    requires i < |h| && RolesPresent(h[..i])
    ensures RolesPresent(h[..i + 1]) <==> (IsKept(h[i]) ==> h[i].role.Some?)
    ensures RolesPresent(h[..i + 1]) ==>
      Filtered(h[..i + 1]) == Filtered(h[..i]) + (if IsKept(h[i]) then [AsMessage(h[i])] else [])
    ensures FirstAnswer(h[..i + 1]) ==
      match FirstAnswer(h[..i])
      case Some(k) => Some(k)
      case None => if IsAnswer(h[i]) then Some(i) else None
    ensures ValidIndex(h[..i + 1]) ==
      if ValidIndex(h[..i]).None? && IsAnswer(h[i]) then Some(i - 1) else ValidIndex(h[..i])
  {
    assert h[..i + 1][..i] == h[..i];
    assert h[..i + 1][i] == h[i];
  }

  /** `valid_index` after the loop: one before the first answer's index. */
  function ValidIndex(h: seq<Turn>): Option<int> {
    match FirstAnswer(h)
    case None => None
    case Some(i) => Some(i - 1)
  }

  /** The trim after the loop yields the history part. */
  lemma TrimIsHistory(h: seq<Turn>)
    requires RolesPresent(h)
    ensures HistoryAsWritten(h) ==
      var kept := if ValidIndex(h).None? then [] else Filtered(h);
      if |kept| > 0 && ValidIndex(h).value > 0 then SliceFrom(kept, ValidIndex(h).value) else kept
  {
  }

  /** The `for` loop over the history: collects the kept turns as messages
      and records `valid_index` at the first answer; fails with a `KeyError`
      at a kept turn that has no role. */
  method ScanHistory(history: seq<Turn>) returns (r: Result<(seq<Message>, Option<int>)>)
    ensures r.Success? <==> RolesPresent(history)
    ensures r.Success? ==> r.value == (Filtered(history), ValidIndex(history))
    ensures r.Failure? ==> r.error == KeyError("role")
  {
    var messages: seq<Message> := [];
    var validIndex: Option<int> := None;
    for i := 0 to |history|
      invariant RolesPresent(history[..i])
      invariant messages == Filtered(history[..i])
      invariant validIndex == ValidIndex(history[..i])
    {
      var h := history[i];
      ExtendByTurn(history, i);
      if |Text.Strip(h.content.GetOr(""))| > 0 {
        if h.role.None? {
          assert !RolesPresent(history) by {
            assert IsKept(history[i]) && history[i].role.None?;
          }
          return Failure(KeyError("role"));
        }
        if validIndex.None? && h.role.value == "assistant" {
          validIndex := Some(i - 1);
        }
        messages := messages + [Message(h.role.value, [TextPart(h.content.value)])];
      }
    }
    assert history[..|history|] == history;
    r := Success((messages, validIndex));
  }

  /** The request handling up to the chat template: the image check, the
      defaults, the scan of the history, the trim, the append of the prompt
      and the image insertion. */
  method BuildMessages(request: Request, hasImage: bool) returns (r: Result<seq<Message>>)
    ensures r == Messages(request, hasImage)
  {
    if !hasImage {
      return Failure(ValueError(MissingImageMessage));
    }
    var userQuestion := request.prompt.GetOr(DefaultPrompt);
    var history := request.history.GetOr([]);
    var messages: seq<Message> := [];
    if |history| > 0 {
      var scan := ScanHistory(history);
      if scan.Failure? {
        return Failure(scan.error);
      }
      var validIndex: Option<int>;
      messages, validIndex := scan.value.0, scan.value.1;
      TrimIsHistory(history);
      if validIndex.None? {
        messages := [];
      }
      if |messages| > 0 && validIndex.value > 0 {
        messages := if validIndex.value <= |messages| then messages[validIndex.value..] else [];
      }
    }
    messages := messages + [UserMessage(userQuestion)];
    ghost var beforeImage := messages;
    messages := messages[0 := Message(messages[0].role, [ImagePart] + messages[0].content)];
    assert messages == WithImage(beforeImage);
    r := Success(messages);
  }

  // ---------------------------------------------------------------------------
  // What the message list holds

  /** The history indices of the kept turns, ascending. */
  function KeptPositions(h: seq<Turn>): seq<nat> {
    if h == [] then []
    else KeptPositions(h[..|h| - 1]) + (if IsKept(h[|h| - 1]) then [|h| - 1] else [])
  }

  /** Filtering keeps exactly the non-blank turns, each with its role and its
      unstripped text, in their original order. */
  lemma {:induction false} FilteredKeepsTurns(h: seq<Turn>)
    requires RolesPresent(h)
    ensures var ps := KeptPositions(h);
      |Filtered(h)| == |ps| &&
      (forall j :: 0 <= j < |ps| ==>
        ps[j] < |h| && IsKept(h[ps[j]]) && Filtered(h)[j] == AsMessage(h[ps[j]])) &&
      (forall j, k :: 0 <= j < k < |ps| ==> ps[j] < ps[k]) &&
      (forall i :: 0 <= i < |h| && IsKept(h[i]) ==> i in ps)
  {
    if h != [] {
      var init := h[..|h| - 1];
      var last := h[|h| - 1];
      FilteredLast(h);
      FilteredKeepsTurns(init);
      var ps' := KeptPositions(init);
      var ps := KeptPositions(h);
      assert ps == ps' + (if IsKept(last) then [|h| - 1] else []);
      forall i | 0 <= i < |h| && IsKept(h[i])
        ensures i in ps
      {
        if i < |h| - 1 {
          assert IsKept(init[i]);
          assert i in ps';
        }
      }
    }
  }

  /** Every message holds one text item and nothing else. */
  predicate TextOnly(ms: seq<Message>) {
    forall j :: 0 <= j < |ms| ==> |ms[j].content| == 1 && ms[j].content[0].TextPart?
  }

  lemma {:induction false} FilteredTextOnly(h: seq<Turn>)
    requires RolesPresent(h)
    ensures TextOnly(Filtered(h))
  {
    if h != [] {
      var init := h[..|h| - 1];
      assert forall j :: 0 <= j < |init| ==> init[j] == h[j];
      FilteredTextOnly(init);
    }
  }

  /** Removes the image marker that `WithImage` put in front. */
  function WithoutImage(ms: seq<Message>): seq<Message>
    requires ms != [] && ms[0].content != []
  {
    [Message(ms[0].role, ms[0].content[1..])] + ms[1..]
  }

  lemma ImageRoundTrip(ms: seq<Message>)
    requires ms != []
    ensures WithImage(ms)[0].content != [] && WithoutImage(WithImage(ms)) == ms
  {
  }

  /** The image check comes first; then a kept turn without a role is a
      `KeyError`; otherwise the construction succeeds. */
  lemma MessagesErrors(r: Request, hasImage: bool)
    ensures !hasImage ==> Messages(r, hasImage) == Failure(ValueError(MissingImageMessage))
    ensures hasImage && !RolesPresent(HistoryOf(r)) ==> Messages(r, hasImage) == Failure(KeyError("role"))
    ensures Messages(r, hasImage).Success? <==> hasImage && RolesPresent(HistoryOf(r))
  {
  }

  /** A successful result is never empty and ends with the prompt (the
      default one when the request has none) as a user turn; before it come
      the LAST few kept turns of the history, unchanged. */
  lemma MessagesAreKeptSuffixThenPrompt(r: Request, hasImage: bool)
    requires Messages(r, hasImage).Success?
    ensures var ms := Messages(r, hasImage).value;
      var plain := WithoutImage(ms);
      var kept := Filtered(HistoryOf(r));
      |ms| >= 1 &&
      ms[|ms| - 1].role == "user" &&
      ms[|ms| - 1].content[|ms[|ms| - 1].content| - 1] == TextPart(PromptOf(r)) &&
      plain[|ms| - 1] == UserMessage(PromptOf(r)) &&
      |ms| - 1 <= |kept| &&
      plain[..|ms| - 1] == kept[|kept| - (|ms| - 1)..]
  {
    var h := HistoryOf(r);
    var body := HistoryAsWritten(h);
    var kept := Filtered(h);
    var ms := Messages(r, hasImage).value;
    ImageRoundTrip(body + [UserMessage(PromptOf(r))]);
    HistoryIsKeptSuffix(h);
    assert WithoutImage(ms)[..|ms| - 1] == body;
  }

  /** Exactly one image marker is added: it is the first item of the first
      message, whatever that message's role, and every other item of every
      message is text. */
  lemma SingleImageMarker(r: Request, hasImage: bool)
    requires Messages(r, hasImage).Success?
    ensures var ms := Messages(r, hasImage).value;
      ms[0].content != [] && ms[0].content[0] == ImagePart &&
      forall j, k :: 0 <= j < |ms| && 0 <= k < |ms[j].content| && (j, k) != (0, 0) ==>
        ms[j].content[k].TextPart?
  {
    var h := HistoryOf(r);
    var body := HistoryAsWritten(h);
    assert TextOnly(body) by {
      FilteredTextOnly(h);
      HistoryIsKeptSuffix(h);
      TextOnlySuffix(Filtered(h), |Filtered(h)| - |body|);
    }
    TextOnlyAppend(body, [UserMessage(PromptOf(r))]);
    MarkerOnlyFirst(body + [UserMessage(PromptOf(r))]);
  }

  lemma TextOnlySuffix(ms: seq<Message>, k: nat)
    requires TextOnly(ms) && k <= |ms|
    ensures TextOnly(ms[k..])
  {
    assert forall j :: 0 <= j < |ms| - k ==> ms[k..][j] == ms[k + j];
  }

  lemma TextOnlyAppend(a: seq<Message>, b: seq<Message>)
    requires TextOnly(a) && TextOnly(b)
    ensures TextOnly(a + b)
  {
    assert forall j :: 0 <= j < |a| + |b| ==> (a + b)[j] == if j < |a| then a[j] else b[j - |a|];
  }

  /** On text-only messages, `WithImage` adds the one image item first. */
  lemma MarkerOnlyFirst(plain: seq<Message>)
    requires plain != [] && TextOnly(plain)
    ensures var ms := WithImage(plain);
      ms[0].content != [] && ms[0].content[0] == ImagePart &&
      forall j, k :: 0 <= j < |ms| && 0 <= k < |ms[j].content| && (j, k) != (0, 0) ==>
        ms[j].content[k].TextPart?
  {
    var ms := WithImage(plain);
    assert forall j :: 1 <= j < |ms| ==> ms[j] == plain[j];
    assert ms[0].content == [ImagePart] + plain[0].content;
  }

  lemma PromptAlone(p: string)
    ensures WithImage([] + [UserMessage(p)]) == [Message("user", [ImagePart, TextPart(p)])]
  {
    assert [] + [UserMessage(p)] == [UserMessage(p)];
    assert [UserMessage(p)][1..] == [];
    assert [ImagePart] + [TextPart(p)] == [ImagePart, TextPart(p)];
  }

  /** With no kept assistant turn, all history is discarded: the result is the
      prompt alone, carrying the image. */
  lemma NoAnswerDropsHistory(r: Request)
    requires RolesPresent(HistoryOf(r))
    requires forall j :: 0 <= j < |HistoryOf(r)| ==> !IsAnswer(HistoryOf(r)[j])
    ensures Messages(r, true) == Success([Message("user", [ImagePart, TextPart(PromptOf(r))])])
  {
    FirstAnswerIsFirst(HistoryOf(r));
    assert HistoryAsWritten(HistoryOf(r)) == [];
    PromptAlone(PromptOf(r));
  }

  /** Missing keys take their defaults: the default prompt, and no history. */
  lemma DefaultsApply(r: Request)
    ensures r.prompt.None? ==> PromptOf(r) == DefaultPrompt
    ensures r.history.None? ==>
      Messages(r, true) == Success([Message("user", [ImagePart, TextPart(PromptOf(r))])])
  {
    if r.history.None? {
      assert HistoryAsWritten(HistoryOf(r)) == [];
      PromptAlone(PromptOf(r));
    }
  }

  /** What the caller gets once a history holds an answer: with the image
      marker taken off, the message list is the FILTERED list sliced at the
      first answer's HISTORY index minus one (not sliced when that offset is
      not positive), followed by the prompt as a user turn. */
  lemma TrimOffset(r: Request)
    requires RolesPresent(HistoryOf(r)) && FirstAnswer(HistoryOf(r)).Some?
    ensures Messages(r, true).Success?
    ensures Messages(r, true).value != [] && Messages(r, true).value[0].content != []
    ensures var h := HistoryOf(r); var i := FirstAnswer(h).value;
      WithoutImage(Messages(r, true).value) ==
        (if i - 1 > 0 then SliceFrom(Filtered(h), i - 1) else Filtered(h)) + [UserMessage(PromptOf(r))]
  {
    ImageRoundTrip(HistoryAsWritten(HistoryOf(r)) + [UserMessage(PromptOf(r))]);
  }

  // ---------------------------------------------------------------------------
  // Finding: the offset counts blank turns that the filtered list no longer has

  /** Every part of a history whose kept turns have roles has them too. */
  lemma RolesPresentSlice(h: seq<Turn>, a: nat, b: nat)
    requires RolesPresent(h) && a <= b <= |h|
    ensures RolesPresent(h[a..b])
  {
    assert forall j :: 0 <= j < b - a ==> h[a..b][j] == h[a + j];
  }

  /** What the last turn of a non-empty history adds to the kept messages. */
  lemma FilteredLast(h: seq<Turn>)
    requires RolesPresent(h) && h != []
    ensures RolesPresent(h[..|h| - 1])
    ensures Filtered(h) == Filtered(h[..|h| - 1]) + (if IsKept(h[|h| - 1]) then [AsMessage(h[|h| - 1])] else [])
  {
    RolesPresentSlice(h, 0, |h| - 1);
  }

  /** Filtering a history is filtering its two halves around any split. */
  lemma {:induction false} FilteredSplit(h: seq<Turn>, k: nat)
    requires RolesPresent(h) && k <= |h|
    ensures RolesPresent(h[..k]) && RolesPresent(h[k..])
    ensures Filtered(h) == Filtered(h[..k]) + Filtered(h[k..])
  {
    RolesPresentSlice(h, 0, k);
    RolesPresentSlice(h, k, |h|);
    assert h[..k] == h[0..k] && h[k..] == h[k..|h|];
    if k == |h| {
      assert h[..k] == h && h[k..] == [];
    } else {
      var init := h[..|h| - 1];
      var tail := h[k..];
      var last := if IsKept(h[|h| - 1]) then [AsMessage(h[|h| - 1])] else [];
      FilteredLast(h);
      FilteredSplit(init, k);
      assert init[..k] == h[..k];
      assert tail[..|tail| - 1] == init[k..] && tail[|tail| - 1] == h[|h| - 1];
      FilteredLast(tail);
      assert Filtered(h) == Filtered(h[..k]) + Filtered(init[k..]) + last;
    }
  }

  /** The history part as evidently intended: start at the kept turn just
      before the first answer, counting positions in the FILTERED list. */
  function HistoryIntended(h: seq<Turn>): seq<Message>
    requires RolesPresent(h)
  {
    match FirstAnswer(h)
    case None => []
    case Some(i) => TrimAt(Filtered(h), |Filtered(h[..i])|)   // the answer's position among the kept turns
  }

  function MessagesIntended(r: Request, hasImage: bool): Result<seq<Message>> {
    if !hasImage then Failure(ValueError(MissingImageMessage))
    else if !RolesPresent(HistoryOf(r)) then Failure(KeyError("role"))
    else Success(WithImage(HistoryIntended(HistoryOf(r)) + [UserMessage(PromptOf(r))]))
  }

  /** The intended history part is the question the first answer replies to
      (the last kept turn before it, if any), that answer, and every kept turn
      after it. */
  lemma StartsAtAnsweredQuestion(h: seq<Turn>)
    requires RolesPresent(h) && FirstAnswer(h).Some?
    ensures FirstAnswer(h).value < |h| && IsAnswer(h[FirstAnswer(h).value])
    ensures var i := FirstAnswer(h).value;
      var before := Filtered(h[..i]);
      HistoryIntended(h) ==
        (if before == [] then [] else [before[|before| - 1]]) + ([AsMessage(h[i])] + Filtered(h[i + 1..]))
  {
    var i := FirstAnswer(h).value;
    var before := Filtered(h[..i]);
    var after := [AsMessage(h[i])] + Filtered(h[i + 1..]);
    assert Filtered(h) == before + after by {
      SplitAtAnswer(h, i);
    }
    FromLastOf(before, after);
  }

  /** Trimming `before + after` at `|before|`, where `after` is not empty,
      keeps the last of `before` and all of `after`. */
  lemma FromLastOf(before: seq<Message>, after: seq<Message>)
    requires after != []
    ensures TrimAt(before + after, |before|) == (if before == [] then [] else [before[|before| - 1]]) + after
  {
    var j := |before|;
    if j - 1 > 0 {
      assert (before + after)[j - 1..] == [before[j - 1]] + after;
    } else if j == 1 {
      assert before == [before[0]];
    }
  }

  /** The kept messages split around a kept turn. */
  lemma SplitAtAnswer(h: seq<Turn>, i: nat)
    requires RolesPresent(h) && i < |h| && IsKept(h[i])
    ensures RolesPresent(h[..i]) && RolesPresent(h[i + 1..])
    ensures Filtered(h) == Filtered(h[..i]) + ([AsMessage(h[i])] + Filtered(h[i + 1..]))
  {
    FilteredSplit(h, i);
    var rest := h[i..];
    assert Filtered(rest) == [AsMessage(h[i])] + Filtered(h[i + 1..]) by {
      FilteredSplit(rest, 1);
      assert rest[..1] == [h[i]] && rest[1..] == h[i + 1..];
      FilteredSingle(h[i]);
    }
  }

  lemma FilteredSingle(t: Turn)
    requires IsKept(t) && t.role.Some?
    ensures RolesPresent([t]) && Filtered([t]) == [AsMessage(t)]
  {
    assert [t][..0] == [];
  }

  /** On a history whose turns before the first answer are all non-blank,
      the code as written and the intended version agree. */
  lemma {:induction false} AgreesWithoutBlankTurns(h: seq<Turn>)
    requires RolesPresent(h) && FirstAnswer(h).Some?
    requires forall k :: 0 <= k < FirstAnswer(h).value ==> IsKept(h[k])
    ensures HistoryIntended(h) == HistoryAsWritten(h)
  {
    var i := FirstAnswer(h).value;
    FilteredKeepsTurns(h[..i]);
    assert |Filtered(h[..i])| == i by {
      KeptPositionsAreAll(h[..i]);
    }
  }

  /** When every turn is kept, every position is a kept position. */
  lemma {:induction false} KeptPositionsAreAll(h: seq<Turn>)
    requires forall k :: 0 <= k < |h| ==> IsKept(h[k])
    ensures |KeptPositions(h)| == |h|
  {
    if h != [] {
      var init := h[..|h| - 1];
      assert forall k :: 0 <= k < |init| ==> init[k] == h[k];
      KeptPositionsAreAll(init);
    }
  }

  /** A conversation whose first assistant reply came back blank:
      question, blank reply, question, answer. */
  function BlankReplyHistory(): seq<Turn> {
    [Turn(Some("user"), Some("q1")), Turn(Some("assistant"), Some("")),
     Turn(Some("user"), Some("q2")), Turn(Some("assistant"), Some("a2"))]
  }

  lemma BlankReplyFacts()
    ensures RolesPresent(BlankReplyHistory())
    ensures FirstAnswer(BlankReplyHistory()) == Some(3)
    ensures Filtered(BlankReplyHistory()[..3]) == [UserMessage("q1"), UserMessage("q2")]
    ensures Filtered(BlankReplyHistory()) ==
      [UserMessage("q1"), UserMessage("q2"), Message("assistant", [TextPart("a2")])]
  {
    var h := BlankReplyHistory();
    assert !Text.IsBlank("q1") && Text.IsBlank("") && !Text.IsBlank("q2") && !Text.IsBlank("a2");
    assert h[..3][..2] == h[..2] && h[..2][..1] == h[..1] && h[..1][..0] == [];
    assert h[..|h| - 1] == h[..3];
    assert FirstAnswer(h[..1]) == None;
    assert FirstAnswer(h[..2]) == None;
    assert FirstAnswer(h[..3]) == None;
    assert Filtered(h[..1]) == [UserMessage("q1")];
    assert Filtered(h[..2]) == [UserMessage("q1")];
  }

  /** As written, the blank reply shifts the trim by one: only the answer is
      kept, the image lands on that assistant turn, and the question it
      replied to ("q2") is dropped. */
  lemma BlankReplyDropsQuestion()
    ensures Messages(Request(Some("p"), Some(BlankReplyHistory())), true) ==
      Success([Message("assistant", [ImagePart, TextPart("a2")]), UserMessage("p")])
  {
    BlankReplyFacts();
    var h := BlankReplyHistory();
    var kept := Filtered(h);
    assert HistoryAsWritten(h) == kept[2..] == [Message("assistant", [TextPart("a2")])];
    var asWritten := [Message("assistant", [TextPart("a2")]), UserMessage("p")];
    assert [ImagePart] + [TextPart("a2")] == [ImagePart, TextPart("a2")];
    assert asWritten[1..] == [UserMessage("p")];
    assert WithImage(asWritten) == [Message("assistant", [ImagePart, TextPart("a2")]), UserMessage("p")];
  }

  /** The intended version keeps the question the answer replies to and puts
      the image on it. */
  lemma BlankReplyKeepsQuestionWhenIntended()
    ensures MessagesIntended(Request(Some("p"), Some(BlankReplyHistory())), true) ==
      Success([Message("user", [ImagePart, TextPart("q2")]), Message("assistant", [TextPart("a2")]),
               UserMessage("p")])
  {
    BlankReplyFacts();
    var h := BlankReplyHistory();
    var kept := Filtered(h);
    assert h[..FirstAnswer(h).value] == h[..3];
    assert HistoryIntended(h) == kept[1..];
    var intended := [UserMessage("q2"), Message("assistant", [TextPart("a2")]), UserMessage("p")];
    assert kept[1..] + [UserMessage("p")] == intended;
    assert [ImagePart] + [TextPart("q2")] == [ImagePart, TextPart("q2")];
    assert intended[1..] == [Message("assistant", [TextPart("a2")]), UserMessage("p")];
    assert WithImage(intended) ==
      [Message("user", [ImagePart, TextPart("q2")]), Message("assistant", [TextPart("a2")]), UserMessage("p")];
  }
}
