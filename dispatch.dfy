/**
 * The response dispatcher: checks the model's answer, maps a blocked or empty
 * answer to a single in-character fallback reply, and otherwise posts the
 * answer paragraph by paragraph, the first as a reply to the trigger message
 * and the rest as plain channel messages.
 */
module ResponseDispatch {
  import opened Wrappers
  import opened JsString

  /** One message the bot posts: a threaded reply to the trigger message, or a plain channel message. */
  datatype Output = Reply(text: string) | Send(text: string)

  /** Stand-in for the fallback when the provider blocked the answer for safety. */
  const SafetyBlockedText: string := "<in-character line: the provider would not take what I was about to say>"

  /** Stand-in for the generic refusal fallback. */
  const RefusalText: string := "<in-character refusal: ask properly>"

  /** Stand-in for the fallback after posting a paragraph failed. */
  const SendFailedText: string := "<in-character line: I talked so much the chat broke>"

  /** The paragraph separator of the answer text. */
  const ParagraphBreak: string := "\n\n"

  /** The first candidate of an answer: whether it has content, and why generation stopped. */
  datatype Candidate = Candidate(hasContent: bool, finishReason: Option<string>)

  /** The parts of the model's answer the bot looks at: the candidate list and `response.text()`. */
  datatype ApiResponse = ApiResponse(candidates: Option<seq<Candidate>>, text: string)

  /** There is a response, it has a non-empty candidate list, and its first candidate has content. */
  predicate IsValid(response: Option<ApiResponse>) {
    && response.Some?
    && response.value.candidates.Some?
    && |response.value.candidates.value| > 0
    && response.value.candidates.value[0].hasContent
  }

  /** `response?.candidates?.[0]?.finishReason` */
  function FinishReason(response: Option<ApiResponse>): Option<string> {
    if response.Some? && response.value.candidates.Some? && |response.value.candidates.value| > 0
    then response.value.candidates.value[0].finishReason
    else None
  }

  /** The first paragraph goes out untrimmed as a reply, unless it is blank. */
  function FirstPart(paragraph: string): seq<Output> {
    if |Trim(paragraph)| > 0 then [Reply(paragraph)] else []
  }

  /** A later paragraph goes out trimmed as a channel message, unless it is blank. */
  function LaterPart(paragraph: string): seq<Output>
  {
    var part := Trim(paragraph);
    if |part| > 0 then [Send(part)] else []
  }

  /** The messages for the later paragraphs `paragraphs[1..end]`, in order. */
  function LaterParts(paragraphs: seq<string>, end: nat): seq<Output>
    requires end <= |paragraphs|
  {
    if end <= 1 then [] else LaterParts(paragraphs, end - 1) + LaterPart(paragraphs[end - 1])
  }

  /** The messages to post for the paragraphs of an answer, in paragraph order. */
  function Planned(paragraphs: seq<string>): seq<Output>
    requires |paragraphs| > 0
  {
    FirstPart(paragraphs[0]) + LaterParts(paragraphs, |paragraphs|)
  }

  /**
   * What is actually posted when attempt number `failAt` (counting from 0) throws:
   * the messages before it stay posted, and one fallback reply follows.
   */
  function Delivered(plan: seq<Output>, failAt: Option<nat>): seq<Output> {
    if failAt.Some? && failAt.value < |plan| then plan[..failAt.value] + [Reply(SendFailedText)] else plan
  }

  /** Everything the dispatcher posts for one answer. */
  function Respond(response: Option<ApiResponse>, failAt: Option<nat>): (r: seq<Output>)
    ensures |r| >= 1
    ensures forall k :: 0 <= k < |r| ==> r[k].text != []
  {
    if !IsValid(response) then
      [Reply(if FinishReason(response) == Some("SAFETY") then SafetyBlockedText else RefusalText)]
    else if Trim(response.value.text) == "" then
      [Reply(RefusalText)]
    else
      var paragraphs := SplitOn(response.value.text, ParagraphBreak);
      TrimEmptyIffBlank(response.value.text);
      PlannedEmptyOnlyWhenBlank(response.value.text);
      PlannedShape(paragraphs);
      TrimEmptyIffBlank(paragraphs[0]);
      Delivered(Planned(paragraphs), failAt)
  }

  /** The paragraphs are handled one by one: the messages for the first paragraphs are a prefix of those for more. */
  lemma {:induction false} LaterPartsPrefix(paragraphs: seq<string>, i: nat, j: nat)
    requires i <= j <= |paragraphs|
    ensures |LaterParts(paragraphs, i)| <= |LaterParts(paragraphs, j)|
    ensures LaterParts(paragraphs, j)[..|LaterParts(paragraphs, i)|] == LaterParts(paragraphs, i)
    decreases j
  {
    if i < j && j > 1 {
      LaterPartsPrefix(paragraphs, i, j - 1);
      var shorter := LaterParts(paragraphs, j - 1);
      var done := LaterParts(paragraphs, i);
      var extra := LaterPart(paragraphs[j - 1]);
      assert LaterParts(paragraphs, j) == shorter + extra;
      assert (shorter + extra)[..|done|] == shorter[..|done|];
    }
  }

  /** At most one message per later paragraph. */
  lemma {:induction false} LaterPartsLength(paragraphs: seq<string>, end: nat)
    requires end <= |paragraphs|
    ensures |LaterParts(paragraphs, end)| <= if end == 0 then 0 else end - 1
  {
    if end > 1 {
      LaterPartsLength(paragraphs, end - 1);
    }
  }

  /** Every message for a later paragraph is a plain channel message whose text is trimmed and not empty. */
  lemma {:induction false} LaterPartsAreTrimmedSends(paragraphs: seq<string>, end: nat)
    requires end <= |paragraphs|
    ensures forall k :: 0 <= k < |LaterParts(paragraphs, end)| ==>
      var out := LaterParts(paragraphs, end)[k]; out.Send? && out.text != [] && IsTrimmed(out.text)
  {
    if end > 1 {
      var init := LaterParts(paragraphs, end - 1);
      var last := paragraphs[end - 1];
      LaterPartsAreTrimmedSends(paragraphs, end - 1);
      forall k | 0 <= k < |LaterParts(paragraphs, end)|
        ensures var out := LaterParts(paragraphs, end)[k]; out.Send? && out.text != [] && IsTrimmed(out.text)
      {
        if k >= |init| {
          assert LaterParts(paragraphs, end)[k] == Send(Trim(last));
        } else {
          assert LaterParts(paragraphs, end)[k] == init[k];
        }
      }
    }
  }

  /** Later paragraphs produce nothing only when all of them are blank. */
  lemma {:induction false} LaterPartsNone(paragraphs: seq<string>, end: nat)
    requires end <= |paragraphs|
    requires LaterParts(paragraphs, end) == []
    ensures forall k :: 1 <= k < end ==> Blank(paragraphs[k])
  {
    if end > 1 {
      var last := paragraphs[end - 1];
      assert LaterParts(paragraphs, end) == LaterParts(paragraphs, end - 1) + LaterPart(last);
      assert LaterParts(paragraphs, end - 1) == [] && LaterPart(last) == [];
      LaterPartsNone(paragraphs, end - 1);
      TrimEmptyIffBlank(last);
    }
  }

  /** A paragraph with text adds a message, so the messages before it are fewer than all of them. */
  lemma LaterPartsGrow(paragraphs: seq<string>, i: nat)
    requires 1 <= i < |paragraphs|
    requires Trim(paragraphs[i]) != []
    ensures |LaterParts(paragraphs, i)| < |LaterParts(paragraphs, |paragraphs|)|
  {
    assert |LaterParts(paragraphs, i + 1)| == |LaterParts(paragraphs, i)| + 1;
    LaterPartsPrefix(paragraphs, i + 1, |paragraphs|);
  }

  /** The plan starts with the messages for the first paragraph and for the later ones up to `i`. */
  lemma PlannedPrefix(paragraphs: seq<string>, i: nat)
    requires 1 <= i <= |paragraphs|
    ensures var done := FirstPart(paragraphs[0]) + LaterParts(paragraphs, i);
      |done| <= |Planned(paragraphs)| && Planned(paragraphs)[..|done|] == done
  {
    var later := LaterParts(paragraphs, |paragraphs|);
    LaterPartsPrefix(paragraphs, i, |paragraphs|);
    var done := LaterParts(paragraphs, i);
    assert (FirstPart(paragraphs[0]) + later)[..|FirstPart(paragraphs[0])| + |done|] == FirstPart(paragraphs[0]) + later[..|done|];
  }

  /**
   * When the attempt for paragraph `i` throws, what was posted before it stays
   * and the fallback reply follows.
   */
  lemma DeliveredFailingAt(paragraphs: seq<string>, i: nat, failAt: Option<nat>)
    requires 1 <= i < |paragraphs|
    requires Trim(paragraphs[i]) != []
    requires failAt == Some(|FirstPart(paragraphs[0]) + LaterParts(paragraphs, i)|)
    ensures Delivered(Planned(paragraphs), failAt)
         == FirstPart(paragraphs[0]) + LaterParts(paragraphs, i) + [Reply(SendFailedText)]
  {
    LaterPartsGrow(paragraphs, i);
    PlannedPrefix(paragraphs, i);
  }

  /** An answer splits into paragraphs that produce no message only when the whole answer is whitespace. */
  lemma PlannedEmptyOnlyWhenBlank(text: string)
    ensures Planned(SplitOn(text, ParagraphBreak)) == [] ==> Blank(text)
  {
    var paragraphs := SplitOn(text, ParagraphBreak);
    if Planned(paragraphs) == [] {
      assert FirstPart(paragraphs[0]) == [] && LaterParts(paragraphs, |paragraphs|) == [];
      TrimEmptyIffBlank(paragraphs[0]);
      LaterPartsNone(paragraphs, |paragraphs|);
      assert Blank(ParagraphBreak);
      JoinBlank(paragraphs, ParagraphBreak);
    }
  }

  /** A text that is not all whitespace stays so inside a longer one. */
  lemma NotBlankPrefix(a: string, b: string)
    requires !Blank(a)
    ensures !Blank(a + b)
  {
    var k :| 0 <= k < |a| && !IsSpace(a[k]);
    assert (a + b)[k] == a[k];
  }

  /** A blocked or malformed answer gets exactly one reply: the safety line when generation stopped for safety, the generic refusal otherwise. */
  lemma RespondInvalid(response: Option<ApiResponse>, failAt: Option<nat>)
    requires !IsValid(response)
    ensures var out := Respond(response, failAt);
      && |out| == 1 && out[0].Reply?
      && (out[0].text == SafetyBlockedText <==> FinishReason(response) == Some("SAFETY"))
      && (out[0].text == RefusalText <==> FinishReason(response) != Some("SAFETY"))
  {
  }

  /** An answer without candidates, or with an empty list of them, gets the generic refusal. */
  lemma RespondWithoutCandidates(candidates: Option<seq<Candidate>>, text: string, failAt: Option<nat>)
    requires candidates == None || candidates == Some([])
    ensures Respond(Some(ApiResponse(candidates, text)), failAt) == [Reply(RefusalText)]
  {
  }

  /** A valid answer whose text is whitespace only gets the generic refusal, and nothing else is posted. */
  lemma RespondBlank(response: Option<ApiResponse>, failAt: Option<nat>)
    requires IsValid(response) && Blank(response.value.text)
    ensures Respond(response, failAt) == [Reply(RefusalText)]
  {
    TrimEmptyIffBlank(response.value.text);
  }

  /**
   * The plan for the paragraphs of an answer: at most one message per paragraph;
   * the first paragraph, when it has text, is the reply, verbatim; every other
   * message is a channel message whose text is trimmed and not empty.
   */
  lemma PlannedShape(paragraphs: seq<string>)
    requires |paragraphs| > 0
    ensures var out := Planned(paragraphs);
      && |out| <= |paragraphs|
      && (!Blank(paragraphs[0]) ==> |out| >= 1 && out[0] == Reply(paragraphs[0]))
      && forall k :: 0 <= k < |out| && !(k == 0 && !Blank(paragraphs[0])) ==>
           out[k].Send? && out[k].text != [] && IsTrimmed(out[k].text)
  {
    TrimEmptyIffBlank(paragraphs[0]);
    LaterPartsLength(paragraphs, |paragraphs|);
    LaterPartsAreTrimmedSends(paragraphs, |paragraphs|);
    var first := FirstPart(paragraphs[0]);
    var later := LaterParts(paragraphs, |paragraphs|);
    var out: seq<Output> := first + later;
    forall k | 0 <= k < |out| && !(k == 0 && !Blank(paragraphs[0]))
      ensures out[k].Send? && out[k].text != [] && IsTrimmed(out[k].text)
    {
      assert out[k] == later[k - |first|];
    }
  }

  /** A valid answer that is not all whitespace, posted without failure, is posted as planned, with at least one message. */
  lemma RespondParagraphs(response: Option<ApiResponse>)
    requires IsValid(response) && !Blank(response.value.text)
    ensures var paragraphs := SplitOn(response.value.text, ParagraphBreak);
      Respond(response, None) == Planned(paragraphs) && |Planned(paragraphs)| >= 1
  {
    TrimEmptyIffBlank(response.value.text);
    PlannedEmptyOnlyWhenBlank(response.value.text);
  }

  /**
   * When attempt `k` to post throws, the messages before it are those the
   * undisturbed run posts, and the fallback reply comes last.
   */
  lemma RespondSendFailure(response: Option<ApiResponse>, k: nat)
    requires IsValid(response) && !Blank(response.value.text)
    requires k < |Respond(response, None)|
    ensures var out := Respond(response, Some(k));
      |out| == k + 1 && out[..k] == Respond(response, None)[..k] && out[k] == Reply(SendFailedText)
  {
    RespondParagraphs(response);
    TrimEmptyIffBlank(response.value.text);
    var plan := Planned(SplitOn(response.value.text, ParagraphBreak));
    assert Respond(response, Some(k)) == Delivered(plan, Some(k));
    var out := plan[..k] + [Reply(SendFailedText)];
    assert out[..k] == plan[..k];
  }

  /** An attempt number past the last message never comes, so nothing changes. */
  lemma RespondFailureTooLate(response: Option<ApiResponse>, k: nat)
    requires k >= |Respond(response, None)|
    ensures Respond(response, Some(k)) == Respond(response, None)
  {
  }

  /** A first paragraph on a single line ends at the first paragraph break. */
  lemma SplitTwoParagraphs(first: string, second: string)
    requires '\n' !in first
    requires forall i :: !OccursAt(second, ParagraphBreak, i)
    ensures SplitOn(first + ParagraphBreak + second, ParagraphBreak) == [first, second]
  {
    var text := first + ParagraphBreak + second;
    forall i | 0 <= i < |first| ensures !OccursAt(text, ParagraphBreak, i) {
      assert text[i] == first[i];
    }
    SplitAtFirstSep(first, ParagraphBreak, second);
    SplitWithoutSep(second, ParagraphBreak);
  }

  /** The plan for two paragraphs, the first with text. */
  lemma PlannedTwo(first: string, second: string)
    requires !Blank(first)
    ensures Planned([first, second]) == if Blank(second) then [Reply(first)] else [Reply(first), Send(Trim(second))]
  {
    TrimEmptyIffBlank(first);
    TrimEmptyIffBlank(second);
    assert LaterParts([first, second], 2) == LaterPart(second);
  }

  /**
   * An answer of two paragraphs, the first on a single line with text: the first
   * goes out as the reply and the second, trimmed, in the channel, unless it is blank.
   */
  lemma RespondTwoParagraphs(candidates: Option<seq<Candidate>>, first: string, second: string)
    requires IsValid(Some(ApiResponse(candidates, first + ParagraphBreak + second)))
    requires '\n' !in first && !Blank(first)
    requires forall i :: !OccursAt(second, ParagraphBreak, i)
    ensures Respond(Some(ApiResponse(candidates, first + ParagraphBreak + second)), None)
         == if Blank(second) then [Reply(first)] else [Reply(first), Send(Trim(second))]
  {
    var text := first + ParagraphBreak + second;
    assert !Blank(text) by {
      NotBlankPrefix(first, ParagraphBreak + second);
      assert text == first + (ParagraphBreak + second);
    }
    RespondParagraphs(Some(ApiResponse(candidates, text)));
    SplitTwoParagraphs(first, second);
    PlannedTwo(first, second);
  }

  /** `"Hello.\n\nHow are you?"` is posted as the reply `"Hello."` followed by the channel message `"How are you?"`. */
  lemma RespondHelloExample(candidates: Option<seq<Candidate>>)
    requires IsValid(Some(ApiResponse(candidates, "Hello.\n\nHow are you?")))
    ensures Respond(Some(ApiResponse(candidates, "Hello.\n\nHow are you?")), None) == [Reply("Hello."), Send("How are you?")]
  {
    var second := "How are you?";
    assert "Hello.\n\nHow are you?" == "Hello." + ParagraphBreak + second;
    assert !IsSpace('H') && "Hello."[0] == 'H';
    assert !IsSpace('H') && second[0] == 'H' && !IsSpace('?') && second[|second| - 1] == '?';
    forall i: nat ensures !OccursAt(second, ParagraphBreak, i) {
      if i + 2 <= |second| {
        assert second[i..i + 2][0] == second[i] != '\n';
      }
    }
    RespondTwoParagraphs(candidates, "Hello.", second);
    TrimFixesTrimmed(second);
  }

  /** When the very first attempt throws, only the fallback reply is posted. */
  lemma DeliveredFailingFirst(paragraphs: seq<string>, failAt: Option<nat>)
    requires |paragraphs| > 0 && Trim(paragraphs[0]) != []
    requires failAt.Some? && failAt.value == 0
    ensures Delivered(Planned(paragraphs), failAt) == [Reply(SendFailedText)]
  {
  }

  /** A later paragraph that is not blank adds its trimmed text to what was posted before it. */
  lemma SendsNext(paragraphs: seq<string>, i: nat, outputs: seq<Output>)
    requires 1 <= i < |paragraphs| && Trim(paragraphs[i]) != []
    requires outputs == FirstPart(paragraphs[0]) + LaterParts(paragraphs, i)
    ensures outputs + [Send(Trim(paragraphs[i]))] == FirstPart(paragraphs[0]) + LaterParts(paragraphs, i + 1)
  {
    assert LaterParts(paragraphs, i + 1) == LaterParts(paragraphs, i) + [Send(Trim(paragraphs[i]))];
  }

  /** A blank later paragraph adds nothing. */
  lemma SkipsNext(paragraphs: seq<string>, i: nat)
    requires 1 <= i < |paragraphs| && Trim(paragraphs[i]) == []
    ensures LaterParts(paragraphs, i + 1) == LaterParts(paragraphs, i)
  {
  }

  /** When the attempt for a later paragraph throws, the fallback reply follows what was posted before it. */
  lemma FailsNext(paragraphs: seq<string>, i: nat, failAt: Option<nat>, outputs: seq<Output>)
    requires 1 <= i < |paragraphs| && Trim(paragraphs[i]) != []
    requires outputs == FirstPart(paragraphs[0]) + LaterParts(paragraphs, i)
    requires failAt.Some? && failAt.value == |outputs|
    ensures outputs + [Reply(SendFailedText)] == Delivered(Planned(paragraphs), failAt)
  {
    DeliveredFailingAt(paragraphs, i, failAt);
  }

  /** When no attempt throws, everything planned is posted. */
  lemma DeliveredComplete(paragraphs: seq<string>, failAt: Option<nat>, outputs: seq<Output>)
    requires |paragraphs| > 0
    requires outputs == FirstPart(paragraphs[0]) + LaterParts(paragraphs, |paragraphs|)
    requires failAt.Some? ==> failAt.value >= |outputs|
    ensures outputs == Delivered(Planned(paragraphs), failAt)
  {
  }

  /**
   * Posts the paragraphs: the first as a reply when it is not blank, then each
   * later one, trimmed, when it is not blank. `failAt` is the attempt that
   * throws, if any; the failure is caught and answered with one fallback reply.
   */
  method SendParagraphs(paragraphs: seq<string>, failAt: Option<nat>) returns (outputs: seq<Output>)
    requires |paragraphs| > 0
    ensures outputs == Delivered(Planned(paragraphs), failAt)
  {
    outputs := [];
    if |Trim(paragraphs[0])| > 0 {
      if failAt.Some? && failAt.value == 0 {
        DeliveredFailingFirst(paragraphs, failAt);
        outputs := [Reply(SendFailedText)];
        return;
      }
      outputs := [Reply(paragraphs[0])];
    }
    for i := 1 to |paragraphs|
      invariant outputs == FirstPart(paragraphs[0]) + LaterParts(paragraphs, i)
      invariant failAt.Some? ==> failAt.value >= |outputs|
    {
      var part := Trim(paragraphs[i]);
      if |part| > 0 {
        if failAt.Some? && failAt.value == |outputs| {
          FailsNext(paragraphs, i, failAt, outputs);
          outputs := outputs + [Reply(SendFailedText)];
          return;
        }
        SendsNext(paragraphs, i, outputs);
        outputs := outputs + [Send(part)];
      } else {
        SkipsNext(paragraphs, i);
      }
    }
    DeliveredComplete(paragraphs, failAt, outputs);
  }

  /** Checks the answer and posts what it calls for. */
  method Dispatch(response: Option<ApiResponse>, failAt: Option<nat>) returns (outputs: seq<Output>)
    ensures outputs == Respond(response, failAt)
  {
    if !IsValid(response) {
      var finishReason := FinishReason(response);
      if finishReason == Some("SAFETY") {
        outputs := [Reply(SafetyBlockedText)];
      } else {
        outputs := [Reply(RefusalText)];
      }
      return;
    }
    var text := response.value.text;
    if Trim(text) == "" {
      outputs := [Reply(RefusalText)];
      return;
    }
    var paragraphs := SplitOn(text, ParagraphBreak);
    outputs := SendParagraphs(paragraphs, failAt);
  }
}
