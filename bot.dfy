/**
 * The `messageCreate` handler: decides whether a chat message triggers the bot,
 * and for a trigger builds the prompt and the conversation, asks the model,
 * and posts what the response dispatcher calls for. Any failure of the chat
 * client or of the model call ends in one in-character error reply.
 */
module MessageHandler {
  import opened Wrappers
  import opened JsString
  import opened PersonaLoader
  import opened PromptAssembly
  import opened ContextBuilder
  import opened ResponseDispatch

  /** Stand-in for the reply posted when the handler fails outside the posting step. */
  const CrashText: string := "<in-character line: something broke, and it is your fault>"

  /** The output budget of each model call. */
  const MaxOutputTokens: nat := 1024

  /** The harm categories the provider filters on. */
  datatype HarmCategory = Harassment | HateSpeech | SexuallyExplicit | DangerousContent

  /** How readily the provider blocks a category: from low probability of harm and above, down to never. */
  datatype BlockThreshold = BlockLowAndAbove | BlockMediumAndAbove | BlockOnlyHigh | BlockNone

  /** One safety setting: a category and its threshold. */
  datatype SafetySetting = SafetySetting(category: HarmCategory, threshold: BlockThreshold)

  /** Every category is set to block nothing. */
  const SafetySettings: seq<SafetySetting> := [
    SafetySetting(Harassment, BlockNone),
    SafetySetting(HateSpeech, BlockNone),
    SafetySetting(SexuallyExplicit, BlockNone),
    SafetySetting(DangerousContent, BlockNone)
  ]

  /** What the model is asked: the conversation so far, the settings, and the new message. */
  datatype ChatRequest = ChatRequest(
    history: seq<Turn>,
    maxOutputTokens: nat,
    safetySettings: seq<SafetySetting>,
    message: string)

  /** How the model call went: it threw, or it returned a result whose `response` may be missing. */
  datatype CallResult = Threw | Returned(response: Option<ApiResponse>)

  /** The three early returns: the bot answers only people, only in its channel, and never to commands. */
  predicate Triggers(msg: Message, channelId: string) {
    !msg.authorIsBot && msg.channelId == channelId && !StartsWith(msg.content, "!")
  }

  /** What one handled message leads to: the request sent to the model, if any, and the messages posted. */
  datatype Outcome = Outcome(request: Option<ChatRequest>, outputs: seq<Output>)

  /**
   * The handler's effect for `msg`. `shuffled` is the shuffled copy of the stored
   * exemplars; `fetched` the ten most recent channel messages, newest first, or
   * `None` when showing the typing indicator or fetching threw; `call` the model
   * call's result; `failAt` the posting attempt that throws, if any.
   */
  function Handle(msg: Message, channelId: string, selfId: string, shuffled: seq<string>,
                  fetched: Option<seq<Message>>, call: CallResult, failAt: Option<nat>): Outcome
  {
    if !Triggers(msg, channelId) then Outcome(None, [])
    else if fetched.None? then Outcome(None, [Reply(CrashText)])
    else
      var request := ChatRequest(History(SystemPrompt(shuffled), fetched.value, msg.id, selfId),
                                 MaxOutputTokens, SafetySettings, msg.content);
      match call
      case Threw => Outcome(Some(request), [Reply(CrashText)])
      case Returned(response) => Outcome(Some(request), Respond(response, failAt))
  }

  /** The handler posts something exactly when the message triggers it. */
  lemma SilentExactlyWhenNotTriggered(msg: Message, channelId: string, selfId: string, shuffled: seq<string>,
                                      fetched: Option<seq<Message>>, call: CallResult, failAt: Option<nat>)
    ensures Handle(msg, channelId, selfId, shuffled, fetched, call, failAt).outputs == [] <==> !Triggers(msg, channelId)
  {
  }

  /** The bot never reacts to its own messages, since they are a bot's. */
  lemma IgnoresItself(msg: Message, channelId: string, selfId: string, shuffled: seq<string>,
                      fetched: Option<seq<Message>>, call: CallResult, failAt: Option<nat>)
    requires msg.authorId == selfId && msg.authorIsBot
    ensures Handle(msg, channelId, selfId, shuffled, fetched, call, failAt) == Outcome(None, [])
  {
  }

  /**
   * A triggering message that gets as far as the model call sends the message
   * text itself as the new turn, after a conversation that opens with the prompt
   * and the acknowledgement and holds no command and not the message itself.
   * Every harm category is set to block nothing.
   */
  lemma RequestShape(msg: Message, channelId: string, selfId: string, shuffled: seq<string>,
                     fetched: seq<Message>, call: CallResult, failAt: Option<nat>)
    requires Triggers(msg, channelId)
    ensures var out := Handle(msg, channelId, selfId, shuffled, Some(fetched), call, failAt);
      && out.request.Some?
      && out.request.value.message == msg.content
      && out.request.value.maxOutputTokens == 1024
      && (forall c: HarmCategory :: SafetySetting(c, BlockNone) in out.request.value.safetySettings)
      && SeededFromFetched(out.request.value.history, SystemPrompt(shuffled), fetched, msg.id)
  {
    var h := History(SystemPrompt(shuffled), fetched, msg.id, selfId);
    HistoryTurnsFromFetched(SystemPrompt(shuffled), fetched, msg.id, selfId);
    SafetySettingsBlockNothing();
    var out := Handle(msg, channelId, selfId, shuffled, Some(fetched), call, failAt);
    assert out.request.value.history == h;
  }

  /** Every harm category is set to block nothing. */
  lemma SafetySettingsBlockNothing()
    ensures forall c: HarmCategory :: SafetySetting(c, BlockNone) in SafetySettings
  {
    forall c: HarmCategory ensures SafetySetting(c, BlockNone) in SafetySettings {
      match c
      case Harassment => assert SafetySettings[0] == SafetySetting(c, BlockNone);
      case HateSpeech => assert SafetySettings[1] == SafetySetting(c, BlockNone);
      case SexuallyExplicit => assert SafetySettings[2] == SafetySetting(c, BlockNone);
      case DangerousContent => assert SafetySettings[3] == SafetySetting(c, BlockNone);
    }
  }

  /**
   * The stored exemplars are on one line each, so the prompt built from any
   * shuffle of them holds exactly `min(1024, n)` bullet lines, drawn from them.
   */
  lemma StoredExemplarsPrompt(persona: Persona, shuffled: seq<string>)
    requires persona.Valid()
    requires multiset(shuffled) == multiset(persona.messages) && |persona.messages| > 0
    ensures var sample := shuffled[..SampleSize(|shuffled|)];
      && |sample| == SampleSize(|persona.messages|)
      && multiset(sample) <= multiset(persona.messages)
      && SystemPrompt(shuffled) == PromptPrefix + Bullets(sample) + PromptClosing
      && SplitOn(Bullets(sample), "\n") == seq(|sample|, k requires 0 <= k < |sample| => BulletLine(sample[k])) + [""]
  {
    forall e | e in persona.messages ensures '\n' !in e {
      assert IsExemplar(e);
    }
    PromptSample(persona.messages, shuffled);
  }

  /** A failure before the answer comes back ends in the error reply alone. */
  lemma FailureBeforeAnswer(msg: Message, channelId: string, selfId: string, shuffled: seq<string>,
                            fetched: Option<seq<Message>>, call: CallResult, failAt: Option<nat>)
    requires Triggers(msg, channelId)
    requires fetched.None? || call.Threw?
    ensures Handle(msg, channelId, selfId, shuffled, fetched, call, failAt).outputs == [Reply(CrashText)]
  {
  }

  /**
   * The handler. The persona is only read; the prompt, the history and the
   * posted messages are built as the handler builds them, step by step.
   */
  method OnMessage(persona: Persona, msg: Message, channelId: string, selfId: string, shuffled: seq<string>,
                   fetched: Option<seq<Message>>, call: CallResult, failAt: Option<nat>)
    returns (request: Option<ChatRequest>, outputs: seq<Output>)
    requires multiset(shuffled) == multiset(persona.messages)
    ensures Outcome(request, outputs) == Handle(msg, channelId, selfId, shuffled, fetched, call, failAt)
  {
    request := None;
    outputs := [];
    if msg.authorIsBot {
      return;
    }
    if msg.channelId != channelId {
      return;
    }
    if StartsWith(msg.content, "!") {
      return;
    }
    var systemPrompt := BuildSystemPrompt(persona.messages, shuffled);
    if fetched.None? {
      outputs := [Reply(CrashText)];
      return;
    }
    var history := BuildHistory(systemPrompt, fetched.value, msg.id, selfId);
    request := Some(ChatRequest(history, MaxOutputTokens, SafetySettings, msg.content));
    match call
    case Threw =>
      outputs := [Reply(CrashText)];
    case Returned(response) =>
      outputs := Dispatch(response, failAt);
  }
}
