# BoiolerGPT core, modelled in Dafny

BoiolerGPT is a Discord bot that impersonates a person ("Russo") through Google's
Gemini model. Its single source file, `index.js`, contains a small sequential core,
and this project models that core:

- **Persona loader** (`PersonaLoader`, `persona.dfy`). `loadRussoPersonality` reads the
  WhatsApp transcript files and concatenates what it could read. It splits the text
  into lines. Each line is matched against `-\s(Gabriel\s"Russo"|Russo):\s(.+)`, and
  the trimmed second group of the leftmost match is kept. Captures that are the
  hidden-media placeholder, or three UTF-16 code units or shorter, are dropped. The
  module-level `russoMessages` list is the field `messages` of the class `Persona`.
  `Load` replaces it wholesale, or leaves it alone when nothing was read.
- **Trigger filter** (`MessageHandler.Triggers`, `bot.dfy`). Messages from bots, from
  other channels, or starting with `!` are ignored.
- **Prompt assembly** (`PromptAssembly`, `prompt.dfy`). The prompt is a fixed prefix,
  then `min(1024, n)` bullet lines `- "<exemplar>"` taken from a shuffled copy of the
  exemplars (or a fallback sentence when there are none), then a closing line.
- **History construction** (`ContextBuilder`, `history.dfy`). The history is a seed of
  (user, prompt) and (model, acknowledgement). The fetched messages follow, reversed
  to oldest first, without commands, without foreign bots' messages and without the
  trigger message. The role is `model` exactly for the bot's own messages.
- **Response dispatch** (`ResponseDispatch`, `dispatch.dfy`). An invalid response gets
  one reply: the safety line when the first candidate stopped for `"SAFETY"`, the
  generic refusal otherwise. A whitespace-only text gets the generic refusal.
  Otherwise the text is split on `"\n\n"`. The first paragraph is posted untrimmed as a
  reply unless it is blank. Later paragraphs are posted trimmed as channel messages,
  skipping blank ones. A failing send is caught and answered with one fallback reply;
  what was already posted stays posted.
- **Handler** (`MessageHandler.OnMessage`). It composes the parts above. A failure of
  the typing indicator, of the history fetch or of the model call ends in one error
  reply.

String operations of JavaScript (`trim`, `startsWith`, `split`, and the regex classes
`\s` and `.`) are in `JsString` (`jsstring.dfy`). `\s` and `trim` use the ECMAScript
WhiteSpace and LineTerminator code points. `.` matches anything except `\n`, `\r`,
U+2028 and U+2029. Dafny strings hold Unicode scalar values, while JavaScript strings
hold UTF-16 code units. Every character the core looks for is one code unit, so only
the loader's length filter tells the two apart. That filter counts code units
(`JsString.Utf16Length`): `"oi😂"` is four units long and is kept.

Inputs that come from I/O are parameters of the model:
- the transcript files are a sequence of `Option<string>`, with `None` for a missing or
  unreadable file;
- the result of `sort(() => 0.5 - Math.random())` is a parameter `shuffled`, required
  only to be a permutation (`multiset(shuffled) == multiset(exemplars)`);
- the fetched channel history is `Option<seq<Message>>`, newest first, with `None` when
  `sendTyping` or `fetch` threw;
- the model call is a `CallResult`, the response shape an `ApiResponse`, and `failAt`
  names the send attempt that throws, if any.

Three behaviours of the code are easy to misread. The model follows the code in each:
- When no transcript content was read, `russoMessages` keeps its previous value
  (`index.js:48-51`); it is not reset to an empty list.
- The reply is `paragraphs[0]`, untrimmed, and only when it is not blank
  (`index.js:183-185`). The first non-blank paragraph is not promoted to a reply: an
  answer starting with `"\n\n"` is posted with channel messages only.
- The shuffle is the comparator trick, so no uniformity is claimed. The model only
  knows that the shuffle is a permutation.

## Model

| member | source | states |
|---|---|---|
| `JsString.Utf16Length` | index.js:66 | `.length` counts one or two code units per character, exactly one per character when all lie in the Basic Multilingual Plane |
| `JsString.Trim` | index.js:61 | the result has no leading or trailing whitespace and is no longer than the input |
| `JsString.TrimEmptyIffBlank` | index.js:173 | `s.trim() === ''` holds exactly when every character of `s` is whitespace |
| `JsString.TrimIdempotent` | index.js:61-66 | trimming an already trimmed capture changes nothing, so the filter's `line.trim()` sees the stored text |
| `JsString.SplitOn` | index.js:53 | `split(sep)` yields at least one piece, and joining the pieces with `sep` gives back the input |
| `JsString.SplitPiecesAvoidSep` | index.js:179 | no paragraph produced by the split contains the separator |
| `PersonaLoader.PatternAt` | index.js:59 | the declarative reading of the pattern: hyphen, one whitespace, a speaker label, colon, one whitespace, then a non-line-terminator where the second group starts |
| `PersonaLoader.MatchAt` | index.js:59 | the pattern attempt at one position succeeds exactly at the unique capture start the pattern allows there |
| `PersonaLoader.FindMatch` | index.js:59 | the unanchored match is the leftmost position where the pattern matches, and none is found only when it matches nowhere |
| `PersonaLoader.TakeLine` | index.js:59 | the greedy `(.+)` takes the longest run of non-line-terminator characters |
| `PersonaLoader.Captured` | index.js:57-64 | a line yields a trimmed capture with no line terminator, or nothing |
| `PersonaLoader.CapturedAtLeftmostMatch` | index.js:59-61 | a line whose leftmost match has its group at `p` yields the trimmed rest of the line from `p` up to the first line terminator |
| `PersonaLoader.CapturedWithoutMatch` | index.js:59-63 | a line on which the pattern matches nowhere yields nothing |
| `PersonaLoader.TranscriptLine` | index.js:59-61 | a line `<prefix>- <speaker>: <text><CR...>` with no hyphen in the prefix yields `text` trimmed, cut at the carriage return |
| `PersonaLoader.LineExemplar` | index.js:57-66 | one line through `map` and `filter`: its capture when kept, nothing otherwise |
| `PersonaLoader.Kept` | index.js:66 | the filter keeps a capture that is not `null`, not the hidden-media placeholder and longer than three UTF-16 code units once trimmed |
| `PersonaLoader.Exemplars` | index.js:56-66 | the `map`/`filter` chain yields at most one exemplar per line |
| `PersonaLoader.ExemplarsClean` | index.js:59-66 | every exemplar is trimmed, longer than three code units, not the hidden-media placeholder and on one line |
| `PersonaLoader.CleanLineExemplar` | index.js:56-66 | a transcript line whose text is already clean yields exactly that text |
| `PersonaLoader.EmojiMessageKept` | index.js:59-66 | the line `- Russo: oi😂` yields the exemplar `oi😂`, four code units long |
| `PersonaLoader.ExemplarsFromLines` | index.js:56-66 | a string is an exemplar exactly when it is the kept capture of one of the lines |
| `PersonaLoader.ExemplarsAppend` | index.js:56-66 | exemplars keep the order of their lines |
| `PersonaLoader.Concatenated` | index.js:32-46 | `allContent`: the texts of the readable files joined in list order |
| `PersonaLoader.ConcatenatedAppend` | index.js:32-46 | file texts are concatenated in list order with nothing in between |
| `PersonaLoader.ConcatenatedEmpty` | index.js:37-48 | the content is empty exactly when every file is missing, unreadable or empty |
| `PersonaLoader.Persona.constructor` | index.js:20 | the exemplar list starts empty |
| `PersonaLoader.Persona.Load` | index.js:26-69 | with no content the list is unchanged; otherwise it is replaced by the exemplars of the content's lines, and every stored exemplar stays clean |
| `PromptAssembly.SampleSize` | index.js:99 | the sample size is at most 1024 and at most `n`, and equals one of them |
| `PromptAssembly.SystemPrompt` | index.js:88-109 | the prompt for a given shuffle: prefix, bullets of its first `min(1024, n)` items or the fallback sentence, closing line |
| `PromptAssembly.BuildSystemPrompt` | index.js:88-109 | the loop-built prompt is the prefix, the bullets of the first `min(1024, n)` shuffled exemplars or the fallback, then the closing line |
| `PromptAssembly.BulletsSplit` | index.js:103-105 | the bullet block splits at newlines into exactly one `- "<ex>"` line per sampled exemplar |
| `PromptAssembly.PromptSample` | index.js:97-105 | with n > 0 the prompt holds exactly `min(1024, n)` bullet lines whose texts form a sub-multiset of the exemplars |
| `PromptAssembly.PromptWithoutExemplars` | index.js:106-109 | with no exemplars the prompt is the prefix, the fallback sentence and the closing line |
| `ContextBuilder.Kept` | index.js:122-126 | a fetched message is skipped when it starts with `!`, comes from a bot other than this one, or is the trigger message |
| `ContextBuilder.TurnOf` | index.js:125-130 | the turn carries the message text, with role `model` when this bot wrote it and `user` otherwise |
| `ContextBuilder.Retained` | index.js:121-131 | the fetched messages that pass the three skip conditions, in their order |
| `ContextBuilder.RetainedMembers` | index.js:121-131 | a fetched message is kept exactly when it is no command, not from a foreign bot and not the trigger message |
| `ContextBuilder.RetainedAppend` | index.js:121-132 | the filter keeps the relative order of the messages |
| `ContextBuilder.ReversedAppend` | index.js:119 | reversing a concatenation reverses and swaps its parts |
| `ContextBuilder.History` | index.js:112-132 | the conversation: the seed, then the turns of the kept messages after reversing the fetched ones |
| `ContextBuilder.BuildHistory` | index.js:112-132 | the pushed history equals the seed followed by the turns of the kept messages, oldest first |
| `ContextBuilder.HistoryShape` | index.js:112-132 | the history opens with (user, prompt) and (model, ack); every other turn is a kept fetched message's text, never a command, with role model exactly for the bot's own messages; at most as many as fetched |
| `ContextBuilder.HistoryTurnsFromFetched` | index.js:112-132 | the history opens with the seed, and every further turn is the text of a fetched message that is no command and not the trigger message |
| `ContextBuilder.HistoryAppendsInOrder` | index.js:119-132 | newer fetched messages add their turns after those of older ones |
| `ResponseDispatch.IsValid` | index.js:156 | a response is usable when it exists, has a non-empty candidate list, and its first candidate has content |
| `ResponseDispatch.FinishReason` | index.js:160 | the finish reason of the first candidate, absent when the response or its candidates are |
| `ResponseDispatch.Planned` | index.js:179-193 | the messages for the paragraphs: the untrimmed first as a reply unless blank, then each later one trimmed as a send unless blank |
| `ResponseDispatch.Delivered` | index.js:181-197 | what is posted when a send attempt throws: the messages before it, then one fallback reply |
| `ResponseDispatch.Respond` | index.js:156-197 | whatever the response and whichever send fails, at least one message is posted, and no posted message is empty |
| `ResponseDispatch.RespondInvalid` | index.js:156-167 | an invalid response gets exactly one reply, the safety line exactly when the finish reason is `SAFETY`, the generic refusal otherwise |
| `ResponseDispatch.RespondWithoutCandidates` | index.js:156-166 | a response with no or empty candidates gets the generic refusal alone |
| `ResponseDispatch.RespondBlank` | index.js:170-177 | a whitespace-only text gets the generic refusal alone |
| `ResponseDispatch.PlannedShape` | index.js:183-193 | at most one message per paragraph; a non-blank first paragraph is the verbatim reply; every other message is a trimmed non-empty channel message |
| `ResponseDispatch.PlannedEmptyOnlyWhenBlank` | index.js:179-193 | paragraphs that produce no message come only from a whitespace-only text |
| `ResponseDispatch.RespondParagraphs` | index.js:179-193 | a non-blank valid text posted without failure is posted as planned, at least one message |
| `ResponseDispatch.RespondSendFailure` | index.js:181-197 | when send attempt `k` throws, the first `k` messages are those of the undisturbed run and one fallback reply follows |
| `ResponseDispatch.RespondTwoParagraphs` | index.js:179-193 | two paragraphs give the first as reply and the second, trimmed, as a channel message unless blank |
| `ResponseDispatch.RespondHelloExample` | index.js:179-193 | `"Hello.\n\nHow are you?"` gives `Reply("Hello.")` then `Send("How are you?")` |
| `ResponseDispatch.SendParagraphs` | index.js:179-197 | the sending loop posts exactly the planned messages, cut at the failing attempt and followed by the fallback reply |
| `ResponseDispatch.Dispatch` | index.js:156-197 | the validation and sending steps post exactly what `Respond` describes |
| `MessageHandler.Triggers` | index.js:80-82 | the handler goes on only for a message from a person, in the configured channel, that does not start with `!` |
| `MessageHandler.Handle` | index.js:79-203 | the effect of one message: no request and no output when not triggered, the error reply after a fetch or model failure, otherwise the request and what the dispatcher posts |
| `MessageHandler.SilentExactlyWhenNotTriggered` | index.js:80-82 | the handler posts nothing exactly when the message is from a bot, from another channel or a command |
| `MessageHandler.IgnoresItself` | index.js:80 | the bot's own messages produce no request and no output |
| `MessageHandler.RequestShape` | index.js:84-152 | a triggered request sends the message text as the new turn, with the 1024-token cap and every harm category at block-none, after a history that opens with the seed and otherwise holds only non-command texts of fetched messages other than the trigger |
| `MessageHandler.SafetySettingsBlockNothing` | index.js:135-140 | each of the four harm categories is listed with the threshold `BlockNone`, not any of the stricter ones |
| `MessageHandler.StoredExemplarsPrompt` | index.js:97-105 | the prompt built from the stored exemplars holds exactly `min(1024, n)` bullet lines, drawn from them |
| `MessageHandler.FailureBeforeAnswer` | index.js:199-202 | a failure of the fetch or of the model call ends in the error reply alone |
| `MessageHandler.OnMessage` | index.js:79-203 | the step-by-step handler produces exactly the request and outputs of `Handle` |

## Left out

- Discord client setup, login, event registration and `sendTyping`: I/O; a failure of `sendTyping` or of the history fetch is the `None` case of the fetched history.
- `messages.fetch({limit: 10})`: the fetched history is a parameter; its length bound of 10 is not required, since no property depends on it.
- The Gemini calls (`getGenerativeModel`, `startChat`, `sendMessage`, `response.text()`): foreign library calls; the response shape and its text are inputs. A `response.text()` that throws reaches the outer `catch` after the request was sent, which is the `Threw` outcome of the model call: the request is recorded and the error reply alone is posted.
- `fs`, `path` and `dotenv`: the file reads are a sequence of optional strings.
- `console` logging: no effect on the outputs.
- `Math.random` and the bias of the comparator sort: randomness is not verifiable, so the shuffle is an arbitrary permutation parameter.
- Discord's `split: true` send option: hidden library behaviour; each send is one output.
- Async interleaving of concurrent message events: each handler run is modelled alone.
- The un-awaited `message.reply` calls after an invalid response and after a send failure: their own rejection is not modelled.
- The wording of the prompt, acknowledgement and fallback texts: they are opaque stand-in constants. The structural strings (`- "`, `"\n`, `"\n\n"`, `"SAFETY"`, `<Mídia oculta>`, the speaker labels) are exact.
