# Telegram chat-bot relay: the message handler

This project models the decision logic of a small Telegram bot that relays messages to a
chat-completion endpoint. The bot has one message callback. It sends a fixed welcome text
for `/start`. Otherwise it answers when it is mentioned or the chat is private: it cuts its
own `@username` out of the text, asks the endpoint about the rest, and relays the answer,
or a fixed apology when the call fails.

The model has five modules:

- `Wrappers` holds `Option`, the model of a JavaScript value that may be `undefined`.
- `JsStrings` holds the ECMAScript string operations the callback relies on, over strings
  of UTF-16 code units (`seq<CodeUnit>`): `substr` (with the clamping of ECMAScript
  Annex B), `indexOf`, `replace` with a string pattern and an empty replacement, and `trim`.
  Telegram entity offsets are in UTF-16 code units too.
- `Mention` holds `isBotMentioned`: a left-to-right `some` over the entities, whether any
  entity of type `mention` has the clamped span `@username`.
- `Handler` holds the callback, written two ways:
  - `Decide` and `Handle` are pure functions. `Handle` maps a message, the username
    `getMe` reports and the completion outcome to the sequence of outbound calls
    (`GetMe`, `Complete(request)`, `SendMessage(chat, text)`).
  - The `Bot` class keeps a log of those calls. `Bot.OnMessage` follows the callback step
    by step and is proved to append exactly `Handle`'s calls.
- `Scenarios` states and proves the outcome for concrete messages: a leading mention, a
  mention that `replace` does not cut, a text where sanitising twice differs, and the
  private and group examples.

The two remote calls are inputs, not effects. `getMe().username` is an
`Option<JsString>`, with a missing name read as `""`. The completion call is
`Success(content) | Failure`, where `Failure` stands for any thrown error, non-2xx status
or malformed body.

Two consequences of the code's order of calls:

- A group message that does not mention the bot still calls `getMe` (main.ts:57), which
  comes before the mention check (main.ts:63). So `Handle` yields `[GetMe]` there
  (`UnmentionedGroupSendsNothing`).
- The reply send (main.ts:95) is inside the `try`, so a failed reply send would be
  followed by the apology. Sends are modelled as infallible (see Left out).

## Model

| member | source | states |
|---|---|---|
| JsStrings.SubstrClamped | main.ts:32 | `substr` on a start at or past the end gives the empty string; otherwise it gives the units from start up to `start + length` or the end, and never more than `length` units |
| JsStrings.SubstrEqualMeansOccurs | main.ts:32 | a clamped slice equal to a non-empty tag means the tag lies wholly inside the text at the entity's offset, so the offset plus the tag length is at most the text length |
| JsStrings.OccursMeansSubstrEqual | main.ts:32 | conversely, a slice of exactly the tag length at an occurrence of the tag yields the tag |
| JsStrings.SubstrOverlongAtEnd | main.ts:32 | because of clamping, a length running past the end still matches a tag that ends the text |
| JsStrings.IndexOfFrom | main.ts:68 | the result is the least position at or after `from` where the pattern occurs, or None when it occurs nowhere from there |
| JsStrings.IndexOf | main.ts:68 | the first occurrence of the pattern; None exactly when the pattern occurs nowhere |
| JsStrings.RemoveFirst | main.ts:68 | `replace` with a string pattern and an empty replacement leaves the text unchanged when the pattern is absent, and otherwise shortens it by exactly the pattern's length |
| JsStrings.RemoveFirstAt | main.ts:68 | when the pattern first occurs at `i`, exactly the pattern-long run of units starting at `i` is cut |
| JsStrings.RemoveFirstKeepsLater | main.ts:68 | every occurrence after the first survives the removal, shifted left by the pattern's length |
| JsStrings.RemoveFirstAbsent | main.ts:68 | removing an absent pattern changes nothing |
| JsStrings.TrimStartSpec | main.ts:68 | stripping leading white space keeps the suffix after an all-white prefix, and that suffix does not start with white space |
| JsStrings.TrimEndSpec | main.ts:68 | stripping trailing white space keeps the prefix before an all-white suffix, and that prefix does not end with white space |
| JsStrings.Trim | main.ts:68 | `trim`'s result neither starts nor ends with white space and is no longer than its input |
| JsStrings.TrimIsInfix | main.ts:68 | `trim` keeps one contiguous run of the input and strips only white space on either side of it |
| JsStrings.TrimStartUnique | main.ts:68 | the leading white run up to the first other unit is exactly what is stripped at the start |
| JsStrings.TrimEndUnique | main.ts:68 | the trailing white run after the last other unit is exactly what is stripped at the end |
| JsStrings.TrimUnique | main.ts:68 | `trim` is fully determined: any trimmed run of the input with white space around it is the result |
| JsStrings.TrimFixpoint | main.ts:91 | trimming leaves a string unchanged iff it has no white space at either end |
| JsStrings.TrimIdempotent | main.ts:68 | trimming twice is trimming once |
| JsStrings.TrimKeepsAbsent | main.ts:68 | trimming cannot create an occurrence of the tag |
| Mention.AbsentEntitiesNotMentioned | main.ts:27 | without an entity list the bot is not mentioned, for any text and username |
| Mention.AnyMatchesIff | main.ts:29-33 | the left-to-right scan finds a match iff some entity of the list matches |
| Mention.MentionedIff | main.ts:29-33 | `isBotMentioned` is true iff some entity has type `mention` and its clamped span equals `@` plus the username |
| Mention.MentionedOrderIndependent | main.ts:29-33 | any reordering of the entities gives the same answer |
| Mention.MentionedMonotone | main.ts:29-33 | adding entities never turns a mention into a non-mention |
| Mention.MentionedLocatesTag | main.ts:29-33 | a positive answer means the tag occurs in the text at the offset of a mention entity |
| Mention.MentionAtTagMentions | main.ts:29-33 | a mention entity spanning exactly an occurrence of the tag makes the answer true |
| Mention.OverlongMentionAtEndMentions | main.ts:32 | a mention entity whose length runs past the end still matches a tag that ends the text |
| Handler.Sanitize | main.ts:68 | the sanitised prompt has no leading or trailing white space and is no longer than the text |
| Handler.Sends | main.ts:94-101 | the messages sent among a sequence of calls: every send and only the sends, never more entries than calls |
| Handler.SendsOne | main.ts:94-101 | a single call is kept exactly when it is a send; with `SendsAppend` this fixes `Sends` as the filter that keeps the sends in order, repetitions included |
| Handler.Bot.constructor | main.ts:17 | a new bot has made no calls |
| Handler.Bot.OnMessage | main.ts:36-104 | the step-by-step callback appends to the call log exactly the calls `Handle` gives for the message |
| Handler.StartIsWelcomeOnly | main.ts:38-56 | a `/start` text gives the welcome message alone, in every chat type, whatever the entities and username: no `getMe` and no completion request |
| Handler.WelcomeIff | main.ts:39 | the outcome is the welcome iff the text, with an absent text read as empty, is exactly `/start` |
| Handler.ForwardIff | main.ts:63-68 | forwarding happens iff the text is not `/start` and the bot is mentioned or the chat is private, and the forwarded prompt is the sanitised text |
| Handler.PrivateForwards | main.ts:63-68 | a private chat that is not `/start` always reaches the forwarding branch, also with no text |
| Handler.UnmentionedGroupSendsNothing | main.ts:57-66 | a non-private chat with no matching mention sends nothing; its only call is `getMe` |
| Handler.GroupWithoutEntitiesIgnored | main.ts:63-66 | a non-private message whose entity list is missing or empty is never forwarded and, unless it is `/start`, ends with no action |
| Handler.ForwardedPromptTrimmed | main.ts:68 | a forwarded prompt never starts or ends with white space |
| Handler.SendCount | main.ts:36-104 | exactly one message is sent unless the outcome is no action, when none is; a completion request is made iff the message is forwarded |
| Handler.ForwardingBranch | main.ts:72-101 | in the forwarding branch the calls are `getMe`, one request, one reply; the request has the fixed model, 150 tokens, temperature 0.8 and the messages [system instruction, user prompt] in that order; the reply goes to the originating chat and is the trimmed content on success and the apology on failure |
| Handler.SendsAppend | main.ts:36-104 | the sends of a log extended by one message's calls are the old sends followed by that message's sends |
| Handler.NoAtNoTag | main.ts:68 | a text without `@` contains no occurrence of any tag |
| Handler.SanitizeWithoutTag | main.ts:68 | without an occurrence of the tag, sanitising is trimming, and sanitising again changes nothing |
| Handler.SanitizeFirstOccurrence | main.ts:68 | with the tag first at `i`, exactly that occurrence is cut before trimming, and every later occurrence remains |
| Handler.EmptyUsernameCutsFirstAt | main.ts:58-68 | with a missing or empty username the tag is a lone `@`, so the first `@` anywhere is cut |
| Scenarios.SanitizeLeadingMention | main.ts:68 | `@BotName hello` sanitises to `hello` |
| Scenarios.GroupMentionForwardsRest | main.ts:63-68 | a group `@BotName hello` with a mention entity over `@BotName` is forwarded as `hello` |
| Scenarios.SanitizeCutsWrongOccurrence | main.ts:68 | for the bot `Bot`, `@Botty @Bot` sanitises to `ty @Bot`: the cut `@Bot` is the start of another user's mention |
| Scenarios.FirstOccurrenceIsNotTheEntity | main.ts:63-68 | the entity that matches in `@Botty @Bot` is the second one, yet the first `@Bot` is cut and the mention of the bot is forwarded |
| Scenarios.SanitizeNotIdempotent | main.ts:68 | sanitising is not idempotent when the tag occurs twice: `@Bot @Bot hi` gives `@Bot hi`, which gives `hi` |
| Scenarios.SanitizeLeadingTag | main.ts:68 | a text that starts with the tag sanitises to the trimmed rest |
| Scenarios.SanitizeTagSpace | main.ts:68 | the tag, a space and a trimmed rest sanitise to the rest |
| Scenarios.PrivateWithoutAtForwardsTrim | main.ts:63-68 | a private text without `@` is forwarded as its trim |
| Scenarios.PrivateWithoutAtRelaysAnswer | main.ts:72-101 | for such a text the calls are `getMe`, the request for its trim, and one reply: the trimmed content on success, the apology on failure |
| Scenarios.AnswerRelayedVerbatim | main.ts:91-95 | the answer `Real Madrid wins 2-1.` is relayed unchanged |
| Scenarios.GroupHelloSendsNothing | main.ts:57-66 | a group `hello` without entities sends nothing; only `getMe` is called |

## Left out

- Startup configuration (main.ts:5-15): reading `.env`, the check for the two secrets and `process.exit`. This is process I/O whose only logic is a null check.
- The Telegram client (main.ts:17): polling and constructing the client. `getMe` (main.ts:57) is an input. `sendMessage` (main.ts:41, 95, 98) is the `SendMessage` call recorded in the log.
- Send failures: sends are infallible in the model. In the code a failure of the reply send (main.ts:95) would be caught and followed by the apology send (main.ts:98). A failure of the welcome or apology send would escape the callback.
- `getMe` is assumed to answer. In the code a rejected `getMe` (main.ts:57, outside the `try` at main.ts:70-102) ends the callback with no reply at all. So `SendCount` and `PrivateForwards` hold only when `getMe` answers.
- The HTTP request and its parsing (main.ts:72-91): the URL, the headers, the bearer token, the JSON encoding and the response parsing. The endpoint's answer is the `Completion` input, and any malformed body is `Failure`.
- The temperature is the exact decimal 0.8 (a `real`), not the IEEE double JavaScript sends. The model name and the token limit are constants.
- Logging (main.ts:60, 92, 97, 106).
- The welcome text's wording (main.ts:41-54) is an uninterpreted constant. The unused local at main.ts:40 is not modelled.
- Concurrency: overlapping invocations of the callback, and the order in which their replies arrive.
- Entity offsets and lengths are natural numbers. A negative `substr` start, which counts from the end, and non-integer numbers are not modelled.
- `Lit` turns this model's own string literals into code units one character at a time. That is exact for characters of the Basic Multilingual Plane, and all of the literals here are ASCII. Texts from Telegram are arbitrary code-unit sequences, so messages with surrogate pairs are covered.
- The concrete example question from the welcome text (main.ts:54) is covered by `Scenarios.PrivateWithoutAtForwardsTrim` for every text without `@`, not evaluated on its literal.
