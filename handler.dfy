/**
  The bot's message callback: for each incoming message it either sends the welcome text
  (for `/start`), or asks the chat-completion endpoint about the sanitised message and relays
  the answer (when the bot is mentioned or the chat is private), or does nothing further.

  The two remote calls are inputs: `me` is what `getMe` reports as the bot's username, and
  `completion` is the outcome of the completion request. What the callback does is recorded
  as the sequence of outbound calls it makes.
 */
module Handler {
  import opened Wrappers
  import opened JsStrings
  import opened Mention

  /** Telegram's chat types; only `"private"` is compared (main.ts:65). */
  datatype ChatType = Private | Group | Supergroup | Channel

  /** The parts of an incoming Telegram message the callback reads. */
  datatype Message = Message(chatId: int, text: Option<JsString>, entities: Option<seq<Entity>>, chatType: ChatType)

  const StartCommand: JsString := Lit("/start")

  /** The multi-line welcome text; its wording is not modelled. */
  const WelcomeText: JsString

  const Apology: JsString := Lit("Sorry, I couldn't process your message. Please try again later.")

  const ModelName: JsString := Lit("gpt-3.5-turbo")
  const MaxTokens: nat := 150
  /** The sampling temperature, as the decimal written in the request body. */
  const Temperature: real := 0.8

  const SystemRole: JsString := Lit("system")
  const UserRole: JsString := Lit("user")
  const SystemInstruction: JsString := Lit("You are a helpful assistant.")

  /** One role/content pair of the conversation sent to the completion endpoint. */
  datatype Turn = Turn(role: JsString, content: JsString)

  /** The body of the chat-completion request. */
  datatype Request = Request(model: JsString, messages: seq<Turn>, maxTokens: nat, temperature: real)

  /** The completion call's outcome: the first choice's message content, or any failure
      (network error, non-2xx status, malformed body). */
  datatype Completion = Success(content: JsString) | Failure

  /** An outbound call the callback makes. */
  datatype Call = GetMe | Complete(request: Request) | SendMessage(chatId: int, text: JsString)

  /** The callback's three terminal outcomes. */
  datatype Decision = Welcome | Forward(prompt: JsString) | NoAction

  /** The message text, with an absent (or empty) text read as the empty string. */
  function UserMessage(msg: Message): JsString
  {
    msg.text.GetOr([])
  }

  /** The username `getMe` reports, with an absent one read as the empty string. */
  function BotUsername(me: Option<JsString>): JsString
  {
    me.GetOr([])
  }

  /** The sanitised prompt: the first literal occurrence of the bot's tag (as a string-pattern
      `replace` with an empty replacement finds it) is cut out, then surrounding white space
      is stripped. */
  function Sanitize(text: JsString, botUsername: JsString): (r: JsString)
    ensures Trimmed(r)
    ensures |r| <= |text|
  {
    Trim(RemoveFirst(text, Tag(botUsername)))
  }

  /** The rule the callback follows: `/start` first, then the mention-or-private filter. */
  function Decide(msg: Message, botUsername: JsString): Decision
  {
    var text := UserMessage(msg);
    if text == StartCommand then Welcome
    else if IsBotMentioned(msg.entities, text, botUsername) || msg.chatType == Private then
      Forward(Sanitize(text, botUsername))
    else NoAction
  }

  /** The completion request built for a prompt. */
  function CompletionRequest(prompt: JsString): Request
  {
    Request(ModelName, [Turn(SystemRole, SystemInstruction), Turn(UserRole, prompt)], MaxTokens, Temperature)
  }

  /** The one reply of the forwarding branch: the trimmed content, or the apology. */
  function ReplyText(completion: Completion): JsString
  {
    match completion
    case Success(content) => Trim(content)
    case Failure => Apology
  }

  /** The outbound calls one message causes, in order. */
  function Handle(msg: Message, me: Option<JsString>, completion: Completion): seq<Call>
  {
    match Decide(msg, BotUsername(me))
    case Welcome => [SendMessage(msg.chatId, WelcomeText)]
    case Forward(prompt) =>
      [GetMe, Complete(CompletionRequest(prompt)), SendMessage(msg.chatId, ReplyText(completion))]
    case NoAction => [GetMe]
  }

  /** The messages sent to chats among `calls`, in order. */
  function Sends(calls: seq<Call>): (r: seq<Call>)
    ensures |r| <= |calls|
    ensures forall c | c in r :: c.SendMessage? && c in calls
    ensures forall c | c in calls && c.SendMessage? :: c in r
  {
    if calls == [] then []
    else (if calls[0].SendMessage? then [calls[0]] else []) + Sends(calls[1..])
  }

  /** The bot: it keeps the log of every outbound call, and handles one message at a time
      as the callback does, step by step. */
  class Bot {
    var calls: seq<Call>

    constructor ()
      ensures calls == []
    {
      calls := [];
    }

    method OnMessage(msg: Message, me: Option<JsString>, completion: Completion)
      modifies this
      ensures calls == old(calls) + Handle(msg, me, completion)
    {
      var userMessage := UserMessage(msg);
      if userMessage == StartCommand {
        StartIsWelcomeOnly(msg, me, completion);
        calls := calls + [SendMessage(msg.chatId, WelcomeText)];
        return;
      }
      calls := calls + [GetMe];
      var botUsername := BotUsername(me);
      if IsBotMentioned(msg.entities, userMessage, botUsername) || msg.chatType == Private {
        var sanitized := Sanitize(userMessage, botUsername);
        assert Decide(msg, botUsername) == Forward(sanitized);
        calls := calls + [Complete(CompletionRequest(sanitized))];
        var reply: JsString;
        match completion {
          case Success(content) => reply := Trim(content);
          case Failure => reply := Apology;
        }
        assert reply == ReplyText(completion);
        calls := calls + [SendMessage(msg.chatId, reply)];
      } else {
        assert Decide(msg, botUsername) == NoAction;
      }
    }
  }

  // ---------------------------------------------------------------------------
  // The decision rule

  /** `/start` wins over everything: in every chat type, whatever the entities and the
      username, the only call is the welcome message (no `getMe`, no completion request). */
  lemma StartIsWelcomeOnly(msg: Message, me: Option<JsString>, completion: Completion)
    requires UserMessage(msg) == StartCommand
    ensures Handle(msg, me, completion) == [SendMessage(msg.chatId, WelcomeText)]
  {
  }

  /** The welcome outcome happens for `/start` and for nothing else. */
  lemma WelcomeIff(msg: Message, botUsername: JsString)
    ensures Decide(msg, botUsername) == Welcome <==> UserMessage(msg) == StartCommand
  {
  }

  /** Forwarding happens exactly for a non-`/start` message that mentions the bot or comes
      from a private chat, and forwards the sanitised text. */
  lemma ForwardIff(msg: Message, botUsername: JsString)
    ensures Decide(msg, botUsername).Forward? <==>
      UserMessage(msg) != StartCommand &&
      (IsBotMentioned(msg.entities, UserMessage(msg), botUsername) || msg.chatType == Private)
    ensures Decide(msg, botUsername).Forward? ==>
      Decide(msg, botUsername).prompt == Sanitize(UserMessage(msg), botUsername)
  {
  }

  /** A private chat that is not `/start` always reaches the forwarding branch, even without text. */
  lemma PrivateForwards(msg: Message, botUsername: JsString)
    requires msg.chatType == Private && UserMessage(msg) != StartCommand
    ensures Decide(msg, botUsername) == Forward(Sanitize(UserMessage(msg), botUsername))
  {
  }

  /** A non-private chat without a matching mention sends nothing; the only call is `getMe`. */
  lemma UnmentionedGroupSendsNothing(msg: Message, me: Option<JsString>, completion: Completion)
    requires msg.chatType != Private && UserMessage(msg) != StartCommand
    requires !IsBotMentioned(msg.entities, UserMessage(msg), BotUsername(me))
    ensures Handle(msg, me, completion) == [GetMe]
    ensures Sends(Handle(msg, me, completion)) == []
  {
  }

  /** A non-private message whose entity list is missing or empty is never forwarded. */
  lemma GroupWithoutEntitiesIgnored(msg: Message, botUsername: JsString)
    requires msg.chatType != Private && (msg.entities.None? || msg.entities == Some([]))
    ensures !Decide(msg, botUsername).Forward?
    ensures UserMessage(msg) != StartCommand ==> Decide(msg, botUsername) == NoAction
  {
  }

  /** The prompt that is forwarded never starts or ends with white space. */
  lemma ForwardedPromptTrimmed(msg: Message, botUsername: JsString)
    requires Decide(msg, botUsername).Forward?
    ensures Trimmed(Decide(msg, botUsername).prompt)
  {
  }

  // ---------------------------------------------------------------------------
  // The calls a message causes

  /** Exactly one message is sent unless the outcome is no action, when none is; a completion
      request is made only when forwarding. */
  lemma SendCount(msg: Message, me: Option<JsString>, completion: Completion)
    ensures |Sends(Handle(msg, me, completion))| ==
      if Decide(msg, BotUsername(me)) == NoAction then 0 else 1
    ensures (exists c | c in Handle(msg, me, completion) :: c.Complete?) <==>
      Decide(msg, BotUsername(me)).Forward?
  {
    var calls := Handle(msg, me, completion);
    match Decide(msg, BotUsername(me))
    case Welcome =>
      assert Sends(calls) == [calls[0]];
    case Forward(p) =>
      assert calls[1].Complete?;
      assert Sends(calls[2..]) == [calls[2]];
      assert Sends(calls[1..]) == Sends(calls[2..]);
    case NoAction =>
      assert Sends(calls[1..]) == [];
  }

  /** In the forwarding branch the one request carries the system instruction and then the
      sanitised prompt, and the one reply goes to the originating chat: the trimmed content
      on success, the fixed apology on failure. */
  lemma ForwardingBranch(msg: Message, me: Option<JsString>, completion: Completion, prompt: JsString)
    requires Decide(msg, BotUsername(me)) == Forward(prompt)
    ensures var calls := Handle(msg, me, completion);
      |calls| == 3 && calls[0] == GetMe && calls[1].Complete? && calls[2].SendMessage?
    ensures var req := Handle(msg, me, completion)[1].request;
      req.model == ModelName && req.maxTokens == 150 && req.temperature == 0.8 &&
      req.messages == [Turn(SystemRole, SystemInstruction), Turn(UserRole, prompt)]
    ensures var reply := Handle(msg, me, completion)[2];
      reply.chatId == msg.chatId &&
      reply.text == (if completion.Success? then Trim(completion.content) else Apology)
  {
  }

  /** A single call is kept exactly when it is a send; with `SendsAppend` this fixes `Sends`
      as the filter that keeps the sends in their order and with their repetitions. */
  lemma SendsOne(c: Call)
    ensures Sends([c]) == if c.SendMessage? then [c] else []
  {
  }

  /** Handling one message more extends the log by exactly that message's calls, so the
      number of messages sent grows by the count of `SendCount`. */
  lemma {:induction false} SendsAppend(a: seq<Call>, b: seq<Call>)
    ensures Sends(a + b) == Sends(a) + Sends(b)
  {
    if a != [] {
      assert (a + b)[1..] == a[1..] + b;
      SendsAppend(a[1..], b);
    } else {
      assert a + b == b;
    }
  }

  // ---------------------------------------------------------------------------
  // The sanitiser

  /** Without an `@` in the text the tag cannot occur. */
  lemma NoAtNoTag(text: JsString, botUsername: JsString)
    requires forall k | 0 <= k < |text| :: text[k] != AtSign
    ensures forall j: nat :: !OccursAt(text, Tag(botUsername), j)
  {
    var tag := Tag(botUsername);
    forall j: nat ensures !OccursAt(text, tag, j) {
      if j + |tag| <= |text| {
        assert text[j..j + |tag|][0] != tag[0];
      }
    }
  }

  /** With no occurrence of the tag, sanitising is trimming, and sanitising again changes nothing. */
  lemma SanitizeWithoutTag(text: JsString, botUsername: JsString)
    requires forall j: nat :: !OccursAt(text, Tag(botUsername), j)
    ensures Sanitize(text, botUsername) == Trim(text)
    ensures Sanitize(Sanitize(text, botUsername), botUsername) == Sanitize(text, botUsername)
  {
    var tag := Tag(botUsername);
    RemoveFirstAbsent(text, tag);
    TrimKeepsAbsent(text, tag);
    RemoveFirstAbsent(Trim(text), tag);
    TrimIdempotent(text);
  }

  /** With the tag first at `i`, exactly that occurrence is cut before trimming, and every
      later occurrence is still there to be forwarded. */
  lemma SanitizeFirstOccurrence(text: JsString, botUsername: JsString, tag: JsString, i: nat)
    requires tag == Tag(botUsername)
    requires OccursAt(text, tag, i)
    requires forall j: nat | j < i :: !OccursAt(text, tag, j)
    ensures Sanitize(text, botUsername) == Trim(text[..i] + text[i + |tag|..])
    ensures forall j: nat | i + |tag| <= j && OccursAt(text, tag, j) ::
      OccursAt(RemoveFirst(text, tag), tag, j - |tag|)
  {
    RemoveFirstAt(text, tag, i);
    forall j: nat | i + |tag| <= j && OccursAt(text, tag, j)
      ensures OccursAt(RemoveFirst(text, tag), tag, j - |tag|)
    {
      RemoveFirstKeepsLater(text, tag, i, j);
    }
  }

  /** An empty (or missing) username makes the tag a lone `@`, so the first `@` anywhere is cut. */
  lemma EmptyUsernameCutsFirstAt(text: JsString, i: nat)
    requires i < |text| && text[i] == AtSign
    requires forall k | 0 <= k < i :: text[k] != AtSign
    ensures Tag(BotUsername(None)) == [AtSign]
    ensures Sanitize(text, BotUsername(None)) == Trim(text[..i] + text[i + 1..])
  {
    var tag := Tag([]);
    assert OccursAt(text, tag, i);
    forall j: nat | j < i ensures !OccursAt(text, tag, j) {
      assert text[j..j + 1][0] == text[j];
    }
    RemoveFirstAt(text, tag, i);
  }
}
