/**
  The outcome stated and proved for concrete messages: the usage examples of the bot, and the
  edge cases of its mention handling.
 */
module Scenarios {
  import opened Wrappers
  import opened JsStrings
  import opened Mention
  import opened Handler

  const BotName: JsString := Lit("BotName")

  /** `@BotName hello` sanitises to `hello`. */
  lemma SanitizeLeadingMention()
    ensures Sanitize(Lit("@BotName hello"), BotName) == Lit("hello")
  {
    var tag := Tag(BotName);
    var hello := Lit("hello");
    assert Lit("@BotName hello") == tag + [0x20 as CodeUnit] + hello;
    SanitizeTagSpace(tag, BotName, hello);
  }

  /** A group message `@BotName hello` whose mention entity covers `@BotName` is forwarded
      with the prompt `hello`. */
  lemma GroupMentionForwardsRest(chatId: int)
    ensures var msg := Message(chatId, Some(Lit("@BotName hello")), Some([Entity(MentionKind, 0, 8)]), Group);
      Decide(msg, BotName) == Forward(Lit("hello"))
  {
    var text := Lit("@BotName hello");
    var e := Entity(MentionKind, 0, 8);
    assert text[0..8] == Tag(BotName);
    assert text != StartCommand by { assert |text| != |StartCommand|; }
    MentionAtTagMentions([e], text, BotName, e);
    SanitizeLeadingMention();
  }

  /** In `@Botty @Bot` the first `@Bot` is the start of `@Botty`, so sanitising for the bot
      `Bot` leaves `ty @Bot`. */
  lemma SanitizeCutsWrongOccurrence()
    ensures Sanitize(Lit("@Botty @Bot"), Lit("Bot")) == Lit("ty @Bot")
  {
    var u := Lit("Bot");
    var tag := Tag(u);
    var rest := Lit("ty @Bot");
    assert Lit("@Botty @Bot") == tag + rest;
    SanitizeLeadingTag(tag, u, rest);
    assert Trimmed(rest);
    TrimFixpoint(rest);
  }

  /** The entity that makes `@Botty @Bot` mention the bot `Bot` is the second one, while the
      sanitiser cuts the first `@Bot`, the start of another user's mention `@Botty`; the
      mention of the bot is forwarded as part of the prompt `ty @Bot`. */
  lemma FirstOccurrenceIsNotTheEntity(chatId: int)
    ensures var text := Lit("@Botty @Bot");
      var entities := [Entity(MentionKind, 0, 6), Entity(MentionKind, 7, 4)];
      var msg := Message(chatId, Some(text), Some(entities), Supergroup);
      && IsBotMentioned(Some(entities), text, Lit("Bot"))
      && Substr(text, 0, 6) != Tag(Lit("Bot"))
      && Decide(msg, Lit("Bot")) == Forward(Lit("ty @Bot"))
  {
    var text := Lit("@Botty @Bot");
    var u := Lit("Bot");
    var e1 := Entity(MentionKind, 7, 4);
    assert text[7..11] == Tag(u);
    assert text != StartCommand by { assert |text| != |StartCommand|; }
    MentionAtTagMentions([Entity(MentionKind, 0, 6), e1], text, u, e1);
    assert |Substr(text, 0, 6)| == 6;
    SanitizeCutsWrongOccurrence();
  }

  /** Sanitising is not idempotent once the tag occurs twice: the first pass leaves the
      second `@Bot`, which a second pass would cut. */
  lemma SanitizeNotIdempotent()
    ensures Sanitize(Lit("@Bot @Bot hi"), Lit("Bot")) == Lit("@Bot hi")
    ensures Sanitize(Lit("@Bot hi"), Lit("Bot")) == Lit("hi")
  {
    var u := Lit("Bot");
    var tag := Tag(u);
    var sp := [0x20 as CodeUnit];
    var hi := Lit("hi");
    var once := tag + sp + hi;
    var text := tag + sp + once;
    assert Lit("@Bot @Bot hi") == text;
    assert Lit("@Bot hi") == once;
    SanitizeTagSpace(tag, u, once);
    SanitizeTagSpace(tag, u, hi);
  }

  /** A text that starts with `@username` sanitises to the trimmed rest. */
  lemma SanitizeLeadingTag(tag: JsString, u: JsString, rest: JsString)
    requires tag == Tag(u)
    ensures Sanitize(tag + rest, u) == Trim(rest)
  {
    var text := tag + rest;
    assert text[0..|tag|] == tag;
    SanitizeFirstOccurrence(text, u, tag, 0);
    assert text[..0] + text[|tag|..] == rest;
  }

  /** `@username`, a space and a trimmed rest sanitise to the rest. */
  lemma SanitizeTagSpace(tag: JsString, u: JsString, rest: JsString)
    requires tag == Tag(u) && Trimmed(rest)
    ensures Sanitize(tag + [0x20 as CodeUnit] + rest, u) == rest
  {
    var sp := [0x20 as CodeUnit];
    assert tag + sp + rest == tag + (sp + rest);
    SanitizeLeadingTag(tag, u, sp + rest);
    SplitAfterFirst(0x20, rest);
    TrimUnique(sp + rest, 1, rest);
  }

  lemma SplitAfterFirst(c: CodeUnit, rest: JsString)
    ensures ([c] + rest)[..1] == [c] && ([c] + rest)[1..1 + |rest|] == rest && ([c] + rest)[1 + |rest|..] == []
  {
  }

  /** A private message without any `@` is forwarded as its trimmed text. */
  lemma PrivateWithoutAtForwardsTrim(chatId: int, text: JsString, me: Option<JsString>)
    requires text != StartCommand
    requires forall k | 0 <= k < |text| :: text[k] != AtSign
    ensures Decide(Message(chatId, Some(text), None, Private), BotUsername(me)) == Forward(Trim(text))
  {
    var u := BotUsername(me);
    NoAtNoTag(text, u);
    SanitizeWithoutTag(text, u);
    PrivateForwards(Message(chatId, Some(text), None, Private), u);
  }

  /** For such a message the one reply is the trimmed completion content, or the apology when
      the completion fails. */
  lemma PrivateWithoutAtRelaysAnswer(chatId: int, text: JsString, me: Option<JsString>, content: JsString)
    requires text != StartCommand
    requires forall k | 0 <= k < |text| :: text[k] != AtSign
    ensures Handle(Message(chatId, Some(text), None, Private), me, Success(content)) ==
      [GetMe, Complete(CompletionRequest(Trim(text))), SendMessage(chatId, Trim(content))]
    ensures Handle(Message(chatId, Some(text), None, Private), me, Failure) ==
      [GetMe, Complete(CompletionRequest(Trim(text))), SendMessage(chatId, Apology)]
  {
    var msg := Message(chatId, Some(text), None, Private);
    PrivateWithoutAtForwardsTrim(chatId, text, me);
  }

  /** The answer `Real Madrid wins 2-1.` is relayed exactly as received. */
  lemma AnswerRelayedVerbatim()
    ensures ReplyText(Success(Lit("Real Madrid wins 2-1."))) == Lit("Real Madrid wins 2-1.")
  {
    TrimFixpoint(Lit("Real Madrid wins 2-1."));
  }

  /** A group `hello` without entities sends nothing; `getMe` is still called. */
  lemma GroupHelloSendsNothing(chatId: int, me: Option<JsString>, completion: Completion)
    ensures var msg := Message(chatId, Some(Lit("hello")), None, Group);
      Handle(msg, me, completion) == [GetMe] && Sends(Handle(msg, me, completion)) == []
  {
    var msg := Message(chatId, Some(Lit("hello")), None, Group);
    assert Lit("hello") != StartCommand by {
      assert |Lit("hello")| != |StartCommand|;
    }
    UnmentionedGroupSendsNothing(msg, me, completion);
  }
}
