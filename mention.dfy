/**
  The mention filter: whether a message's entities contain a Telegram "mention" whose
  span of the raw text is the bot's own `@username`.
 */
module Mention {
  import opened Wrappers
  import opened JsStrings

  /** A Telegram message entity: its type and the span it annotates, in UTF-16 code units. */
  datatype Entity = Entity(kind: JsString, offset: nat, length: nat)

  const MentionKind: JsString := Lit("mention")

  /** The code unit of `@`. */
  const AtSign: CodeUnit := 0x40

  /** The text a mention of the bot carries: `@` followed by its username. */
  function Tag(botUsername: JsString): JsString
  {
    [AtSign] + botUsername
  }

  /** The predicate `isBotMentioned` hands to `some`: a mention entity whose clamped span is `tag`. */
  predicate Matches(e: Entity, text: JsString, tag: JsString)
  {
    e.kind == MentionKind && Substr(text, e.offset, e.length) == tag
  }

  /** `Array.prototype.some` over the entities, scanning left to right. */
  function AnyMatches(entities: seq<Entity>, text: JsString, tag: JsString): bool
  {
    if entities == [] then false
    else Matches(entities[0], text, tag) || AnyMatches(entities[1..], text, tag)
  }

  /** `isBotMentioned`: false when the message has no entity list, otherwise whether some
      entity is a mention of the bot. */
  function IsBotMentioned(entities: Option<seq<Entity>>, text: JsString, botUsername: JsString): bool
  {
    match entities
    case None => false
    case Some(es) => AnyMatches(es, text, Tag(botUsername))
  }

  /** Without an entity list the bot is never mentioned, whatever the text and username. */
  lemma AbsentEntitiesNotMentioned(text: JsString, botUsername: JsString)
    ensures !IsBotMentioned(None, text, botUsername)
  {
  }

  /** The left-to-right scan finds a match exactly when one of the entities matches. */
  lemma {:induction false} AnyMatchesIff(entities: seq<Entity>, text: JsString, tag: JsString)
    ensures AnyMatches(entities, text, tag) <==> exists e | e in entities :: Matches(e, text, tag)
  {
    if entities != [] {
      AnyMatchesIff(entities[1..], text, tag);
      assert forall e :: e in entities <==> e == entities[0] || e in entities[1..];
    }
  }

  /** `isBotMentioned` is true iff some entity has type "mention" and its clamped span equals `@username`. */
  lemma MentionedIff(es: seq<Entity>, text: JsString, botUsername: JsString)
    ensures IsBotMentioned(Some(es), text, botUsername) <==>
      exists i | 0 <= i < |es| ::
        es[i].kind == MentionKind && Substr(text, es[i].offset, es[i].length) == Tag(botUsername)
  {
    var tag := Tag(botUsername);
    AnyMatchesIff(es, text, tag);
    if IsBotMentioned(Some(es), text, botUsername) {
      var e :| e in es && Matches(e, text, tag);
      var i :| 0 <= i < |es| && es[i] == e;
    } else {
      forall i | 0 <= i < |es| ensures !Matches(es[i], text, tag) {
        assert es[i] in es;
      }
    }
  }

  /** The order of the entities does not matter: a reordering gives the same answer. */
  lemma MentionedOrderIndependent(es1: seq<Entity>, es2: seq<Entity>, text: JsString, botUsername: JsString)
    requires multiset(es1) == multiset(es2)
    ensures IsBotMentioned(Some(es1), text, botUsername) == IsBotMentioned(Some(es2), text, botUsername)
  {
    var tag := Tag(botUsername);
    AnyMatchesIff(es1, text, tag);
    AnyMatchesIff(es2, text, tag);
    assert forall e :: e in es1 <==> e in multiset(es1);
    assert forall e :: e in es2 <==> e in multiset(es2);
  }

  /** Adding entities never turns a mention into a non-mention. */
  lemma MentionedMonotone(es1: seq<Entity>, es2: seq<Entity>, text: JsString, botUsername: JsString)
    requires forall e | e in es1 :: e in es2
    requires IsBotMentioned(Some(es1), text, botUsername)
    ensures IsBotMentioned(Some(es2), text, botUsername)
  {
    var tag := Tag(botUsername);
    AnyMatchesIff(es1, text, tag);
    AnyMatchesIff(es2, text, tag);
  }

  /** A positive answer means the tag really is in the text, at the offset of a mention entity. */
  lemma MentionedLocatesTag(es: seq<Entity>, text: JsString, botUsername: JsString)
    requires IsBotMentioned(Some(es), text, botUsername)
    ensures exists e | e in es :: e.kind == MentionKind && OccursAt(text, Tag(botUsername), e.offset)
  {
    var tag := Tag(botUsername);
    AnyMatchesIff(es, text, tag);
    var e :| e in es && Matches(e, text, tag);
    SubstrEqualMeansOccurs(text, e.offset, e.length, tag);
  }

  /** A mention entity whose span is exactly the tag in the text makes the bot mentioned. */
  lemma MentionAtTagMentions(es: seq<Entity>, text: JsString, botUsername: JsString, e: Entity)
    requires e in es && e.kind == MentionKind && e.length == |Tag(botUsername)|
    requires OccursAt(text, Tag(botUsername), e.offset)
    ensures IsBotMentioned(Some(es), text, botUsername)
  {
    var tag := Tag(botUsername);
    OccursMeansSubstrEqual(text, e.offset, tag);
    AnyMatchesIff(es, text, tag);
  }

  /** Clamping lets an entity whose length runs past the end of the text still match a tag
      that ends the text. */
  lemma OverlongMentionAtEndMentions(es: seq<Entity>, text: JsString, botUsername: JsString, e: Entity)
    requires e in es && e.kind == MentionKind && e.length >= |Tag(botUsername)|
    requires OccursAt(text, Tag(botUsername), e.offset) && e.offset + |Tag(botUsername)| == |text|
    ensures IsBotMentioned(Some(es), text, botUsername)
  {
    var tag := Tag(botUsername);
    SubstrOverlongAtEnd(text, e.offset, e.length, tag);
    AnyMatchesIff(es, text, tag);
  }
}
