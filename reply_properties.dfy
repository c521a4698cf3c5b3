/**
  What the handler promises about its reply, case by case: the envelope of
  a normal reply, when each text is chosen, and when the error reply is sent.
 */
module ReplyProperties {
  import opened Activity
  import opened JsString
  import opened MessagesHandler

  /** The members of an activity, or the empty list when `membersAdded` is absent. */
  function Members(a: Inbound): seq<Member> {
    if a.membersAdded.Some? then a.membersAdded.value else []
  }

  /** The handler's rule for a new conversation member reached the user before any member without id. */
  ghost predicate GreetsUser(a: Inbound) {
    && a.kind == Some("conversationUpdate")
    && a.membersAdded.Some?
    && exists k :: UserFoundAt(Members(a), k)
  }

  /** `r` is a normal reply to `a`: from the bot, to the sender, in the same conversation. */
  ghost predicate IsNormalReplyTo(r: Reply, a: Inbound, now: string) {
    && r.kind == "message"
    && r.timestamp == Some(now)
    && r.from == Some(Bot)
    && r.conversation == a.conversation
    && r.recipient == (if a.from.Some? then a.from else Some(AnonymousUser))
    && r.replyToId == a.id
  }

  /** No two of the handler's texts coincide, whatever is spliced into the templates. */
  lemma TextsDistinct(title: string, text: string)
    ensures Greeting[0] == '👋' && DefaultText[0] == 'J' && ErrorText[0] == '❌'
    ensures ThankYou(title)[0] == '📰' && Echo(text)[0] == '🤖'
    ensures Greeting != DefaultText && Greeting != ErrorText && DefaultText != ErrorText
    ensures ThankYou(title) != Greeting && ThankYou(title) != DefaultText && ThankYou(title) != ErrorText
    ensures Echo(text) != Greeting && Echo(text) != DefaultText && Echo(text) != ErrorText
    ensures Echo(text) != ThankYou(title)
  {
  }

  /** Every reply either is the error reply, or is a normal reply to the inbound activity. */
  lemma ReplyEnvelope(a: Inbound, now: string)
    ensures var r := Respond(a, now);
      (r == ErrorReply) != IsNormalReplyTo(r, a, now)
  {
  }

  /** The error reply carries only a type and the apology text. */
  lemma ErrorReplyShape()
    ensures ErrorReply.kind == "message" && ErrorReply.text == ErrorText
    ensures ErrorReply.from.None? && ErrorReply.recipient.None? && ErrorReply.replyToId.None?
    ensures ErrorReply.timestamp.None? && ErrorReply.conversation.None?
  {
  }

  /**
    The greeting is sent exactly for a `conversationUpdate` whose
    `membersAdded` reaches a member whose id contains "user".
   */
  lemma GreetingExactly(a: Inbound, now: string)
    ensures Respond(a, now).text == Greeting <==> GreetsUser(a)
    ensures GreetsUser(a) ==> IsNormalReplyTo(Respond(a, now), a, now)
  {
    TextsDistinct(if a.value.Some? then a.value.value.title else "", a.text);
    if a.kind == Some("conversationUpdate") && a.membersAdded.Some? {
      var ms := a.membersAdded.value;
      assert Members(a) == ms;
      assert SomeMemberIsUser(ms) == Ok(true) <==> exists k :: UserFoundAt(ms, k);
    }
  }

  /**
    When every added member has an id, the greeting is sent exactly when one
    of them contains "user", and the default text otherwise.
   */
  lemma ConversationUpdateReply(a: Inbound, now: string)
    requires a.kind == Some("conversationUpdate")
    requires forall k :: 0 <= k < |Members(a)| ==> Members(a)[k].id.Some?
    ensures IsNormalReplyTo(Respond(a, now), a, now)
    ensures (exists k :: 0 <= k < |Members(a)| && IsUser(Members(a)[k])) ==>
      a.membersAdded.Some? && Respond(a, now).text == Greeting
    ensures !(exists k :: 0 <= k < |Members(a)| && IsUser(Members(a)[k])) ==>
      Respond(a, now).text == DefaultText
  {
    var ms := Members(a);
    if a.membersAdded.Some? {
      assert !exists k :: MissingIdAt(ms, k);
      if exists k :: 0 <= k < |ms| && IsUser(ms[k]) {
        var k := FirstUser(ms);
        assert UserFoundAt(ms, k);
      }
    }
  }

  /** The position of the first user among members that all have ids. */
  lemma FirstUser(ms: seq<Member>) returns (k: int)
    requires forall j :: 0 <= j < |ms| ==> ms[j].id.Some?
    requires exists j :: 0 <= j < |ms| && IsUser(ms[j])
    ensures UserFoundAt(ms, k)
  {
    k := 0;
    while !IsUser(ms[k])
      invariant 0 <= k < |ms|
      invariant NoUserBefore(ms, k)
      invariant exists j :: k <= j < |ms| && IsUser(ms[j])
      decreases |ms| - k
    {
      k := k + 1;
    }
  }

  /**
    A `newsSelected` event is thanked with a text quoting the article's title;
    without `value` the handler throws and sends the error reply.
   */
  lemma NewsSelectedReply(a: Inbound, now: string)
    requires a.kind == Some("event") && a.name == Some("newsSelected")
    ensures a.value.None? ==> Respond(a, now) == ErrorReply
    ensures a.value.Some? ==>
      && IsNormalReplyTo(Respond(a, now), a, now)
      && Respond(a, now).text == ThankYou(a.value.value.title)
      && Occurs(a.value.value.title, Respond(a, now).text)
  {
    if a.value.Some? {
      OccursInTemplate(ThankYouPrefix, a.value.value.title, ThankYouSuffix);
    }
  }

  /** An event with any other name gets the default text, not an echo. */
  lemma OtherEventReply(a: Inbound, now: string)
    requires a.kind == Some("event") && a.name != Some("newsSelected")
    ensures IsNormalReplyTo(Respond(a, now), a, now)
    ensures Respond(a, now).text == DefaultText
    ensures Respond(a, now).text != Echo(a.text)
  {
  }

  /** A message is echoed: the reply quotes its text verbatim. */
  lemma MessageReply(a: Inbound, now: string)
    requires a.kind == Some("message")
    ensures IsNormalReplyTo(Respond(a, now), a, now)
    ensures Respond(a, now).text == Echo(a.text)
    ensures Occurs(a.text, Respond(a, now).text)
  {
    OccursInTemplate(EchoPrefix, a.text, EchoSuffix);
  }

  /** An activity of any other type gets the default text. */
  lemma UnrecognisedKindReply(a: Inbound, now: string)
    requires a.kind !in {Some("conversationUpdate"), Some("event"), Some("message")}
    ensures IsNormalReplyTo(Respond(a, now), a, now)
    ensures Respond(a, now).text == DefaultText
  {
  }

  /**
    The default text is sent exactly when no rule produced a text and nothing
    threw: a `conversationUpdate` without members or whose members all have ids
    and none is the user, or a type no rule handles.
   */
  lemma DefaultExactly(a: Inbound, now: string)
    ensures Respond(a, now).text == DefaultText <==>
      || (a.kind == Some("conversationUpdate") && NoUserBefore(Members(a), |Members(a)|))
      || (&& a.kind != Some("conversationUpdate")
          && a.kind != Some("message")
          && !(a.kind == Some("event") && a.name == Some("newsSelected")))
  {
  }

  /**
    The error reply is sent exactly when the chosen rule reads a missing
    field: the `value` of a `newsSelected` event, or the `id` of an added
    member reached before any user.
   */
  lemma ErrorExactly(a: Inbound, now: string)
    ensures Respond(a, now) == ErrorReply <==>
      || (a.kind == Some("event") && a.name == Some("newsSelected") && a.value.None?)
      || (&& a.kind == Some("conversationUpdate")
          && a.membersAdded.Some?
          && exists k :: MissingIdAt(Members(a), k))
  {
    if a.kind == Some("conversationUpdate") && a.membersAdded.Some? {
      var found := SomeMemberIsUser(a.membersAdded.value);
      assert found.Throws? <==> exists k :: MissingIdAt(Members(a), k);
    }
  }

  /**
    `some` stops at the first user: a member without id after the user does
    not throw, while the same member before the user does.
   */
  lemma ScanStopsAtFirstUser(conversation: Option<ConversationRef>, now: string)
    ensures var a := Inbound(Some("conversationUpdate"), Some("a1"), None, "", None,
                             Some([Member(Some("bot")), Member(Some("user1")), Member(None)]),
                             None, conversation);
      && Respond(a, now).text == Greeting
      && Respond(a, now).recipient == Some(AnonymousUser)
    ensures var a := Inbound(Some("conversationUpdate"), Some("a1"), None, "", None,
                             Some([Member(None), Member(Some("user1"))]),
                             None, conversation);
      Respond(a, now) == ErrorReply
  {
  }
}
