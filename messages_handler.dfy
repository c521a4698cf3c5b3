/**
  The reply decision of the `POST /api/messages` handler: from an inbound
  activity, the JSON object the handler sends back. The handler tries its
  rules in order, builds a reply envelope around the chosen text, and
  answers with a fixed error reply when reading the activity throws.
 */
module MessagesHandler {
  import opened Activity
  import opened JsString

  /** The `TypeError`s the handler can raise while reading an activity. */
  datatype Failure =
    | MissingValue     // `activity.value.title` on a `newsSelected` event without `value`
    | MemberWithoutId  // `m.id.includes(...)` on an added member without `id`

  /** A computation that returns a value or throws. */
  datatype Outcome<T> = Ok(value: T) | Throws(error: Failure)

  /** The substring that marks an added member as the human user. */
  const UserMarker := "user"

  // The fixed texts are written sentence by sentence; the verifier reads
  // characters off a short literal more readily than off a long one.
  const Greeting := "👋 Bonjour ! " + "Je suis votre assistant actualités. " + "Sélectionnez un article pour discuter."
  const DefaultText := "Je suis votre assistant actualités. " + "Comment puis-je vous aider ?"
  const ErrorText := "❌ Désolé, une erreur est survenue. " + "Veuillez réessayer."

  const ThankYouPrefix := "📰 Merci d'avoir sélectionné : \""
  const ThankYouSuffix := "\"\n\nQue souhaitez-vous savoir sur cet article ?"
  const EchoPrefix := "🤖 J'ai reçu votre message : \""
  const EchoSuffix := "\"\n\nJe suis un bot simple qui fonctionne ! 🎉"

  /** The thank-you text for a selected article. */
  function ThankYou(title: string): string {
    ThankYouPrefix + title + ThankYouSuffix
  }

  /** The echo text for a message. */
  function Echo(text: string): string {
    EchoPrefix + text + EchoSuffix
  }

  /** The reply sent when handling the activity throws. */
  const ErrorReply := Reply("message", None, None, None, None, ErrorText, None)

  /** The member's id is present and contains the user marker. */
  ghost predicate IsUser(m: Member) {
    m.id.Some? && Occurs(UserMarker, m.id.value)
  }

  /** Every member before position `k` has an id, and none of them is the user. */
  ghost predicate NoUserBefore(ms: seq<Member>, k: int)
    requires 0 <= k <= |ms|
  {
    forall j :: 0 <= j < k ==> ms[j].id.Some? && !IsUser(ms[j])
  }

  /** Scanning `ms` in order reaches a user member at `k`. */
  ghost predicate UserFoundAt(ms: seq<Member>, k: int) {
    0 <= k < |ms| && NoUserBefore(ms, k) && IsUser(ms[k])
  }

  /** Scanning `ms` in order reaches a member without id at `k`. */
  ghost predicate MissingIdAt(ms: seq<Member>, k: int) {
    0 <= k < |ms| && NoUserBefore(ms, k) && ms[k].id.None?
  }

  /**
    `ms.some(m => m.id.includes('user'))`: members are read in order and the
    scan stops at the first user, so a member without id throws only when
    no user comes before it.
   */
  function SomeMemberIsUser(ms: seq<Member>): (r: Outcome<bool>)
    ensures r == Ok(true) <==> exists k :: UserFoundAt(ms, k)
    ensures r == Ok(false) <==> NoUserBefore(ms, |ms|)
    ensures r.Throws? <==> exists k :: MissingIdAt(ms, k)
    ensures r.Throws? ==> r.error == MemberWithoutId
  {
    if |ms| == 0 then
      Ok(false)
    else
      match ms[0].id
      case None =>
        assert MissingIdAt(ms, 0);
        Throws(MemberWithoutId)
      case Some(id) =>
        if Includes(id, UserMarker) then
          assert UserFoundAt(ms, 0);
          Ok(true)
        else
          var r := SomeMemberIsUser(ms[1..]);
          ShiftScan(ms);
          r
  }

  /** A scan of `ms` whose first member is not the user is a scan of `ms[1..]`, one position later. */
  lemma ShiftScan(ms: seq<Member>)
    requires |ms| > 0 && ms[0].id.Some? && !IsUser(ms[0])
    ensures (exists k :: UserFoundAt(ms, k)) <==> (exists k :: UserFoundAt(ms[1..], k))
    ensures (exists k :: MissingIdAt(ms, k)) <==> (exists k :: MissingIdAt(ms[1..], k))
    ensures NoUserBefore(ms, |ms|) <==> NoUserBefore(ms[1..], |ms| - 1)
  {
    var tail := ms[1..];
    forall k | 0 <= k <= |tail|
      ensures NoUserBefore(ms, k + 1) <==> NoUserBefore(tail, k)
    {
      assert forall j :: 0 <= j < k ==> tail[j] == ms[j + 1];
    }
    if exists k :: UserFoundAt(ms, k) {
      var k :| UserFoundAt(ms, k);
      assert k > 0;
      assert UserFoundAt(tail, k - 1);
    }
    if exists k :: UserFoundAt(tail, k) {
      var k :| UserFoundAt(tail, k);
      assert UserFoundAt(ms, k + 1);
    }
    if exists k :: MissingIdAt(ms, k) {
      var k :| MissingIdAt(ms, k);
      assert k > 0;
      assert MissingIdAt(tail, k - 1);
    }
    if exists k :: MissingIdAt(tail, k) {
      var k :| MissingIdAt(tail, k);
      assert MissingIdAt(ms, k + 1);
    }
  }

  /**
    The value of `responseText` after the rule chain, or the exception the
    chain throws. The empty string means that no rule produced a text; the
    greeting, the thank-you and the echo each belong to exactly one rule.
   */
  function ResponseText(a: Inbound): (r: Outcome<string>)
    ensures r == Ok("") <==>
      || (&& a.kind == Some("conversationUpdate")
          && (a.membersAdded.None? || NoUserBefore(a.membersAdded.value, |a.membersAdded.value|)))
      || (&& a.kind != Some("conversationUpdate")
          && a.kind != Some("message")
          && !(a.kind == Some("event") && a.name == Some("newsSelected")))
    ensures r == Ok(Greeting) <==>
      && a.kind == Some("conversationUpdate")
      && a.membersAdded.Some?
      && exists k :: UserFoundAt(a.membersAdded.value, k)
    ensures r == Throws(MissingValue) <==>
      a.kind == Some("event") && a.name == Some("newsSelected") && a.value.None?
    ensures r == Throws(MemberWithoutId) <==>
      && a.kind == Some("conversationUpdate")
      && a.membersAdded.Some?
      && exists k :: MissingIdAt(a.membersAdded.value, k)
    ensures a.kind == Some("event") && a.name == Some("newsSelected") && a.value.Some? ==>
      r == Ok(ThankYou(a.value.value.title))
    ensures a.kind == Some("message") ==> r == Ok(Echo(a.text))
  {
    if a.kind == Some("conversationUpdate") then
      match a.membersAdded
      case None => Ok("")
      case Some(ms) =>
        match SomeMemberIsUser(ms)
        case Throws(e) => Throws(e)
        case Ok(found) => Ok(if found then Greeting else "")
    else if a.kind == Some("event") && a.name == Some("newsSelected") then
      match a.value
      case None => Throws(MissingValue)
      case Some(item) =>
        assert ThankYou(item.title)[0] != Greeting[0];
        Ok(ThankYou(item.title))
    else if a.kind == Some("message") then
      assert Echo(a.text)[0] != Greeting[0];
      Ok(Echo(a.text))
    else
      Ok("")
  }

  /**
    The object the handler sends for inbound activity `a`, where `now` is the
    ISO timestamp the clock would give. A normal reply addresses the sender
    from the bot in the same conversation; an exception gives `ErrorReply`.
   */
  function Respond(a: Inbound, now: string): (r: Reply)
    ensures r.kind == "message" && |r.text| > 0
    ensures ResponseText(a).Throws? <==> r == ErrorReply
    ensures ResponseText(a).Ok? ==>
      && r.timestamp == Some(now)
      && r.from == Some(Bot)
      && r.conversation == a.conversation
      && r.recipient == (if a.from.Some? then a.from else Some(AnonymousUser))
      && r.replyToId == a.id
      && r.text == (if ResponseText(a).value == "" then DefaultText else ResponseText(a).value)
  {
    match ResponseText(a)
    case Throws(_) => ErrorReply
    case Ok(t) =>
      Reply(
        kind := "message",
        timestamp := Some(now),
        from := Some(Bot),
        conversation := a.conversation,
        recipient := if a.from.Some? then a.from else Some(AnonymousUser),
        text := if t == "" then DefaultText else t,
        replyToId := a.id)
  }
}
