/** The two calls to the remote chat service (app.js lines 7-49). The HTTP
    exchange itself is an oracle: each call is given the reply it got, and the
    model says how the rotator turns that reply into its result. Neither call
    ever lets an error escape: every thrown error becomes a failure result. */
module Remote {
  import opened Options
  import opened Json

  /** What `fetch` gave back: it threw (network error, DNS failure, aborted
      connection), or a response arrived with this HTTP status. */
  datatype Reply = Threw | Responded(status: int)

  /** What `response.json()` made of a response body. */
  datatype Body = Unparsable | Parsed(data: Value)

  /** The outcome of the identity request: `fetch` threw, or a response came
      with a status and a body (the body is read only on status 200). */
  datatype IdentityReply = IdentityThrew | IdentityResponded(status: int, body: Body)

  /** The pair `[username, isValidToken]` that `getUserInfo` resolves to. */
  datatype UserInfo = UserInfo(username: Value, valid: bool)

  /** The fallback pair returned for every failure. */
  const InvalidToken: UserInfo := UserInfo(Str("Invalid token"), false)

  /** `getUserInfo`: the token is valid exactly when the service answered 200
      with a body that parsed and whose `username` could be read; every other
      status, a thrown `fetch`, an unparsable body or a `null` body yields the
      fixed invalid pair. */
  function GetUserInfo(reply: IdentityReply): (u: UserInfo)
    ensures u.valid <==>
      && reply.IdentityResponded?
      && reply.status == 200
      && reply.body.Parsed?
      && Access(reply.body.data, "username").Some?
    ensures u.valid ==> u.username == Access(reply.body.data, "username").value
    ensures !u.valid ==> u == InvalidToken
  {
    match reply
    case IdentityThrew => InvalidToken
    case IdentityResponded(status, body) =>
      if status != 200 then InvalidToken
      else match body
        case Unparsable => InvalidToken
        case Parsed(data) =>
          match Access(data, "username")
          case None => InvalidToken
          case Some(name) => UserInfo(name, true)
  }

  /** The request object built by `changeStatus` before it is serialized: a
      `custom_status` object holding `text` and `emoji_name`, followed by a
      top-level `status` member only when `newStatus` is truthy. */
  function Payload(message: Value, emojiName: Value, newStatus: Value): Value {
    var customStatus := Obj([Member("text", message), Member("emoji_name", emojiName)]);
    var base := [Member("custom_status", customStatus)];
    Obj(if Truthy(newStatus) then base + [Member("status", newStatus)] else base)
  }

  /** One status update: the JSON body that was sent and whether the call
      reported success. */
  datatype Submission = Submission(body: Value, ok: bool)

  /** `changeStatus`: sends the serialized payload and succeeds exactly on an
      HTTP 200 reply; any other status and any thrown error give `false`. */
  function ChangeStatus(message: Value, emojiName: Value, newStatus: Value, reply: Reply): (s: Submission)
    ensures s.ok <==> reply == Responded(200)
    ensures Serializable(s.body)
    ensures s.body.Obj?
  {
    Submission(Wire(Payload(message, emojiName, newStatus)), reply.Responded? && reply.status == 200)
  }

  /** The body sent does not depend on how the call turned out. */
  lemma SubmittedBodyIgnoresReply(message: Value, emojiName: Value, newStatus: Value, r1: Reply, r2: Reply)
    ensures ChangeStatus(message, emojiName, newStatus, r1).body == ChangeStatus(message, emojiName, newStatus, r2).body
  {
  }

  /** The top-level keys of the body are `custom_status` and then, only when
      `newStatus` is truthy, `status`; a falsy or missing `newStatus` leaves the
      key out entirely rather than sending `null`. */
  lemma SubmittedBodyKeys(message: Value, emojiName: Value, newStatus: Value, reply: Reply)
    ensures Keys(ChangeStatus(message, emojiName, newStatus, reply).body.members)
      == ["custom_status"] + (if Truthy(newStatus) then ["status"] else [])
  {
    var ms := Payload(message, emojiName, newStatus).members;
    var head := Member("custom_status", Wire(ms[0].value));
    if Truthy(newStatus) {
      assert ms[1..] == [Member("status", newStatus)];
      assert ms[1..][1..] == [];
      assert WireMembers(ms[1..]) == [Member("status", Wire(newStatus))];
      assert WireMembers(ms) == [head, Member("status", Wire(newStatus))];
    } else {
      assert ms[1..] == [];
      assert WireMembers(ms) == [head];
    }
  }

  /** Reading `status` back from the body gives the availability value exactly
      when it was truthy, and nothing otherwise. */
  lemma SubmittedStatus(message: Value, emojiName: Value, newStatus: Value, reply: Reply)
    ensures Lookup(ChangeStatus(message, emojiName, newStatus, reply).body, "status")
      == if Truthy(newStatus) then Some(Wire(newStatus)) else None
  {
    var p := Payload(message, emojiName, newStatus);
    assert DistinctKeys(p.members);
    GetWireMembers(p.members, "status");
  }

  /** The serialized `custom_status` object: what `JSON.stringify` makes of
      the nested object literal. */
  lemma {:induction false} SubmittedCustomStatusObject(message: Value, emojiName: Value, newStatus: Value, reply: Reply)
    ensures Lookup(ChangeStatus(message, emojiName, newStatus, reply).body, "custom_status")
      == Some(Obj(WireMembers([Member("text", message), Member("emoji_name", emojiName)])))
  {
    var p := Payload(message, emojiName, newStatus);
    var ws := WireMembers(p.members);
    assert ws[0] == Member("custom_status", Wire(p.members[0].value));
  }

  /** Reading `custom_status` back from the body gives an object whose `text`
      and `emoji_name` are exactly what was passed in, each missing from the
      JSON when it was `undefined`, and which has no other keys. */
  lemma SubmittedCustomStatus(message: Value, emojiName: Value, newStatus: Value, reply: Reply)
    ensures var cs := Lookup(ChangeStatus(message, emojiName, newStatus, reply).body, "custom_status");
      && cs.Some? && cs.value.Obj?
      && Get(cs.value.members, "text") == Emitted(message)
      && Get(cs.value.members, "emoji_name") == Emitted(emojiName)
      && forall k :: k in Keys(cs.value.members) ==> k == "text" || k == "emoji_name"
  {
    SubmittedCustomStatusObject(message, emojiName, newStatus, reply);
    CustomStatusMembers(message, emojiName);
  }

  /** The serialized `{text, emoji_name}` member list reads back as what was
      emitted for each and has no other key. */
  lemma CustomStatusMembers(message: Value, emojiName: Value)
    ensures var ws := WireMembers([Member("text", message), Member("emoji_name", emojiName)]);
      && Get(ws, "text") == Emitted(message)
      && Get(ws, "emoji_name") == Emitted(emojiName)
      && forall k :: k in Keys(ws) ==> k == "text" || k == "emoji_name"
  {
    var inner := [Member("text", message), Member("emoji_name", emojiName)];
    assert DistinctKeys(inner);
    GetWireMembers(inner, "text");
    GetWireMembers(inner, "emoji_name");
    assert Keys(inner) == ["text", "emoji_name"];
    forall k | k != "text" && k != "emoji_name" ensures k !in Keys(WireMembers(inner)) {
      WireMembersKeys(inner, k);
    }
  }
}
