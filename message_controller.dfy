/** The contact inbox: the Message collection and the handlers of
    messageController.js as methods that change it. Every handler's catch
    answers 500 with the same server-error message. */
module MessageController {
  import opened Common
  import opened MessageSchema

  const MissingFields := "Please provide all required fields"
  const ServerError := "Server error. Please try again later."
  const EmptyInbox := "There is no any New Message available in your inbox"
  const MessageNotFound := "Message not found"
  const ResponseRequired := "Response is required"
  const InvalidStatus := "Invalid status"
  const MessageIdRequired := "Message ID is required"

  class Inbox {
    /** The Message collection, by id. */
    var messages: map<nat, Message>
    /** The next id the store hands out. */
    var nextId: nat

    /** Every stored message passed validation when it was created, and it
        carries a response date exactly when it carries a response. */
    ghost predicate Valid()
      reads this
    {
      forall id :: id in messages ==>
        && id < nextId
        && ValidMessage(messages[id])
        && (messages[id].response == "" <==> messages[id].responseDate.None?)
    }

    constructor ()
      ensures Valid() && messages == map[] && nextId == 0
    {
      messages, nextId := map[], 0;
    }

    /** `createMessage`: all three fields present and the e-mail matching the
        pattern stores a new pending message without a response (201); a
        missing field is 400 and a failed validation is 500, storing nothing. */
    method CreateMessage(name: string, email: string, message: string) returns (r: Reply<nat>)
      requires Valid()
      modifies this
      ensures Valid()
      ensures nextId == if r.Success? then old(nextId) + 1 else old(nextId)
      ensures name == "" || email == "" || message == "" ==>
                r == Failure(400, MissingFields) && messages == old(messages)
      ensures name != "" && email != "" && message != "" && !MatchesEmailPattern(email) ==>
                r == Failure(500, ServerError) && messages == old(messages)
      ensures name != "" && email != "" && message != "" && MatchesEmailPattern(email) ==>
                && r == Success(201, old(nextId)) && old(nextId) !in old(messages)
                && messages == old(messages)[old(nextId) := Message(name, email, message, Pending, "", None)]
    {
      if name == "" || email == "" || message == "" {
        return Failure(400, MissingFields);
      }
      var m := NewMessage(name, email, message);
      if !ValidMessage(m) {
        return Failure(500, ServerError);
      }
      messages := messages[nextId := m];
      r := Success(201, nextId);
      nextId := nextId + 1;
    }

    /** `getAllMessages`: every message, or 404 when the inbox is empty. */
    function GetAllMessages(): (r: Reply<map<nat, Message>>)
      reads this
      ensures r.Failure? <==> |messages| == 0
      ensures r.Failure? ==> r == Failure(404, EmptyInbox)
      ensures r.Success? ==> r == Success(200, messages)
    {
      if |messages| == 0 then Failure(404, EmptyInbox) else Success(200, messages)
    }

    /** `getMessageById`: the stored message, or 404 for an absent or unknown id. */
    function GetMessageById(id: Option<nat>): (r: Reply<Message>)
      reads this
      ensures r.Success? <==> id.Some? && id.value in messages
      ensures r.Success? ==> r == Success(200, messages[id.value])
      ensures r.Failure? ==> r == Failure(404, MessageNotFound)
    {
      if id.Some? && id.value in messages then Success(200, messages[id.value])
      else Failure(404, MessageNotFound)
    }

    /** `replyToMessage`: an empty response is 400 before any lookup; an
        absent or unknown id is 404; otherwise the message gets the response,
        the reply time and the resolved status, and nothing else changes. */
    method ReplyToMessage(id: Option<nat>, response: string, now: Date) returns (r: Reply<Message>)
      requires Valid()
      modifies this
      ensures Valid() && nextId == old(nextId)
      ensures response == "" ==> r == Failure(400, ResponseRequired) && messages == old(messages)
      ensures response != "" && !(id.Some? && id.value in old(messages)) ==>
                r == Failure(404, MessageNotFound) && messages == old(messages)
      ensures response != "" && id.Some? && id.value in old(messages) ==>
                var m := old(messages)[id.value].(response := response, responseDate := Some(now), status := Resolved);
                r == Success(200, m) && messages == old(messages)[id.value := m]
    {
      if response == "" {
        return Failure(400, ResponseRequired);
      }
      if id.None? || id.value !in messages {
        return Failure(404, MessageNotFound);
      }
      var m := messages[id.value].(response := response, responseDate := Some(now), status := Resolved);
      messages := messages[id.value := m];
      r := Success(200, m);
    }

    /** `updateMessageStatus`: a status outside the enum is 400 before any
        lookup; an absent or unknown id is 404; otherwise only the status changes. */
    method UpdateMessageStatus(id: Option<nat>, status: string) returns (r: Reply<Message>)
      requires Valid()
      modifies this
      ensures Valid() && nextId == old(nextId)
      ensures ParseStatus(status).None? ==> r == Failure(400, InvalidStatus) && messages == old(messages)
      ensures ParseStatus(status).Some? && !(id.Some? && id.value in old(messages)) ==>
                r == Failure(404, MessageNotFound) && messages == old(messages)
      ensures ParseStatus(status).Some? && id.Some? && id.value in old(messages) ==>
                var m := old(messages)[id.value].(status := ParseStatus(status).value);
                r == Success(200, m) && messages == old(messages)[id.value := m]
    {
      var st := ParseStatus(status);
      if st.None? {
        return Failure(400, InvalidStatus);
      }
      if id.None? || id.value !in messages {
        return Failure(404, MessageNotFound);
      }
      var m := messages[id.value].(status := st.value);
      messages := messages[id.value := m];
      r := Success(200, m);
    }

    /** `deleteMessage`: an absent id is 400, an unknown one 404; otherwise the
        message is removed and returned. */
    method DeleteMessage(id: Option<nat>) returns (r: Reply<Message>)
      requires Valid()
      modifies this
      ensures Valid() && nextId == old(nextId)
      ensures id.None? ==> r == Failure(400, MessageIdRequired) && messages == old(messages)
      ensures id.Some? && id.value !in old(messages) ==> r == Failure(404, MessageNotFound) && messages == old(messages)
      ensures id.Some? && id.value in old(messages) ==>
                r == Success(200, old(messages)[id.value]) && messages == old(messages) - {id.value}
    {
      if id.None? {
        return Failure(400, MessageIdRequired);
      }
      if id.value !in messages {
        return Failure(404, MessageNotFound);
      }
      r := Success(200, messages[id.value]);
      messages := messages - {id.value};
    }
  }

  /** A contact-form message through its life: received as pending without a
      response (201, and read back so), answered and resolved (200, the reply
      kept when its status is later set back to pending), deleted (200), and
      then not found (404). */
  method InboxScenario(now: Date)
    returns (created: Reply<nat>, received: Reply<Message>, replied: Reply<Message>,
             reopened: Reply<Message>, deleted: Reply<Message>, lookup: Reply<Message>)
    ensures created.Success? && created.code == 201
    ensures received == Success(200, Message("Ann", "a@b.c", "Hello", Pending, "", None))
    ensures replied.Success? && replied.code == 200
    ensures replied.value.status == Resolved && replied.value.response == "Thanks"
    ensures replied.value.responseDate == Some(now)
    ensures reopened.Success? && reopened.value.status == Pending
    ensures reopened.value.response == "Thanks" && reopened.value.responseDate == Some(now)
    ensures deleted.Success? && deleted.code == 200
    ensures lookup == Failure(404, MessageNotFound)
  {
    var inbox := new Inbox();
    EmailPatternSamples();
    created := inbox.CreateMessage("Ann", "a@b.c", "Hello");
    var id := Some(created.value);
    received := inbox.GetMessageById(id);
    replied := inbox.ReplyToMessage(id, "Thanks", now);
    reopened := inbox.UpdateMessageStatus(id, "pending");
    deleted := inbox.DeleteMessage(id);
    lookup := inbox.GetMessageById(id);
  }
}
