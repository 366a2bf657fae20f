/** The in-memory chat history of langchain_app/memory/runnnable_message_history.py
    and the dictionary of histories per session id that the services keep. */
module ChatHistory {

  datatype Message = HumanMessage(content: string) | AIMessage(content: string)

  /** `SimpleChatMessageHistory`: a list of messages held by the object and
      changed in place. */
  class MessageHistory {
    var messages: seq<Message>

    /** A new history holds no messages. */
    constructor ()
      ensures messages == []
    {
      messages := [];
    }

    /** `add_message`: the message goes at the end, after all earlier ones. */
    method AddMessage(m: Message)
      modifies this
      ensures messages == old(messages) + [m]
    {
      messages := messages + [m];
    }

    /** `get_messages`: the stored messages, left as they are. */
    method GetMessages() returns (r: seq<Message>)
      ensures r == messages
    {
      r := messages;
    }

    /** `clear`: the history is empty afterwards. */
    method Clear()
      modifies this
      ensures messages == []
    {
      messages := [];
    }
  }

  /** A module-level dictionary from session id to history
      (`session_store`, and likewise `memory_store` and `store` elsewhere). */
  class SessionStore {
    var sessions: map<string, MessageHistory>

    /** Every session has a history object of its own. */
    predicate Valid()
      reads this
    {
      forall a, b :: a in sessions && b in sessions && a != b ==> sessions[a] != sessions[b]
    }

    constructor ()
      ensures sessions == map[] && Valid()
    {
      sessions := map[];
    }

    /** `get_session_history(session_id)`: the stored history for a known
        id; for an unseen id a new empty history is stored and returned.
        No other entry changes and no history's messages change. */
    method GetOrCreate(id: string) returns (h: MessageHistory)
      requires Valid()
      modifies this
      ensures Valid()
      ensures id in sessions && sessions[id] == h
      ensures id in old(sessions) ==> h == old(sessions[id]) && sessions == old(sessions)
      ensures id !in old(sessions) ==> fresh(h) && h.messages == [] && sessions == old(sessions)[id := h]
    {
      if id !in sessions {
        var created := new MessageHistory();
        sessions := sessions[id := created];
      }
      h := sessions[id];
    }

    /** Looking a session up again after adding a message through the first
        lookup gives the same object, so its messages accumulate. */
    method AddThenLookUp(id: string, m: Message) returns (first: MessageHistory, second: MessageHistory)
      requires Valid()
      modifies this, sessions.Values
      ensures Valid()
      ensures first == second && id in sessions && sessions[id] == second
      ensures second.messages == (if id in old(sessions) then old(sessions[id].messages) else []) + [m]
      ensures forall k :: k in old(sessions) && k != id ==> k in sessions && sessions[k].messages == old(sessions[k].messages)
    {
      first := GetOrCreate(id);
      first.AddMessage(m);
      second := GetOrCreate(id);
    }
  }
}
