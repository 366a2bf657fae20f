/** The session store of basics/memory.py: `get_history` over `store`, and
    the two invocations that share the key "user-1". */
module MemoryDemo {
  import opened ChatHistory

  /** The session key both invocations are configured with. */
  const USER_KEY: string := "user-1"

  /** Both `memory_chain.invoke` calls resolve "user-1" through
      `get_history`: the second gets the history the first one stored. */
  method TwoInvocations(store: SessionStore) returns (first: MessageHistory, second: MessageHistory)
    requires store.Valid()
    modifies store
    ensures store.Valid()
    ensures first == second && USER_KEY in store.sessions && store.sessions[USER_KEY] == first
    ensures store.sessions.Keys == old(store.sessions.Keys) + {USER_KEY}
    ensures USER_KEY !in old(store.sessions) ==> fresh(first) && first.messages == []
    ensures USER_KEY in old(store.sessions) ==> first == old(store.sessions[USER_KEY])
    ensures forall k :: k in old(store.sessions) ==> store.sessions[k] == old(store.sessions[k])
  {
    first := store.GetOrCreate(USER_KEY);
    second := store.GetOrCreate(USER_KEY);
  }
}
