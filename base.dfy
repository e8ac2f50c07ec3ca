/// `agents/base.py` and the agent half of `agents/chat.py`: an agent is an object with a
/// name and a metadata dictionary whose `act` is supplied by its concrete class. The one
/// concrete class is the chat agent, so the kind of an agent is a one-case datatype and
/// `act` dispatches on it.
module Agents {
  import opened Wrappers
  import Nlp
  import Chat

  /** The concrete agent classes; `BaseAgent` itself is abstract and has no instances. */
  datatype AgentKind = ChatAgent

  /** `metadata or {}`: no dictionary, or an empty one, is stored as an empty dictionary. */
  function StoredMetadata<V>(metadata: Option<map<string, V>>): (stored: map<string, V>)
    ensures metadata.Some? ==> stored == metadata.value
    ensures metadata.None? ==> stored == map[]
  {
    if metadata.None? || |metadata.value| == 0 then map[] else metadata.value
  }

  class Agent<V> {
    const kind: AgentKind
    var name: string
    var metadata: map<string, V>

    /** `BaseAgent.__init__(name, metadata)`. */
    constructor(kind: AgentKind, name: string, metadata: Option<map<string, V>>)
      ensures this.kind == kind && this.name == name
      ensures this.metadata == StoredMetadata(metadata)
    {
      this.kind := kind;
      this.name := name;
      this.metadata := StoredMetadata(metadata);
    }

    /** `act(input_data)`: for a chat agent, classify the input, summarize it and frame
        both with the agent's name. Acting changes nothing in the agent. */
    method Act(input: string) returns (response: string)
      ensures kind == ChatAgent ==> response == Chat.Respond(name, input)
      ensures Chat.Header(name) <= response && |response| <= |name| + 136
    {
      match kind
      case ChatAgent =>
        var sentiment := Nlp.AnalyzeSentiment(input);
        var summary := Chat.Summary(input);
        response := Chat.Format(name, sentiment, summary);
    }
  }
}
