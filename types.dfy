/** The records of types.ts: who speaks, the configured agents, chat
    messages and conversations.  Optional properties become `Option`
    fields, except `isCodeMode`, whose absence reads as `false`. */
module Types {
  import opened Wrappers
  import opened Files

  datatype Sender = User | Gemini | Puter | Claude | GeminiNative | Local {

    /** The string value of the enum member. */
    function Value(): string {
      match this
      case User => "USER"
      case Gemini => "GEMINI"
      case Puter => "PUTER"
      case Claude => "CLAUDE"
      case GeminiNative => "GEMINI_NATIVE"
      case Local => "LOCAL"
    }
  }

  /** Distinct senders have distinct string values, so the source's
      comparisons of senders by value compare the members. */
  lemma ValuesDistinct(a: Sender, b: Sender)
    ensures a.Value() == b.Value() <==> a == b
  {
  }

  /** An agent; `kind` is the source's `type` property. */
  datatype Agent = Agent(
    id: string,
    kind: Sender,
    name: string,
    color: string,
    isActive: bool,
    localEndpoint: Option<string>,
    modelName: Option<string>)

  datatype Message = Message(
    id: string,
    sender: Sender,
    authorName: Option<string>,
    text: string,
    timestamp: int)

  datatype Conversation = Conversation(
    id: string,
    title: string,
    messages: seq<Message>,
    lastUpdated: int,
    participants: seq<Sender>,
    isCodeMode: bool,
    files: ProjectFiles)
}
