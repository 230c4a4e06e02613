/** The state of the App component: the conversations, the turn loop
    flags and the files reference the next prompt is built from.  The
    React state setters become assignments of the fields; the reducers
    passed to `setConversations` become pure functions on the list of
    conversations; the asynchronous `runTurn` is split at its `await` into
    `StartTurn` (choose the agent, build the request) and `FinishTurn`
    (record the outcome of the call, which the model takes as an input). */
module AppState {
  import opened Wrappers
  import opened Strings
  import opened Files
  import opened Types
  import opened CodeBlocks
  import opened CodingPrompts
  import opened SystemPrompt

  // ---------------------------------------------------------------------
  // Choosing the next speaker

  /** `agents.filter(a => a.isActive)`. */
  function ActiveAgents(agents: seq<Agent>): (r: seq<Agent>)
    ensures |r| <= |agents|
    ensures forall a :: a in r <==> a in agents && a.isActive
    decreases |agents|
  {
    if agents == [] then []
    else
      var rest := ActiveAgents(agents[1..]);
      assert forall a :: a in agents <==> a == agents[0] || a in agents[1..];
      if agents[0].isActive then [agents[0]] + rest else rest
  }

  /** `active.findIndex(a => a.name === author)`; an absent author
      (`undefined`) equals no name. */
  function AuthorIndex(active: seq<Agent>, author: Option<string>): (r: int)
    ensures -1 <= r < |active|
    ensures 0 <= r ==> author == Some(active[r].name)
    ensures 0 <= r ==> forall j :: 0 <= j < r ==> author != Some(active[j].name)
    ensures r == -1 ==> forall j :: 0 <= j < |active| ==> author != Some(active[j].name)
    decreases |active|
  {
    if active == [] then -1
    else if author == Some(active[0].name) then 0
    else
      var i := AuthorIndex(active[1..], author);
      if i == -1 then -1 else i + 1
  }

  /** The agent `runTurn` asks: the first active agent when the
      conversation is empty or its last message is the user's, otherwise
      the active agent after the author of the last message, wrapping
      around.  The index is never negative, so JavaScript's `%` and
      Dafny's agree. */
  function NextAgent(active: seq<Agent>, messages: seq<Message>): (r: Agent)
    requires |active| > 0
    ensures r in active
  {
    if messages == [] || messages[|messages| - 1].sender == User then active[0]
    else active[(AuthorIndex(active, messages[|messages| - 1].authorName) + 1) % |active|]
  }

  /** The filter keeps the declared order of the agents. */
  lemma {:induction false} ActiveAgentsConcat(xs: seq<Agent>, ys: seq<Agent>)
    ensures ActiveAgents(xs + ys) == ActiveAgents(xs) + ActiveAgents(ys)
    decreases |xs|
  {
    if xs == [] {
      assert xs + ys == ys;
    } else {
      assert (xs + ys)[0] == xs[0] && (xs + ys)[1..] == xs[1..] + ys;
      ActiveAgentsConcat(xs[1..], ys);
    }
  }

  predicate UniqueNames(active: seq<Agent>) {
    forall i, j :: 0 <= i < j < |active| ==> active[i].name != active[j].name
  }

  /** With distinct names the agents take turns: after a message by the
      agent at position `i` comes the one at `i + 1`, and after the last
      one the first again. */
  lemma NextAgentRoundRobin(active: seq<Agent>, messages: seq<Message>, i: nat)
    requires UniqueNames(active) && i < |active|
    requires messages != [] && messages[|messages| - 1].sender != User
    requires messages[|messages| - 1].authorName == Some(active[i].name)
    ensures NextAgent(active, messages) == active[(i + 1) % |active|]
  {
  }

  /** A last message whose author is no active agent (an agent switched
      off, the system's own message, no author at all) gives the turn to
      the first active agent. */
  lemma NextAgentUnknownAuthor(active: seq<Agent>, messages: seq<Message>)
    requires |active| > 0 && messages != []
    requires forall a :: a in active ==> messages[|messages| - 1].authorName != Some(a.name)
    ensures NextAgent(active, messages) == active[0]
  {
  }

  /** The first turn of a conversation, and every turn after a user's
      message, goes to the first active agent. */
  lemma FirstTurn(active: seq<Agent>, messages: seq<Message>)
    requires |active| > 0
    requires messages == [] || messages[|messages| - 1].sender == User
    ensures NextAgent(active, messages) == active[0]
  {
  }

  // ---------------------------------------------------------------------
  // The conversation list

  /** `conversations.find(c => c.id === id)`, as a position. */
  function FirstWithId(cs: seq<Conversation>, id: string): (r: Option<nat>)
    ensures r.Some? ==> r.value < |cs| && cs[r.value].id == id
    ensures r.Some? ==> forall j :: 0 <= j < r.value ==> cs[j].id != id
    ensures r.None? ==> forall j :: 0 <= j < |cs| ==> cs[j].id != id
    decreases |cs|
  {
    if cs == [] then None
    else if cs[0].id == id then Some(0)
    else match FirstWithId(cs[1..], id)
      case None => None
      case Some(i) => Some(i + 1)
  }

  /** `conversations.find(c => c.id === activeId) || conversations[0]`. */
  function ActiveConversation(cs: seq<Conversation>, id: string): (r: Conversation)
    requires |cs| > 0
    ensures r in cs
    ensures (exists i :: 0 <= i < |cs| && cs[i].id == id) ==> r.id == id
  {
    match FirstWithId(cs, id)
    case Some(i) => cs[i]
    case None => cs[0]
  }

  /** Two lists whose conversations have the same ids in the same order. */
  predicate SameIds(cs: seq<Conversation>, ds: seq<Conversation>) {
    |cs| == |ds| && forall i :: 0 <= i < |cs| ==> cs[i].id == ds[i].id
  }

  lemma SameIdsFind(cs: seq<Conversation>, ds: seq<Conversation>, id: string)
    requires SameIds(cs, ds)
    ensures FirstWithId(ds, id) == FirstWithId(cs, id)
  {
    match FirstWithId(cs, id) {
      case None =>
        assert forall j :: 0 <= j < |ds| ==> ds[j].id == cs[j].id;
      case Some(i) =>
        assert ds[i].id == id;
        assert forall j :: 0 <= j < i ==> ds[j].id == cs[j].id;
    }
  }

  /** The reducer of `handleUpdateFiles`: the conversation with the id gets
      `{ ...c.files, ...newFiles }`. */
  function WithFiles(cs: seq<Conversation>, id: string, newFiles: ProjectFiles): (r: seq<Conversation>)
    ensures SameIds(cs, r)
  {
    seq(|cs|, i requires 0 <= i < |cs| =>
      if cs[i].id == id then cs[i].(files := Merge(cs[i].files, newFiles)) else cs[i])
  }

  /** The reducer of `addMessage`: the conversation with the id gets the
      message appended. */
  function WithMessage(cs: seq<Conversation>, id: string, m: Message): (r: seq<Conversation>)
    ensures SameIds(cs, r)
  {
    seq(|cs|, i requires 0 <= i < |cs| =>
      if cs[i].id == id then cs[i].(messages := cs[i].messages + [m]) else cs[i])
  }

  /** `handleUpdateFiles` changes the active conversation only: its files
      take every key of `newFiles` from `newFiles` and keep every other
      one, with the old keys first in their order; its messages and every
      other conversation are unchanged. */
  lemma WithFilesEffect(cs: seq<Conversation>, id: string, newFiles: ProjectFiles, i: nat, k: string)
    requires i < |cs|
    ensures var r := WithFiles(cs, id, newFiles);
      cs[i].id != id ==> r[i] == cs[i]
    ensures var r := WithFiles(cs, id, newFiles);
      cs[i].id == id ==>
        r[i].messages == cs[i].messages && r[i].isCodeMode == cs[i].isCodeMode &&
        Get(r[i].files, k) == (if k in Keys(newFiles) then Get(newFiles, k) else Get(cs[i].files, k)) &&
        |r[i].files| >= |cs[i].files| && Keys(r[i].files)[..|cs[i].files|] == Keys(cs[i].files)
  {
    MergeGet(cs[i].files, newFiles, k);
  }

  /** `addMessage`'s reducer appends exactly one message to the active
      conversation and leaves its files and every other conversation. */
  lemma WithMessageEffect(cs: seq<Conversation>, id: string, m: Message, i: nat)
    requires i < |cs|
    ensures var r := WithMessage(cs, id, m);
      cs[i].id != id ==> r[i] == cs[i]
    ensures var r := WithMessage(cs, id, m);
      cs[i].id == id ==> r[i].messages == cs[i].messages + [m] && r[i].files == cs[i].files
  {
  }

  /** What one `addMessage(text, sender, authorName)` does to the
      conversations: parse the text with no current files (the call site
      passes none), merge the files if the parse produced any, then append
      the message carrying the clean text. */
  function AfterAdd(cs: seq<Conversation>, id: string, text: string, m: Message): seq<Conversation> {
    var (files, clean) := Parse(text, Empty);
    var cs' := if |files| > 0 then WithFiles(cs, id, files) else cs;
    WithMessage(cs', id, m.(text := clean))
  }

  /** After `addMessage` the active conversation has exactly one more
      message, with the clean text; its files are the old ones merged with
      the parsed ones, and are untouched when the parse produced none. */
  lemma AfterAddActive(cs: seq<Conversation>, id: string, text: string, m: Message)
    requires FirstWithId(cs, id).Some?
    ensures var r := AfterAdd(cs, id, text, m);
      var c := ActiveConversation(cs, id);
      var (files, clean) := Parse(text, Empty);
      |r| == |cs| && FirstWithId(r, id) == FirstWithId(cs, id) &&
      ActiveConversation(r, id).messages == c.messages + [m.(text := clean)] &&
      ActiveConversation(r, id).files == (if |files| > 0 then Merge(c.files, files) else c.files)
  {
    var (files, clean) := Parse(text, Empty);
    var cs' := if |files| > 0 then WithFiles(cs, id, files) else cs;
    var r := WithMessage(cs', id, m.(text := clean));
    SameIdsFind(cs, cs', id);
    SameIdsFind(cs', r, id);
    var i := FirstWithId(cs, id).value;
    assert ActiveConversation(cs, id) == cs[i];
    assert ActiveConversation(r, id) == r[i];
  }

  /** Every other conversation is left as it was by `addMessage`. */
  lemma AfterAddOthers(cs: seq<Conversation>, id: string, text: string, m: Message, i: nat)
    requires i < |cs| && cs[i].id != id
    ensures |AfterAdd(cs, id, text, m)| == |cs| && AfterAdd(cs, id, text, m)[i] == cs[i]
  {
  }

  /** At the `addMessage` call site the parse starts from no files, so each
      file it returns was written by a FILE block of the same message: a
      REPLACE block can only patch a file created in that message. */
  lemma CallSiteFiles(text: string, k: string)
    requires k in Keys(Parse(text, Empty).0)
    ensures exists b :: b in FileBlocks(text, 0) && Trim(b.name) == k
  {
    MergeEmpty(Empty);
    var bs := FileBlocks(text, 0);
    var (files, clean) := ApplyFiles(Empty, text, bs);
    PatchLoopKeys(files, clean, ReplaceBlocks(text, 0));
    assert k in Keys(files);
    FileLoopGet(Empty, text, bs, k);
    var es := FileWrites(bs);
    assert LastAssigned(es, k).Some?;
    var i :| 0 <= i < |es| && es[i].0 == k;
    assert bs[i] in bs;
  }

  /** A text containing no `[` holds no block: the parse changes nothing. */
  lemma PlainText(text: string)
    requires '[' !in text
    ensures Parse(text, Empty) == (Empty, text)
  {
    AbsentHead(text, FileOpen);
    AbsentHead(text, ReplaceOpen);
    ParseNoBlocks(text, Empty);
  }

  lemma AbsentHead(s: string, pat: string)
    requires pat != [] && pat[0] !in s
    ensures !Contains(s, pat)
  {
    forall k | 0 <= k <= |s|
      ensures !StartsAt(s, k, pat)
    {
      if k + |pat| <= |s| {
        assert s[k..k + |pat|][0] == s[k];
      }
    }
  }

  // ---------------------------------------------------------------------
  // The component

  /** The message `runTurn` records when the call fails. */
  const Interruption: string := "⚠️ Interruption de l'essaim."
  const SystemName: string := "Système"

  /** The outcome of the call to the agent's model. */
  datatype Outcome = Success(text: string) | Failure

  /** What `runTurn` sends: the agent, the system prompt when the
      conversation is in code mode (the discussion prompt is not part of
      this model), and the messages so far. */
  datatype Request = Request(agent: Agent, codingPrompt: Option<string>, history: seq<Message>)

  /** The request for the next turn of conversation `c`. */
  function TurnRequest(active: seq<Agent>, c: Conversation, filesRef: ProjectFiles): (r: Request)
    requires |active| > 0
    ensures r.agent in active && r.history == c.messages
    ensures r.codingPrompt.Some? <==> c.isCodeMode
  {
    var next := NextAgent(active, c.messages);
    Request(next, if c.isCodeMode then Some(CodingSystemPrompt(next.kind, filesRef)) else None, c.messages)
  }

  /** The message a finished turn hands to `addMessage`: the agent's answer
      under its sender and name, or the interruption notice. */
  function Recorded(request: Request, outcome: Outcome, id: string, timestamp: int): (m: Message)
    ensures m.id == id && m.timestamp == timestamp
    ensures outcome.Success? ==>
      m.sender == request.agent.kind && m.authorName == Some(request.agent.name) && m.text == outcome.text
    ensures outcome.Failure? ==> m.sender == Local && m.authorName == Some(SystemName) && m.text == Interruption
  {
    match outcome
    case Success(text) => Message(id, request.agent.kind, Some(request.agent.name), text, timestamp)
    case Failure => Message(id, Local, Some(SystemName), Interruption, timestamp)
  }

  /** The failure message holds no block, so it is recorded verbatim and
      touches no file. */
  lemma InterruptionVerbatim()
    ensures Parse(Interruption, Empty) == (Empty, Interruption)
  {
    assert '[' !in Interruption;
    PlainText(Interruption);
  }

  /** The two agents the component starts with. */
  const DefaultAgents: seq<Agent> := [
    Agent("a1", GeminiNative, "Gemini Cloud", "teal", true, None, None),
    Agent("a2", Local, "IA Mobile", "orange", true, None, None)]

  /** `INITIAL_CONVERSATION`, given the fresh id and the time. */
  function InitialConversation(id: string, now: int): Conversation {
    Conversation(id, "Projet Mobile", [], now, [GeminiNative, Local], true, Empty)
  }

  class App {
    var conversations: seq<Conversation>
    const activeId: string
    var isAutoLoop: bool
    var isProcessing: bool
    const agents: seq<Agent>
    /** `filesRef.current`: the files the next coding prompt lists. */
    var filesRef: ProjectFiles

    /** There is a conversation with the active id; no update adds or
        removes one or changes an id. */
    ghost predicate Valid()
      reads this
    {
      FirstWithId(conversations, activeId).Some?
    }

    function Active(): Conversation
      reads this
      requires Valid()
    {
      ActiveConversation(conversations, activeId)
    }

    /** The auto-loop effect schedules a turn exactly when this holds. */
    predicate TurnDue()
      reads this
    {
      isAutoLoop && !isProcessing
    }

    constructor (id: string, now: int)
      ensures Valid()
      ensures conversations == [InitialConversation(id, now)] && activeId == id
      ensures !isAutoLoop && !isProcessing && agents == DefaultAgents && filesRef == Empty
    {
      conversations := [InitialConversation(id, now)];
      activeId := id;
      isAutoLoop := false;
      isProcessing := false;
      agents := DefaultAgents;
      filesRef := Empty;
    }

    /** `handleUpdateFiles(newFiles)`. */
    method UpdateFiles(newFiles: ProjectFiles)
      requires Valid()
      modifies this
      ensures Valid()
      ensures conversations == WithFiles(old(conversations), activeId, newFiles)
      ensures isAutoLoop == old(isAutoLoop) && isProcessing == old(isProcessing) && filesRef == old(filesRef)
    {
      SameIdsFind(conversations, WithFiles(conversations, activeId, newFiles), activeId);
      conversations := WithFiles(conversations, activeId, newFiles);
    }

    /** `addMessage(text, sender, authorName)` with the fresh id and the
        time as inputs; the effect on the active messages then refreshes
        `filesRef`. */
    method AddMessage(text: string, sender: Sender, authorName: Option<string>, id: string, timestamp: int)
      requires Valid()
      modifies this
      ensures Valid()
      ensures conversations == AfterAdd(old(conversations), activeId, text, Message(id, sender, authorName, text, timestamp))
      ensures filesRef == Active().files
      ensures isAutoLoop == old(isAutoLoop) && isProcessing == old(isProcessing)
    {
      var updatedFiles, cleanText := ParseCodeFromResponse(text, Empty);
      if |updatedFiles| > 0 {
        UpdateFiles(updatedFiles);
      }
      var m := Message(id, sender, authorName, cleanText, timestamp);
      SameIdsFind(conversations, WithMessage(conversations, activeId, m), activeId);
      conversations := WithMessage(conversations, activeId, m);
      filesRef := Active().files;
    }

    /** The first half of `runTurn`, up to the call to the model. */
    method StartTurn() returns (request: Option<Request>)
      requires Valid()
      modifies this
      ensures Valid()
      ensures conversations == old(conversations) && filesRef == old(filesRef)
      ensures old(isProcessing) ==> request == None && isProcessing && isAutoLoop == old(isAutoLoop)
      ensures !old(isProcessing) && ActiveAgents(agents) == [] ==>
        request == None && !isAutoLoop && !isProcessing
      ensures !old(isProcessing) && ActiveAgents(agents) != [] ==>
        request == Some(TurnRequest(ActiveAgents(agents), Active(), filesRef)) &&
        isProcessing && isAutoLoop == old(isAutoLoop)
    {
      if isProcessing {
        return None;
      }
      var activeAgents := ActiveAgents(agents);
      if |activeAgents| == 0 {
        isAutoLoop := false;
        return None;
      }
      isProcessing := true;
      return Some(TurnRequest(activeAgents, Active(), filesRef));
    }

    /** The second half of `runTurn`: the reply is recorded, or the
        failure message is and the loop stops; either way processing
        ends. */
    method FinishTurn(request: Request, outcome: Outcome, id: string, timestamp: int)
      requires Valid()
      modifies this
      ensures Valid()
      ensures var m := Recorded(request, outcome, id, timestamp);
        conversations == AfterAdd(old(conversations), activeId, m.text, m)
      ensures filesRef == Active().files
      ensures !isProcessing
      ensures isAutoLoop == (old(isAutoLoop) && outcome.Success?)
    {
      var m := Recorded(request, outcome, id, timestamp);
      AddMessage(m.text, m.sender, m.authorName, id, timestamp);
      if outcome.Failure? {
        isAutoLoop := false;
      }
      isProcessing := false;
    }

    /** The form's submit handler: a message that is not blank is added
        as the user's and starts the loop. */
    method Send(input: string, id: string, timestamp: int)
      requires Valid()
      modifies this
      ensures Valid()
      ensures Trim(input) == [] ==>
        conversations == old(conversations) && isAutoLoop == old(isAutoLoop) && filesRef == old(filesRef)
      ensures Trim(input) != [] ==>
        conversations == AfterAdd(old(conversations), activeId, input, Message(id, User, None, input, timestamp)) &&
        isAutoLoop && filesRef == Active().files
      ensures isProcessing == old(isProcessing)
    {
      if Trim(input) != [] {
        AddMessage(input, User, None, id, timestamp);
        isAutoLoop := true;
      }
    }

    /** The start/stop button. */
    method ToggleAutoLoop()
      modifies this
      ensures isAutoLoop == !old(isAutoLoop)
      ensures conversations == old(conversations) && isProcessing == old(isProcessing) && filesRef == old(filesRef)
    {
      isAutoLoop := !isAutoLoop;
    }

    /** `onFileUpload`, with the uploaded names and contents as input
        (`None` when the input has no file list).  The contents are
        written one after the other onto a copy of the active files, and
        the result is merged back.  The messages do not change, so
        `filesRef` keeps the files of before the upload. */
    method OnFileUpload(uploads: Option<seq<Entry>>)
      requires Valid()
      modifies this
      ensures Valid()
      ensures uploads.None? ==> conversations == old(conversations)
      ensures uploads.Some? ==>
        conversations == WithFiles(old(conversations), activeId, AssignAll(old(Active()).files, uploads.value))
      ensures isAutoLoop == old(isAutoLoop) && isProcessing == old(isProcessing) && filesRef == old(filesRef)
    {
      if uploads.None? {
        return;
      }
      var newFiles := WriteUploads(Active().files, uploads.value);
      UpdateFiles(newFiles);
    }
  }

  /** The loop of `onFileUpload`: `newFiles[f.name] = content` for each
      upload in order, on a copy `{ ...base }` of the active files. */
  method WriteUploads(base: ProjectFiles, es: seq<Entry>) returns (newFiles: ProjectFiles)
    ensures newFiles == AssignAll(base, es)
  {
    MergeEmpty(base);
    newFiles := Merge(Empty, base);
    ghost var goal := AssignAll(base, es);
    var i := 0;
    while i < |es|
      invariant 0 <= i <= |es|
      invariant AssignAll(newFiles, es[i..]) == goal
    {
      assert es[i..][1..] == es[i + 1..];
      newFiles := Set(newFiles, es[i].0, es[i].1);
      i := i + 1;
    }
  }

  /** After an upload a file holds the content of the last upload with its
      name, and keeps its content when none has it. */
  lemma UploadGet(base: ProjectFiles, uploads: seq<Entry>, k: string)
    ensures Get(Merge(base, AssignAll(base, uploads)), k) == match LastAssigned(uploads, k)
      case Some(v) => Some(v)
      case None => Get(base, k)
  {
    var b := AssignAll(base, uploads);
    MergeGet(base, b, k);
    AssignAllGet(base, uploads, k);
    AssignAllKeys(base, uploads);
    assert forall j :: 0 <= j < |base| ==> Keys(b)[j] == base[j].0;
  }
}
