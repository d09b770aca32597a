/**
 * The conversation graph of the coach (src/app/agent.py): the node that
 * answers the last question with retrieved context, the node that writes
 * the final answer from a run of tool results, and the wiring between them.
 * The language model and the vector search are function parameters; every call
 * a node makes to them is recorded in a trace, so that "no call" can be
 * stated.
 */
module Agent {
  import opened Wrappers
  import opened Strings
  import opened OrderedDict
  import opened Rag

  /** A tool call requested by the model; only its presence matters here. */
  datatype ToolCall = ToolCall(name: string, query: string)

  /**
   * A message of the conversation state, by its `type`: `human`, `system`,
   * `ai` (with the tool calls it requests and an optional artifact) and
   * `tool` (a tool result with an optional artifact).
   */
  datatype Message =
    | Human(content: string)
    | System(content: string)
    | Ai(content: string, toolCalls: seq<ToolCall>, artifact: Option<Dict<Recommendation>>)
    | Tool(content: string, artifact: Option<Dict<Recommendation>>)

  /** What `llm.invoke` answers: a text and the tool calls it requests. */
  datatype Reply = Reply(content: string, toolCalls: seq<ToolCall>)

  /** A call a node makes to the outside world, in the order it makes them. */
  datatype Call = RetrieveCall(query: string) | LlmCall(prompt: seq<Message>)

  /** The model's reply as a message, carrying `artifact`. */
  function Answer(reply: Reply, artifact: Option<Dict<Recommendation>>): Message {
    Ai(reply.content, reply.toolCalls, artifact)
  }

  /*
   * ---------------------------------------------------------------------
   * query_or_respond
   * ---------------------------------------------------------------------
   */

  /** The position of the last human message, if there is one. */
  function LastHumanIndex(ms: seq<Message>): (r: Option<nat>)
    ensures r.Some? ==> r.value < |ms|
  {
    if ms == [] then None
    else if ms[|ms| - 1].Human? then Some(|ms| - 1)
    else LastHumanIndex(ms[..|ms| - 1])
  }

  /**
   * `LastHumanIndex` finds a human message with no human message after it,
   * and finds nothing exactly when there is no human message at all.
   */
  lemma {:induction false} LastHumanSpec(ms: seq<Message>)
    ensures var r := LastHumanIndex(ms);
      && (r.Some? ==> r.value < |ms| && ms[r.value].Human? && forall j | r.value < j < |ms| :: !ms[j].Human?)
      && (r.None? ==> forall j | 0 <= j < |ms| :: !ms[j].Human?)
  {
    if ms != [] && !ms[|ms| - 1].Human? {
      var front := ms[..|ms| - 1];
      LastHumanSpec(front);
      assert forall j | 0 <= j < |front| :: front[j] == ms[j];
    }
  }

  const QueryHead: string :=
    "\n"
    + "    Tu es un coach sportif professionnel francophone spécialisé dans l'accompagnement des débutants. \n"
    + "    Réponds à la question de l'utilisateur en te basant sur le contexte suivant : \n"
    + "\n"
    + "   "
  const QueryMiddle: string := "\n\n    Question :  "
  const QueryTail: string := "\n    "

  /** The prompt `query_or_respond` sends: the instructions, the context, then the question. */
  function QueryPrompt(context: string, question: string): string {
    QueryHead + context + QueryMiddle + question + QueryTail
  }

  /**
   * The prompt embeds the context right after the fixed instructions and
   * ends with the question, so both can be read back from it.
   */
  lemma QueryPromptEmbeds(context: string, question: string)
    ensures var p := QueryPrompt(context, question);
      && |QueryHead| + |context| + |QueryMiddle| + |question| + |QueryTail| == |p|
      && p[|QueryHead|..|QueryHead| + |context|] == context
      && p[|p| - |QueryTail| - |question|..|p| - |QueryTail|] == question
      && Contains(p, context) && Contains(p, question)
  {
    var p := QueryPrompt(context, question);
    var rest := QueryMiddle + question + QueryTail;
    AppendAssoc(QueryHead + context, QueryMiddle + question, QueryTail);
    AppendAssoc(QueryHead + context, QueryMiddle, question);
    AppendAssoc(QueryHead, context, rest);
    EmbeddedAt(QueryHead, context, rest);
    var pre := QueryHead + context + QueryMiddle;
    EmbeddedAt(pre, question, QueryTail);
  }

  /**
   * The `query_or_respond` node. Without a human message it returns no
   * message and calls nothing. Otherwise it retrieves with the content of
   * the last human message, asks the model once with a single human
   * message holding the prompt, and returns exactly that reply, carrying
   * the recommendations of the retrieval as its artifact. `search` is the
   * vector search inside `retrieve`: it gives the ranked documents and
   * their metadata, which `Rag.Retrieve` shapes.
   */
  method QueryOrRespond(messages: seq<Message>, search: string -> (seq<string>, seq<Meta>), llm: seq<Message> -> Reply)
    returns (update: seq<Message>, calls: seq<Call>)
    ensures LastHumanIndex(messages).None? ==> update == [] && calls == []
    ensures LastHumanIndex(messages).Some? ==>
      var question := messages[LastHumanIndex(messages).value].content;
      var docs := search(question).0;
      var metas := search(question).1;
      var n := if |docs| <= |metas| then |docs| else |metas|;
      var prompt := [Human(QueryPrompt(Join(ContextParts(docs, metas, n), Separator), question))];
      && calls == [RetrieveCall(question), LlmCall(prompt)]
      && update == [Answer(llm(prompt), Some(Recs(metas, n)))]
  {
    var lastHuman: Option<Message> := None;
    var i := |messages|;
    assert messages[..i] == messages;
    while i > 0
      invariant 0 <= i <= |messages|
      invariant lastHuman.None? && LastHumanIndex(messages) == LastHumanIndex(messages[..i])
      decreases i
    {
      var msg := messages[i - 1];
      assert messages[..i][..i - 1] == messages[..i - 1];
      if msg.Human? {
        assert LastHumanIndex(messages) == Some(i - 1);
        lastHuman := Some(msg);
        i := i - 1;
        break;
      }
      i := i - 1;
    }
    if lastHuman.None? {
      assert LastHumanIndex(messages) == LastHumanIndex([]);
      update, calls := [], [];
      return;
    }
    var question := lastHuman.value.content;
    var (docs, metas) := search(question);
    var context, videoRecommendations := Retrieve(docs, metas);
    var prompt := QueryPrompt(context, question);
    var response := llm([Human(prompt)]);
    update := [Answer(response, Some(videoRecommendations))];
    calls := [RetrieveCall(question), LlmCall([Human(prompt)])];
  }

  /*
   * ---------------------------------------------------------------------
   * generate
   * ---------------------------------------------------------------------
   */

  /** The maximal run of tool messages at the end of the conversation, in order. */
  function TrailingTools(ms: seq<Message>): seq<Message> {
    if ms == [] || !ms[|ms| - 1].Tool? then []
    else TrailingTools(ms[..|ms| - 1]) + [ms[|ms| - 1]]
  }

  /**
   * The trailing run is a suffix of the conversation made only of tool
   * messages, and it cannot be extended: the message before it, if any, is
   * not a tool message.
   */
  lemma {:induction false} TrailingToolsSpec(ms: seq<Message>)
    ensures var t := TrailingTools(ms);
      && |t| <= |ms| && t == ms[|ms| - |t|..]
      && (forall k | 0 <= k < |t| :: t[k].Tool?)
      && (|t| < |ms| ==> !ms[|ms| - |t| - 1].Tool?)
  {
    if ms != [] && ms[|ms| - 1].Tool? {
      var front := ms[..|ms| - 1];
      var m := ms[|ms| - 1];
      TrailingToolsSpec(front);
      var t := TrailingTools(front);
      assert TrailingTools(ms) == t + [m];
      assert ms[|ms| - |t| - 1..] == front[|front| - |t|..] + [m];
      forall k | 0 <= k < |t| + 1
        ensures (t + [m])[k].Tool?
      {
        if k < |t| {
          assert (t + [m])[k] == t[k];
        }
      }
      if |t| + 1 < |ms| {
        assert ms[|ms| - |t| - 2] == front[|front| - |t| - 1];
      }
    } else {
      assert TrailingTools(ms) == [];
    }
  }

  /** `s` read backwards (Python's `s[::-1]`). */
  function Reversed<T>(s: seq<T>): (r: seq<T>)
    ensures |r| == |s| && forall k | 0 <= k < |s| :: r[k] == s[|s| - 1 - k]
  {
    if s == [] then [] else Reversed(s[1..]) + [s[0]]
  }

  /** Reading backwards twice gives the sequence back. */
  lemma ReversedTwice<T>(s: seq<T>)
    ensures Reversed(Reversed(s)) == s
  {
  }

  /** The in-order concatenation of the contents of `ms`. */
  function Contents(ms: seq<Message>): string {
    if ms == [] then "" else Contents(ms[..|ms| - 1]) + ms[|ms| - 1].content
  }

  /** Concatenating contents is compatible with splitting the messages. */
  lemma {:induction false} ContentsAppend(a: seq<Message>, b: seq<Message>)
    ensures Contents(a + b) == Contents(a) + Contents(b)
    decreases |b|
  {
    if b != [] {
      var b' := b[..|b| - 1];
      assert (a + b)[..|a + b| - 1] == a + b';
      var last := b[|b| - 1].content;
      assert (a + b)[|a + b| - 1] == b[|b| - 1];
      assert Contents(a + b) == Contents(a + b') + last;
      ContentsAppend(a, b');
      AppendAssoc(Contents(a), Contents(b'), last);
      assert Contents(b) == Contents(b') + last;
    } else {
      assert a + b == a;
    }
  }

  /** A tool result whose artifact is truthy: present and not an empty dict. */
  predicate HasArtifact(m: Message) {
    m.Tool? && m.artifact.Some? && m.artifact.value != []
  }

  /** The truthy artifacts of the tool results among `ms`, in order. */
  function Artifacts(ms: seq<Message>): (r: seq<Dict<Recommendation>>)
    ensures |r| <= |ms|
  {
    if ms == [] then []
    else
      var m := ms[|ms| - 1];
      Artifacts(ms[..|ms| - 1]) + (if HasArtifact(m) then [m.artifact.value] else [])
  }

  /**
   * The first half of `generate`: the trailing run of tool messages, their
   * concatenated contents, and the left-to-right `update` of their truthy
   * artifacts (computed by the source and then left unused).
   */
  method CollectToolContext(messages: seq<Message>)
    returns (toolMessages: seq<Message>, docsContent: string, transcripts: Dict<Recommendation>)
    ensures toolMessages == TrailingTools(messages)
    ensures docsContent == Contents(toolMessages)
    ensures transcripts == MergeAll(Artifacts(toolMessages))
  {
    var recent: seq<Message> := [];
    var i := |messages|;
    assert messages[..i] == messages && messages[i..] == [];
    while i > 0
      invariant 0 <= i <= |messages|
      invariant recent == Reversed(messages[i..])
      invariant TrailingTools(messages) == TrailingTools(messages[..i]) + messages[i..]
      decreases i
    {
      var message := messages[i - 1];
      if !message.Tool? {
        break;
      }
      TrailingStep(messages, i);
      recent := recent + [message];
      i := i - 1;
    }
    TrailingStop(messages, i);
    ReversedTwice(messages[i..]);
    toolMessages := Reversed(recent);
    docsContent := "";
    transcripts := [];
    for k := 0 to |toolMessages|
      invariant docsContent == Contents(toolMessages[..k])
      invariant transcripts == MergeAll(Artifacts(toolMessages[..k]))
    {
      var doc := toolMessages[k];
      ToolStep(toolMessages, k);
      docsContent := docsContent + doc.content;
      if HasArtifact(doc) {
        transcripts := Update(transcripts, doc.artifact.value);
      }
    }
    assert toolMessages[..|toolMessages|] == toolMessages;
  }

  /** One more tool message, read backwards, extends the run. */
  lemma TrailingStep(messages: seq<Message>, i: nat)
    requires 0 < i <= |messages| && messages[i - 1].Tool?
    ensures TrailingTools(messages[..i]) + messages[i..] == TrailingTools(messages[..i - 1]) + messages[i - 1..]
    ensures Reversed(messages[i - 1..]) == Reversed(messages[i..]) + [messages[i - 1]]
  {
    var m := messages[i - 1];
    assert messages[..i][..i - 1] == messages[..i - 1];
    assert messages[i - 1..] == [m] + messages[i..];
    assert messages[i - 1..][1..] == messages[i..];
    AppendAssoc(TrailingTools(messages[..i - 1]), [m], messages[i..]);
  }

  /** The backward scan stops at the start or at a message that is not a tool result. */
  lemma TrailingStop(messages: seq<Message>, i: nat)
    requires i <= |messages| && (i == 0 || !messages[i - 1].Tool?)
    ensures TrailingTools(messages[..i]) == []
  {
  }

  /** One more tool message read forwards adds its content, and its artifact when truthy. */
  lemma ToolStep(ts: seq<Message>, k: nat)
    requires k < |ts|
    ensures Contents(ts[..k + 1]) == Contents(ts[..k]) + ts[k].content
    ensures MergeAll(Artifacts(ts[..k + 1]))
      == if HasArtifact(ts[k]) then Update(MergeAll(Artifacts(ts[..k])), ts[k].artifact.value) else MergeAll(Artifacts(ts[..k]))
  {
    assert ts[..k + 1][..k] == ts[..k];
    assert ts[..k + 1][k] == ts[k];
    var front := Artifacts(ts[..k]);
    if HasArtifact(ts[k]) {
      var all := front + [ts[k].artifact.value];
      assert Artifacts(ts[..k + 1]) == all;
      assert all[..|all| - 1] == front;
    } else {
      assert Artifacts(ts[..k + 1]) == front + [];
      assert front + [] == front;
    }
  }

  const SystemHead: string :=
    "\n"
    + "Tu es un coach sportif professionnel francophone spécialisé dans l'accompagnement des débutants. Tu fournis des conseils basés sur des preuves scientifiques concernant :  \n"
    + "- Les exercices adaptés aux différents objectifs (prise de muscle, perte de poids, souplesse)\n"
    + "- La nutrition, incluant la planification des repas et la supplémentation\n"
    + "- La prévention des blessures et la sécurité pendant l'entraînement\n"
    + "\n"
    + "PRINCIPES DE RÉPONSE :  \n"
    + "- Réponds TOUJOURS en français, de manière claire et accessible\n"
    + "- Utilise un ton encourageant et bienveillant\n"
    + "- Base tes réponses sur le contexte fourni\n"
    + "- Évite le jargon technique complexe\n"
    + "- Décompose les concepts en étapes simples\n"
    + "- Insiste sur la bonne forme et la technique\n"
    + "- Inclus des avertissements de sécurité pertinents\n"
    + "- Fournis des recommandations actionnables\n"
    + "\n"
    + "STRUCTURE DE RÉPONSE :\n"
    + "1. Réponds directement à la question\n"
    + "2. Appuie-toi sur des références spécifiques du contexte\n"
    + "3. Fournis des étapes pratiques d'implémentation\n"
    + "4. Inclus les considérations de sécurité\n"
    + "5. Termine avec des recommandations claires\n"
    + "\n"
    + "LIMITES :  \n"
    + "- Ne fournis que des conseils basés sur le contexte disponible\n"
    + "- Distingue clairement les principes généraux des recommandations spécifiques\n"
    + "- Si un conseil médical est nécessaire, redirige vers un professionnel de santé\n"
    + "- Reconnaîs quand une question dépasse le contexte fourni\n"
    + "\n"
    + "CONTEXTE DE LA BASE DE CONNAISSANCES :\n"
  const SystemTail: string := "\n    "

  /** The system prompt of `generate`: the fixed instructions, then the documents. */
  function SystemPrompt(docs: string): string {
    SystemHead + docs + SystemTail
  }

  /** The documents can be read back from the system prompt, right after the instructions. */
  lemma SystemPromptEmbeds(docs: string)
    ensures var p := SystemPrompt(docs);
      && |p| == |SystemHead| + |docs| + |SystemTail|
      && p[|SystemHead|..|SystemHead| + |docs|] == docs
      && Contains(p, docs)
  {
    EmbeddedAt(SystemHead, docs, SystemTail);
  }

  /** The messages `generate` shows the model: human and system ones, and answers that call no tool. */
  predicate Conversational(m: Message) {
    m.Human? || m.System? || (m.Ai? && m.toolCalls == [])
  }

  /** The conversation history without tool traffic, in order. */
  function Conversation(ms: seq<Message>): seq<Message> {
    if ms == [] then []
    else (if Conversational(ms[0]) then [ms[0]] else []) + Conversation(ms[1..])
  }

  /**
   * The history keeps exactly the conversational messages: each of its
   * messages is conversational and comes from the conversation, and each
   * conversational message of the conversation is in it.
   */
  lemma {:induction false} ConversationMembers(ms: seq<Message>)
    ensures |Conversation(ms)| <= |ms|
    ensures forall m | m in Conversation(ms) :: Conversational(m) && m in ms
    ensures forall m | m in ms && Conversational(m) :: m in Conversation(ms)
  {
    if ms != [] {
      ConversationMembers(ms[1..]);
      assert ms == [ms[0]] + ms[1..];
    }
  }

  /** The history of a conversation split in two is the two histories, in order. */
  lemma {:induction false} ConversationAppend(a: seq<Message>, b: seq<Message>)
    ensures Conversation(a + b) == Conversation(a) + Conversation(b)
  {
    if a != [] {
      assert (a + b)[0] == a[0];
      assert (a + b)[1..] == a[1..] + b;
      ConversationAppend(a[1..], b);
      var head := if Conversational(a[0]) then [a[0]] else [];
      assert Conversation(a + b) == head + Conversation(a[1..] + b);
      assert Conversation(a) == head + Conversation(a[1..]);
      AppendAssoc(head, Conversation(a[1..]), Conversation(b));
    } else {
      assert a + b == b;
    }
  }

  /**
   * The `generate` node: one call to the model with a system message
   * holding the instructions and the trailing tool contents, followed by
   * the history without tool traffic; it returns exactly that reply.
   */
  method Generate(messages: seq<Message>, llm: seq<Message> -> Reply)
    returns (update: seq<Message>, calls: seq<Call>)
    ensures var prompt := [System(SystemPrompt(Contents(TrailingTools(messages))))] + Conversation(messages);
      && calls == [LlmCall(prompt)]
      && update == [Answer(llm(prompt), None)]
  {
    var toolMessages, docsContent, allTranscripts := CollectToolContext(messages);
    var systemMessageContent := SystemPrompt(docsContent);
    var conversationMessages := Conversation(messages);
    var prompt := [System(systemMessageContent)] + conversationMessages;
    var response := llm(prompt);
    update := [Answer(response, None)];
    calls := [LlmCall(prompt)];
  }

  /*
   * ---------------------------------------------------------------------
   * The graph
   * ---------------------------------------------------------------------
   */

  datatype Node = QueryOrRespondNode | ToolsNode | GenerateNode | EndNode

  /** Where the graph starts. */
  const Entry: Node := QueryOrRespondNode

  /**
   * The edges: after `query_or_respond`, `tools_condition` chooses between
   * the tool node and the end (`wantsTools` is its verdict); the tool node
   * always leads to `generate`, and `generate` always to the end.
   */
  function Next(n: Node, wantsTools: bool): Node {
    match n
    case QueryOrRespondNode => if wantsTools then ToolsNode else EndNode
    case ToolsNode => GenerateNode
    case GenerateNode => EndNode
    case EndNode => EndNode
  }

  /** The nodes a run visits from `n`, taking at most `fuel` steps and stopping at the end. */
  function Path(n: Node, wantsTools: bool, fuel: nat): (r: seq<Node>)
    ensures r != [] && r[0] == n
    decreases fuel
  {
    if n == EndNode || fuel == 0 then [n] else [n] + Path(Next(n, wantsTools), wantsTools, fuel - 1)
  }

  /** How many steps separate `n` from the end. */
  function StepsToEnd(n: Node, wantsTools: bool): nat {
    match n
    case QueryOrRespondNode => if wantsTools then 3 else 1
    case ToolsNode => 2
    case GenerateNode => 1
    case EndNode => 0
  }

  /** Every run reaches the end after `StepsToEnd` steps and then stops, however much fuel it has. */
  lemma {:induction false} PathReachesEnd(n: Node, wantsTools: bool, fuel: nat)
    requires StepsToEnd(n, wantsTools) <= fuel
    ensures Path(n, wantsTools, fuel) == Path(n, wantsTools, StepsToEnd(n, wantsTools))
    ensures var p := Path(n, wantsTools, fuel); p[|p| - 1] == EndNode && |p| == StepsToEnd(n, wantsTools) + 1
    decreases StepsToEnd(n, wantsTools)
  {
    if n != EndNode {
      PathReachesEnd(Next(n, wantsTools), wantsTools, fuel - 1);
      PathReachesEnd(Next(n, wantsTools), wantsTools, StepsToEnd(n, wantsTools) - 1);
    }
  }

  /**
   * From the entry, a run either ends right after `query_or_respond` or
   * goes through the tool node and `generate` before it ends.
   */
  lemma GraphRuns(wantsTools: bool, fuel: nat)
    requires 3 <= fuel
    ensures Path(Entry, wantsTools, fuel)
      == if wantsTools then [QueryOrRespondNode, ToolsNode, GenerateNode, EndNode] else [QueryOrRespondNode, EndNode]
  {
    PathReachesEnd(Entry, wantsTools, fuel);
  }
}
