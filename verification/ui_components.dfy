/**
 * The chat screen of the coach (src/app/ui_components.py): the session
 * history, the fold over the streamed graph events that builds the answer
 * text and the recommendation map, and the choice of the recommendation
 * cards shown under a message. Rendering, timing and the asynchronous
 * stream itself are outside the model: the events are an input and the
 * screen is described by the values the code hands to the renderer.
 */
module UiComponents {
  import opened Wrappers
  import opened Strings
  import opened OrderedDict
  import opened Rag
  import opened Agent

  /** One record of the chat history; the response time is a number of seconds. */
  datatype ChatEntry = ChatEntry(role: string, content: string, recommendations: Option<Dict<Recommendation>>, responseTime: Option<real>)

  /**
   * The two keys of the session state the code uses; `None` means the key
   * is absent (a present `current_question` may itself hold `None`).
   */
  datatype SessionState = SessionState(chatHistory: Option<seq<ChatEntry>>, currentQuestion: Option<Option<string>>)

  /** What `init_session_state` makes of a session state. */
  function Init(s: SessionState): SessionState {
    SessionState(
      if s.chatHistory.None? then Some([]) else s.chatHistory,
      if s.currentQuestion.None? then Some(None) else s.currentQuestion)
  }

  /**
   * After initialisation both keys are present; a key that was present
   * keeps its value, an absent one gets an empty history or no question,
   * and initialising again changes nothing.
   */
  lemma InitSpec(s: SessionState)
    ensures Init(s).chatHistory == (if s.chatHistory.Some? then s.chatHistory else Some([]))
    ensures Init(s).currentQuestion == (if s.currentQuestion.Some? then s.currentQuestion else Some(None))
    ensures Init(Init(s)) == Init(s)
  {
  }

  /** The session state of one browser session. */
  class Session {
    var chatHistory: Option<seq<ChatEntry>>
    var currentQuestion: Option<Option<string>>

    /** The state as a value. */
    function State(): SessionState
      reads this
    {
      SessionState(chatHistory, currentQuestion)
    }

    /** A new session holds neither key. */
    constructor()
      ensures State() == SessionState(None, None)
    {
      chatHistory := None;
      currentQuestion := None;
    }

    /** `init_session_state`: sets each key only when it is absent. */
    method InitSessionState()
      modifies this
      ensures State() == Init(old(State()))
    {
      if chatHistory.None? {
        chatHistory := Some([]);
      }
      if currentQuestion.None? {
        currentQuestion := Some(None);
      }
    }

    /**
     * `add_message`: appends exactly one record at the end of the history
     * and changes nothing else. The history must exist (the source fails
     * on a session that was never initialised).
     */
    method AddMessage(role: string, content: string, recommendations: Option<Dict<Recommendation>>, responseTime: Option<real>)
      requires chatHistory.Some?
      modifies this
      ensures chatHistory == Some(old(chatHistory.value) + [ChatEntry(role, content, recommendations, responseTime)])
      ensures currentQuestion == old(currentQuestion)
    {
      chatHistory := Some(chatHistory.value + [ChatEntry(role, content, recommendations, responseTime)]);
    }
  }

  /*
   * ---------------------------------------------------------------------
   * The stream fold
   * ---------------------------------------------------------------------
   */

  /** An event whose content goes to the answer text: neither a human message nor a tool result. */
  predicate IsTextEvent(e: Message) {
    !e.Human? && !e.Tool?
  }

  /** The answer text: the contents of the text events, in order. */
  function StreamText(events: seq<Message>): string {
    if events == [] then ""
    else
      var e := events[|events| - 1];
      StreamText(events[..|events| - 1]) + (if IsTextEvent(e) then e.content else "")
  }

  /**
   * The text and the artifacts of a stream cut in two are those of the two
   * parts, in order.
   */
  lemma {:induction false} StreamSplit(a: seq<Message>, b: seq<Message>)
    ensures StreamText(a + b) == StreamText(a) + StreamText(b)
    ensures Artifacts(a + b) == Artifacts(a) + Artifacts(b)
    decreases |b|
  {
    if b == [] {
      assert a + b == a;
    } else {
      var b' := b[..|b| - 1];
      var e := b[|b| - 1];
      assert (a + b)[..|a + b| - 1] == a + b';
      assert (a + b)[|a + b| - 1] == e;
      StreamSplit(a, b');
      var t := if IsTextEvent(e) then e.content else "";
      var x := if HasArtifact(e) then [e.artifact.value] else [];
      AppendAssoc(StreamText(a), StreamText(b'), t);
      AppendAssoc(Artifacts(a), Artifacts(b'), x);
    }
  }

  /**
   * What one event contributes: a text event its content and nothing to
   * the map; a tool result nothing to the text and its artifact when that
   * is truthy; a human message nothing at all.
   */
  lemma StreamSingle(e: Message)
    ensures StreamText([e]) == if IsTextEvent(e) then e.content else ""
    ensures Artifacts([e]) == if HasArtifact(e) then [e.artifact.value] else []
    ensures e.Tool? ==> StreamText([e]) == ""
    ensures !e.Tool? ==> Artifacts([e]) == []
  {
    assert [e][..0] == [];
  }

  /** A recommendation card: the image (only for a truthy thumbnail), the bold title and the video link. */
  datatype Card = Card(image: Option<string>, caption: string, link: string)

  /** The card of one recommendation. */
  function CardOf(r: Recommendation): (c: Card)
    ensures c.image.Some? <==> r.thumbnailUrl != ""
    ensures c.image.Some? ==> c.image.value == r.thumbnailUrl
  {
    Card(
      if r.thumbnailUrl != "" then Some(r.thumbnailUrl) else None,
      "**" + r.title + "**",
      "[▶️ Voir la vidéo](" + r.videoUrl + ")")
  }

  /**
   * The recommendation block under a message: `min(3, n)` columns holding
   * the cards of the first three entries of the map, in map order.
   */
  predicate ShowsRecommendations(recs: Dict<Recommendation>, columns: nat, cards: seq<Card>) {
    && columns == (if |recs| < 3 then |recs| else 3)
    && |cards| == columns
    && forall i | 0 <= i < |cards| :: cards[i] == CardOf(recs[i].1)
  }

  /** The loop that lays out the recommendation block. */
  method ShowRecommendations(recs: Dict<Recommendation>) returns (columns: nat, cards: seq<Card>)
    ensures ShowsRecommendations(recs, columns, cards)
  {
    columns := if 3 < |recs| then 3 else |recs|;
    var items := recs[..columns];
    cards := [];
    for idx := 0 to |items|
      invariant |cards| == idx
      invariant forall i | 0 <= i < idx :: cards[i] == CardOf(recs[i].1)
    {
      var (videoId, data) := items[idx];
      cards := cards + [CardOf(data)];
    }
  }

  /**
   * `stream_response` over the events of one graph run: the answer text
   * (returned unstripped, shown stripped), the merged recommendation map,
   * and the cards shown when that map is not empty.
   */
  method StreamResponse(events: seq<Message>)
    returns (fullResponse: string, allTranscripts: Dict<Recommendation>, shownText: string, columns: nat, cards: seq<Card>)
    ensures fullResponse == StreamText(events)
    ensures allTranscripts == MergeAll(Artifacts(events))
    ensures shownText == Strip(fullResponse)
    ensures allTranscripts == [] ==> columns == 0 && cards == []
    ensures allTranscripts != [] ==> ShowsRecommendations(allTranscripts, columns, cards)
  {
    fullResponse := "";
    allTranscripts := [];
    for k := 0 to |events|
      invariant fullResponse == StreamText(events[..k])
      invariant allTranscripts == MergeAll(Artifacts(events[..k]))
    {
      var message := events[k];
      assert events[..k + 1][..k] == events[..k];
      assert events[..k + 1][k] == message;
      if !message.Human? && !message.Tool? {
        fullResponse := fullResponse + message.content;
      } else {
        assert StreamText(events[..k + 1]) == StreamText(events[..k]) + "";
      }
      if message.Tool? && message.artifact.Some? && message.artifact.value != [] {
        ghost var before := Artifacts(events[..k]);
        assert Artifacts(events[..k + 1]) == before + [message.artifact.value];
        assert (before + [message.artifact.value])[..|before|] == before;
        assert MergeAll(before + [message.artifact.value]) == Update(MergeAll(before), message.artifact.value);
        allTranscripts := Update(allTranscripts, message.artifact.value);
      } else {
        assert Artifacts(events[..k + 1]) == Artifacts(events[..k]) + [];
        assert Artifacts(events[..k]) + [] == Artifacts(events[..k]);
      }
    }
    assert events[..|events|] == events;
    shownText := Strip(fullResponse);
    columns, cards := 0, [];
    if allTranscripts != [] {
      columns, cards := ShowRecommendations(allTranscripts);
    }
  }

  /**
   * With unique keys in every artifact, the map the stream builds has
   * unique keys, holds a key exactly when some tool result had it, and then
   * holds the value of the last tool result that had it.
   */
  lemma StreamMapLastWins(events: seq<Message>, key: string)
    requires forall j | 0 <= j < |events| :: events[j].Tool? && events[j].artifact.Some? ==> UniqueKeys(events[j].artifact.value)
    ensures var ds := Artifacts(events);
      && UniqueKeys(MergeAll(ds))
      && (Get(MergeAll(ds), key).None? <==> forall j | 0 <= j < |ds| :: Get(ds[j], key).None?)
      && forall j | 0 <= j < |ds| ::
           Get(ds[j], key).Some? && (forall j' | j < j' < |ds| :: Get(ds[j'], key).None?) ==>
             Get(MergeAll(ds), key) == Get(ds[j], key)
  {
    ArtifactsUnique(events);
    MergeAllLastWins(Artifacts(events), key);
  }

  /** When every tool result carries a dict with unique keys, so does every artifact taken from the stream. */
  lemma {:induction false} ArtifactsUnique(events: seq<Message>)
    requires forall j | 0 <= j < |events| :: events[j].Tool? && events[j].artifact.Some? ==> UniqueKeys(events[j].artifact.value)
    ensures forall j | 0 <= j < |Artifacts(events)| :: UniqueKeys(Artifacts(events)[j])
  {
    if events != [] {
      var front := events[..|events| - 1];
      assert forall j | 0 <= j < |front| :: front[j] == events[j];
      ArtifactsUnique(front);
    }
  }

  /** What the history shows for one record. */
  datatype Block = Block(role: string, markdown: string, columns: nat, cards: seq<Card>)

  /**
   * A record is shown under its role with its content, and with the
   * recommendation block only when its recommendations are truthy.
   */
  predicate ShowsEntry(b: Block, entry: ChatEntry) {
    && b.role == entry.role && b.markdown == entry.content
    && if entry.recommendations.Some? && entry.recommendations.value != [] then
         ShowsRecommendations(entry.recommendations.value, b.columns, b.cards)
       else
         b.columns == 0 && b.cards == []
  }

  /** `display_chat_history` for one record. */
  method DisplayEntry(entry: ChatEntry) returns (b: Block)
    ensures ShowsEntry(b, entry)
  {
    var columns, cards := 0, [];
    if entry.recommendations.Some? && entry.recommendations.value != [] {
      columns, cards := ShowRecommendations(entry.recommendations.value);
    }
    b := Block(entry.role, entry.content, columns, cards);
  }

  /** `display_chat_history`: one block per record, in history order. */
  method DisplayChatHistory(history: seq<ChatEntry>) returns (blocks: seq<Block>)
    ensures |blocks| == |history|
    ensures forall i | 0 <= i < |history| :: ShowsEntry(blocks[i], history[i])
  {
    blocks := [];
    for k := 0 to |history|
      invariant |blocks| == k
      invariant forall i | 0 <= i < k :: ShowsEntry(blocks[i], history[i])
    {
      var b := DisplayEntry(history[k]);
      blocks := blocks + [b];
    }
  }

  /**
   * A recommendation block never shows more than three cards, shows three
   * whenever the map has three entries or more, and shows an image exactly
   * for the cards whose recommendation has a thumbnail.
   */
  lemma ShownCards(recs: Dict<Recommendation>, columns: nat, cards: seq<Card>)
    requires ShowsRecommendations(recs, columns, cards)
    ensures |cards| <= 3 && |cards| <= |recs|
    ensures 3 <= |recs| ==> |cards| == 3
    ensures forall i | 0 <= i < |cards| :: cards[i].image.Some? <==> recs[i].1.thumbnailUrl != ""
  {
  }
}
