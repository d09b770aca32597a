# Fitness coach, modelled in Dafny

The system is a French-speaking fitness coach. A chat screen sends the user's
question through a small conversation graph. One node retrieves passages from a
vector collection and asks a language model to answer with them. The other node
writes a final answer from the tool results. The answer streams back to the
screen with at most three video recommendations. Three scrapers build the
passage dataset from fitness web sites.

This project models the string and list processing between the external
services, and proves what it does:

- `ParserManager` (parser_manager.dfy): `get_between`. It is a loop that scans
  for start/end markers, then a loop that removes filtered matches in place. Both
  are proved against `Between`, a specification built on the spans the scan
  finds.
- `Rag` (rag.dfy):
  - the seeding of the collection at start-up;
  - the shaping of the ranked hits of `retrieve` into a context text and a map of
    at most three `vid_i` recommendations with YouTube thumbnails.
- `Agent` (agent.dfy):
  - the `query_or_respond` node and the `generate` node;
  - the edges of the graph.
  The language model and the vector search are function parameters. Every call a
  node makes to them is returned as a trace.
- `UiComponents` (ui_components.dfy):
  - the session state as a class;
  - the fold of `stream_response` over the events of a graph run;
  - the selection of the recommendation cards.
- `ScrapperMusculaction`, `ScrapperSportPassion` and `ScrapperCoachHunter`
  (scrapper_*.dfy): the page parsers of the three scrapers. The fetched page text
  is a parameter. `Scraping` (scraping.dfy) holds the article record and the
  in-place URL rewriting loop they share.
- Support modules:
  - `Strings` (strings.dfy): the Python `str` operations used, namely `find`,
    `in`, `join`, `split`, `strip` and `f"{int}"`.
  - `OrderedDict` (ordered_dict.dfy): a Python `dict` with insertion order,
    item assignment and `update`.
  - `Wrappers` (wrappers.dfy): `Option`.

Facts about the code:

- Seeded ids are `fitness_<index>` (`Rag.SeedRecords`).
- `query_or_respond` puts its recommendations on the model's answer
  (`Agent.QueryOrRespond`).

## Model

| member | source | states |
|---|---|---|
| Strings.Find | src/commons/parser_manager.py:14 | `find` returns -1 or a position at or after the start where the pattern fits in the text |
| Strings.FindSpec | src/commons/parser_manager.py:14-18 | `find` returns the first occurrence at or after the start, and -1 exactly when there is none |
| Strings.FindFromZero | src/commons/parser_manager.py:14-16 | a search from position 0 succeeds exactly when `start in text` |
| Strings.MatchesAtOccurs | src/commons/parser_manager.py:14 | comparing one character at a time agrees with comparing the slice |
| Strings.OccursInSlice | src/commons/parser_manager.py:21 | an occurrence inside `text[i:j]` is an occurrence in `text` that ends by `j` |
| Strings.JoinSnoc | src/app/rag.py:91 | joining one more part appends the separator and that part |
| Strings.JoinContainsPart | src/app/rag.py:91 | every part occurs in the joined string |
| Strings.EmbeddedAt | src/app/agent.py:28-35 | a string placed between two others can be read back right after the first |
| Strings.Split | src/app/rag.py:88 | `split` always yields at least one piece |
| Strings.SplitJoin | src/app/rag.py:88 | joining the pieces of `split(sep)` with `sep` gives the string back |
| Strings.SplitPiecesFree | src/app/rag.py:88 | no piece of `split(sep)` contains `sep` |
| Strings.LastPieceSpec | src/app/rag.py:88 | `split('v=')[-1]` is the whole URL without `v=`, otherwise the suffix after the last `v=`, and never contains `v=` |
| Strings.TrimEnd | tools/scrapper/scrapper_musculaction.py:25 | `rstrip` is a prefix, removes only whitespace, and leaves no trailing whitespace |
| Strings.TrimStart | tools/scrapper/scrapper_musculaction.py:25 | `lstrip` is a suffix, removes only whitespace, and leaves no leading whitespace |
| Strings.StripEnds | tools/scrapper/scrapper_musculaction.py:25 | `strip()` neither starts nor ends with whitespace |
| Strings.StripSlice | tools/scrapper/scrapper_musculaction.py:25 | `strip()` is a slice of the string with only whitespace outside it |
| Strings.NatToString | src/app/rag.py:41 | the rendering of an index is a non-empty string of decimal digits |
| Strings.ParseNatToString | src/app/rag.py:41 | reading back the decimal rendering gives the number |
| Strings.NatToStringInjective | src/app/rag.py:41 | distinct indices render differently |
| Strings.NumberedKeysDistinct | src/app/rag.py:85 | keys `prefix + f"{i}"` differ for distinct `i` |
| OrderedDict.Keys | src/app/ui_components.py:37 | the keys of the dict, in insertion order, one per entry |
| OrderedDict.Get | src/app/agent.py:59-65 | the lookup by which the merged maps are specified: `None` exactly when `k` is absent, and otherwise a value stored under `k` |
| OrderedDict.GetEntry | src/app/ui_components.py:37 | in a dict with unique keys, the entry at a position of `items()` is what a lookup of its key finds |
| OrderedDict.SetKeys | src/app/rag.py:85 | `d[k] = v` keeps a present key in place, appends a new one, and keeps keys unique |
| OrderedDict.SetNew | src/app/rag.py:85 | assigning a new key appends exactly one entry at the end |
| OrderedDict.SetGet | src/app/rag.py:85 | after `d[k] = v`, `k` maps to `v` and every other key is unchanged |
| OrderedDict.UpdateGet | src/app/agent.py:65 | after `d.update(e)`, the keys of `e` hold `e`'s values and all other keys keep `d`'s |
| OrderedDict.UpdateUnique | src/app/agent.py:65 | `update` keeps keys unique |
| OrderedDict.UpdateKeepsKeys | src/app/agent.py:65 | `update` keeps `d`'s keys first, in their order |
| OrderedDict.MergeAllLastWins | src/app/agent.py:59-65 | after merging a run of dicts, a key is present exactly when some dict has it, and then holds the value of the last dict that has it |
| ParserManager.ScanSpec | src/commons/parser_manager.py:14-21 | every span the scan finds is preceded by `start`, followed by `end`, and has no `end` inside |
| ParserManager.ScanNthMatches | src/commons/parser_manager.py:14-21 | the k-th span is a match found at or after the resume position |
| ParserManager.ScanOrdered | src/commons/parser_manager.py:14-22 | spans come in increasing order and do not overlap: an end marker and a start marker lie between neighbours |
| ParserManager.ScanPairOrdered | src/commons/parser_manager.py:17-22 | the next search resumes after the consumed end marker |
| ParserManager.ScanSuffix | src/commons/parser_manager.py:13-22 | what remains after k rounds is a scan resumed further on |
| ParserManager.ScanInText | src/commons/parser_manager.py:21 | every span lies inside the text |
| ParserManager.ScanAdvances | src/commons/parser_manager.py:17-22 | a round that finds both markers yields one span, then resumes after the end marker |
| ParserManager.FoundAdvance | src/commons/parser_manager.py:17-22 | a round that finds both markers appends `text[start_idx:end_idx]` |
| ParserManager.ScanStops | src/commons/parser_manager.py:14-20 | a missing start marker, or a start marker with no later end marker, ends the scan |
| ParserManager.Matches | src/commons/parser_manager.py:21 | the k-th result is `text[lo:hi]` of the k-th span |
| ParserManager.WithoutSpec | src/commons/parser_manager.py:24-26 | filtering keeps exactly the items that do not contain the filter |
| ParserManager.WithoutAppend | src/commons/parser_manager.py:24-26 | filtering keeps the original order |
| ParserManager.RemoveFirstAt | src/commons/parser_manager.py:26 | `list.remove(x)` drops the first occurrence of `x` |
| ParserManager.KeptSnoc | src/commons/parser_manager.py:24-26 | filtering one more item appends it unless it is dropped |
| ParserManager.RemovalKeeps | src/commons/parser_manager.py:24-26 | a round of the removal loop that keeps its item leaves the list unchanged |
| ParserManager.RemovalDrops | src/commons/parser_manager.py:24-26 | a round that drops its item removes exactly that occurrence, because no earlier kept item equals it |
| ParserManager.DroppedNotKept | src/commons/parser_manager.py:24-26 | a dropped item is never among the kept ones |
| ParserManager.ScanStateAdvance | src/commons/parser_manager.py:17-22 | a round that finds a match keeps the scan-loop invariant |
| ParserManager.ScanStateStop | src/commons/parser_manager.py:15-20 | a round that misses a marker leaves every match already found |
| ParserManager.GetBetween | src/commons/parser_manager.py:7-28 | `get_between` terminates when a marker is non-empty and returns exactly the scan's matches minus those containing a truthy filter, in order |
| ParserManager.RemoveFiltered | src/commons/parser_manager.py:24-26 | removing in place while iterating over a copy leaves exactly the filtered list |
| ParserManager.MatchesAvoidEnd | src/commons/parser_manager.py:18-21 | no match contains a non-empty end marker |
| ParserManager.NoStartNoMatches | src/commons/parser_manager.py:14-16 | without the start marker in the text the result is empty |
| Rag.SeedRecords | src/app/rag.py:30-41 | one document, metadata entry and `fitness_i` id per record, in order, with defaults `""`, `""`, `""`, `"general"` |
| Rag.SeededIdsDistinct | src/app/rag.py:41 | seeded ids are pairwise distinct |
| Rag.Bootstrap | src/app/rag.py:14-25 | seeding happens exactly when the collection had to be created and the dataset file exists; an existing collection is kept as is |
| Rag.ThumbnailSpec | src/app/rag.py:88 | a YouTube URL gives the image named by the text after its last `v=`, or by the whole URL without `v=`; other URLs give `""` |
| Rag.ContextParts | src/app/rag.py:80-81 | one part `**title**\n` + document per zipped hit, in hit order |
| Rag.RecsKeys | src/app/rag.py:84-85 | the only keys are `vid_i` for a hit `i` with `i < 3` |
| Rag.NextKeyIsNew | src/app/rag.py:84-85 | the key of the next hit is not yet in the map |
| Rag.RecsInHitOrder | src/app/rag.py:84-85 | a hit that adds a recommendation adds it after those of earlier hits |
| Rag.RecsGet | src/app/rag.py:80-88 | `vid_i` is present exactly when `i < 3`, hit `i` exists and has a video; it then holds that hit's title, video URL and thumbnail |
| Rag.RecsAtMostThree | src/app/rag.py:84-85 | at most three recommendations, and no more than the hits, under unique keys |
| Rag.RecsStopAtThree | src/app/rag.py:84 | hits after the third add nothing |
| Rag.Retrieve | src/app/rag.py:73-93 | the context is the hit parts joined by the separator; the map is the recommendations of the hits |
| Rag.NoHits | src/app/rag.py:77-93 | zero hits make the zipped count 0, and at that count the context is empty and the map is empty, so `Retrieve` returns `("", {})` |
| Rag.ContextHasParts | src/app/rag.py:80-91 | the context contains the part of every hit |
| Agent.LastHumanIndex | src/app/agent.py:16-19 | the index found is inside the conversation |
| Agent.LastHumanSpec | src/app/agent.py:16-19 | the backward scan finds a human message with none after it, and finds nothing exactly when there is none |
| Agent.QueryPromptEmbeds | src/app/agent.py:28-35 | the prompt embeds the context right after the instructions and ends with the question |
| Agent.QueryOrRespond | src/app/agent.py:13-43 | with no human message: no update and no call; otherwise one retrieval on the last question, one model call with the prompt embedding the shaped context, and one answer whose artifact is `Rag.Recs` of the hits |
| Agent.TrailingToolsSpec | src/app/agent.py:51-57 | the tool messages are a suffix made only of tool messages, and it cannot be extended |
| Agent.Reversed | src/app/agent.py:57 | `s[::-1]` reads the sequence backwards |
| Agent.ReversedTwice | src/app/agent.py:52-57 | collecting backwards and reversing restores the original order |
| Agent.ContentsAppend | src/app/agent.py:62-63 | concatenating contents agrees with splitting the messages |
| Agent.Artifacts | src/app/agent.py:64 | there is at most one truthy tool artifact per message |
| Agent.TrailingStep | src/app/agent.py:52-54 | one more tool message read backwards extends the run |
| Agent.TrailingStop | src/app/agent.py:55-56 | the backward scan stops at the start or at a non-tool message |
| Agent.ToolStep | src/app/agent.py:62-65 | one more tool message adds its content, and its artifact when truthy |
| Agent.CollectToolContext | src/app/agent.py:51-65 | the trailing tool run in order, its concatenated contents, and the last-wins merge of its truthy artifacts |
| Agent.SystemPromptEmbeds | src/app/agent.py:67-98 | the system prompt embeds the documents right after the fixed instructions |
| Agent.ConversationMembers | src/app/agent.py:100-105 | the history keeps exactly the human, system and tool-free AI messages |
| Agent.ConversationAppend | src/app/agent.py:100-105 | the history filter keeps the conversation order |
| Agent.Generate | src/app/agent.py:49-110 | one model call with a system message embedding the tool contents followed by the filtered history; one answer |
| Agent.Path | src/app/agent.py:119 | a run starts at its node |
| Agent.PathReachesEnd | src/app/agent.py:119-126 | every run reaches the end and stops there |
| Agent.GraphRuns | src/app/agent.py:114-128 | from the entry, a run is either respond then end, or respond, tools, generate, end |
| UiComponents.InitSpec | src/app/ui_components.py:9-14 | a present key keeps its value, an absent one gets `[]` or `None`, and a second init changes nothing |
| UiComponents.Session.InitSessionState | src/app/ui_components.py:9-14 | the session becomes its initialised state |
| UiComponents.Session.AddMessage | src/app/ui_components.py:17-24 | exactly one record is appended at the end; earlier records and the question are unchanged |
| UiComponents.StreamSplit | src/app/ui_components.py:54-63 | text and artifacts of a stream cut in two are those of the parts, in order |
| UiComponents.StreamSingle | src/app/ui_components.py:58-63 | text events never touch the map, tool events never touch the text, and human messages touch neither |
| UiComponents.CardOf | src/app/ui_components.py:39-42 | a card shows an image exactly when the thumbnail is truthy |
| UiComponents.ShowRecommendations | src/app/ui_components.py:69-77 | `min(3, n)` columns holding the cards of the first three entries, in map order |
| UiComponents.StreamResponse | src/app/ui_components.py:45-81 | returns the unstripped text of the non-human, non-tool events and the merged tool artifacts; shows the stripped text, and cards only for a non-empty map |
| UiComponents.StreamMapLastWins | src/app/ui_components.py:62-63 | the streamed map holds a key exactly when some tool result had it, with the last one's value |
| UiComponents.ArtifactsUnique | src/app/ui_components.py:62-63 | artifacts taken from the stream keep unique keys |
| UiComponents.DisplayEntry | src/app/ui_components.py:29-42 | a record shows its role and content, and a card block only for truthy recommendations |
| UiComponents.DisplayChatHistory | src/app/ui_components.py:27-42 | one block per record, in history order |
| UiComponents.ShownCards | src/app/ui_components.py:33-40 | at most three cards, three whenever the map has three entries, and an image exactly for a thumbnail |
| Scraping.Wrapped | tools/scrapper/scrapper_musculaction.py:15-16 | one wrapped URL per match, in order |
| Scraping.WrappedRecover | tools/scrapper/scrapper_sport_passion.py:14-15 | each match can be read back from its URL |
| Scraping.WrapInPlace | tools/scrapper/scrapper_sport_passion.py:14-15 | the in-place loop `xs[i] = before + xs[i] + after` yields the wrapped list |
| ScrapperMusculaction.ScrapLink | tools/scrapper/scrapper_musculaction.py:9-17 | the link matches, each prefixed with the site address |
| ScrapperMusculaction.ScrapLinkSpec | tools/scrapper/scrapper_musculaction.py:12-17 | same count and order; each URL is the site address plus its match |
| ScrapperMusculaction.StripAll | tools/scrapper/scrapper_musculaction.py:27 | every paragraph stripped, in order |
| ScrapperMusculaction.ScrapArticle | tools/scrapper/scrapper_musculaction.py:20-34 | fails exactly when there is no title match; the title is the stripped first one |
| ScrapperMusculaction.TitleFallback | tools/scrapper/scrapper_musculaction.py:22-25 | `<title>` is used only without an `h1grand` heading; with neither it fails |
| ScrapperMusculaction.ScrapArticleText | tools/scrapper/scrapper_musculaction.py:25-27 | the title has no surrounding whitespace; every stripped paragraph occurs in the content |
| ScrapperMusculaction.ScrapArticlePicture | tools/scrapper/scrapper_musculaction.py:28-34 | exactly one picture URL; non-empty exactly when there are two image matches, and then built from the second |
| ScrapperSportPassion.ScrapLink | tools/scrapper/scrapper_sport_passion.py:9-16 | each match `m` becomes `.../conseils/` + `m` + `.php`, in order |
| ScrapperSportPassion.MapStrings | tools/scrapper/scrapper_sport_passion.py:23-24 | `strip_tags` applied to every paragraph, in order |
| ScrapperSportPassion.StripTagsInPlace | tools/scrapper/scrapper_sport_passion.py:23-24 | the in-place loop yields the mapped list |
| ScrapperSportPassion.ScrapArticle | tools/scrapper/scrapper_sport_passion.py:19-32 | fails exactly without a title; otherwise the first title unstripped, the stripped paragraphs joined by newlines, and the filtered picture matches prefixed |
| ScrapperSportPassion.PicturesSpec | tools/scrapper/scrapper_sport_passion.py:26-28 | the pictures are exactly the matches without `/` |
| ScrapperSportPassion.ContentHasParagraphs | tools/scrapper/scrapper_sport_passion.py:22-25 | every paragraph after `strip_tags` occurs in the content |
| ScrapperCoachHunter.BlockArticle | tools/scrapper/scrapper_coach_hunter.py:15-32 | a block yields a record exactly when its title, content or first image is non-empty; a record has one picture entry |
| ScrapperCoachHunter.ScrapBlock | tools/scrapper/scrapper_coach_hunter.py:15-32 | the loop body computes the record of its block |
| ScrapperCoachHunter.ScrapArticle | tools/scrapper/scrapper_coach_hunter.py:10-34 | the records of the `exo2` blocks of the page, in block order, skipping empty ones |
| ScrapperCoachHunter.ArticlesStep | tools/scrapper/scrapper_coach_hunter.py:29-32 | one more block appends its record, if it has one |
| ScrapperCoachHunter.ArticlesSpec | tools/scrapper/scrapper_coach_hunter.py:13-32 | at most one record per block; each record is the record of some block, with one picture entry |
| ScrapperCoachHunter.ArticlesAppend | tools/scrapper/scrapper_coach_hunter.py:14-32 | records of later blocks come after those of earlier blocks |
| ScrapperCoachHunter.EmptyPage | tools/scrapper/scrapper_coach_hunter.py:12-13 | an absent or empty page yields no record |

## Left out

- Exceptions are not modelled. In the source, the vector search, the model
  call, the dataset load and a non-dict record can raise, and nothing catches
  them. Here those inputs cannot fail.
- Embeddings, the Chroma collection, the vector search and the dataset file are
  not modelled. The ranked hits and the parsed dataset are inputs.
- The collection's `hnsw: space` metadata is not modelled.
- JSON values of other types (null, numbers) in seed records are not modelled.
  A field is either a string or missing.
- The vector search inside `retrieve` is a function parameter of
  `Agent.QueryOrRespond`; the shaping of its hits is `Rag.Retrieve`.
- `llm.invoke`, the `ToolNode` and `tools_condition` are not interpreted. The
  model is a function parameter, and `tools_condition` is a boolean verdict in
  `Agent.Next`.
- Agent.Path: takes a fuel bound. Runs are proved to end within three steps, so
  the bound only caps the number of steps.
- The end-to-end delivery of recommendations is not stated.
  `query_or_respond` puts its map on the model's answer, while the stream merges
  only tool-result maps.
- Streamlit rendering, the spinner, the placeholder's `▌` cursor, columns as
  widgets, `render_header` and the CSS are not modelled. The screen is modelled
  as the values handed to the renderer.
- The asynchronous stream is a finite sequence of events. The clock and the
  response time (a float) are not modelled. `ChatEntry` stores the response time
  as given.
- The `if idx >= 3: break` in `stream_response` is not modelled. It can never
  trigger after the `[:3]` slice.
- The merged map of `generate` (`all_transcripts`) is not modelled as part of
  its result. The source computes it and never uses it;
  `Agent.CollectToolContext` still computes it.
- `ParserManager.strip_tags` is not interpreted. It is not defined in
  src/commons/parser_manager.py, so it is a function parameter.
- HTTP fetching (`RequestManager.get`), the `run` methods and the JSON output
  of the scrapers are not modelled. They are I/O only.
- UiComponents.Session.AddMessage: requires an initialised history. The source
  raises on an uninitialised session, and that error path is not modelled.
- ParserManager.GetBetween: requires one marker to be non-empty. With both
  empty, the source loops forever.
- The index errors of the musculaction and sport-passion `scrap_article` are
  modelled as `None`.
- Several members are helpers split out of one source function, for proof
  size: `ParserManager.RemoveFiltered`, `Agent.CollectToolContext`,
  `ScrapperCoachHunter.ScrapBlock`, `ScrapperSportPassion.StripTagsInPlace` and
  `Scraping.WrapInPlace`. Each is the loop or loop body of the function that
  calls it.
- Python lists updated in place are modelled as sequence values reassigned by
  the methods. No list is shared between callers in the source, so aliasing is
  not captured.
