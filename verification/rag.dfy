/**
 * The retrieval side of the fitness coach (src/app/rag.py): seeding the
 * vector collection from the dataset file at start-up, and shaping the
 * ranked hits of a query into a context text and a map of at most three
 * video recommendations. Embeddings, the vector search and the file system
 * are outside the model: the hits and the parsed dataset are inputs.
 */
module Rag {
  import opened Wrappers
  import opened Strings
  import opened OrderedDict

  /** One record of the dataset file; each field may be missing. */
  datatype Record = Record(content: Option<string>, title: Option<string>, video: Option<string>, category: Option<string>)

  /** The metadata stored with each document. */
  datatype Meta = Meta(title: string, video: string, category: string)

  /** What the collection holds: documents with their metadata and ids. */
  datatype Collection = Collection(documents: seq<string>, metadatas: seq<Meta>, ids: seq<string>)

  /** A video recommendation, stored under `vid_i`. */
  datatype Recommendation = Recommendation(title: string, videoUrl: string, thumbnailUrl: string)

  /** The id of the `i`-th seeded document: `f"fitness_{i}"`. */
  function SeedId(i: nat): string {
    "fitness_" + NatToString(i)
  }

  /**
   * `c` holds one document, one metadata entry and one id per record, in
   * record order, with the defaults `""` for a missing content, title or
   * video and `"general"` for a missing category.
   */
  predicate SeededFrom(c: Collection, data: seq<Record>) {
    && |c.documents| == |data| && |c.metadatas| == |data| && |c.ids| == |data|
    && forall i | 0 <= i < |data| ::
         && c.documents[i] == data[i].content.GetOr("")
         && c.metadatas[i] == Meta(data[i].title.GetOr(""), data[i].video.GetOr(""), data[i].category.GetOr("general"))
         && c.ids[i] == SeedId(i)
  }

  /** The loop that maps the dataset records to documents, metadata and ids. */
  method SeedRecords(data: seq<Record>) returns (c: Collection)
    ensures SeededFrom(c, data)
  {
    var documents: seq<string> := [];
    var metadatas: seq<Meta> := [];
    var ids: seq<string> := [];
    for idx := 0 to |data|
      invariant SeededFrom(Collection(documents, metadatas, ids), data[..idx])
    {
      var item := data[idx];
      documents := documents + [item.content.GetOr("")];
      metadatas := metadatas + [Meta(item.title.GetOr(""), item.video.GetOr(""), item.category.GetOr("general"))];
      ids := ids + ["fitness_" + NatToString(idx)];
    }
    assert data[..|data|] == data;
    c := Collection(documents, metadatas, ids);
  }

  /** The seeded ids are pairwise distinct. */
  lemma SeededIdsDistinct(c: Collection, data: seq<Record>, i: nat, j: nat)
    requires SeededFrom(c, data) && i < |data| && j < |data| && i != j
    ensures c.ids[i] != c.ids[j]
  {
    NumberedKeysDistinct("fitness_", i, j);
  }

  /**
   * Start-up of rag.py. `existing` is what `get_collection` finds (`None`
   * when it raises); `dataset` is the parsed dataset file (`None` when the
   * file does not exist). Only a freshly created collection is seeded, and
   * only when the file exists; `seeded` tells whether that happened.
   */
  method Bootstrap(existing: Option<Collection>, dataset: Option<seq<Record>>) returns (c: Collection, seeded: bool)
    ensures seeded <==> existing.None? && dataset.Some?
    ensures existing.Some? ==> c == existing.value
    ensures existing.None? && dataset.None? ==> c == Collection([], [], [])
    ensures seeded ==> SeededFrom(c, dataset.value)
  {
    seeded := false;
    if existing.Some? {
      c := existing.value;
    } else {
      c := Collection([], [], []);
      if dataset.Some? {
        c := SeedRecords(dataset.value);
        seeded := true;
      }
    }
  }

  /** The separator between the parts of the context. */
  const Separator: string := "\n\n---\n\n"

  /** The key of the recommendation for hit `i`: `f"vid_{i}"`. */
  function VidKey(i: nat): string {
    "vid_" + NatToString(i)
  }

  /**
   * The thumbnail of a video: for a YouTube URL, the image named by what
   * follows the last `v=`; the empty string otherwise.
   */
  function Thumbnail(video: string): string {
    if Contains(video, "youtube.com") then
      "https://img.youtube.com/vi/" + LastPiece(video, "v=") + "/maxresdefault.jpg"
    else ""
  }

  /**
   * A YouTube thumbnail names the text after the last `v=` of the URL, or
   * the whole URL when it has no `v=`; other URLs get no thumbnail.
   */
  lemma ThumbnailSpec(video: string)
    ensures !Contains(video, "youtube.com") ==> Thumbnail(video) == ""
    ensures Contains(video, "youtube.com") ==>
      exists id ::
        && Thumbnail(video) == "https://img.youtube.com/vi/" + id + "/maxresdefault.jpg"
        && !Contains(id, "v=")
        && (!Contains(video, "v=") ==> id == video)
        && (Contains(video, "v=") ==> |id| + 2 <= |video| && video[|video| - |id| - 2..] == "v=" + id)
  {
    var id := LastPiece(video, "v=");
    LastPieceSpec(video, "v=");
    if Contains(video, "v=") {
      var p := |video| - |id| - 2;
      assert video[p..p + 2] == "v=";
      assert video[p..] == video[p..p + 2] + video[p + 2..];
    }
    if Contains(video, "youtube.com") {
      assert Thumbnail(video) == "https://img.youtube.com/vi/" + id + "/maxresdefault.jpg";
    }
  }

  /** The part of the context for one hit: its title in bold, then the document. */
  function ContextPart(title: string, doc: string): string {
    "**" + title + "**\n" + doc
  }

  /** The parts of the context for the first `n` hits. */
  function ContextParts(docs: seq<string>, metas: seq<Meta>, n: nat): (r: seq<string>)
    requires n <= |docs| && n <= |metas|
    ensures |r| == n
    ensures forall i | 0 <= i < n :: r[i] == ContextPart(metas[i].title, docs[i])
  {
    if n == 0 then [] else ContextParts(docs, metas, n - 1) + [ContextPart(metas[n - 1].title, docs[n - 1])]
  }

  /** The recommendation `retrieve` derives from the metadata of a hit. */
  function RecommendationOf(m: Meta): Recommendation {
    Recommendation(m.title, m.video, Thumbnail(m.video))
  }

  /**
   * The recommendations for the first `n` hits: one entry `vid_i` for each
   * of the first three hits that has a video, in hit order.
   */
  function Recs(metas: seq<Meta>, n: nat): Dict<Recommendation>
    requires n <= |metas|
  {
    if n == 0 then []
    else
      var i := n - 1;
      var front := Recs(metas, i);
      if metas[i].video != "" && i < 3 then Set(front, VidKey(i), RecommendationOf(metas[i])) else front
  }

  /** The recommendation map has only the keys `vid_i` for `i < n` and `i < 3`. */
  lemma {:induction false} RecsKeys(metas: seq<Meta>, n: nat)
    requires n <= |metas|
    ensures forall k | k in Keys(Recs(metas, n)) :: exists i | 0 <= i < n && i < 3 :: k == VidKey(i)
  {
    if n > 0 {
      RecsKeys(metas, n - 1);
      var i := n - 1;
      if metas[i].video != "" && i < 3 {
        SetKeys(Recs(metas, i), VidKey(i), RecommendationOf(metas[i]));
      }
    }
  }

  /** The key of hit `n` is new to the recommendations of the hits before it. */
  lemma NextKeyIsNew(metas: seq<Meta>, n: nat)
    requires n <= |metas|
    ensures VidKey(n) !in Keys(Recs(metas, n))
  {
    RecsKeys(metas, n);
    if VidKey(n) in Keys(Recs(metas, n)) {
      var i :| 0 <= i < n && i < 3 && VidKey(n) == VidKey(i);
      NumberedKeysDistinct("vid_", i, n);
    }
  }

  /** A hit that adds a recommendation adds it last, after those of the earlier hits. */
  lemma RecsInHitOrder(metas: seq<Meta>, n: nat)
    requires 0 < n <= |metas| && metas[n - 1].video != "" && n - 1 < 3
    ensures Recs(metas, n) == Recs(metas, n - 1) + [(VidKey(n - 1), RecommendationOf(metas[n - 1]))]
  {
    NextKeyIsNew(metas, n - 1);
    SetNew(Recs(metas, n - 1), VidKey(n - 1), RecommendationOf(metas[n - 1]));
  }

  /**
   * `vid_i` is present exactly when `i < 3`, hit `i` exists and has a
   * video, and then it holds that hit's title, video URL and thumbnail.
   */
  lemma {:induction false} RecsGet(metas: seq<Meta>, n: nat, i: nat)
    requires n <= |metas|
    ensures Get(Recs(metas, n), VidKey(i))
      == if i < n && i < 3 && metas[i].video != "" then Some(RecommendationOf(metas[i])) else None
  {
    if n > 0 {
      RecsGet(metas, n - 1, i);
      var last := n - 1;
      if metas[last].video != "" && last < 3 {
        SetGet(Recs(metas, last), VidKey(last), RecommendationOf(metas[last]), VidKey(i));
        if i != last {
          NumberedKeysDistinct("vid_", i, last);
        }
      }
    }
  }

  /** There are at most three recommendations, under distinct keys. */
  lemma {:induction false} RecsAtMostThree(metas: seq<Meta>, n: nat)
    requires n <= |metas|
    ensures |Recs(metas, n)| <= 3 && |Recs(metas, n)| <= n
    ensures UniqueKeys(Recs(metas, n))
  {
    if n > 0 {
      RecsAtMostThree(metas, n - 1);
      var last := n - 1;
      var front := Recs(metas, last);
      if metas[last].video != "" && last < 3 {
        NextKeyIsNew(metas, last);
        SetKeys(front, VidKey(last), RecommendationOf(metas[last]));
        assert |Keys(Recs(metas, n))| == |Keys(front)| + 1;
      }
    }
  }

  /** Hits after the third add no recommendation. */
  lemma {:induction false} RecsStopAtThree(metas: seq<Meta>, n: nat)
    requires 3 <= n <= |metas|
    ensures Recs(metas, n) == Recs(metas, 3)
  {
    if n > 3 {
      RecsStopAtThree(metas, n - 1);
    }
  }

  /**
   * `retrieve` after the vector search: `docs` and `metas` are the ranked
   * hits. One context part per zipped pair, joined by the separator, and a
   * recommendation for each of the first three hits that has a video.
   */
  method Retrieve(docs: seq<string>, metas: seq<Meta>) returns (context: string, recs: Dict<Recommendation>)
    ensures var n := if |docs| <= |metas| then |docs| else |metas|;
      && context == Join(ContextParts(docs, metas, n), Separator)
      && recs == Recs(metas, n)
  {
    var n := if |docs| <= |metas| then |docs| else |metas|;
    var contextParts: seq<string> := [];
    recs := [];
    for idx := 0 to n
      invariant contextParts == ContextParts(docs, metas, idx)
      invariant recs == Recs(metas, idx)
    {
      var doc := docs[idx];
      var meta := metas[idx];
      contextParts := contextParts + ["**" + meta.title + "**\n" + doc];
      if meta.video != "" && idx < 3 {
        recs := Set(recs, "vid_" + NatToString(idx), Recommendation(meta.title, meta.video, Thumbnail(meta.video)));
      }
    }
    context := Join(contextParts, Separator);
  }

  /** Without hits the context is empty and there is no recommendation. */
  lemma NoHits(docs: seq<string>, metas: seq<Meta>)
    requires docs == [] || metas == []
    ensures var n := if |docs| <= |metas| then |docs| else |metas|;
      n == 0 && Join(ContextParts(docs, metas, n), Separator) == "" && Recs(metas, n) == []
  {
  }

  /** The context contains the part of every hit. */
  lemma ContextHasParts(docs: seq<string>, metas: seq<Meta>, n: nat, i: nat)
    requires n <= |docs| && n <= |metas| && i < n
    ensures Contains(Join(ContextParts(docs, metas, n), Separator), ContextPart(metas[i].title, docs[i]))
  {
    JoinContainsPart(ContextParts(docs, metas, n), Separator, i);
  }
}
