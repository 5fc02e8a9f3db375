/**
 * The retrieval side of the chatbot: which cache the start-up uses, how the
 * candidate sections for a query are chosen and merged, and how the answer
 * step treats the retrieved sections.
 *
 * The embedding model, the FAISS search and the cross-encoder are outside
 * the model. The search is represented by the neighbour indices it returns,
 * and the cross-encoder by a score function on documents.
 */
module RagPipeline {
  import opened Options
  import opened Text
  import opened Scan
  import opened Patterns
  import opened Ranking
  import opened DataProcessing

  /** The numeric filter returns at most this many documents. */
  const FilteredLimit: int := 20

  /** The fixed reply when nothing was retrieved. */
  const NoSectionReply: string :=
    "Mujhe aapki query ke liye apne database mein koi relevant IPC section nahi mila. Kya aap kripya ise doosre tarike se poochh sakte hain ya aur details de sakte hain?"

  // ---------------------------------------------------------------- start-up

  /** The original texts of the records, in order. */
  function Texts(data: seq<Record>): (ts: seq<string>)
    ensures |ts| == |data|
    ensures forall i :: 0 <= i < |data| ==> ts[i] == data[i].originalText
  {
    seq(|data|, i requires 0 <= i < |data| => data[i].originalText)
  }

  /**
   * The two cache files, each present or not: the index, represented by the
   * texts it embeds in row order, and the saved metadata list.
   */
  datatype Cache = Cache(index: Option<seq<string>>, metadata: Option<seq<string>>)

  /** What start-up hands to retrieval: the records, the index rows, the metadata, and the cache it leaves behind. */
  datatype Components = Components(data: seq<Record>, index: seq<string>, metadata: seq<string>, rebuilt: bool, cache: Cache)

  /**
   * `initialize_rag_components`: load the corpus; rebuild the index over the
   * texts and save it with the texts as metadata unless both cache files
   * exist, in which case both are used as they were saved.
   */
  function Initialize(lines: seq<Line>, cache: Cache): (c: Components)
    ensures c.data == LoadStructured(lines).records
    ensures c.rebuilt <==> cache.index.None? || cache.metadata.None?
    ensures c.rebuilt ==> c.index == Texts(c.data) && c.metadata == Texts(c.data)
    ensures c.rebuilt ==> c.cache == Cache(Some(c.index), Some(c.metadata))
    ensures !c.rebuilt ==> Some(c.index) == cache.index && Some(c.metadata) == cache.metadata && c.cache == cache
  {
    var data := LoadStructured(lines).records;
    if cache.index.None? || cache.metadata.None? then
      var texts := Texts(data);
      Components(data, texts, texts, true, Cache(Some(texts), Some(texts)))
    else
      Components(data, cache.index.value, cache.metadata.value, false, cache)
  }

  /**
   * After a rebuild, index row `i` and metadata entry `i` are both the text of
   * record `i`, which is accepted text `i` of the corpus.
   */
  lemma RebuiltAligned(lines: seq<Line>, cache: Cache)
    requires Initialize(lines, cache).rebuilt
    ensures Initialize(lines, cache).metadata == AcceptedTexts(lines)
    ensures Initialize(lines, cache).index == Initialize(lines, cache).metadata
  {
    var c := Initialize(lines, cache);
    var ts := AcceptedTexts(lines);
    assert |c.metadata| == |ts|;
    forall i | 0 <= i < |ts| ensures c.metadata[i] == ts[i] {
      assert c.metadata[i] == c.data[i].originalText;
      assert c.data[i] == MakeRecord(ts[i]);
    }
  }

  /** A second start-up over the cache the first one left reloads it without rebuilding and sees the same index and metadata. */
  lemma RestartReloads(lines: seq<Line>, cache: Cache)
    ensures !Initialize(lines, Initialize(lines, cache).cache).rebuilt
    ensures Initialize(lines, Initialize(lines, cache).cache).index == Initialize(lines, cache).index
    ensures Initialize(lines, Initialize(lines, cache).cache).metadata == Initialize(lines, cache).metadata
  {
  }

  /**
   * Two cache files are used whatever the corpus holds now and whatever they
   * hold: the reload pairs them as they are, with no check that they agree.
   */
  lemma CacheIgnoresCorpus(a: seq<Line>, b: seq<Line>, index: seq<string>, metadata: seq<string>)
    ensures var c := Initialize(a, Cache(Some(index), Some(metadata)));
      !c.rebuilt && c.index == index && c.metadata == metadata
    ensures Initialize(a, Cache(Some(index), Some(metadata))).metadata
      == Initialize(b, Cache(Some(index), Some(metadata))).metadata
  {
  }

  /** A reload can hand retrieval an index with a different number of rows from its metadata. */
  lemma ReloadMayMisalign(lines: seq<Line>)
    ensures var c := Initialize(lines, Cache(Some([]), Some(["IPC 1"])));
      !c.rebuilt && |c.index| != |c.metadata|
  {
  }

  /**
   * After a rebuild, the semantic source reads back the very texts the index
   * rows embed: neighbour `j` yields index row `neighbours[j]`.
   */
  lemma RebuiltSemanticRows(lines: seq<Line>, cache: Cache, neighbours: seq<int>)
    requires Initialize(lines, cache).rebuilt
    requires forall j :: 0 <= j < |neighbours| ==> 0 <= neighbours[j] < |Initialize(lines, cache).index|
    ensures var c := Initialize(lines, cache);
      |SemanticMatches(neighbours, c.metadata)| == |neighbours| &&
      forall j :: 0 <= j < |neighbours| ==> SemanticMatches(neighbours, c.metadata)[j] == c.index[neighbours[j]]
  {
    var c := Initialize(lines, cache);
    SemanticInRange(neighbours, c.metadata);
  }

  // ------------------------------------------------------- candidate sources

  /** The first "greater than N" of the query (any case), giving N. */
  function Threshold(query: string): (n: Option<nat>)
    ensures n.None? <==> forall p: nat :: GreaterAt(query, p).None?
  {
    match Search(GreaterAt, query)
    case None => None
    case Some(h) => Some(h.groups)
  }

  /** The threshold is the number of the leftmost "greater than N". */
  lemma ThresholdLeftmost(query: string, p: nat)
    requires GreaterAt(query, p).Some?
    requires forall q: nat :: q < p ==> GreaterAt(query, q).None?
    ensures Threshold(query) == Some(GreaterAt(query, p).value.groups)
  {
    assert p <= |query|;
    var h := Search(GreaterAt, query);
    assert h.Some? && h.value.start == p;
  }

  /** The texts of the records that `keep` accepts, in corpus order. */
  function TextsWhere(data: seq<Record>, keep: Record -> bool): (ts: seq<string>)
    ensures |ts| <= |data|
    ensures forall t :: t in ts <==> exists i :: 0 <= i < |data| && keep(data[i]) && data[i].originalText == t
    ensures ts == [] <==> forall i :: 0 <= i < |data| ==> !keep(data[i])
  {
    if data == [] then []
    else
      var rest := TextsWhere(data[1..], keep);
      assert forall i :: 1 <= i < |data| ==> data[i] == data[1..][i - 1];
      if keep(data[0]) then [data[0].originalText] + rest else rest
  }

  /** Filtering two runs of records concatenates the results, so corpus order is kept. */
  lemma {:induction false} TextsWhereAppend(a: seq<Record>, b: seq<Record>, keep: Record -> bool)
    ensures TextsWhere(a + b, keep) == TextsWhere(a, keep) + TextsWhere(b, keep)
  {
    if a != [] {
      var ab := a + b;
      var head := if keep(a[0]) then [a[0].originalText] else [];
      TextsWhereAppend(a[1..], b, keep);
      assert ab[1..] == a[1..] + b;
      assert ab[0] == a[0];
      assert TextsWhere(ab, keep) == head + TextsWhere(ab[1..], keep);
      assert TextsWhere(a, keep) == head + TextsWhere(a[1..], keep);
      assert head + (TextsWhere(a[1..], keep) + TextsWhere(b, keep))
        == (head + TextsWhere(a[1..], keep)) + TextsWhere(b, keep);
    } else {
      assert a + b == b;
    }
  }

  /** A record's punishment is known and longer than `n` years. */
  predicate Exceeds(r: Record, n: nat) {
    r.years.Some? && r.years.value > n
  }

  /** The numeric filter: the texts of the records whose years exceed `n`, in corpus order. */
  function AboveThreshold(data: seq<Record>, n: nat): (ts: seq<string>)
    ensures forall t :: t in ts <==> exists i :: 0 <= i < |data| && Exceeds(data[i], n) && data[i].originalText == t
    ensures ts == [] <==> forall i :: 0 <= i < |data| ==> !Exceeds(data[i], n)
  {
    TextsWhere(data, (r: Record) => Exceeds(r, n))
  }

  /** The lower-cased text mentions a child or a minor. */
  predicate MentionsMinor(t: string) {
    Contains(Lower(t), "child") || Contains(Lower(t), "minor")
  }

  /** The keyword source: when the query mentions a child or a minor, every corpus text that does too. */
  function KeywordMatches(query: string, data: seq<Record>): (ts: seq<string>)
    ensures !MentionsMinor(query) ==> ts == []
    ensures MentionsMinor(query) ==>
      forall t :: t in ts <==> exists i :: 0 <= i < |data| && MentionsMinor(data[i].originalText) && data[i].originalText == t
  {
    if MentionsMinor(query) then TextsWhere(data, (r: Record) => MentionsMinor(r.originalText)) else []
  }

  /** The lower-cased `"IPC " + upper(id)` for the leftmost `IPC\s*(\d+[A-Z]*)` in the query, if any. */
  function SectionKey(query: string): (k: Option<string>)
    ensures k.None? <==> forall p: nat :: IpcAt(query, p).None?
    ensures k.Some? ==> StartsWith(k.value, "ipc ")
  {
    match Search(IpcAt, query)
    case None => None
    case Some(h) =>
      var key := Lower("IPC " + Upper(h.groups));
      assert key[..4] == "ipc ";
      Some(key)
  }

  /** The key is built from the group of the leftmost `IPC\s*(\d+[A-Z]*)`. */
  lemma SectionKeyLeftmost(query: string, p: nat)
    requires IpcAt(query, p).Some?
    requires forall q: nat :: q < p ==> IpcAt(query, q).None?
    ensures SectionKey(query) == Some(Lower("IPC " + Upper(IpcAt(query, p).value.groups)))
  {
    assert p <= |query|;
    var h := Search(IpcAt, query);
    assert h.Some? && h.value.start == p;
  }

  /** The position of the first text whose lower-cased form starts with `key`, from `from` on. */
  function FirstStartingWith(xs: seq<string>, key: string, from: nat := 0): (r: Option<nat>)
    requires from <= |xs|
    ensures r.Some? ==> from <= r.value < |xs| && StartsWith(Lower(xs[r.value]), key)
    ensures forall i :: from <= i < |xs| && (r.None? || i < r.value) ==> !StartsWith(Lower(xs[i]), key)
    decreases |xs| - from
  {
    if from == |xs| then None
    else if StartsWith(Lower(xs[from]), key) then Some(from)
    else FirstStartingWith(xs, key, from + 1)
  }

  /** The exact-section source: at most one metadata text, the first that starts with the section key. */
  function ExactSectionMatch(query: string, metadata: seq<string>): (ts: seq<string>)
    ensures |ts| <= 1
    ensures ts == [] <==> (SectionKey(query).None? ||
      forall i :: 0 <= i < |metadata| ==> !StartsWith(Lower(metadata[i]), SectionKey(query).value))
    ensures ts != [] ==> exists i :: (0 <= i < |metadata| && ts[0] == metadata[i] &&
      StartsWith(Lower(metadata[i]), SectionKey(query).value) &&
      forall j :: 0 <= j < i ==> !StartsWith(Lower(metadata[j]), SectionKey(query).value))
  {
    match SectionKey(query)
    case None => []
    case Some(key) =>
      match FirstStartingWith(metadata, key)
      case None => []
      case Some(i) => [metadata[i]]
  }

  /** The semantic source: the metadata texts at the neighbour indices that are in range, in neighbour order. */
  function SemanticMatches(neighbours: seq<int>, metadata: seq<string>): (ts: seq<string>)
    ensures |ts| <= |neighbours|
    ensures forall t :: t in ts <==>
      exists j :: 0 <= j < |neighbours| && 0 <= neighbours[j] < |metadata| && metadata[neighbours[j]] == t
    ensures (forall j :: 0 <= j < |neighbours| ==> 0 <= neighbours[j] < |metadata|) ==> |ts| == |neighbours|
  {
    if neighbours == [] then []
    else
      var rest := SemanticMatches(neighbours[1..], metadata);
      assert forall j :: 1 <= j < |neighbours| ==> neighbours[j] == neighbours[1..][j - 1];
      var idx := neighbours[0];
      if 0 <= idx < |metadata| then [metadata[idx]] + rest else rest
  }

  /** The semantic source keeps neighbour order: two runs of neighbours give their matches one after the other. */
  lemma {:induction false} SemanticMatchesAppend(a: seq<int>, b: seq<int>, metadata: seq<string>)
    ensures SemanticMatches(a + b, metadata) == SemanticMatches(a, metadata) + SemanticMatches(b, metadata)
  {
    if a != [] {
      var ab := a + b;
      var head := if 0 <= a[0] < |metadata| then [metadata[a[0]]] else [];
      SemanticMatchesAppend(a[1..], b, metadata);
      assert ab[1..] == a[1..] + b;
      assert ab[0] == a[0];
      assert SemanticMatches(ab, metadata) == head + SemanticMatches(ab[1..], metadata);
      assert SemanticMatches(a, metadata) == head + SemanticMatches(a[1..], metadata);
      assert head + (SemanticMatches(a[1..], metadata) + SemanticMatches(b, metadata))
        == (head + SemanticMatches(a[1..], metadata)) + SemanticMatches(b, metadata);
    } else {
      assert a + b == b;
    }
  }

  /** With every neighbour in range, match `j` is the metadata text at neighbour `j`. */
  lemma {:induction false} SemanticInRange(neighbours: seq<int>, metadata: seq<string>)
    requires forall j :: 0 <= j < |neighbours| ==> 0 <= neighbours[j] < |metadata|
    ensures |SemanticMatches(neighbours, metadata)| == |neighbours|
    ensures forall j :: 0 <= j < |neighbours| ==> SemanticMatches(neighbours, metadata)[j] == metadata[neighbours[j]]
  {
    if neighbours != [] {
      var rest := neighbours[1..];
      SemanticInRange(rest, metadata);
      assert SemanticMatches(neighbours, metadata) == [metadata[neighbours[0]]] + SemanticMatches(rest, metadata);
      forall j | 1 <= j < |neighbours| ensures SemanticMatches(neighbours, metadata)[j] == metadata[neighbours[j]] {
        assert neighbours[j] == rest[j - 1];
      }
    }
  }

  // ------------------------------------------------------------- retrieval

  /** Keyword, then exact, then semantic matches, each text once, at its first place. */
  function Candidates(query: string, data: seq<Record>, metadata: seq<string>, neighbours: seq<int>): (c: seq<string>)
    ensures Distinct(c)
    ensures forall t :: t in c <==>
      t in KeywordMatches(query, data) || t in ExactSectionMatch(query, metadata) || t in SemanticMatches(neighbours, metadata)
  {
    var all := KeywordMatches(query, data) + ExactSectionMatch(query, metadata) + SemanticMatches(neighbours, metadata);
    Dedup(all)
  }

  /** The records' texts and the metadata: where every retrieved document comes from. */
  predicate FromCorpus(t: string, data: seq<Record>, metadata: seq<string>) {
    t in metadata || exists i :: 0 <= i < |data| && data[i].originalText == t
  }

  /** The numeric filter's candidates, or none when the query asks for no threshold. */
  function Filtered(query: string, data: seq<Record>): (ts: seq<string>)
    ensures Threshold(query).None? ==> ts == []
    ensures forall t :: t in ts <==> (Threshold(query).Some? &&
      exists i :: 0 <= i < |data| && Exceeds(data[i], Threshold(query).value) && data[i].originalText == t)
    ensures ts == [] <==> Threshold(query).None? || forall i :: 0 <= i < |data| ==> !Exceeds(data[i], Threshold(query).value)
  {
    match Threshold(query)
    case None => []
    case Some(n) => AboveThreshold(data, n)
  }

  /** The merged candidates all come from the corpus texts or the metadata. */
  lemma CandidatesFromCorpus(query: string, data: seq<Record>, metadata: seq<string>, neighbours: seq<int>)
    ensures forall t :: t in Candidates(query, data, metadata, neighbours) ==> FromCorpus(t, data, metadata)
  {
    forall t | t in Candidates(query, data, metadata, neighbours) ensures FromCorpus(t, data, metadata) {
      if t in SemanticMatches(neighbours, metadata) {
        var j :| 0 <= j < |neighbours| && 0 <= neighbours[j] < |metadata| && metadata[neighbours[j]] == t;
      } else if t in ExactSectionMatch(query, metadata) {
        var i :| 0 <= i < |metadata| && ExactSectionMatch(query, metadata)[0] == metadata[i];
      }
    }
  }

  /**
   * `retrieve_relevant_ipc_hybrid`: with a threshold that some record
   * exceeds, the top 20 of those records by score; otherwise the top
   * `kFinal` of the merged candidates, or nothing without candidates.
   */
  function Retrieve(query: string, data: seq<Record>, metadata: seq<string>, neighbours: seq<int>,
                    score: string -> int, kFinal: int): (r: seq<string>)
    ensures forall t :: t in r ==> FromCorpus(t, data, metadata)
  {
    var filtered := Filtered(query, data);
    if filtered != [] then
      assert forall t :: t in filtered ==> FromCorpus(t, data, metadata);
      TopK(filtered, score, FilteredLimit)
    else
      var c := Candidates(query, data, metadata, neighbours);
      CandidatesFromCorpus(query, data, metadata, neighbours);
      if c == [] then [] else TopK(c, score, kFinal)
  }

  /**
   * With a threshold some record exceeds: at most 20 documents, best first,
   * each from a record over the threshold, and none left out scores higher.
   */
  lemma RetrieveFiltered(query: string, data: seq<Record>, metadata: seq<string>, neighbours: seq<int>,
                         score: string -> int, kFinal: int, n: nat)
    requires Threshold(query) == Some(n) && AboveThreshold(data, n) != []
    ensures var r := Retrieve(query, data, metadata, neighbours, score, kFinal);
      && |r| == (if |AboveThreshold(data, n)| < 20 then |AboveThreshold(data, n)| else 20)
      && SortedDesc(r, score)
      && multiset(r) <= multiset(AboveThreshold(data, n))
      && (forall t :: t in r ==> exists i :: 0 <= i < |data| && Exceeds(data[i], n) && data[i].originalText == t)
      && (forall x, y :: x in r && y in multiset(AboveThreshold(data, n)) - multiset(r) ==> score(y) <= score(x))
  {
    var filtered := AboveThreshold(data, n);
    TopKBest(filtered, score, FilteredLimit);
    var r := Retrieve(query, data, metadata, neighbours, score, kFinal);
    assert r == TopK(filtered, score, FilteredLimit);
    forall t | t in r ensures t in filtered {
      assert t in multiset(filtered);
    }
  }

  /** Ties among the filtered documents keep corpus order. */
  lemma RetrieveFilteredStable(query: string, data: seq<Record>, metadata: seq<string>, neighbours: seq<int>,
                               score: string -> int, kFinal: int, n: nat, v: int)
    requires Threshold(query) == Some(n) && AboveThreshold(data, n) != []
    ensures Retrieve(query, data, metadata, neighbours, score, kFinal)
      == Take(SortDesc(AboveThreshold(data, n), score), FilteredLimit)
    ensures WithScore(SortDesc(AboveThreshold(data, n), score), score, v) == WithScore(AboveThreshold(data, n), score, v)
  {
    SortDescStable(AboveThreshold(data, n), score, v);
  }

  /**
   * Without a usable threshold: nothing when there are no candidates;
   * otherwise `candidates[:kFinal]` after ranking, best first, no repeats,
   * and no candidate left out scores higher than one kept.
   */
  lemma RetrieveGeneral(query: string, data: seq<Record>, metadata: seq<string>, neighbours: seq<int>,
                        score: string -> int, kFinal: int)
    requires Filtered(query, data) == []
    ensures var r := Retrieve(query, data, metadata, neighbours, score, kFinal);
      var c := Candidates(query, data, metadata, neighbours);
      && (c == [] ==> r == [])
      && (c != [] ==> r == Take(SortDesc(c, score), kFinal))
      && (kFinal >= 0 ==> |r| == if kFinal < |c| then kFinal else |c|)
      && (kFinal < 0 ==> |r| == if |c| + kFinal > 0 then |c| + kFinal else 0)
      && Distinct(r)
      && SortedDesc(r, score)
      && (forall t :: t in r ==> t in c)
      && (forall x, y :: x in r && y in multiset(c) - multiset(r) ==> score(y) <= score(x))
  {
    var c := Candidates(query, data, metadata, neighbours);
    FallsThrough(query, data, metadata, neighbours, score, kFinal);
    if c != [] {
      TopKBest(c, score, kFinal);
      TopKDistinct(c, score, kFinal);
    }
  }

  /** An empty filter leaves the query to the merged candidates. */
  lemma FallsThrough(query: string, data: seq<Record>, metadata: seq<string>, neighbours: seq<int>,
                     score: string -> int, kFinal: int)
    requires Filtered(query, data) == []
    ensures var c := Candidates(query, data, metadata, neighbours);
      && Distinct(c)
      && Retrieve(query, data, metadata, neighbours, score, kFinal) == if c == [] then [] else TopK(c, score, kFinal)
  {
  }

  /** A threshold no record exceeds changes nothing: the query is answered as if it had none. */
  lemma EmptyFilterFallsThrough(query: string, data: seq<Record>, metadata: seq<string>, neighbours: seq<int>,
                                score: string -> int, kFinal: int, n: nat)
    requires Threshold(query) == Some(n)
    requires forall i :: 0 <= i < |data| ==> !Exceeds(data[i], n)
    ensures Retrieve(query, data, metadata, neighbours, score, kFinal)
      == (var c := Candidates(query, data, metadata, neighbours); if c == [] then [] else TopK(c, score, kFinal))
  {
  }

  /** The merged candidates keep the order of first occurrence across keyword, exact and semantic matches. */
  lemma CandidatesOrder(query: string, data: seq<Record>, metadata: seq<string>, neighbours: seq<int>)
    ensures var all := KeywordMatches(query, data) + ExactSectionMatch(query, metadata) + SemanticMatches(neighbours, metadata);
      var c := Candidates(query, data, metadata, neighbours);
      forall i, j :: 0 <= i < j < |c| ==> FirstIndex(all, c[i]) < FirstIndex(all, c[j])
  {
    DedupOrder(KeywordMatches(query, data) + ExactSectionMatch(query, metadata) + SemanticMatches(neighbours, metadata));
  }

  // ---------------------------------------------------------------- answer

  /** What the answer step does before the language model: reply at once, or build the prompt from the context. */
  datatype Reply = Canned(message: string) | Prompt(context: string, query: string)

  /** The part of `generate_answer_with_ollama` before the model call. */
  function PrepareAnswer(query: string, sections: seq<string>): (a: Reply)
    ensures a.Canned? <==> sections == []
    ensures a.Canned? ==> a.message == NoSectionReply
    ensures a.Prompt? ==> a.query == query
  {
    if sections == [] then Canned(NoSectionReply)
    else Prompt(Join(sections, '\n'), query)
  }

  /** The context holds the sections in order: splitting it at newlines gives them back when none has a newline of its own. */
  lemma ContextHoldsSections(query: string, sections: seq<string>)
    requires sections != [] && forall k :: 0 <= k < |sections| ==> '\n' !in sections[k]
    ensures PrepareAnswer(query, sections).Prompt?
    ensures Split(PrepareAnswer(query, sections).context, '\n') == sections
  {
    SplitJoin(sections, '\n');
  }
}
