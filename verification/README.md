# IPC legal chatbot: corpus parsing and candidate selection in Dafny

This project models the two pieces of pure logic inside the IPC (Indian Penal
Code) legal chatbot and proves what they promise.

- **Corpus parsing** (`src/data_processing.py`). Each JSON line of the corpus
  carries the text of one IPC section. Texts containing "nan" (anywhere, any
  case) or shorter than 20 characters are skipped. Every other text becomes a
  record with four fields:
  - an upper-cased `IPC <digits><letters>` id, or `UNKNOWN`;
  - a description summary;
  - a punishment year count read from the clause after `Punishment:`:
    - the largest number in any "a to b years" / "a-b years" range;
    - failing that, the first "N years";
    - failing that, 999 for "life" and 1000 for "death";
  - the original text.
- **Candidate selection** (`src/rag_pipeline.py`). A query that says "greater
  than N" is answered from the records whose year count exceeds N:
  - the top 20 of them by re-ranker score;
  - if no record qualifies, the query falls through to the general path.

  The general path merges three candidate sources, keeps each text once at its
  first position, ranks by score and keeps `k_final`:
  - keyword matches (child/minor);
  - at most one exact section match from the index metadata;
  - the in-range nearest neighbours.

  Start-up rebuilds the index and its metadata unless both cache files exist.
  The answer step replies with a fixed message when nothing was retrieved, and
  otherwise joins the sections with newlines into the prompt context.

The modules follow the program:

- `Text` covers character classes and `str` methods:
  - `lower`, `upper`, `strip`, `find`, `split`, `join`;
  - maximal runs of digits, spaces, letters and non-newlines.
- `Scan` gives `re.search` and `re.findall` over an anchored matcher. A
  matcher is a function from a text and a start position to an optional match
  end with its captured groups.
- `Patterns` holds the five patterns of the two source files (six uses, as
  `IPC\s*(\d+[A-Z]*)` serves both files) as such matchers.
- `DataProcessing` covers `parse_punishment_years` and `load_data_structured`.
- `Ranking` gives Python's stable `sorted(..., reverse=True)`, `xs[:k]`, and
  the order-preserving de-duplication.
- `RagPipeline` covers `initialize_rag_components`,
  `retrieve_relevant_ipc_hybrid`, and the part of
  `generate_answer_with_ollama` before the model call.

The embedding model, the FAISS search and the cross-encoder are parameters:
- the search is the list of neighbour indices it returns (FAISS pads with -1);
- the re-ranker is a function from document to integer score.

The corpus file is a sequence of lines. Each line is either `Undecodable` or
`Decoded(text)`. A line is `Undecodable` when it is bad JSON, is not an
object, or has a `text` that is not a string. In `Decoded(text)`, `text` is
`""` if the key is missing. The cache is two files, each present or not:
- the index, represented by the texts it embeds, in row order;
- the metadata list.

`src/utils.py` is not part of this model. `src/rag_pipeline.py:11` imports
`parse_punishment_years` from it, but the pipeline only reads the year counts
that `load_data_structured` stored. Those counts come from the definition in
`src/data_processing.py`, which is what is modelled.

## Model

| member | source | states |
|---|---|---|
| Text.Strip | src/data_processing.py:23 | the result is a contiguous piece of the input, and neither of its ends is whitespace (Python `str.isspace`) |
| Text.StripDropsSpace | src/data_processing.py:23 | the result is `s[a..b]`, with only whitespace before `a` and from `b` on |
| Text.StripUnique | src/data_processing.py:23 | any cut with only whitespace outside it, and non-space at both of its ends, is the stripped text, so strip removes all the outer whitespace and no more |
| Text.StripSpan | src/data_processing.py:23 | stripping a piece of a larger text cuts out a piece of that text, and only whitespace lies around it inside the piece |
| Text.Before | src/data_processing.py:71 | `split(w, 1)[0]`: a prefix in which `w` starts nowhere (not even running past its end), followed by `w` unless it is the whole text |
| Text.HeadSpan | src/data_processing.py:71 | `s[off:].split(w, 1)[0].strip()` located in `s`: it runs up to the first `w` at or after `off` (or the end), and only whitespace lies around the stripped part |
| Text.After | src/data_processing.py:71 | `split(c, 1)[1]`: the suffix after the first `c` |
| Text.JoinSplit | src/rag_pipeline.py:209 | joining the pieces of `s.split(sep)` with `sep` gives back `s` |
| Text.SplitJoin | src/rag_pipeline.py:209 | splitting `sep.join(xs)` at `sep` gives back `xs` when no piece contains `sep` |
| Scan.Search | src/data_processing.py:21 | `re.search`: the match found is at the leftmost position where the pattern matches, and there is none when it matches nowhere |
| Scan.FindAll | src/data_processing.py:25 | `re.findall`: every hit is a real match, hits are in order and do not overlap, and every position where the pattern matches lies inside some hit |
| Patterns.MarkerAt | src/data_processing.py:21 | `Punishment:\s*(.*)` captures text without a newline, since `.` stops at one |
| Patterns.YearWord | src/data_processing.py:25 | the year word matches exactly when "year" (any case) starts there; it ends after "years" whenever that fits, as the alternation tries "years" first, and after "year" otherwise |
| Patterns.RangeInside | src/data_processing.py:25 | a range match starting inside another range match shares its second number and has a first number no larger |
| Patterns.RestHasNoRange | src/data_processing.py:25 | no range match starts inside the tail of a range after its first number |
| Patterns.RangeHasYear | src/data_processing.py:25-29 | the second number of every range, with its "years", is also an "N years" match |
| Patterns.YearAtMatches | src/data_processing.py:29 | an "N years" match is a greedy digit run, a greedy space run and the year word ("years" first), and it captures the value of the digits |
| Patterns.MatchYearAt | src/data_processing.py:29 | conversely, every such digits-spaces-year word layout is the match found at that position |
| Patterns.RangeAtMatches | src/data_processing.py:25 | a range match is greedy digits, spaces, "to" or "-", spaces and an "N years" match, and it captures the values of both numbers |
| Patterns.MatchRangeAt | src/data_processing.py:25 | conversely, every such layout is the range match found at that position |
| Patterns.IpcAtMatches | src/data_processing.py:64 | an `IPC\s*(\d+[A-Z]*)` match is "ipc" in any case, greedy spaces, at least one digit and greedy letters, capturing the digits and letters |
| Patterns.MatchIpcAt | src/data_processing.py:64 | conversely, every such layout is the IPC match found at that position |
| Patterns.GreaterAtMatches | src/rag_pipeline.py:134 | a "greater than N" match is the phrase in any case, greedy digits and spaces, then the year word when one follows, capturing the value of the digits |
| Patterns.MatchGreaterAt | src/rag_pipeline.py:134 | conversely, every such layout is the threshold match found at that position |
| Patterns.MarkerAtMatches | src/data_processing.py:21 | a `Punishment:\s*(.*)` match is the marker in any case, greedy whitespace (line feeds included) and the rest of the line, which it captures |
| Patterns.MatchMarkerAt | src/data_processing.py:21 | conversely, every such layout is the marker match found at that position |
| DataProcessing.PunishmentText | src/data_processing.py:21-23 | the punishment clause is "" without a marker, otherwise stripped and on one line |
| DataProcessing.PunishmentSpan | src/data_processing.py:21-23 | with a marker, the clause is the rest of the line after the leftmost marker (any case) and the whitespace that follows it, minus trailing whitespace |
| DataProcessing.MaxOf | src/data_processing.py:27 | `max`: the result is in the list and at least every element |
| DataProcessing.RangeNumbers | src/data_processing.py:27 | the list holds exactly both numbers of every range match |
| DataProcessing.ParseYears | src/data_processing.py:25-37 | an "N years" anywhere in the clause, or "life" or "death" in any case, gives a year count |
| DataProcessing.ParsePunishmentYears | src/data_processing.py:18-39 | without a `Punishment:` marker the result is no years and empty text; otherwise the years are read from the stripped clause alone |
| DataProcessing.RangeMaximum | src/data_processing.py:25-27 | with a range anywhere in the clause, there is a year count, and it is at least every number of every range match |
| DataProcessing.RangeMaximumAttained | src/data_processing.py:25-27 | with a range present, the year count is one of the numbers of some range match, so it is the maximum of those numbers |
| DataProcessing.FirstYearWins | src/data_processing.py:28-31 | with no range, the count is the number of the leftmost "N years", whatever follows |
| DataProcessing.KeywordFallback | src/data_processing.py:33-37 | with no "N years" at all: 999 if the lower-cased clause contains "life", else 1000 if it contains "death", else none |
| DataProcessing.NumberBeatsKeywords | src/data_processing.py:25-37 | when a number with "years" appears, the count is a number the clause spells out (in an "N years" or a range), not a keyword value |
| DataProcessing.YearsMissing | src/data_processing.py:25-37 | the count is missing exactly when the clause has no "N years", no "life" and no "death" |
| DataProcessing.RejectedCi | src/data_processing.py:60 | a text is skipped exactly when it is shorter than 20 or contains "nan" in any mix of cases |
| DataProcessing.NanInsideWordRejected | src/data_processing.py:60-62 | a text containing "nan" inside a word ("pregnant") is skipped |
| DataProcessing.SectionId | src/data_processing.py:64-65 | the id is "UNKNOWN" exactly when no `IPC\s*\d+[A-Z]*` matches, and otherwise starts with "IPC" |
| DataProcessing.SectionIdLeftmost | src/data_processing.py:64-65 | the id is the leftmost match upper-cased, of the same length, character by character |
| DataProcessing.Summary | src/data_processing.py:71 | without "Punishment:" the summary is the whole text; with it, the summary is a piece of the text free of "Punishment:" and stripped |
| DataProcessing.SummarySpan | src/data_processing.py:71 | with the marker, the summary is the text between the first ':' and the next case-sensitive `Punishment:` after it (or the end), minus the whitespace around it |
| DataProcessing.LoadStructured | src/data_processing.py:55-74 | one record per accepted text, in line order; records, skipped lines and bad lines add up to all lines |
| DataProcessing.LinesPartitioned | src/data_processing.py:55-78 | every line is accepted, skipped or undecodable, and exactly one of them |
| DataProcessing.AcceptedTextsMembers | src/data_processing.py:57-62 | a text is loaded exactly when some line decodes to it and the skip rule does not reject it |
| DataProcessing.LoadAppend | src/data_processing.py:55-62 | loading two runs of lines concatenates their texts and adds their skip counts |
| DataProcessing.BadLineIgnored | src/data_processing.py:75-78 | an undecodable line anywhere leaves the records unchanged |
| DataProcessing.MakeRecord | src/data_processing.py:69-74 | the record keeps the original text verbatim |
| Ranking.SortDesc | src/rag_pipeline.py:146 | `sorted(..., reverse=True)`: a permutation of the input, ordered by descending score |
| Ranking.SortDescStable | src/rag_pipeline.py:146 | the sort is stable: the documents of any one score keep their input order |
| Ranking.TopK | src/rag_pipeline.py:146-147 | every document of the ranked cut is one of the input documents |
| Ranking.TopKBest | src/rag_pipeline.py:146-147 | the cut is ordered, drawn from the input, and nothing left out scores above anything kept |
| Ranking.Take | src/rag_pipeline.py:192 | `xs[:k]` is a prefix, of length `min(k, n)`, or `max(0, n + k)` for negative `k` |
| Ranking.TopKDistinct | src/rag_pipeline.py:189-192 | ranking and cutting candidates that have no repeats leaves no repeats |
| Ranking.Dedup | src/rag_pipeline.py:179-184 | the merged list has no repeats and holds exactly the elements of its input |
| Ranking.DedupOrder | src/rag_pipeline.py:179-184 | the merged list keeps the order of first occurrence |
| RagPipeline.Initialize | src/rag_pipeline.py:86-104 | a rebuild happens exactly when a cache file is missing; after one, the index and the metadata are both the records' texts and both are saved; otherwise both files are used as saved |
| RagPipeline.RebuiltAligned | src/rag_pipeline.py:89-97 | after a rebuild, index row `i` and metadata entry `i` are both accepted corpus text `i` |
| RagPipeline.RestartReloads | src/rag_pipeline.py:92-99 | a second start-up finds the cache the first one wrote, does not rebuild, and sees the same index and metadata |
| RagPipeline.CacheIgnoresCorpus | src/rag_pipeline.py:92-99 | a complete cache is used whatever the corpus holds now, and its two files are paired as they are |
| RagPipeline.ReloadMayMisalign | src/rag_pipeline.py:99 | the reload does not check the two files against each other: an index and metadata of different lengths are both used |
| RagPipeline.RebuiltSemanticRows | src/rag_pipeline.py:92-97 | after a rebuild, the semantic match for neighbour `j` is the text that index row `neighbours[j]` embeds |
| RagPipeline.Threshold | src/rag_pipeline.py:134-136 | there is a threshold exactly when "greater than N" occurs (any case) |
| RagPipeline.ThresholdLeftmost | src/rag_pipeline.py:134-136 | the threshold is the number of the leftmost "greater than N" |
| RagPipeline.AboveThreshold | src/rag_pipeline.py:138-141 | a text is a filtered candidate exactly when some record with that text has a known year count above N; the list is empty exactly when no record qualifies |
| RagPipeline.TextsWhereAppend | src/rag_pipeline.py:138-141 | filtering keeps corpus order: filtering two runs of records concatenates their results |
| RagPipeline.KeywordMatches | src/rag_pipeline.py:155-159 | empty unless the lower-cased query contains "child" or "minor"; then exactly the corpus texts that contain either |
| RagPipeline.SectionKey | src/rag_pipeline.py:162-164 | there is a key exactly when the query has an `IPC\s*\d+[A-Z]*` match, and the key starts with "ipc " |
| RagPipeline.SectionKeyLeftmost | src/rag_pipeline.py:162-164 | the key is "ipc " followed by the lower-cased, upper-cased group of the leftmost IPC match |
| RagPipeline.ExactSectionMatch | src/rag_pipeline.py:162-168 | at most one text: the first metadata text whose lower-cased form starts with the key, or none when no text does |
| RagPipeline.SemanticMatches | src/rag_pipeline.py:174-177 | exactly the metadata texts at in-range neighbour indices; one per neighbour when all are in range |
| RagPipeline.SemanticMatchesAppend | src/rag_pipeline.py:174-177 | the matches keep neighbour order: two runs of neighbours give their matches one after the other |
| RagPipeline.SemanticInRange | src/rag_pipeline.py:175-177 | with every neighbour in range, match `j` is the metadata text at neighbour `j` |
| RagPipeline.Candidates | src/rag_pipeline.py:179-184 | no repeats, and a text is a candidate exactly when it is a keyword, exact or semantic match |
| RagPipeline.Filtered | src/rag_pipeline.py:133-141 | no threshold gives nothing; otherwise a text is kept exactly when some record with it exceeds the threshold, and nothing is kept exactly when no record does |
| RagPipeline.CandidatesOrder | src/rag_pipeline.py:179-184 | candidates keep first-occurrence order across keyword, then exact, then semantic matches |
| RagPipeline.Retrieve | src/rag_pipeline.py:106-192 | every returned document is a corpus text or a metadata entry |
| RagPipeline.RetrieveFiltered | src/rag_pipeline.py:134-147 | with a threshold some record exceeds: min(20, n) documents, ordered by score, each over the threshold, none left out scoring higher |
| RagPipeline.RetrieveFilteredStable | src/rag_pipeline.py:146-147 | the filtered result is the stable ranking cut at 20, with ties in corpus order |
| RagPipeline.EmptyFilterFallsThrough | src/rag_pipeline.py:142-149 | a threshold that no record exceeds gives the same answer as the general path |
| RagPipeline.RetrieveGeneral | src/rag_pipeline.py:186-192 | no candidates give `[]`; otherwise the result is the stable descending ranking cut at `k_final`: of Python's slice length, no repeats, ordered, drawn from the candidates, none left out scoring higher |
| RagPipeline.PrepareAnswer | src/rag_pipeline.py:206-209 | the fixed reply exactly when no section was retrieved; otherwise a prompt for the same query |
| RagPipeline.ContextHoldsSections | src/rag_pipeline.py:209 | the context holds the sections in order: splitting it at newlines gives them back when no section has a newline |

## Left out

- Unicode extras of Python's regular expressions and case mapping. The model
  keeps these ASCII-only:
  - `\d` matches only `0`-`9`;
  - `IGNORECASE` and `lower()`/`upper()` act on ASCII letters only. Python
    would also fold a few non-ASCII letters (`ſ`, `ı`, `İ`, the Kelvin sign)
    into `[A-Z]` and the literals.

  Whitespace is Python's full `str.isspace` set.
- `Text.DigitValue`: returns 0 for a non-digit. Callers only ever apply it to
  digits.
- Scores are integers. The cross-encoder's float scores (and NaN ordering) are
  not modelled. A document's score depends only on the document, since the
  query is fixed and the model is deterministic.
- `k_initial` (src/config.py:14) only bounds the FAISS search, so it is
  subsumed by the neighbour list passed in. `k_final` is any integer, with
  Python's slice rules.
- The FAISS index, embeddings and the cross-encoder model
  (src/rag_pipeline.py:15-83, 101-102, 145, 171-172, 190) are foreign
  libraries. They are replaced by parameters.
- Reading the JSON metadata and index files (src/rag_pipeline.py:49-83) and
  the corpus file (src/data_processing.py:54, 80-82, including
  `FileNotFoundError`) is I/O. The corpus is a sequence of lines and the cache
  is a value.
- Logging, `st.info`/`st.warning`, and the Streamlit caching and UI (app.py)
  have no effect on the results.
- `return []` at src/rag_pipeline.py:148 cannot be reached, because a
  non-empty filtered list gives non-empty sentence pairs. The model has no
  such branch.
- The prompt template text and the Ollama chat call, streaming and error
  messages (src/rag_pipeline.py:210-250) are network I/O. The model stops at
  the context and the query that go into the prompt.
- Text.Decimal: converts a digit run of any length. Python's `int()` refuses
  a string of more than 4300 digits with `ValueError`. In
  `load_data_structured` that error is caught at src/data_processing.py:77-78
  and the line is dropped, counted neither as a record nor as skipped, so
  `LinesPartitioned` and `LoadStructured` hold only for corpora without such
  numbers. At src/rag_pipeline.py:136 the error leaves retrieval. The model
  has no digit limit.
- The reload at src/rag_pipeline.py:99 pairs whatever the two files hold. The
  model does not promise that the index and the metadata agree after a
  reload; `RagPipeline.ReloadMayMisalign` shows they need not.
- `RagPipeline.Retrieve` states provenance only in its own contract. Ordering,
  size and the no-repeat property are in `RetrieveFiltered` and
  `RetrieveGeneral`.
