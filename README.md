# Monash student-admin RAG assistant: verified model of its core

This project models in Dafny the deterministic core of a retrieval-augmented
question-answering assistant for Monash University student administration.
It covers three parts.

- **Query time** (`src/query_rag.py`):
  - the conversational rewrite of a follow-up question into a standalone query;
  - reciprocal rank fusion (RRF) of the dense (FAISS) and sparse (BM25) rankings;
  - the selection of the four best fused chunks, with their citation sources;
  - the answer prompt;
  - the filter that turns the streamed model output into yielded text;
  - `evaluate`, which runs these steps in order.
- **Handbook scraping** (`src/handbook_scraper.py`): `clean_html`, which walks
  the JSON page content of a handbook entry. It replaces markup strings by
  their text and drops missing and empty members of dicts and lists.
- **Source-URL scraping** (`src/source_urls_scraper.py`), the link-list logic:
  - sidebar anchors become `(title, url)` links, with leading numbering
    removed from the titles;
  - the first GPA landing page is picked out;
  - the CGPA calculator links found on it are appended.

Files:

- `common.dfy`: Python string and list helpers:
  - `str.strip` and `"sep".join`;
  - `list.index`;
  - first-occurrence order, which is the key order of a dict.
- `rank_fusion.dfy`: the RRF score, the stable descending sort and the
  fusion method, with a declarative specification (`IsFusion`) of the
  result and proofs that it exists and is unique.
- `query_rag.dfy`: the rewrite, the chunk selection, the prompt, the stream
  filter and `evaluate`.
- `handbook_scraper.dfy`: `clean_html` on a JSON datatype. A filter-then-map
  reference definition describes what it returns.
- `source_urls_scraper.dfy`: title cleaning, link building, the GPA URL
  search and the CGPA links.

Things outside the program become parameters:

- the generative model, the embedding and keyword retrievers, the answer
  stream and the browser;
- `model`, `denseSearch`, `sparseSearch`, `stream` and `gpaPage`;
- the markup-to-text extractor `extract`.

Python exceptions that the modelled code can raise become `Result`
failures:

- an out-of-range metadata index (IndexError);
- an anchor without `href` (KeyError).

Behaviour of the code worth knowing, which the model keeps:

- **Whitespace-only rewrite reply.** The rewrite step returns the stripped
  reply whenever the reply text is non-empty. A whitespace-only reply
  therefore gives the empty query, not the original question
  (`QueryRag.WhitespaceReplyGivesEmptyQuery`).
- **Model errors.** Nothing catches an error from the rewrite call.
- **Empty retrieval.** An empty retrieval is not an error: the context is
  then empty.
- **Question slot.** The answer prompt's question slot holds the original
  question, not the rewritten one.
- **Unused sources.** The list of distinct sources is built but never used
  or returned.
- **Tie order.** For dense `[3, 1, 2]` and sparse `[1, 3, 4]`, ids 3 and 1
  tie, and the fused order is `[3, 1, 2, 4]`. The reason is that ties keep
  the dict's key order, and 3 is inserted first
  (`RankFusion.TieBreakExample`). The order is not `[1, 3, 2, 4]`.
- **Text separator.** `clean_html` passes `get_text` the separator written
  `'\\n'` in a non-raw literal (`src/handbook_scraper.py:67`): the two
  characters backslash and `n`, not a newline. Text nodes of a cleaned
  string are therefore joined by a literal backslash-n.

## Model

| member | source | states |
|---|---|---|
| RankFusion.Contribution | src/query_rag.py:31-35 | One ranking's share of an id's score is never negative. |
| RankFusion.ContributionPositive | src/query_rag.py:31-35 | An id gets a positive share from a ranking if and only if it occurs in that ranking. |
| RankFusion.AddRanks | src/query_rag.py:31-35 | One accumulation loop, run on a dict already holding the scores of the ids of `base`. Afterwards the keys are exactly the ids of `base + ranks`, in first-occurrence order. Each value is the id's summed reciprocal rank 1/(k+rank+1) over `base` and over `ranks`. |
| RankFusion.ScoreStep | src/query_rag.py:32 | One update of the dict keeps that table invariant. A new id goes to the end of the key order, and a known id keeps its place. |
| RankFusion.SortByScore | src/query_rag.py:37 | The sort returns a permutation of the dict's keys. |
| RankFusion.SortByScoreRanked | src/query_rag.py:37 | On distinct keys, the sort orders them by descending score, and equal scores keep their key order (a stable sort with `reverse=True`). |
| RankFusion.InsertRanked | src/query_rag.py:37 | Inserting a new key after every key of greater or equal score keeps the order stable and the keys distinct. |
| RankFusion.ReciprocalRankFusion | src/query_rag.py:27-38 | The result is a fusion of the two rankings. Every id of either ranking occurs exactly once and no other id occurs. Ids come in descending total RRF score, and ties go by first occurrence in dense-then-sparse. |
| RankFusion.SortedTableIsFusion | src/query_rag.py:37-38 | Sorting the finished score table by score yields a fusion of the two rankings. |
| RankFusion.RankedIdsUnique | src/query_rag.py:37-38 | Two duplicate-free lists over the same ids, both in fused order, are equal. |
| RankFusion.FusionDeterministic | src/query_rag.py:27-38 | The fusion of two rankings is unique, so the method's result is fully determined by its specification. |
| RankFusion.ExampleScores | src/query_rag.py:31-35 | Worked scores for dense [3,1,2] and sparse [1,3,4] with k = 60: ids 3 and 1 both get 1/61 + 1/62, and ids 2 and 4 get 1/63. |
| RankFusion.TieBreakExample | src/query_rag.py:27-38 | For dense [3,1,2] and sparse [1,3,4] with k = 60, the fused order is [3,1,2,4]. |
| Common.Strip | src/query_rag.py:24 | The result is the input with leading and trailing whitespace removed, and it neither starts nor ends with whitespace. |
| Common.StripAllSpace | src/query_rag.py:23-24 | Stripping an all-whitespace string gives the empty string. |
| Common.FirstSeen | src/query_rag.py:29-35 | The dict's key order has no duplicates and holds exactly the ids seen. |
| Common.FirstSeenOrder | src/query_rag.py:29-35 | In the dict's key order, `x` comes before `y` exactly when `x` first occurs before `y` in the input. |
| QueryRag.LastTurns | src/query_rag.py:14 | The slice `history[-n:]` for a positive n (the source uses n = 4): the length is the smaller of n and the history length, and the entries are the last ones, in order. |
| QueryRag.RecentMemory | src/query_rag.py:14 | The memory of the rewrite prompt is empty without history, and with one to four turns it is the same text as the memory block of the answer prompt. |
| QueryRag.RecentMemoryWindow | src/query_rag.py:14 | Only the last four turns reach the rewrite prompt. Turns before them do not change it. |
| QueryRag.RewriteQuery | src/query_rag.py:9-25 | Without history, the model is not asked and the question comes back unchanged. With history, the model is asked exactly once, with the rewrite prompt over the recent memory. A non-empty reply comes back stripped. An empty or missing reply gives back the question. |
| QueryRag.RewritePrompt | src/query_rag.py:15-20 | The rewrite prompt starts with the instruction, the chat-history label and the memory, and ends with the follow-up label, the question and the standalone-question label. |
| QueryRag.RewritePromptQuestion | src/query_rag.py:15-20 | For the same memory, different questions give different rewrite prompts: the prompt carries the question. |
| QueryRag.WhitespaceReplyGivesEmptyQuery | src/query_rag.py:22-25 | A whitespace-only reply yields the empty query, not the question. |
| QueryRag.TopK | src/query_rag.py:85 | The result is the first min(4, n) fused ids. |
| QueryRag.Lookup | src/query_rag.py:90-91 | A metadata index is found exactly when it lies in [-len, len). A negative index counts from the end, and any other index is an IndexError. |
| QueryRag.SourceBlockReadsBack | src/query_rag.py:92 | A context block (`SourceBlock`) reads back (header up to the first `]`, a newline, then the text) to the chunk it was made from whenever the source holds no `]`. |
| QueryRag.SelectChunks | src/query_rag.py:87-94 | On success, the chunks are those at the top ids, in order. Each block is the source-header form of its chunk, and the sources are the distinct sources in first-seen order. On failure, the position given is the first id whose lookup raises. |
| QueryRag.SelectStep | src/query_rag.py:89-94 | One iteration of the selection loop extends the chunk, block and source lists for the next id. |
| QueryRag.CitationList | src/query_rag.py:93-94 | The source list has no duplicates. It holds every selected chunk's source and no other, ordered by first appearance among the chunks. |
| QueryRag.Context | src/query_rag.py:97 | No blocks give an empty context and one block is the context on its own. |
| QueryRag.ContextAppend | src/query_rag.py:97 | Each further block is added at the end of the context behind a `---` rule. |
| QueryRag.MemoryBlock | src/query_rag.py:98 | The memory slot holds the no-memory note exactly when the history is empty. A turn line always holds a `:` and the note does not, so history never reads as the note. |
| QueryRag.MemoryBlockAppend | src/query_rag.py:98 | Each further turn adds one `role: text` line at the end of the memory block. |
| QueryRag.AnswerPromptSlots | src/query_rag.py:100-117 | Whatever the inputs, the answer prompt (`AnswerPrompt`) starts with the fixed instructions and the context slot. The memory sits at a fixed offset behind its header. The prompt ends with the question slot: the question, a newline and the closing indentation. |
| QueryRag.PartsText | src/query_rag.py:125 | Joining the parts' texts fails exactly when some part raises on access to its text. |
| QueryRag.Yielded | src/query_rag.py:122-128 | The stream yields at most one text per unit, and one for every unit exactly when every unit has a non-empty `parts` with no part that raises. |
| QueryRag.StreamAnswer | src/query_rag.py:122-128 | The generator loop yields exactly the specified sequence: one text per stream unit that has a non-empty `parts` and whose join does not raise, in stream order. |
| QueryRag.YieldedAppend | src/query_rag.py:122-128 | The output of a concatenated stream is the concatenation of the outputs. |
| QueryRag.SkipMalformed | src/query_rag.py:123-128 | A malformed unit anywhere in the stream is skipped without affecting the rest of the output. |
| QueryRag.TextlessUnitYieldsEmpty | src/query_rag.py:124-126 | A unit whose parts all lack text still yields, and it yields the empty string. |
| QueryRag.Evaluate | src/query_rag.py:67-128 | The standalone query is the rewrite of the question. The fused ids are the RRF fusion (k = 60) of the two retrievers' results for that query. The selection is that of the top four fused ids. The prompt is built from the joined context blocks, the whole history (or the no-memory note) and the original question. The output is the filtered stream for that prompt. A metadata IndexError reports the fusion and the first failing position. |
| HandbookScraper.CleanHtml | src/handbook_scraper.py:63-74 | Strings, dicts and lists keep their kind. A string with both `<` and `>` becomes its extracted text, and any other string is unchanged. Other scalars are unchanged. Containers never grow. |
| HandbookScraper.CleanItems | src/handbook_scraper.py:71-72 | A cleaned list is no longer than the input and holds no missing value. |
| HandbookScraper.CleanMembers | src/handbook_scraper.py:69-70 | A cleaned dict holds no missing value. Its keys come from the input, and distinct keys stay distinct. |
| HandbookScraper.Filter | src/handbook_scraper.py:70-72 | The reference filter keeps exactly the elements the predicate accepts. |
| HandbookScraper.CleanItemsFilterMap | src/handbook_scraper.py:71-72 | A cleaned list is exactly the cleaned elements that are neither missing nor empty strings, in input order. |
| HandbookScraper.CleanMembersFilterMap | src/handbook_scraper.py:69-70 | A cleaned dict is exactly the members whose value is neither missing nor an empty string, in input order, each value cleaned. |
| HandbookScraper.CleanMembersGet | src/handbook_scraper.py:69-70 | A key maps to its cleaned value after cleaning if its value was kept. It is absent if its value was missing or empty, or if it was never present. |
| HandbookScraper.CleanHtmlNullFree | src/handbook_scraper.py:63-74 | After cleaning, no dict or list, however deeply nested, holds a missing value. |
| HandbookScraper.EmptiedListKept | src/handbook_scraper.py:70-72 | Members are filtered before cleaning, so a list that cleaning empties is still kept. |
| HandbookScraper.EmptiedStringKept | src/handbook_scraper.py:64-72 | A markup string whose text is empty is kept as the empty string. |
| SourceUrlsScraper.LeadingDigits | src/source_urls_scraper.py:48 | The length of the run of digits at the start of a title is maximal. |
| SourceUrlsScraper.StripNumbering | src/source_urls_scraper.py:48 | A title without leading numbering is unchanged. Otherwise a numbering prefix (digits, a dot, whitespace) is removed, and what remains does not start with whitespace. |
| SourceUrlsScraper.NumberingRemovedOnce | src/source_urls_scraper.py:48 | For a title of the form digits + ". " + rest, with rest not starting with whitespace, the result is exactly rest. Numbering inside rest is untouched. |
| SourceUrlsScraper.LinkOf | src/source_urls_scraper.py:45-49 | An anchor's link has the anchor's `href` as its URL. Its title is the anchor text, or, when the text starts with numbering, the text after a numbering prefix. |
| SourceUrlsScraper.LinksOfAppend | src/source_urls_scraper.py:42-49 | The links of consecutive category lists concatenate. |
| SourceUrlsScraper.LinksOfLength | src/source_urls_scraper.py:42-49 | There is one link per anchor over all categories. |
| SourceUrlsScraper.LinksOfPositions | src/source_urls_scraper.py:42-49 | In the specified link list (`LinksOf`), the link of anchor j of category c sits at position (anchors of the earlier categories) + j, and it is that anchor's cleaned title with its href. |
| SourceUrlsScraper.BuildLinks | src/source_urls_scraper.py:42-49 | The nested loops succeed exactly when every anchor has an `href`, and then return the specified links. Otherwise they report the first anchor, in document order, without one. |
| SourceUrlsScraper.GpaLandingIgnoresCase | src/source_urls_scraper.py:52 | The GPA-landing test (`IsGpaLanding`) gives the same answer on a URL and on its lowercased form: it ignores ASCII case. |
| SourceUrlsScraper.GpaUrl | src/source_urls_scraper.py:52 | The result is absent exactly when no link's URL contains "results/gpa" without "calculator" (case-insensitive). Otherwise it is the URL of the first such link. |
| SourceUrlsScraper.CgpaLinks | src/source_urls_scraper.py:63-66 | Every appended link is titled "CGPA Calculator", and its URL contains "cgpa-calculator". |
| SourceUrlsScraper.CgpaHrefNotLanding | src/source_urls_scraper.py:52-65 | A URL that passes the CGPA test (`IsCgpaHref`) contains "calculator", so it never passes the GPA-landing test. |
| SourceUrlsScraper.CgpaLinksComplete | src/source_urls_scraper.py:63-66 | Every qualifying href on the GPA page gives an appended link. |
| SourceUrlsScraper.AppendCgpaLinks | src/source_urls_scraper.py:63-66 | The loop appends exactly the CGPA links of the page's hrefs, in order, after the existing links. |
| SourceUrlsScraper.ScrapeLinks | src/source_urls_scraper.py:42-66 | Success comes exactly when every sidebar anchor has an `href`. The sidebar links come first. The CGPA links of the first GPA landing page are appended when such a page exists and has a main content block. A missing `href` reports the first such anchor. |

## Left out

- I/O and services, each replaced by a parameter: the Gemini calls, the
  sentence-embedding model, the FAISS and BM25 indices, and the browser's
  page fetches. The retrievers' top-5 cut-off and the embedding
  normalisation happen inside those parameters and are not modelled.
- The set-up part of `evaluate` is not modelled: reading the API key,
  configuring the model, and loading the index and metadata files.
- The informational `print` calls are not modelled: the rewritten query,
  the skipped-chunk warning and the fetched GPA page.
- Floating point: RRF scores are exact reals. Two ids whose float sums
  differ only by rounding can therefore be ordered differently than in the
  source.
- RankFusion.ReciprocalRankFusion: `k` is a natural number. A negative `k`
  could make the source divide by zero; the source always uses 60.
- SourceUrlsScraper.StripNumbering: `\d` is taken as the ASCII digits.
  Python also matches other Unicode decimal digits.
- SourceUrlsScraper.Lower: lowercasing is ASCII-only. No other character
  lowercases to a letter of "results/gpa" or "calculator", so the GPA test
  is unaffected.
- Exceptions other than the IndexError of the metadata lookup and the
  KeyError of a missing `href` are not modelled. This covers a metadata
  row without `text` or `source`, a failing model call, and an error raised
  by the stream itself rather than by a unit. They propagate in the source.
- QueryRag.RewriteQuery: the model's reply is `None` for a falsy response
  object and otherwise the response text. An exception raised while reading
  the text is not modelled.
- HandbookScraper.CleanHtml: the HTML-to-text step (BeautifulSoup's
  `get_text` with a literal backslash-n separator and stripping) is the parameter
  `extract`. Integers and floats are both `Num`.
- The rest of `scrape_url` is not modelled: the page loading and waits, the
  sidebar and main-content queries, and the anchor text extraction. The
  anchors and their stripped texts are inputs.
- The rest of `src/handbook_scraper.py` is not part of this model:
  `fetch_unit_codes`, the page fetch, the embedded-JSON extraction and the
  output formatting.
- `src/pipeline.py`, `main.py`, chunking and index building are not part of
  this model.
- Concurrency (the async browser session) is not modelled.
