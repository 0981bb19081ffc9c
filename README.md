# Paper agent: the curation pipeline in Dafny

This project models the decision logic of a scheduled research-curation agent
(`paper_agent.py`). Each run does the following:

1. It fetches recent entries from a paper feed.
2. It drops entries already recorded in a persistent history, stopping at the first new entry older than a four-day window.
3. It orders the admitted papers newest first and keeps at most 15.
4. It asks a language-model classifier about each one, passing a digest of the history titles.
5. It renders every relevant paper into an email digest.
6. It writes only the first 5 relevant papers back to the history.

The modules follow the pipeline:

- `Wrappers` (wrappers.dfy): `Option` and `Result`.
- `Text` (text.dfy): `sep.join(parts)`, and splitting at a character, which undoes such a join.
- `Papers` (papers.dfy): the admitted paper record and the newest-first predicate.
- `HistoryStore` (history.dfy): the history dictionary. A Python dictionary keeps insertion order, and that order shows in the classifier prompt, so the model keeps it too. The history is a key order plus a map. `Put` is `history[k] = v`. `PutAll` is a loop of such assignments. `Load` is `load_history`: a missing file, one that cannot be opened or read, or one whose text is not valid JSON gives the empty history; a JSON object gives the dictionary its pairs build.
- `CandidateFilter` (filter.dfy): `parse_and_filter_papers`. `Scan` is the entry loop as a specification function. `ParseAndFilter` is the loop itself, as a method with `continue`, `break` and an early `return` for a raised exception. The Python `list.sort(key=..., reverse=True)` is a stable newest-first sort.
- `Relevance` (relevance.dfy): `history_summary`, the prompt, and the relevance loop of `main`. The loop is `SelectRelevant`; its specification is `KeepRelevant` over the classifier's replies. The classifier is a function parameter from prompt to `Option<Verdict>`; `None` stands for every path where `analyze_paper_with_history` returns `None`.
- `Renderer` (render.dfy): `format_email_html`, at the level of which page comes out and which cards it holds, in which order.
- `Agent` (agent.dfy): `main`. This holds the analysis cap, the history-update policy (`Recommend`, `RecordRecommendations`) and one whole run (`RunSpec`, `Run`). The stored history, the fetch result, the clock reading and the classifier are inputs.

Where the intended behaviour and the code differ, the model follows the code:

- **Malformed entries.** Our reading of the intent is that an entry with a missing field would be skipped, though the source states nothing about such entries. In the code, reading the missing field raises, and the catch-all handler in `main` ends the run with no email and no history update. The model returns `Crashed(BadEntry(...))` in that case, naming the first field found missing (`MalformedEntryCrashesRun`). An entry whose id is already in the history is skipped before any other field is read, so a malformed duplicate does not raise (`ScanIgnoresDuplicate`).
- **Incomplete classifier replies.** The classifier request lists `is_relevant`, `highlights_novelty`, `why_recommend` and `relevance_reason` as required keys of the reply (paper_agent.py:134), so a reply without them is evidently meant to count as unclassified. The code tests only `is_relevant`. A reply with `is_relevant` true but no `highlights_novelty` or `why_recommend` is kept. Rendering then raises `KeyError`, and the run ends with no email and no history update (`IncompleteReplyCrashesRun`).
- **Analysis cap.** The cap is applied by `main` to the sorted filter result, not inside the filter. The effect is the same: the candidates are a prefix of at most 15 of the sorted list.

## Model

| member | source | states |
|---|---|---|
| `HistoryStore.Put` | paper_agent.py:258 | assigning a key keeps every key listed once; a new key goes last and existing keys keep their places |
| `HistoryStore.PutAll` | paper_agent.py:257-258 | a sequence of assignments keeps the dictionary well formed and never reorders the keys already present |
| `HistoryStore.PutAllKeys` | paper_agent.py:257-258 | after the assignments the keys are the old keys plus the assigned ones |
| `HistoryStore.PutAllKeeps` | paper_agent.py:257-258 | a key not assigned keeps its old record |
| `HistoryStore.PutAllLastWins` | paper_agent.py:257-258 | an assigned key holds the value of its last assignment |
| `HistoryStore.PutAllFreshOrder` | paper_agent.py:257-258 | new, distinct keys are appended in assignment order |
| `HistoryStore.Load` | paper_agent.py:29-38 | a missing or unreadable history file gives the empty history; a readable one gives exactly the stored keys; the result is always well formed |
| `Text.SplitJoin` | paper_agent.py:93 | splitting a newline-join of newline-free lines at the newline gives back the lines |
| `CandidateFilter.AuthorNames` | paper_agent.py:79 | the author names are absent exactly when some author lacks a name; otherwise they are every name, in author order |
| `CandidateFilter.Build` | paper_agent.py:77-83 | building fails exactly when the title, an author name or the summary is missing, and reports the first missing one in the order title, authors, summary; a built paper carries the entry's id, publish time, title and summary, and its authors are the names joined with ", " |
| `CandidateFilter.ParseAndFilter` | paper_agent.py:60-87 | the loop returns exactly what the scan specification and the stable sort give, including the error a malformed entry raises |
| `CandidateFilter.ScanAdmitsOnlyNewAndFresh` | paper_agent.py:67-75 | no admitted paper's id is a history key, and every admitted paper is published at or after the window start |
| `CandidateFilter.ScanStopsAtStale` | paper_agent.py:72-75 | the scan ends at the first new, readable entry older than the window: entries after it, malformed or not, do not change the result |
| `CandidateFilter.ScanIgnoresDuplicate` | paper_agent.py:68-70 | removing an entry whose id is in the history does not change the result, so a stale or malformed duplicate neither stops the scan nor raises |
| `CandidateFilter.FaultOf` | paper_agent.py:68-83 | an entry that raises does so on its id exactly when the id is missing, on its date exactly when the id is present and the date missing, and otherwise on the field building the paper fails on |
| `CandidateFilter.FirstStale` | paper_agent.py:67-75 | the position where the scan ends is that of the first stale entry: no entry before it is stale, and it is the feed length when none is |
| `CandidateFilter.ScanExactly` | paper_agent.py:67-84 | the scan succeeds exactly when every entry before the first stale one is a duplicate or admissible, and then returns exactly the admissible entries before that point, as papers, in feed order |
| `CandidateFilter.ScanFailsAtFirstFault` | paper_agent.py:67-84 | when the first entry before the first stale one that is neither a duplicate nor admissible is at position j, the scan raises on the field that entry lacks |
| `CandidateFilter.InsertKeepsOrder` | paper_agent.py:86 | inserting into a newest-first list keeps it newest first |
| `CandidateFilter.SortIsNewestFirstPermutation` | paper_agent.py:86 | the sort yields a newest-first permutation of its input |
| `CandidateFilter.SortIsStable` | paper_agent.py:86 | papers with equal publish time keep their input order |
| `CandidateFilter.SortKeepsNewestFirst` | paper_agent.py:86 | a list already newest first is unchanged by the sort |
| `CandidateFilter.FilteredGuarantees` | paper_agent.py:60-87 | the filter's result is newest first and a stable permutation of the admitted papers; each paper is new to the history and inside the window |
| `Relevance.HistorySummaryNote` | paper_agent.py:93-95 | the history digest is never empty, and it is the first-paper note exactly when the history is empty |
| `Relevance.HistorySummaryLines` | paper_agent.py:93-95 | for a non-empty history with single-line titles, the digest is one "- title" line per record, in insertion order |
| `Relevance.KeepRelevant` | paper_agent.py:237-242 | the relevant papers number at most the candidates, and each is a candidate with its own reply attached, and that reply says relevant |
| `Relevance.AcceptedPositionsExactly` | paper_agent.py:240 | the kept positions rise strictly and are exactly those whose reply exists and has a truthy `is_relevant` |
| `Relevance.KeepRelevantExactly` | paper_agent.py:237-242 | the relevant papers are the candidates at the kept positions, in order, each with its own reply attached: an order-preserving subsequence, and a failed reply is never kept |
| `Relevance.KeepRelevantNewestFirst` | paper_agent.py:237-242 | selection from newest-first candidates stays newest first |
| `Relevance.SelectRelevant` | paper_agent.py:231-242 | the loop returns exactly the selection that the replies to the candidates' prompts determine |
| `Renderer.CardsExactly` | paper_agent.py:164-187 | cards are built exactly when every reply has both commentary keys, one card per paper in order; otherwise the error names the first incomplete paper and the first key it lacks |
| `Renderer.RenderExactly` | paper_agent.py:152-198 | the "nothing found" page comes out exactly for the empty list; a non-empty list gives a digest with one card per paper, in input order, or raises |
| `Agent.Take` | paper_agent.py:229 | a slice `[:n]` is a prefix of length `min(n, len)` |
| `Agent.Candidates` | paper_agent.py:229 | the candidates exist exactly when the filter succeeds; they are a prefix of its result of length `min(15, len)`; a filter error propagates unchanged |
| `Agent.Recommend` | paper_agent.py:256-259 | the history is saved exactly when there is a relevant paper |
| `Agent.RecordRecommendations` | paper_agent.py:256-259 | the update loop saves exactly the history `Recommend` specifies, or nothing when no paper is relevant |
| `Agent.RecommendKeys` | paper_agent.py:256-258 | the saved history gains exactly the ids of the first 5 relevant papers, and older records are unchanged |
| `Agent.RecommendAppends` | paper_agent.py:257-258 | new, distinct ids are appended in digest order, each mapped to its paper's title and summary |
| `Agent.Run` | paper_agent.py:222-265 | one run of `main` produces exactly the outcome the run specification gives |
| `Agent.RelevantAreNew` | paper_agent.py:229-242 | no relevant paper's id was in the history the run started from |
| `Agent.RunAsymmetry` | paper_agent.py:244-259 | a completed run shows every relevant paper in the digest, one card per paper in order, each card that paper's card, or the "nothing found" page when there is none; it saves the history only when something is relevant, adding exactly the ids of the first 5; relevant papers past the cap stay out of the saved history |
| `Agent.NoRepeatAfterSave` | paper_agent.py:229-259 | a later run against the saved history never admits a paper this run wrote to it |
| `Agent.CandidatesExactly` | paper_agent.py:60-87 | a run has candidates exactly when no entry before the first stale one is faulty, and they are then the first 15 of the admissible entries before that point, newest first |
| `Agent.MalformedEntryCrashesRun` | paper_agent.py:67-83 | the first new entry before the first stale one that lacks its id, its date or a paper field ends the run in the catch-all handler with no email and no history save, naming that field |
| `Agent.IncompleteReplyCrashesRun` | paper_agent.py:237-265 | a relevant reply lacking `highlights_novelty` or `why_recommend` ends the run in the catch-all handler, with no email and no history save |
| `Agent.DigestNewestFirst` | paper_agent.py:229-246 | the cards of a completed run are newest first |

## Left out

- Feed retrieval (`fetch_arxiv_papers`, paper_agent.py:45-58) is HTTP transport. Its result is an input: a transport error, or the entries in delivered order.
- XML parsing (ElementTree, namespace lookups, `.strip()` and the newline replacement of paper_agent.py:78-80) is not modelled. Entries arrive with their fields already extracted and normalised. A field is `None` when its element or its text is missing, and reading it raises.
- An `<id>` element present but with empty text gives a `None` id in the source; that id is not a history key and flows on instead of raising. The model treats it like a missing id element, which raises.
- Timestamp parsing (`strptime`) and the clock (`datetime.now()`) are not modelled. Publish times and the current time are integers of seconds, and an unparsable timestamp counts as a missing one. The naive-local against UTC comparison is not modelled.
- The classifier call (paper_agent.py:97-150) is not modelled: prompt wording, HTTP request, response unwrapping and JSON decoding. The reply is a function of the prompt's content. Identical prompts therefore get identical replies, which the real service does not promise.
- A reply that decodes to a JSON value other than an object is not modelled. If such a value is truthy, `.get` raises at paper_agent.py:240 and ends the run. The model's replies are always objects or `None`.
- Load: `load_history` catches only `json.JSONDecodeError` and `IOError` (paper_agent.py:37). A file whose bytes are not valid in the locale encoding raises `UnicodeDecodeError`, and top-level JSON `null`, a number or a boolean makes `len(history)` raise at paper_agent.py:225; both stop the program before the fetch, outside the catch-all handler. A top-level array or string makes `history.keys()` raise at paper_agent.py:229, which ends the run in the handler. None of these is modelled: `Load` takes only a missing file, an unreadable or invalid-JSON file, or a JSON object.
- History file contents are assumed to be objects with `title` and `summary`. A stored record without `title` would raise at paper_agent.py:93; that case is not modelled. Writing the file (`save_history`) is not modelled beyond producing the history to save, and a failed write is not modelled either.
- Email delivery (`send_email`, paper_agent.py:200-220) is SMTP I/O and cannot end the run, so the model only produces the email body.
- The HTML and CSS text, the date strings (`strftime`) and the console output are not modelled. That output includes the count printed at paper_agent.py:260, which reports the number of relevant papers rather than the number written.
- Python's sort algorithm is not modelled. It is stood in for by a stable insertion sort: sorted, stable and a permutation, which determines the result.
- The source attaches each reply to its paper dictionary in place, and updates the history dictionary in place. The model builds new values instead, since nothing else holds a reference to them.
