# HackRx LLM query system: chunker, keyword selector and query loop

A Dafny model of the deterministic core of the HackRx document question
answering service:

- **Word chunker** (`Chunker.ChunkText`, from `chunk_text`). It splits a text
  into whitespace-delimited words and groups them, in order, into chunks of
  `max_words` words joined by single spaces. A non-empty remainder becomes one
  more chunk. The model keeps the source's buffer-and-seal loop.
- **Keyword-overlap top-k selector** (`Search.SimpleSimilaritySearch`, from
  `simple_similarity_search`). It scores every chunk by the number of distinct
  lower-cased words it shares with the question. The `(overlap, index)` pairs
  go into an array, which an insertion sort (`Ranking.SortInPlace`) orders
  largest first in place. The chunks of the first `top_k` pairs are returned.
  `Search.TopK` is the reference definition of the result.
- **Query loop** (`Query.RunQuery`, from `run_query`). An empty chunk list is
  refused with the 400 error. Otherwise, for each question in order, it
  selects up to three chunks (`min(3, len(chunks))`), joins them by newlines
  into the context, asks the
  answerer, and records the answer with a justification listing the chunks as
  `"\n- "` bullets. The missing-key check of `get_llama3_answer` (500 error)
  is modelled in `Query.GetAnswer`.

Modules:

| module | role |
|---|---|
| `Words` | Python's argument-less `str.split()`, `sep.join`, and `str.lower()` on ASCII letters |
| `Chunker` | the reference grouping `Groups`, the chunking contract `IsChunking` and the method `ChunkText` |
| `Ranking` | the `(overlap, index)` order, the reference sort `SortDesc` and the in-place sort `SortInPlace` |
| `Search` | overlap scores, the reference selection `TopK` and the method `SimpleSimilaritySearch` |
| `Query` | the errors, context and justification strings, and the method `RunQuery` |
| `Examples`, `SearchExample` | worked examples, proved as lemmas |

Boundaries of the model:

- `str.split()` splits on runs of the characters Python's `str.isspace`
  accepts (`Words.IsSpace`).
- `max_words < 1` is modelled as the code behaves. The guard
  `len(chunk) >= max_words` then fires after every word, so the effective
  width is `Chunker.Width(maxWords) = max(1, maxWords)`.
- `top_k` follows Python's slice `scores[:top_k]`, negative values included
  (`Search.PrefixLen`).
- Everything outside the core is a parameter of `RunQuery`:
  - `process` is the document-to-chunks step;
  - `apiKey` is the configured key, where `""` stands for unset or empty;
  - `llm` is the chat-completion call.

**Ties between equally scored chunks.** The code sorts the tuples
`(overlap, index)` with `reverse=True`, so among equal overlaps the
**higher** index comes first, both in the order of the result and at the
`top_k` cut. `Search.SelectedOrder` states the order and
`Search.SelectedDominates` the cut. `SearchExample.RankExample` shows both on
a concrete input: with one chunk tied against another, `top_k = 2` keeps the
later of the two.

Rows whose third column begins "definition:" name a function that
transcribes a source expression. Its contract only restates that
expression, and the row names the members where its properties are proved.

## Model

| member | source | states |
|---|---|---|
| Words.IsSpace | chunker.py:34 | definition: the characters Python's `str.isspace` accepts, on whose runs the argument-less `split()` splits; properties in `Words.Split` and `Words.SplitEmptyIffBlank` |
| Words.Join | chunker.py:41 | definition: `sep.join(ws)`; properties in `Words.SplitJoin` and `Words.JoinAsPrefixed` |
| Words.Split | chunker.py:34 | `text.split()` yields only non-empty, whitespace-free words |
| Words.SplitJoin | chunker.py:41 | joining whitespace-free words with `" "` and splitting again gives back exactly those words |
| Words.SplitAroundSpace | chunker.py:34 | splitting two texts separated by a whitespace character gives the words of the first followed by the words of the second |
| Words.SplitEmptyIffBlank | chunker.py:34 | `split()` gives no words exactly when every character of the text is whitespace |
| Words.Lower | main.py:24 | definition: `s.lower()` on ASCII letters, character by character; properties in `Words.LowerIdempotent` and `Search.OverlapIgnoresCaseAndRepeats` |
| Words.LowerIdempotent | main.py:24 | lower-casing twice is the same as lower-casing once |
| Words.JoinAsPrefixed | main.py:87 | `sep.join(ws)` is the first element followed by `sep + w` for every later element `w` |
| Chunker.Width | chunker.py:40 | definition: the group width the `len(chunk) >= max_words` guard produces, `max(1, max_words)`; properties in `Chunker.ChunkText` and `Chunker.ChunkEdgeCases` |
| Chunker.Groups | chunker.py:38-45 | definition: the words cut, in order, into runs of `k`, the last run shorter; properties in `Chunker.GroupsFlatten`, `Chunker.GroupsSizes` and `Chunker.GroupsCount` |
| Chunker.ChunkStrings | chunker.py:41 | definition: `" ".join(chunk)` applied to each group in order, as the sealing at chunker.py:41 and chunker.py:45 does; properties in `Chunker.ChunkWords` and `Chunker.ChunkingContract` |
| Chunker.ChunkText | chunker.py:33-48 | the buffer-and-seal loop returns exactly the reference grouping of `text.split()` into runs of `Width(max_words)` words joined by `" "`, and that result satisfies the chunking contract: no chunks iff no words, the chunks' own words laid end to end are `text.split()`, every chunk has 1 to `k` words, every chunk but the last has exactly `k`, and there are ceil(words / k) chunks |
| Chunker.SealedChunks | chunker.py:44-45 | when the loop ends, the sealed chunks plus the non-empty remainder are the reference grouping |
| Chunker.ChunkingContract | chunker.py:34-45 | the reference grouping of any sequence of words meets the chunking contract |
| Chunker.ChunkWords | chunker.py:41 | splitting each chunk string gives back that chunk's words |
| Chunker.GroupsOfSealed | chunker.py:38-45 | full groups of `k` followed by a remainder shorter than `k` are exactly the grouping of their concatenation |
| Chunker.GroupsFlatten | chunker.py:38-45 | grouping loses no word and keeps the order |
| Chunker.GroupsSizes | chunker.py:38-45 | every group has between 1 and `k` elements, and every group but the last has exactly `k` |
| Chunker.GroupsCount | chunker.py:38-45 | the number of groups is ceil(n / k) |
| Chunker.GroupsItems | chunker.py:38-45 | every element of every group is an element of the input |
| Chunker.SingleGroup | chunker.py:40-45 | 1 to `k` elements form exactly one group |
| Chunker.UnitGroups | chunker.py:39-42 | with width 1 every element is a group of its own |
| Chunker.ChunkEdgeCases | chunker.py:34-45 | blank text gives no chunks, never one empty chunk; a `max_words` at least the word count (with at least one word) gives one chunk holding every word; `max_words <= 1` gives one chunk per word |
| Examples.ChunkFiveWordsByTwo | chunker.py:33-48 | "A B C D E" with `max_words = 2` gives "A B", "C D", "E" |
| Ranking.AtLeast | main.py:29-30 | definition: Python's `>=` on the tuples `(overlap, index)`; properties in `Ranking.AtLeastTotalOrder` |
| Ranking.SortDesc | main.py:30 | definition: the reference insertion sort, largest first; properties in `Ranking.SortDescCorrect` and `Ranking.DescendingUnique` |
| Ranking.AtLeastTotalOrder | main.py:29-30 | tuple order on `(overlap, index)` is reflexive, total, antisymmetric and transitive |
| Ranking.InsertPermutes | main.py:30 | inserting into the reference sort adds exactly that one element |
| Ranking.InsertSorted | main.py:30 | inserting into a descending list keeps it descending |
| Ranking.SortDescCorrect | main.py:30 | the reference sort is a descending permutation of its input |
| Ranking.DescendingUnique | main.py:30 | two descending orderings of the same multiset of scores are equal, so every correct sort gives the same list |
| Ranking.SortInPlace | main.py:30 | `scores.sort(reverse=True)` leaves the array descending, a permutation of the old contents, and equal to the reference sort of them |
| Ranking.InsertInPlace | main.py:30 | one insertion step extends the descending prefix by one, permutes the array and leaves the part after the prefix untouched |
| Ranking.DistinctCount | main.py:26-29 | a list without repeats holds every value at most once |
| Search.WordSet | main.py:24 | definition: `set(s.lower().split())`, used for the question (main.py:24) and each chunk (main.py:27); properties in `Search.OverlapIgnoresCaseAndRepeats` |
| Search.Overlap | main.py:28 | definition: `len(question_words.intersection(chunk_words))`; properties in `Search.OverlapBound` and `Search.OverlapIgnoresCaseAndRepeats` |
| Search.Scores | main.py:25-29 | definition: the `scores` list, `(overlap, i)` for each chunk in order; properties in `Search.RankedIsPermutation` and `Search.RankedIndicesBijective` |
| Search.Ranked | main.py:30 | definition: `scores` after `scores.sort(reverse=True)`, taken as the reference sort of the scores; properties in `Search.RankedIsPermutation` and `Search.RankedIndicesBijective` |
| Search.Selected | main.py:31 | definition: the indices `i` of `scores[:top_k]`; properties in `Search.SelectedDistinct`, `Search.SelectedOrder` and `Search.SelectedDominates` |
| Search.PrefixLen | main.py:31 | definition: the length of the slice `scores[:top_k]`, negative `top_k` counting from the end; properties in `Search.TopKLength` |
| Search.ChunksAt | main.py:31 | definition: the comprehension `[chunks[i] for _, i in rs]`; properties in `Search.ChunksAtPermutes` and `Search.TopKAll` |
| Search.TopK | main.py:31 | definition: the chunks of the first `top_k` sorted scores; properties in `Search.TopKLength`, `Search.SelectedDistinct`, `Search.SelectedOrder`, `Search.SelectedDominates` and `Search.TopKAll` |
| Search.SimpleSimilaritySearch | main.py:23-31 | filling the array, sorting it in place and slicing returns exactly the reference selection `TopK` |
| Search.ScoreChunks | main.py:24-29 | the scoring loop fills a new array with exactly the scores list, `(overlap, i)` for each chunk in order |
| Search.RankedIsPermutation | main.py:29-30 | the sorted scores are a descending permutation of the scores, and each entry's overlap is that of the chunk it points at |
| Search.RankedIndicesBijective | main.py:26-30 | the sorted list names every chunk index exactly once |
| Search.TopKLength | main.py:25-31 | the result has `min(top_k, len(chunks))` entries for `top_k >= 0` and `max(0, len(chunks) + top_k)` for a negative `top_k`, and no chunks give an empty result |
| Search.SelectedDistinct | main.py:26-31 | the selected indices are valid and pairwise distinct |
| Search.SelectedOrder | main.py:29-31 | the selection is in strictly descending `(overlap, index)` order: a higher overlap first, and among equal overlaps the higher index first |
| Search.SelectedDominates | main.py:30-31 | every selected chunk's overlap is at least that of every unselected chunk, and its `(overlap, index)` pair is at least the unselected one's, so a tie at the `top_k` cut is won by the higher index |
| Search.TopKAll | main.py:30-31 | with `top_k >= len(chunks)` the result is a permutation of the chunks |
| Search.ChunksAtPermutes | main.py:31 | two orderings of the same scores select two orderings of the same chunks |
| Search.OverlapBound | main.py:24-28 | an overlap never exceeds the number of distinct question words |
| Search.OverlapIgnoresCaseAndRepeats | main.py:24-28 | lower-casing the question or the chunk, or doubling either as `s + " " + s`, changes no overlap |
| SearchExample.RankExample | main.py:23-31 | for the question "c d" and the chunks "A B", "C D", "E": `top_k = 1` gives "C D"; `top_k = 2` gives "C D", "E", because the tie between "A B" and "E" goes to the later chunk; `top_k = 3` gives "C D", "E", "A B" |
| SearchExample.ScoresExample | main.py:25-29 | the example's scores are `(0, 0)`, `(2, 1)`, `(0, 2)` |
| SearchExample.RankedExample | main.py:30 | the example's sorted scores are `(2, 1)`, `(0, 2)`, `(0, 0)` |
| Query.Status | main.py:40 | definition: the status codes of the two errors, 500 here and 400 at main.py:78; `Query.RunQuery` and `Query.AnswerAll` state which code each error path returns |
| Query.Detail | main.py:78 | definition: the detail texts of the two errors, here and at main.py:40; no contract uses it, and `Query.RunQuery` names the errors by constructor |
| Query.Context | main.py:83 | definition: `"\n".join(matched)`; properties in `Query.AnsweredShape` |
| Query.Justification | main.py:87 | definition: `"Based on these document chunks:\n- " + "\n- ".join(matched)`; properties in `Query.JustificationBullets` |
| Query.GetAnswer | main.py:38-40 | definition: the missing-key check of `get_llama3_answer`, then the answerer's reply; its use is proved in `Query.AnswerOne` and `Query.RunQuery` |
| Query.Answered | main.py:82-88 | definition: the record built for one question, its answer for the newline-joined selection and its justification; properties in `Query.AnsweredShape` |
| Query.AnswerOne | main.py:82-88 | one question gives the missing-key error exactly when the key is unset, and otherwise the record of the reply to the newline-joined selection and its justification |
| Query.RunQuery | main.py:74-90 | no chunks give the 400 error before any question is asked; otherwise a missing key with at least one question gives the 500 error; every error returned has status 400 when there are no chunks and 500 otherwise; otherwise the result is one record per question, in input order, each built from that question's selection of up to three chunks |
| Query.AnswerAll | main.py:80-90 | for a non-empty chunk list, the loop fails exactly when there is a question and no key, with the 500 error, and otherwise returns one record per question, in input order |
| Query.JustificationBullets | main.py:87 | the justification is the header followed by one `"\n- "` bullet per matched chunk, in selection order |
| Query.AnsweredShape | main.py:82-87 | each record lists `min(3, len(chunks))` chunks of the document, and the answerer was given the same chunks joined by `"\n"` |

## Left out

- Downloading and extracting the PDF (`download_pdf`, `extract_text_from_pdf`), `process_pdf_and_chunk`, `save_chunks_to_json` and the interactive `__main__` block of chunker.py: network, file and console I/O. The document-to-chunks step is the function parameter `process` of `RunQuery`. main.py imports `process_pdf_from_url`, which chunker.py does not define, so neither name is modelled.
- The HTTP call of `get_llama3_answer`, its prompt text and its error-to-text fallback: an external service. The reply is the function parameter `llm`, which also stands for the `"Error generating answer: …"` text returned when the call fails.
- Environment variables: `GROQ_API_KEY` is the parameter `apiKey`, with `""` for both unset and empty; `GROQ_MODEL` is not used by the model.
- FastAPI setup, the `/`, `/health` and HEAD routes, the request type and the uvicorn launch: framework glue.
- The `print` logging in `chunk_text`: output only.
- Words.Lower: lower-cases ASCII letters only. Python's `str.lower()` covers all Unicode letters and can change the length of a string.
- Default arguments (`max_words=300`, `top_k=3`) are not modelled: the model's callers always pass the values explicitly, as `run_query` does with `top_k=3`.
- Search.SimpleSimilaritySearch: the scores are written into an array of the final size, where the source appends to a list; the contents and order are the same.
- The JSON shape of the response (`{"answers": [...]}` with `answer` and `justification` keys) is the datatype `Query.AnswerRecord`; serialization is not modelled.
- Query.RunQuery: `llm` is a pure function, so two equal questions about the same chunks get the same answer. The real call samples at temperature 0.3 and can fail transiently, so repeated questions may be answered differently; the model does not capture that.
- Raising `HTTPException` is modelled as returning the error value `Query.HttpError`; `Query.Status` and `Query.Detail` give its code (400 or 500) and its detail text.
