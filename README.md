# Store assistant retrieval core, modelled in Dafny

This project models the deterministic core of a retrieval-augmented store
operations assistant. The assistant ingests policy documents into numbered
word-window chunks and keeps a vector index whose row `i` is chunk `i`. For
each question it either retrieves and packs chunks into a prompt context or
answers from a stockout-risk table.

The modules follow the program's files:

- `wrappers.dfy` (`Wrappers`): `Option` and `Result`, which stand in for
  `None` and raised errors.
- `text.dfy` (`Text`): the Python string built-ins the code relies on,
  written out over `seq<char>`. These are `str.isspace`, `strip`, `lower`,
  the substring test `k in s`, `join`, `split()` and `str(int)`.
  Whitespace is Python's `str.isspace` code-point list, which `split()` and
  `strip()` share.
- `ingest.dfy` (`Ingest`): `clean_text` and `chunk_text`, and the
  skip, numbering and error logic of `ingest_documents`. `chunk_text` is a
  method with its `while` loop. `ingest_documents` is a method with its
  `for` loops. Both are proved against specification functions.
- `rag.dfy` (`Rag`): `retrieve` after the index search (drop `-1`, map rows
  to chunks) and `build_context` (stop at the first block that overflows).
  Both are methods with their loops, proved against specification functions.
- `router.dfy` (`Router`): `route_query`, a keyword-substring vote.
- `safety.dfy` (`Safety`): `is_medical_advice_request`. Its seven regular
  expressions become ten literal phrases, each matched between word
  boundaries (`\b`).
- `app.dfy` (`App`): the `chat` dispatch. The order is blank query, then
  medical redirect, then routing. Citations are built from the kept chunks.
  The index search, the language model, the inventory query and the table
  renderer are function-typed fields of a `Services` value.

`build_context` budgets the blocks, not the `"\n"` placed between them, so
a context of several blocks can be longer than `max_chars`.
`Rag.ContextLength` gives the exact length. `kept` may be all of
`retrieved`.

## Model

| member | source | states |
|---|---|---|
| Text.IsSpace | cvs_slm_assistant/app/ingest.py:44-47 | the whitespace set of `str.isspace` that `strip()` and `split()` share: the ASCII controls 9-13 and 28-31, the space, and the Unicode separators |
| Text.Strip | cvs_slm_assistant/app/ingest.py:44 | `strip` returns `""` or a string that starts and ends with a non-whitespace character |
| Text.StripShape | cvs_slm_assistant/app/ingest.py:44 | `strip` returns a contiguous slice of its input, and everything it cuts off at either end is whitespace |
| Text.StripEmptyIff | cvs_slm_assistant/app/main.py:33-34 | a string strips to `""` exactly when it is all whitespace |
| Text.StripUnchanged | cvs_slm_assistant/app/ingest.py:44 | text that already starts and ends with a non-space is left as it is by `strip` |
| Text.Lower | cvs_slm_assistant/app/router.py:2 | `q.lower()` keeps the length and lower-cases each character on its own |
| Text.LowerIdempotent | cvs_slm_assistant/app/router.py:2 | lower-casing twice is lower-casing once |
| Text.Contains | cvs_slm_assistant/app/router.py:14-15 | `k in s` as a left-to-right scan; `Text.ContainsIffOccurs` states what it answers |
| Text.ContainsIffOccurs | cvs_slm_assistant/app/router.py:14-15 | the substring scan answers true exactly when the keyword occurs at some index |
| Text.ContainsTransitive | cvs_slm_assistant/app/router.py:14-15 | if `b` occurs in `a` and `a` occurs in `s`, then `b` occurs in `s` |
| Text.MissingCharNotContained | cvs_slm_assistant/app/router.py:14-15 | a keyword holding a character the text lacks is not found |
| Text.JoinWith | cvs_slm_assistant/app/rag.py:58 | `sep.join(parts)`: the parts with one separator between neighbours; its length and its inverse are stated by `Text.JoinWithLength` and `Text.WordsOfJoin` |
| Text.JoinWithLength | cvs_slm_assistant/app/rag.py:58 | a join is as long as its parts plus one separator per gap |
| Text.Words | cvs_slm_assistant/app/ingest.py:47 | every token `split()` returns is non-empty and free of whitespace (the lemmas below pin which tokens) |
| Text.WordsEmptyIff | cvs_slm_assistant/app/ingest.py:47 | `split()` returns no tokens exactly when the text is all whitespace |
| Text.WordsOfWord | cvs_slm_assistant/app/ingest.py:47 | a single whitespace-free non-empty string splits to itself |
| Text.WordsAfterSpace | cvs_slm_assistant/app/ingest.py:47 | leading whitespace contributes no token |
| Text.WordsBeforeSpace | cvs_slm_assistant/app/ingest.py:47 | trailing whitespace contributes no token |
| Text.TokenLenOfPrefix | cvs_slm_assistant/app/ingest.py:47 | a token ends at the same place whatever follows the whitespace that ends it |
| Text.WordsSplitAtSpace | cvs_slm_assistant/app/ingest.py:47 | `split()` cuts at every whitespace character: the tokens of `a + c + b` are those of `a` then those of `b` |
| Text.WordsCons | cvs_slm_assistant/app/ingest.py:47 | a character put in front either is dropped (whitespace), starts a new token, or joins the first token |
| Text.WordsConsAgree | cvs_slm_assistant/app/ingest.py:47 | texts with the same tokens that agree on starting with a token still agree after the same character is put in front |
| Text.WordsOfStrip | cvs_slm_assistant/app/ingest.py:44-47 | `s.strip().split() == s.split()` |
| Text.WordsOfJoin | cvs_slm_assistant/app/ingest.py:47-52 | splitting words that were joined by single spaces gives back the same words |
| Text.IntToString | cvs_slm_assistant/app/rag.py:52 | `str(chunk_id)` is non-empty, its digits, after a `-` for negative ids, denote the id, and it has no leading zero except `"0"` itself |
| Text.NatToString | cvs_slm_assistant/app/rag.py:52 | `str(n)` for `n >= 0`: decimal digits with no leading zero unless the number is 0; `Text.NatToStringValue` says they read back as `n` |
| Text.NatToStringValue | cvs_slm_assistant/app/rag.py:52 | the decimal digits written for a natural number read back as that number |
| Ingest.ReplaceNul | cvs_slm_assistant/app/ingest.py:41 | replacing NUL keeps the length, turns every NUL into a space, and changes nothing else |
| Ingest.CollapseBlanks | cvs_slm_assistant/app/ingest.py:42 | the blank collapse applied to the whole text, starting outside a run |
| Ingest.CollapseNewlines | cvs_slm_assistant/app/ingest.py:43 | the newline collapse applied to the whole text, starting with no newline written |
| Ingest.CollapseBlanksFrom | cvs_slm_assistant/app/ingest.py:42 | `re.sub(r"[ \t]+", " ", s)` as a scan that writes one space per run of blanks; its shape and word lemmas follow |
| Ingest.CollapseNewlinesFrom | cvs_slm_assistant/app/ingest.py:43 | `re.sub(r"\n{3,}", "\n\n", s)` as a scan that writes at most two newlines per run; its shape and word lemmas follow |
| Ingest.CleanText | cvs_slm_assistant/app/ingest.py:40-44 | the four rewrites of `clean_text` in order; `Ingest.CleanTextIsClean`, `Ingest.CleanTextIdempotent` and `Ingest.CleanTextKeepsWords` state its properties |
| Ingest.CollapseBlanksShape | cvs_slm_assistant/app/ingest.py:42 | after collapsing `[ \t]+` there is no tab, no two adjacent spaces, and no new NUL |
| Ingest.CollapseNewlinesShape | cvs_slm_assistant/app/ingest.py:43 | after collapsing `\n{3,}` there are never three newlines in a row, no new characters, and no new double space |
| Ingest.CollapsedHasNoRuns | cvs_slm_assistant/app/ingest.py:41-43 | after the three replacements there is no NUL, no tab, no double space and no triple newline |
| Ingest.StripKeepsClean | cvs_slm_assistant/app/ingest.py:44 | stripping text free of NUL, tabs, double spaces and triple newlines leaves it free of them, and without whitespace at either end |
| Ingest.CleanTextIsClean | cvs_slm_assistant/app/ingest.py:40-44 | `clean_text` output has no NUL, no tab, no double space, no triple newline, and no whitespace at either end |
| Ingest.CollapseBlanksUnchanged | cvs_slm_assistant/app/ingest.py:42 | text with no tab and no double space is unchanged by the blank collapse |
| Ingest.CollapseNewlinesUnchanged | cvs_slm_assistant/app/ingest.py:43 | text with no triple newline is unchanged by the newline collapse |
| Ingest.CleanTextIdempotent | cvs_slm_assistant/app/ingest.py:40-44 | `clean_text(clean_text(s)) == clean_text(s)` |
| Ingest.CollapseBlanksKeepsWords | cvs_slm_assistant/app/ingest.py:42 | collapsing blank runs keeps the words of the text, in order |
| Ingest.CollapseNewlinesKeepsWords | cvs_slm_assistant/app/ingest.py:43 | collapsing newline runs keeps the words of the text, in order |
| Ingest.CleanTextKeepsWords | cvs_slm_assistant/app/ingest.py:40-47 | `clean_text(s).split()` equals the words of `s` with NUL read as a space: cleaning loses no word |
| Ingest.Step | cvs_slm_assistant/app/ingest.py:53 | the advance is at least 1, and it is `chunk_size - overlap` unless that is below 2 |
| Ingest.Window | cvs_slm_assistant/app/ingest.py:51 | the slice `words[k*step : k*step+size]`, clipped to the word list as Python's slice is |
| Ingest.ChunksOf | cvs_slm_assistant/app/ingest.py:46-54 | the windows `words[k*step : k*step+size]`, `k` from 0 while the start is below the word count, each joined by single spaces |
| Ingest.ChunkText | cvs_slm_assistant/app/ingest.py:46-54 | the loop terminates for every overlap and returns exactly the windows `words[k*step : k*step+size]` joined by single spaces |
| Ingest.ChunkCount | cvs_slm_assistant/app/ingest.py:47-53 | there are `ceil(n/step)` chunks, and none exactly when the text has no words |
| Ingest.ChunkWords | cvs_slm_assistant/app/ingest.py:50-52 | with a positive size each chunk holds 1 to `chunk_size` words, and re-splitting it gives back its window |
| Ingest.WindowStartBelow | cvs_slm_assistant/app/ingest.py:50-53 | every window the loop produces starts at a word index below the word count |
| Ingest.WindowOfWord | cvs_slm_assistant/app/ingest.py:50-53 | word `j` lies in the window that starts at `(j / step) * step`, and that window is produced |
| Ingest.ChunksCoverWords | cvs_slm_assistant/app/ingest.py:50-53 | with a positive size and a non-negative overlap, every word lies in some chunk's window |
| Ingest.ConsecutiveChunksOverlap | cvs_slm_assistant/app/ingest.py:50-53 | with `0 <= overlap < size`, consecutive windows share exactly `min(overlap, words left)` words |
| Ingest.SixHundredWords | cvs_slm_assistant/app/ingest.py:46-54 | 600 words with 500/80 give exactly `words[0:500]` and `words[420:600]` |
| Ingest.LastDot | cvs_slm_assistant/app/ingest.py:76 | the index found is a `.` with no `.` after it, or -1 when there is none |
| Ingest.Suffix | cvs_slm_assistant/app/ingest.py:76-81 | `Path.suffix` is empty or a tail of the name that starts with its only `.` and is shorter than the name |
| Ingest.SuffixNonEmptyIff | cvs_slm_assistant/app/ingest.py:76-81 | the suffix is non-empty exactly when the name has a dot, neither first nor last, with no dot after it |
| Ingest.Supported | cvs_slm_assistant/app/ingest.py:76-84 | a file has a reader exactly when its lower-cased suffix is `.pdf`, `.docx` or `.txt` |
| Ingest.FileChunks | cvs_slm_assistant/app/ingest.py:76-92 | the chunk texts of one file: none when unsupported or blank after cleaning, else `chunk_text` with 500/80; `Ingest.FileChunksNonEmptyIff` states when it is empty |
| Ingest.Tag | cvs_slm_assistant/app/ingest.py:94-99 | one record per chunk text of a file, numbered on from `base`, carrying the file's name |
| Ingest.Number | cvs_slm_assistant/app/ingest.py:94-99 | contributions laid end to end, each record numbered by the count of records before it; `Ingest.NumberAligned` and `Ingest.NumberAppend` state its properties |
| Ingest.Records | cvs_slm_assistant/app/ingest.py:69-99 | the records of a batch of files; `Ingest.RecordsAligned`, `Ingest.RecordsSources` and `Ingest.RecordsEmptyIff` state its properties |
| Ingest.AppendRecords | cvs_slm_assistant/app/ingest.py:94-99 | the inner loop appends one record per chunk numbered `len(all_chunks)` and keeps record `i` at `chunk_id == i` |
| Ingest.IngestDocuments | cvs_slm_assistant/app/ingest.py:59-102 | no files gives `NoDocumentsFound` and no records gives `NoValidChunks`; otherwise the result is the records, file by file, aligned |
| Ingest.NumberSnoc | cvs_slm_assistant/app/ingest.py:94-99 | one more file's contribution appends its chunks numbered on from the records so far |
| Ingest.NumberAligned | cvs_slm_assistant/app/ingest.py:94-99 | in any numbered record list, record `i` has `chunk_id == i` |
| Ingest.RecordsAligned | cvs_slm_assistant/app/ingest.py:94-99 | ingestion's records satisfy `chunk_id == i` at position `i` |
| Ingest.NumberSources | cvs_slm_assistant/app/ingest.py:94-99 | every record carries the source name and one chunk text of the contribution it came from |
| Ingest.RecordsSources | cvs_slm_assistant/app/ingest.py:92-99 | every ingested record carries its file's name and one of that file's chunks |
| Ingest.RenumberAppend | cvs_slm_assistant/app/ingest.py:94-99 | shifting record numbers distributes over concatenation |
| Ingest.RenumberTag | cvs_slm_assistant/app/ingest.py:94-99 | numbering a file's chunks from a later base is numbering them and then shifting |
| Ingest.NumberAppend | cvs_slm_assistant/app/ingest.py:73-99 | the records of files `a + b` are those of `a`, then those of `b` numbered on from where `a` stopped |
| Ingest.FileChunksNonEmptyIff | cvs_slm_assistant/app/ingest.py:76-92 | a file contributes chunks exactly when its suffix is supported and its cleaned text is not blank |
| Ingest.NumberEmptyIff | cvs_slm_assistant/app/ingest.py:101-102 | numbering yields nothing exactly when every contribution is empty |
| Ingest.RecordsEmptyIff | cvs_slm_assistant/app/ingest.py:69-102 | ingestion yields no records exactly when every file is unsupported or blank after cleaning |
| Rag.ValidRows | cvs_slm_assistant/app/rag.py:43-45 | the kept rows are exactly the returned rows other than `-1`, never more of them |
| Rag.Retrieved | cvs_slm_assistant/app/rag.py:42-47 | result `k` is `chunks[r]` for the `k`-th non-padding row `r`, one per such row |
| Rag.Retrieve | cvs_slm_assistant/app/rag.py:42-47 | the loop skips each `-1` and returns exactly `Retrieved` |
| Rag.RetrievedIdsAreRows | cvs_slm_assistant/app/rag.py:46 | with an aligned store every retrieved chunk's `chunk_id` is the row it was fetched for |
| Rag.ValidRowsOfValid | cvs_slm_assistant/app/rag.py:43-45 | rows without `-1` are all kept |
| Rag.ValidRowsOfPadding | cvs_slm_assistant/app/rag.py:43-45 | valid rows followed by any number of `-1` padding rows filter back to the valid rows |
| Rag.ValidRowsAppend | cvs_slm_assistant/app/rag.py:43-45 | the valid rows of `a + b` are those of `a` followed by those of `b`, so the order of every row list is kept |
| Rag.RetrievedOfPaddedSearch | cvs_slm_assistant/app/rag.py:40-47 | a padded search returns exactly one chunk per valid row, none for the padding |
| Rag.Header | cvs_slm_assistant/app/rag.py:52 | the header line `[SOURCE: <source>`, then ` chunk_id=<id>]` after a bar, and a newline; `Rag.HeaderShape` states its shape |
| Rag.HeaderShape | cvs_slm_assistant/app/rag.py:52 | the block header is 23 characters longer than source and id together and opens with `[SOURCE: ` |
| Rag.Block | cvs_slm_assistant/app/rag.py:52 | a block is the header, the stripped text and a newline; `Rag.BlockShape` states its shape |
| Rag.BlockShape | cvs_slm_assistant/app/rag.py:52 | a block is 24 characters longer than source, id digits and stripped text together, opens with `[SOURCE: ` and ends with a newline |
| Rag.Blocks | cvs_slm_assistant/app/rag.py:51-52 | one block per retrieved chunk, in order |
| Rag.BlocksIndex | cvs_slm_assistant/app/rag.py:51-52 | block `i` is the block of retrieved chunk `i` |
| Rag.BlocksPrefix | cvs_slm_assistant/app/rag.py:51-52 | the blocks of the first `k` chunks are the first `k` blocks |
| Rag.BlockAt | cvs_slm_assistant/app/rag.py:52 | the block the loop formats for chunk `i` is block `i` of the specification |
| Rag.PrefixLenSnoc | cvs_slm_assistant/app/rag.py:57 | each kept block adds its length to the running total |
| Rag.PrefixLenMonotone | cvs_slm_assistant/app/rag.py:53-57 | the running block total never decreases |
| Rag.StopsAtUnique | cvs_slm_assistant/app/rag.py:53-54 | there is exactly one place where the greedy packer can stop |
| Rag.KeptCount | cvs_slm_assistant/app/rag.py:51-54 | the number of blocks the greedy scan keeps before the first that overflows |
| Rag.KeptFrom | cvs_slm_assistant/app/rag.py:51-57 | the greedy scan stops at a count whose blocks fit and whose next block would overflow |
| Rag.ContextOf | cvs_slm_assistant/app/rag.py:49-58 | the joined kept blocks and the kept chunks; `Rag.BuildContext` is proved equal to it and `Rag.ContextKeepsFittingPrefix` states what it keeps |
| Rag.ContextAtStop | cvs_slm_assistant/app/rag.py:53-58 | stopping where the next block overflows gives exactly the specified context and kept chunks |
| Rag.PackedPrefix | cvs_slm_assistant/app/rag.py:51-57 | the packed count's blocks fit unless the count is 0, the next block overflows, and every longer prefix overflows |
| Rag.BuildContext | cvs_slm_assistant/app/rag.py:49-58 | the loop, which stops at the first block that would overflow, returns exactly the joined kept blocks and the kept chunks |
| Rag.KeptIsPrefix | cvs_slm_assistant/app/rag.py:51-56 | the kept chunks are the first retrieved ones, in order |
| Rag.ContextKeepsFittingPrefix | cvs_slm_assistant/app/rag.py:50-57 | `kept` is a prefix whose blocks fit `max_chars` unless it is empty; the next block overflows, and so does every longer prefix |
| Rag.ContextLength | cvs_slm_assistant/app/rag.py:58 | the context is `""` when nothing is kept, else the block total plus one per gap |
| Router.Score | cvs_slm_assistant/app/router.py:14-15 | a score is at most the number of keywords; it is 0 exactly when none occurs and the maximum exactly when all occur |
| Router.ScoreSnoc | cvs_slm_assistant/app/router.py:14-15 | the score summed from the back equals the score summed from the front |
| Router.HitsSnoc | cvs_slm_assistant/app/router.py:14-15 | one more keyword adds its own position to the hits exactly when it occurs |
| Router.ScoreCounts | cvs_slm_assistant/app/router.py:14-15 | the score is exactly the number of keyword positions whose keyword occurs in the text |
| Router.ScoreSingle | cvs_slm_assistant/app/router.py:14-15 | exactly one occurring keyword scores 1 |
| Router.DataScore | cvs_slm_assistant/app/router.py:2-14 | the data score is the score of the lower-cased query against the sixteen data keywords |
| Router.PolicyScore | cvs_slm_assistant/app/router.py:2-15 | the policy score is the score of the lower-cased query against the eleven policy keywords |
| Router.RouteQuery | cvs_slm_assistant/app/router.py:1-18 | the route is "data" exactly when the data score beats the policy score, and "policy" otherwise |
| Router.ScoreBounds | cvs_slm_assistant/app/router.py:4-15 | the data score is at most 16 and the policy score at most 11 |
| Router.NoKeywordRoutesToPolicy | cvs_slm_assistant/app/router.py:17-18 | a query with no data keyword goes to the policy route |
| Router.RouteCaseInsensitive | cvs_slm_assistant/app/router.py:2 | routing a lower-cased query gives the same route |
| Router.ReturnsRateAlsoVotesPolicy | cvs_slm_assistant/app/router.py:7-10 | a query containing "returns rate" also contains the policy keyword "return" |
| Router.ReturnsRateAloneRoutesToPolicy | cvs_slm_assistant/app/router.py:4-18 | when "returns rate" is the only data keyword the scores are 1 and at least 1, so the route is "policy" |
| Router.DataOnlyRoutesToData | cvs_slm_assistant/app/router.py:14-18 | a data keyword with no policy keyword routes to "data" |
| Safety.IsWordChar | cvs_slm_assistant/app/safety.py:4-10 | the regex class `\w`, restricted to ASCII letters, digits and `_` |
| Safety.BoundaryAt | cvs_slm_assistant/app/safety.py:4-10 | `\b`: a word character on exactly one side, the string ends counting as non-word |
| Safety.MatchAt | cvs_slm_assistant/app/safety.py:4-10 | `\b<phrase>\b` matches at an index: the phrase occurs there with a boundary at each end |
| Safety.MatchFrom | cvs_slm_assistant/app/safety.py:15 | the scan succeeds exactly when the phrase matches between word boundaries at some later position |
| Safety.Search | cvs_slm_assistant/app/safety.py:15 | `re.search` for the phrase succeeds exactly when it matches at some position |
| Safety.AnyPhrase | cvs_slm_assistant/app/safety.py:15 | `any(...)` holds exactly when some phrase is found |
| Safety.IsMedicalAdviceRequest | cvs_slm_assistant/app/safety.py:3-15 | a query is flagged exactly when one of the ten phrases occurs in it, lower-cased, between word boundaries |
| Safety.MedicalCaseInsensitive | cvs_slm_assistant/app/safety.py:14 | the verdict for `q` and for `lower(q)` agree |
| Safety.NoPhraseNotMedical | cvs_slm_assistant/app/safety.py:13-15 | a query containing none of the phrases is not flagged |
| Safety.EmptyNotMedical | cvs_slm_assistant/app/safety.py:13-15 | the empty query is not flagged |
| Safety.SymptomsFlagged | cvs_slm_assistant/app/safety.py:9 | "symptom" and "Symptoms" are flagged |
| Safety.NotSearchedMissing | cvs_slm_assistant/app/safety.py:15 | a phrase holding a character the text lacks is not found |
| Safety.NotMatchedGlued | cvs_slm_assistant/app/safety.py:4-10 | a phrase whose only candidate position lacks a word boundary at one end is not matched |
| Safety.NoPhraseInDosages | cvs_slm_assistant/app/safety.py:4-10 | none of the ten phrases is found in "dosages" |
| Safety.NoOtherPhraseIn | cvs_slm_assistant/app/safety.py:5-10 | no phrase other than the `diagnos` ones is found in "undiagnosed" or "prediagnosis" |
| Safety.WordBoundaryRejects | cvs_slm_assistant/app/safety.py:4-10 | "dosages", "undiagnosed" and "prediagnosis" are not flagged |
| App.StoreOf | cvs_slm_assistant/app/main.py:61 | a missing or empty store id means "001"; any other id is used as given |
| App.PolicyPrompt | cvs_slm_assistant/app/main.py:47-54 | the policy prompt: the packed context, the question and the fixed answer instructions, in that order |
| App.DataPrompt | cvs_slm_assistant/app/main.py:66-75 | the data prompt: the fixed preamble, the question, the rendered table and the fixed answer instructions, in that order |
| App.AtRisk | cvs_slm_assistant/app/main.py:62 | the filter keeps no more rows than the table has |
| App.AtRiskShape | cvs_slm_assistant/app/main.py:62 | the filter keeps exactly the at-risk rows, and is empty exactly when none is at risk |
| App.AtRiskAppend | cvs_slm_assistant/app/main.py:62 | filtering a table is filtering its parts and concatenating, so table order and repeats are kept |
| App.AtRiskOne | cvs_slm_assistant/app/main.py:62 | one row is kept exactly when it is at risk |
| App.Head | cvs_slm_assistant/app/main.py:62-64 | `head(n)`: the first `n` rows, or all of them when there are fewer |
| App.ShownRows | cvs_slm_assistant/app/main.py:62-64 | `head(10)` of the at-risk rows, or of the whole table when none is at risk |
| App.ShownRowsShape | cvs_slm_assistant/app/main.py:62-64 | at most ten rows are shown, all from the table; when any row is at risk they are the first ten at-risk rows in table order, else the first ten rows of the table |
| App.SearchInRange | cvs_slm_assistant/app/main.py:43-45 | the index answers rows inside the chunk store wherever `chat` searches, which is on the policy route only |
| App.Chat | cvs_slm_assistant/app/main.py:31-78 | the `/chat` dispatch: blank query, then medical redirect, then the router's route; the lemmas below state its answers |
| App.PolicyAnswer | cvs_slm_assistant/app/main.py:43-58 | retrieve six chunks, pack them within 4000 characters, ask the model with the packed context, and cite the kept chunks |
| App.DataAnswer | cvs_slm_assistant/app/main.py:60-78 | ask the model over the rendered rows `ShownRows` picks from the store's risk table, with no citations |
| App.CitationsOf | cvs_slm_assistant/app/main.py:57 | one `(source, chunk_id)` citation per kept chunk, in order |
| App.BlankQueryRefused | cvs_slm_assistant/app/main.py:33-35 | a query that strips to `""` is all whitespace and gets route "none", the fixed prompt and no citations, whatever the services do |
| App.MedicalRequestRedirected | cvs_slm_assistant/app/main.py:37-38 | a medical request gets route "safety", the redirect and no citations, before routing and whatever the services do |
| App.OtherQueriesRouted | cvs_slm_assistant/app/main.py:40-78 | any other query takes the router's route, and the data route cites nothing |
| App.RoutesAndCitations | cvs_slm_assistant/app/main.py:32-78 | the route is one of none, safety, policy and data, and only policy answers cite |
| App.PolicyCitationsNameRows | cvs_slm_assistant/app/main.py:44-57 | with an aligned store, policy citation `i` names the `i`-th valid row and that chunk's source, and there are no more citations than rows |
| App.ChatCitesRetrievedRows | cvs_slm_assistant/app/main.py:43-58 | end to end, a policy answer cites at most six chunks, each one the row the index returned in that position, with its source |
| App.PolicyAnswerRoute | cvs_slm_assistant/app/main.py:58 | the policy branch answers with route "policy" |
| App.DataAnswerRoute | cvs_slm_assistant/app/main.py:78 | the data branch answers with route "data" and no citations |
| App.ChatSeesStoreOf | cvs_slm_assistant/app/main.py:61 | two store ids that resolve to the same store give the same response |
| App.EmptyStoreIsDefault | cvs_slm_assistant/app/main.py:61 | no store id and an empty one give the same response |
| App.MissingStoreIs001 | cvs_slm_assistant/app/main.py:61 | no store id and "001" give the same response |

## Left out

- File readers (`read_pdf`, `read_docx`, `read_txt`): they are library and file-system calls. A file arrives as its name and the text its reader extracted. The source has no `try` around them, so a reader that raises aborts the whole ingestion; in the model every file carries text, and that failure is not modelled.
- Embedding, the FAISS index build, search, write and read, and `get_embedder`'s cached model: foreign float-vector code. The search is a function from query and `top_k` to a row list.
- `Rag.Retrieve` and `Rag.Retrieved` require every row to be `-1` or below `len(chunks)`, and `App.Chat` requires it of the rows it searches for on the policy route (`App.SearchInRange`). The index built from the same chunk list guarantees this. A row out of range raises `IndexError` in the source, and negative rows other than `-1` would index from the end; neither is modelled.
- JSONL persistence of the chunk store, the artifact-existence checks and their `FileNotFoundError`, and directory creation: I/O. The chunk store is a `seq<Chunk>`.
- The progress `print` calls of `ingest_documents`: output only.
- `get_stockout_risk` (SQLite and pandas, float division), the SQLite seeding, the HTTP call to the language model, the web UI and the FastAPI/pydantic plumbing. `chat` receives them as functions of a `Services` value. The temperature 0.2 and the 7.0-day threshold are floats passed to those functions and are not modelled.
- The `req.query or ""` fallback: the request model requires a string, so the query is a `string`.
- Text.Lower: lower-cases ASCII letters only, because Python's `str.lower` is Unicode-aware, including one-to-many mappings.
- Safety.IsWordChar: accepts ASCII letters, digits and `_` only, because the regex class `\w` is Unicode-aware.
- Ingest.ChunkText: takes `chunk_size` as a natural number, because a negative size would make Python's slice count from the end.
- Ingest.Suffix: follows `PurePath.suffix` on a plain file name, because the folder listing yields names without a directory part.
- The ordering of records across a whole ingestion is stated at the level of per-file contributions (`Ingest.NumberAppend`), not directly on file lists.
- Text.Words: its own ensures states only the shape of each token; Text.WordsOfWord, Text.WordsSplitAtSpace and Text.WordsEmptyIff state that the tokens are exactly the maximal whitespace-free runs, in order.
- Router.Score: its own ensures states the bound and the two extremes; Router.ScoreCounts states the exact count.
- App.AtRisk: its own ensures states only the length bound; App.AtRiskShape, App.AtRiskAppend and App.AtRiskOne state which rows it keeps and in what order.
