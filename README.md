# Travel-agent retrieval core in Dafny

This project models the data path of the Next.js travel-agent API.

- `scripts/embed.ts`:
  - loads `.env.local` into the process environment without overriding what is already set;
  - lists the Markdown files of `data/`;
  - splits each file into paragraphs and sentences;
  - packs the sentences into chunks of about 900 characters, with one sentence of overlap;
  - embeds every chunk as a row `file#n`;
  - writes the rows to pgvector or to `data/embeddings.json`.
- `lib/search.ts`:
  - loads and caches `embeddings.json`;
  - keeps the `k` best items by a stable descending sort (`topK`);
  - reads a chat model's reply as JSON, trying the whole text, then a fenced code block, then the outermost brackets;
  - reranks the candidates by the scores in that reply.
- `lib/db.ts`:
  - upserts rows into the `chunks` table, keyed by `(file, chunk_index)`;
  - returns nearest neighbours as `file#chunk_index` hits.
- `scripts/eval.ts`:
  - flattens each agent answer to lower-case text;
  - grades every test question by its required terms and its citation count;
  - counts the passes and sets the exit status.

Modules, one per file:

- `Js` (`js.dfy`): the JavaScript runtime behaviour the code relies on. That is `trim` and `\s`, ASCII `toLowerCase`, `join`, `includes`, `indexOf`/`lastIndexOf`, `slice(0, k)` with a negative `k`, `Number(string)` on decimal literals, and JSON values.
- `Sentences` (`sentences.dfy`): `splitSentences`, with its look-behind and look-ahead split written out as a boundary predicate.
- `Chunker` (`chunker.dfy`): `sentenceChunk`, as a function and as the source's loops.
- `EnvFile` (`envfile.dfy`): `loadEnvLocal`, as a class over the environment map.
- `EmbedMain` (`embedmain.dfy`): `listMarkdownFiles` and `main`.
- `Ranking` (`ranking.dfy`): the stable descending order and `topK`.
- `LooseJson` (`loosejson.dfy`): `parseJsonLoose`.
- `Rerank` (`rerank.dfy`): `rerankWithLLM`.
- `EmbeddingCache` (`embedcache.dfy`): `loadEmbeddings` with its module-level cache, as a class.
- `ChunkStore` (`chunkstore.dfy`): `getClient`, `upsertChunks` as a class over the table map, and `searchNearest`.
- `Eval` (`eval.dfy`): `flatten`, `loadTests` and `run`.

These are parameters of the model:

- file contents and directory listings;
- the embedding service;
- the chat model;
- `JSON.parse`;
- the HTTP request;
- the rows the database returns for a nearest-neighbour query.

## Model

| member | source | states |
|---|---|---|
| Js.Lower | scripts/embed.ts:73 | `toLowerCase` keeps the length and maps each ASCII capital to its small letter, leaving other characters alone |
| Js.LowerAppend | scripts/eval.ts:20 | lower-casing distributes over concatenation |
| Js.TrimStartSuffix | scripts/embed.ts:21 | trimming the start drops exactly a leading run of whitespace |
| Js.TrimEndPrefix | scripts/embed.ts:21 | trimming the end drops exactly a trailing run of whitespace |
| Js.Trim | scripts/embed.ts:21 | the trimmed text neither starts nor ends with whitespace and is no longer than the input |
| Js.JoinAppend | scripts/embed.ts:47 | joining one more part appends the separator and the part |
| Js.JoinSuffixLength | scripts/embed.ts:54 | dropping leading parts never lengthens the joined text |
| Js.JoinContains | scripts/eval.ts:20 | every part of a join occurs in the joined text |
| Js.ContainsLeft | scripts/eval.ts:62 | text found in `a` is found in `a + b` |
| Js.ContainsRight | scripts/eval.ts:62 | text found in `b` is found in `a + b` |
| Js.Slice0 | lib/search.ts:54 | `slice(0, k)` is a prefix of length `min(k, n)`, or `n + k` clamped at 0 for a negative `k` |
| Js.IndexOf | lib/search.ts:61 | -1 exactly when the character is absent, otherwise its first position |
| Js.LastIndexOf | lib/search.ts:61 | -1 exactly when the character is absent, otherwise its last position |
| Js.IndexOfAt | lib/search.ts:61 | a character at `i` and nowhere before is found at `i` |
| Js.LastIndexOfAt | lib/search.ts:61 | a character at `i` and nowhere after is found last at `i` |
| Js.NatToString | scripts/embed.ts:110 | the decimal text of a number is non-empty and all digits |
| Js.DigitsOfNat | scripts/embed.ts:110 | reading back the decimal text of `n` gives `n` |
| Js.NumberOfDigits | lib/db.ts:58 | `Number` of a digit string is its decimal value |
| Js.LastMember | lib/search.ts:106-107 | a member is found exactly when some field has the key |
| Js.LastMemberLast | lib/search.ts:106-107 | a found member is the value of the last field with the key, as JSON.parse keeps the last duplicate |
| Js.LastMemberAt | lib/search.ts:106-107 | a field with the key and no later field with it gives the member's value |
| Sentences.Collapse | scripts/embed.ts:34 | whitespace runs become single spaces; empty exactly when the input is |
| Sentences.CollapseCollapsed | scripts/embed.ts:34 | after the replacement the only whitespace left is single spaces |
| Sentences.PiecesExact | scripts/embed.ts:35 | the split pieces joined by a space give back the text; one piece more than boundaries; no piece holds a boundary |
| Sentences.SplitFromJoin | scripts/embed.ts:35 | the pieces from a position on, joined by a space, are the rest of the text |
| Sentences.SplitFromNoCut | scripts/embed.ts:35 | a split piece holds no sentence boundary |
| Sentences.BoundaryOfSlice | scripts/embed.ts:35 | a boundary inside a slice is a boundary of the whole text |
| Sentences.NonEmptyMembers | scripts/embed.ts:36 | `filter(Boolean)` keeps exactly the non-empty parts |
| Sentences.TrimAllAt | scripts/embed.ts:36 | `map(trim)` trims each part in place |
| Sentences.SentencesWellFormed | scripts/embed.ts:31-37 | every sentence is non-empty, trimmed, and has no whitespace but single spaces |
| Chunker.SentenceChunk | scripts/embed.ts:38-65 | the loop over paragraphs computes the chunks of the text, or reports the non-terminating turn |
| Chunker.ChunkSentences | scripts/embed.ts:44-62 | the `while` loop over one paragraph's sentences computes that paragraph's chunks |
| Chunker.Keep | scripts/embed.ts:54 | keeps the last `min(overlap, n)` buffered sentences, none for a non-positive overlap |
| Chunker.Step | scripts/embed.ts:46-60 | one turn either reads a sentence, or shrinks the buffer, or leaves the whole state unchanged |
| Chunker.StallIff | scripts/embed.ts:51-54 | a turn leaves the state unchanged exactly when a sentence does not fit beside a non-empty buffer of at most `overlap` sentences |
| Chunker.StallDiverges | scripts/embed.ts:46-61 | an unchanged state repeats forever |
| Chunker.StallWitness | scripts/embed.ts:102 | with (900, 1), a 10-character sentence followed by an 895-character one never ends |
| Chunker.RunTerminates | scripts/embed.ts:46-61 | the loop ends whenever no overlap is kept or the corrected flush is used |
| Chunker.NoOverlapNeverDiverges | scripts/embed.ts:38-65 | with no overlap the source loop ends on every text |
| Chunker.FixedNeverDiverges | scripts/embed.ts:38-65 | the corrected loop ends on every text and every overlap |
| Chunker.ParagraphChunksGood | scripts/embed.ts:46-62 | every chunk is consecutive sentences joined by spaces, at most `targetChars` long unless it is one longer sentence |
| Chunker.ParasChunksGood | scripts/embed.ts:39-63 | every chunk of a text lies within one paragraph |
| Chunker.ChunksNonEmpty | scripts/embed.ts:38-65 | no chunk of a text is empty |
| Chunker.RunAgree | scripts/embed.ts:46-62 | wherever the paragraph loop as written ends, the corrected loop ends with the same chunks |
| Chunker.ParasAgree | scripts/embed.ts:41-63 | the same agreement holds for a list of paragraphs |
| Chunker.TextAgree | scripts/embed.ts:38-65 | wherever `sentenceChunk` as written ends, the corrected chunker returns the same chunks |
| Chunker.PushBufferOk | scripts/embed.ts:47-49 | a sentence pushed because it fits keeps the joined buffer within `targetChars` |
| Chunker.KeepBufferOk | scripts/embed.ts:54 | keeping the last sentences keeps the buffer a fitting run |
| Chunker.StepBufferOk | scripts/embed.ts:46-60 | every turn keeps the buffer a fitting run of the sentences just read |
| EnvFile.SplitLinesShape | scripts/embed.ts:16 | no line holds a line feed, and there is one line more than line feeds |
| EnvFile.ParseQuoted | scripts/embed.ts:18-24 | `KEY="value"` binds the value without its quotes |
| EnvFile.ParsePlain | scripts/embed.ts:18-24 | `KEY=value` binds the trimmed value as written |
| EnvFile.ParseBinding | scripts/embed.ts:18-24 | a key, `=` and a value bind the trimmed, unquoted value |
| EnvFile.ApplyMeaning | scripts/embed.ts:16-26 | a variable already set keeps its value; a name `process.env` inherits from `Object.prototype` (`toString`, `__proto__`, ...) is never set; any other name gets the value of the first line that sets it, and is set only if some line does |
| EnvFile.ApplyGrows | scripts/embed.ts:25 | loading never unsets a variable |
| EnvFile.ProcessEnv.LoadEnvLocal | scripts/embed.ts:12-28 | a readable file binds its lines into the environment, skipping names already present or inherited; an unreadable one changes nothing |
| EmbedMain.MarkdownFilesMembers | scripts/embed.ts:72-76 | the listing keeps exactly the names ending in `.md`, other than `readme.md`, in any letter case |
| EmbedMain.MarkdownFilesDistinct | scripts/embed.ts:72-77 | a listing of distinct names stays distinct |
| EmbedMain.ListMarkdownFiles | scripts/embed.ts:68-79 | the loop pushes exactly the Markdown names, in directory order |
| EmbedMain.ChunkIdInjective | scripts/embed.ts:110 | two chunk ids are equal only for the same chunk of the same file |
| EmbedMain.FileChunks | scripts/embed.ts:102 | a file's chunks for (900, 1) are those of `sentenceChunk` wherever it ends, and none is empty |
| EmbedMain.ChunkRows | scripts/embed.ts:103-114 | one row per chunk |
| EmbedMain.RowsOfFiles | scripts/embed.ts:99-117 | every row belongs to a listed file and has the id `file#n` of one of its chunks, with `n` at most the number of rows |
| EmbedMain.RowIdsDistinct | scripts/embed.ts:99-117 | row ids are unique when the file names are |
| EmbedMain.RowEmbeddings | scripts/embed.ts:104-112 | every row carries the embedding of its own text |
| EmbedMain.BuildRows | scripts/embed.ts:98-117 | the loop over the files computes the rows of all files in order, chunked as `FileChunks` says, or fails on the first unreadable file |
| EmbedMain.EmbedChunks | scripts/embed.ts:103-116 | the loop over one file's chunks builds its rows numbered from 1 |
| EmbedMain.Deliver | scripts/embed.ts:119-131 | the rows handed to a backend are the rows built |
| EmbedMain.OutcomeCases | scripts/embed.ts:83-96 | the run stops exactly when the API key is unset, or when no Markdown file is listed; rows go to pgvector only when the backend is `pg` in any case |
| EmbedMain.OutcomeRows | scripts/embed.ts:99-131 | rows handed to a backend have unique ids `file#n` of listed Markdown files |
| EmbedMain.UpsertStorable | lib/db.ts:57-61 | rows with distinct ids `file#n` and 1536-number embeddings all upsert, each stored under `(file, n)` |
| EmbedMain.OutcomeBackend | scripts/embed.ts:88-131 | a run that builds its rows hands exactly those rows to pgvector when the backend lower-cases to `pg`, and to the JSON file otherwise |
| EmbedMain.PgStoresEveryRow | scripts/embed.ts:119-124 | a `pg` run with an API key, a database URL, distinct `#`-free file names, 1536-number embeddings and its rows built ends `Upserted`, with every built row stored under its key |
| EmbedMain.RunEmbed | scripts/embed.ts:81-132 | `main` loads the environment file into the environment, then ends as the outcome function says for that environment, with files chunked as `FileChunks` says |
| Ranking.SortCorrect | lib/search.ts:53 | sorting distinct positions gives a permutation sorted by descending key, ties in input order |
| Ranking.OrderCorrect | lib/search.ts:53 | the order holds every position and is sorted |
| Ranking.SortedUnique | lib/search.ts:53 | only one arrangement is sorted this way, so the order is what any stable descending sort returns |
| Ranking.ArrangeOrderPerm | lib/search.ts:53 | sorting the items neither loses nor adds any |
| Ranking.TopByKeyShape | lib/search.ts:53-54 | the best `k` are `min(k, n)` input items, keys non-increasing, ties in input order |
| Ranking.TopByKeyIsTop | lib/search.ts:53-54 | an item left out never has a higher key than one returned, nor an equal key and an earlier position |
| Ranking.EqualKeysKeepOrder | lib/search.ts:53-54 | when all keys are equal, the best `k` are the first `k` |
| Ranking.TopKShape | lib/search.ts:51-55 | `topK` returns `min(k, n)` input items in non-increasing score order |
| Ranking.TopKIsTop | lib/search.ts:51-55 | no item left out by `topK` scores above one returned |
| LooseJson.LooseSound | lib/search.ts:57-64 | whatever the loose reader returns is JSON.parse of some slice of the reply |
| LooseJson.FenceFromSlice | lib/search.ts:59 | a fenced body is a slice of the reply |
| LooseJson.FencedBlock | lib/search.ts:59-60 | a reply with backtick-free text, then a `json` fence around a trimmed body, yields that body |
| LooseJson.BracketFallback | lib/search.ts:61-62 | when the whole text and the fence fail, the text from the first `[` to the last `]` is parsed |
| Rerank.Preview | lib/search.ts:81 | a text over 600 characters is cut to 600 and marked with an ellipsis; a shorter one is kept |
| Rerank.PromptShowsCandidates | lib/search.ts:87-89 | the user prompt holds the query and every candidate's line under its number |
| Rerank.LastScore | lib/search.ts:104-109 | a number is scored exactly when an element with finite `n` and `score` names it; the last such element gives its score |
| Rerank.BuildScores | lib/search.ts:104-109 | the loop builds that score map |
| Rerank.RerankWithLLM | lib/search.ts:69-121 | the method returns what the rerank function says |
| Rerank.RerankedUnchanged | lib/search.ts:75 | with no more candidates than `finalK`, the candidates come back unchanged, whatever the chat model would say |
| Rerank.RerankedShape | lib/search.ts:75-120 | a non-negative `finalK` gives `min(finalK, n)` candidates drawn from the input |
| Rerank.RerankedByScore | lib/search.ts:104-120 | with an array reply, candidates come best score first, unscored as 0, ties in input order, and none left out scores higher |
| Rerank.RerankedFallback | lib/search.ts:101-102 | a reply that is not an array gives the first `finalK` candidates |
| Rerank.RerankedNoScores | lib/search.ts:100-120 | an array reply that scores nothing, like the `"[]"` default, gives the first `finalK` candidates |
| EmbeddingCache.ReadEmbeddings | lib/search.ts:20-34 | every load error starts with `Failed to load <path>. ` |
| EmbeddingCache.Store.LoadEmbeddings | lib/search.ts:18-35 | a cached array is returned as is; otherwise the file is read and a parsed array cached |
| EmbeddingCache.CachedAfterSuccess | lib/search.ts:19-26 | after a successful load, every later load returns the same array whatever the file holds |
| EmbeddingCache.FailureLeavesCacheEmpty | lib/search.ts:23-33 | a failed load leaves the cache empty; a missing file gives the hint to run the embed script; non-array JSON says so |
| EmbeddingCache.LoadSucceedsIff | lib/search.ts:21-27 | an empty-cache load succeeds exactly when the file parses to an array, and returns its elements |
| ChunkStore.GetClient | lib/db.ts:6-11 | fails with the missing-URL error exactly when `DATABASE_URL` is empty |
| ChunkStore.SecondField | lib/db.ts:58 | `split("#")[1]` is absent exactly when the id has no `#`, and holds no `#` |
| ChunkStore.ChunkIndex | lib/db.ts:58 | an index is stored exactly when the id's number is an integer within the 32-bit `INT` range, and it is that number |
| ChunkStore.DefaultIndex | lib/db.ts:58 | an id without `#`, or with an empty part after it, gets index 1 |
| ChunkStore.IdRoundTrip | lib/db.ts:58-85 | an id `file#n` is stored under `(file, n)` and read back as the same id |
| ChunkStore.UpsertUntouched | lib/db.ts:51-61 | a key no row names keeps its old value |
| ChunkStore.UpsertLastWins | lib/db.ts:54-55 | after a successful upsert, the last row with a key holds that key's text and embedding |
| ChunkStore.UpsertKeys | lib/db.ts:51-61 | the keys after a successful upsert are the old keys plus those the rows name |
| ChunkStore.UpsertStopsAt | lib/db.ts:57-61 | the first rejected row stops the loop with its error; the rows before it stay written |
| ChunkStore.UpsertAllValid | lib/db.ts:57-61 | when every row is accepted, the upsert reports no error |
| ChunkStore.ChunkTable.UpsertChunks | lib/db.ts:47-65 | with no URL, fails and changes nothing; otherwise upserts the rows in order |
| ChunkStore.SearchNearest | lib/db.ts:71-92 | fails exactly when the URL is empty; otherwise one hit per returned row |
| ChunkStore.NearestHits | lib/db.ts:77-88 | at most `k` hits, nearest first, each a stored row whose id is `file#chunk_index` |
| Eval.FlattenShows | scripts/eval.ts:12-21 | every present summary, plan, plan step, assumption, next step and raw text occurs lower-cased in the flattened text; no result flattens to `""` |
| Eval.MissingTermsIff | scripts/eval.ts:61-66 | the missing-term reasons name exactly the required terms not found |
| Eval.MissingNone | scripts/eval.ts:61-66 | no missing-term reason exactly when every term is found |
| Eval.CheckTerms | scripts/eval.ts:61-66 | the loop over the terms gives those reasons, and `ok` holds exactly when every term is found |
| Eval.VerdictAnswered | scripts/eval.ts:57-72 | an answered test passes exactly when every term is found and the citations reach `minCitations` (default 0); each failed check has its reason |
| Eval.VerdictRequestFailed | scripts/eval.ts:40-76 | a throw, a non-2xx status, a non-JSON body or a missing result fails the test with a "request failed" reason |
| Eval.RunTest | scripts/eval.ts:57-76 | one loop body grades the test as the verdict function says |
| Eval.PassCountAll | scripts/eval.ts:88-96 | the pass count reaches the number of tests exactly when every test passes |
| Eval.Run | scripts/eval.ts:44-97 | `run` grades each test, counts the passes (at most the number of tests), divides averages by `max(1, n)`, and exits 0 exactly when all pass |
| Eval.AverageDivisor | scripts/eval.ts:91 | the divisor is at least 1 and equals `n` when there are tests |
| Eval.LoadTests | scripts/eval.ts:23-32 | an unreadable or unparsable file gives the single default Kyoto test |
| Eval.TestsOfShape | scripts/eval.ts:26 | a test file yields one test per element, each read from its element |
| Eval.TestRoundTrip | scripts/eval.ts:26 | reading a test written out as JSON gives it back |

## Left out

- Cosine similarity is left out because it is floating point (`cosine`, including its division by zero for a zero vector). Scores are abstract ordered values, written as reals. The comparators `b.score - a.score` and `sb - sa` are taken as comparing them.
- `topK` is modelled over a score function of the items. NaN scores are not modelled.
- Embeddings are sequences of reals. The vector literal text sent to pgvector is not modelled.
- String lengths count characters, not UTF-16 code units. The 600-character preview and the 900-character target are therefore exact only for text inside the Basic Multilingual Plane.
- `toLowerCase` is modelled on ASCII letters only. Other letters are kept as they are.
- `Number(string)` is modelled on decimal literals with an optional sign and fraction. Exponents, hexadecimal, `Infinity` and the other literal forms read as NaN here.
- `Rerank.RerankedByScore`: `candidates.indexOf(a)` finds the first candidate equal by reference. The model numbers candidates by position, which agrees when no candidate object occurs twice.
- `searchNearest` runs over an ivfflat index, which is approximate, and orders by a database distance. The model takes the returned rows as a parameter and states what an exact nearest query returns (`ChunkStore.Nearest`). A negative `LIMIT` and the default `k = 12` are not modelled separately.
- `ensureSchema` is schema DDL and is left out: creating the extension, the table, its `BIGSERIAL` id and the index. The table is a map keyed by `(file, chunk_index)`.
- I/O and the network become parameters or are left out:
  - the OpenAI embeddings and chat calls;
  - `fs` reads, writes, `mkdir` and `readdir`;
  - `path.join` and `path.basename`, since listed names are taken as base names;
  - `pg` connect and end;
  - `fetch`;
  - the `setTimeout` delay;
  - `process.exit`, which becomes an exit code or an outcome value.
- Console logging is left out: progress, reasons, latency, token and cost averages, and cost totals (float reporting).
- An error whose message is empty is reported as `String(e)` in the source. The model keeps the message as given.
- `EnvFile.ProcessEnv.LoadEnvLocal`: the source catches every error and ignores it. The model reads an unreadable file as changing nothing, which has the same effect.
- `Eval.LoadTests`: a file that parses to something other than an array of test objects (`q` a string, `must` an array of strings, `minCitations` a number) gives None. The model does not follow the run on such input.
- `Eval.AgentResult`: answer fields of JSON types other than the declared ones are not modelled.
- `EmbeddingCache.Store.LoadEmbeddings`: the cached array is kept as JSON values. The cast to `EmbeddingItem[]` checks nothing in the source and nothing here.
- `EmbedMain.RunEmbed`: where `sentenceChunk(raw, 900, 1)` as written loops forever on a file, the model finishes with the corrected chunks, so `main` is not modelled as hanging (see Findings). Wherever the source loop ends, the chunks are the same (`Chunker.TextAgree`, `EmbedMain.FileChunks`).
- `EmbedMain.BuildRows`: for the same reason, it returns rows for a file on which `sentenceChunk` as written never ends.
- `EmbedMain.BuildRows`: the embeddings call (`embed`) is a total function, so it never fails. In the source, a rejected `openai.embeddings.create` call aborts `main` with exit 1 and nothing written (scripts/embed.ts:105-108). Examples are an invalid key or a network error. The model does not cover that case.
- `EmbedMain.RunEmbed`: for the same reason, and because `fs.mkdir` and `fs.writeFile` are taken never to fail, a run the source aborts with exit 1 after reading every file ends here in `Upserted` or `WroteJson`.
- The JSON file written by `main` (`JSON.stringify(rows, null, 2)`) is modelled as the rows it holds (`EmbedMain.RunEnd.WroteJson`), not as text.

## Findings

| source | as written | input that shows it | evidently intended | confidence | as-written member | corrected member |
|---|---|---|---|---|---|---|
| scripts/embed.ts:46-61 | when the next sentence does not fit, the buffer is flushed and its last `overlapSentences` sentences are kept without advancing `i`; if the buffer holds no more than that many sentences, the state is unchanged and the loop never ends. Each such turn pushes the same chunk again (line 52), so `chunks` grows until the process runs out of heap. The `.catch` on `main` cannot recover from that. | `sentenceChunk` with (900, 1) on a paragraph whose first sentence is 10 characters and whose second is 895 characters, or any sentence under 900 characters followed in the same paragraph by one that brings the pair to 900 characters or more, such as two of 450 | a flush that cannot shrink the buffer empties it, so the next sentence is retried against an empty buffer and the loop always ends | high (not executed) | Chunker.StallWitness | Chunker.FixedNeverDiverges |

The embedding driver chunks files with the corrected loop (`EmbedMain.FileChunks`). That loop agrees with the one as written wherever the latter ends (`Chunker.TextAgree`). The loop as written stays available as `Chunker.SentenceChunk`, which reports the endless turn as `Diverges`.
