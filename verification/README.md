# tennis-mate in Dafny

A model of the logic core of tennis-mate, a doubles-session organiser for
tennis clubs with a rules-question assistant. The model covers:

- **Rules-text chunking.** The bilingual SQL generator script
  (`split_into_chunks`, `_classify_section`, quote escaping, the embedding
  retry loop). The upload script (`chunk_by_articles`, `_chunk_by_size`, the
  embedding filter, batched upload, language choice). The ETL edge function
  (`chunkText`, `resolveApiKey`, chunk counting, the `chunk_text` reply).
- **Doubles rotation and scheduling.** Who rests, which four play, the
  partner-balancing split, the preset session tables and session generation.
- **Stats, rankings and app state.** Recalculating every player's counters
  from the match list, points and ranking, the player labels, and the
  in-memory state transitions: reorder, toggle, start, schedule, finish,
  delete, import.
- **The Google Sheets row codec.** A finished match written as a payload row,
  and rows read back into players and matches, including the score text
  round trip.
- **The two search edge functions.** Language detection, error-message
  redaction, the request validation order, context numbering and the
  top-source statistic.
- **Small rules inside UI components.** The guest location history, the
  location suggestions, the roster screen, the match timeline, the analytics
  view and the leaderboard text export.

Modules follow the source files:

| module | file |
|---|---|
| `Wrappers`, `Text`, `Lists`, `Sorting` | shared helpers (option type, string functions, dedupe, one stable sort) |
| `Domain` | `types.ts` entities: players, teams, matches, stats |
| `RuleChunks`, `SqlChunker`, `SqlExport` | `scripts/gen_sql_bilingual.py` |
| `ArticleChunker`, `UploadPipeline` | `scripts/upload_tennis_rules.py` |
| `EtlChunker`, `EtlFunction` | `supabase/functions/etl-tennis-rules/index.ts` |
| `ApiKeys` | `resolveApiKey` of the ETL and search edge functions |
| `Matchmaking` | `utils/matchmaking.ts` |
| `StatsReplay` | `utils/statsUtils.ts` |
| `PlayerUtils` | `utils/playerUtils.ts` |
| `AppContext` | `context/AppContext.tsx` |
| `SheetsCodec` | `services/GoogleSheetsDataService.ts` |
| `RagQuery` | `supabase/functions/tennis-rag-query/index.ts` |
| `Citations` | the numbered context of both search edge functions |
| `SearchFunction` | `supabase/functions/search-tennis-rules/index.ts` |
| `GuestSession` | `components/GuestSessionManager.tsx` |
| `LocationPicker` | `components/LocationPicker.tsx` |
| `PlayerList` | `components/PlayerList.tsx` |
| `MatchSchedule` | `components/MatchSchedule.tsx` |
| `Analytics` | `components/AnalyticsView.tsx` |
| `StatsView` | `components/StatsView.tsx` |

Regular-expression matching is not re-implemented in general. Where a
pattern splits text (the header split of the rules body, the article-title
split), the split result is an input of the model, and the model states what
the code does with it. Short prefix patterns (the section classifier, the
article titles, the API-key and URL redaction) are modelled concretely on
their literal characters. Network calls, the database, the model APIs,
clocks and random ids become parameters: an oracle function, a given
timestamp, or a result value.

## Model

| member | source | states |
|---|---|---|
| SqlChunker.SplitAtMarker | scripts/gen_sql_bilingual.py:50-55 | intro and body put back together are the text; without a marker the intro is empty and the body is the whole text; with one the intro ends where the marker starts |
| SqlChunker.PyBodyIsKeptChunks | scripts/gen_sql_bilingual.py:84-104 | walking the two-group split three entries at a time visits every header section once, in document order, and keeps exactly the chunks the length filter accepts |
| SqlChunker.SplitIntoChunks | scripts/gen_sql_bilingual.py:40-119 | a foreword chunk comes first exactly when the stripped intro is not blank; the kept body chunks follow in order; the fallback chunk appears only when nothing else was produced and the body is not blank; the result is non-empty exactly when the text has a non-blank character; every chunk records its uncapped length |
| RuleChunks.ClassifySection | scripts/gen_sql_bilingual.py:121-131 | each of the five labels is returned exactly when every earlier pattern fails and its own prefix pattern matches (first match wins) (on ASCII digits and letters; see Left out) |
| RuleChunks.IsNumbered | scripts/gen_sql_bilingual.py:123 | the digit scanner accepts exactly the texts that start with digits and a full stop (on ASCII digits and letters; see Left out) |
| RuleChunks.IsRomanNumbered | scripts/gen_sql_bilingual.py:127 | the scanner accepts exactly the texts that start with a run of I, V, X (either case) and a full stop (on ASCII digits and letters; see Left out) |
| RuleChunks.SingleRomanLetterIsSubSection | scripts/gen_sql_bilingual.py:125-127 | "I. Scope" and "V. Play" are labelled sub-section, because the single-letter test comes before the appendix test |
| RuleChunks.LongerRomanNumeralIsAppendix | scripts/gen_sql_bilingual.py:127 | "IV. Play" passes the single-letter test and is labelled appendix |
| RuleChunks.EtlSectionType | supabase/functions/etl-tennis-rules/index.ts:142-145 | never foreword; rule, sub-section and appendix each exactly when the script's first-match prefix patterns say so (on ASCII digits and letters; see Left out) |
| RuleChunks.EtlClassifierIsScriptClassifierWithoutForeword | supabase/functions/etl-tennis-rules/index.ts:142-145 | the edge function's label is the script's label with foreword turned into other (on ASCII digits and letters; see Left out) |
| RuleChunks.PyTailAt | scripts/gen_sql_bilingual.py:84-86 | section k's header, captured line end and text sit at positions 3k, 3k+1 and 3k+2 after the lead text of the two-group split |
| RuleChunks.JsTailAt | supabase/functions/etl-tennis-rules/index.ts:134-136 | section k's header and text sit at positions 2k and 2k+1 after the lead text of the one-group split |
| RuleChunks.KeptChunks | scripts/gen_sql_bilingual.py:91-104 | at most one chunk per section, each longer than 30 characters once stripped and recording its full length |
| RuleChunks.RuleIdHasNoDoubleStar | scripts/gen_sql_bilingual.py:88 | a rule id never contains `**` |
| RuleChunks.BlankBodyKeepsNothing | scripts/gen_sql_bilingual.py:89-91 | a body with no non-blank character keeps no section, so the length filter rejects every candidate |
| RuleChunks.KeptChunksAcrossClassifiers | supabase/functions/etl-tennis-rules/index.ts:134-153 | the edge function keeps the same sections with the same text as the script; only the labels differ, foreword becoming other (on ASCII digits and letters; see Left out) |
| SqlExport.Escape | scripts/gen_sql_bilingual.py:184-187 | text without a quote is unchanged and escaping never shortens the text |
| SqlExport.EscapePairsQuotes | scripts/gen_sql_bilingual.py:184-187 | after escaping every quote is one of a doubled pair |
| SqlExport.UnescapeEscape | scripts/gen_sql_bilingual.py:184-187 | un-doubling the quotes gives the original text back |
| SqlExport.EscapeUnescape | scripts/gen_sql_bilingual.py:184-187 | a text whose quotes are all paired is the escape of its un-doubled form |
| SqlExport.EscapedLiteralReadsBack | scripts/gen_sql_bilingual.py:190-194 | an SQL reader of a quoted literal stops at the closing quote the script writes and returns the original text and the rest of the statement |
| SqlExport.MetadataNeedsNoEscape | scripts/gen_sql_bilingual.py:187 | the metadata JSON the script writes has no quote, so escaping leaves it unchanged |
| SqlExport.EmbedWithRetry | scripts/gen_sql_bilingual.py:150-174 | between 1 and 5 attempts; the sleeps before attempts are 2, 4, 8, 16 seconds; every attempt before the last hit a rate limit; the last attempt decides whether there is a vector; an early stop happens only on an error that is not a rate limit |
| SqlExport.Statements | scripts/gen_sql_bilingual.py:173-195 | one INSERT per chunk that received an embedding, so never more statements than chunks |
| SqlExport.StatementsNeedVectors | scripts/gen_sql_bilingual.py:173-195 | every statement belongs to a chunk that received an embedding |
| SqlExport.VectorsGiveStatements | scripts/gen_sql_bilingual.py:173-195 | every chunk that received an embedding gets its statement |
| EtlChunker.JsBodyIsKeptChunks | supabase/functions/etl-tennis-rules/index.ts:134-153 | walking the one-group split two entries at a time visits every header section once, in order, and keeps exactly the long-enough chunks |
| EtlChunker.EtlBodyNeverForeword | supabase/functions/etl-tennis-rules/index.ts:142-145 | no body chunk of the edge function is labelled foreword |
| EtlChunker.ChunkText | supabase/functions/etl-tennis-rules/index.ts:104-156 | the foreword chunk comes first exactly when a marker matched and the trimmed intro is longer than 50 characters; then the kept body chunks in order; with no marker and no header the result is empty (there is no fallback) |
| EtlChunker.ForewordOnlyOnIntro | supabase/functions/etl-tennis-rules/index.ts:115-127 | a chunk is labelled foreword exactly when it is the first chunk and came from the intro |
| EtlChunker.ScriptAndEdgeAgree | supabase/functions/etl-tennis-rules/index.ts:104-156 | when a marker matched, the intro is blank or longer than 50 characters, and some section is kept, both chunkers give the same number of chunks, the same foreword chunk, and body chunks that differ only in the foreword label becoming other (on ASCII digits and letters; see Left out) |
| EtlChunker.ShortForewordScriptOnly | supabase/functions/etl-tennis-rules/index.ts:119 | a non-blank intro of at most 50 characters gives the script a foreword chunk and gives the edge function none |
| EtlChunker.OnlyScriptFallsBack | supabase/functions/etl-tennis-rules/index.ts:104-156 | text without a marker and without a header gives the script one fallback chunk and the edge function nothing |
| ArticleChunker.EnglishTitleExample | scripts/upload_tennis_rules.py:93 | "Rule 5" is an English article title |
| ArticleChunker.LowerCaseIsNoTitle | scripts/upload_tennis_rules.py:93 | "rule 5" is not a title: the pattern lists only capitalised and upper-case words |
| ArticleChunker.PluralIsNoTitle | scripts/upload_tennis_rules.py:93 | "Rules 5" is not a title |
| ArticleChunker.KoreanTitleExample | scripts/upload_tennis_rules.py:89 | "제 3 조" is a Korean article title |
| ArticleChunker.KoreanTitleWithoutSpaces | scripts/upload_tennis_rules.py:89 | "제12장" is a Korean title: the spaces around the number are optional |
| ArticleChunker.Flush | scripts/upload_tennis_rules.py:107-117 | a chunk is appended only with a current title, some collected content and joined content longer than 50 characters; its chunk_index is its output position |
| ArticleChunker.ScanInvariant | scripts/upload_tennis_rules.py:99-135 | the scan's output equals the independent reference reading of the segments (title, then the content up to the next title, kept when long enough) |
| ArticleChunker.ArticleScanIsReference | scripts/upload_tennis_rules.py:96-135 | article chunking yields exactly the reference chunks, with chunk_index equal to the output position |
| ArticleChunker.AdjacentTitlesYieldNothing | scripts/upload_tennis_rules.py:105-120 | a title immediately followed by another title produces no chunk |
| ArticleChunker.LeadingTextDropped | scripts/upload_tennis_rules.py:96-123 | text before the first title never reaches a chunk |
| ArticleChunker.NoTitleNoArticles | scripts/upload_tennis_rules.py:96-135 | text without a title gives no article chunks |
| ArticleChunker.ChunkBySize | scripts/upload_tennis_rules.py:145-168 | chunk k is titled "Section k+1", has chunk_index k, and holds 1 to 800 characters |
| ArticleChunker.ChunkBySizeIsWindows | scripts/upload_tennis_rules.py:152-166 | the contents are the non-blank stripped windows at starts 0, s, 2s, ... below the text length, in order, with s = size - overlap |
| ArticleChunker.StartsCount | scripts/upload_tennis_rules.py:152-166 | the loop runs ceil(len/s) times: n windows with (n-1)s < len <= ns |
| ArticleChunker.WindowsCover | scripts/upload_tennis_rules.py:152-166 | every character index lies in some window [start, start + size) |
| ArticleChunker.TwoThousandCharsGiveFourWindows | scripts/upload_tennis_rules.py:146-166 | with size 800 and overlap 150, a 2000-character text has windows at 0, 650, 1300 and 1950 |
| ArticleChunker.WindowsAtStarts | scripts/upload_tennis_rules.py:152-166 | a blank window is skipped without using up a section number; every other window gets the next number |
| ArticleChunker.ChunkByArticles | scripts/upload_tennis_rules.py:85-143 | size-based chunking is used exactly when article chunking produced nothing; chunk_index is the output position either way |
| UploadPipeline.WithEmbeddings | scripts/upload_tennis_rules.py:193-197 | one entry per chunk whose embedding is present |
| UploadPipeline.WithEmbeddingsPositions | scripts/upload_tennis_rules.py:193-197 | the kept entries are the chunks with an embedding, at strictly increasing original positions, and none of them is missed |
| UploadPipeline.WithEmbeddingsExtremes | scripts/upload_tennis_rules.py:193-197 | all embeddings missing gives nothing; all present gives every chunk in order |
| UploadPipeline.BatchesPartition | scripts/upload_tennis_rules.py:206-207 | the batches put back together are the chunk list; each holds 1 to 10 chunks; their number is ceil(len/10) |
| UploadPipeline.UploadToSupabase | scripts/upload_tennis_rules.py:199-233 | the count is the total size of the batches whose insert succeeded, never more than the number of chunks, and all of them when every insert succeeds |
| UploadPipeline.ProcessPdf | scripts/upload_tennis_rules.py:235-262 | an empty text uploads nothing; never more uploads than chunks with an embedding; all of those when every insert succeeds |
| UploadPipeline.LanguageOf | scripts/upload_tennis_rules.py:281-284 | Korean exactly when the lower-cased stem contains "ko", "한글" or "규칙" |
| UploadPipeline.KoreanImpliesKo | scripts/upload_tennis_rules.py:281 | the "korean" test is subsumed by the "ko" test |
| UploadPipeline.KoreanStemExample | scripts/upload_tennis_rules.py:281-282 | the stem "Rules_KO" is read as Korean |
| UploadPipeline.EnglishStemExample | scripts/upload_tennis_rules.py:283-284 | the stem "en" is read as English |
| UploadPipeline.ProcessDirectory | scripts/upload_tennis_rules.py:264-292 | the file count is the number of files that uploaded something, the chunk count is the sum of the uploads, and one is 0 exactly when the other is |
| UploadPipeline.FileCounts | scripts/upload_tennis_rules.py:279-290 | each file is processed with the language its stem implies |
| ApiKeys.ResolveApiKey | supabase/functions/etl-tennis-rules/index.ts:33-44 | the call fails exactly when none of body, header and environment holds a non-blank key; a key handed on is non-empty and already trimmed |
| ApiKeys.KeyPrecedence | supabase/functions/search-tennis-rules/index.ts:204-226 | the body key wins over the header key, which wins over the environment key; the chosen key is returned trimmed |
| ApiKeys.BlankKeyIsAbsent | supabase/functions/etl-tennis-rules/index.ts:35 | a body key of only white space is treated as no key at all |
| EtlFunction.ProcessChunks | supabase/functions/etl-tennis-rules/index.ts:161-239 | missing database credentials fail the call; otherwise every chunk is counted once, as inserted or as an error, and the inserted count is the number of chunks whose embedding and insert both succeeded |
| EtlFunction.AllStoredNoErrors | supabase/functions/etl-tennis-rules/index.ts:178-236 | when every chunk is stored the tally is all inserted and no errors |
| EtlFunction.NoneStoredAllErrors | supabase/functions/etl-tennis-rules/index.ts:178-236 | when no chunk is stored every chunk counts as an error |
| EtlFunction.ChunkTextReply | supabase/functions/etl-tennis-rules/index.ts:274-284 | the reply's total is the number of chunks, it carries one preview per chunk and the full chunks unchanged |
| EtlFunction.PreviewsDescribeChunks | supabase/functions/etl-tennis-rules/index.ts:276-281 | preview k has chunk k's rule id, label and original length, and its content preview is the first 200 characters of chunk k's content |
| EtlFunction.Handle | supabase/functions/etl-tennis-rules/index.ts:244-308 | a missing key fails with 500 before the action is looked at; every reply is 200, 400 or 500; only the three known actions succeed; a chunking reply counts its chunks; processing counts every submitted chunk once |
| EtlFunction.ExtractionOutcomeReported | supabase/functions/etl-tennis-rules/index.ts:84-87 | a rejected extraction call replies 500 with "Gemini extraction failed: " and the HTTP status, ending in the response body; extracted text is replied as is |
| EtlFunction.Caught | supabase/functions/etl-tennis-rules/index.ts:304-307 | a caught error replies 500 with its message, or with "Internal server error" when the message is empty |
| EtlFunction.EmptyChunkListIsProcessed | supabase/functions/etl-tennis-rules/index.ts:287-296 | an empty chunk list with a source file is accepted (an empty array is truthy) and reports 0 inserted and 0 errors |
| EtlFunction.ChunkTextCarriesChunks | supabase/functions/etl-tennis-rules/index.ts:266-285 | chunk_text with a key and a non-empty text replies with exactly the chunker's chunks, in the requested language or English by default |
| Citations.BlockReadsBack | supabase/functions/tennis-rag-query/index.ts:176-178 | block k of a context (in both search functions) is `[k+1] ` followed by item k's own body unchanged, and the number read after the bracket is k+1, so citations run 1, 2, ... in result order |
| RagQuery.DetectLanguage | supabase/functions/tennis-rag-query/index.ts:35-38 | corrected detection: Korean exactly when some character is a Hangul jamo or syllable (the class without the stray `|`; see Findings) |
| RagQuery.DetectWith | supabase/functions/tennis-rag-query/index.ts:36-37 | a question is read as Korean exactly when one of its characters lies in the given character class |
| RagQuery.PipeMakesQuestionKorean | supabase/functions/tennis-rag-query/index.ts:36 | the class as written also contains `|`, so "a|b" is read as Korean; the intended class reads it as English |
| RagQuery.DetectionsAgreeWithoutPipe | supabase/functions/tennis-rag-query/index.ts:35-38 | without a `|` the written and intended classes agree, and anything the intended class calls Korean the written one does too |
| RagQuery.RedactKeysLeavesNoKey | supabase/functions/tennis-rag-query/index.ts:42 | after key redaction no `AIza` followed by 35 key characters is left |
| RagQuery.RedactKeysKeepsKeylessText | supabase/functions/tennis-rag-query/index.ts:42 | a message without `AIza` is unchanged by key redaction |
| RagQuery.RedactsKeyExample | supabase/functions/tennis-rag-query/index.ts:42 | a bare key is replaced by `[API_KEY_REDACTED]` |
| RagQuery.RewriteLeavesNoKey | supabase/functions/tennis-rag-query/index.ts:42 | a global left-to-right replacement whose marker cannot start or continue a key leaves no key behind |
| RagQuery.RewriteWithoutMatch | supabase/functions/tennis-rag-query/index.ts:42-45 | a global replacement with no match anywhere leaves the text unchanged |
| RagQuery.CutAtQuery | supabase/functions/tennis-rag-query/index.ts:44 | the part of a URL before its first `?` |
| RagQuery.UrlParamsRedacted | supabase/functions/tennis-rag-query/index.ts:43-45 | a URL with a query keeps its part before the first `?` and has the query replaced by `?[PARAMS_REDACTED]`; the rest of the message is redacted the same way |
| RagQuery.RedactUrlsKeepsNoKey | supabase/functions/tennis-rag-query/index.ts:43-45 | URL redaction cannot bring back a key |
| RagQuery.RedactUrlsKeepsPlainText | supabase/functions/tennis-rag-query/index.ts:43-45 | a message without `http` is unchanged by URL redaction |
| RagQuery.UrlAtExample | supabase/functions/tennis-rag-query/index.ts:43 | in "http://a?k" the whole text is the URL the pattern matches |
| RagQuery.Sanitize | supabase/functions/tennis-rag-query/index.ts:41-47 | no API key survives, whatever the message held; a message with neither `AIza` nor `http` passes through unchanged |
| RagQuery.Validate | supabase/functions/tennis-rag-query/index.ts:57-96 | a missing model is rejected first, then a blank question, then a missing key (all with 400); otherwise the request is accepted with the client key or else the server key, and the language the corrected `RagQuery.DetectLanguage` gives (see Left out) |
| RagQuery.EmbeddingFailure | supabase/functions/tennis-rag-query/index.ts:119-127 | a failed embedding call gives status 500 and details with no API key |
| RagQuery.Context | supabase/functions/tennis-rag-query/index.ts:176-178 | no results give an empty context; one result gives `[1] ` and its block |
| SearchFunction.TopSource | supabase/functions/search-tennis-rules/index.ts:326-331 | there is no top source exactly when every source file is `__proto__`, which never becomes an entry of the count object; otherwise the top source is one of the sources, is not `__proto__`, and no source has a larger count |
| SearchFunction.IndexTieWins | supabase/functions/search-tennis-rules/index.ts:331 | when an array-index name such as "7" ties with the top source, the top source is also an array-index name and no larger, because `Object.entries` lists such keys first in ascending order and the sort is stable |
| SearchFunction.TopSourceFirstOnTies | supabase/functions/search-tennis-rules/index.ts:331 | when neither the top source nor a source tied with it is an array-index name, the top source appears no later than that source, as insertion-ordered keys and the stable sort give |
| SearchFunction.IndexKeyWinsTieExample | supabase/functions/search-tennis-rules/index.ts:331 | with sources "b.pdf" then "7", once each, the top source is "7" |
| SearchFunction.FirstSeenWinsTieExample | supabase/functions/search-tennis-rules/index.ts:331 | with sources "b.pdf" then "a.pdf", once each, the top source is "b.pdf" |
| SearchFunction.ProtoOnlyHasNoEntry | supabase/functions/search-tennis-rules/index.ts:327-331 | when every source file is `__proto__` the count object has no entry, so there is no top source |
| SearchFunction.Handle | supabase/functions/search-tennis-rules/index.ts:242-373 | a missing key fails with 500 before the question is checked; a missing question fails with 400; no match gives the apology and no statistics; an answer is generated unless generateAnswer is false; the answer is generated before the statistics, so a failing generator wins; statistics appear exactly when asked for and some match exists, count the matches and name one of their sources that is not `__proto__`; asking for statistics when every match's source is `__proto__` fails with 500 and the engine's "Cannot read properties of undefined (reading '0')" |
| SearchFunction.MissingKeyOutranksMissingQuestion | supabase/functions/search-tennis-rules/index.ts:251-268 | with neither key nor question the reply is the 500 of the key, not the 400 of the question |
| Matchmaking.RestIndex | utils/matchmaking.ts:26-28 | the resting index stays inside the roster and is (n-1) minus the match count modulo n |
| Matchmaking.RestMovesBackwards | utils/matchmaking.ts:26-28 | each further match moves the resting seat one place towards the front, wrapping from the first seat to the last |
| Matchmaking.RestsAtMostOnceInCycle | utils/matchmaking.ts:26-28 | within n consecutive matches no player rests twice |
| Matchmaking.EveryoneRestsInCycle | utils/matchmaking.ts:26-28 | within any n consecutive matches every active player rests once |
| Matchmaking.PlayingGroup | utils/matchmaking.ts:23-38 | with four active players all of them play; with more, the four players are the active ones in order with the resting seat skipped |
| Matchmaking.PartnerCount | utils/matchmaking.ts:166-174 | a partnership count never exceeds the number of past matches |
| Matchmaking.Combos | utils/matchmaking.ts:176-182 | four players can be split into teams in exactly three ways |
| Matchmaking.CheapestSplits | utils/matchmaking.ts:184-194 | the candidates left after sorting by cost are exactly the splits of least total partnership cost |
| Matchmaking.OptimizePairings | utils/matchmaking.ts:161-202 | the chosen split is one of the three, has the least total partnership cost, puts the four given players on court, and passes the resting name through |
| Matchmaking.AnyCheapestSplitCanBeChosen | utils/matchmaking.ts:191-196 | every split of least cost is the result for some random tie-break |
| Matchmaking.SplitIdsArePlayers | utils/matchmaking.ts:178-182 | every split puts exactly the four players on court |
| Matchmaking.GenerateNextMatch | utils/matchmaking.ts:6-42 | no match exactly when fewer than four players are active; otherwise the four on court are the playing group for the match count (the override if given, else the history length), all of them active; nobody rests with four players, and with more the player at the resting index rests |
| Matchmaking.FourActiveAllPlay | utils/matchmaking.ts:23-24 | with exactly four active players all four are on court and nobody rests |
| Matchmaking.PresetAt | utils/matchmaking.ts:63-124 | every preset entry names four different seats inside the roster |
| Matchmaking.FourTablePairsEachOnce | utils/matchmaking.ts:64-69 | in the four-player table every pair of players are partners exactly once |
| Matchmaking.FiveTableRestsEachOnce | utils/matchmaking.ts:70-77 | in the five-player table every player rests exactly once |
| Matchmaking.SixTableRestsEachThrice | utils/matchmaking.ts:78-89 | in the six-player table every player sits out exactly three of the nine games |
| Matchmaking.EightTableRoundsCoverAll | utils/matchmaking.ts:100-123 | in each round of the eight-player table every player is on one of the two courts |
| Matchmaking.FirstOutside | utils/matchmaking.ts:140-142 | the resting player is the first active player not on court, and there is none only when every active player plays |
| Matchmaking.FromConfig | utils/matchmaking.ts:135-142 | the preset's seats are mapped to the active players' ids; the resting name is the name of the first active player outside the four seats, and absent exactly when every active player is seated |
| Matchmaking.GenerateSessionSchedule | utils/matchmaking.ts:48-157 | fewer than four active players give nothing; otherwise exactly the requested number of matches, every player on court active |
| Matchmaking.PresetPlanIgnoresHistory | utils/matchmaking.ts:126-149 | with four to eight active players the schedule depends neither on the existing matches nor on the tie-break |
| Matchmaking.PresetPlanRepeats | utils/matchmaking.ts:132 | with a preset table the schedule repeats with the table's length as period |
| Matchmaking.ScheduleFromTable | utils/matchmaking.ts:131-148 | with four to eight active players entry i is preset row i modulo the table length |
| Matchmaking.OnCourtAreActive | utils/matchmaking.ts:30-41 | every player the next-match generator puts on court is active |
| StatsReplay.AddAssoc | utils/statsUtils.ts:45-54 | adding per-match gains is associative, so the order of grouping does not matter |
| StatsReplay.AddSwap | utils/statsUtils.ts:45-54 | adding per-match gains is order-independent |
| StatsReplay.Upsert | utils/statsUtils.ts:10-15 | a later player with a known id replaces the earlier entry in place; a new id is appended |
| StatsReplay.UpsertIds | utils/statsUtils.ts:10-15 | the key order is first-insertion order, as a JavaScript Map keeps it |
| StatsReplay.RosterIds | utils/statsUtils.ts:9-15 | the reset roster's ids are the players' ids with duplicates dropped, keeping first positions |
| StatsReplay.RosterDistinct | utils/statsUtils.ts:9-15 | the reset roster has no duplicate id |
| StatsReplay.RosterZeroed | utils/statsUtils.ts:11-14 | every reset entry starts with all seven counters at zero |
| StatsReplay.RosterHoldsLast | utils/statsUtils.ts:10-15 | for a duplicated id the last player given is the one kept |
| StatsReplay.RosterOfDistinct | utils/statsUtils.ts:9-15 | with distinct ids the reset roster is the players in order with zeroed counters |
| StatsReplay.Step | utils/statsUtils.ts:22-57 | replaying one match keeps the player's id, name and active flag |
| StatsReplay.TotalAppend | utils/statsUtils.ts:22-57 | the gains over two match lists add up |
| StatsReplay.TotalPermutation | utils/statsUtils.ts:17-22 | the total gain does not depend on the order of the matches, so the sort order (and its ties) cannot change the result |
| StatsReplay.ReplayAdds | utils/statsUtils.ts:22-57 | replaying finished matches adds their total gain to the starting counters |
| StatsReplay.FinishedAreFinished | utils/statsUtils.ts:18-19 | the filtered list holds exactly the finished matches |
| StatsReplay.TotalOfFinished | utils/statsUtils.ts:18-19 | unfinished matches contribute nothing |
| StatsReplay.ReplayOrder | utils/statsUtils.ts:17-20 | the replay order is a permutation of the finished matches, sorted by end time or else start time |
| StatsReplay.ReplayOrderFinished | utils/statsUtils.ts:18-19 | every match replayed is finished |
| StatsReplay.RecalculatePlayerStats | utils/statsUtils.ts:7-61 | one player per distinct id, keeping each one's id, name and active flag |
| StatsReplay.RecalculateIds | utils/statsUtils.ts:9-15 | the result's ids are the input ids with duplicates dropped, in first-appearance order |
| StatsReplay.RecalculateIsTotal | utils/statsUtils.ts:7-61 | every recalculated player carries exactly the total gain over all finished matches |
| StatsReplay.RecalculateOrderIrrelevant | utils/statsUtils.ts:7-61 | reordering the match list does not change the result |
| StatsReplay.UnfinishedIgnored | utils/statsUtils.ts:18-19 | inserting an unfinished match anywhere does not change the result |
| StatsReplay.RecalculateIdempotent | utils/statsUtils.ts:7-61 | recalculating twice from the same matches is the same as once: old counters are discarded |
| StatsReplay.TotalCountsMatches | utils/statsUtils.ts:24-34 | matches played is the number of finished matches the player appears in; rests count the finished matches without them, and only for an active player; the two add up to the finished matches |
| StatsReplay.ResultsCoverMatches | utils/statsUtils.ts:38-40 | for a player never on both sides, wins, losses and draws add up to matches played |
| StatsReplay.TotalCountsGamesWon | utils/statsUtils.ts:42-51 | games won is the sum of the player's own side's scores over the finished matches |
| StatsReplay.TotalCountsGamesLost | utils/statsUtils.ts:43-52 | games lost is the sum of the opponents' scores over the finished matches |
| PlayerUtils.PointsBounded | utils/playerUtils.ts:7-9 | points lie between 0 and twice the matches played, and reach the top exactly when every match was won |
| PlayerUtils.SortPlayers | utils/playerUtils.ts:17-32 | the result is a permutation of the players, ordered by points descending, then by game difference descending, then by matches played descending |
| PlayerUtils.LabelReadsBack | utils/playerUtils.ts:41 | a label is `P`, the 1-based position read back as a number, and the player's name at the end |
| PlayerUtils.NameWithNumber | utils/playerUtils.ts:38-45 | never empty; an id that is neither active nor a named player gives "Unknown" |
| PlayerUtils.ActiveNameIsNumbered | utils/playerUtils.ts:39-42 | an active player's name carries the 1-based position of its first occurrence in the active list |
| PlayerUtils.InactiveNameIsPlain | utils/playerUtils.ts:43-44 | a named player outside the active list is shown by name alone |
| PlayerUtils.RestingPlayerNames | utils/playerUtils.ts:50-65 | never more resting names than active players |
| PlayerUtils.RestingNamesExact | utils/playerUtils.ts:50-65 | a label is listed exactly when it belongs to an active player not among the four ids on court |
| PlayerUtils.RestingInOrder | utils/playerUtils.ts:50-65 | name k of the list built over the first n active players is the label of the k-th resting position, those positions strictly increase, and every resting position below n is among them |
| PlayerUtils.RestingNamesInOrder | utils/playerUtils.ts:50-65 | the resting list is exactly the labels of the active players not on court, one per such player, in increasing list position |
| AppContext.FirstUnfinished | context/AppContext.tsx:101 | the position of the first unfinished match, every earlier match being finished; none exactly when all are finished |
| AppContext.ActiveMatch | context/AppContext.tsx:101 | there is an active match exactly when some match is unfinished, and it is an unfinished match of the list |
| AppContext.FindMatch | context/AppContext.tsx:192 | the first match with the id, or none exactly when no match has it |
| AppContext.AddPlayer | context/AppContext.tsx:103-111 | the roster gains one active player with zeroed counters at the end and is otherwise unchanged |
| AppContext.Reorder | context/AppContext.tsx:114-121 | the moved element lands at the target position and the others keep their relative order; the list is a permutation of the old one |
| AppContext.ReorderBack | context/AppContext.tsx:114-121 | moving an element back to where it came from restores the list |
| AppContext.Toggle | context/AppContext.tsx:123-125 | exactly the players with the id flip their active flag; everything else is kept |
| AppContext.ToggleTwice | context/AppContext.tsx:123-125 | toggling twice restores the roster |
| AppContext.CreateNextMatch | context/AppContext.tsx:127-161 | a match is created exactly when no match is active and at least four players are active; otherwise nothing changes; a created match is appended unfinished at 0:0 with the given id and time |
| AppContext.CreatedIsActive | context/AppContext.tsx:127-147 | the created match becomes the active one, so an immediate second call creates nothing |
| AppContext.ScheduledMatches | context/AppContext.tsx:170-179 | one new match per proposal, the i-th stamped i seconds after the first |
| AppContext.GenerateSchedule | context/AppContext.tsx:163-183 | fewer than four active players or a count of zero leave the state unchanged; otherwise exactly count unfinished matches at 0:0 are appended after the old ones, stamped one second apart, from the session planner |
| AppContext.ScheduleStartsNext | context/AppContext.tsx:163-183 | with no active match, the first generated match becomes the active one |
| AppContext.FinishMatches | context/AppContext.tsx:186-190 | every match with the id is finished with the given scores, keeping its teams; all other matches are unchanged |
| AppContext.FinishPlayers | context/AppContext.tsx:203-234 | corrected update: every player gets exactly the replay step the recalculation applies for the finished match, so a draw counts as a draw (see Findings) |
| AppContext.FinishMatch | context/AppContext.tsx:185-235 | corrected action (draws booked as draws, see Findings): no change is possible exactly when no match has the id; otherwise the matches are finished as above and the roster keeps its size |
| AppContext.FinishMatchesReplaces | context/AppContext.tsx:186-190 | with a unique id, finishing replaces that one match by its finished copy |
| AppContext.TotalAfterFinish | context/AppContext.tsx:203-234 | finishing an unfinished match adds exactly that match's gain to a player's tally |
| AppContext.FinishKeepsConsistent | context/AppContext.tsx:185-235 | when every player's counters equal the tally of the match list, finishing a unique unfinished match keeps that so, so live and recalculated counters agree |
| AppContext.FinishStepAsWritten | context/AppContext.tsx:207-231 | the player update as written keeps id, name and active flag |
| AppContext.FinishMatchAsWritten | context/AppContext.tsx:185-235 | the action as written fails exactly when no match has the id and finishes the matches the same way |
| AppContext.DrawBookedAsLoss | context/AppContext.tsx:218-228 | in a draw the code as written adds a loss and no draw; the replay adds a draw and no loss |
| AppContext.DeleteMatch | context/AppContext.tsx:237-240 | deleting never lengthens the list |
| AppContext.DeleteMatchExact | context/AppContext.tsx:237-240 | exactly the matches with the id are removed, and the list shrinks by their number |
| AppContext.Export | context/AppContext.tsx:255 | the export carries both a player list and a match list |
| AppContext.ImportData | context/AppContext.tsx:257-271 | the import succeeds exactly when both lists are present, and then replaces the state by them; otherwise nothing changes |
| AppContext.ImportExport | context/AppContext.tsx:255-271 | importing an export restores exactly the exported state |
| SheetsCodec.CellAt | services/GoogleSheetsDataService.ts:138 | a cell past the end of a short row reads as blank, as array destructuring gives undefined |
| SheetsCodec.NameOf | services/GoogleSheetsDataService.ts:142 | a cell names a player exactly when it is a non-empty text |
| SheetsCodec.DashSpaces | services/GoogleSheetsDataService.ts:144 | the result holds no white space and is the input when the input has none |
| SheetsCodec.SlugShape | services/GoogleSheetsDataService.ts:144 | every player id starts with `gs-` and holds no white space |
| SheetsCodec.SlugIgnoresCase | services/GoogleSheetsDataService.ts:144 | names that agree after lower-casing their ASCII letters get the same id |
| SheetsCodec.CaseVariantsCollide | services/GoogleSheetsDataService.ts:141-144 | "Kim" and "kim" are two map entries with one id |
| SheetsCodec.AddNamesMember | services/GoogleSheetsDataService.ts:141-142 | after a row the keys are exactly the old keys and the row's names |
| SheetsCodec.AddNamesDedupes | services/GoogleSheetsDataService.ts:141-142 | adding names keeps the keys equal to all names seen with duplicates dropped, in first-appearance order |
| SheetsCodec.NameList | services/GoogleSheetsDataService.ts:141-142 | only non-empty text cells are taken as names |
| SheetsCodec.ScorePair | services/GoogleSheetsDataService.ts:161-163 | a falsy score cell reads as 0-0; the row fails to parse exactly when the score is a non-zero number |
| SheetsCodec.ScoreZero | services/GoogleSheetsDataService.ts:161-163 | "0-0" reads as 0 and 0 |
| SheetsCodec.ScoreText | services/GoogleSheetsDataService.ts:161-163 | a score written as two numbers joined by a dash reads back as those numbers |
| SheetsCodec.RowIdsResolve | services/GoogleSheetsDataService.ts:180-185 | once a row's names are in the map each name cell resolves to its slug, and a missing name to the empty id |
| SheetsCodec.ParseRow | services/GoogleSheetsDataService.ts:134-197 | the row's names join the map; a row whose score cell fails adds no match; otherwise one finished match on court 1 is appended with end time equal to its time, winners as team A, losers as team B, the parsed scores, and the dated or back-spread time |
| SheetsCodec.ParsedMatchesFinished | services/GoogleSheetsDataService.ts:176-192 | every parsed match is finished on court 1 with its end time equal to its time and no location |
| SheetsCodec.ParsedPlayerNames | services/GoogleSheetsDataService.ts:141-158 | the map's keys are all name cells of all rows with duplicates dropped, in first-appearance order |
| SheetsCodec.ParsedMatchCount | services/GoogleSheetsDataService.ts:134-197 | one match per readable row, so one per row when every row is readable |
| SheetsCodec.ParseSheet | services/GoogleSheetsDataService.ts:130-206 | the matches are those parsed, all finished, and the players are at most the map's entries |
| SheetsCodec.DisplayName | services/GoogleSheetsDataService.ts:285-287 | the name of the first player with the id, or the id itself |
| SheetsCodec.SaveMatchWithNames | services/GoogleSheetsDataService.ts:272-305 | an error without an endpoint, nothing for an unfinished match; on a draw team A takes the winner slots and the score is a-b; otherwise the side that scored more takes them and the score is max-min; the location is empty |
| SheetsCodec.PayloadRow | services/GoogleSheetsDataService.ts:128 | a written row has the nine columns of the sheet layout |
| SheetsCodec.SavedScore | services/GoogleSheetsDataService.ts:297-305 | the written score of a finished match with scores of zero or more reads back as max and min |
| SheetsCodec.ReadOneRow | services/GoogleSheetsDataService.ts:134-197 | a single readable row reads back as one finished match with its teams' slugs and its scores |
| SheetsCodec.RoundTrip | services/GoogleSheetsDataService.ts:130-305 | a finished match written with names and read back gives one finished match with the higher score first and the written winners and losers as teams |
| SheetsCodec.SheetStatsAreTallies | services/GoogleSheetsDataService.ts:200-205 | the loaded players have distinct ids and each carries exactly the tally of the parsed matches |
| GuestSession.LoadRecent | components/GuestSessionManager.tsx:43-55 | at most ten locations, no duplicates, each one saved; when at most ten distinct ones were saved, all of them in first-appearance order |
| GuestSession.SaveLocation | components/GuestSessionManager.tsx:57-73 | a blank location saves nothing; otherwise the new list starts with the location, never repeats it, holds at most ten entries, and the rest come from the old list |
| GuestSession.SaveMovesToFront | components/GuestSessionManager.tsx:64-66 | for a list without duplicates, saving moves the location to the front and keeps the first ten distinct entries |
| GuestSession.SaveTwiceIsSaveOnce | components/GuestSessionManager.tsx:57-73 | saving the same location twice in a row is the same as saving it once |
| GuestSession.LoadRecentIdempotent | components/GuestSessionManager.tsx:49-50 | loading an already loaded list changes nothing |
| LocationPicker.PresentMember | components/LocationPicker.tsx:48-50 | a location is kept exactly when some row holds it |
| LocationPicker.PreviousLocations | components/LocationPicker.tsx:48-52 | the previous locations have no duplicates and are exactly the non-null ones fetched |
| LocationPicker.AllSuggestions | components/LocationPicker.tsx:28 | at most ten suggestions, no duplicates, each from the history or the external list |
| LocationPicker.HistoryBeforeSuggestions | components/LocationPicker.tsx:28 | the history comes first, then the external suggestions not already listed, cut to ten |
| PlayerList.SetsCount | components/PlayerList.tsx:58-67 | four to eight players get their preset table's length (3, 5, 9, 7, 14); any other count gets itself |
| PlayerList.SetsCountIsOnePass | components/PlayerList.tsx:58-67 | with four to eight active players, the schedule length is one full pass through the preset table, entry i being preset row i |
| PlayerList.HandleAdd | components/PlayerList.tsx:37-43 | a name that is blank once trimmed adds nobody; otherwise one active player with the trimmed, non-empty name is appended |
| PlayerList.MoveUp | components/PlayerList.tsx:45-49 | the first player stays; any other trades places with the one above and nobody else moves |
| PlayerList.MoveDown | components/PlayerList.tsx:51-55 | the last player stays; any other trades places with the one below and nobody else moves |
| PlayerList.AdjacentReorder | components/PlayerList.tsx:45-55 | moving an entry to a neighbouring place exchanges the two |
| PlayerList.UpThenDown | components/PlayerList.tsx:45-55 | moving a player up and then down again restores the roster |
| PlayerList.ConfirmAndSchedule | components/PlayerList.tsx:69-88 | fewer than four players on the roster give the warning; otherwise unfinished matches give the confirmation; otherwise a schedule of the set count, at least three, for the roster size |
| PlayerList.ScheduleFromRoster | components/PlayerList.tsx:69-88 | only the generate outcome changes the state, and then only when no match is unfinished; with four active players it appends exactly the set count of matches behind the old ones |
| PlayerList.QueuedAppend | components/PlayerList.tsx:77 | the unfinished matches of two lists joined are those of each list, joined |
| PlayerList.QueueAfterSchedule | components/PlayerList.tsx:84 | after generating a schedule the queue is the old queue followed by the new matches |
| PlayerList.RosterScheduleQueue | components/PlayerList.tsx:69-88 | when the button generates with four active players, the queue then holds exactly the set count of matches |
| PlayerList.OverwriteAsWritten | components/PlayerList.tsx:96-106 | the overwrite as written leaves the roster alone |
| PlayerList.OverwriteKeepsOldQueue | components/PlayerList.tsx:96-106 | as written, the old queue survives and the new plan lines up behind it, so the queue is longer than the new plan |
| PlayerList.Overwrite | components/PlayerList.tsx:96-106 | the corrected overwrite leaves the roster alone |
| PlayerList.OverwriteReplacesQueue | components/PlayerList.tsx:96-106 | after the corrected overwrite the queue is exactly the new plan and the finished matches are kept in front |
| PlayerList.PickerExact | components/PlayerList.tsx:218-219 | a stored player is offered exactly when no roster player has its id or its name ignoring case |
| PlayerList.PickerIgnoresCase | components/PlayerList.tsx:219 | a stored player whose name matches a roster name up to the case of ASCII letters is not offered |
| MatchSchedule.HistoryExact | components/MatchSchedule.tsx:18 | the history lists exactly the finished matches |
| MatchSchedule.HistoryLength | components/MatchSchedule.tsx:18 | the history is as long as the list of finished matches |
| MatchSchedule.UpcomingExact | components/MatchSchedule.tsx:19 | a match is queued exactly when it is unfinished and not the active match by id |
| MatchSchedule.UpcomingCount | components/MatchSchedule.tsx:19 | the queue shown plus the unfinished matches sharing the active id make up all unfinished matches |
| MatchSchedule.FinishedQueuedSplit | components/MatchSchedule.tsx:18-19 | every match is either in the history or unfinished |
| MatchSchedule.AllFinishedNothingQueued | components/MatchSchedule.tsx:19 | with every match finished nothing is queued |
| MatchSchedule.NoActiveNoQueue | components/MatchSchedule.tsx:19 | with no active match nothing is queued |
| MatchSchedule.Circles | components/MatchSchedule.tsx:78-217 | one circle per finished match, one for the court, one per queued match |
| MatchSchedule.CirclesConsecutive | components/MatchSchedule.tsx:78-217 | the numbers in the circles run 1, 2, 3, ... without a gap or a repeat, whether or not a match is active |
| MatchSchedule.CirclesCoverMatches | components/MatchSchedule.tsx:78-217 | with distinct match ids the circles number every match once, plus the empty court when no match is active |
| MatchSchedule.DefaultPlanCount | components/MatchSchedule.tsx:24-28 | the planner suggests 3 for four active players, the active count above four, and 1 below four; it agrees with the roster screen's set count only for 1, 4, 5, 7 and more than 8 players |
| MatchSchedule.Generate | components/MatchSchedule.tsx:51-55 | a plan count of zero or less does nothing; otherwise the players stay, the old matches stay in front, and exactly the plan count is appended when four players are active |
| MatchSchedule.NonNumberGeneratesNothing | components/MatchSchedule.tsx:263 | an input that reads as no number or as 0 generates nothing |
| MatchSchedule.GenerateExtendsQueue | components/MatchSchedule.tsx:51-55 | generating while a match is on court keeps that match active and lengthens the queue by the plan count |
| MatchSchedule.PressesStayInRange | components/MatchSchedule.tsx:153-168 | after any sequence of presses the score is at least zero, at most the start plus the plus presses, and at least the start plus the plus presses minus the minus presses |
| MatchSchedule.HandleFinish | components/MatchSchedule.tsx:43-49 | without an active match nothing happens; otherwise the active match is finished with the entered scores through the corrected `AppContext.FinishMatch`, and both counters return to 0 |
| MatchSchedule.FinishedAfterFinish | components/MatchSchedule.tsx:43-49 | finishing an id adds the unfinished matches with that id to the finished ones |
| MatchSchedule.FinishGrowsHistory | components/MatchSchedule.tsx:43-49 | with distinct ids, finishing the active match adds exactly one entry to the history and keeps the match count |
| Analytics.ByRecency | components/AnalyticsView.tsx:17-19 | the finished matches, rearranged newest first |
| Analytics.RecentMatches | components/AnalyticsView.tsx:16-21 | the 100 newest finished matches, or all of them when there are fewer, newest first |
| Analytics.RecentAreFinished | components/AnalyticsView.tsx:18 | every recent match is a finished match of the list |
| Analytics.RecentKeepsNewest | components/AnalyticsView.tsx:19-20 | a finished match left out is no newer than any match kept |
| Analytics.BumpLookup | components/AnalyticsView.tsx:70-84 | bumping a key adds one game and the win to that key and leaves every other key's record alone |
| Analytics.BumpSums | components/AnalyticsView.tsx:70-84 | each bump adds one game in total and the win in total |
| Analytics.BumpSound | components/AnalyticsView.tsx:70-84 | bumping keeps every record's wins within its games |
| Analytics.BumpKeys | components/AnalyticsView.tsx:70-84 | a new key is appended; an existing key keeps its place, as a JavaScript Map keeps insertion order |
| Analytics.BumpNoDup | components/AnalyticsView.tsx:70-84 | keys stay distinct |
| Analytics.PartnerOf | components/AnalyticsView.tsx:65-69 | a partner is a non-empty id on the player's own team other than the player |
| Analytics.MyStats | components/AnalyticsView.tsx:38-89 | there are statistics exactly when a player is selected |
| Analytics.TallyCoherent | components/AnalyticsView.tsx:46-86 | wins never exceed games played, partner records never add up to more than the games played, and every record's wins stay within its games |
| Analytics.TallyCounts | components/AnalyticsView.tsx:46-62 | games played is the number of recent matches the player appears in, and wins the number of those the player's side won |
| Analytics.InvolvingSnoc | components/AnalyticsView.tsx:53-62 | one more match adds one game when the player appears in it, and one win when the player's side won it |
| Analytics.WinRate | components/AnalyticsView.tsx:99 | the rounded percentage is the nearest whole number to 100 wins / played, halves rounded up, and at most 100 |
| Analytics.RoundingBounds | components/AnalyticsView.tsx:99 | Math.round of the percentage is the floor of (200 wins + played) / (2 played) |
| Analytics.LastById | components/AnalyticsView.tsx:33 | the lookup gives the last player with the id, and nothing exactly when no player has it |
| Analytics.PartnerName | components/AnalyticsView.tsx:97 | a partner's shown name is never empty unless the id is |
| Analytics.PartnerRowsExact | components/AnalyticsView.tsx:93-100 | a row is listed exactly when it comes from a partner record with at least three games |
| Analytics.RankedPartners | components/AnalyticsView.tsx:101 | the ranked rows are a permutation of the listed ones, ordered by win rate descending |
| Analytics.BestPartners | components/AnalyticsView.tsx:91-103 | no statistics give no rows; at most five rows, by win rate descending, taken from the listed ones, and all of them when there are five or fewer |
| Analytics.ListedPartner | components/AnalyticsView.tsx:91-103 | every row shown has at least three games, the partner's recorded wins and games, a rate of at most 100 and the looked-up name |
| Analytics.BestPartnersTop | components/AnalyticsView.tsx:101-102 | a row left out has no higher rate than any row shown |
| Analytics.RivalStats | components/AnalyticsView.tsx:105-113 | no rival statistics without a player and a rival; otherwise the rival's record, with losses equal to games minus wins and a rate of 0 without games |
| Analytics.RivalBounded | components/AnalyticsView.tsx:105-113 | losses are never negative and the rate is at most 100 |
| Analytics.DrawCountsAsLoss | components/AnalyticsView.tsx:57-113 | a single drawn game against the rival shows as one game, no win and one loss |
| Analytics.WinRateColor | components/AnalyticsView.tsx:249-256 | the neutral colour appears exactly when no game was played |
| Analytics.MoreWinsNoWorse | components/AnalyticsView.tsx:249-256 | more wins in the same number of games never give a worse colour |
| Analytics.ColorMatchesRate | components/AnalyticsView.tsx:249-256 | green at a rate of 0.7 or more, blue from 0.5, yellow from 0.3, red below, computed in integers exactly as the real-valued thresholds |
| StatsView.NameField | components/StatsView.tsx:53-56 | the name column is six characters: a short name padded with spaces, a long one cut to five characters and a full stop |
| StatsView.ShortNamesDistinct | components/StatsView.tsx:53-56 | two different short names without trailing spaces stay distinguishable in the column |
| StatsView.DiffText | components/StatsView.tsx:51-52 | a positive difference starts with `+`, a negative one with `-`, zero is shown as `0`, and every difference ends in a space |
| StatsView.DiffReadsBack | components/StatsView.tsx:51-52 | the number after `+ ` reads back as a positive difference, and the text itself reads back as a zero or negative one |
| StatsView.Row | components/StatsView.tsx:56 | a row starts with the name column followed by ` | ` |
| StatsView.BarCell | components/StatsView.tsx:56 | each figure cell of a row sits right after its own ` | `, followed by the rest of the row |
| StatsView.IntReadsBack | components/StatsView.tsx:56 | a counter rendered into the row reads back as itself, whatever non-digit follows it |
| StatsView.CounterReadsBack | components/StatsView.tsx:56 | the first four figure columns read back as matches played, wins, draws and losses, in that order |
| StatsView.DiffColumnReadsBack | components/StatsView.tsx:51-56 | the fifth figure column reads back as games won minus games lost: after its `+ ` when positive, from its start otherwise |
| StatsView.FiguresReadBack | components/StatsView.tsx:50-56 | every figure column starts with ` | ` and the five columns read back, in order, as matches played, wins, draws, losses and the game difference |
| StatsView.RowReadsBack | components/StatsView.tsx:50-56 | after its six-character name a row is exactly the figure columns, which read back, in order, as matches played, wins, draws, losses and the game difference |
| StatsView.Lines | components/StatsView.tsx:46-57 | three heading lines and one line per player |
| StatsView.RowIsFree | components/StatsView.tsx:56 | a row holds no line break when the name holds none |
| StatsView.SplitTerminated | components/StatsView.tsx:46-57 | splitting newline-terminated lines at line breaks gives the lines back and one empty tail |
| StatsView.LeaderboardLines | components/StatsView.tsx:46-57 | the copied text splits into the three headings, then one row per player in the leaderboard order of the ranking, then an empty tail |
| StatsView.CopyStatsText | components/StatsView.tsx:46-57 | the text is at least as long as the number of lines it holds |
| Domain.ActiveMember | utils/matchmaking.ts:12 | a player is in the active list exactly when it is in the roster with the active flag |
| Domain.ActiveAppend | utils/matchmaking.ts:12 | filtering a concatenated roster gives the two filtered parts in sequence, so `filter` keeps roster order |
| Lists.DedupeMember | components/GuestSessionManager.tsx:49 | `Array.from(new Set(xs))` keeps exactly the values of xs |
| Lists.DedupeNoDup | components/GuestSessionManager.tsx:49 | a list without repeats passes through `Array.from(new Set(xs))` unchanged |

## Left out

- PDF text extraction, embedding and answer generation, the database and the spreadsheet endpoint are network calls; they are parameters (an oracle per call, an outcome per chunk or batch) or left out.
- Regular-expression splitting is not modelled: the split results are inputs tied to the text, by `Rejoin` for the SQL script's and the ETL function's sections and by concatenation (`Join("", splits) == text`) for the upload script's article split; that the odd pieces are exactly the pattern's matches is not stated. Only the prefix tests that decide a label or an article title are modelled, on ASCII letters and digits and on `Text.IsSpace` white space.
- Text.IsSpace, Text.Strip, Text.IsBlank: white space is the set both Python's `strip` and JavaScript's `trim` remove (the ASCII six, U+00A0, U+1680, U+2000 to U+200A, U+2028, U+2029, U+202F, U+205F, U+3000). U+001C to U+001F and U+0085, which only Python strips, and U+FEFF, which only JavaScript trims, count as text. This reaches the blank tests of ApiKeys.ResolveApiKey, RagQuery.Validate, PlayerList.HandleAdd and GuestSession.SaveLocation, the foreword and section blank tests and length filters of RuleChunks and EtlChunker, the `\s` of the title patterns, of SheetsCodec.Slug and of RagQuery.Sanitize's URL end.
- RuleChunks.ClassifySection: Python's `re` works on `str` with Unicode classes: `\d` matches every Unicode decimal digit (fullwidth `１`, common in Korean documents), and `re.IGNORECASE` lets `[IVX]` match the dotless `ı` (U+0131). JavaScript's `/^\d+\./` and `/i` without the `u` flag, and the model, accept only ASCII digits and letters. A header such as `１. Scope` or `ıv. Notes` is labelled rule or appendix by the script and other by the model.
- RuleChunks.IsNumbered: models the script's `^\d+\.` on ASCII digits only; the script also accepts other Unicode decimal digits.
- RuleChunks.IsRomanNumbered: models `[IVX]+\.` under IGNORECASE on ASCII letters only; the script's IGNORECASE also matches the dotless `ı` (U+0131).
- RuleChunks.EtlSectionType: agrees with the script's patterns only on headers whose digits and roman letters are ASCII; on a header with a non-ASCII digit or a dotless `ı` the script labels rule or appendix and the edge function other.
- RuleChunks.EtlClassifierIsScriptClassifierWithoutForeword: the two classifiers are equal only on ASCII-digit, ASCII-letter headers; they differ on headers with Unicode digits or the dotless `ı`, which the model's ASCII prefix tests cannot express.
- RuleChunks.KeptChunksAcrossClassifiers: besides the UTF-16 lengths below, the labels of the script and the edge function disagree on headers with Unicode digits or the dotless `ı`. The split and the marker themselves can also differ between Python's and JavaScript's regular expressions: Python's `.` matches `\r`, U+2028 and U+2029 where JavaScript's does not, the two `\s` sets differ, and Python's Unicode IGNORECASE lets `[A-Z]` and the `s` of "Rules" match `ſ`, `ı` and the Kelvin sign. For the body `"\n**1. A**\r**B**\n…"` the script finds a bold header the edge function does not. The member is stated only for one split and one marker that both patterns produce.
- EtlChunker.ScriptAndEdgeAgree: besides the UTF-16 lengths below, the script and the edge function label headers with Unicode digits or the dotless `ı` differently; the agreement holds on ASCII headers only. The split and the marker can also differ between the two regex dialects: Python's `.` matches `\r`, U+2028 and U+2029 and JavaScript's does not, the `\s` sets differ, and Python's Unicode IGNORECASE matches `ſ`, `ı` and the Kelvin sign against `[A-Z]` and the `s` of "Rules". For the body `"\n**1. A**\r**B**\n…"` the two find different headers. The agreement is stated only for a split and a marker that both patterns produce.
- SearchFunction.TopSource: other names that `Object.prototype` already carries, such as "constructor" or "toString", start from an inherited function, so their counts become strings or NaN and the sort treats them unpredictably; the model counts them like any other name. The model also takes the wording of the error for an all-`__proto__` source list from the V8 engine; another engine words it differently.
- ArticleChunker.IsTitle: the `\d+` of the upload script's title patterns (`scripts/upload_tennis_rules.py:89`, `:93`) matches any Unicode decimal digit, so `제１조` is a title there and not in the model.
- Text.Lower, SheetsCodec.Slug, PlayerList.PickerExact, UploadPipeline.LanguageOf: lower-casing maps only the ASCII letters A to Z; `toLowerCase()` and Python's `lower()` also lower-case other scripts ("JOSÉ" and "josé" share a slug in the source, not in the model). Hangul has no case, so Korean names and stems are unaffected.
- StatsView.NameField, StatsView.CopyShareLink, EtlChunker.ChunkText, EtlChunker.ScriptAndEdgeAgree, RuleChunks.KeptChunksAcrossClassifiers, EtlFunction.ChunkTextReply, EtlFunction.PreviewsDescribeChunks: lengths and cuts count characters. JavaScript's `length`, `slice`, `substring` and `padEnd` count UTF-16 code units and Python's `len` counts code points, so for text outside the Basic Multilingual Plane (an emoji in a name, say) the source's lengths, 200-character previews, 30- and 50-character filters and 6-column name cuts differ from the model's, and the script and the edge function need not agree.
- RagQuery.Validate: the language is detected with the corrected `RagQuery.DetectLanguage`; the handler as written uses the class that also matches `|` (`RagQuery.DetectLanguageAsWritten`), so a question with a `|` and no Hangul is Korean in the source and English here (first row of Findings).
- MatchSchedule.HandleFinish: finishes through the corrected `AppContext.FinishMatch`, which books a draw as a draw; the action as written (`AppContext.FinishMatchAsWritten`) books it as a loss for both sides (second row of Findings).
- The start-marker search is an input position, not a regular expression.
- SqlExport.EmbedWithRetry: real sleeping is not modelled, only the delays requested.
- The SQL file's header comments, rendering of vectors and the file writes are not modelled; statements are values.
- `extractText` of the ETL function (PDF to text through the model) is an oracle that yields the text, a rejected response (status and body) or a thrown message.
- RagQuery.Sanitize: a URL ends at `Text.IsSpace` white space; U+FEFF, which JavaScript's `\s` also matches, does not end it here.
- Answer text, prompts, similarity rounding (`toFixed`, `Math.round(x * 100) / 100`) and the average similarity of the search statistics are floating-point presentation and are left out.
- Dates: parsing `timestampStr` with `new Date` is an oracle `dateOf`; ISO date and duration fields of the written row are not modelled.
- SheetsCodec.ParseRow: a row that is not an array (destructuring throws) is not modelled; rows are sequences of cells.
- SheetsCodec.ScorePair: `parseInt` is modelled on decimal text (`Text.ParseIntPrefix`); the `0x` hexadecimal prefix that `parseInt` also accepts is not modelled.
- `saveMatch` of the spreadsheet service (the id-only variant that only builds a payload) is not modelled; `saveMatchWithNames` is.
- AppContext.AddPlayer: the source's new player has no `draws` field; the model's counters always hold `draws`, set to 0. StatsView's `draws || 0` is therefore the identity here.
- AppContext.FinishMatch: when no match has the id the source dereferences `undefined` and throws; the model returns `None`. Finishing an already finished match again is allowed by the source and modelled by `FinishMatches`, but `FinishKeepsConsistent` is only stated for an unfinished match.
- Log, feed, toast and confirmation-dialog messages, `postAnnouncement`, `resetData` (local storage and defaults) and `getShareableLink` (Base64 in a URL) are not modelled; `exportData` and `importData` are modelled on parsed values, not on JSON text.
- `deletePlayer`, `undoFinishMatch` and `updateMatchScore` are called by the screens but are not defined in the context file modelled here; the score-edit form of the schedule screen is left out with them. The screens were written against a richer context API than `context/AppContext.tsx` declares: `components/PlayerList.tsx:12` also takes `mode`, `getAllPlayers`, `shufflePlayers` and `updatePlayerName`, and calls `generateSchedule` with two arguments where the file declares one. The screens are modelled against the declared context.
- PlayerUtils.SortPlayers: the result is proved ordered and a permutation; stability is not stated, since the source's comparator leaves ties to the engine.
- Analytics.WinRateColor: the thresholds are compared in exact arithmetic rather than in floating point.
- Analytics.WinRate: `Math.round` is modelled exactly for non-negative counts; floating-point rounding error near halves is not modelled.
- PlayerList.SetsCount is called with the roster size, not the active count, as the source does; the model keeps that.
- The AI analysis button, drag-and-drop reordering and geolocation lookup are browser features and are left out.
- UploadPipeline.ProcessDirectory: file discovery (`glob`) is an input list of stems.
- EtlFunction.ProcessChunks: the one-second pause between chunks is not modelled.

## Where the code and the description differ

- Size-based fallback: the loop in `scripts/upload_tennis_rules.py` runs once per window start `0, s, 2s, ...` below the text length, so a text of length L gives `ceil(L / (W - O))` windows (four for 2000 characters at 800/150), not `ceil((L - O) / (W - O))`. The model follows the code (`ArticleChunker.StartsCount`, `ArticleChunker.TwoThousandCharsGiveFourWindows`).
- The same fallback does not guarantee a chunk for every non-empty text: blank windows are skipped, so a text of white space only gives none. The model follows the code.

## Findings

| source | as written | input that shows it | evidently intended | confidence | as-written member | corrected member |
|---|---|---|---|---|---|---|
| supabase/functions/tennis-rag-query/index.ts:36 | the character class `[ㄱ-ㅎ\|ㅏ-ㅣ\|가-힣]` also contains `\|` | the question "a\|b" is detected as Korean | only Hangul jamo and syllables mark a Korean question | high, not executed | RagQuery.PipeMakesQuestionKorean | RagQuery.DetectionsAgreeWithoutPipe |
| context/AppContext.tsx:218-228 | `finishMatch` books a drawn match as a loss for both sides and never counts a draw | finishing a match 3:3 | a draw adds to `draws`, as `recalculatePlayerStats` does, so live and recalculated counters agree | high, not executed | AppContext.DrawBookedAsLoss | AppContext.FinishKeepsConsistent |
| components/PlayerList.tsx:96-106 | `generateSchedule(sets, true)` passes an overwrite flag the context's `generateSchedule(count)` ignores, so the new plan is appended behind the queue; the screen was written against a context API the declared `context/AppContext.tsx` lacks (see Left out), so the real `generateSchedule` may take the flag | four active players on a four-player roster and one unfinished match: after the overwrite four matches are queued instead of three | the unfinished matches are replaced by the new plan | low (rests on the declared context file), not executed | PlayerList.OverwriteKeepsOldQueue | PlayerList.OverwriteReplacesQueue |
