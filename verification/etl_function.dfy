/**
 * The request handler of the ETL edge function: API-key resolution ahead of
 * the action switch, the `chunk_text` reply, and the per-chunk counting of
 * `processChunks`. PDF extraction, embedding and database calls are oracles.
 */
module EtlFunction {

  import opened Text
  import opened Wrappers
  import opened RuleChunks
  import ApiKeys

  /** What happened to one chunk inside the `processChunks` loop. */
  datatype ChunkOutcome =
    | EmbedRejected    // the embedding response was not ok
    | NoVector         // the response carried no `embedding.values` array
    | InsertRejected   // the insert reported an error
    | Stored           // the insert succeeded
    | Threw            // an exception was caught for this chunk

  datatype Tally = Tally(inserted: nat, errors: nat)

  /** How many of the first `n` chunks were stored; the reference count. */
  function StoredAmong(outcome: nat -> ChunkOutcome, n: nat): (k: nat)
    ensures k <= n
  {
    if n == 0 then 0 else StoredAmong(outcome, n - 1) + (if outcome(n - 1).Stored? then 1 else 0)
  }

  /** The totals `processChunks` reports for `n` chunks. */
  function TallyOf(outcome: nat -> ChunkOutcome, n: nat): (t: Tally)
    ensures t.inserted + t.errors == n
  {
    Tally(StoredAmong(outcome, n), n - StoredAmong(outcome, n))
  }

  /**
   * `processChunks`: `None` where it throws because the database credentials
   * are missing; otherwise every chunk is counted once, as inserted or as an error.
   */
  method ProcessChunks(chunks: seq<Chunk>, configured: bool, outcome: nat -> ChunkOutcome)
    returns (result: Option<Tally>)
    ensures result.None? <==> !configured
    ensures result.Some? ==> result.value.inserted + result.value.errors == |chunks|
    ensures result.Some? ==> result.value.inserted == StoredAmong(outcome, |chunks|)
    ensures result.Some? ==> result.value == TallyOf(outcome, |chunks|)
  {
    if !configured {
      return None;
    }
    var inserted, errors := 0, 0;
    var i := 0;
    while i < |chunks|
      invariant i <= |chunks|
      invariant inserted == StoredAmong(outcome, i)
      invariant inserted + errors == i
    {
      if outcome(i).Stored? {
        inserted := inserted + 1;
      } else {
        errors := errors + 1;
      }
      i := i + 1;
    }
    return Some(Tally(inserted, errors));
  }

  /** All stores succeed: everything is inserted and nothing is an error. */
  lemma {:induction false} AllStoredNoErrors(outcome: nat -> ChunkOutcome, n: nat)
    requires forall k: nat :: k < n ==> outcome(k) == Stored
    ensures TallyOf(outcome, n) == Tally(n, 0)
  {
    if n > 0 {
      AllStoredNoErrors(outcome, n - 1);
    }
  }

  /** Every store fails: nothing is inserted. */
  lemma {:induction false} NoneStoredAllErrors(outcome: nat -> ChunkOutcome, n: nat)
    requires forall k: nat :: k < n ==> !outcome(k).Stored?
    ensures TallyOf(outcome, n) == Tally(0, n)
  {
    if n > 0 {
      NoneStoredAllErrors(outcome, n - 1);
    }
  }

  /** One entry of the `chunk_text` reply's `chunks` list. */
  datatype Preview = Preview(ruleId: string, sectionType: SectionType, originalLen: nat, contentPreview: string)

  datatype ChunkReply = ChunkReply(chunks: seq<Preview>, total: nat, fullChunks: seq<Chunk>)

  const PreviewLen: nat := 200

  function PreviewOf(c: Chunk): Preview {
    Preview(c.ruleId, c.sectionType, c.originalLen, Take(c.content, PreviewLen))
  }

  function Previews(chunks: seq<Chunk>): (p: seq<Preview>)
    ensures |p| == |chunks|
  {
    if chunks == [] then [] else [PreviewOf(chunks[0])] + Previews(chunks[1..])
  }

  /** The reply of the `chunk_text` action for the chunks `chunkText` produced. */
  function ChunkTextReply(chunks: seq<Chunk>): (r: ChunkReply)
    ensures r.total == |chunks| == |r.chunks|
    ensures r.fullChunks == chunks
  {
    ChunkReply(Previews(chunks), |chunks|, chunks)
  }

  /**
   * Each preview describes the chunk at the same position: its metadata is
   * carried over and its text is the chunk's content cut to at most 200 chars.
   */
  lemma {:induction false} PreviewsDescribeChunks(chunks: seq<Chunk>, k: nat)
    requires k < |chunks|
    ensures ChunkTextReply(chunks).chunks[k].ruleId == chunks[k].ruleId
    ensures ChunkTextReply(chunks).chunks[k].sectionType == chunks[k].sectionType
    ensures ChunkTextReply(chunks).chunks[k].originalLen == chunks[k].originalLen
    ensures StartsWith(chunks[k].content, ChunkTextReply(chunks).chunks[k].contentPreview)
    ensures |ChunkTextReply(chunks).chunks[k].contentPreview| ==
            (if |chunks[k].content| <= PreviewLen then |chunks[k].content| else PreviewLen)
  {
    PreviewAt(chunks, k);
  }

  lemma {:induction false} PreviewAt(chunks: seq<Chunk>, k: nat)
    requires k < |chunks|
    ensures Previews(chunks)[k] == PreviewOf(chunks[k])
  {
    if k > 0 {
      PreviewAt(chunks[1..], k - 1);
    }
  }

  /** The fields of a request body the handler reads; an absent field is `None`. */
  datatype EtlRequest = EtlRequest(
    action: Option<string>,
    apiKey: Option<string>,
    pdfBase64: Option<string>,
    text: Option<string>,
    chunks: Option<seq<Chunk>>,
    sourceFile: Option<string>,
    language: Option<string>)

  /** The `x-gemini-api-key` header, the environment key and whether the database credentials are set. */
  datatype EtlEnv = EtlEnv(headerKey: Option<string>, envKey: Option<string>, configured: bool)

  datatype EtlReply =
    | Failure(status: nat, error: string)
    | Extracted(text: string)
    | Chunked(reply: ChunkReply)
    | Processed(tally: Tally)
  {
    function Status(): nat {
      if Failure? then status else 200
    }
  }

  /**
   * What the Gemini PDF extraction call does: it yields the text (an absent
   * text part is already `""`), the response was not ok and the call throws
   * with its status and body, or some other error is thrown with `message`.
   */
  datatype Extraction =
    | ExtractedText(text: string)
    | HttpFailed(httpStatus: nat, body: string)
    | ExtractThrew(message: string)

  const KeyRequired: string := "Gemini API key required"
  const CredentialsMissing: string := "Supabase credentials not configured"

  /** The message of the error `extractText` throws when the response is not ok. */
  function ExtractionFailed(httpStatus: nat, body: string): string {
    "Gemini extraction failed: " + NatToString(httpStatus) + " - " + body
  }

  /** The catch block's reply: the error's message, or the generic one when it is empty. */
  function Caught(message: string): (r: EtlReply)
    ensures r.Failure? && r.status == 500
    ensures message != "" ==> r.error == message
    ensures message == "" ==> r.error == "Internal server error"
  {
    Failure(500, if message == "" then "Internal server error" else message)
  }

  /**
   * The POST handler. `extract` stands for the Gemini PDF extraction, `chunker` for `chunkText` with its regular expressions,
   * and `outcome` for the per-chunk embedding and insert calls. Every thrown
   * error becomes a 500 reply.
   */
  function Handle(req: EtlRequest, env: EtlEnv,
                  extract: (string, string) -> Extraction,
                  chunker: (string, string) -> seq<Chunk>,
                  outcome: nat -> ChunkOutcome): (r: EtlReply)
    // the key is resolved before the action is looked at
    ensures ApiKeys.ResolveApiKey(req.apiKey, env.headerKey, env.envKey).None? ==> r == Failure(500, KeyRequired)
    ensures r.Status() == 200 || r.Status() == 400 || r.Status() == 500
    // only the three known actions can succeed
    ensures r.Status() == 200 ==>
      req.action == Some("extract_text") || req.action == Some("chunk_text") || req.action == Some("process_chunks")
    ensures r.Chunked? ==> req.text.Some? && r.reply.total == |r.reply.chunks| == |r.reply.fullChunks|
    // processing counts every submitted chunk once
    ensures r.Processed? ==> req.chunks.Some? && r.tally.inserted + r.tally.errors == |req.chunks.value|
  {
    var key := ApiKeys.ResolveApiKey(req.apiKey, env.headerKey, env.envKey);
    var language := req.language.GetOr("en");
    if key.None? then Failure(500, KeyRequired)
    else if req.action == Some("extract_text") then
      if Falsy(req.pdfBase64) then Failure(400, "pdf_base64 is required")
      else match extract(req.pdfBase64.value, language)
        case ExtractedText(text) => Extracted(text)
        case HttpFailed(httpStatus, body) => Caught(ExtractionFailed(httpStatus, body))
        case ExtractThrew(message) => Caught(message)
    else if req.action == Some("chunk_text") then
      if Falsy(req.text) then Failure(400, "text is required")
      else Chunked(ChunkTextReply(chunker(req.text.value, language)))
    else if req.action == Some("process_chunks") then
      if req.chunks.None? || Falsy(req.sourceFile) then Failure(400, "chunks and source_file are required")
      else if !env.configured then Failure(500, CredentialsMissing)
      else Processed(TallyOf(outcome, |req.chunks.value|))
    else
      Failure(400, "Unknown action: " + req.action.GetOr("undefined") + ". Use extract_text, chunk_text, or process_chunks")
  }

  /** An empty `chunks` array is truthy: it is processed and reports nothing inserted. */
  lemma EmptyChunkListIsProcessed(req: EtlRequest, env: EtlEnv,
                                  extract: (string, string) -> Extraction,
                                  chunker: (string, string) -> seq<Chunk>,
                                  outcome: nat -> ChunkOutcome)
    requires ApiKeys.Usable(req.apiKey)
    requires req.action == Some("process_chunks") && req.chunks == Some([])
    requires !Falsy(req.sourceFile) && env.configured
    ensures Handle(req, env, extract, chunker, outcome) == Processed(Tally(0, 0))
  {
  }

  /**
   * A request with a usable key and text is chunked, and the reply previews
   * exactly the chunks the chunker returned.
   */
  lemma ChunkTextCarriesChunks(req: EtlRequest, env: EtlEnv,
                               extract: (string, string) -> Extraction,
                               chunker: (string, string) -> seq<Chunk>,
                               outcome: nat -> ChunkOutcome)
    requires ApiKeys.ResolveApiKey(req.apiKey, env.headerKey, env.envKey).Some?
    requires req.action == Some("chunk_text") && !Falsy(req.text)
    ensures Handle(req, env, extract, chunker, outcome).Chunked?
    ensures Handle(req, env, extract, chunker, outcome).reply.fullChunks == chunker(req.text.value, req.language.GetOr("en"))
  {
  }

  /**
   * A rejected extraction request surfaces as a 500 whose error names the
   * HTTP status and carries the response body; extracted text is returned as is.
   */
  lemma ExtractionOutcomeReported(req: EtlRequest, env: EtlEnv,
                                  extract: (string, string) -> Extraction,
                                  chunker: (string, string) -> seq<Chunk>,
                                  outcome: nat -> ChunkOutcome)
    requires ApiKeys.ResolveApiKey(req.apiKey, env.headerKey, env.envKey).Some?
    requires req.action == Some("extract_text") && !Falsy(req.pdfBase64)
    ensures extract(req.pdfBase64.value, req.language.GetOr("en")).HttpFailed? ==>
      var r := Handle(req, env, extract, chunker, outcome);
      var e := extract(req.pdfBase64.value, req.language.GetOr("en"));
      r.Failure? && r.status == 500
      && StartsWith(r.error, "Gemini extraction failed: " + NatToString(e.httpStatus))
      && r.error[|r.error| - |e.body|..] == e.body
    ensures extract(req.pdfBase64.value, req.language.GetOr("en")).ExtractedText? ==>
      Handle(req, env, extract, chunker, outcome) ==
        Extracted(extract(req.pdfBase64.value, req.language.GetOr("en")).text)
  {
  }
}
