/**
 * The search edge function: key resolution, the question check, the reply
 * when nothing matches, the numbered context handed to the answer model and
 * the optional match statistics. Embedding, vector search and answer
 * generation are oracles.
 */
module SearchFunction {

  import opened Text
  import opened Wrappers
  import opened Lists
  import ApiKeys
  import Citations

  /** One row returned by the `match_tennis_rules` search; `relevance` is the percentage already rendered. */
  datatype Match = Match(ruleId: string, content: string, sourceFile: string, relevance: string)

  datatype Stats = Stats(matchCount: nat, topSource: string)

  /** An oracle's answer, or the message of the error it threw. */
  datatype Outcome<T> = Done(value: T) | Threw(message: string)

  datatype SearchRequest = SearchRequest(
    question: Option<string>,
    apiKey: Option<string>,
    language: Option<string>,
    includeStats: bool,
    generateAnswer: Option<bool>)

  /** The `x-gemini-api-key` header, the environment key and whether the database credentials are set. */
  datatype SearchEnv = SearchEnv(headerKey: Option<string>, envKey: Option<string>, configured: bool)

  datatype SearchReply =
    | Failure(status: nat, error: string)
    | Answered(answer: Option<string>, matches: seq<Match>, stats: Option<Stats>)

  const KeyRequired: string :=
    "Gemini API key is required. Provide it in the request body (geminiApiKey), "
    + "the x-gemini-api-key header, or set the GEMINI_API_KEY environment variable."
  const QuestionRequired: string := "Missing required field: question"
  const CredentialsMissing: string := "Supabase credentials not configured"
  /** What V8 throws for `[][0][0]`: the sorted entries have no first element. */
  const NoFirstEntry: string := "Cannot read properties of undefined (reading '0')"

  /** The reply when no rule matched, in the requested language. */
  function Apology(language: Option<string>): string {
    if language == Some("ko") then
      "죄송합니다. 질문과 관련된 테니스 규칙을 찾을 수 없습니다. 다른 방식으로 질문해 주시겠어요?"
    else
      "Sorry, I couldn't find relevant tennis rules for your question. Could you try rephrasing it?"
  }

  /** The text after the citation mark of one context block. */
  function Body(m: Match): string {
    m.ruleId + "\n" + m.content + "\n(Source: " + m.sourceFile + ", Relevance: " + m.relevance + "%)"
  }

  /** The context: one numbered block per match, separated by a blank line. */
  function Context(matches: seq<Match>): (c: string)
    ensures |matches| == 1 ==> c == Citations.Cite(1) + Body(matches[0])
  {
    Join("\n\n", Citations.Blocks(matches, Body))
  }

  function Sources(matches: seq<Match>): (s: seq<string>)
    ensures |s| == |matches|
    ensures forall k :: 0 <= k < |matches| ==> s[k] == matches[k].sourceFile
  {
    seq(|matches|, k requires 0 <= k < |matches| => matches[k].sourceFile)
  }

  // ---------------------------------------------------------------------
  // The most frequent source: a count object read back by `Object.entries`

  /**
   * A key JavaScript orders as an array index: a canonical decimal (no sign,
   * no leading zero) below 2^32 - 1.
   */
  predicate IsArrayIndex(s: string) {
    |s| > 0 && AllDigits(s) && (s[0] != '0' || |s| == 1) && DigitsValue(s) < 0xFFFF_FFFF
  }

  /**
   * The order of an object's own keys, `a` and `b` inserted at positions `i`
   * and `j`: array indices first, by value, then the other keys by insertion.
   */
  predicate KeyBefore(a: string, i: nat, b: string, j: nat) {
    if IsArrayIndex(a) && IsArrayIndex(b) then DigitsValue(a) < DigitsValue(b)
    else if IsArrayIndex(a) then true
    else if IsArrayIndex(b) then false
    else i < j
  }

  /** Assigning a number to `__proto__` goes to the prototype setter, which ignores it. */
  const ProtoKey: string := "__proto__"

  /** The count `sourceCount[key]` ends with; `__proto__` never becomes an own key. */
  function Tally(sources: seq<string>, key: string): (n: nat)
    ensures key != ProtoKey && key in sources ==> n > 0
    ensures key == ProtoKey ==> n == 0
  {
    if key == ProtoKey then 0 else Count(sources, key)
  }

  /**
   * The position in `keys` of the entry a stable descending sort by count
   * puts first: the highest tally, and no equal tally earlier in key order.
   */
  function FirstInKeyOrder(keys: seq<string>, sources: seq<string>): (i: nat)
    requires |keys| > 0
    ensures i < |keys|
    ensures forall j :: 0 <= j < |keys| ==> Tally(sources, keys[j]) <= Tally(sources, keys[i])
    ensures forall j :: 0 <= j < |keys| && Tally(sources, keys[j]) == Tally(sources, keys[i]) ==>
      !KeyBefore(keys[j], j, keys[i], i)
  {
    if |keys| == 1 then 0
    else
      var n := |keys| - 1;
      var b := FirstInKeyOrder(keys[..n], sources);
      assert forall j :: 0 <= j < n ==> keys[..n][j] == keys[j];
      if Tally(sources, keys[n]) > Tally(sources, keys[b])
         || (Tally(sources, keys[n]) == Tally(sources, keys[b]) && KeyBefore(keys[n], n, keys[b], b))
      then n
      else b
  }

  /**
   * `topSource`: the entry `Object.entries(sourceCount)` sorted by count puts
   * first, or `None` when the object has no entry (every source file is
   * `__proto__`) and reading `[0][0]` throws.
   */
  function TopSource(sources: seq<string>): (t: Option<string>)
    ensures t.None? <==> forall j :: 0 <= j < |sources| ==> sources[j] == ProtoKey
    ensures t.Some? ==> t.value in sources && t.value != ProtoKey
    ensures t.Some? ==> forall j :: 0 <= j < |sources| ==> Tally(sources, sources[j]) <= Count(sources, t.value)
  {
    if sources == [] then None
    else
      var keys := Dedupe(sources);
      DedupeMember(sources, sources[0]);
      var i := FirstInKeyOrder(keys, sources);
      DedupeMember(sources, keys[i]);
      forall j | 0 <= j < |sources| ensures Tally(sources, sources[j]) <= Tally(sources, keys[i]) {
        DedupeMember(sources, sources[j]);
      }
      if keys[i] == ProtoKey then
        None
      else Some(keys[i])
  }

  /**
   * An array-index source as frequent as the top source means the top source
   * is an array index too, of no greater value: `Object.entries` lists such
   * keys first, in ascending order.
   */
  lemma {:induction false} IndexTieWins(sources: seq<string>, j: nat)
    requires j < |sources| && IsArrayIndex(sources[j])
    requires TopSource(sources).Some? && Tally(sources, sources[j]) == Count(sources, TopSource(sources).value)
    ensures IsArrayIndex(TopSource(sources).value)
    ensures DigitsValue(TopSource(sources).value) <= DigitsValue(sources[j])
  {
    var keys := Dedupe(sources);
    DedupeMember(sources, sources[0]);
    var i := FirstInKeyOrder(keys, sources);
    assert TopSource(sources).value == keys[i];
    DedupeMember(sources, sources[j]);
    var a :| 0 <= a < |keys| && keys[a] == sources[j];
    assert Tally(sources, keys[a]) == Tally(sources, keys[i]);
    assert !KeyBefore(keys[a], a, keys[i], i);
  }

  /**
   * Among sources that are not array indices, ties go to the first
   * encountered: a non-index source as frequent as a non-index top source
   * never occurs before the top source's first occurrence.
   */
  lemma {:induction false} TopSourceFirstOnTies(sources: seq<string>, j: nat)
    requires j < |sources| && !IsArrayIndex(sources[j])
    requires TopSource(sources).Some? && !IsArrayIndex(TopSource(sources).value)
    // `__proto__` has no entry, so its tally is 0 and it never ties
    requires Tally(sources, sources[j]) == Count(sources, TopSource(sources).value)
    ensures TopSource(sources).value in sources[..j + 1]
  {
    var keys := Dedupe(sources);
    DedupeMember(sources, sources[0]);
    var i := FirstInKeyOrder(keys, sources);
    var t := keys[i];
    assert TopSource(sources).value == t;
    assert sources[j] in sources[..j + 1];
    DedupeKeepsFirstSeenAhead(sources, j + 1, sources[j], i);
  }

  /** An integer-like source file outranks an earlier one on a tie: ["b.pdf", "7"] gives "7". */
  lemma IndexKeyWinsTieExample()
    ensures TopSource(["b.pdf", "7"]) == Some("7")
  {
    var s := ["b.pdf", "7"];
    assert IsArrayIndex("7") by { assert DigitsValue("7") == 7; }
    assert !IsArrayIndex("b.pdf") by { assert !IsDigit('b'); }
    assert Dedupe(s) == s by { assert s[..1] == ["b.pdf"]; }
    assert s[..1] == ["b.pdf"];
    assert FirstInKeyOrder(s[..1], s) == 0;
    assert Tally(s, "7") == 1 && Tally(s, "b.pdf") == 1;
    assert KeyBefore("7", 1, "b.pdf", 0);
  }

  /** Two other source files tie to the first seen: ["b.pdf", "a.pdf"] gives "b.pdf". */
  lemma FirstSeenWinsTieExample()
    ensures TopSource(["b.pdf", "a.pdf"]) == Some("b.pdf")
  {
    var s := ["b.pdf", "a.pdf"];
    assert !IsArrayIndex("a.pdf") by { assert !IsDigit('a'); }
    assert !IsArrayIndex("b.pdf") by { assert !IsDigit('b'); }
    assert Dedupe(s) == s by { assert s[..1] == ["b.pdf"]; }
    assert s[..1] == ["b.pdf"];
    assert FirstInKeyOrder(s[..1], s) == 0;
    assert Tally(s, "a.pdf") == 1 && Tally(s, "b.pdf") == 1;
  }

  /** Source files that are all `__proto__` leave the count object empty: no top source. */
  lemma ProtoOnlyHasNoEntry()
    ensures TopSource([ProtoKey, ProtoKey]) == None
  {
  }

  /**
   * The POST handler. `search` stands for embedding the question and querying
   * the five best matches above the threshold, `generate` for the answer
   * model called with the question, the context and the language; a thrown
   * error becomes a 500 reply carrying its message.
   */
  function Handle(req: SearchRequest, env: SearchEnv,
                  search: (string, string) -> Outcome<seq<Match>>,
                  generate: (string, string, string, Option<string>) -> Outcome<string>): (r: SearchReply)
    // the key is resolved before the question is looked at
    ensures ApiKeys.ResolveApiKey(req.apiKey, env.headerKey, env.envKey).None? ==> r == Failure(500, KeyRequired)
    ensures ApiKeys.ResolveApiKey(req.apiKey, env.headerKey, env.envKey).Some? && Falsy(req.question) ==>
              r == Failure(400, QuestionRequired)
    ensures r.Failure? ==> r.status == 400 || r.status == 500
    ensures r.Answered? ==> !Falsy(req.question) && env.configured
    // nothing found: the apology, and neither answer generation nor statistics
    ensures r.Answered? && r.matches == [] ==> r.answer == Some(Apology(req.language)) && r.stats.None?
    // an answer is generated unless `generateAnswer` is given as false
    ensures r.Answered? && r.matches != [] ==> (r.answer.Some? <==> req.generateAnswer.GetOr(true))
    ensures r.Answered? && r.stats.Some? ==>
              req.includeStats && r.stats.value.matchCount == |r.matches| && |r.matches| > 0
              && r.stats.value.topSource in Sources(r.matches)
    // statistics are present exactly when asked for and something matched
    ensures r.Answered? && r.matches != [] ==> (r.stats.Some? <==> req.includeStats)
    ensures r.Answered? && r.stats.Some? ==> r.stats.value.topSource != ProtoKey
    // statistics over matches whose source files are all `__proto__` throw
    ensures r.Answered? && req.includeStats && r.matches != [] ==>
              exists k :: 0 <= k < |r.matches| && r.matches[k].sourceFile != ProtoKey
  {
    var key := ApiKeys.ResolveApiKey(req.apiKey, env.headerKey, env.envKey);
    if key.None? then Failure(500, KeyRequired)
    else if Falsy(req.question) then Failure(400, QuestionRequired)
    else if !env.configured then Failure(500, CredentialsMissing)
    else match search(req.question.value, key.value)
      case Threw(message) => Failure(500, if message == [] then "Internal server error" else message)
      case Done(matches) =>
        if matches == [] then Answered(Some(Apology(req.language)), [], None)
        else
          var answer: Outcome<Option<string>> :=
            if req.generateAnswer.GetOr(true) then
              match generate(req.question.value, Context(matches), key.value, req.language)
              case Threw(message) => Threw(message)
              case Done(text) => Done(Some(text))
            else Done(None);
          match answer
          case Threw(message) => Failure(500, if message == [] then "Internal server error" else message)
          case Done(text) =>
            if !req.includeStats then Answered(text, matches, None)
            else match TopSource(Sources(matches))
              case None => Failure(500, NoFirstEntry)
              case Some(top) => Answered(text, matches, Some(Stats(|matches|, top)))
  }

  /** A request with no key anywhere fails with 500 even when the question is missing too. */
  lemma MissingKeyOutranksMissingQuestion(req: SearchRequest, env: SearchEnv,
                                          search: (string, string) -> Outcome<seq<Match>>,
                                          generate: (string, string, string, Option<string>) -> Outcome<string>)
    requires Falsy(req.question)
    requires !ApiKeys.Usable(req.apiKey) && !ApiKeys.Usable(env.headerKey) && !ApiKeys.Usable(env.envKey)
    ensures Handle(req, env, search, generate).Failure?
    ensures Handle(req, env, search, generate).status == 500
  {
  }
}
