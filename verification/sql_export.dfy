/**
 * The SQL side of the generator script's `generate_sql`: single-quote escaping
 * of every literal, the metadata JSON, the bounded exponential-backoff retry of
 * the embedding call, and one INSERT line per chunk that obtained an embedding.
 *
 * The embedding service is an oracle: `call(a)` is what attempt `a` returns.
 * Vector normalisation is floating point and is not modelled; a vector enters
 * the model already rendered as text.
 */
module SqlExport {

  import opened Text
  import opened RuleChunks
  import Wrappers

  // ---------------------------------------------------------------------------
  // Quote escaping
  // ---------------------------------------------------------------------------

  const Quote: char := '\''

  /** `s.replace("'", "''")`. */
  function Escape(s: string): (r: string)
    ensures |r| >= |s|
    ensures Quote !in s ==> r == s
  {
    if |s| == 0 then []
    else (if s[0] == Quote then [Quote, Quote] else [s[0]]) + Escape(s[1..])
  }

  /** The reverse replacement, `''` back to `'`, scanning left to right. */
  function Unescape(e: string): (r: string)
    ensures |r| <= |e|
  {
    if |e| == 0 then []
    else if |e| >= 2 && e[0] == Quote && e[1] == Quote then [Quote] + Unescape(e[2..])
    else [e[0]] + Unescape(e[1..])
  }

  /** Every quote is one of an adjacent pair. */
  predicate QuotesPaired(e: string)
    decreases |e|
  {
    if |e| == 0 then true
    else if e[0] == Quote then |e| >= 2 && e[1] == Quote && QuotesPaired(e[2..])
    else QuotesPaired(e[1..])
  }

  /** Escaped text never holds an unpaired quote. */
  lemma {:induction false} EscapePairsQuotes(s: string)
    ensures QuotesPaired(Escape(s))
  {
    if |s| > 0 {
      EscapePairsQuotes(s[1..]);
      var r := Escape(s);
      if s[0] == Quote {
        assert r[2..] == Escape(s[1..]);
      } else {
        assert r[1..] == Escape(s[1..]);
      }
    }
  }

  /** Un-doubling the escaped text gives the original back. */
  lemma {:induction false} UnescapeEscape(s: string)
    ensures Unescape(Escape(s)) == s
  {
    if |s| > 0 {
      UnescapeEscape(s[1..]);
      var r := Escape(s);
      if s[0] == Quote {
        assert r[2..] == Escape(s[1..]);
      } else {
        assert r[1..] == Escape(s[1..]);
      }
      assert s == [s[0]] + s[1..];
    }
  }

  /** ... and text whose quotes are paired is the escape of its un-doubling. */
  lemma {:induction false} EscapeUnescape(e: string)
    requires QuotesPaired(e)
    ensures Escape(Unescape(e)) == e
    decreases |e|
  {
    if |e| > 0 {
      if e[0] == Quote {
        EscapeUnescape(e[2..]);
        assert Unescape(e) == [Quote] + Unescape(e[2..]);
        assert Escape(Unescape(e))[2..] == Escape(Unescape(e[2..]));
        assert e == e[..2] + e[2..];
      } else {
        EscapeUnescape(e[1..]);
        assert Unescape(e) == [e[0]] + Unescape(e[1..]);
        assert Escape(Unescape(e))[1..] == Escape(Unescape(e[1..]));
        assert e == [e[0]] + e[1..];
      }
    }
  }

  /**
   * How SQL reads a string literal after its opening quote: `''` stands for
   * one quote, and a lone quote closes the literal. Gives the value and the
   * text after the closing quote, or `None` if the literal never closes.
   */
  function ReadLiteral(t: string): Wrappers.Option<(string, string)>
    decreases |t|
  {
    if |t| == 0 then Wrappers.None
    else if t[0] == Quote then
      if |t| >= 2 && t[1] == Quote then
        match ReadLiteral(t[2..])
        case None => Wrappers.None
        case Some(p) => Wrappers.Some(([Quote] + p.0, p.1))
      else Wrappers.Some(([], t[1..]))
    else
      match ReadLiteral(t[1..])
      case None => Wrappers.None
      case Some(p) => Wrappers.Some(([t[0]] + p.0, p.1))
  }

  /**
   * An escaped value between quotes reads back as exactly that value, and the
   * statement text after it is untouched: no value can close its literal early.
   * (What follows a literal in the statement is a comma or `::`, never a quote.)
   */
  lemma {:induction false} EscapedLiteralReadsBack(s: string, rest: string)
    requires |rest| == 0 || rest[0] != Quote
    ensures ReadLiteral(Escape(s) + [Quote] + rest) == Wrappers.Some((s, rest))
  {
    if |s| == 0 {
      var t := [Quote] + rest;
      assert Escape(s) + [Quote] + rest == t;
      assert t[1..] == rest;
    } else {
      EscapedLiteralReadsBack(s[1..], rest);
      ReadBackStep(s, rest);
    }
  }

  /** One step of the read-back: the first character of `s` comes back first. */
  lemma ReadBackStep(s: string, rest: string)
    requires |s| > 0
    requires ReadLiteral(Escape(s[1..]) + [Quote] + rest) == Wrappers.Some((s[1..], rest))
    ensures ReadLiteral(Escape(s) + [Quote] + rest) == Wrappers.Some((s, rest))
  {
    assert [s[0]] + s[1..] == s;
    if s[0] == Quote {
      QuoteStep(s[1..], rest);
    } else {
      PlainStep(s[0], s[1..], rest);
    }
  }

  lemma QuoteStep(t: string, rest: string)
    requires ReadLiteral(Escape(t) + [Quote] + rest) == Wrappers.Some((t, rest))
    ensures ReadLiteral(Escape([Quote] + t) + [Quote] + rest) == Wrappers.Some(([Quote] + t, rest))
  {
    var u := Escape(t) + [Quote] + rest;
    assert ([Quote] + t)[1..] == t;
    assert Escape([Quote] + t) + [Quote] + rest == [Quote, Quote] + u;
    ReadDoubledQuote(u, t, rest);
  }

  lemma {:induction false} PlainStep(c: char, t: string, rest: string)
    requires c != Quote
    requires ReadLiteral(Escape(t) + [Quote] + rest) == Wrappers.Some((t, rest))
    ensures ReadLiteral(Escape([c] + t) + [Quote] + rest) == Wrappers.Some(([c] + t, rest))
  {
    var u := Escape(t) + [Quote] + rest;
    assert ([c] + t)[1..] == t;
    assert Escape([c] + t) + [Quote] + rest == [c] + u;
    ReadPlainChar(c, u, t, rest);
  }

  /** Inside a literal, `''` reads as one quote and the reading goes on. */
  lemma ReadDoubledQuote(u: string, v: string, r: string)
    requires ReadLiteral(u) == Wrappers.Some((v, r))
    ensures ReadLiteral([Quote, Quote] + u) == Wrappers.Some(([Quote] + v, r))
  {
    assert ([Quote, Quote] + u)[2..] == u;
  }

  /** Inside a literal, any other character reads as itself. */
  lemma ReadPlainChar(c: char, u: string, v: string, r: string)
    requires c != Quote && ReadLiteral(u) == Wrappers.Some((v, r))
    ensures ReadLiteral([c] + u) == Wrappers.Some(([c] + v, r))
  {
    assert ([c] + u)[1..] == u;
  }

  // ---------------------------------------------------------------------------
  // Metadata and the INSERT line
  // ---------------------------------------------------------------------------

  /** `json.dumps(metadata, ensure_ascii=False)` with the default separators. */
  function MetadataJson(language: Language, c: Chunk): string {
    "{\"language\": \"" + language.Code() + "\", \"section_type\": \"" + c.sectionType.Label()
    + "\", \"original_len\": " + NatToString(c.originalLen) + "}"
  }

  lemma LabelHasNoQuote(t: SectionType, l: Language)
    ensures Quote !in t.Label() && Quote !in l.Code()
  {
  }

  /** The metadata JSON holds no single quote, so escaping leaves it as it is. */
  lemma {:induction false} MetadataNeedsNoEscape(language: Language, c: Chunk)
    ensures Escape(MetadataJson(language, c)) == MetadataJson(language, c)
  {
    LabelHasNoQuote(c.sectionType, language);
    var n := NatToString(c.originalLen);
    assert Quote !in n by {
      forall i | 0 <= i < |n| ensures n[i] != Quote {
        assert IsDigit(n[i]);
      }
    }
    var a := "{\"language\": \"" + language.Code();
    var b := a + "\", \"section_type\": \"" + c.sectionType.Label();
    var d := b + "\", \"original_len\": " + n;
    NoQuoteConcat("{\"language\": \"", language.Code());
    NoQuoteConcat(a, "\", \"section_type\": \"");
    NoQuoteConcat(a + "\", \"section_type\": \"", c.sectionType.Label());
    NoQuoteConcat(b, "\", \"original_len\": ");
    NoQuoteConcat(b + "\", \"original_len\": ", n);
    NoQuoteConcat(d, "}");
  }

  lemma NoQuoteConcat(a: string, b: string)
    requires Quote !in a && Quote !in b
    ensures Quote !in a + b
  {
  }

  /** A quoted SQL literal. */
  function Literal(s: string): (lit: string)
    ensures |lit| >= 2 && lit[0] == Quote && lit[1..] == Escape(s) + [Quote]
  {
    [Quote] + Escape(s) + [Quote]
  }

  /** The values of one INSERT statement; `vector` is the rendered embedding. */
  datatype Insert = Insert(source: string, ruleId: string, content: string, metadata: string, vector: string)

  /** The statement written for chunk `c` of `source`. */
  function InsertFor(source: string, language: Language, c: Chunk, vector: string): Insert {
    Insert(source, c.ruleId, c.content, MetadataJson(language, c), vector)
  }

  const InsertPrefix: string := "INSERT INTO tennis_rules (source_file, rule_id, content, metadata, embedding) VALUES ("

  /** The statement as written to the file, one line. */
  function Render(st: Insert): string {
    InsertPrefix + Literal(st.source) + ", " + Literal(st.ruleId) + ", " + Literal(st.content) + ", "
    + Literal(st.metadata) + "::jsonb, '" + st.vector + "'::vector);\n"
  }

  // ---------------------------------------------------------------------------
  // Retry
  // ---------------------------------------------------------------------------

  datatype CallResult = Embedded(vector: string) | Failed(message: string)

  const MaxRetries: nat := 5
  const FirstDelay: nat := 2

  /** A failure worth retrying: its message mentions "429" or "Resource exhausted". */
  predicate IsRateLimit(r: CallResult) {
    r.Failed? && (Contains(r.message, "429") || Contains(r.message, "Resource exhausted"))
  }

  function Pow2(k: nat): (p: nat)
    ensures p >= 1
  {
    if k == 0 then 1 else 2 * Pow2(k - 1)
  }

  /**
   * The retry loop for one chunk: returns the vector if some attempt succeeded,
   * how many attempts were made, and the sleeps taken between them.
   */
  method EmbedWithRetry(call: nat -> CallResult) returns (vector: Wrappers.Option<string>, attempts: nat, sleeps: seq<nat>)
    ensures 1 <= attempts <= MaxRetries
    ensures |sleeps| == attempts - 1
    ensures forall k :: 0 <= k < |sleeps| ==> sleeps[k] == FirstDelay * Pow2(k)
    // every attempt before the last failed with a rate limit
    ensures forall a :: 0 <= a < attempts - 1 ==> IsRateLimit(call(a))
    // the last attempt decides
    ensures vector.Some? <==> call(attempts - 1).Embedded?
    ensures vector.Some? ==> vector.value == call(attempts - 1).vector
    // a failure ends the loop early only when it is not a rate limit
    ensures vector.None? && attempts < MaxRetries ==> !IsRateLimit(call(attempts - 1))
  {
    var delay := FirstDelay;
    attempts := 0;
    sleeps := [];
    while true
      invariant attempts < MaxRetries
      invariant |sleeps| == attempts && delay == FirstDelay * Pow2(attempts)
      invariant forall k :: 0 <= k < |sleeps| ==> sleeps[k] == FirstDelay * Pow2(k)
      invariant forall a :: 0 <= a < attempts ==> IsRateLimit(call(a))
      decreases MaxRetries - attempts
    {
      var result := call(attempts);
      if result.Embedded? {
        vector := Wrappers.Some(result.vector);
        attempts := attempts + 1;
        return;
      }
      if IsRateLimit(result) && attempts < MaxRetries - 1 {
        sleeps := sleeps + [delay];
        delay := delay * 2;
        attempts := attempts + 1;
      } else {
        vector := Wrappers.None;
        attempts := attempts + 1;
        return;
      }
    }
  }

  // ---------------------------------------------------------------------------
  // The output file
  // ---------------------------------------------------------------------------

  /**
   * The statements written for `chunks`, where `vectors[k]` is what the retry
   * loop obtained for chunk `k`: chunks without a vector are skipped.
   */
  function Statements(source: string, language: Language, chunks: seq<Chunk>, vectors: seq<Wrappers.Option<string>>): (r: seq<Insert>)
    requires |vectors| == |chunks|
    ensures |r| == Wrappers.CountSome(vectors) <= |chunks|
  {
    if |chunks| == 0 then []
    else
      var rest := Statements(source, language, chunks[1..], vectors[1..]);
      match vectors[0]
      case Some(v) => [InsertFor(source, language, chunks[0], v)] + rest
      case None => rest
  }

  /** Every statement was written for a chunk that obtained a vector, and carries that vector. */
  lemma {:induction false} StatementsNeedVectors(source: string, language: Language, chunks: seq<Chunk>, vectors: seq<Wrappers.Option<string>>)
    requires |vectors| == |chunks|
    ensures forall st :: st in Statements(source, language, chunks, vectors) ==>
      exists k :: 0 <= k < |chunks| && vectors[k].Some? && st == InsertFor(source, language, chunks[k], vectors[k].value)
  {
    if |chunks| > 0 {
      StatementsNeedVectors(source, language, chunks[1..], vectors[1..]);
      var rest := Statements(source, language, chunks[1..], vectors[1..]);
      forall st | st in rest
        ensures exists k :: 0 <= k < |chunks| && vectors[k].Some? && st == InsertFor(source, language, chunks[k], vectors[k].value)
      {
        var j :| 0 <= j < |chunks[1..]| && vectors[1..][j].Some? && st == InsertFor(source, language, chunks[1..][j], vectors[1..][j].value);
        assert chunks[1..][j] == chunks[j + 1] && vectors[1..][j] == vectors[j + 1];
      }
    }
  }

  /** Every chunk that obtained a vector has its statement written. */
  lemma {:induction false} VectorsGiveStatements(source: string, language: Language, chunks: seq<Chunk>, vectors: seq<Wrappers.Option<string>>)
    requires |vectors| == |chunks|
    ensures forall k :: 0 <= k < |chunks| && vectors[k].Some? ==>
      InsertFor(source, language, chunks[k], vectors[k].value) in Statements(source, language, chunks, vectors)
  {
    if |chunks| > 0 {
      VectorsGiveStatements(source, language, chunks[1..], vectors[1..]);
      var rest := Statements(source, language, chunks[1..], vectors[1..]);
      var all := Statements(source, language, chunks, vectors);
      assert forall st :: st in rest ==> st in all;
      forall k | 1 <= k < |chunks| && vectors[k].Some?
        ensures InsertFor(source, language, chunks[k], vectors[k].value) in all
      {
        assert chunks[1..][k - 1] == chunks[k] && vectors[1..][k - 1] == vectors[k];
      }
    }
  }

  /** The file body: the rendered statements, one per line. */
  function SqlText(sts: seq<Insert>): (text: string)
    ensures sts == [] ==> text == []
  {
    if |sts| == 0 then [] else Render(sts[0]) + SqlText(sts[1..])
  }
}
