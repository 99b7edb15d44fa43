/**
 * The `tennis-rag-query` edge function: language detection of the question,
 * redaction of API keys and URL parameters from upstream error text, request
 * validation, and the numbered context handed to the answer model. The
 * embedding, vector search and generation calls are left to their callers.
 */
module RagQuery {

  import opened Text
  import opened Wrappers
  import opened RuleChunks
  import Citations

  // ---------------------------------------------------------------- language

  /** A Hangul compatibility jamo (ㄱ–ㅎ, ㅏ–ㅣ) or a precomposed syllable (가–힣). */
  predicate IsHangul(c: char) {
    ('ㄱ' <= c <= 'ㅎ') || ('ㅏ' <= c <= 'ㅣ') || ('가' <= c <= '힣')
  }

  /** The class `[ㄱ-ㅎ|ㅏ-ㅣ|가-힣]` as written: the pipes are members of the class. */
  predicate InKoreanClassAsWritten(c: char) {
    IsHangul(c) || c == '|'
  }

  /** `Ko` when some character of `text` is in the class, scanning from the left. */
  function DetectWith(text: string, inClass: char -> bool): (l: Language)
    ensures l == Ko <==> exists i :: 0 <= i < |text| && inClass(text[i])
  {
    if text == [] then En
    else if inClass(text[0]) then Ko
    else
      var l := DetectWith(text[1..], inClass);
      assert forall i :: 1 <= i < |text| ==> text[i] == text[1..][i - 1];
      l
  }

  /** `detectLanguage` exactly as the source's character class reads. */
  function DetectLanguageAsWritten(text: string): Language {
    DetectWith(text, InKoreanClassAsWritten)
  }

  /** `detectLanguage` as evidently intended: Korean iff some Hangul character occurs. */
  function DetectLanguage(text: string): (l: Language)
    ensures l == Ko <==> exists i :: 0 <= i < |text| && IsHangul(text[i])
  {
    DetectWith(text, IsHangul)
  }

  /** An English question that uses a pipe is taken for Korean by the source's class. */
  lemma PipeMakesQuestionKorean()
    ensures DetectLanguageAsWritten("a|b") == Ko
    ensures DetectLanguage("a|b") == En
  {
    var s := "a|b";
    assert InKoreanClassAsWritten(s[1]);
    assert !IsHangul(s[0]) && !IsHangul(s[1]) && !IsHangul(s[2]);
  }

  /** The two agree on every text without a pipe, and the source can only over-detect Korean. */
  lemma DetectionsAgreeWithoutPipe(text: string)
    ensures '|' !in text ==> DetectLanguageAsWritten(text) == DetectLanguage(text)
    ensures DetectLanguage(text) == Ko ==> DetectLanguageAsWritten(text) == Ko
  {
    assert DetectLanguageAsWritten(text) == Ko <==> exists i :: 0 <= i < |text| && InKoreanClassAsWritten(text[i]);
  }

  // ------------------------------------------------------------- API keys

  /** The characters of `[0-9A-Za-z_-]`. */
  predicate KeyChar(c: char) {
    ('0' <= c <= '9') || ('A' <= c <= 'Z') || ('a' <= c <= 'z') || c == '_' || c == '-'
  }

  /** Every character of `w` is in `[0-9A-Za-z_-]`. */
  predicate KeyChars(w: string) {
    forall j :: 0 <= j < |w| ==> KeyChar(w[j])
  }

  const KeyLen: nat := 39
  const KeyToken: string := "[API_KEY_REDACTED]"
  const ParamsToken: string := "?[PARAMS_REDACTED]"

  /** The pattern `AIza[0-9A-Za-z_-]{35}` matches all of `w`. */
  predicate IsKey(w: string) {
    |w| == KeyLen && w[..4] == "AIza" && forall j :: 4 <= j < KeyLen ==> KeyChar(w[j])
  }

  /** A Google API key starts at position `i` of `s`. */
  predicate KeyAt(s: string, i: nat) {
    i + KeyLen <= |s| && IsKey(s[i..i + KeyLen])
  }

  ghost predicate NoKey(s: string) {
    forall i: nat :: !KeyAt(s, i)
  }

  // ------------------------------------------------------- global replace

  /** `at(t)` reports a match of the pattern at the front of `t`. */
  predicate Matches(t: string, at: string -> nat) {
    0 < at(t) <= |t|
  }

  /** How much of the match at the front of `t` the replacement keeps. */
  function Kept(t: string, at: string -> nat, keep: string -> nat): (q: nat)
    ensures q <= at(t) && q <= keep(t)
  {
    if keep(t) <= at(t) then keep(t) else at(t)
  }

  /**
   * `text.replace(/pattern/g, ...)` for a pattern that never matches the empty
   * text: `at(t)` is the length of the match at the front of `t` (0 for none);
   * a match is replaced by its first `Kept` characters and `mark`, and the scan
   * resumes after the match, otherwise one character is copied.
   */
  function Rewrite(s: string, at: string -> nat, keep: string -> nat, mark: string): (r: string)
    decreases |s|
  {
    if s == [] then []
    else if Matches(s, at) then s[..Kept(s, at, keep)] + mark + Rewrite(s[at(s)..], at, keep, mark)
    else [s[0]] + Rewrite(s[1..], at, keep, mark)
  }

  /** A mark that no key can run through: short, and opening and closing with non-key characters. */
  predicate MarkBreaks(mark: string) {
    0 < |mark| <= KeyLen && !KeyChar(mark[0]) && !KeyChar(mark[|mark| - 1])
  }

  /**
   * What the text must satisfy at a scan position `t` for the rewrite to leave
   * no key: where nothing matches no key starts, and the kept part of a match
   * holds no whole key.
   */
  ghost predicate GuardAt(t: string, at: string -> nat, keep: string -> nat) {
    t != [] ==>
      if Matches(t, at) then forall i: nat :: i + KeyLen <= Kept(t, at, keep) ==> !KeyAt(t, i)
      else !KeyAt(t, 0)
  }

  ghost predicate Guarded(s: string, at: string -> nat, keep: string -> nat) {
    forall j :: 0 <= j <= |s| ==> GuardAt(s[j..], at, keep)
  }

  lemma GuardedSuffix(s: string, at: string -> nat, keep: string -> nat, n: nat)
    requires n <= |s| && Guarded(s, at, keep)
    ensures Guarded(s[n..], at, keep)
  {
    forall j | 0 <= j <= |s[n..]| ensures GuardAt(s[n..][j..], at, keep) {
      assert s[n..][j..] == s[n + j..];
    }
  }

  /** Every character of a key, `AIza` included, is a key character. */
  lemma KeyIsKeyChars(w: string)
    ensures IsKey(w) ==> KeyChars(w)
  {
    if IsKey(w) {
      assert w[0] == w[..4][0] && w[1] == w[..4][1] && w[2] == w[..4][2] && w[3] == w[..4][3];
    }
  }

  /** A window that covers a non-key character is no key. */
  lemma KeyAtBroken(r: string, i: nat, p: nat)
    requires i <= p < i + KeyLen && p < |r| && !KeyChar(r[p])
    ensures !KeyAt(r, i)
  {
    if i + KeyLen <= |r| {
      assert r[i..i + KeyLen][p - i] == r[p];
      KeyIsKeyChars(r[i..i + KeyLen]);
    }
  }

  /** Key positions of a suffix are key positions of the whole text, shifted. */
  lemma KeyAtShift(pre: string, t: string, i: nat)
    ensures KeyAt(pre + t, |pre| + i) == KeyAt(t, i)
  {
    if i + KeyLen <= |t| {
      assert (pre + t)[|pre| + i..|pre| + i + KeyLen] == t[i..i + KeyLen];
    }
  }

  /**
   * One step of the prefix-copy argument: if the tails agree on every prefix of
   * key characters, so do the texts with a common first character.
   */
  lemma ConsCopiesPrefix(x: char, t: string, u: string, k: nat)
    requires k > 0
    requires k - 1 <= |t| && KeyChars(t[..k - 1]) ==> k - 1 <= |u| && t[..k - 1] == u[..k - 1]
    ensures k <= |[x] + t| && KeyChars(([x] + t)[..k]) ==> k <= |[x] + u| && ([x] + t)[..k] == ([x] + u)[..k]
  {
    if k <= |[x] + t| && KeyChars(([x] + t)[..k]) {
      assert ([x] + t)[..k] == [x] + t[..k - 1];
      forall j | 0 <= j < k - 1 ensures KeyChar(t[j]) {
        assert t[j] == ([x] + t)[..k][j + 1];
      }
      assert KeyChars(t[..k - 1]);
      assert ([x] + u)[..k] == [x] + u[..k - 1];
    }
  }

  /** A replaced match: its kept part is copied, then the mark's non-key character ends the copy. */
  lemma MarkCopiesPrefix(s: string, q: nat, mark: string, t: string, k: nat)
    requires q <= |s| && mark != [] && !KeyChar(mark[0])
    ensures k <= |s[..q] + mark + t| && KeyChars((s[..q] + mark + t)[..k]) ==> k <= |s| && (s[..q] + mark + t)[..k] == s[..k]
  {
    var r := s[..q] + mark + t;
    if k <= |r| {
      if k <= q {
        assert r[..k] == s[..q][..k];
      } else {
        assert r[..k][q] == mark[0];
      }
    }
  }

  /** While the output shows only key characters, the rewrite copies its input. */
  lemma {:induction false} RewritePrefixKept(s: string, at: string -> nat, keep: string -> nat, mark: string, k: nat)
    requires mark != [] && !KeyChar(mark[0])
    ensures k <= |Rewrite(s, at, keep, mark)| && KeyChars(Rewrite(s, at, keep, mark)[..k]) ==>
              k <= |s| && Rewrite(s, at, keep, mark)[..k] == s[..k]
    decreases |s|
  {
    if k > 0 && s != [] {
      if Matches(s, at) {
        MarkCopiesPrefix(s, Kept(s, at, keep), mark, Rewrite(s[at(s)..], at, keep, mark), k);
      } else {
        RewritePrefixKept(s[1..], at, keep, mark, k - 1);
        ConsCopiesPrefix(s[0], Rewrite(s[1..], at, keep, mark), s[1..], k);
        assert [s[0]] + s[1..] == s;
      }
    }
  }

  /** A window that reaches into the mark after a kept part of length `q` is no key. */
  lemma MarkBreaksKeys(c: string, mark: string, t: string, i: nat)
    requires MarkBreaks(mark)
    requires |c| < i + KeyLen && i < |c| + |mark|
    ensures !KeyAt(c + mark + t, i)
  {
    var r := c + mark + t;
    if i <= |c| {
      assert r[|c|] == mark[0];
      KeyAtBroken(r, i, |c|);
    } else {
      assert r[|c| + |mark| - 1] == mark[|mark| - 1];
      KeyAtBroken(r, i, |c| + |mark| - 1);
    }
  }

  /** A window inside the kept part of a match is a window of the input. */
  lemma KeyAtInKept(s: string, q: nat, rest: string, i: nat)
    requires q <= |s| && i + KeyLen <= q
    ensures KeyAt(s[..q] + rest, i) == KeyAt(s, i)
  {
    assert (s[..q] + rest)[i..i + KeyLen] == s[..q][i..i + KeyLen] == s[i..i + KeyLen];
  }

  /** The first window of an unmatched position copies the input. */
  lemma NoKeyAtFront(s: string, at: string -> nat, keep: string -> nat, mark: string)
    requires mark != [] && !KeyChar(mark[0]) && !KeyAt(s, 0)
    ensures !KeyAt(Rewrite(s, at, keep, mark), 0)
  {
    var r := Rewrite(s, at, keep, mark);
    if KeyLen <= |r| {
      KeyIsKeyChars(r[..KeyLen]);
      RewritePrefixKept(s, at, keep, mark, KeyLen);
      assert r[0..KeyLen] == r[..KeyLen];
      if KeyLen <= |s| {
        assert s[0..KeyLen] == s[..KeyLen];
      }
    }
  }

  /** A matched front: unfolding the rewrite once. */
  lemma RewriteMatched(s: string, at: string -> nat, keep: string -> nat, mark: string)
    requires s != [] && Matches(s, at)
    ensures Rewrite(s, at, keep, mark) == s[..Kept(s, at, keep)] + mark + Rewrite(s[at(s)..], at, keep, mark)
  {
  }

  /** An unmatched front: unfolding the rewrite once. */
  lemma RewriteUnmatched(s: string, at: string -> nat, keep: string -> nat, mark: string)
    requires s != [] && !Matches(s, at)
    ensures Rewrite(s, at, keep, mark) == [s[0]] + Rewrite(s[1..], at, keep, mark)
  {
  }

  /** Windows that start in the kept part or in the mark of a front match hold no key. */
  lemma MatchWindowNoKey(s: string, at: string -> nat, keep: string -> nat, mark: string, i: nat)
    requires s != [] && Matches(s, at) && MarkBreaks(mark) && GuardAt(s, at, keep)
    requires i < Kept(s, at, keep) + |mark|
    ensures !KeyAt(Rewrite(s, at, keep, mark), i)
  {
    var q := Kept(s, at, keep);
    var t := Rewrite(s[at(s)..], at, keep, mark);
    RewriteMatched(s, at, keep, mark);
    if i + KeyLen <= q {
      KeyAtInKept(s, q, mark + t, i);
      assert s[..q] + mark + t == s[..q] + (mark + t);
    } else {
      MarkBreaksKeys(s[..q], mark, t, i);
    }
  }

  /** Past a front match, a window of the output is a window of the rewritten rest. */
  lemma {:induction false} MatchedShift(s: string, at: string -> nat, keep: string -> nat, mark: string, i: nat)
    requires s != [] && Matches(s, at) && Kept(s, at, keep) + |mark| <= i
    requires !KeyAt(Rewrite(s[at(s)..], at, keep, mark), i - Kept(s, at, keep) - |mark|)
    ensures !KeyAt(Rewrite(s, at, keep, mark), i)
  {
    var pre := s[..Kept(s, at, keep)] + mark;
    var t := Rewrite(s[at(s)..], at, keep, mark);
    RewriteMatched(s, at, keep, mark);
    assert Rewrite(s, at, keep, mark) == pre + t;
    KeyAtShift(pre, t, i - |pre|);
    assert |pre| + (i - |pre|) == i;
    assert i - |pre| == i - Kept(s, at, keep) - |mark|;
  }

  /** Past an unmatched first character, a window of the output is a window of the rewritten tail. */
  lemma UnmatchedShift(s: string, at: string -> nat, keep: string -> nat, mark: string, i: nat)
    requires s != [] && !Matches(s, at) && i > 0
    requires !KeyAt(Rewrite(s[1..], at, keep, mark), i - 1)
    ensures !KeyAt(Rewrite(s, at, keep, mark), i)
  {
    RewriteUnmatched(s, at, keep, mark);
    KeyAtShift([s[0]], Rewrite(s[1..], at, keep, mark), i - 1);
    assert |[s[0]]| + (i - 1) == i;
  }

  /** No key starts at position `i` of a guarded rewrite. */
  lemma {:induction false} RewriteNoKeyAt(s: string, at: string -> nat, keep: string -> nat, mark: string, i: nat)
    requires MarkBreaks(mark) && Guarded(s, at, keep)
    ensures !KeyAt(Rewrite(s, at, keep, mark), i)
    decreases |s|
  {
    if s != [] {
      assert GuardAt(s[0..], at, keep);
      assert s[0..] == s;
      if Matches(s, at) {
        if i < Kept(s, at, keep) + |mark| {
          MatchWindowNoKey(s, at, keep, mark, i);
        } else {
          GuardedSuffix(s, at, keep, at(s));
          RewriteNoKeyAt(s[at(s)..], at, keep, mark, i - Kept(s, at, keep) - |mark|);
          MatchedShift(s, at, keep, mark, i);
        }
      } else if i == 0 {
        NoKeyAtFront(s, at, keep, mark);
      } else {
        GuardedSuffix(s, at, keep, 1);
        RewriteNoKeyAt(s[1..], at, keep, mark, i - 1);
        UnmatchedShift(s, at, keep, mark, i);
      }
    }
  }

  lemma RewriteLeavesNoKey(s: string, at: string -> nat, keep: string -> nat, mark: string)
    requires MarkBreaks(mark) && Guarded(s, at, keep)
    ensures NoKey(Rewrite(s, at, keep, mark))
  {
    forall i: nat ensures !KeyAt(Rewrite(s, at, keep, mark), i) {
      RewriteNoKeyAt(s, at, keep, mark, i);
    }
  }

  /** Where the pattern matches nowhere, the rewrite returns its input. */
  lemma {:induction false} RewriteWithoutMatch(s: string, at: string -> nat, keep: string -> nat, mark: string)
    ensures (forall j :: 0 <= j < |s| ==> !Matches(s[j..], at)) ==> Rewrite(s, at, keep, mark) == s
    decreases |s|
  {
    if s != [] && forall j :: 0 <= j < |s| ==> !Matches(s[j..], at) {
      assert s[0..] == s;
      forall j | 0 <= j < |s[1..]| ensures !Matches(s[1..][j..], at) {
        assert s[1..][j..] == s[j + 1..];
      }
      RewriteWithoutMatch(s[1..], at, keep, mark);
    }
  }

  /** An occurrence at the front of a suffix is an occurrence in the text. */
  lemma OccursInSuffix(s: string, p: string, j: nat)
    requires j <= |s| && OccursAt(s[j..], p, 0)
    ensures Contains(s, p)
  {
    assert s[j..][0..|p|] == s[j..j + |p|];
    assert OccursAt(s, p, j);
  }

  // ----------------------------------------------------------- key pass

  /** A key match is 39 characters long; nothing of it is kept. */
  function KeyMatch(t: string): nat {
    if KeyAt(t, 0) then KeyLen else 0
  }

  function NoKeep(t: string): nat {
    0
  }

  /** The first replace of `sanitizeErrorMessage`: every key becomes `[API_KEY_REDACTED]`. */
  function RedactKeys(s: string): string {
    Rewrite(s, KeyMatch, NoKeep, KeyToken)
  }

  lemma RedactKeysLeavesNoKey(s: string)
    ensures NoKey(RedactKeys(s))
  {
    assert Guarded(s, KeyMatch, NoKeep);
    RewriteLeavesNoKey(s, KeyMatch, NoKeep, KeyToken);
  }

  lemma RedactKeysKeepsKeylessText(s: string)
    ensures !Contains(s, "AIza") ==> RedactKeys(s) == s
  {
    if !Contains(s, "AIza") {
      forall j | 0 <= j < |s| ensures !Matches(s[j..], KeyMatch) {
        if KeyLen <= |s[j..]| {
          assert s[j..][0..KeyLen][..4] == s[j..][0..4];
          if OccursAt(s[j..], "AIza", 0) {
            OccursInSuffix(s, "AIza", j);
          }
        }
      }
      RewriteWithoutMatch(s, KeyMatch, NoKeep, KeyToken);
    }
  }

  /** Example: a key inside an error message is replaced by the mark. */
  lemma RedactsKeyExample()
    ensures RedactKeys("AIza" + seq(35, _ => 'x')) == KeyToken
  {
    var s := "AIza" + seq(35, _ => 'x');
    assert s[0..KeyLen] == s && s[..4] == "AIza";
    assert KeyAt(s, 0) && Matches(s, KeyMatch);
    assert Kept(s, KeyMatch, NoKeep) == 0;
    assert Rewrite(s[KeyLen..], KeyMatch, NoKeep, KeyToken) == [];
  }

  // ----------------------------------------------------------- URL pass

  /** The length of the longest prefix without whitespace. */
  function NonSpaceRun(s: string): (k: nat)
    ensures k <= |s|
    ensures forall j :: 0 <= j < k ==> !IsSpace(s[j])
    ensures k < |s| ==> IsSpace(s[k])
  {
    if s != [] && !IsSpace(s[0]) then 1 + NonSpaceRun(s[1..]) else 0
  }

  /** 7 for `http://`, 8 for `https://`, 0 when the text does not open with either. */
  function SchemeLen(s: string): (h: nat)
    ensures h > 0 ==> StartsWith(s, "http") && h <= |s|
  {
    if StartsWith(s, "http://") then 7
    else if StartsWith(s, "https://") then 8
    else 0
  }

  /**
   * The length of the match at position 0 of the URL pattern (scheme `http://` or
   * `https://`, a non-space run, `?`, a non-space run), or 0: after the scheme, a
   * non-space run holding a `?` that is not its first character. Being greedy,
   * the match runs to the end of that non-space run.
   */
  function UrlAt(s: string): (n: nat)
    ensures n <= |s|
    ensures n > 0 ==> '?' in s[..n]
  {
    var h := SchemeLen(s);
    if h == 0 then 0
    else
      var n := h + NonSpaceRun(s[h..]);
      if h + 1 < n && '?' in s[h + 1..n] then
        assert forall c :: c in s[h + 1..n] ==> c in s[..n] by {
          assert s[h + 1..n] == s[..n][h + 1..];
        }
        n
      else 0
  }

  /** `url.split('?')[0]`: the URL cut before its first `?`. */
  function CutAtQuery(u: string): (c: string)
    requires '?' in u
    ensures |c| < |u| && c == u[..|c|] && u[|c|] == '?' && '?' !in c
  {
    FirstIndexIsFirst(u, '?');
    SplitOn(u, '?')[0]
  }

  /** Where the query of the URL at the front of `t` starts. */
  function QueryStart(t: string): nat {
    if UrlAt(t) > 0 then |CutAtQuery(t[..UrlAt(t)])| else 0
  }

  /** The second replace of `sanitizeErrorMessage`: each URL loses its parameters. */
  function RedactUrls(s: string): string {
    Rewrite(s, UrlAt, QueryStart, ParamsToken)
  }

  /**
   * A URL with parameters at the front of the text becomes its part before the
   * first `?` (`url.split('?')[0]`) and the mark; the scan resumes after the URL.
   */
  lemma UrlParamsRedacted(s: string)
    requires UrlAt(s) > 0
    ensures RedactUrls(s) == CutAtQuery(s[..UrlAt(s)]) + ParamsToken + RedactUrls(s[UrlAt(s)..])
    ensures '?' !in CutAtQuery(s[..UrlAt(s)])
  {
    var n := UrlAt(s);
    var c := CutAtQuery(s[..n]);
    assert Kept(s, UrlAt, QueryStart) == |c|;
    assert s[..|c|] == s[..n][..|c|];
  }

  lemma RedactUrlsKeepsNoKey(s: string)
    requires NoKey(s)
    ensures NoKey(RedactUrls(s))
  {
    forall j | 0 <= j <= |s| ensures GuardAt(s[j..], UrlAt, QueryStart) {
      forall i: nat ensures !KeyAt(s[j..], i) {
        KeyAtShift(s[..j], s[j..], i);
        assert s[..j] + s[j..] == s;
      }
    }
    RewriteLeavesNoKey(s, UrlAt, QueryStart, ParamsToken);
  }

  lemma RedactUrlsKeepsPlainText(s: string)
    ensures !Contains(s, "http") ==> RedactUrls(s) == s
  {
    if !Contains(s, "http") {
      forall j | 0 <= j < |s| ensures !Matches(s[j..], UrlAt) {
        if SchemeLen(s[j..]) > 0 {
          OccursInSuffix(s, "http", j);
        }
      }
      RewriteWithoutMatch(s, UrlAt, QueryStart, ParamsToken);
    }
  }

  /** The URL `http://a?k` is matched whole. */
  lemma UrlAtExample()
    ensures UrlAt("http://a?k") == 10
  {
    var s := "http://a?k";
    assert s[..7] == "http://";
    assert s[7..] == "a?k";
    assert NonSpaceRun("a?k") == 3 by {
      assert "a?k"[1..] == "?k" && "?k"[1..] == "k" && "k"[1..] == [];
    }
    assert s[8..10][0] == '?';
  }

  /** `sanitizeErrorMessage`. */
  function Sanitize(message: string): (r: string)
    // no API key survives, whatever the message held
    ensures NoKey(r)
    // a message with nothing to redact passes through unchanged
    ensures !Contains(message, "AIza") && !Contains(message, "http") ==> r == message
  {
    RedactKeysLeavesNoKey(message);
    RedactUrlsKeepsNoKey(RedactKeys(message));
    RedactKeysKeepsKeylessText(message);
    RedactUrlsKeepsPlainText(message);
    RedactUrls(RedactKeys(message))
  }

  // ----------------------------------------------------------- the request

  /** The request body fields read before the embedding call; absent is `None`. */
  datatype RagRequest = RagRequest(question: Option<string>, apiKey: Option<string>, model: Option<string>)

  datatype Checked =
    | Rejected(status: nat, error: string)
    | Accepted(question: string, key: string, model: string, language: Language)

  const ModelRequired: string := "Model parameter is required. Please specify a Gemini model (e.g., 'gemini-2.5-flash')."
  const QuestionRequired: string := "Question is required."
  const KeyRequired: string := "Gemini API key is required (client or server)."

  /**
   * The checks ahead of the embedding call, in the source's order: model, then
   * question, then key (`client_api_key || env`, untrimmed).
   */
  function Validate(req: RagRequest, envKey: Option<string>): (r: Checked)
    ensures Falsy(req.model) ==> r == Rejected(400, ModelRequired)
    ensures !Falsy(req.model) && (req.question.None? || IsBlank(req.question.value)) ==>
              r == Rejected(400, QuestionRequired)
    ensures r == Rejected(400, KeyRequired) <==>
              !Falsy(req.model) && req.question.Some? && !IsBlank(req.question.value) && Falsy(req.apiKey) && Falsy(envKey)
    ensures r.Accepted? <==>
              !Falsy(req.model) && req.question.Some? && !IsBlank(req.question.value) && !(Falsy(req.apiKey) && Falsy(envKey))
    ensures r.Accepted? ==> r.key != [] && r.key == (if Falsy(req.apiKey) then envKey.value else req.apiKey.value)
    ensures r.Accepted? ==> r.language == DetectLanguage(r.question)
    ensures r.Rejected? ==> r.status == 400
  {
    if Falsy(req.model) then Rejected(400, ModelRequired)
    else if req.question.None? then Rejected(400, QuestionRequired)
    else if Strip(req.question.value) == [] then
      StripEmptyIffBlank(req.question.value);
      Rejected(400, QuestionRequired)
    else
      StripEmptyIffBlank(req.question.value);
      var key := if !Falsy(req.apiKey) then req.apiKey else envKey;
      if Falsy(key) then Rejected(400, KeyRequired)
      else Accepted(req.question.value, key.value, req.model.value, DetectLanguage(req.question.value))
  }

  /** The reply to a failed embedding call carries the sanitized upstream text. */
  datatype Failure = Failure(status: nat, error: string, details: string)

  function EmbeddingFailure(errorText: string): (f: Failure)
    ensures f.status == 500 && NoKey(f.details)
  {
    Failure(500, "Gemini API call failed", Sanitize(errorText))
  }

  // ------------------------------------------------------------- context

  /** One row of `match_tennis_rules`; the similarity is already rendered with three decimals. */
  datatype SearchResult = SearchResult(ruleId: string, content: string, similarity: string)

  function Body(r: SearchResult): string {
    r.ruleId + "\n" + r.content + "\n(Similarity: " + r.similarity + ")"
  }

  const Separator: string := "\n\n---\n\n"

  /** The context blocks, numbered in result order and separated by a rule line. */
  function Context(results: seq<SearchResult>): (c: string)
    ensures results == [] ==> c == []
    ensures |results| == 1 ==> c == Citations.Cite(1) + Body(results[0])
  {
    Join(Separator, Citations.Blocks(results, Body))
  }
}
