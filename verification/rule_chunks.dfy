/**
 * The vocabulary shared by both rules-text chunkers (the SQL generator script
 * and the ETL edge function): languages, section labels, chunk records, the
 * section classifier, and the pre-split form of a rule body.
 *
 * The header regular expression itself is not modelled: a body arrives already
 * cut into a leading text and a list of (header, following text) sections, and
 * `PyParts` / `JsParts` rebuild the exact list that Python's `re.split` (two
 * capture groups) and JavaScript's `String.prototype.split` (one capture group)
 * return for that cut.
 */
module RuleChunks {

  import opened Text

  datatype Language = Ko | En {
    function Code(): string {
      match this
      case Ko => "ko"
      case En => "en"
    }
  }

  datatype SectionType = Rule | SubSection | Appendix | Foreword | Other {
    /** The label written into chunk metadata. */
    function Label(): string {
      match this
      case Rule => "rule"
      case SubSection => "sub-section"
      case Appendix => "appendix"
      case Foreword => "foreword"
      case Other => "other"
    }
  }

  /** One chunk: identifier, text, label, and the length before any cap. */
  datatype Chunk = Chunk(ruleId: string, content: string, sectionType: SectionType, originalLen: nat)

  /** The 8000-character cap on foreword and fallback content. */
  const ContentCap: nat := 8000

  /** The minimum stripped length (exclusive) of a body chunk. */
  const MinBodyLen: nat := 30

  // ---------------------------------------------------------------------------
  // Classifier patterns, stated as "some prefix matches" (the regex reading)
  // ---------------------------------------------------------------------------

  predicate IsAsciiLetter(c: char) {
    ('a' <= c <= 'z') || ('A' <= c <= 'Z')
  }

  predicate IsRomanLetter(c: char) {
    c in "IVXivx"
  }

  /** `^\d+\.`: one or more digits then a full stop. */
  predicate NumberedPrefix(s: string) {
    exists k :: 1 <= k < |s| && AllDigits(s[..k]) && s[k] == '.'
  }

  /** `^[a-zA-Z]\.`: a single letter then a full stop. */
  predicate LetteredPrefix(s: string) {
    |s| >= 2 && IsAsciiLetter(s[0]) && s[1] == '.'
  }

  /** `^[IVX]+\.` under IGNORECASE. */
  predicate RomanPrefix(s: string) {
    exists k :: 1 <= k < |s| && (forall j :: 0 <= j < k ==> IsRomanLetter(s[j])) && s[k] == '.'
  }

  /** `^(부록|Appendix|APPENDIX|[IVX]+\.)` under IGNORECASE. */
  predicate AppendixPrefix(s: string) {
    StartsWith(s, "부록") || StartsWith(Lower(s), "appendix") || RomanPrefix(s)
  }

  /** `^(Foreword|머리말|FOREWORD)` under IGNORECASE. */
  predicate ForewordPrefix(s: string) {
    StartsWith(Lower(s), "foreword") || StartsWith(s, "머리말")
  }

  // ---------------------------------------------------------------------------
  // Deterministic scanners for the same patterns
  // ---------------------------------------------------------------------------

  function RomanRun(s: string): (k: nat)
    ensures k <= |s| && forall j :: 0 <= j < k ==> IsRomanLetter(s[j])
    ensures k < |s| ==> !IsRomanLetter(s[k])
  {
    if |s| > 0 && IsRomanLetter(s[0]) then 1 + RomanRun(s[1..]) else 0
  }

  /** A digit run that stops at a non-digit (or the end) is the longest one. */
  lemma {:induction false} DigitRunStopsAt(s: string, m: nat)
    requires m <= |s| && AllDigits(s[..m])
    requires m < |s| ==> !IsDigit(s[m])
    ensures DigitRun(s) == m
  {
    if m > 0 {
      assert s[1..][..m - 1] == s[..m][1..];
      DigitRunStopsAt(s[1..], m - 1);
    }
  }

  lemma RomanRunStopsAt(s: string, m: nat)
    requires m <= |s| && forall j :: 0 <= j < m ==> IsRomanLetter(s[j])
    requires m < |s| ==> !IsRomanLetter(s[m])
    ensures RomanRun(s) == m
  {
    if m > 0 {
      RomanRunStopsAt(s[1..], m - 1);
    }
  }

  lemma {:induction false} NumberedByScan(s: string)
    ensures NumberedPrefix(s) <==> (1 <= DigitRun(s) < |s| && s[DigitRun(s)] == '.')
  {
    if NumberedPrefix(s) {
      var m :| 1 <= m < |s| && AllDigits(s[..m]) && s[m] == '.';
      DigitRunStopsAt(s, m);
    }
  }

  lemma RomanByScan(s: string)
    ensures RomanPrefix(s) <==> (1 <= RomanRun(s) < |s| && s[RomanRun(s)] == '.')
  {
    if RomanPrefix(s) {
      var m :| 1 <= m < |s| && (forall j :: 0 <= j < m ==> IsRomanLetter(s[j])) && s[m] == '.';
      RomanRunStopsAt(s, m);
    }
  }

  function IsNumbered(s: string): (b: bool)
    ensures b <==> NumberedPrefix(s)
  {
    NumberedByScan(s);
    var k := DigitRun(s);
    1 <= k < |s| && s[k] == '.'
  }

  function IsRomanNumbered(s: string): (b: bool)
    ensures b <==> RomanPrefix(s)
  {
    RomanByScan(s);
    var k := RomanRun(s);
    1 <= k < |s| && s[k] == '.'
  }

  /**
   * `_classify_section` of the SQL generator: the first of five patterns that
   * matches decides the label.
   */
  function ClassifySection(ruleId: string): (t: SectionType)
    ensures t == Rule <==> NumberedPrefix(ruleId)
    ensures t == SubSection <==> !NumberedPrefix(ruleId) && LetteredPrefix(ruleId)
    ensures t == Appendix <==> !NumberedPrefix(ruleId) && !LetteredPrefix(ruleId) && AppendixPrefix(ruleId)
    ensures t == Foreword <==>
      !NumberedPrefix(ruleId) && !LetteredPrefix(ruleId) && !AppendixPrefix(ruleId) && ForewordPrefix(ruleId)
    ensures t == Other <==>
      !NumberedPrefix(ruleId) && !LetteredPrefix(ruleId) && !AppendixPrefix(ruleId) && !ForewordPrefix(ruleId)
  {
    if IsNumbered(ruleId) then Rule
    else if LetteredPrefix(ruleId) then SubSection
    else if StartsWith(ruleId, "부록") || StartsWith(Lower(ruleId), "appendix") || IsRomanNumbered(ruleId) then Appendix
    else if ForewordPrefix(ruleId) then Foreword
    else Other
  }

  /**
   * The edge function's inline classification: the same first three tests, and
   * `other` for everything else (it has no foreword test).
   */
  function EtlSectionType(ruleId: string): (t: SectionType)
    ensures t != Foreword
    ensures t == Rule <==> NumberedPrefix(ruleId)
    ensures t == SubSection <==> !NumberedPrefix(ruleId) && LetteredPrefix(ruleId)
    ensures t == Appendix <==> !NumberedPrefix(ruleId) && !LetteredPrefix(ruleId) && AppendixPrefix(ruleId)
  {
    if IsNumbered(ruleId) then Rule
    else if LetteredPrefix(ruleId) then SubSection
    else if StartsWith(ruleId, "부록") || StartsWith(Lower(ruleId), "appendix") || IsRomanNumbered(ruleId) then Appendix
    else Other
  }

  /** The edge function's label is the script's, except that `foreword` becomes `other`. */
  function WithoutForeword(t: SectionType): SectionType {
    if t == Foreword then Other else t
  }

  lemma EtlClassifierIsScriptClassifierWithoutForeword(ruleId: string)
    ensures EtlSectionType(ruleId) == WithoutForeword(ClassifySection(ruleId))
  {
  }

  /** Single Roman letters such as "I." and "V." are taken as sub-sections ... */
  lemma SingleRomanLetterIsSubSection()
    ensures ClassifySection("I. Scope") == SubSection
    ensures ClassifySection("V. Play") == SubSection
  {
    assert LetteredPrefix("I. Scope");
    assert LetteredPrefix("V. Play");
  }

  /** ... while longer Roman numerals reach the appendix test. */
  lemma LongerRomanNumeralIsAppendix()
    ensures ClassifySection("IV. Play") == Appendix
  {
    var s := "IV. Play";
    assert DigitRun(s) == 0;
    assert !LetteredPrefix(s);
    assert RomanRun(s[2..]) == 0;
    assert RomanRun(s) == 2;
  }

  // ---------------------------------------------------------------------------
  // The pre-split body
  // ---------------------------------------------------------------------------

  /**
   * One header match and the text up to the next one. `header` is the whole
   * match (leading newline, bold header line, line end); `lineEnd` is the
   * inner capture group of the script's pattern (the matched "\n" or "").
   */
  datatype Section = Section(header: string, lineEnd: string, text: string)

  datatype BodySplit = BodySplit(lead: string, sections: seq<Section>)

  function SectionsText(secs: seq<Section>): string {
    if |secs| == 0 then [] else secs[0].header + secs[0].text + SectionsText(secs[1..])
  }

  /** The body a split was taken from. */
  function Rejoin(b: BodySplit): string {
    b.lead + SectionsText(b.sections)
  }

  function PyTail(secs: seq<Section>): (r: seq<string>)
    ensures |r| == 3 * |secs|
  {
    if |secs| == 0 then [] else [secs[0].header, secs[0].lineEnd, secs[0].text] + PyTail(secs[1..])
  }

  /** What `re.split` returns with two capture groups: lead, then header, group 2, text, ... */
  function PyParts(b: BodySplit): (r: seq<string>)
    ensures |r| == 1 + 3 * |b.sections|
  {
    [b.lead] + PyTail(b.sections)
  }

  function JsTail(secs: seq<Section>): (r: seq<string>)
    ensures |r| == 2 * |secs|
  {
    if |secs| == 0 then [] else [secs[0].header, secs[0].text] + JsTail(secs[1..])
  }

  /** What `split` returns with one capture group: lead, then header, text, ... */
  function JsParts(b: BodySplit): (r: seq<string>)
    ensures |r| == 1 + 2 * |b.sections|
  {
    [b.lead] + JsTail(b.sections)
  }

  /** Section `k` sits at positions 3k, 3k+1, 3k+2 of the two-group tail. */
  lemma {:induction false} PyTailAt(secs: seq<Section>, k: nat)
    requires k < |secs|
    ensures PyTail(secs)[3 * k] == secs[k].header
    ensures PyTail(secs)[3 * k + 1] == secs[k].lineEnd
    ensures PyTail(secs)[3 * k + 2] == secs[k].text
  {
    if k > 0 {
      PyTailAt(secs[1..], k - 1);
    }
  }

  /** Section `k` sits at positions 2k, 2k+1 of the one-group tail. */
  lemma {:induction false} JsTailAt(secs: seq<Section>, k: nat)
    requires k < |secs|
    ensures JsTail(secs)[2 * k] == secs[k].header
    ensures JsTail(secs)[2 * k + 1] == secs[k].text
  {
    if k > 0 {
      JsTailAt(secs[1..], k - 1);
    }
  }

  // ---------------------------------------------------------------------------
  // One body chunk, as both implementations build it
  // ---------------------------------------------------------------------------

  /**
   * The chunk a header and its following text would give, before the length
   * filter: stripped header, a newline, stripped text.
   */
  function BodyCandidate(rawHeader: string, rawText: string, classify: string -> SectionType): (c: Chunk)
    ensures c.content == Strip(rawHeader) + "\n" + Strip(rawText)
    ensures c.ruleId == Strip(RemoveDoubleStars(Strip(rawHeader)))
    ensures c.originalLen == |c.content|
    ensures c.sectionType == classify(c.ruleId)
  {
    var header := Strip(rawHeader);
    var content := Strip(rawText);
    var ruleId := Strip(RemoveDoubleStars(header));
    var full := header + "\n" + content;
    Chunk(ruleId, full, classify(ruleId), |full|)
  }

  /** The length filter both implementations apply: more than 30 characters once stripped. */
  predicate LongEnough(c: Chunk) {
    |Strip(c.content)| > MinBodyLen
  }

  /** The kept body chunks of a list of sections, in section order. */
  function KeptChunks(secs: seq<Section>, classify: string -> SectionType): (r: seq<Chunk>)
    ensures |r| <= |secs|
    ensures forall c :: c in r ==> LongEnough(c) && LengthRecorded(c)
  {
    if |secs| == 0 then []
    else
      var c := BodyCandidate(secs[0].header, secs[0].text, classify);
      (if LongEnough(c) then [c] else []) + KeptChunks(secs[1..], classify)
  }

  lemma KeptChunksStep(secs: seq<Section>, classify: string -> SectionType)
    requires |secs| > 0
    ensures var c := BodyCandidate(secs[0].header, secs[0].text, classify);
      KeptChunks(secs, classify) == (if LongEnough(c) then [c] else []) + KeptChunks(secs[1..], classify)
  {
  }

  /** The chunk's rule identifier never keeps a `**` pair. */
  lemma RuleIdHasNoDoubleStar(rawHeader: string, rawText: string, classify: string -> SectionType)
    ensures !Contains(BodyCandidate(rawHeader, rawText, classify).ruleId, "**")
  {
    var u := RemoveDoubleStars(Strip(rawHeader));
    RemoveDoubleStarsLeavesNoPair(Strip(rawHeader));
    var i, j := StripIsSlice(u);
    NoStarPairSlice(u, i, j);
    NoStarPairIffNotContains(Strip(u));
  }

  /** A blank body cannot yield a chunk: each candidate is then just "\n". */
  lemma {:induction false} BlankSectionsKeepNothing(secs: seq<Section>, classify: string -> SectionType)
    requires IsBlank(SectionsText(secs))
    ensures KeptChunks(secs, classify) == []
  {
    if |secs| > 0 {
      var h, t, rest := secs[0].header, secs[0].text, SectionsText(secs[1..]);
      assert SectionsText(secs) == h + (t + rest);
      BlankConcat(h, t + rest);
      BlankConcat(t, rest);
      StripEmptyIffBlank(h);
      StripEmptyIffBlank(t);
      var c := BodyCandidate(h, t, classify);
      assert c.content == "\n";
      StripEmptyIffBlank("\n");
      assert !LongEnough(c);
      BlankSectionsKeepNothing(secs[1..], classify);
    }
  }

  lemma BlankBodyKeepsNothing(b: BodySplit, classify: string -> SectionType)
    ensures IsBlank(Rejoin(b)) ==> KeptChunks(b.sections, classify) == []
  {
    BlankConcat(b.lead, SectionsText(b.sections));
    if IsBlank(Rejoin(b)) {
      BlankSectionsKeepNothing(b.sections, classify);
    }
  }

  // ---------------------------------------------------------------------------
  // The front-matter and whole-body chunks
  // ---------------------------------------------------------------------------

  /** The "Foreword/Intro" chunk: stripped intro capped at 8000, uncapped length recorded. */
  function ForewordChunk(intro: string): (c: Chunk)
    ensures c.ruleId == "Foreword/Intro" && c.sectionType == Foreword
    ensures c.content == Take(Strip(intro), ContentCap)
    ensures c.originalLen == |Strip(intro)| >= |c.content|
  {
    var stripped := Strip(intro);
    Chunk("Foreword/Intro", Take(stripped, ContentCap), Foreword, |stripped|)
  }

  /** The script's "Full Body (Fallback)" chunk. */
  function FallbackChunk(body: string): (c: Chunk)
    ensures c.ruleId == "Full Body (Fallback)" && c.sectionType == Other
    ensures c.content == Take(Strip(body), ContentCap)
    ensures c.originalLen == |Strip(body)| >= |c.content|
  {
    var stripped := Strip(body);
    Chunk("Full Body (Fallback)", Take(stripped, ContentCap), Other, |stripped|)
  }

  /** Content is either recorded at full length or was cut at the cap. */
  predicate LengthRecorded(c: Chunk) {
    c.originalLen >= |c.content| && (c.originalLen == |c.content| || |c.content| == ContentCap)
  }

  /** The label the edge function would give a chunk the script labelled. */
  function EdgeLabel(c: Chunk): Chunk {
    c.(sectionType := WithoutForeword(c.sectionType))
  }

  function EdgeLabels(r: seq<Chunk>): (e: seq<Chunk>)
    ensures |e| == |r|
  {
    if |r| == 0 then [] else [EdgeLabel(r[0])] + EdgeLabels(r[1..])
  }

  /**
   * Both implementations keep the same sections with the same text; the edge
   * function's labels are the script's with `foreword` turned into `other`.
   */
  lemma CandidateAcrossClassifiers(h: string, t: string)
    ensures BodyCandidate(h, t, EtlSectionType) == EdgeLabel(BodyCandidate(h, t, ClassifySection))
  {
    var ruleId := Strip(RemoveDoubleStars(Strip(h)));
    EtlClassifierIsScriptClassifierWithoutForeword(ruleId);
  }

  lemma {:induction false} KeptChunksAcrossClassifiers(secs: seq<Section>)
    ensures KeptChunks(secs, EtlSectionType) == EdgeLabels(KeptChunks(secs, ClassifySection))
  {
    if |secs| > 0 {
      KeptChunksAcrossClassifiers(secs[1..]);
      CandidateAcrossClassifiers(secs[0].header, secs[0].text);
      var cp := BodyCandidate(secs[0].header, secs[0].text, ClassifySection);
      var ce := BodyCandidate(secs[0].header, secs[0].text, EtlSectionType);
      var p1 := KeptChunks(secs[1..], ClassifySection);
      var e1 := KeptChunks(secs[1..], EtlSectionType);
      assert LongEnough(ce) == LongEnough(cp);
      if LongEnough(cp) {
        assert KeptChunks(secs, ClassifySection) == [cp] + p1;
        assert KeptChunks(secs, EtlSectionType) == [ce] + e1;
        assert ([cp] + p1)[1..] == p1;
      } else {
        assert KeptChunks(secs, ClassifySection) == p1;
        assert KeptChunks(secs, EtlSectionType) == e1;
      }
    }
  }
}
