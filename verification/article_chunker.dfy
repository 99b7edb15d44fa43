/**
 * `chunk_by_articles` and `_chunk_by_size` of the upload script: the text cut
 * at article titles ("Rule 5", "제 3 조", ...), each title kept with the text
 * that follows it when that text is long enough, and an overlapping
 * fixed-size window as the fallback when no title yields a chunk.
 *
 * The `re.split` of the text on the title pattern is an input (`splits`); the
 * `re.match` title test on each stripped segment is modelled concretely.
 */
module ArticleChunker {

  import opened Text
  import opened RuleChunks

  datatype ArticleChunk = ArticleChunk(title: string, content: string, chunkIndex: nat)

  /** The minimum length (exclusive) of an article's joined content. */
  const MinArticleLen: nat := 50
  const WindowSize: nat := 800
  const WindowOverlap: nat := 150

  // ---------------------------------------------------------------------------
  // Title recognition (`re.match` of the title pattern)
  // ---------------------------------------------------------------------------

  /** The number of leading whitespace characters. */
  function SpaceRun(s: string): (k: nat)
    ensures k <= |s| && IsBlank(s[..k])
    ensures k < |s| ==> !IsSpace(s[k])
  {
    if |s| > 0 && IsSpace(s[0]) then
      var k := 1 + SpaceRun(s[1..]);
      assert s[..k] == [s[0]] + s[1..][..k - 1];
      k
    else 0
  }

  /** `제\s*\d+\s*[조장절항]` at the start of `s`. */
  predicate KoTitle(s: string) {
    |s| > 0 && s[0] == '제' &&
    var a := 1 + SpaceRun(s[1..]);
    var d := DigitRun(s[a..]);
    d >= 1 &&
    var b := a + d + SpaceRun(s[a + d..]);
    b < |s| && s[b] in "조장절항"
  }

  /** `(Article|Rule|Section|ARTICLE|RULE|SECTION)\s+\d+` at the start of `s` (case-sensitive). */
  predicate EnTitle(s: string) {
    WordTitle(s, "Article") || WordTitle(s, "Rule") || WordTitle(s, "Section") ||
    WordTitle(s, "ARTICLE") || WordTitle(s, "RULE") || WordTitle(s, "SECTION")
  }

  /** `w\s+\d+` at the start of `s`. */
  predicate WordTitle(s: string, w: string) {
    StartsWith(s, w) &&
    var sp := SpaceRun(s[|w|..]);
    sp >= 1 && DigitRun(s[|w| + sp..]) >= 1
  }

  /** The pattern chosen by `language`: Korean titles for `ko`, English ones otherwise. */
  predicate IsTitle(language: Language, s: string) {
    if language == Ko then KoTitle(s) else EnTitle(s)
  }

  lemma EnglishTitleExample()
    ensures EnTitle("Rule 5")
  {
    var s := "Rule 5";
    assert s[..4] == "Rule";
    assert s[4..] == " 5";
    assert " 5"[1..] == "5";
    assert SpaceRun("5") == 0;
    assert SpaceRun(" 5") == 1;
    assert s[5..] == "5";
    assert DigitRun("5"[1..]) == 0;
    assert DigitRun("5") == 1;
    assert WordTitle(s, "Rule");
  }

  /** English titles are matched case-sensitively ... */
  lemma LowerCaseIsNoTitle()
    ensures !EnTitle("rule 5")
  {
    var r := "rule 5";
    assert r[..4][0] != "Rule"[0] && r[..4][0] != "RULE"[0];
  }

  /** ... and need whitespace after the word. */
  lemma PluralIsNoTitle()
    ensures !EnTitle("Rules 5")
  {
    var t := "Rules 5";
    assert t[..7][0] != "Article"[0];
    assert !WordTitle(t, "Article");
    assert t[..7][0] != "Section"[0];
    assert !WordTitle(t, "Section");
    assert t[..7][0] != "ARTICLE"[0];
    assert !WordTitle(t, "ARTICLE");
    assert t[..7][0] != "SECTION"[0];
    assert !WordTitle(t, "SECTION");
    assert t[..4][1] != "RULE"[1];
    assert !WordTitle(t, "RULE");
    assert t[4..] == "s 5";
    assert SpaceRun("s 5") == 0;
    assert !WordTitle(t, "Rule");
  }

  lemma KoreanTitleExample()
    ensures KoTitle("제 3 조")
  {
    var k := "제 3 조";
    assert k[1..] == " 3 조";
    assert " 3 조"[1..] == "3 조";
    assert SpaceRun("3 조") == 0;
    assert SpaceRun(k[1..]) == 1;
    assert k[2..] == "3 조";
    assert "3 조"[1..] == " 조";
    assert DigitRun(" 조") == 0;
    assert DigitRun(k[2..]) == 1;
    assert k[3..] == " 조";
    assert " 조"[1..] == "조";
    assert SpaceRun("조") == 0;
    assert SpaceRun(k[3..]) == 1;
    assert k[4] == '조';
  }

  lemma KoreanTitleWithoutSpaces()
    ensures KoTitle("제12장")
  {
    var c := "제12장";
    assert c[1..] == "12장";
    assert SpaceRun(c[1..]) == 0;
    assert DigitRun("장") == 0;
    assert "12장"[1..] == "2장" && "2장"[1..] == "장";
    assert DigitRun("2장") == 1;
    assert DigitRun(c[1..]) == 2;
    assert c[3..] == "장";
    assert SpaceRun(c[3..]) == 0;
  }

  // ---------------------------------------------------------------------------
  // The scan over the split segments
  // ---------------------------------------------------------------------------

  /** `' '.join(current_content).strip()`. */
  function ContentText(content: seq<string>): string {
    Strip(Join(" ", content))
  }

  /** Whether an open article is saved: it has some content, of more than 50 characters. */
  predicate Saved(join: seq<string> -> string, content: seq<string>) {
    content != [] && |join(content)| > MinArticleLen
  }

  /** Chunks numbered by position, each with more than 50 characters. */
  predicate WellFormed(acc: seq<ArticleChunk>) {
    forall k :: 0 <= k < |acc| ==> acc[k].chunkIndex == k && |acc[k].content| > MinArticleLen
  }

  /** Saving the open article, if any, as chunk number `len(chunks)`. */
  function Flush(join: seq<string> -> string, acc: seq<ArticleChunk>, title: Wrappers.Option<string>, content: seq<string>): (r: seq<ArticleChunk>)
    ensures WellFormed(acc) ==> WellFormed(r)
    ensures r == acc || (title.Some? && Saved(join, content) &&
      r == acc + [ArticleChunk(title.value, join(content), |acc|)])
  {
    if title.Some? && Saved(join, content) then acc + [ArticleChunk(title.value, join(content), |acc|)]
    else acc
  }

  /** Each split segment stripped, as the loop does first thing. */
  function Segments(splits: seq<string>): (segs: seq<string>)
    ensures |segs| == |splits|
    ensures forall k :: 0 <= k < |splits| ==> segs[k] == Strip(splits[k])
  {
    if |splits| == 0 then [] else [Strip(splits[0])] + Segments(splits[1..])
  }

  /** The loop's variables: the open title, its content so far, and the chunks saved so far. */
  datatype ScanState = ScanState(title: Wrappers.Option<string>, content: seq<string>, acc: seq<ArticleChunk>)

  /**
   * One iteration on a stripped segment: blank segments are skipped, a title
   * saves the open article and opens a new one, other text joins the content.
   * `isTitle` is the `re.match` test of the language's title pattern.
   */
  function Step(isTitle: string -> bool, join: seq<string> -> string, segment: string, st: ScanState): (st': ScanState)
    ensures WellFormed(st.acc) ==> WellFormed(st'.acc)
  {
    if segment == [] then st
    else if isTitle(segment) then ScanState(Wrappers.Some(segment), [], Flush(join, st.acc, st.title, st.content))
    else st.(content := st.content + [segment])
  }

  /** The loop from position `i`; the last open article is saved at the end. */
  function Scan(isTitle: string -> bool, join: seq<string> -> string, segs: seq<string>, i: nat, st: ScanState): (r: seq<ArticleChunk>)
    requires i <= |segs|
    ensures WellFormed(st.acc) ==> WellFormed(r)
    decreases |segs| - i
  {
    if i == |segs| then Flush(join, st.acc, st.title, st.content)
    else Scan(isTitle, join, segs, i + 1, Step(isTitle, join, segs[i], st))
  }

  /** The article chunks, before the size fallback. */
  function ArticleScan(isTitle: string -> bool, splits: seq<string>): (r: seq<ArticleChunk>)
    ensures WellFormed(r)
  {
    Scan(isTitle, ContentText, Segments(splits), 0, ScanState(Wrappers.None, [], []))
  }

  // ---------------------------------------------------------------------------
  // A stateless reference: each title with the block of text that follows it
  // ---------------------------------------------------------------------------

  /** The stripped, non-blank, non-title segments from `i` up to the next title. */
  function Block(isTitle: string -> bool, segs: seq<string>, i: nat): seq<string>
    requires i <= |segs|
    decreases |segs| - i
  {
    if i == |segs| then []
    else
      var segment := segs[i];
      if segment == [] then Block(isTitle, segs, i + 1)
      else if isTitle(segment) then []
      else [segment] + Block(isTitle, segs, i + 1)
  }

  /** The (title, content) pairs that the titles at positions `i` onwards yield. */
  function Reference(isTitle: string -> bool, join: seq<string> -> string, segs: seq<string>, i: nat): seq<(string, string)>
    requires i <= |segs|
    decreases |segs| - i
  {
    if i == |segs| then []
    else
      var segment := segs[i];
      var block := Block(isTitle, segs, i + 1);
      (if segment != [] && isTitle(segment) && Saved(join, block) then [(segment, join(block))] else [])
      + Reference(isTitle, join, segs, i + 1)
  }

  function Pairs(r: seq<ArticleChunk>): (p: seq<(string, string)>)
    ensures |p| == |r|
  {
    if |r| == 0 then [] else [(r[0].title, r[0].content)] + Pairs(r[1..])
  }

  lemma PairsAppend(a: seq<ArticleChunk>, b: seq<ArticleChunk>)
    ensures Pairs(a + b) == Pairs(a) + Pairs(b)
  {
    if |a| > 0 {
      assert (a + b)[1..] == a[1..] + b;
      PairsAppend(a[1..], b);
    } else {
      assert a + b == b;
    }
  }

  function SavedPair(join: seq<string> -> string, title: string, content: seq<string>): seq<(string, string)> {
    if Saved(join, content) then [(title, join(content))] else []
  }

  lemma FlushPairs(join: seq<string> -> string, acc: seq<ArticleChunk>, title: Wrappers.Option<string>, content: seq<string>)
    ensures Pairs(Flush(join, acc, title, content)) ==
      Pairs(acc) + (if title.Some? then SavedPair(join, title.value, content) else [])
  {
    if title.Some? && Saved(join, content) {
      PairsAppend(acc, [ArticleChunk(title.value, join(content), |acc|)]);
    } else {
      assert Pairs(acc) + [] == Pairs(acc);
    }
  }

  /** What the open article, if any, will yield once its block from `i` on is added. */
  function Pending(isTitle: string -> bool, join: seq<string> -> string, segs: seq<string>, i: nat, st: ScanState): seq<(string, string)>
    requires i <= |segs|
  {
    if st.title.Some? then SavedPair(join, st.title.value, st.content + Block(isTitle, segs, i)) else []
  }

  /**
   * The loop invariant: what is saved so far, plus what the open article will
   * yield, plus what the titles ahead yield, is the same before and after an
   * iteration.
   */
  lemma StepKeepsInvariant(isTitle: string -> bool, join: seq<string> -> string, segs: seq<string>, i: nat, st: ScanState)
    requires i < |segs|
    ensures var st' := Step(isTitle, join, segs[i], st);
      Pairs(st'.acc) + Pending(isTitle, join, segs, i + 1, st') + Reference(isTitle, join, segs, i + 1) ==
      Pairs(st.acc) + Pending(isTitle, join, segs, i, st) + Reference(isTitle, join, segs, i)
  {
    var segment := segs[i];
    var block := Block(isTitle, segs, i + 1);
    var ref := Reference(isTitle, join, segs, i + 1);
    if segment == [] {
      assert Block(isTitle, segs, i) == block;
      assert Reference(isTitle, join, segs, i) == ref;
    } else if isTitle(segment) {
      TitleStep(isTitle, join, segs, i, st);
    } else {
      assert Block(isTitle, segs, i) == [segment] + block;
      assert st.content + [segment] + block == st.content + ([segment] + block);
      assert Reference(isTitle, join, segs, i) == ref;
    }
  }

  lemma TitleStep(isTitle: string -> bool, join: seq<string> -> string, segs: seq<string>, i: nat, st: ScanState)
    requires i < |segs| && segs[i] != [] && isTitle(segs[i])
    ensures var st' := Step(isTitle, join, segs[i], st);
      Pairs(st'.acc) + Pending(isTitle, join, segs, i + 1, st') + Reference(isTitle, join, segs, i + 1) ==
      Pairs(st.acc) + Pending(isTitle, join, segs, i, st) + Reference(isTitle, join, segs, i)
  {
    var block := Block(isTitle, segs, i + 1);
    var ref := Reference(isTitle, join, segs, i + 1);
    var st' := Step(isTitle, join, segs[i], st);
    var saved := if st.title.Some? then SavedPair(join, st.title.value, st.content) else [];
    FlushPairs(join, st.acc, st.title, st.content);
    assert Pairs(st'.acc) == Pairs(st.acc) + saved;
    assert [] + block == block;
    assert Pending(isTitle, join, segs, i + 1, st') == SavedPair(join, segs[i], block);
    assert Block(isTitle, segs, i) == [];
    assert st.content + [] == st.content;
    assert Pending(isTitle, join, segs, i, st) == saved;
    assert Reference(isTitle, join, segs, i) == SavedPair(join, segs[i], block) + ref;
    var p := Pairs(st.acc);
    var sp := SavedPair(join, segs[i], block);
    assert p + saved + sp + ref == p + saved + (sp + ref);
  }

  /** From any state at position `i`, the loop yields the invariant's three parts. */
  lemma {:induction false} ScanInvariant(isTitle: string -> bool, join: seq<string> -> string, segs: seq<string>, i: nat, st: ScanState)
    requires i <= |segs|
    ensures Pairs(Scan(isTitle, join, segs, i, st)) ==
      Pairs(st.acc) + Pending(isTitle, join, segs, i, st) + Reference(isTitle, join, segs, i)
    decreases |segs| - i
  {
    if i == |segs| {
      FlushPairs(join, st.acc, st.title, st.content);
      assert st.content + [] == st.content;
      assert Pairs(st.acc) + [] == Pairs(st.acc);
    } else {
      var st' := Step(isTitle, join, segs[i], st);
      ScanInvariant(isTitle, join, segs, i + 1, st');
      StepKeepsInvariant(isTitle, join, segs, i, st);
    }
  }

  /** The scan saves exactly the reference's (title, block) pairs, in order. */
  lemma ArticleScanIsReference(isTitle: string -> bool, splits: seq<string>)
    ensures Pairs(ArticleScan(isTitle, splits)) == Reference(isTitle, ContentText, Segments(splits), 0)
  {
    ScanInvariant(isTitle, ContentText, Segments(splits), 0, ScanState(Wrappers.None, [], []));
  }

  /** A title whose next segment is another title yields nothing. */
  lemma AdjacentTitlesYieldNothing(isTitle: string -> bool, join: seq<string> -> string, segs: seq<string>, i: nat)
    requires i + 1 < |segs|
    requires segs[i + 1] != [] && isTitle(segs[i + 1])
    ensures Reference(isTitle, join, segs, i) == Reference(isTitle, join, segs, i + 1)
  {
    assert Block(isTitle, segs, i + 1) == [];
  }

  /** Segments before the first title never reach the output. */
  lemma {:induction false} LeadingTextDropped(isTitle: string -> bool, join: seq<string> -> string, segs: seq<string>, j: nat)
    requires j <= |segs|
    requires forall k :: 0 <= k < j ==> segs[k] == [] || !isTitle(segs[k])
    ensures Reference(isTitle, join, segs, 0) == Reference(isTitle, join, segs, j)
    decreases j
  {
    if j > 0 {
      LeadingTextDropped(isTitle, join, segs, j - 1);
      assert segs[j - 1] == [] || !isTitle(segs[j - 1]);
      assert Reference(isTitle, join, segs, j - 1) == Reference(isTitle, join, segs, j);
    }
  }

  /** Text without any title yields no article chunk. */
  lemma NoTitleNoArticles(isTitle: string -> bool, splits: seq<string>)
    requires forall k :: 0 <= k < |splits| ==> Strip(splits[k]) == [] || !isTitle(Strip(splits[k]))
    ensures ArticleScan(isTitle, splits) == []
  {
    var segs := Segments(splits);
    LeadingTextDropped(isTitle, ContentText, segs, |segs|);
    ArticleScanIsReference(isTitle, splits);
  }

  // ---------------------------------------------------------------------------
  // Size-based fallback
  // ---------------------------------------------------------------------------

  function SectionTitle(n: nat): string {
    "Section " + NatToString(n)
  }

  /** `text[start:start + size].strip()`: the slice is clipped at the end of the text. */
  function Window(text: string, size: nat, start: nat): (w: string)
    ensures |w| <= size
  {
    if start >= |text| then []
    else
      var stop := if start + size <= |text| then start + size else |text|;
      Strip(text[start..stop])
  }

  /** The window at each start. */
  function WindowOf(text: string, size: nat): nat -> string {
    (s: nat) => Window(text, size, s)
  }

  /**
   * The `while start < len(text)` loop from `start`: `win(start)` is the
   * stripped window there, non-blank windows are numbered from `index` and
   * titled `name(index + 1)`, and the loop moves on by `step`.
   */
  function WindowsFrom(name: nat -> string, win: nat -> string, len: nat, step: nat, start: nat, index: nat): seq<ArticleChunk>
    requires step > 0
    decreases len - start
  {
    if start >= len then []
    else if win(start) != [] then
      [ArticleChunk(name(index + 1), win(start), index)] + WindowsFrom(name, win, len, step, start + step, index + 1)
    else WindowsFrom(name, win, len, step, start + step, index)
  }

  /** Chunks numbered on from `index`, titled by their number, and neither blank nor longer than `size`. */
  predicate WindowsNumbered(r: seq<ArticleChunk>, name: nat -> string, index: nat, size: nat) {
    forall k :: 0 <= k < |r| ==>
      r[k].chunkIndex == index + k && r[k].title == name(index + k + 1) && r[k].content != [] && |r[k].content| <= size
  }

  /** With windows of at most `size` characters, the loop's chunks are `WindowsNumbered`. */
  lemma {:induction false} WindowsFromShape(name: nat -> string, win: nat -> string, len: nat, step: nat, start: nat, index: nat, size: nat)
    requires step > 0
    requires forall s: nat :: |win(s)| <= size
    ensures WindowsNumbered(WindowsFrom(name, win, len, step, start, index), name, index, size)
    decreases len - start
  {
    if start < len {
      if win(start) != [] {
        WindowsFromShape(name, win, len, step, start + step, index + 1, size);
        var c := ArticleChunk(name(index + 1), win(start), index);
        NumberedCons(c, WindowsFrom(name, win, len, step, start + step, index + 1), name, index, size);
      } else {
        WindowsFromShape(name, win, len, step, start + step, index, size);
      }
    }
  }

  lemma NumberedCons(c: ArticleChunk, tail: seq<ArticleChunk>, name: nat -> string, index: nat, size: nat)
    requires WindowsNumbered(tail, name, index + 1, size)
    requires c.chunkIndex == index && c.title == name(index + 1) && c.content != [] && |c.content| <= size
    ensures WindowsNumbered([c] + tail, name, index, size)
  {
    var r := [c] + tail;
    forall k | 1 <= k < |r|
      ensures r[k].chunkIndex == index + k && r[k].title == name(index + k + 1) && r[k].content != [] && |r[k].content| <= size
    {
      assert r[k] == tail[k - 1];
    }
  }

  /** The contents of a list of chunks. */
  function Contents(r: seq<ArticleChunk>): (cs: seq<string>)
    ensures |cs| == |r|
  {
    if |r| == 0 then [] else [r[0].content] + Contents(r[1..])
  }

  /** The non-blank windows at the given starts, in order. */
  function NonBlankWindows(win: nat -> string, starts: seq<nat>): seq<string> {
    if |starts| == 0 then []
    else if win(starts[0]) != [] then [win(starts[0])] + NonBlankWindows(win, starts[1..])
    else NonBlankWindows(win, starts[1..])
  }

  /** `_chunk_by_size(text, ..., chunk_size, overlap)`; termination needs `overlap < chunk_size`. */
  function ChunkBySize(text: string, size: nat, overlap: nat): (r: seq<ArticleChunk>)
    requires overlap < size
    ensures forall k :: 0 <= k < |r| ==> r[k].chunkIndex == k && r[k].title == SectionTitle(k + 1)
    ensures forall k :: 0 <= k < |r| ==> r[k].content != [] && |r[k].content| <= size
  {
    WindowsFromShape(SectionTitle, WindowOf(text, size), |text|, size - overlap, 0, 0, size);
    WindowsFrom(SectionTitle, WindowOf(text, size), |text|, size - overlap, 0, 0)
  }

  /** The fallback's chunks are the non-blank windows at starts 0, `size - overlap`, ..., in order. */
  lemma ChunkBySizeIsWindows(text: string, size: nat, overlap: nat)
    requires overlap < size
    ensures Contents(ChunkBySize(text, size, overlap)) ==
      NonBlankWindows(WindowOf(text, size), Starts(|text|, size - overlap, 0))
  {
    WindowsAtStarts(SectionTitle, WindowOf(text, size), |text|, size - overlap, 0, 0);
    assert ChunkBySize(text, size, overlap) == WindowsFrom(SectionTitle, WindowOf(text, size), |text|, size - overlap, 0, 0);
  }

  /** The window starts the loop visits from `start`: `start`, `start + step`, ... below `len`. */
  function Starts(len: nat, step: nat, start: nat): (r: seq<nat>)
    requires step > 0
    decreases len - start
  {
    if start >= len then [] else [start] + Starts(len, step, start + step)
  }

  /** The loop runs ceil((len - start) / step) times, stated without division. */
  lemma {:induction false} StartsCount(len: nat, step: nat, start: nat)
    requires step > 0
    ensures var n := |Starts(len, step, start)|;
      start < len ==> n >= 1 && (n - 1) * step < len - start <= n * step
    decreases len - start
  {
    if start < len && start + step < len {
      StartsCount(len, step, start + step);
      var n' := |Starts(len, step, start + step)|;
      assert (n' + 1) * step == n' * step + step;
    }
  }

  /** Every character index lies inside some window. */
  lemma WindowsCover(len: nat, size: nat, overlap: nat, start: nat, i: nat)
    requires overlap < size && start <= i < len
    ensures var st := Starts(len, size - overlap, start);
      exists k :: 0 <= k < |st| && st[k] <= i < st[k] + size
  {
    var k := CoveringWindow(len, size, overlap, start, i);
  }

  /** The position among the starts of a window that holds index `i`. */
  lemma CoveringWindow(len: nat, size: nat, overlap: nat, start: nat, i: nat) returns (k: nat)
    requires overlap < size && start <= i < len
    ensures var st := Starts(len, size - overlap, start);
      k < |st| && st[k] <= i < st[k] + size
    decreases len - start
  {
    var step := size - overlap;
    var st := Starts(len, step, start);
    var st' := Starts(len, step, start + step);
    assert st == [start] + st';
    if i >= start + step {
      var k' := CoveringWindow(len, size, overlap, start + step, i);
      assert st[k' + 1] == st'[k'];
      k := k' + 1;
    } else {
      k := 0;
    }
  }

  /** A 2000-character text gives four windows with the default sizes: starts 0, 650, 1300 and 1950. */
  lemma TwoThousandCharsGiveFourWindows()
    ensures Starts(2000, WindowSize - WindowOverlap, 0) == [0, 650, 1300, 1950]
  {
    assert Starts(2000, 650, 2600) == [];
    assert Starts(2000, 650, 1950) == [1950];
    assert Starts(2000, 650, 1300) == [1300, 1950];
    assert Starts(2000, 650, 650) == [650, 1300, 1950];
  }

  /** The loop from `start` keeps exactly the non-blank windows at the starts it visits, in order. */
  predicate KeepsNonBlankWindows(name: nat -> string, win: nat -> string, len: nat, step: nat, start: nat, index: nat)
    requires step > 0
  {
    Contents(WindowsFrom(name, win, len, step, start, index)) == NonBlankWindows(win, Starts(len, step, start))
  }

  /** The size fallback keeps exactly the non-blank windows at the loop's starts, in order. */
  lemma {:induction false} WindowsAtStarts(name: nat -> string, win: nat -> string, len: nat, step: nat, start: nat, index: nat)
    requires step > 0
    ensures KeepsNonBlankWindows(name, win, len, step, start, index)
    decreases len - start
  {
    if start < len {
      if win(start) != [] {
        WindowsAtStarts(name, win, len, step, start + step, index + 1);
        WindowKept(name, win, len, step, start, index);
      } else {
        WindowsAtStarts(name, win, len, step, start + step, index);
        WindowSkipped(name, win, len, step, start, index);
      }
    } else {
      assert WindowsFrom(name, win, len, step, start, index) == [];
      assert Starts(len, step, start) == [];
    }
  }

  /** A turn of the loop with a non-blank window: both sides gain it. */
  lemma WindowKept(name: nat -> string, win: nat -> string, len: nat, step: nat, start: nat, index: nat)
    requires step > 0 && start < len && win(start) != []
    requires KeepsNonBlankWindows(name, win, len, step, start + step, index + 1)
    ensures KeepsNonBlankWindows(name, win, len, step, start, index)
  {
    var c := ArticleChunk(name(index + 1), win(start), index);
    var tail := WindowsFrom(name, win, len, step, start + step, index + 1);
    assert WindowsFrom(name, win, len, step, start, index) == [c] + tail;
    ContentsAppend([c], tail);
    assert Contents([c]) == [win(start)];
    assert Starts(len, step, start) == [start] + Starts(len, step, start + step);
    NonBlankWindowsStep(win, Starts(len, step, start));
  }

  /** A turn of the loop with a blank window: neither side changes. */
  lemma WindowSkipped(name: nat -> string, win: nat -> string, len: nat, step: nat, start: nat, index: nat)
    requires step > 0 && start < len && win(start) == []
    requires KeepsNonBlankWindows(name, win, len, step, start + step, index)
    ensures KeepsNonBlankWindows(name, win, len, step, start, index)
  {
    assert WindowsFrom(name, win, len, step, start, index) == WindowsFrom(name, win, len, step, start + step, index);
    assert Starts(len, step, start) == [start] + Starts(len, step, start + step);
    NonBlankWindowsStep(win, Starts(len, step, start));
  }

  lemma {:induction false} ContentsAppend(a: seq<ArticleChunk>, b: seq<ArticleChunk>)
    ensures Contents(a + b) == Contents(a) + Contents(b)
  {
    if |a| > 0 {
      ContentsAppend(a[1..], b);
      assert (a + b)[1..] == a[1..] + b;
      assert Contents(a + b) == [a[0].content] + Contents(a[1..] + b);
    } else {
      assert a + b == b;
    }
  }

  lemma NonBlankWindowsStep(win: nat -> string, starts: seq<nat>)
    requires |starts| > 0
    ensures win(starts[0]) != [] ==> NonBlankWindows(win, starts) == [win(starts[0])] + NonBlankWindows(win, starts[1..])
    ensures win(starts[0]) == [] ==> NonBlankWindows(win, starts) == NonBlankWindows(win, starts[1..])
  {
  }

  /** `chunk_by_articles`: the size fallback is used exactly when the article scan saved nothing. */
  function ChunkByArticles(text: string, splits: seq<string>, language: Language): (r: seq<ArticleChunk>)
    // `re.split` with the title pattern as its only group loses nothing: the pieces spell the text
    requires Join("", splits) == text
    ensures var articles := ArticleScan(s => IsTitle(language, s), splits);
      (articles != [] ==> r == articles) && (articles == [] ==> r == ChunkBySize(text, WindowSize, WindowOverlap))
    ensures forall k :: 0 <= k < |r| ==> r[k].chunkIndex == k
  {
    var chunks := ArticleScan(s => IsTitle(language, s), splits);
    if chunks != [] then chunks else ChunkBySize(text, WindowSize, WindowOverlap)
  }
}
