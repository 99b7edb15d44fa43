/**
 * `split_into_chunks` of the bilingual SQL generator script: cut the text at
 * the start marker, keep non-blank front matter as a "Foreword/Intro" chunk,
 * walk the two-group split of the body three entries at a time, drop short
 * pieces, and fall back to one whole-body chunk when nothing else came out.
 *
 * The marker search is an input (`marker`: the index where the match starts,
 * if any), and so is the header split of the body (`split`).
 */
module SqlChunker {

  import opened Text
  import opened RuleChunks
  import Wrappers

  /** Front matter and rule body. */
  datatype Cut = Cut(intro: string, body: string)

  /** `text[:start]` and `text[start:]` when the marker was found, else `""` and the text. */
  function SplitAtMarker(text: string, marker: Wrappers.Option<nat>): (c: Cut)
    requires marker.Some? ==> marker.value <= |text|
    ensures c.intro + c.body == text
    ensures marker.None? ==> c.intro == [] && c.body == text
    ensures marker.Some? ==> |c.intro| == marker.value
  {
    match marker
    case None => Cut([], text)
    case Some(start) => Cut(text[..start], text[start..])
  }

  /**
   * The loop `for i in range(1, len(parts), 3)`, applied to `parts[1:]`: the
   * header is the first entry, its text the third (or nothing past the end),
   * and the walk goes on three entries later.
   */
  function PyBody(parts: seq<string>): (r: seq<Chunk>)
    ensures 3 * |r| <= |parts| + 2
  {
    if |parts| == 0 then []
    else
      var text := if 2 < |parts| then parts[2] else "";
      var c := BodyCandidate(parts[0], text, ClassifySection);
      (if LongEnough(c) then [c] else []) + (if |parts| <= 3 then [] else PyBody(parts[3..]))
  }

  /** Walking the two-group split three at a time visits each section once, in order. */
  lemma {:induction false} PyBodyIsKeptChunks(secs: seq<Section>)
    ensures PyBody(PyTail(secs)) == KeptChunks(secs, ClassifySection)
  {
    if |secs| > 0 {
      var parts := PyTail(secs);
      assert parts[0] == secs[0].header && parts[2] == secs[0].text;
      assert parts[3..] == PyTail(secs[1..]);
      PyBodyIsKeptChunks(secs[1..]);
      KeptChunksStep(secs, ClassifySection);
    }
  }

  /**
   * `split_into_chunks`. `split` is what the header pattern cuts the body into;
   * its pieces put back together are the body.
   */
  function SplitIntoChunks(text: string, marker: Wrappers.Option<nat>, split: BodySplit): (r: seq<Chunk>)
    requires marker.Some? ==> marker.value <= |text|
    requires Rejoin(split) == SplitAtMarker(text, marker).body
    // a foreword chunk comes first exactly when the front matter is not blank
    ensures !IsBlank(SplitAtMarker(text, marker).intro) ==>
      |r| > 0 && r[0] == ForewordChunk(SplitAtMarker(text, marker).intro)
    // then the kept sections in document order
    ensures var kept := KeptChunks(split.sections, ClassifySection);
      var skip := if IsBlank(SplitAtMarker(text, marker).intro) then 0 else 1;
      kept != [] || skip == 1 ==> |r| == skip + |kept| && r[skip..] == kept
    // and the fallback only when there is nothing else and the body is not blank
    ensures IsBlank(SplitAtMarker(text, marker).intro) && KeptChunks(split.sections, ClassifySection) == [] ==>
      r == (if IsBlank(SplitAtMarker(text, marker).body) then [] else [FallbackChunk(SplitAtMarker(text, marker).body)])
    // totality: any text with a non-blank character gives at least one chunk
    ensures |r| > 0 <==> !IsBlank(text)
    ensures forall c :: c in r ==> LengthRecorded(c)
  {
    var cut := SplitAtMarker(text, marker);
    var front := if Strip(cut.intro) != [] then [ForewordChunk(cut.intro)] else [];
    StripEmptyIffBlank(cut.intro);
    PyBodyIsKeptChunks(split.sections);
    var body := PyBody(PyParts(split)[1..]);
    var chunks := front + body;
    BlankConcat(cut.intro, cut.body);
    BlankBodyKeepsNothing(split, ClassifySection);
    StripEmptyIffBlank(cut.body);
    if chunks == [] && Strip(cut.body) != [] then [FallbackChunk(cut.body)] else chunks
  }
}
