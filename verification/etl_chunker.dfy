/**
 * `chunkText` of the ETL edge function, and how it differs from the script's
 * `split_into_chunks`: a higher foreword threshold that also needs the start
 * marker, a one-group split walked two entries at a time, no `foreword` label
 * on body chunks, and no whole-body fallback.
 */
module EtlChunker {

  import opened Text
  import opened RuleChunks
  import opened SqlChunker
  import Wrappers

  /** The trimmed front matter must be longer than this to become a chunk. */
  const ForewordMinLen: nat := 50

  /**
   * The loop `for (i = 1; i < parts.length; i += 2)`, applied to `parts.slice(1)`:
   * header first, its text second (or `''` past the end), then two entries on.
   */
  function JsBody(parts: seq<string>): (r: seq<Chunk>)
    ensures 2 * |r| <= |parts| + 1
  {
    if |parts| == 0 then []
    else
      var text := if 1 < |parts| then parts[1] else "";
      var c := BodyCandidate(parts[0], text, EtlSectionType);
      (if LongEnough(c) then [c] else []) + (if |parts| <= 2 then [] else JsBody(parts[2..]))
  }

  /** Walking the one-group split two at a time visits each section once, in order. */
  lemma {:induction false} JsBodyIsKeptChunks(secs: seq<Section>)
    ensures JsBody(JsTail(secs)) == KeptChunks(secs, EtlSectionType)
  {
    if |secs| > 0 {
      var parts := JsTail(secs);
      assert parts[0] == secs[0].header && parts[1] == secs[0].text;
      assert parts[2..] == JsTail(secs[1..]);
      JsBodyIsKeptChunks(secs[1..]);
      KeptChunksStep(secs, EtlSectionType);
    }
  }

  /** The edge function never labels a body chunk `foreword`. */
  lemma {:induction false} EtlBodyNeverForeword(secs: seq<Section>)
    ensures forall c :: c in KeptChunks(secs, EtlSectionType) ==> c.sectionType != Foreword
  {
    if |secs| > 0 {
      EtlBodyNeverForeword(secs[1..]);
      KeptChunksStep(secs, EtlSectionType);
    }
  }

  /** Whether `chunkText` emits the front-matter chunk. */
  predicate EdgeKeepsForeword(text: string, marker: Wrappers.Option<nat>)
    requires marker.Some? ==> marker.value <= |text|
  {
    marker.Some? && |Strip(SplitAtMarker(text, marker).intro)| > ForewordMinLen
  }

  /** `chunkText`, with the marker search and the header split as inputs. */
  function ChunkText(text: string, marker: Wrappers.Option<nat>, split: BodySplit): (r: seq<Chunk>)
    requires marker.Some? ==> marker.value <= |text|
    requires Rejoin(split) == SplitAtMarker(text, marker).body
    ensures EdgeKeepsForeword(text, marker) ==>
      |r| > 0 && r[0] == ForewordChunk(SplitAtMarker(text, marker).intro)
    ensures var skip := if EdgeKeepsForeword(text, marker) then 1 else 0;
      |r| == skip + |KeptChunks(split.sections, EtlSectionType)| &&
      r[skip..] == KeptChunks(split.sections, EtlSectionType)
    // no fallback: no marker and no header gives nothing at all
    ensures marker.None? && split.sections == [] ==> r == []
  {
    var cut := SplitAtMarker(text, marker);
    var front := if marker.Some? && |Strip(cut.intro)| > ForewordMinLen then [ForewordChunk(cut.intro)] else [];
    JsBodyIsKeptChunks(split.sections);
    front + JsBody(JsParts(split)[1..])
  }

  /** `foreword` is only ever the label of the front-matter chunk. */
  lemma ForewordOnlyOnIntro(text: string, marker: Wrappers.Option<nat>, split: BodySplit)
    requires marker.Some? ==> marker.value <= |text|
    requires Rejoin(split) == SplitAtMarker(text, marker).body
    ensures var r := ChunkText(text, marker, split);
      forall k :: 0 <= k < |r| ==> (r[k].sectionType == Foreword <==> k == 0 && EdgeKeepsForeword(text, marker))
  {
    var r := ChunkText(text, marker, split);
    var kept := KeptChunks(split.sections, EtlSectionType);
    var skip := if EdgeKeepsForeword(text, marker) then 1 else 0;
    EtlBodyNeverForeword(split.sections);
    DropIndex(r, skip, kept);
  }

  lemma DropIndex<T>(r: seq<T>, skip: nat, kept: seq<T>)
    requires skip <= |r| && r[skip..] == kept
    ensures forall k :: skip <= k < |r| ==> r[k] in kept
  {
    forall k | skip <= k < |r| ensures r[k] in kept {
      assert r[k] == kept[k - skip];
    }
  }

  /**
   * When the start marker is found, the front matter is either blank or longer
   * than 50 characters, and the script keeps some body chunk, the two
   * implementations return the same chunks up to the `foreword` body label.
   */
  lemma {:induction false} ScriptAndEdgeAgree(text: string, marker: Wrappers.Option<nat>, split: BodySplit)
    requires marker.Some? && marker.value <= |text|
    requires Rejoin(split) == SplitAtMarker(text, marker).body
    requires IsBlank(SplitAtMarker(text, marker).intro) || |Strip(SplitAtMarker(text, marker).intro)| > ForewordMinLen
    requires KeptChunks(split.sections, ClassifySection) != []
    ensures var script := SplitIntoChunks(text, marker, split);
      var edge := ChunkText(text, marker, split);
      var skip := if IsBlank(SplitAtMarker(text, marker).intro) then 0 else 1;
      |edge| == |script| && edge[..skip] == script[..skip] && edge[skip..] == EdgeLabels(script[skip..])
  {
    var intro := SplitAtMarker(text, marker).intro;
    StripEmptyIffBlank(intro);
    var script := SplitIntoChunks(text, marker, split);
    var edge := ChunkText(text, marker, split);
    var skip := if IsBlank(intro) then 0 else 1;
    assert EdgeKeepsForeword(text, marker) <==> skip == 1;
    assert script[skip..] == KeptChunks(split.sections, ClassifySection);
    assert edge[skip..] == KeptChunks(split.sections, EtlSectionType);
    KeptChunksAcrossClassifiers(split.sections);
    if skip == 1 {
      assert edge[..1] == [edge[0]] && script[..1] == [script[0]];
    }
  }

  /** Front matter of 1 to 50 non-blank characters is a chunk for the script only. */
  lemma {:induction false} ShortForewordScriptOnly(text: string, marker: Wrappers.Option<nat>, split: BodySplit)
    requires marker.Some? ==> marker.value <= |text|
    requires Rejoin(split) == SplitAtMarker(text, marker).body
    requires !IsBlank(SplitAtMarker(text, marker).intro)
    requires |Strip(SplitAtMarker(text, marker).intro)| <= ForewordMinLen
    ensures SplitIntoChunks(text, marker, split)[0].sectionType == Foreword
    ensures forall c :: c in ChunkText(text, marker, split) ==> c.sectionType != Foreword
  {
    ForewordOnlyOnIntro(text, marker, split);
    var r := ChunkText(text, marker, split);
    forall c | c in r ensures c.sectionType != Foreword {
      var k :| 0 <= k < |r| && r[k] == c;
    }
  }

  /** Text with neither marker nor header: the script falls back, the edge function returns nothing. */
  lemma OnlyScriptFallsBack(text: string, split: BodySplit)
    requires Rejoin(split) == text && split.sections == []
    requires !IsBlank(text)
    ensures SplitIntoChunks(text, Wrappers.None, split) == [FallbackChunk(text)]
    ensures ChunkText(text, Wrappers.None, split) == []
  {
  }
}
