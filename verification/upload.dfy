/**
 * The upload pipeline of the article chunker script around `chunk_by_articles`:
 * keeping the chunks that obtained an embedding (`generate_embeddings`),
 * inserting them in batches of ten (`upload_to_supabase`), the per-file
 * pipeline (`process_pdf`) and the directory totals with the language chosen
 * from the file name (`process_directory`).
 *
 * The embedding API, the database insert and the PDF text extraction are
 * oracles: `embeddings[k]` is what the API gave chunk `k` (`None` when it
 * raised), `inserted(b)` says whether the insert of batch `b` succeeded, and
 * the extracted text is an input.
 */
module UploadPipeline {

  import opened Text
  import opened RuleChunks
  import opened ArticleChunker
  import Wrappers

  /** A chunk together with the embedding the API returned for it. */
  datatype Embedded<V> = Embedded(chunk: ArticleChunk, embedding: V)

  const BatchSize: nat := 10

  // ---------------------------------------------------------------------------
  // generate_embeddings: drop the chunks whose embedding failed
  // ---------------------------------------------------------------------------

  /** `[c for c in chunks if c.get('embedding') is not None]`. */
  function WithEmbeddings<V>(chunks: seq<ArticleChunk>, embeddings: seq<Wrappers.Option<V>>): (r: seq<Embedded<V>>)
    requires |embeddings| == |chunks|
    ensures |r| == Wrappers.CountSome(embeddings)
  {
    if |chunks| == 0 then []
    else if embeddings[0].Some? then [Embedded(chunks[0], embeddings[0].value)] + WithEmbeddings(chunks[1..], embeddings[1..])
    else WithEmbeddings(chunks[1..], embeddings[1..])
  }

  /** `idx` lists positions in strictly increasing order. */
  predicate Increasing(idx: seq<nat>) {
    forall k, l :: 0 <= k < l < |idx| ==> idx[k] < idx[l]
  }

  /** Entry `k` of `r` is chunk `idx[k]` with its embedding. */
  predicate PicksAt<V(==)>(r: seq<Embedded<V>>, chunks: seq<ArticleChunk>, embeddings: seq<Wrappers.Option<V>>, idx: seq<nat>)
    requires |embeddings| == |chunks|
  {
    |idx| == |r| &&
    forall k :: 0 <= k < |idx| ==>
      idx[k] < |chunks| && embeddings[idx[k]].Some? && r[k] == Embedded(chunks[idx[k]], embeddings[idx[k]].value)
  }

  /**
   * The kept chunks are exactly the chunks with an embedding, in their
   * original order: there is an increasing choice of positions that picks
   * them, and it misses no position that has an embedding.
   */
  lemma WithEmbeddingsPositions<V>(chunks: seq<ArticleChunk>, embeddings: seq<Wrappers.Option<V>>) returns (idx: seq<nat>)
    requires |embeddings| == |chunks|
    ensures PicksAt(WithEmbeddings(chunks, embeddings), chunks, embeddings, idx)
    ensures Increasing(idx)
    ensures forall i :: 0 <= i < |chunks| && embeddings[i].Some? ==> i in idx
  {
    if |chunks| == 0 {
      idx := [];
    } else {
      var rest := WithEmbeddingsPositions(chunks[1..], embeddings[1..]);
      var shifted := Shift(rest);
      PicksShifted(chunks, embeddings, rest, shifted);
      if embeddings[0].Some? {
        idx := [0] + shifted;
        PicksCons(chunks, embeddings, shifted);
      } else {
        idx := shifted;
        assert WithEmbeddings(chunks, embeddings) == WithEmbeddings(chunks[1..], embeddings[1..]);
      }
      forall i | 0 <= i < |chunks| && embeddings[i].Some? ensures i in idx {
        if i > 0 {
          assert embeddings[1..][i - 1] == embeddings[i];
          var k :| 0 <= k < |rest| && rest[k] == i - 1;
          assert shifted[k] == i;
        }
      }
    }
  }

  /** Every position moved one place on. */
  function Shift(idx: seq<nat>): (r: seq<nat>)
    ensures |r| == |idx| && forall k :: 0 <= k < |r| ==> r[k] == idx[k] + 1
  {
    if |idx| == 0 then [] else [idx[0] + 1] + Shift(idx[1..])
  }

  /** Positions into the tail, shifted, are positions into the whole. */
  lemma PicksShifted<V>(chunks: seq<ArticleChunk>, embeddings: seq<Wrappers.Option<V>>, rest: seq<nat>, shifted: seq<nat>)
    requires |embeddings| == |chunks| > 0
    requires PicksAt(WithEmbeddings(chunks[1..], embeddings[1..]), chunks[1..], embeddings[1..], rest) && Increasing(rest)
    requires shifted == Shift(rest)
    ensures PicksAt(WithEmbeddings(chunks[1..], embeddings[1..]), chunks, embeddings, shifted) && Increasing(shifted)
    ensures forall k :: 0 <= k < |shifted| ==> shifted[k] >= 1
  {
    var r := WithEmbeddings(chunks[1..], embeddings[1..]);
    forall k | 0 <= k < |shifted|
      ensures shifted[k] < |chunks| && embeddings[shifted[k]].Some? && r[k] == Embedded(chunks[shifted[k]], embeddings[shifted[k]].value)
    {
      assert chunks[1..][rest[k]] == chunks[shifted[k]];
      assert embeddings[1..][rest[k]] == embeddings[shifted[k]];
    }
  }

  /** Position 0 in front of positions beyond it. */
  lemma PicksCons<V>(chunks: seq<ArticleChunk>, embeddings: seq<Wrappers.Option<V>>, shifted: seq<nat>)
    requires |embeddings| == |chunks| > 0 && embeddings[0].Some?
    requires PicksAt(WithEmbeddings(chunks[1..], embeddings[1..]), chunks, embeddings, shifted) && Increasing(shifted)
    requires forall k :: 0 <= k < |shifted| ==> shifted[k] >= 1
    ensures PicksAt(WithEmbeddings(chunks, embeddings), chunks, embeddings, [0] + shifted) && Increasing([0] + shifted)
  {
    var r := WithEmbeddings(chunks, embeddings);
    var tail := WithEmbeddings(chunks[1..], embeddings[1..]);
    var idx := [0] + shifted;
    assert r == [Embedded(chunks[0], embeddings[0].value)] + tail;
    forall k | 1 <= k < |idx|
      ensures idx[k] < |chunks| && embeddings[idx[k]].Some? && r[k] == Embedded(chunks[idx[k]], embeddings[idx[k]].value)
    {
      assert idx[k] == shifted[k - 1] && r[k] == tail[k - 1];
    }
  }

  /** No embedding at all leaves nothing to upload, and every embedding present keeps every chunk. */
  lemma {:induction false} WithEmbeddingsExtremes<V>(chunks: seq<ArticleChunk>, embeddings: seq<Wrappers.Option<V>>)
    requires |embeddings| == |chunks|
    ensures (forall k :: 0 <= k < |embeddings| ==> embeddings[k].None?) ==> WithEmbeddings(chunks, embeddings) == []
    ensures (forall k :: 0 <= k < |embeddings| ==> embeddings[k].Some?) ==>
      |WithEmbeddings(chunks, embeddings)| == |chunks| &&
      forall k :: 0 <= k < |chunks| ==> WithEmbeddings(chunks, embeddings)[k].chunk == chunks[k]
  {
    var idx := WithEmbeddingsPositions(chunks, embeddings);
    if forall k :: 0 <= k < |embeddings| ==> embeddings[k].Some? {
      AllSomeCount(embeddings);
      IncreasingCover(idx, |chunks|);
    }
    if forall k :: 0 <= k < |embeddings| ==> embeddings[k].None? {
      NoneCount(embeddings);
    }
  }

  lemma {:induction false} NoneCount<V>(xs: seq<Wrappers.Option<V>>)
    requires forall k :: 0 <= k < |xs| ==> xs[k].None?
    ensures Wrappers.CountSome(xs) == 0
  {
    if |xs| > 0 {
      NoneCount(xs[1..]);
    }
  }

  lemma {:induction false} AllSomeCount<V>(xs: seq<Wrappers.Option<V>>)
    requires forall k :: 0 <= k < |xs| ==> xs[k].Some?
    ensures Wrappers.CountSome(xs) == |xs|
  {
    if |xs| > 0 {
      AllSomeCount(xs[1..]);
    }
  }

  /** An increasing choice of `n` positions below `n` is the identity. */
  lemma {:induction false} IncreasingCover(idx: seq<nat>, n: nat)
    requires Increasing(idx) && |idx| == n
    requires forall k :: 0 <= k < |idx| ==> idx[k] < n
    ensures forall k :: 0 <= k < |idx| ==> idx[k] == k
    decreases n
  {
    if n > 0 {
      // the last position is the largest, so it is n - 1
      assert idx[n - 1] == n - 1 by {
        IncreasingLowerBound(idx, n - 1);
      }
      var front := idx[..n - 1];
      forall k | 0 <= k < |front| ensures front[k] < n - 1 {
        assert idx[k] < idx[n - 1];
      }
      IncreasingCover(front, n - 1);
      forall k | 0 <= k < n - 1 ensures idx[k] == k {
        assert front[k] == idx[k];
      }
    }
  }

  /** In an increasing list of positions, entry `k` is at least `k`. */
  lemma {:induction false} IncreasingLowerBound(idx: seq<nat>, k: nat)
    requires Increasing(idx) && k < |idx|
    ensures idx[k] >= k
  {
    if k > 0 {
      IncreasingLowerBound(idx, k - 1);
    }
  }

  // ---------------------------------------------------------------------------
  // upload_to_supabase: consecutive batches of ten
  // ---------------------------------------------------------------------------

  /** `[xs[i:i + size] for i in range(0, len(xs), size)]`. */
  function Batches<T>(xs: seq<T>, size: nat): (r: seq<seq<T>>)
    requires size > 0
    decreases |xs|
  {
    if |xs| == 0 then []
    else if |xs| <= size then [xs]
    else [xs[..size]] + Batches(xs[size..], size)
  }

  function Flatten<T>(bs: seq<seq<T>>): seq<T> {
    if |bs| == 0 then [] else bs[0] + Flatten(bs[1..])
  }

  /** The batches put back together are the input, each holds 1 to `size` items, and there are ceil(n / size) of them. */
  lemma {:induction false} BatchesPartition<T>(xs: seq<T>, size: nat)
    requires size > 0
    ensures Flatten(Batches(xs, size)) == xs
    ensures forall k :: 0 <= k < |Batches(xs, size)| ==> 0 < |Batches(xs, size)[k]| <= size
    ensures var n := |Batches(xs, size)|; (n - 1) * size < |xs| <= n * size || (n == 0 && xs == [])
  {
    BatchesFlatten(xs, size);
    BatchesSizes(xs, size);
    BatchesCount(xs, size);
  }

  lemma {:induction false} BatchesFlatten<T>(xs: seq<T>, size: nat)
    requires size > 0
    ensures Flatten(Batches(xs, size)) == xs
    decreases |xs|
  {
    if |xs| > size {
      var rest := xs[size..];
      BatchesFlatten(rest, size);
      assert Batches(xs, size) == [xs[..size]] + Batches(rest, size);
      assert Flatten(Batches(xs, size)) == xs[..size] + Flatten(Batches(rest, size));
      assert xs[..size] + rest == xs;
    } else if |xs| > 0 {
      assert Batches(xs, size) == [xs];
      assert Flatten([xs]) == xs + Flatten([]);
    }
  }

  lemma {:induction false} BatchesSizes<T>(xs: seq<T>, size: nat)
    requires size > 0
    ensures forall k :: 0 <= k < |Batches(xs, size)| ==> 0 < |Batches(xs, size)[k]| <= size
    decreases |xs|
  {
    if |xs| > size {
      var rest := xs[size..];
      BatchesSizes(rest, size);
      var bs := Batches(xs, size);
      assert bs == [xs[..size]] + Batches(rest, size);
      forall k | 1 <= k < |bs| ensures 0 < |bs[k]| <= size {
        assert bs[k] == Batches(rest, size)[k - 1];
      }
    }
  }

  lemma {:induction false} BatchesCount<T>(xs: seq<T>, size: nat)
    requires size > 0
    ensures var n := |Batches(xs, size)|; (n - 1) * size < |xs| <= n * size || (n == 0 && xs == [])
    decreases |xs|
  {
    if |xs| > size {
      var rest := xs[size..];
      BatchesCount(rest, size);
      assert |Batches(xs, size)| == 1 + |Batches(rest, size)|;
      var n' := |Batches(rest, size)|;
      assert (n' + 1) * size == n' * size + size;
    }
  }

  /** The items of the batches numbered from `b` on whose insert succeeded. */
  function Uploaded<T>(bs: seq<seq<T>>, inserted: nat -> bool, b: nat): (n: nat)
    ensures n <= |Flatten(bs)|
  {
    if |bs| == 0 then 0
    else (if inserted(b) then |bs[0]| else 0) + Uploaded(bs[1..], inserted, b + 1)
  }

  /** When every insert succeeds, every item is counted. */
  lemma {:induction false} AllInsertedCountsAll<T>(bs: seq<seq<T>>, inserted: nat -> bool, b: nat)
    requires forall j :: b <= j < b + |bs| ==> inserted(j)
    ensures Uploaded(bs, inserted, b) == |Flatten(bs)|
  {
    if |bs| > 0 {
      AllInsertedCountsAll(bs[1..], inserted, b + 1);
    }
  }

  /** When every insert fails, nothing is counted. */
  lemma {:induction false} NoneInsertedCountsNothing<T>(bs: seq<seq<T>>, inserted: nat -> bool, b: nat)
    requires forall j :: b <= j < b + |bs| ==> !inserted(j)
    ensures Uploaded(bs, inserted, b) == 0
  {
    if |bs| > 0 {
      NoneInsertedCountsNothing(bs[1..], inserted, b + 1);
    }
  }

  /**
   * `upload_to_supabase`: the loop over `range(0, len(chunks), 10)`, adding
   * the size of each batch whose insert succeeded; `inserted(b)` is the
   * outcome of batch `b`.
   */
  method UploadToSupabase<T>(chunks: seq<T>, inserted: nat -> bool) returns (uploaded: nat)
    ensures uploaded == Uploaded(Batches(chunks, BatchSize), inserted, 0)
    ensures uploaded <= |chunks|
    ensures (forall j :: inserted(j)) ==> uploaded == |chunks|
  {
    BatchesPartition(chunks, BatchSize);
    uploaded := 0;
    var i := 0;
    var b := 0;
    // `i` steps by the batch length, which is 10 except for the last batch;
    // the `range` stops at the same point.
    while i < |chunks|
      invariant i <= |chunks|
      invariant uploaded + Uploaded(Batches(chunks[i..], BatchSize), inserted, b) == Uploaded(Batches(chunks, BatchSize), inserted, 0)
      decreases |chunks| - i
    {
      var batch := if i + BatchSize <= |chunks| then chunks[i..i + BatchSize] else chunks[i..];
      BatchStep(chunks, i, b, inserted);
      if inserted(b) {
        uploaded := uploaded + |batch|;
      }
      i := i + |batch|;
      b := b + 1;
    }
    if forall j :: inserted(j) {
      AllInsertedCountsAll(Batches(chunks, BatchSize), inserted, 0);
    }
  }

  /** One turn of the upload loop: the first remaining batch is `chunks[i:i + 10]`. */
  lemma BatchStep<T>(chunks: seq<T>, i: nat, b: nat, inserted: nat -> bool)
    requires i < |chunks|
    ensures var batch := if i + BatchSize <= |chunks| then chunks[i..i + BatchSize] else chunks[i..];
      Uploaded(Batches(chunks[i..], BatchSize), inserted, b) ==
        (if inserted(b) then |batch| else 0) +
        (if i + BatchSize <= |chunks| then Uploaded(Batches(chunks[i + BatchSize..], BatchSize), inserted, b + 1) else 0)
  {
    var rest := chunks[i..];
    if |rest| > BatchSize {
      assert rest[..BatchSize] == chunks[i..i + BatchSize];
      assert rest[BatchSize..] == chunks[i + BatchSize..];
    } else if |rest| == BatchSize {
      assert rest == chunks[i..i + BatchSize];
      assert chunks[i + BatchSize..] == [];
    }
  }

  // ---------------------------------------------------------------------------
  // process_pdf and process_directory
  // ---------------------------------------------------------------------------

  /**
   * `process_pdf` on the extracted `text`: no text, no chunk or no embedding
   * gives 0; otherwise the number of chunks uploaded. `splits` is the title
   * split of the text (its pieces spell the text) and `embeddings[k]` the
   * API's answer for chunk `k`.
   */
  method ProcessPdf<V>(text: string, splits: seq<string>, language: Language,
                       embeddings: seq<Wrappers.Option<V>>, inserted: nat -> bool) returns (uploaded: nat)
    requires Join("", splits) == text
    requires |embeddings| == |ChunkByArticles(text, splits, language)|
    ensures text == [] ==> uploaded == 0
    ensures uploaded <= Wrappers.CountSome(embeddings)
    ensures text != [] && (forall j :: inserted(j)) ==> uploaded == Wrappers.CountSome(embeddings)
  {
    if text == [] {
      return 0;
    }
    var chunks := ChunkByArticles(text, splits, language);
    if chunks == [] {
      return 0;
    }
    var kept := WithEmbeddings(chunks, embeddings);
    if kept == [] {
      return 0;
    }
    uploaded := UploadToSupabase(kept, inserted);
  }

  /** `any(x in stem.lower() for x in ['한글', 'korean', 'ko', '규칙'])` picks Korean. */
  function LanguageOf(stem: string): (l: Language)
    ensures l == Ko <==> Contains(Lower(stem), "ko") || Contains(Lower(stem), "한글") || Contains(Lower(stem), "규칙")
  {
    var s := Lower(stem);
    KoreanImpliesKo(s);
    if Contains(s, "한글") || Contains(s, "korean") || Contains(s, "ko") || Contains(s, "규칙") then Ko else En
  }

  /** "korean" contains "ko", so that entry of the list never decides anything. */
  lemma KoreanImpliesKo(s: string)
    ensures Contains(s, "korean") ==> Contains(s, "ko")
  {
    if Contains(s, "korean") {
      var i :| 0 <= i <= |s| && OccursAt(s, "korean", i);
      assert s[i..i + 2] == s[i..i + 6][..2];
      assert OccursAt(s, "ko", i);
    }
  }

  /** A stem ending in "_KO" is Korean once lower-cased. */
  lemma KoreanStemExample()
    ensures LanguageOf("Rules_KO") == Ko
  {
    var s := Lower("Rules_KO");
    assert s[6..8] == "ko";
    assert OccursAt(s, "ko", 6);
  }

  /** A two-letter stem other than "ko" is English. */
  lemma EnglishStemExample()
    ensures LanguageOf("en") == En
  {
    var s := Lower("en");
    assert s == "en";
    assert !Contains(s, "ko") by {
      forall i | 0 <= i <= |s| ensures !OccursAt(s, "ko", i) {
        if i == 0 { assert s[0] != 'k'; }
      }
    }
    assert !Contains(s, "한글") by {
      forall i | 0 <= i <= |s| ensures !OccursAt(s, "한글", i) {
        if i == 0 { assert s[0] != '한'; }
      }
    }
    assert !Contains(s, "규칙") by {
      forall i | 0 <= i <= |s| ensures !OccursAt(s, "규칙", i) {
        if i == 0 { assert s[0] != '규'; }
      }
    }
  }

  /** How many of the per-file counts are positive. */
  function CountPositive(counts: seq<nat>): (n: nat)
    ensures n <= |counts|
  {
    if |counts| == 0 then 0 else (if counts[0] > 0 then 1 else 0) + CountPositive(counts[1..])
  }

  function Sum(counts: seq<nat>): nat {
    if |counts| == 0 then 0 else counts[0] + Sum(counts[1..])
  }

  /**
   * `process_directory`: each file is processed in the language its stem
   * selects (`uploadedFor` is `process_pdf` on that file); a file counts when
   * it uploaded at least one chunk.
   */
  method ProcessDirectory(stems: seq<string>, uploadedFor: (string, Language) -> nat) returns (files: nat, chunks: nat)
    ensures files <= |stems|
    ensures files == 0 <==> chunks == 0
    ensures files == CountPositive(FileCounts(stems, uploadedFor))
    ensures chunks == Sum(FileCounts(stems, uploadedFor))
  {
    var counts := FileCounts(stems, uploadedFor);
    files, chunks := 0, 0;
    var i := 0;
    while i < |stems|
      invariant i <= |stems|
      invariant files + CountPositive(counts[i..]) == CountPositive(counts)
      invariant chunks + Sum(counts[i..]) == Sum(counts)
      invariant files <= i
      invariant files == 0 <==> chunks == 0
    {
      var n := counts[i];
      assert counts[i..] == [n] + counts[i + 1..];
      if n > 0 {
        files := files + 1;
        chunks := chunks + n;
      }
      i := i + 1;
    }
    assert counts[i..] == [];
  }

  /** What processing each file uploaded, in the language its stem selects. */
  function FileCounts(stems: seq<string>, uploadedFor: (string, Language) -> nat): (r: seq<nat>)
    ensures |r| == |stems|
    ensures forall k :: 0 <= k < |r| ==> r[k] == uploadedFor(stems[k], LanguageOf(stems[k]))
  {
    if |stems| == 0 then [] else [uploadedFor(stems[0], LanguageOf(stems[0]))] + FileCounts(stems[1..], uploadedFor)
  }
}
