/**
 The transcript chunker, `split_text_into_chunks` in app.py: the transcript is
 split into words, the words are cut into runs of `chunk_size`, and a trailing
 run shorter than `min_chunk_size` is folded into the one before it, once.

 The function `SplitTextIntoChunks` follows the Python line by line, on
 strings. The lemmas below restate its result on word groups
 (`Groups`, `MergeShortTail`) and derive from that the properties the
 pipeline relies on: no word lost, added or reordered, the size of every
 chunk, and when the merge fires.
 */
module Chunker {
  import opened PyStr
  import opened PyErrors

  /** Default `min_chunk_size` of `split_text_into_chunks`. */
  const DefaultMinChunkSize: int := 500

  /** Default `chunk_size` of `transcript_to_gemini_output`, and the value
      the page passes. */
  const DefaultChunkSize: int := 3000

  /** The message Python's `range` raises with when its step is zero. */
  const RangeStepZero: string := "range() arg 3 must not be zero"

  /** All groups concatenated, in order. */
  function Flatten<T>(gs: seq<seq<T>>): seq<T>
  {
    if |gs| == 0 then [] else gs[0] + Flatten(gs[1..])
  }

  /** `[xs[i:i + size] for i in range(0, len(xs), size)]` for a positive
      `size`: consecutive runs of `size` elements, the last run possibly
      shorter. */
  function Groups<T>(xs: seq<T>, size: int): (gs: seq<seq<T>>)
    requires size > 0
    ensures |gs| == 0 <==> |xs| == 0
    ensures forall i :: 0 <= i < |gs| - 1 ==> |gs[i]| == size
    ensures |gs| > 0 ==> 1 <= |gs[|gs| - 1]| <= size
    decreases |xs|
  {
    if |xs| == 0 then []
    else if |xs| <= size then [xs]
    else [xs[..size]] + Groups(xs[size..], size)
  }

  /** There are `ceil(|xs| / size)` groups, and the last holds what the
      full ones leave over. */
  lemma {:induction false} GroupsCount<T>(xs: seq<T>, size: int)
    requires size > 0
    ensures IsCeilDiv(|Groups(xs, size)|, |xs|, size)
    ensures |xs| > 0 ==>
              |Groups(xs, size)[|Groups(xs, size)| - 1]| == |xs| - (|Groups(xs, size)| - 1) * size
    decreases |xs|
  {
    if |xs| > size {
      var rest := Groups(xs[size..], size);
      GroupsCount(xs[size..], size);
      MulStep(|rest|, size);
      assert Groups(xs, size) == [xs[..size]] + rest;
    }
  }

  /** `k == ceil(n / size)`, stated without division: the first `k - 1` full
      runs fall short of `n` and `k` runs reach it. */
  predicate IsCeilDiv(k: int, n: int, size: int) {
    (k - 1) * size < n <= k * size
  }

  /** The merge step on groups: when there are at least two groups and the
      last has fewer than `minSize` elements, it is appended to the one
      before it. */
  function MergeShortTail<T>(gs: seq<seq<T>>, minSize: int): seq<seq<T>>
  {
    var n := |gs|;
    if n > 1 && |gs[n - 1]| < minSize then gs[..n - 2] + [gs[n - 2] + gs[n - 1]] else gs
  }

  /** Each word group rejoined with single spaces, as the list comprehension
      does with `" ".join`. */
  function JoinEach(gs: seq<seq<Word>>): seq<string>
  {
    seq(|gs|, i requires 0 <= i < |gs| => JoinWords(gs[i]))
  }

  /** Each chunk split back into its words. */
  function SplitEach(cs: seq<string>): seq<seq<Word>>
  {
    seq(|cs|, i requires 0 <= i < |cs| => Split(cs[i]))
  }

  /** `len(chunk.split())` for every chunk. */
  function WordCounts(cs: seq<string>): seq<int>
  {
    seq(|cs|, i requires 0 <= i < |cs| => |Split(cs[i])|)
  }

  /** `split_text_into_chunks(text, chunk_size, min_chunk_size)`.
      A zero `chunk_size` makes `range` raise; a negative one makes the
      range, and so the chunk list, empty. */
  function SplitTextIntoChunks(text: string, chunkSize: int, minChunkSize: int): (r: Result<seq<string>>)
    ensures r.ValueError? <==> chunkSize == 0
    ensures chunkSize < 0 ==> r == Ok([])
  {
    if chunkSize == 0 then ValueError(RangeStepZero)
    else
      var words := Split(text);
      var chunks := if chunkSize < 0 then [] else JoinEach(Groups(words, chunkSize));
      Ok(MergeShortChunk(chunks, minChunkSize))
  }

  /** The `if` after the list comprehension: a last chunk of fewer than
      `min_chunk_size` words, when there are at least two, is appended to
      the one before it with a space between. */
  function MergeShortChunk(chunks: seq<string>, minChunkSize: int): (r: seq<string>)
    ensures |r| == |chunks| - 1 <==> |chunks| > 1 && |Split(chunks[|chunks| - 1])| < minChunkSize
    ensures |r| == |chunks| - 1 || r == chunks
    ensures forall i :: 0 <= i < |r| - 1 ==> r[i] == chunks[i]
    ensures JoinWith(" ", r) == JoinWith(" ", chunks)
  {
    var n := |chunks|;
    if n > 1 && |Split(chunks[n - 1])| < minChunkSize then
      JoinWithMergeLast(" ", chunks[..n - 2], chunks[n - 2], chunks[n - 1]);
      assert chunks == chunks[..n - 2] + [chunks[n - 2]] + [chunks[n - 1]];
      chunks[..n - 2] + [chunks[n - 2] + " " + chunks[n - 1]]
    else
      chunks
  }

  /** `v` repeated `n` times. */
  function Repeat(v: int, n: nat): seq<int>
  {
    seq(n, _ => v)
  }

  // ---------------------------------------------------------------------
  // Arithmetic and sequence facts

  lemma MulStep(k: int, size: int)
    ensures (k - 1) * size + size == k * size
    ensures k * size + size == (k + 1) * size
  {
  }

  /** `ceil(n / size)` has only one value. */
  lemma CeilDivUnique(k: int, j: int, n: int, size: int)
    requires size > 0 && IsCeilDiv(k, n, size) && IsCeilDiv(j, n, size)
    ensures k == j
  {
    if k < j {
      MulMono(k, j - 1, size);
    } else if j < k {
      MulMono(j, k - 1, size);
    }
  }

  lemma MulMono(a: int, b: int, size: int)
    requires a <= b && size > 0
    ensures a * size <= b * size
  {
    assert b * size - a * size == (b - a) * size;
  }

  lemma {:induction false} FlattenAppend<T>(a: seq<seq<T>>, b: seq<seq<T>>)
    ensures Flatten(a + b) == Flatten(a) + Flatten(b)
    decreases |a|
  {
    if |a| == 0 {
      assert a + b == b;
    } else {
      assert (a + b)[1..] == a[1..] + b;
      FlattenAppend(a[1..], b);
    }
  }

  /** Cutting into groups loses, adds and reorders nothing. */
  lemma {:induction false} FlattenGroups<T>(xs: seq<T>, size: int)
    requires size > 0
    ensures Flatten(Groups(xs, size)) == xs
    decreases |xs|
  {
    if |xs| == 0 {
    } else if |xs| <= size {
      assert Flatten([xs]) == xs + Flatten([xs][1..]);
    } else {
      FlattenGroups(xs[size..], size);
      assert xs == xs[..size] + xs[size..];
    }
  }

  /** The merge step preserves the concatenation of the groups. */
  lemma FlattenMergeShortTail<T>(gs: seq<seq<T>>, minSize: int)
    ensures Flatten(MergeShortTail(gs, minSize)) == Flatten(gs)
  {
    var n := |gs|;
    if n > 1 && |gs[n - 1]| < minSize {
      var front := gs[..n - 2];
      assert gs == front + [gs[n - 2], gs[n - 1]];
      FlattenAppend(front, [gs[n - 2], gs[n - 1]]);
      FlattenAppend(front, [gs[n - 2] + gs[n - 1]]);
      assert Flatten([gs[n - 1]]) == gs[n - 1] by {
        assert [gs[n - 1]][1..] == [];
      }
      assert Flatten([gs[n - 2], gs[n - 1]]) == gs[n - 2] + gs[n - 1] by {
        assert [gs[n - 2], gs[n - 1]][1..] == [gs[n - 1]];
      }
      assert Flatten([gs[n - 2] + gs[n - 1]]) == gs[n - 2] + gs[n - 1] by {
        assert [gs[n - 2] + gs[n - 1]][1..] == [];
      }
    }
  }

  /** Rejoining word groups and splitting them again gives the groups back. */
  lemma SplitJoinEach(gs: seq<seq<Word>>)
    ensures SplitEach(JoinEach(gs)) == gs
  {
    forall i | 0 <= i < |gs|
      ensures Split(JoinEach(gs)[i]) == gs[i]
    {
      SplitJoinWords(gs[i]);
    }
  }

  // ---------------------------------------------------------------------
  // The chunker on word groups

  /** For a positive `chunk_size`, the chunks are the word groups, with the
      short tail merged, each rejoined with single spaces. */
  lemma ChunksAreMergedGroups(text: string, chunkSize: int, minChunkSize: int)
    requires chunkSize > 0
    ensures SplitTextIntoChunks(text, chunkSize, minChunkSize)
         == Ok(JoinEach(MergeShortTail(Groups(Split(text), chunkSize), minChunkSize)))
  {
    var gs := Groups(Split(text), chunkSize);
    assert forall i :: 0 <= i < |gs| ==> |gs[i]| >= 1;
    MergeCommutesWithJoin(gs, minChunkSize);
  }

  /** Merging the rejoined chunks is rejoining the merged groups. */
  lemma MergeCommutesWithJoin(gs: seq<seq<Word>>, minChunkSize: int)
    requires forall i :: 0 <= i < |gs| ==> |gs[i]| >= 1
    ensures MergeShortChunk(JoinEach(gs), minChunkSize) == JoinEach(MergeShortTail(gs, minChunkSize))
  {
    var n := |gs|;
    if n > 1 {
      SplitJoinWords(gs[n - 1]);
      assert Split(JoinEach(gs)[n - 1]) == gs[n - 1];
      if |gs[n - 1]| < minChunkSize {
        JoinEachMerge(gs);
      }
    }
  }

  /** Rejoining the merged groups is merging the rejoined chunks with a
      space between the last two. */
  lemma JoinEachMerge(gs: seq<seq<Word>>)
    requires |gs| > 1 && |gs[|gs| - 2]| >= 1 && |gs[|gs| - 1]| >= 1
    ensures var n, u := |gs|, JoinEach(gs);
            JoinEach(gs[..n - 2] + [gs[n - 2] + gs[n - 1]]) == u[..n - 2] + [u[n - 2] + " " + u[n - 1]]
  {
    var n, u := |gs|, JoinEach(gs);
    JoinWordsAppend(gs[n - 2], gs[n - 1]);
    var merged := gs[..n - 2] + [gs[n - 2] + gs[n - 1]];
    assert forall i :: 0 <= i < n - 2 ==> JoinEach(merged)[i] == u[i];
  }

  /** Word conservation: splitting every chunk back into words and
      concatenating gives exactly `text.split()`. */
  lemma WordsConserved(text: string, chunkSize: int, minChunkSize: int)
    requires chunkSize > 0
    ensures var r := SplitTextIntoChunks(text, chunkSize, minChunkSize);
            r.Ok? && Flatten(SplitEach(r.value)) == Split(text)
  {
    var gs := Groups(Split(text), chunkSize);
    var m := MergeShortTail(gs, minChunkSize);
    ChunksAreMergedGroups(text, chunkSize, minChunkSize);
    SplitJoinEach(m);
    FlattenMergeShortTail(gs, minChunkSize);
    FlattenGroups(Split(text), chunkSize);
  }

  /** Every chunk holds at least one word. */
  lemma ChunksNonEmpty(text: string, chunkSize: int, minChunkSize: int)
    requires chunkSize > 0
    ensures var r := SplitTextIntoChunks(text, chunkSize, minChunkSize);
            r.Ok? && forall i :: 0 <= i < |r.value| ==> |Split(r.value[i])| >= 1
  {
    var m := MergeShortTail(Groups(Split(text), chunkSize), minChunkSize);
    WordCountsAreGroupSizes(text, chunkSize, minChunkSize);
    MergedGroupsNonEmpty(Split(text), chunkSize, minChunkSize);
    var r := SplitTextIntoChunks(text, chunkSize, minChunkSize);
    forall i | 0 <= i < |r.value|
      ensures |Split(r.value[i])| >= 1
    {
      assert WordCounts(r.value)[i] == |Split(r.value[i])|;
      assert Sizes(m)[i] == |m[i]|;
    }
  }

  /** No group is empty, before or after the merge step. */
  lemma MergedGroupsNonEmpty<T>(xs: seq<T>, size: int, minSize: int)
    requires size > 0
    ensures var m := MergeShortTail(Groups(xs, size), minSize);
            forall i :: 0 <= i < |m| ==> |m[i]| >= 1
  {
    var gs := Groups(xs, size);
    assert forall i :: 0 <= i < |gs| ==> |gs[i]| >= 1;
  }

  /** A text with no words yields no chunks, and only such a text does. */
  lemma NoWordsNoChunks(text: string, chunkSize: int, minChunkSize: int)
    requires chunkSize > 0
    ensures SplitTextIntoChunks(text, chunkSize, minChunkSize) == Ok([]) <==> AllSpace(text)
  {
    ChunksAreMergedGroups(text, chunkSize, minChunkSize);
  }

  /** The number of elements of each group. */
  function Sizes<T>(gs: seq<seq<T>>): seq<int>
  {
    seq(|gs|, i requires 0 <= i < |gs| => |gs[i]|)
  }

  /** The chunks' word counts are the sizes of the merged word groups. */
  lemma WordCountsAreGroupSizes(text: string, chunkSize: int, minChunkSize: int)
    requires chunkSize > 0
    ensures var r := SplitTextIntoChunks(text, chunkSize, minChunkSize);
            r.Ok? && WordCounts(r.value) == Sizes(MergeShortTail(Groups(Split(text), chunkSize), minChunkSize))
  {
    var m := MergeShortTail(Groups(Split(text), chunkSize), minChunkSize);
    ChunksAreMergedGroups(text, chunkSize, minChunkSize);
    SplitJoinEach(m);
    var cs := JoinEach(m);
    forall i | 0 <= i < |m|
      ensures WordCounts(cs)[i] == |m[i]|
    {
      assert Split(cs[i]) == SplitEach(cs)[i];
    }
  }

  /** Sizes of the groups after the merge step, from `n = |xs|` alone: with
      `k = ceil(n / size)` groups and a last group of
      `tail = n - (k - 1) * size` elements, the merge fires exactly when
      `k >= 2` and `tail < minSize`. */
  lemma SizesOfMergedGroups<T>(xs: seq<T>, size: int, minSize: int, k: int, tail: int)
    requires size > 0
    requires IsCeilDiv(k, |xs|, size)
    requires tail == |xs| - (k - 1) * size
    ensures |xs| > 0 ==> k >= 1
    ensures |xs| == 0 ==> Sizes(MergeShortTail(Groups(xs, size), minSize)) == []
    ensures |xs| > 0 && k >= 2 && tail < minSize ==>
              Sizes(MergeShortTail(Groups(xs, size), minSize)) == Repeat(size, k - 2) + [size + tail]
    ensures |xs| > 0 && !(k >= 2 && tail < minSize) ==>
              Sizes(MergeShortTail(Groups(xs, size), minSize)) == Repeat(size, k - 1) + [tail]
  {
    var gs := Groups(xs, size);
    GroupsCount(xs, size);
    CeilDivUnique(k, |gs|, |xs|, size);
    assert |xs| > 0 ==> k == |gs| >= 1;
    var m := MergeShortTail(gs, minSize);
    if |xs| > 0 {
      if k >= 2 && tail < minSize {
        assert Sizes(m) == Repeat(size, k - 2) + [size + tail];
      } else {
        assert Sizes(m) == Repeat(size, k - 1) + [tail];
      }
    }
  }

  /** The word counts of the chunks are determined by the number of words
      `n`: with `k = ceil(n / chunk_size)` runs and a last run of
      `tail = n - (k - 1) * chunk_size` words, the merge fires exactly when
      `k >= 2` and `tail < min_chunk_size`, turning the counts
      `[chunk_size, ..., chunk_size, tail]` into
      `[chunk_size, ..., chunk_size + tail]`. No upper bound is re-checked. */
  lemma ChunkWordCounts(text: string, chunkSize: int, minChunkSize: int, k: int, tail: int)
    requires chunkSize > 0
    requires IsCeilDiv(k, |Split(text)|, chunkSize)
    requires tail == |Split(text)| - (k - 1) * chunkSize
    ensures |Split(text)| > 0 ==> k >= 1
    ensures SplitTextIntoChunks(text, chunkSize, minChunkSize).Ok?
    ensures |Split(text)| == 0 ==>
              WordCounts(SplitTextIntoChunks(text, chunkSize, minChunkSize).value) == []
    ensures |Split(text)| > 0 && k >= 2 && tail < minChunkSize ==>
              WordCounts(SplitTextIntoChunks(text, chunkSize, minChunkSize).value)
              == Repeat(chunkSize, k - 2) + [chunkSize + tail]
    ensures |Split(text)| > 0 && !(k >= 2 && tail < minChunkSize) ==>
              WordCounts(SplitTextIntoChunks(text, chunkSize, minChunkSize).value)
              == Repeat(chunkSize, k - 1) + [tail]
  {
    WordCountsAreGroupSizes(text, chunkSize, minChunkSize);
    SizesOfMergedGroups(Split(text), chunkSize, minChunkSize, k, tail);
  }

  /** After the merge step, a last chunk that shares the list with others has
      at least `min_chunk_size` words or was merged (more than `chunk_size`
      words). */
  lemma ShortTailAbsorbed(text: string, chunkSize: int, minChunkSize: int)
    requires chunkSize > 0
    ensures var r := SplitTextIntoChunks(text, chunkSize, minChunkSize);
            var c := WordCounts(r.value);
            r.Ok? && (|c| >= 2 ==> c[|c| - 1] >= minChunkSize || c[|c| - 1] > chunkSize)
  {
    var n, k := |Split(text)|, |Groups(Split(text), chunkSize)|;
    var tail := n - (k - 1) * chunkSize;
    GroupsCount(Split(text), chunkSize);
    ChunkWordCounts(text, chunkSize, minChunkSize, k, tail);
    var c := WordCounts(SplitTextIntoChunks(text, chunkSize, minChunkSize).value);
    if n > 0 {
      assert tail > 0;
      if k >= 2 && tail < minChunkSize {
        assert c[|c| - 1] == chunkSize + tail;
      } else {
        assert |c| == k && c[|c| - 1] == tail;
      }
    }
  }

  /** 7000 words with the defaults: runs of 3000, 3000 and 1000; the last
      run is long enough, so three chunks. */
  lemma SevenThousandWords(text: string)
    requires |Split(text)| == 7000
    ensures SplitTextIntoChunks(text, DefaultChunkSize, DefaultMinChunkSize).Ok?
    ensures WordCounts(SplitTextIntoChunks(text, DefaultChunkSize, DefaultMinChunkSize).value)
         == [3000, 3000, 1000]
  {
    ChunkWordCounts(text, DefaultChunkSize, DefaultMinChunkSize, 3, 1000);
    assert Repeat(3000, 2) == [3000, 3000];
  }

  /** 6400 words with the defaults: runs of 3000, 3000 and 400; the last run
      is merged, giving two chunks of 3000 and 3400 words. */
  lemma SixThousandFourHundredWords(text: string)
    requires |Split(text)| == 6400
    ensures SplitTextIntoChunks(text, DefaultChunkSize, DefaultMinChunkSize).Ok?
    ensures WordCounts(SplitTextIntoChunks(text, DefaultChunkSize, DefaultMinChunkSize).value)
         == [3000, 3400]
  {
    ChunkWordCounts(text, DefaultChunkSize, DefaultMinChunkSize, 3, 400);
    assert Repeat(3000, 1) == [3000];
  }
}
