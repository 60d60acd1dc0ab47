/** `simple_similarity_search`: rank the chunks by how many distinct
    lower-cased words they share with the question and return the best
    `top_k` of them. */
module Search {
  import opened Words
  import opened Ranking

  /** `set(s.lower().split())`. */
  function WordSet(s: string): set<string> {
    set w | w in Split(Lower(s))
  }

  /** `len(question_words.intersection(chunk_words))`. */
  function Overlap(question: string, chunk: string): nat {
    |WordSet(question) * WordSet(chunk)|
  }

  /** The `scores` list as the loop builds it: `(overlap, i)` for every
      chunk, in chunk order. */
  function Scores(question: string, chunks: seq<string>): (r: seq<Score>)
    ensures |r| == |chunks|
    ensures forall i :: 0 <= i < |chunks| ==> r[i] == Score(Overlap(question, chunks[i]), i)
  {
    seq(|chunks|, i requires 0 <= i < |chunks| => Score(Overlap(question, chunks[i]), i))
  }

  /** `scores` after `scores.sort(reverse=True)`. */
  function Ranked(question: string, chunks: seq<string>): seq<Score> {
    SortDesc(Scores(question, chunks))
  }

  /** The length of Python's `xs[:k]` for a list of length `n`: a negative
      `k` counts from the end. */
  function PrefixLen(n: nat, k: int): (m: nat)
    ensures m <= n
    ensures k >= 0 ==> m == if k < n then k else n
  {
    if k >= 0 then (if k < n then k else n)
    else if n + k > 0 then n + k else 0
  }

  /** The chunk each score points at. */
  function ChunksAt(chunks: seq<string>, rs: seq<Score>): (r: seq<string>)
    requires forall j :: 0 <= j < |rs| ==> rs[j].index < |chunks|
    ensures |r| == |rs|
    ensures forall j :: 0 <= j < |rs| ==> r[j] == chunks[rs[j].index]
  {
    seq(|rs|, j requires 0 <= j < |rs| => chunks[rs[j].index])
  }

  /** The indices `i` of `scores[:top_k]`. */
  function Selected(question: string, chunks: seq<string>, topK: int): (idx: seq<nat>)
    ensures |idx| == PrefixLen(|chunks|, topK)
  {
    RankedIsPermutation(question, chunks);
    Indices(Ranked(question, chunks)[..PrefixLen(|chunks|, topK)])
  }

  /** Reference definition of the result: `[chunks[i] for _, i in scores[:top_k]]`. */
  function TopK(question: string, chunks: seq<string>, topK: int): (r: seq<string>)
    ensures |r| == |Selected(question, chunks, topK)|
    ensures forall j :: 0 <= j < |r| ==>
      Selected(question, chunks, topK)[j] < |chunks| && r[j] == chunks[Selected(question, chunks, topK)[j]]
  {
    RankedIsPermutation(question, chunks);
    ChunksAt(chunks, Ranked(question, chunks)[..PrefixLen(|chunks|, topK)])
  }

  /** `simple_similarity_search(question, chunks, top_k)`: score every chunk
      into an array, sort it in place largest first, keep the first
      `top_k` entries' chunks. */
  method SimpleSimilaritySearch(question: string, chunks: seq<string>, topK: int)
    returns (matched: seq<string>)
    ensures matched == TopK(question, chunks, topK)
  {
    var scores := ScoreChunks(question, chunks);
    SortInPlace(scores);
    var ranked := scores[..];
    assert ranked == Ranked(question, chunks);
    RankedIsPermutation(question, chunks);
    matched := ChunksAt(chunks, ranked[..PrefixLen(|chunks|, topK)]);
  }

  /** The scoring loop of `simple_similarity_search`: one `(overlap, i)`
      entry per chunk, in chunk order, in a new array. */
  method ScoreChunks(question: string, chunks: seq<string>) returns (scores: array<Score>)
    ensures fresh(scores)
    ensures scores[..] == Scores(question, chunks)
  {
    var questionWords := WordSet(question);
    scores := new Score[|chunks|];
    for i := 0 to |chunks|
      invariant scores[..i] == Scores(question, chunks)[..i]
    {
      var chunkWords := WordSet(chunks[i]);
      var overlap := |questionWords * chunkWords|;
      scores[i] := Score(overlap, i);
    }
    assert scores[..] == scores[..|chunks|];
  }

  // ---------------------------------------------------------------------
  // Properties of the ranking

  /** The sorted list holds every chunk's score exactly once. */
  lemma RankedIsPermutation(question: string, chunks: seq<string>)
    ensures |Ranked(question, chunks)| == |chunks|
    ensures multiset(Ranked(question, chunks)) == multiset(Scores(question, chunks))
    ensures Descending(Ranked(question, chunks))
    ensures forall j :: 0 <= j < |chunks| ==>
      Ranked(question, chunks)[j].index < |chunks| &&
      Ranked(question, chunks)[j].overlap == Overlap(question, chunks[Ranked(question, chunks)[j].index])
  {
    var scores, ranked := Scores(question, chunks), Ranked(question, chunks);
    SortDescCorrect(scores);
    assert |ranked| == |scores| by {
      assert |multiset(ranked)| == |ranked| && |multiset(scores)| == |scores|;
    }
    forall j | 0 <= j < |ranked|
      ensures ranked[j].index < |chunks| && ranked[j].overlap == Overlap(question, chunks[ranked[j].index])
    {
      assert ranked[j] in multiset(scores);
    }
  }

  /** No chunk index is ranked twice, and every chunk index is ranked. */
  lemma RankedIndicesBijective(question: string, chunks: seq<string>)
    ensures |Indices(Ranked(question, chunks))| == |chunks|
    ensures forall j1, j2 :: 0 <= j1 < j2 < |chunks| ==>
      Indices(Ranked(question, chunks))[j1] != Indices(Ranked(question, chunks))[j2]
    ensures forall i :: 0 <= i < |chunks| ==> i in Indices(Ranked(question, chunks))
  {
    var scores, ranked := Scores(question, chunks), Ranked(question, chunks);
    var idx := Indices(ranked);
    RankedIsPermutation(question, chunks);
    forall j1, j2 | 0 <= j1 < j2 < |chunks| ensures idx[j1] != idx[j2] {
      assert ranked[j1] == scores[idx[j1]];
      assert ranked[j2] == scores[idx[j2]];
      RepeatedCount(ranked, j1, j2);
      DistinctCount(scores, ranked[j1]);
    }
    forall i | 0 <= i < |chunks| ensures i in idx {
      assert scores[i] in multiset(ranked);
      var j :| 0 <= j < |ranked| && ranked[j] == scores[i];
      assert idx[j] == i;
    }
  }

  // ---------------------------------------------------------------------
  // Properties of the selection

  /** The result has `min(top_k, len(chunks))` entries for a non-negative
      `top_k`, and an empty chunk list gives an empty result. */
  lemma TopKLength(question: string, chunks: seq<string>, topK: int)
    ensures topK >= 0 ==> |TopK(question, chunks, topK)| == if topK < |chunks| then topK else |chunks|
    ensures topK < 0 ==> |TopK(question, chunks, topK)| == if |chunks| + topK > 0 then |chunks| + topK else 0
    ensures chunks == [] ==> TopK(question, chunks, topK) == []
  {
  }

  /** Selected indices are valid and pairwise distinct. */
  lemma SelectedDistinct(question: string, chunks: seq<string>, topK: int)
    ensures forall j :: 0 <= j < |Selected(question, chunks, topK)| ==>
      Selected(question, chunks, topK)[j] < |chunks|
    ensures forall j1, j2 :: 0 <= j1 < j2 < |Selected(question, chunks, topK)| ==>
      Selected(question, chunks, topK)[j1] != Selected(question, chunks, topK)[j2]
  {
    RankedIsPermutation(question, chunks);
    RankedIndicesBijective(question, chunks);
  }

  /** The selection runs in strictly descending `(overlap, index)` order:
      a larger overlap first, and among equal overlaps the higher chunk
      index first. */
  lemma SelectedOrder(question: string, chunks: seq<string>, topK: int)
    ensures forall j1, j2 :: 0 <= j1 < j2 < |Selected(question, chunks, topK)| ==>
      var i1, i2 := Selected(question, chunks, topK)[j1], Selected(question, chunks, topK)[j2];
      i1 < |chunks| && i2 < |chunks| &&
      (|| Overlap(question, chunks[i1]) > Overlap(question, chunks[i2])
       || (Overlap(question, chunks[i1]) == Overlap(question, chunks[i2]) && i1 > i2))
  {
    var ranked, sel := Ranked(question, chunks), Selected(question, chunks, topK);
    RankedIsPermutation(question, chunks);
    RankedIndicesBijective(question, chunks);
    forall j1, j2 | 0 <= j1 < j2 < |sel|
      ensures
        var i1, i2 := sel[j1], sel[j2];
        i1 < |chunks| && i2 < |chunks| &&
        (|| Overlap(question, chunks[i1]) > Overlap(question, chunks[i2])
         || (Overlap(question, chunks[i1]) == Overlap(question, chunks[i2]) && i1 > i2))
    {
      assert AtLeast(ranked[j1], ranked[j2]);
    }
  }

  /** No chunk left out scores higher than a chunk selected, and at the
      `top_k` cut a tie on overlap is won by the higher chunk index: every
      selected `(overlap, index)` pair is at least every unselected one. */
  lemma SelectedDominates(question: string, chunks: seq<string>, topK: int, j: nat, i: nat)
    requires j < |Selected(question, chunks, topK)|
    requires i < |chunks| && i !in Selected(question, chunks, topK)
    ensures Selected(question, chunks, topK)[j] < |chunks|
    ensures Overlap(question, chunks[Selected(question, chunks, topK)[j]]) >= Overlap(question, chunks[i])
    ensures AtLeast(Score(Overlap(question, chunks[Selected(question, chunks, topK)[j]]), Selected(question, chunks, topK)[j]),
                    Score(Overlap(question, chunks[i]), i))
  {
    var ranked, sel := Ranked(question, chunks), Selected(question, chunks, topK);
    var idx := Indices(ranked);
    RankedIsPermutation(question, chunks);
    RankedIndicesBijective(question, chunks);
    assert i in idx;
    var p :| 0 <= p < |chunks| && idx[p] == i;
    assert forall q :: 0 <= q < |sel| ==> sel[q] == idx[q];
    assert forall q :: 0 <= q < |sel| ==> idx[q] != i;
    assert j < p;
    assert ranked[j] == Score(Overlap(question, chunks[sel[j]]), sel[j]);
    assert ranked[p] == Score(Overlap(question, chunks[i]), i);
    assert AtLeast(ranked[j], ranked[p]);
  }

  /** Asking for at least as many chunks as there are returns all of them,
      each exactly as often as it occurs. */
  lemma TopKAll(question: string, chunks: seq<string>, topK: int)
    requires topK >= |chunks|
    ensures multiset(TopK(question, chunks, topK)) == multiset(chunks)
  {
    var scores, ranked := Scores(question, chunks), Ranked(question, chunks);
    RankedIsPermutation(question, chunks);
    assert ranked[..|chunks|] == ranked;
    ChunksAtPermutes(chunks, ranked, scores);
    assert ChunksAt(chunks, scores) == chunks;
  }

  /** Looking up the chunks of two orderings of the same scores gives two
      orderings of the same chunks. */
  lemma {:induction false} ChunksAtPermutes(chunks: seq<string>, rs: seq<Score>, ss: seq<Score>)
    requires forall j :: 0 <= j < |rs| ==> rs[j].index < |chunks|
    requires forall j :: 0 <= j < |ss| ==> ss[j].index < |chunks|
    requires multiset(rs) == multiset(ss)
    ensures multiset(ChunksAt(chunks, rs)) == multiset(ChunksAt(chunks, ss))
    decreases |rs|
  {
    if rs == [] {
      assert |ss| == |multiset(ss)| == 0;
    } else {
      var x := rs[0];
      assert x in multiset(ss);
      var k :| 0 <= k < |ss| && ss[k] == x;
      var ss' := RemoveAt(ss, k);
      var rs' := RemoveAt(rs, 0);
      ChunksAtPermutes(chunks, rs', ss');
      ChunksAtRemove(chunks, rs, 0);
      ChunksAtRemove(chunks, ss, k);
    }
  }

  function RemoveAt<T>(s: seq<T>, k: nat): (r: seq<T>)
    requires k < |s|
    ensures |r| == |s| - 1
    ensures forall j :: 0 <= j < |r| ==> r[j] == if j < k then s[j] else s[j + 1]
    ensures multiset(r) == multiset(s) - multiset{s[k]}
  {
    assert s == s[..k] + [s[k]] + s[k + 1..];
    s[..k] + s[k + 1..]
  }

  lemma ChunksAtRemove(chunks: seq<string>, rs: seq<Score>, k: nat)
    requires k < |rs|
    requires forall j :: 0 <= j < |rs| ==> rs[j].index < |chunks|
    ensures multiset(ChunksAt(chunks, rs)) ==
      multiset(ChunksAt(chunks, RemoveAt(rs, k))) + multiset{chunks[rs[k].index]}
  {
    var all, rest := ChunksAt(chunks, rs), ChunksAt(chunks, RemoveAt(rs, k));
    assert all == rest[..k] + [all[k]] + rest[k..];
    assert rest == rest[..k] + rest[k..];
  }

  // ---------------------------------------------------------------------
  // Properties of the score

  /** The overlap never exceeds the number of distinct question words. */
  lemma OverlapBound(question: string, chunk: string)
    ensures Overlap(question, chunk) <= |WordSet(question)|
  {
    SubsetCard(WordSet(question) * WordSet(chunk), WordSet(question));
  }

  lemma {:induction false} SubsetCard<T>(a: set<T>, b: set<T>)
    requires a <= b
    ensures |a| <= |b|
    decreases |b|
  {
    if a != {} {
      var x :| x in a;
      SubsetCard(a - {x}, b - {x});
    }
  }

  /** Case and repetition do not change any score: lower-casing the
      question or the chunk first, or doubling either, gives the same
      overlap. */
  lemma OverlapIgnoresCaseAndRepeats(question: string, chunk: string)
    ensures Overlap(Lower(question), chunk) == Overlap(question, chunk)
    ensures Overlap(question + " " + question, chunk) == Overlap(question, chunk)
    ensures Overlap(question, Lower(chunk)) == Overlap(question, chunk)
    ensures Overlap(question, chunk + " " + chunk) == Overlap(question, chunk)
  {
    QuestionSideIgnoresCaseAndRepeats(question, chunk);
    QuestionSideIgnoresCaseAndRepeats(chunk, question);
    var q, c := WordSet(question), WordSet(chunk);
    assert q * c == c * q;
    assert q * WordSet(Lower(chunk)) == WordSet(Lower(chunk)) * q;
    assert q * WordSet(chunk + " " + chunk) == WordSet(chunk + " " + chunk) * q;
  }

  /** The question-side half of `OverlapIgnoresCaseAndRepeats`. */
  lemma QuestionSideIgnoresCaseAndRepeats(question: string, chunk: string)
    ensures Overlap(Lower(question), chunk) == Overlap(question, chunk)
    ensures Overlap(question + " " + question, chunk) == Overlap(question, chunk)
  {
    LowerIdempotent(question);
    var l := Lower(question);
    LowerAroundSpace(question, question);
    SplitAroundSpace(l, ' ', l);
    assert l + " " + l == l + [' '] + l;
    assert WordSet(question + " " + question) == WordSet(question) by {
      assert forall w :: w in Split(l) + Split(l) <==> w in Split(l);
    }
  }
}
