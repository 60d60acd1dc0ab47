/** `chunk_text`: the words of a document, in order, grouped into chunks of
    at most `max_words` words, each chunk re-joined with single spaces. */
module Chunker {
  import opened Words

  /** The number of words at which the buffer is sealed. The source seals as
      soon as `len(chunk) >= max_words`, and the buffer holds at least one
      word when that is asked, so any `max_words` below 1 acts as 1. */
  function Width(maxWords: int): (k: nat)
    ensures k >= 1
    ensures maxWords >= 1 ==> k == maxWords
  {
    if maxWords < 1 then 1 else maxWords
  }

  /** Reference definition of the grouping: consecutive runs of `k` items,
      the last run holding whatever is left over. */
  function Groups<T>(w: seq<T>, k: nat): seq<seq<T>>
    requires k >= 1
    decreases |w|
  {
    if |w| == 0 then []
    else if |w| <= k then [w]
    else [w[..k]] + Groups(w[k..], k)
  }

  /** Each group re-joined with single spaces, as `" ".join(chunk)` does. */
  function ChunkStrings(gs: seq<seq<string>>): (cs: seq<string>)
    ensures |cs| == |gs|
    ensures forall i :: 0 <= i < |gs| ==> cs[i] == Join(gs[i], " ")
  {
    seq(|gs|, i requires 0 <= i < |gs| => Join(gs[i], " "))
  }

  lemma ChunkStringsSnoc(gs: seq<seq<string>>, g: seq<string>)
    ensures ChunkStrings(gs + [g]) == ChunkStrings(gs) + [Join(g, " ")]
  {
    var l, r := ChunkStrings(gs + [g]), ChunkStrings(gs) + [Join(g, " ")];
    assert forall i :: 0 <= i < |l| ==> l[i] == r[i];
  }

  /** The words of each chunk, as `chunk.split()` gives them. */
  function SplitEach(cs: seq<string>): (ws: seq<seq<string>>)
    ensures |ws| == |cs|
    ensures forall i :: 0 <= i < |cs| ==> ws[i] == Split(cs[i])
  {
    seq(|cs|, i requires 0 <= i < |cs| => Split(cs[i]))
  }

  /** What `chunk_text` promises of its result for the words `words` of the
      input and sealing width `k`: no words means no chunks, the chunks'
      own words laid end to end are the input's words, every chunk holds
      between 1 and `k` words, every chunk but the last exactly `k`, and
      there are ceil(|words| / k) chunks. */
  predicate IsChunking(words: seq<string>, k: nat, chunks: seq<string>)
    requires k >= 1
  {
    && (chunks == [] <==> words == [])
    && Flatten(SplitEach(chunks)) == words
    && (forall i :: 0 <= i < |chunks| ==> 1 <= |Split(chunks[i])| <= k)
    && (forall i :: 0 <= i < |chunks| - 1 ==> |Split(chunks[i])| == k)
    && |chunks| == (|words| + k - 1) / k
  }

  /** `chunk_text(text, max_words)`: one pass over `text.split()` that appends
      each word to a buffer and seals the buffer into `chunks` whenever it
      has reached `max_words` words; a non-empty remainder is sealed last. */
  method ChunkText(text: string, maxWords: int) returns (chunks: seq<string>)
    ensures chunks == ChunkStrings(Groups(Split(text), Width(maxWords)))
    ensures IsChunking(Split(text), Width(maxWords), chunks)
  {
    var words := Split(text);
    ghost var k := Width(maxWords);
    ghost var sealed: seq<seq<string>> := [];
    chunks := [];
    var chunk: seq<string> := [];
    for i := 0 to |words|
      invariant Progress(words[..i], k, sealed, chunk, chunks)
    {
      PushWord(words, i, k, sealed, chunk, chunks);
      chunk := chunk + [words[i]];
      if |chunk| >= maxWords {
        SealChunk(words[..i + 1], k, sealed, chunk, chunks);
        sealed := sealed + [chunk];
        chunks := chunks + [Join(chunk, " ")];
        chunk := [];
      }
    }
    assert words[..|words|] == words;
    SealedChunks(words, k, sealed, chunk);
    if |chunk| > 0 {
      chunks := chunks + [Join(chunk, " ")];
    }
  }

  /** The loop state of `chunk_text` after the words `done`: full groups
      sealed into `chunks`, and a buffer of fewer than `k` words. */
  ghost predicate Progress(done: seq<string>, k: nat, sealed: seq<seq<string>>,
                           chunk: seq<string>, chunks: seq<string>)
  {
    && |chunk| < k
    && (forall j :: 0 <= j < |sealed| ==> |sealed[j]| == k)
    && Flatten(sealed) + chunk == done
    && chunks == ChunkStrings(sealed)
  }

  lemma PushWord(words: seq<string>, i: nat, k: nat, sealed: seq<seq<string>>,
                 chunk: seq<string>, chunks: seq<string>)
    requires i < |words| && Progress(words[..i], k, sealed, chunk, chunks)
    ensures Flatten(sealed) + (chunk + [words[i]]) == words[..i + 1]
    ensures |chunk + [words[i]]| <= k
  {
    assert words[..i + 1] == words[..i] + [words[i]];
  }

  lemma SealChunk(done: seq<string>, k: nat, sealed: seq<seq<string>>,
                  chunk: seq<string>, chunks: seq<string>)
    requires k >= 1 && |chunk| == k
    requires forall j :: 0 <= j < |sealed| ==> |sealed[j]| == k
    requires Flatten(sealed) + chunk == done
    requires chunks == ChunkStrings(sealed)
    ensures Progress(done, k, sealed + [chunk], [], chunks + [Join(chunk, " ")])
  {
    FlattenSnoc(sealed, chunk);
    ChunkStringsSnoc(sealed, chunk);
  }

  /** Once every word is consumed, the sealed groups and the remainder are
      the reference grouping. */
  lemma SealedChunks(words: seq<string>, k: nat, sealed: seq<seq<string>>, rest: seq<string>)
    requires k >= 1 && |rest| < k
    requires forall j :: 0 <= j < |sealed| ==> |sealed[j]| == k
    requires Flatten(sealed) + rest == words
    requires forall i :: 0 <= i < |words| ==> IsWord(words[i])
    ensures ChunkStrings(sealed) + (if rest == [] then [] else [Join(rest, " ")])
            == ChunkStrings(Groups(words, k))
    ensures IsChunking(words, k, ChunkStrings(Groups(words, k)))
  {
    GroupsOfSealed(sealed, rest, k);
    ChunkStringsSnoc(sealed, rest);
    ChunkingContract(words, k);
  }

  /** The reference grouping of any sequence of words meets the chunking
      contract. */
  lemma ChunkingContract(words: seq<string>, k: nat)
    requires k >= 1
    requires forall i :: 0 <= i < |words| ==> IsWord(words[i])
    ensures IsChunking(words, k, ChunkStrings(Groups(words, k)))
  {
    var gs := Groups(words, k);
    var chunks := ChunkStrings(gs);
    ChunkWords(words, k);
    GroupsFlatten(words, k);
    GroupsSizes(words, k);
    GroupsCount(words, k);
    assert forall i :: 0 <= i < |chunks| ==> Split(chunks[i]) == gs[i];
  }

  // ---------------------------------------------------------------------
  // Properties of the grouping

  lemma {:induction false} FlattenSnoc<T>(xss: seq<seq<T>>, xs: seq<T>)
    ensures Flatten(xss + [xs]) == Flatten(xss) + xs
  {
    if xss != [] {
      assert (xss + [xs])[1..] == xss[1..] + [xs];
      FlattenSnoc(xss[1..], xs);
    }
  }

  /** Full groups followed by a short remainder are exactly what the
      reference grouping produces from their concatenation. */
  lemma {:induction false} GroupsOfSealed<T>(sealed: seq<seq<T>>, rest: seq<T>, k: nat)
    requires k >= 1 && |rest| < k
    requires forall j :: 0 <= j < |sealed| ==> |sealed[j]| == k
    ensures Groups(Flatten(sealed) + rest, k) == sealed + (if rest == [] then [] else [rest])
  {
    if sealed == [] {
      assert Flatten(sealed) + rest == rest;
    } else {
      GroupsOfSealed(sealed[1..], rest, k);
      var w := Flatten(sealed) + rest;
      assert w == sealed[0] + (Flatten(sealed[1..]) + rest);
      assert w[..k] == sealed[0];
      assert w[k..] == Flatten(sealed[1..]) + rest;
    }
  }

  /** Chunking is lossless and order-preserving. */
  lemma {:induction false} GroupsFlatten<T>(w: seq<T>, k: nat)
    requires k >= 1
    ensures Flatten(Groups(w, k)) == w
    decreases |w|
  {
    if |w| > k {
      var gs := Groups(w, k);
      assert gs[0] == w[..k] && gs[1..] == Groups(w[k..], k);
      GroupsFlatten(w[k..], k);
      assert w[..k] + w[k..] == w;
    }
  }

  /** No group is empty, none exceeds `k`, and all but the last hold
      exactly `k`. */
  lemma {:induction false} GroupsSizes<T>(w: seq<T>, k: nat)
    requires k >= 1
    ensures forall i :: 0 <= i < |Groups(w, k)| ==> 1 <= |Groups(w, k)[i]| <= k
    ensures forall i :: 0 <= i < |Groups(w, k)| - 1 ==> |Groups(w, k)[i]| == k
    decreases |w|
  {
    if |w| > k {
      GroupsSizes(w[k..], k);
      var gs, rest := Groups(w, k), Groups(w[k..], k);
      assert forall i :: 1 <= i < |gs| ==> gs[i] == rest[i - 1];
    }
  }

  /** The number of groups is the word count divided by `k`, rounded up. */
  lemma {:induction false} GroupsCount<T>(w: seq<T>, k: nat)
    requires k >= 1
    ensures |Groups(w, k)| == (|w| + k - 1) / k
    decreases |w|
  {
    if |w| == 0 {
      DivOfSmall(k - 1, k);
    } else if |w| <= k {
      DivOfShifted(|w| - 1, k);
      DivOfSmall(|w| - 1, k);
    } else {
      GroupsCount(w[k..], k);
      DivOfShifted(|w| - 1, k);
    }
  }

  lemma DivOfSmall(x: nat, k: nat)
    requires k >= 1 && x < k
    ensures x / k == 0
  {
  }

  lemma DivOfShifted(x: nat, k: nat)
    requires k >= 1
    ensures (x + k) / k == x / k + 1
  {
    var q, r := x / k, x % k;
    assert x == q * k + r;
    assert x + k == (q + 1) * k + r;
    DivUnique(x + k, k, q + 1, r);
  }

  lemma DivUnique(n: int, k: int, q: int, r: int)
    requires k > 0 && 0 <= r < k && n == q * k + r
    ensures n / k == q
  {
    var q', r' := n / k, n % k;
    assert n == q' * k + r';
    assert (q - q') * k == r' - r;
    MulAtLeast(q - q', k);
  }

  lemma {:induction false} MulAtLeast(d: int, k: int)
    requires k >= 0
    ensures d >= 1 ==> d * k >= k
    ensures d <= -1 ==> d * k <= -k
    decreases if d < 0 then -d else d
  {
    if d > 1 {
      MulAtLeast(d - 1, k);
      assert d * k == (d - 1) * k + k;
    } else if d < -1 {
      MulAtLeast(d + 1, k);
      assert d * k == (d + 1) * k - k;
    }
  }

  /** When every word fits, the whole text is one chunk. */
  lemma SingleGroup<T>(w: seq<T>, k: nat)
    requires k >= 1 && 1 <= |w| <= k
    ensures Groups(w, k) == [w]
  {
  }

  /** With a width of one, every word is its own group. */
  lemma {:induction false} UnitGroups<T>(w: seq<T>)
    ensures |Groups(w, 1)| == |w|
    ensures forall i :: 0 <= i < |w| ==> Groups(w, 1)[i] == [w[i]]
    decreases |w|
  {
    if |w| > 1 {
      UnitGroups(w[1..]);
      var gs, rest := Groups(w, 1), Groups(w[1..], 1);
      assert forall i :: 1 <= i < |w| ==> gs[i] == rest[i - 1];
    } else if |w| == 1 {
      assert w[..1] == w;
    }
  }

  /** Every item of a group is an item of the input. */
  lemma {:induction false} GroupsItems<T>(w: seq<T>, k: nat)
    requires k >= 1
    ensures forall i, j :: 0 <= i < |Groups(w, k)| && 0 <= j < |Groups(w, k)[i]| ==> Groups(w, k)[i][j] in w
    decreases |w|
  {
    if |w| > k {
      GroupsItems(w[k..], k);
      var gs, rest := Groups(w, k), Groups(w[k..], k);
      assert forall i :: 1 <= i < |gs| ==> gs[i] == rest[i - 1];
      assert forall x :: x in w[k..] ==> x in w;
      assert forall x :: x in w[..k] ==> x in w;
    }
  }

  /** A chunk's own `split()` gives back exactly the words it was joined
      from, because those words came out of `split()` themselves. */
  lemma ChunkWords(words: seq<string>, k: nat)
    requires k >= 1
    requires forall i :: 0 <= i < |words| ==> IsWord(words[i])
    ensures SplitEach(ChunkStrings(Groups(words, k))) == Groups(words, k)
  {
    var gs := Groups(words, k);
    GroupsItems(words, k);
    forall i | 0 <= i < |gs| ensures Split(Join(gs[i], " ")) == gs[i] {
      forall j | 0 <= j < |gs[i]| ensures IsWord(gs[i][j]) {
        assert gs[i][j] in words;
      }
      SplitJoin(gs[i]);
    }
  }

  /** The chunker's edge cases: blank text gives no chunks; a `max_words`
      at least the word count gives one chunk with every word; a
      `max_words` of at most 1 gives one chunk per word. */
  lemma ChunkEdgeCases(text: string, maxWords: int)
    ensures (forall i :: 0 <= i < |text| ==> IsSpace(text[i])) ==>
      ChunkStrings(Groups(Split(text), Width(maxWords))) == []
    ensures 1 <= |Split(text)| <= maxWords ==>
      ChunkStrings(Groups(Split(text), Width(maxWords))) == [Join(Split(text), " ")]
    ensures maxWords <= 1 ==>
      ChunkStrings(Groups(Split(text), Width(maxWords))) == Split(text)
  {
    var words := Split(text);
    SplitEmptyIffBlank(text);
    if 1 <= |words| <= maxWords {
      SingleGroup(words, Width(maxWords));
    }
    if maxWords <= 1 {
      UnitGroups(words);
      var cs := ChunkStrings(Groups(words, 1));
      assert forall i :: 0 <= i < |words| ==> cs[i] == Join([words[i]], " ");
    }
  }
}
