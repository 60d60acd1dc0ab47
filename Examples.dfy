/** A worked example: five one-letter words chunked two at a time. */
module Examples {
  import opened Words
  import opened Chunker

  /** "A B C D E" with `max_words=2` gives the chunks "A B", "C D", "E". */
  lemma ChunkFiveWordsByTwo(text: string)
    requires text == "A B C D E"
    ensures ChunkStrings(Groups(Split(text), 2)) == ["A B", "C D", "E"]
  {
    SplitFive(text);
    GroupFive();
    JoinPairs();
    var gs: seq<seq<string>> := [["A", "B"], ["C", "D"], ["E"]];
    var cs := ChunkStrings(gs);
    assert cs[0] == "A B" && cs[1] == "C D" && cs[2] == "E";
  }

  lemma SplitFive(text: string)
    requires text == "A B C D E"
    ensures Split(text) == ["A", "B", "C", "D", "E"]
  {
    var w: seq<string> := ["A", "B", "C", "D", "E"];
    forall i | 0 <= i < |w| ensures IsWord(w[i]) {}
    SplitJoin(w);
    JoinFive();
  }

  lemma JoinFive()
    ensures Join(["A", "B", "C", "D", "E"], " ") == "A B C D E"
  {
    var w: seq<string> := ["A", "B", "C", "D", "E"];
    assert w[1..] == ["B", "C", "D", "E"];
    assert w[1..][1..] == ["C", "D", "E"];
    assert w[1..][1..][1..] == ["D", "E"];
    assert w[1..][1..][1..][1..] == ["E"];
  }

  lemma GroupFive()
    ensures Groups(["A", "B", "C", "D", "E"], 2) == [["A", "B"], ["C", "D"], ["E"]]
  {
    var w: seq<string> := ["A", "B", "C", "D", "E"];
    assert w[..2] == ["A", "B"] && w[2..] == ["C", "D", "E"];
    assert w[2..][..2] == ["C", "D"] && w[2..][2..] == ["E"];
  }

  lemma JoinPairs()
    ensures Join(["A", "B"], " ") == "A B"
    ensures Join(["C", "D"], " ") == "C D"
    ensures Join(["E"], " ") == "E"
  {
    assert ["A", "B"][1..] == ["B"];
    assert ["C", "D"][1..] == ["D"];
  }
}

module SearchExample {
  import opened Words
  import opened Ranking
  import opened Search

  /** Against the chunks "A B", "C D", "E", the question "c d" ranks "C D"
      (two shared words) first; "E" and "A B" share none and tie, and the
      tie goes to the later chunk, "E", so `top_k = 2` keeps "E" and drops
      "A B". */
  lemma RankExample(question: string, chunks: seq<string>)
    requires question == "c d" && chunks == ["A B", "C D", "E"]
    ensures TopK(question, chunks, 1) == ["C D"]
    ensures TopK(question, chunks, 2) == ["C D", "E"]
    ensures TopK(question, chunks, 3) == ["C D", "E", "A B"]
  {
    RankedExample(question, chunks);
    TopKOfRanked(question, chunks);
  }

  /** The selections read off a ranking of three chunks. */
  lemma TopKOfRanked(question: string, chunks: seq<string>)
    requires |chunks| == 3
    requires Ranked(question, chunks) == [Score(2, 1), Score(0, 2), Score(0, 0)]
    ensures TopK(question, chunks, 1) == [chunks[1]]
    ensures TopK(question, chunks, 2) == [chunks[1], chunks[2]]
    ensures TopK(question, chunks, 3) == [chunks[1], chunks[2], chunks[0]]
  {
    var ranked := Ranked(question, chunks);
    assert ranked[..1] == [Score(2, 1)] && ranked[..2] == [Score(2, 1), Score(0, 2)] && ranked[..3] == ranked;
    var one, two, three := TopK(question, chunks, 1), TopK(question, chunks, 2), TopK(question, chunks, 3);
    assert one == ChunksAt(chunks, [Score(2, 1)]);
    assert two == ChunksAt(chunks, [Score(2, 1), Score(0, 2)]);
    assert two == [two[0], two[1]];
    assert three == ChunksAt(chunks, ranked);
    assert three == [three[0], three[1], three[2]];
  }

  lemma RankedExample(question: string, chunks: seq<string>)
    requires question == "c d" && chunks == ["A B", "C D", "E"]
    ensures Ranked(question, chunks) == [Score(2, 1), Score(0, 2), Score(0, 0)]
  {
    var scores := Scores(question, chunks);
    ScoresExample(question, chunks);
    var ranked := [Score(2, 1), Score(0, 2), Score(0, 0)];
    SortedExample(scores, ranked);
    SortDescCorrect(scores);
    DescendingUnique(Ranked(question, chunks), ranked);
  }

  /** The example's ranked list is a descending rearrangement of its scores. */
  lemma SortedExample(scores: seq<Score>, ranked: seq<Score>)
    requires scores == [Score(0, 0), Score(2, 1), Score(0, 2)]
    requires ranked == [Score(2, 1), Score(0, 2), Score(0, 0)]
    ensures multiset(ranked) == multiset(scores)
    ensures Descending(ranked)
  {
  }

  lemma ScoresExample(question: string, chunks: seq<string>)
    requires question == "c d" && chunks == ["A B", "C D", "E"]
    ensures Scores(question, chunks) == [Score(0, 0), Score(2, 1), Score(0, 2)]
  {
    OverlapsExample(question, chunks);
    ScoresOfThree(question, chunks, 0, 2, 0);
  }

  /** The score list of three chunks, written out. */
  lemma ScoresOfThree(q: string, chunks: seq<string>, o0: nat, o1: nat, o2: nat)
    requires |chunks| == 3
    requires Overlap(q, chunks[0]) == o0 && Overlap(q, chunks[1]) == o1 && Overlap(q, chunks[2]) == o2
    ensures Scores(q, chunks) == [Score(o0, 0), Score(o1, 1), Score(o2, 2)]
  {
    var scores := Scores(q, chunks);
    assert scores[0] == Score(o0, 0) && scores[1] == Score(o1, 1) && scores[2] == Score(o2, 2);
  }

  lemma OverlapsExample(question: string, chunks: seq<string>)
    requires question == "c d" && chunks == ["A B", "C D", "E"]
    ensures Overlap(question, chunks[0]) == 0
    ensures Overlap(question, chunks[1]) == 2
    ensures Overlap(question, chunks[2]) == 0
  {
    OverlapAB(question, chunks[0]);
    OverlapCD(question, chunks[1]);
    OverlapE(question, chunks[2]);
  }

  lemma OverlapAB(q: string, c: string)
    requires q == "c d" && c == "A B"
    ensures Overlap(q, c) == 0
  {
    WordSetOfPair(q, "c", "d");
    WordSetOfPair(c, "a", "b");
    assert WordSet(q) * WordSet(c) == {};
  }

  lemma OverlapCD(q: string, c: string)
    requires q == "c d" && c == "C D"
    ensures Overlap(q, c) == 2
  {
    WordSetOfPair(q, "c", "d");
    WordSetOfPair(c, "c", "d");
    assert WordSet(q) * WordSet(c) == {"c", "d"};
  }

  lemma OverlapE(q: string, c: string)
    requires q == "c d" && c == "E"
    ensures Overlap(q, c) == 0
  {
    WordSetOfPair(q, "c", "d");
    WordSetOfOne(c, "e");
    assert WordSet(q) * WordSet(c) == {};
  }

  lemma WordSetOfPair(s: string, x: string, y: string)
    requires |s| == 3 && s[1] == ' ' && !IsSpace(s[0]) && !IsSpace(s[2])
    requires x == [LowerChar(s[0])] && y == [LowerChar(s[2])]
    ensures WordSet(s) == {x, y}
  {
    var l := Lower(s);
    assert l == x + " " + y;
    assert !IsSpace(x[0]) && !IsSpace(y[0]);
    SplitJoin([x, y]);
    assert Join([x, y], " ") == x + " " + y;
  }

  lemma WordSetOfOne(s: string, x: string)
    requires |s| == 1 && !IsSpace(s[0])
    requires x == [LowerChar(s[0])]
    ensures WordSet(s) == {x}
  {
    assert Lower(s) == x;
    SplitJoin([x]);
  }
}
