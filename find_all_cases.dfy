/** The cases of DetectStringsTests.swift and of the overlap policy, worked
    through on the model. */
module FindAllCases {
  import opened Whitespace
  import opened Needles
  import opened FindAll

  /** A needle that is already trimmed and not empty survives normalisation as it is. */
  lemma PlainNeedle(word: string)
    requires word != [] && !IsWhitespace(word[0]) && !IsWhitespace(word[|word| - 1])
    ensures Trim(word) == word
  {
    TrimUnique([], word, []);
    assert [] + word + [] == word;
  }

  /** Empty text with no needles: the code returns one empty `.text` span,
      where the test case at DetectStringsTests.swift:20-23 expects none. */
  lemma EmptyText()
    ensures FindAllSpec("", []) == [Text("")]
    ensures FindAllSpec("", []) != []
  {
  }

  /** The longer needle wins at the same start, whatever its type. */
  lemma LongestWins()
    ensures FindAllSpec("ABCDEF", [Needle("ABC", NeedleType.Link), Needle("ABCDE", NeedleType.Hashtag)])
      == [DetectionResult.Hashtag("ABCDE"), Text("F")]
  {
    var s := "ABCDEF";
    var abc, abcde := Needle("ABC", NeedleType.Link), Needle("ABCDE", NeedleType.Hashtag);
    assert !IsWhitespace(s[0]);
    LongestWinsOrder(abc, abcde);
    LongestWinsScan(s, abc, abcde);
  }

  lemma LongestWinsOrder(abc: Needle, abcde: Needle)
    requires abc == Needle("ABC", NeedleType.Link) && abcde == Needle("ABCDE", NeedleType.Hashtag)
    ensures Normalise([abc, abcde]) == [abcde, abc]
  {
    PlainNeedle("ABC");
    PlainNeedle("ABCDE");
    TrimmedNormal([abc, abcde]);
    SortPair(abc, abcde);
  }

  /** Two needles given in the wrong order come out swapped. */
  lemma SortPair(a: Needle, b: Needle)
    requires SortsBefore(b, a)
    ensures SortNeedles([a, b]) == [b, a]
  {
    assert [a, b][1..] == [b];
    assert [b][1..] == [];
    assert SortNeedles([b]) == [b];
  }

  lemma LongestWinsScan(s: string, abc: Needle, abcde: Needle)
    requires s == "ABCDEF"
    requires abc == Needle("ABC", NeedleType.Link) && abcde == Needle("ABCDE", NeedleType.Hashtag)
    ensures ScanFrom(s, [abcde, abc], 0, 0) == [DetectionResult.Hashtag("ABCDE"), Text("F")]
  {
    var ns := [abcde, abc];
    MatchesAtSlice(s, 0, abcde);
    assert s[0..5] == abcde.text;
    assert FirstMatch(ns, s, 0) == Some(abcde);
    MatchesAtSlice(s, 5, abcde);
    MatchesAtSlice(s, 5, abc);
    assert FirstMatch(ns, s, 5) == None;
    ScanNoMatchRun(s, ns, 5, 5);
    assert s[5..6] == "F";
    ScanFromMatch(s, ns, 0, 0, abcde);
  }

  /** Where no needle occurs from `i` to the end, the scan ends with the pending run. */
  lemma {:induction false} ScanNoMatchRun(s: string, ns: seq<Needle>, i: nat, start: nat)
    requires forall n :: n in ns ==> n.text != []
    requires start <= i <= |s|
    requires forall q :: i <= q < |s| ==> FirstMatch(ns, s, q).None?
    ensures ScanFrom(s, ns, i, start) == Pending(s, start, |s|)
    decreases |s| - i
  {
    if i < |s| {
      ScanFromNoMatch(s, ns, i, start);
      ScanNoMatchRun(s, ns, i + 1, start);
    }
  }

  /** A text that is exactly one needle is one typed span (DetectStringsTests.swift:40-43). */
  lemma WholeTextIsNeedle()
    ensures FindAllSpec("ABC", [Needle("ABC", NeedleType.Link)]) == [DetectionResult.Link("ABC")]
  {
    var s := "ABC";
    var abc := Needle("ABC", NeedleType.Link);
    assert !IsWhitespace(s[0]);
    PlainNeedle("ABC");
    TrimmedNormal([abc]);
    assert SortNeedles([abc]) == [abc];
    assert FirstMatch([abc], s, 0) == Some(abc);
    ScanFromMatch(s, [abc], 0, 0, abc);
  }

  /** A needle that trims to nothing never matches: the text stays one span. */
  lemma BlankNeedleIgnored()
    ensures FindAllSpec("A B", [Needle(" ", NeedleType.User)]) == [Text("A B")]
  {
    var s := "A B";
    assert !IsWhitespace(s[0]);
    assert AllWhitespace(" ");
    var ns: seq<Needle> := [];
    assert Normalise([Needle(" ", NeedleType.User)]) == ns;
    ScanNoMatchRun(s, ns, 0, 0);
    assert s[0..3] == s;
  }

  /** A `.text` span whose characters differ from the first character of
      every candidate, put before a greedy partition that does not start with
      `.text`, gives a greedy partition. */
  lemma TextSpanGreedy(s: string, cands: set<Needle>, p: nat, t: string, rest: seq<DetectionResult>)
    requires forall n :: n in cands ==> n.text != []
    requires t != [] && p + |t| <= |s| && s[p..p + |t|] == t
    requires forall k, n :: 0 <= k < |t| && n in cands ==> t[k] != n.text[0]
    requires rest != [] ==> !rest[0].Text?
    ensures GreedyPartition(s, cands, p + |t|, rest) ==> GreedyPartition(s, cands, p, [Text(t)] + rest)
  {
    if GreedyPartition(s, cands, p + |t|, rest) {
      forall q, n | p <= q < p + |t| && n in cands ensures !MatchesAt(s, q, n) {
        assert s[q] == t[q - p];
        FirstCharDiffers(s, q, n);
      }
      PendingGreedy(s, cands, p, p + |t|, rest);
    }
  }

  /** The best candidate at `p`, put before a greedy partition of the text
      after it, gives a greedy partition. */
  lemma NeedleSpanGreedy(s: string, cands: set<Needle>, p: nat, n: Needle, rest: seq<DetectionResult>)
    requires IsBestMatch(cands, s, p, n) && n.text != []
    ensures GreedyPartition(s, cands, p + |n.text|, rest) ==> GreedyPartition(s, cands, p, [Tagged(n)] + rest)
  {
    if GreedyPartition(s, cands, p + |n.text|, rest) {
      MatchGreedy(s, cands, p, n, rest);
    }
  }

  /** The only candidate is the best match wherever it occurs. */
  lemma SoleMatch(s: string, n: Needle, p: nat)
    requires p + |n.text| <= |s| && s[p..p + |n.text|] == n.text
    ensures IsBestMatch({n}, s, p, n)
  {
    MatchesAtSlice(s, p, n);
  }

  /** Needles that are already normal stand for themselves as candidates. */
  lemma NormalCandidates(needles: seq<Needle>)
    requires forall n :: n in needles ==> IsNormal(n)
    ensures forall x :: x in CandidateSet(needles) <==> x in needles
  {
    TrimmedNormal(needles);
  }

  /** A link "ABC" at `p`, then a greedy partition of the text after it. */
  lemma LinkStep(s: string, abc: Needle, p: nat, rest: seq<DetectionResult>)
    requires abc == Needle("ABC", NeedleType.Link)
    requires p + 3 <= |s| && s[p..p + 3] == "ABC"
    ensures GreedyPartition(s, {abc}, p + 3, rest) ==> GreedyPartition(s, {abc}, p, [Tagged(abc)] + rest)
  {
    SoleMatch(s, abc, p);
    NeedleSpanGreedy(s, {abc}, p, abc, rest);
  }

  /** A one-space `.text` span at `p`, then a greedy partition of the text after it. */
  lemma SpaceStep(s: string, abc: Needle, p: nat, rest: seq<DetectionResult>)
    requires abc == Needle("ABC", NeedleType.Link)
    requires p + 1 <= |s| && s[p..p + 1] == " "
    requires rest != [] ==> !rest[0].Text?
    ensures GreedyPartition(s, {abc}, p + 1, rest) ==> GreedyPartition(s, {abc}, p, [Text(" ")] + rest)
  {
    TextSpanGreedy(s, {abc}, p, " ", rest);
  }

  /** The six spans of "Test ABC ABC ABC", put before a greedy partition of
      what follows them, give a greedy partition of the whole text. */
  lemma RepeatedPrefix(s: string, abc: Needle, tail: seq<DetectionResult>)
    requires abc == Needle("ABC", NeedleType.Link)
    requires |s| >= 16 && s[..16] == "Test ABC ABC ABC"
    ensures GreedyPartition(s, {abc}, 16, tail) ==>
      GreedyPartition(s, {abc}, 0, [Text("Test "), DetectionResult.Link("ABC"), Text(" "),
        DetectionResult.Link("ABC"), Text(" "), DetectionResult.Link("ABC")] + tail)
  {
    var link := Tagged(abc);
    PrefixSlices(s);
    PrefixChain(s, abc, tail);
    SixSpans(link, tail);
    GreedySame(s, {abc}, 0,
      [Text("Test ")] + ([link] + ([Text(" ")] + ([link] + ([Text(" ")] + ([link] + tail))))),
      [Text("Test "), DetectionResult.Link("ABC"), Text(" "),
        DetectionResult.Link("ABC"), Text(" "), DetectionResult.Link("ABC")] + tail);
  }

  /** The steps of `RepeatedPrefix`, from the last span back to the first. */
  lemma PrefixChain(s: string, abc: Needle, tail: seq<DetectionResult>)
    requires abc == Needle("ABC", NeedleType.Link)
    requires |s| >= 16 && s[0..5] == "Test " && s[5..8] == "ABC" && s[8..9] == " "
    requires s[9..12] == "ABC" && s[12..13] == " " && s[13..16] == "ABC"
    ensures var link := Tagged(abc);
      GreedyPartition(s, {abc}, 16, tail) ==>
      GreedyPartition(s, {abc}, 0, [Text("Test ")] + ([link] + ([Text(" ")] + ([link] + ([Text(" ")] + ([link] + tail))))))
  {
    var link := Tagged(abc);
    LinkStep(s, abc, 13, tail);
    SpaceStep(s, abc, 12, [link] + tail);
    LinkStep(s, abc, 9, [Text(" ")] + ([link] + tail));
    SpaceStep(s, abc, 8, [link] + ([Text(" ")] + ([link] + tail)));
    LinkStep(s, abc, 5, [Text(" ")] + ([link] + ([Text(" ")] + ([link] + tail))));
    TextSpanGreedy(s, {abc}, 0, "Test ", [link] + ([Text(" ")] + ([link] + ([Text(" ")] + ([link] + tail)))));
  }

  /** The spans of `PrefixChain`, written out as one list. */
  lemma SixSpans(link: DetectionResult, tail: seq<DetectionResult>)
    requires link == DetectionResult.Link("ABC")
    ensures [Text("Test ")] + ([link] + ([Text(" ")] + ([link] + ([Text(" ")] + ([link] + tail)))))
      == [Text("Test "), DetectionResult.Link("ABC"), Text(" "),
        DetectionResult.Link("ABC"), Text(" "), DetectionResult.Link("ABC")] + tail
  {
  }

  /** Where the spans of "Test ABC ABC ABC" lie. */
  lemma PrefixSlices(s: string)
    requires |s| >= 16 && s[..16] == "Test ABC ABC ABC"
    ensures s[0..5] == "Test " && s[5..8] == "ABC" && s[8..9] == " "
    ensures s[9..12] == "ABC" && s[12..13] == " " && s[13..16] == "ABC"
  {
    var pre := s[..16];
    assert s[0..5] == pre[0..5] && s[5..8] == pre[5..8] && s[8..9] == pre[8..9];
    assert s[9..12] == pre[9..12] && s[12..13] == pre[12..13] && s[13..16] == pre[13..16];
  }

  /** The needle list `[link "ABC"]` stands for the one candidate link "ABC". */
  lemma OneNeedle(needles: seq<Needle>)
    requires needles == [Needle("ABC", NeedleType.Link)]
    ensures CandidateSet(needles) == {needles[0]}
  {
    PlainNeedle("ABC");
    NormalCandidates(needles);
  }

  /** A span list that is a greedy partition over the candidates of the
      needles is what `findAll` returns for any text but the empty one. */
  lemma CaseFromGreedy(s: string, needles: seq<Needle>, cands: set<Needle>, r: seq<DetectionResult>, expected: seq<DetectionResult>)
    requires s != [] && CandidateSet(needles) == cands && r == expected
    ensures GreedyPartition(s, cands, 0, r) ==> FindAllSpec(s, needles) == expected
  {
    FindAllIsGreedy(s, needles, r);
  }

  /** DetectStringsTests.swift:28-31: the needle at the very end leaves no trailing span. */
  lemma RepeatedNeedle(s: string, needles: seq<Needle>)
    requires s == "Test ABC ABC ABC" && needles == [Needle("ABC", NeedleType.Link)]
    ensures FindAllSpec(s, needles)
      == [Text("Test "), DetectionResult.Link("ABC"), Text(" "),
          DetectionResult.Link("ABC"), Text(" "), DetectionResult.Link("ABC")]
  {
    var abc := needles[0];
    var six := [Text("Test "), DetectionResult.Link("ABC"), Text(" "),
      DetectionResult.Link("ABC"), Text(" "), DetectionResult.Link("ABC")];
    OneNeedle(needles);
    assert s[..16] == s;
    RepeatedPrefix(s, abc, []);
    CaseFromGreedy(s, needles, {abc}, six + [], six);
  }

  /** DetectStringsTests.swift:32-35: a trailing space becomes a last `.text` span. */
  lemma RepeatedNeedleTrailingSpace(s: string, needles: seq<Needle>)
    requires s == "Test ABC ABC ABC " && needles == [Needle("ABC", NeedleType.Link)]
    ensures FindAllSpec(s, needles)
      == [Text("Test "), DetectionResult.Link("ABC"), Text(" "),
          DetectionResult.Link("ABC"), Text(" "), DetectionResult.Link("ABC"), Text(" ")]
  {
    assert s[..16] == "Test ABC ABC ABC" && s[16..] == " ";
    RepeatedWithTail(s, needles, " ");
  }

  /** DetectStringsTests.swift:36-39: matching is exact, so the lower-case
      "abc" stays in the trailing `.text` span. */
  lemma RepeatedNeedleCaseSensitive(s: string, needles: seq<Needle>)
    requires s == "Test ABC ABC ABC abc" && needles == [Needle("ABC", NeedleType.Link)]
    ensures FindAllSpec(s, needles)
      == [Text("Test "), DetectionResult.Link("ABC"), Text(" "),
          DetectionResult.Link("ABC"), Text(" "), DetectionResult.Link("ABC"), Text(" abc")]
  {
    assert s[..16] == "Test ABC ABC ABC" && s[16..] == " abc";
    RepeatedWithTail(s, needles, " abc");
  }

  /** "Test ABC ABC ABC" followed by text without an upper-case A: the six
      spans, then the rest as one `.text` span. */
  lemma RepeatedWithTail(s: string, needles: seq<Needle>, t: string)
    requires needles == [Needle("ABC", NeedleType.Link)]
    requires |s| == 16 + |t| && s[..16] == "Test ABC ABC ABC" && s[16..] == t
    requires t != [] && forall k :: 0 <= k < |t| ==> t[k] != 'A'
    ensures FindAllSpec(s, needles)
      == [Text("Test "), DetectionResult.Link("ABC"), Text(" "),
          DetectionResult.Link("ABC"), Text(" "), DetectionResult.Link("ABC"), Text(t)]
  {
    var abc := needles[0];
    var six := [Text("Test "), DetectionResult.Link("ABC"), Text(" "),
      DetectionResult.Link("ABC"), Text(" "), DetectionResult.Link("ABC")];
    OneNeedle(needles);
    assert s[16..16 + |t|] == t;
    TextSpanGreedy(s, {abc}, 16, t, []);
    assert [Text(t)] + [] == [Text(t)];
    RepeatedPrefix(s, abc, [Text(t)]);
    CaseFromGreedy(s, needles, {abc}, six + [Text(t)], six + [Text(t)]);
  }

  /** Equal-length needles at the same position: the higher type wins, link
      over hashtag for "ABC" and user over link for "DEF". */
  lemma PriorityWins(s: string, needles: seq<Needle>)
    requires s == "ABCDEF"
    requires needles == [Needle("ABC", NeedleType.Hashtag), Needle("ABC", NeedleType.Link),
      Needle("DEF", NeedleType.Link), Needle("DEF", NeedleType.User)]
    ensures FindAllSpec(s, needles) == [DetectionResult.Link("ABC"), DetectionResult.User("DEF")]
  {
    var r := [Tagged(needles[1]), Tagged(needles[3])];
    PriorityCandidates(needles);
    PriorityGreedy(s, needles[0], needles[1], needles[2], needles[3]);
    FindAllIsGreedy(s, needles, r);
  }

  lemma PriorityCandidates(needles: seq<Needle>)
    requires needles == [Needle("ABC", NeedleType.Hashtag), Needle("ABC", NeedleType.Link),
      Needle("DEF", NeedleType.Link), Needle("DEF", NeedleType.User)]
    ensures CandidateSet(needles) == {needles[0], needles[1], needles[2], needles[3]}
  {
    PlainNeedle("ABC");
    PlainNeedle("DEF");
    NormalCandidates(needles);
    SetOfFour(CandidateSet(needles), needles);
  }

  /** A set with the same members as a list of four is that list's display. */
  lemma SetOfFour<T>(c: set<T>, xs: seq<T>)
    requires |xs| == 4 && forall x :: x in c <==> x in xs
    ensures c == {xs[0], xs[1], xs[2], xs[3]}
  {
    assert forall x :: x in xs <==> x == xs[0] || x == xs[1] || x == xs[2] || x == xs[3];
  }

  lemma PriorityGreedy(s: string, a0: Needle, a1: Needle, d1: Needle, d2: Needle)
    requires s == "ABCDEF"
    requires a0 == Needle("ABC", NeedleType.Hashtag) && a1 == Needle("ABC", NeedleType.Link)
    requires d1 == Needle("DEF", NeedleType.Link) && d2 == Needle("DEF", NeedleType.User)
    ensures GreedyPartition(s, {a0, a1, d1, d2}, 0, [Tagged(a1), Tagged(d2)])
  {
    var c := {a0, a1, d1, d2};
    assert IsBestMatch(c, s, 3, d2) by {
      assert s[3..6] == "DEF";
      MatchesAtSlice(s, 3, d2);
      FirstCharDiffers(s, 3, a0);
      FirstCharDiffers(s, 3, a1);
    }
    assert IsBestMatch(c, s, 0, a1) by {
      assert s[0..3] == "ABC";
      MatchesAtSlice(s, 0, a1);
      FirstCharDiffers(s, 0, d1);
      FirstCharDiffers(s, 0, d2);
    }
    NeedleSpanGreedy(s, c, 3, d2, []);
    NeedleSpanGreedy(s, c, 0, a1, [Tagged(d2)]);
    assert [Tagged(d2)] + [] == [Tagged(d2)];
  }

  /** With no needles the whole text is one `.text` span. */
  lemma NoNeedles()
    ensures FindAllSpec("abc", []) == [Text("abc")]
  {
    var s := "abc";
    assert CandidateSet([]) == {};
    assert s[0..3] == s;
    TextSpanGreedy(s, {}, 0, s, []);
    FindAllIsGreedy(s, [], [Text(s)] + []);
  }
}
