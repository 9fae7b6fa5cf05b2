/** `String.findAll(needles:)`: split a text into typed spans by a greedy
    left-to-right scan for the normalised needles. */
module FindAll {
  import opened Whitespace
  import opened Needles

  datatype Option<T> = None | Some(value: T)

  /** `s.hasPrefix(p)`, compared character by character. */
  predicate HasPrefix(s: string, p: string)
    ensures HasPrefix(s, p) ==> |p| <= |s|
    decreases |p|
  {
    p == [] || (s != [] && p[0] == s[0] && HasPrefix(s[1..], p[1..]))
  }

  /** `s` has prefix `p` exactly when the first `|p|` characters of `s` are `p`. */
  lemma {:induction false} HasPrefixSlice(s: string, p: string)
    ensures HasPrefix(s, p) <==> |p| <= |s| && s[..|p|] == p
    decreases |p|
  {
    if p != [] && s != [] {
      HasPrefixSlice(s[1..], p[1..]);
      if |p| <= |s| {
        assert s[..|p|] == [s[0]] + s[1..][..|p| - 1];
        assert p == [p[0]] + p[1..];
      }
    }
  }

  /** Needle `n` occurs at position `i` of `s`: the rest of the text from
      `i` has the needle's text as a prefix. */
  predicate MatchesAt(s: string, i: nat, n: Needle): (r: bool)
    ensures r ==> i + |n.text| <= |s|
  {
    i <= |s| && HasPrefix(s[i..], n.text)
  }

  /** A needle occurs at `i` exactly when it is the text from `i` on. */
  lemma MatchesAtSlice(s: string, i: nat, n: Needle)
    ensures MatchesAt(s, i, n) <==> i + |n.text| <= |s| && s[i..i + |n.text|] == n.text
  {
    if i <= |s| {
      HasPrefixSlice(s[i..], n.text);
      if i + |n.text| <= |s| {
        assert s[i..][..|n.text|] == s[i..i + |n.text|];
      }
    }
  }

  /** The candidates held in a needle list. */
  ghost function Members(ns: seq<Needle>): set<Needle> {
    set n | n in ns
  }

  /** No candidate occurs at position `i`. */
  ghost predicate NoMatchAt(cands: set<Needle>, s: string, i: nat) {
    forall n :: n in cands ==> !MatchesAt(s, i, n)
  }

  /** `n` occurs at `i`, no candidate occurring there is longer, and none of
      the same length has a higher priority. */
  ghost predicate IsBestMatch(cands: set<Needle>, s: string, i: nat, n: Needle) {
    n in cands && MatchesAt(s, i, n)
    && forall m :: m in cands && MatchesAt(s, i, m) ==>
         |m.text| <= |n.text| && (|m.text| == |n.text| ==> RawValue(m.kind) <= RawValue(n.kind))
  }

  /** The first needle of `ns`, in list order, that occurs at position `i` of `s`. */
  function FirstMatch(ns: seq<Needle>, s: string, i: nat): (r: Option<Needle>)
    ensures r.Some? ==> r.value in ns && MatchesAt(s, i, r.value)
  {
    if ns == [] then None
    else if MatchesAt(s, i, ns[0]) then Some(ns[0])
    else FirstMatch(ns[1..], s, i)
  }

  /** The search finds nothing exactly when no needle of the list occurs at `i`. */
  lemma {:induction false} FirstMatchNoneIff(ns: seq<Needle>, s: string, i: nat)
    ensures FirstMatch(ns, s, i).None? <==> forall k :: 0 <= k < |ns| ==> !MatchesAt(s, i, ns[k])
  {
    if ns != [] {
      FirstMatchNoneIff(ns[1..], s, i);
      assert forall k :: 1 <= k < |ns| ==> ns[k] == ns[1..][k - 1];
    }
  }

  /** On a sorted list, the first needle that occurs at `i` is the best one there. */
  lemma {:induction false} FirstMatchIsBest(ns: seq<Needle>, s: string, i: nat)
    requires Sorted(ns)
    requires FirstMatch(ns, s, i).Some?
    ensures IsBestMatch(Members(ns), s, i, FirstMatch(ns, s, i).value)
  {
    var n := FirstMatch(ns, s, i).value;
    if MatchesAt(s, i, ns[0]) {
      forall m | m in Members(ns) && MatchesAt(s, i, m)
        ensures |m.text| <= |n.text| && (|m.text| == |n.text| ==> RawValue(m.kind) <= RawValue(n.kind))
      {
        var k :| 0 <= k < |ns| && ns[k] == m;
        if k > 0 {
          assert !SortsBefore(ns[k], ns[0]);
        }
      }
    } else {
      var tail := ns[1..];
      assert Sorted(tail) by {
        forall a, b | 0 <= a < b < |tail| ensures !SortsBefore(tail[b], tail[a]) {
          assert tail[a] == ns[a + 1] && tail[b] == ns[b + 1];
        }
      }
      FirstMatchIsBest(tail, s, i);
      assert Members(ns) == {ns[0]} + Members(tail) by {
        assert ns == [ns[0]] + tail;
      }
    }
  }

  /** Wherever the search over `ns` finds a needle in `s`, it finds the best one. */
  ghost predicate FirstIsBest(ns: seq<Needle>, s: string) {
    forall i: nat :: FirstMatch(ns, s, i).Some? ==> IsBestMatch(Members(ns), s, i, FirstMatch(ns, s, i).value)
  }

  /** A sorted list finds the best match at every position. */
  lemma SortedFirstIsBest(ns: seq<Needle>, s: string)
    requires Sorted(ns)
    ensures FirstIsBest(ns, s)
  {
    forall i: nat | FirstMatch(ns, s, i).Some?
      ensures IsBestMatch(Members(ns), s, i, FirstMatch(ns, s, i).value)
    {
      FirstMatchIsBest(ns, s, i);
    }
  }

  /** The best candidate at a position is unique. */
  lemma BestMatchUnique(cands: set<Needle>, s: string, i: nat, n1: Needle, n2: Needle)
    requires IsBestMatch(cands, s, i, n1) && IsBestMatch(cands, s, i, n2)
    ensures n1 == n2
  {
    MatchesAtSlice(s, i, n1);
    MatchesAtSlice(s, i, n2);
    PriorityOrder(n1.kind, n2.kind);
  }

  /** The `.text` span for the unmatched run `s[start..i]`, if it is not empty. */
  function Pending(s: string, start: nat, i: nat): (r: seq<DetectionResult>)
    requires start <= i <= |s|
    ensures |r| <= 1 && (r == [] <==> start == i)
    ensures r != [] ==> r[0].Text? && r[0].text != []
  {
    if start < i then [Text(s[start..i])] else []
  }

  /** What the scan loop appends from the state (`currentCharIndex` = `i`,
      `currentElementCharStartIndex` = `start`) until it returns. */
  function ScanFrom(s: string, ns: seq<Needle>, i: nat, start: nat): (r: seq<DetectionResult>)
    requires start <= i <= |s|
    requires forall n :: n in ns ==> n.text != []
    ensures r == [] <==> start == |s|
    decreases |s| - i
  {
    if i == |s| then Pending(s, start, |s|)
    else
      match FirstMatch(ns, s, i)
      case None => ScanFrom(s, ns, i + 1, start)
      case Some(n) => Pending(s, start, i) + ([Tagged(n)] + ScanFrom(s, ns, i + |n.text|, i + |n.text|))
  }

  /** The result of `findAll`, as a function of the text and the caller's
      needles: never empty, and its payloads concatenate back to the text. */
  function FindAllSpec(s: string, needles: seq<Needle>): (r: seq<DetectionResult>)
    ensures r != []
    ensures Concat(r) == s
  {
    if Trim(s) == [] then
      assert Concat([Text(s)]) == s + Concat([]);
      [Text(s)]
    else
      var ns := Normalise(needles);
      SortedFirstIsBest(ns, s);
      ScanIsGreedy(s, ns, 0, 0);
      GreedyConcat(s, Members(ns), 0, ScanFrom(s, ns, 0, 0));
      assert s[0..] == s;
      ScanFrom(s, ns, 0, 0)
  }

  /** The payloads of the spans, concatenated in order. */
  function Concat(r: seq<DetectionResult>): string {
    if r == [] then [] else r[0].text + Concat(r[1..])
  }

  /** The payloads of two span lists in a row are the payloads of each, in a row. */
  lemma {:induction false} ConcatAppend(a: seq<DetectionResult>, b: seq<DetectionResult>)
    ensures Concat(a + b) == Concat(a) + Concat(b)
    decreases |a|
  {
    if a != [] {
      ConcatAppend(a[1..], b);
      assert (a + b)[1..] == a[1..] + b;
    } else {
      assert a + b == b;
    }
  }

  predicate NonEmptySpans(r: seq<DetectionResult>) {
    forall k :: 0 <= k < |r| ==> r[k].text != []
  }

  predicate NoAdjacentText(r: seq<DetectionResult>) {
    forall k :: 0 <= k < |r| - 1 ==> !(r[k].Text? && r[k + 1].Text?)
  }

  /** No candidate occurs at any position from `lo` up to `hi`. */
  ghost predicate NoMatchIn(cands: set<Needle>, s: string, lo: nat, hi: nat) {
    forall q :: lo <= q < hi ==> NoMatchAt(cands, s, q)
  }

  /** The first span of `r` is the non-empty text at `s[p..]`: a `.text` span
      where no candidate occurs, not followed by another `.text` span; a typed
      span for the best candidate at `p`. */
  ghost predicate HeadFits(s: string, cands: set<Needle>, p: nat, r: seq<DetectionResult>)
    requires r != []
  {
    var t := r[0].text;
    t != [] && p + |t| <= |s| && s[p..p + |t|] == t
    && if r[0].Text? then NoMatchIn(cands, s, p, p + |t|) && (|r| > 1 ==> !r[1].Text?)
       else IsBestMatch(cands, s, p, Needle(t, KindOf(r[0])))
  }

  /** The reference definition of the output: `r` cuts `s[p..]` into spans,
      each of which fits the text where it starts. */
  ghost predicate GreedyPartition(s: string, cands: set<Needle>, p: nat, r: seq<DetectionResult>)
    decreases |r|
  {
    if r == [] then p == |s|
    else HeadFits(s, cands, p, r) && GreedyPartition(s, cands, p + |r[0].text|, r[1..])
  }

  /** A greedy partition reproduces the text it partitions. */
  lemma {:induction false} GreedyConcat(s: string, cands: set<Needle>, p: nat, r: seq<DetectionResult>)
    requires GreedyPartition(s, cands, p, r)
    ensures p <= |s| && Concat(r) == s[p..]
    decreases |r|
  {
    if r != [] {
      var t := r[0].text;
      GreedyConcat(s, cands, p + |t|, r[1..]);
      assert s[p..] == s[p..p + |t|] + s[p + |t|..];
    }
  }

  /** A greedy partition has non-empty spans, no two `.text` spans in a row,
      and every typed span names a candidate. */
  lemma {:induction false} GreedyShape(s: string, cands: set<Needle>, p: nat, r: seq<DetectionResult>)
    requires GreedyPartition(s, cands, p, r)
    ensures NonEmptySpans(r) && NoAdjacentText(r)
    ensures forall k :: 0 <= k < |r| && !r[k].Text? ==> Needle(r[k].text, KindOf(r[k])) in cands
    decreases |r|
  {
    if r != [] {
      GreedyShape(s, cands, p + |r[0].text|, r[1..]);
      assert forall k :: 1 <= k < |r| ==> r[k] == r[1..][k - 1];
    }
  }

  /** A `.text` span that stops before the end of the text stops at a match. */
  lemma TextRunEndsAtMatch(s: string, cands: set<Needle>, p: nat, r: seq<DetectionResult>)
    requires GreedyPartition(s, cands, p, r)
    requires r != [] && r[0].Text? && p + |r[0].text| < |s|
    ensures !NoMatchAt(cands, s, p + |r[0].text|)
  {
    var q := p + |r[0].text|;
    var tail := r[1..];
    assert GreedyPartition(s, cands, q, tail);
    assert tail != [];
    assert HeadFits(s, cands, q, tail);
    assert IsBestMatch(cands, s, q, Needle(tail[0].text, KindOf(tail[0])));
  }

  /** No candidate occurs anywhere under a leading `.text` span. */
  lemma TextHeadNoMatch(s: string, cands: set<Needle>, p: nat, r: seq<DetectionResult>, q: nat)
    requires GreedyPartition(s, cands, p, r)
    requires r != [] && r[0].Text? && p <= q < p + |r[0].text|
    ensures NoMatchAt(cands, s, q)
  {
    assert HeadFits(s, cands, p, r);
  }

  /** No candidate occurs under any `.text` span of a greedy partition; the
      span at index `k` starts after the payloads of the spans before it. */
  lemma {:induction false} GreedyTextNoMatch(s: string, cands: set<Needle>, p: nat, r: seq<DetectionResult>, k: nat, q: nat)
    requires GreedyPartition(s, cands, p, r)
    requires k < |r| && r[k].Text?
    requires p + |Concat(r[..k])| <= q < p + |Concat(r[..k])| + |r[k].text|
    ensures NoMatchAt(cands, s, q)
    decreases k
  {
    if k == 0 {
      assert r[..0] == [];
      TextHeadNoMatch(s, cands, p, r, q);
    } else {
      var rest := r[1..];
      assert r[..k] == [r[0]] + rest[..k - 1];
      assert Concat(r[..k]) == r[0].text + Concat(rest[..k - 1]);
      GreedyTextNoMatch(s, cands, p + |r[0].text|, rest, k - 1, q);
    }
  }

  /** Two greedy partitions from the same position start with the same span. */
  lemma GreedyHeadUnique(s: string, cands: set<Needle>, p: nat, r1: seq<DetectionResult>, r2: seq<DetectionResult>)
    requires GreedyPartition(s, cands, p, r1) && r1 != []
    requires GreedyPartition(s, cands, p, r2) && r2 != []
    ensures r1[0] == r2[0]
  {
    assert HeadFits(s, cands, p, r1) && HeadFits(s, cands, p, r2);
    var t1, t2 := r1[0].text, r2[0].text;
    if r1[0].Text? && r2[0].Text? {
      if |t1| < |t2| {
        TextHeadNoMatch(s, cands, p, r2, p + |t1|);
        TextRunEndsAtMatch(s, cands, p, r1);
        assert false;
      } else if |t2| < |t1| {
        TextHeadNoMatch(s, cands, p, r1, p + |t2|);
        TextRunEndsAtMatch(s, cands, p, r2);
        assert false;
      }
    } else if r1[0].Text? {
      TextHeadNoMatch(s, cands, p, r1, p);
      assert false;
    } else if r2[0].Text? {
      TextHeadNoMatch(s, cands, p, r2, p);
      assert false;
    } else {
      BestMatchUnique(cands, s, p, Needle(t1, KindOf(r1[0])), Needle(t2, KindOf(r2[0])));
      TaggedKindOf(r1[0]);
      TaggedKindOf(r2[0]);
    }
  }

  /** There is at most one greedy partition of a text for a set of candidates. */
  lemma {:induction false} GreedyUnique(s: string, cands: set<Needle>, p: nat, r1: seq<DetectionResult>, r2: seq<DetectionResult>)
    requires GreedyPartition(s, cands, p, r1)
    requires GreedyPartition(s, cands, p, r2)
    ensures r1 == r2
    decreases |r1|
  {
    if r1 != [] && r2 != [] {
      GreedyHeadUnique(s, cands, p, r1, r2);
      GreedyUnique(s, cands, p + |r1[0].text|, r1[1..], r2[1..]);
      assert r1 == [r1[0]] + r1[1..] && r2 == [r2[0]] + r2[1..];
    }
  }

  /** Putting the pending `.text` span in front of a greedy partition that
      does not itself start with a `.text` span gives a greedy partition. */
  lemma PendingGreedy(s: string, cands: set<Needle>, start: nat, i: nat, rest: seq<DetectionResult>)
    requires start <= i <= |s|
    requires NoMatchIn(cands, s, start, i)
    requires GreedyPartition(s, cands, i, rest)
    requires rest != [] ==> !rest[0].Text?
    ensures GreedyPartition(s, cands, start, Pending(s, start, i) + rest)
  {
    var r := Pending(s, start, i) + rest;
    if start < i {
      assert r[0] == Text(s[start..i]) && r[1..] == rest;
      assert start + |s[start..i]| == i;
      assert HeadFits(s, cands, start, r);
    } else {
      assert r == rest;
    }
  }

  /** The scan produces the greedy partition of the rest of the text, given
      that nothing matched in the pending run. */
  lemma {:induction false} ScanIsGreedy(s: string, ns: seq<Needle>, i: nat, start: nat)
    requires FirstIsBest(ns, s)
    requires forall n :: n in ns ==> n.text != []
    requires start <= i <= |s|
    requires NoMatchIn(Members(ns), s, start, i)
    ensures GreedyPartition(s, Members(ns), start, ScanFrom(s, ns, i, start))
    decreases |s| - i, 1
  {
    if i == |s| {
      PendingGreedy(s, Members(ns), start, i, []);
      assert Pending(s, start, i) + [] == Pending(s, start, i);
    } else if FirstMatch(ns, s, i).None? {
      ScanIsGreedyNoMatch(s, ns, i, start);
    } else {
      ScanIsGreedyMatch(s, ns, i, start, FirstMatch(ns, s, i).value);
    }
  }

  /** `ScanIsGreedy` where no needle occurs at the cursor. */
  lemma {:induction false} ScanIsGreedyNoMatch(s: string, ns: seq<Needle>, i: nat, start: nat)
    requires FirstIsBest(ns, s)
    requires forall n :: n in ns ==> n.text != []
    requires start <= i < |s| && FirstMatch(ns, s, i).None?
    requires NoMatchIn(Members(ns), s, start, i)
    ensures GreedyPartition(s, Members(ns), start, ScanFrom(s, ns, i, start))
    decreases |s| - i, 0
  {
    FirstMatchNone(ns, s, i);
    ScanIsGreedy(s, ns, i + 1, start);
    ScanFromNoMatch(s, ns, i, start);
  }

  /** `ScanIsGreedy` where a needle occurs at the cursor. */
  lemma {:induction false} ScanIsGreedyMatch(s: string, ns: seq<Needle>, i: nat, start: nat, n: Needle)
    requires FirstIsBest(ns, s)
    requires forall n :: n in ns ==> n.text != []
    requires start <= i < |s| && FirstMatch(ns, s, i) == Some(n)
    requires NoMatchIn(Members(ns), s, start, i)
    ensures GreedyPartition(s, Members(ns), start, ScanFrom(s, ns, i, start))
    decreases |s| - i, 0
  {
    ScanFromMatch(s, ns, i, start, n);
    var j := i + |n.text|;
    var tail := ScanFrom(s, ns, j, j);
    ScanIsGreedy(s, ns, j, j);
    ScanStepMatch(s, ns, start, i, n, tail);
    GreedySame(s, Members(ns), start, Pending(s, start, i) + ([Tagged(n)] + tail), ScanFrom(s, ns, i, start));
  }

  /** A greedy partition stays one under any equal name for it. */
  lemma GreedySame(s: string, cands: set<Needle>, p: nat, r1: seq<DetectionResult>, r2: seq<DetectionResult>)
    ensures GreedyPartition(s, cands, p, r1) && r1 == r2 ==> GreedyPartition(s, cands, p, r2)
  {
  }

  /** The match step of the scan: if what follows the match is greedy, so
      is the pending run, the match and what follows. */
  lemma ScanStepMatch(s: string, ns: seq<Needle>, start: nat, i: nat, n: Needle, tail: seq<DetectionResult>)
    requires FirstIsBest(ns, s)
    requires start <= i < |s| && NoMatchIn(Members(ns), s, start, i)
    requires FirstMatch(ns, s, i) == Some(n) && n.text != []
    ensures GreedyPartition(s, Members(ns), i + |n.text|, tail) ==>
      GreedyPartition(s, Members(ns), start, Pending(s, start, i) + ([Tagged(n)] + tail))
  {
    if GreedyPartition(s, Members(ns), i + |n.text|, tail) {
      GreedyAtMatch(s, Members(ns), start, i, n, tail);
    }
  }

  /** The pending `.text` span, then the best match, then a greedy partition
      of the text after the match, is a greedy partition. */
  lemma GreedyAtMatch(s: string, cands: set<Needle>, start: nat, i: nat, n: Needle, tail: seq<DetectionResult>)
    requires start <= i && NoMatchIn(cands, s, start, i)
    requires IsBestMatch(cands, s, i, n) && n.text != []
    requires GreedyPartition(s, cands, i + |n.text|, tail)
    ensures i + |n.text| <= |s|
    ensures GreedyPartition(s, cands, start, Pending(s, start, i) + ([Tagged(n)] + tail))
  {
    MatchGreedy(s, cands, i, n, tail);
    PendingGreedy(s, cands, start, i, [Tagged(n)] + tail);
  }

  /** One step of the scan where no needle occurs at the cursor. */
  lemma ScanFromNoMatch(s: string, ns: seq<Needle>, i: nat, start: nat)
    requires forall n :: n in ns ==> n.text != []
    requires start <= i < |s| && FirstMatch(ns, s, i).None?
    ensures ScanFrom(s, ns, i, start) == ScanFrom(s, ns, i + 1, start)
  {
  }

  /** One step of the scan where a needle occurs at the cursor. */
  lemma ScanFromMatch(s: string, ns: seq<Needle>, i: nat, start: nat, n: Needle)
    requires forall n :: n in ns ==> n.text != []
    requires start <= i < |s| && FirstMatch(ns, s, i) == Some(n)
    ensures i + |n.text| <= |s|
    ensures ScanFrom(s, ns, i, start)
      == Pending(s, start, i) + ([Tagged(n)] + ScanFrom(s, ns, i + |n.text|, i + |n.text|))
  {
  }

  /** When the first-match search finds nothing, no candidate occurs there. */
  lemma FirstMatchNone(ns: seq<Needle>, s: string, i: nat)
    requires FirstMatch(ns, s, i).None?
    ensures NoMatchAt(Members(ns), s, i)
  {
    FirstMatchNoneIff(ns, s, i);
    forall n | n in Members(ns) ensures !MatchesAt(s, i, n) {
      var k :| 0 <= k < |ns| && ns[k] == n;
    }
  }

  /** A best match followed by a greedy partition of the text after it is a
      greedy partition. */
  lemma MatchGreedy(s: string, cands: set<Needle>, i: nat, n: Needle, tail: seq<DetectionResult>)
    requires IsBestMatch(cands, s, i, n) && n.text != []
    requires GreedyPartition(s, cands, i + |n.text|, tail)
    ensures GreedyPartition(s, cands, i, [Tagged(n)] + tail)
  {
    var rest := [Tagged(n)] + tail;
    assert rest[1..] == tail;
    MatchesAtSlice(s, i, n);
    assert Needle(n.text, n.kind) == n;
  }

  /** The normalised list holds exactly the candidate set. */
  lemma NormaliseMembers(needles: seq<Needle>)
    ensures Members(Normalise(needles)) == CandidateSet(needles)
  {
  }

  /** A needle does not occur where the text has a different character than its first. */
  lemma FirstCharDiffers(s: string, q: nat, m: Needle)
    requires q < |s| && m.text != [] && s[q] != m.text[0]
    ensures !MatchesAt(s, q, m)
  {
    assert s[q..][0] == s[q];
  }

  /** A text that is not empty but trims to nothing, taken as one `.text`
      span, is the greedy partition: every candidate is trimmed, so it starts
      with a character that is not whitespace and occurs nowhere in the text. */
  lemma BlankIsGreedy(s: string, needles: seq<Needle>)
    requires s != [] && Trim(s) == []
    ensures GreedyPartition(s, CandidateSet(needles), 0, [Text(s)])
  {
    var cands := CandidateSet(needles);
    var ns := Normalise(needles);
    forall q, n | 0 <= q < |s| && n in cands ensures !MatchesAt(s, q, n) {
      assert n in ns;
      FirstCharDiffers(s, q, n);
    }
    assert s[0..|s|] == s;
    assert HeadFits(s, cands, 0, [Text(s)]);
    assert [Text(s)][1..] == [];
  }

  /** For any text but the empty one, `findAll` returns the greedy partition
      over the candidate set, and nothing else is one: the result does not
      depend on how `sorted` orders needles that compare equal. */
  lemma FindAllIsGreedy(s: string, needles: seq<Needle>, r: seq<DetectionResult>)
    requires s != []
    ensures GreedyPartition(s, CandidateSet(needles), 0, r) <==> r == FindAllSpec(s, needles)
  {
    if Trim(s) == [] {
      BlankIsGreedy(s, needles);
    } else {
      var ns := Normalise(needles);
      NormaliseMembers(needles);
      SortedFirstIsBest(ns, s);
      ScanIsGreedy(s, ns, 0, 0);
    }
    if GreedyPartition(s, CandidateSet(needles), 0, r) {
      GreedyUnique(s, CandidateSet(needles), 0, r, FindAllSpec(s, needles));
    }
  }

  /** The blank-input shortcut changes the result only for the empty text:
      on any other text the scan alone returns the same spans, while on the
      empty text the scan alone returns no span at all. */
  lemma ShortcutOnlyEmptyText(s: string, needles: seq<Needle>)
    ensures FindAllSpec(s, needles) == ScanFrom(s, Normalise(needles), 0, 0) <==> s != []
  {
    var ns := Normalise(needles);
    if s != [] && Trim(s) == [] {
      NormaliseMembers(needles);
      SortedFirstIsBest(ns, s);
      ScanIsGreedy(s, ns, 0, 0);
      BlankIsGreedy(s, needles);
      GreedyUnique(s, CandidateSet(needles), 0, [Text(s)], ScanFrom(s, ns, 0, 0));
    }
  }

  /** Two sorted lists of the same needles scan the same text identically. */
  lemma ScanOrderIndependent(s: string, ns1: seq<Needle>, ns2: seq<Needle>)
    requires Sorted(ns1) && Sorted(ns2)
    requires forall n :: n in ns1 ==> n.text != []
    requires forall n :: n in ns1 <==> n in ns2
    ensures ScanFrom(s, ns1, 0, 0) == ScanFrom(s, ns2, 0, 0)
  {
    assert Members(ns1) == Members(ns2);
    SortedFirstIsBest(ns1, s);
    SortedFirstIsBest(ns2, s);
    ScanIsGreedy(s, ns1, 0, 0);
    ScanIsGreedy(s, ns2, 0, 0);
    GreedyUnique(s, Members(ns1), 0, ScanFrom(s, ns1, 0, 0), ScanFrom(s, ns2, 0, 0));
  }

  /** No two `.text` spans in a row; for any text but the empty one, no span
      is empty; every typed span is a trimmed caller needle with its own type. */
  lemma FindAllShape(s: string, needles: seq<Needle>)
    ensures NoAdjacentText(FindAllSpec(s, needles))
    ensures s != [] ==> NonEmptySpans(FindAllSpec(s, needles))
    ensures var r := FindAllSpec(s, needles);
      forall k :: 0 <= k < |r| && !r[k].Text? ==> Needle(r[k].text, KindOf(r[k])) in CandidateSet(needles)
  {
    if s != [] {
      FindAllIsGreedy(s, needles, FindAllSpec(s, needles));
      GreedyShape(s, CandidateSet(needles), 0, FindAllSpec(s, needles));
    }
  }

  /** No candidate occurs at any position inside a `.text` span of the
      result, the blank-input span included. */
  lemma TextSpansUnmatched(s: string, needles: seq<Needle>, k: nat, q: nat)
    requires var r := FindAllSpec(s, needles);
      k < |r| && r[k].Text? && |Concat(r[..k])| <= q < |Concat(r[..k])| + |r[k].text|
    ensures forall m :: m in CandidateSet(needles) ==> !MatchesAt(s, q, m)
  {
    if s != [] {
      var r := FindAllSpec(s, needles);
      FindAllIsGreedy(s, needles, r);
      GreedyTextNoMatch(s, CandidateSet(needles), 0, r, k, q);
    }
  }

  /** `findAll(needles:)`: the blank-input case, then normalisation, then the scan. */
  method FindAll(text: string, needles: seq<Needle>) returns (result: seq<DetectionResult>)
    ensures result == FindAllSpec(text, needles)
    ensures Trim(text) == [] ==> result == [Text(text)]
    ensures Concat(result) == text
    ensures text != [] ==> GreedyPartition(text, CandidateSet(needles), 0, result)
  {
    if text != [] {
      FindAllIsGreedy(text, needles, FindAllSpec(text, needles));
    }
    if Trim(text) == [] {
      result := [Text(text)];
      return;
    }
    var sortedNeedles := Normalise(needles);
    result := Scan(text, sortedNeedles);
  }

  /** The scan loop of `findAll(needles:)` as the loop runs it: `acc` is the
      array built so far, and each step extends it exactly as the loop body
      does. `ScanAccFrom` states what it returns. */
  function ScanAcc(s: string, ns: seq<Needle>, i: nat, start: nat, acc: seq<DetectionResult>): seq<DetectionResult>
    requires start <= i <= |s|
    requires forall n :: n in ns ==> n.text != []
    decreases |s| - i
  {
    if i == |s| then
      if start < |s| then acc + [Text(s[start..])] else acc
    else
      match FirstMatch(ns, s, i)
      case None => ScanAcc(s, ns, i + 1, start, acc)
      case Some(n) =>
        var pending := if start < i then acc + [Text(s[start..i])] else acc;
        ScanAcc(s, ns, i + |n.text|, i + |n.text|, pending + [Tagged(n)])
  }

  /** Running the loop from an accumulated array appends what the scan appends. */
  lemma {:induction false} ScanAccFrom(s: string, ns: seq<Needle>, i: nat, start: nat, acc: seq<DetectionResult>)
    requires start <= i <= |s|
    requires forall n :: n in ns ==> n.text != []
    ensures ScanAcc(s, ns, i, start, acc) == acc + ScanFrom(s, ns, i, start)
    decreases |s| - i, 1
  {
    if i == |s| {
      assert s[start..|s|] == s[start..];
      assert acc + [] == acc;
    } else if FirstMatch(ns, s, i).None? {
      ScanAccFrom(s, ns, i + 1, start, acc);
    } else {
      ScanAccFromMatch(s, ns, i, start, acc, FirstMatch(ns, s, i).value);
    }
  }

  /** `ScanAccFrom` where a needle occurs at the cursor. */
  lemma {:induction false} ScanAccFromMatch(s: string, ns: seq<Needle>, i: nat, start: nat, acc: seq<DetectionResult>, n: Needle)
    requires start <= i < |s|
    requires forall n :: n in ns ==> n.text != []
    requires FirstMatch(ns, s, i) == Some(n)
    ensures ScanAcc(s, ns, i, start, acc) == acc + ScanFrom(s, ns, i, start)
    decreases |s| - i, 0
  {
    var j := i + |n.text|;
    var pending := if start < i then acc + [Text(s[start..i])] else acc;
    ScanAccMatch(s, ns, i, start, n, acc, pending);
    ScanAccFrom(s, ns, j, j, pending + [Tagged(n)]);
  }

  /** The match step of `ScanAccFrom`, with the rest of the run taken as given. */
  lemma ScanAccMatch(s: string, ns: seq<Needle>, i: nat, start: nat, n: Needle, acc: seq<DetectionResult>, pending: seq<DetectionResult>)
    requires start <= i < |s|
    requires forall n :: n in ns ==> n.text != []
    requires FirstMatch(ns, s, i) == Some(n)
    requires pending == if start < i then acc + [Text(s[start..i])] else acc
    ensures i + |n.text| <= |s|
    ensures var j := i + |n.text|;
      ScanAcc(s, ns, j, j, pending + [Tagged(n)]) == pending + [Tagged(n)] + ScanFrom(s, ns, j, j) ==>
      ScanAcc(s, ns, i, start, acc) == acc + ScanFrom(s, ns, i, start)
  {
    var j := i + |n.text|;
    ScanFromMatch(s, ns, i, start, n);
    ScanAccStep(s, ns, i, start, n, acc, pending);
    PendingAppend(s, start, i, acc, pending);
    AppendAssoc(acc, Pending(s, start, i), [Tagged(n)], ScanFrom(s, ns, j, j));
  }

  /** One match step of the loop, taken by unfolding `ScanAcc` once. */
  lemma ScanAccStep(s: string, ns: seq<Needle>, i: nat, start: nat, n: Needle, acc: seq<DetectionResult>, pending: seq<DetectionResult>)
    requires start <= i < |s|
    requires forall n :: n in ns ==> n.text != []
    requires FirstMatch(ns, s, i) == Some(n)
    requires pending == if start < i then acc + [Text(s[start..i])] else acc
    ensures i + |n.text| <= |s|
    ensures ScanAcc(s, ns, i, start, acc) == ScanAcc(s, ns, i + |n.text|, i + |n.text|, pending + [Tagged(n)])
  {
    MatchesAtSlice(s, i, n);
  }

  /** The loop's pending-run append is appending `Pending`. */
  lemma PendingAppend(s: string, start: nat, i: nat, acc: seq<DetectionResult>, pending: seq<DetectionResult>)
    requires start <= i <= |s|
    requires pending == if start < i then acc + [Text(s[start..i])] else acc
    ensures pending == acc + Pending(s, start, i)
  {
    if start == i {
      assert acc + [] == acc;
    }
  }

  /** Appending in three steps is appending the three parts at once. */
  lemma AppendAssoc(a: seq<DetectionResult>, b: seq<DetectionResult>, c: seq<DetectionResult>, d: seq<DetectionResult>)
    ensures a + b + c + d == a + (b + (c + d))
  {
  }

  /** The scan loop of `findAll(needles:)` over the text's characters, with
      `i` for `currentCharIndex` and `start` for `currentElementCharStartIndex`. */
  method Scan(text: string, sortedNeedles: seq<Needle>) returns (result: seq<DetectionResult>)
    requires forall n :: n in sortedNeedles ==> n.text != []
    ensures result == ScanFrom(text, sortedNeedles, 0, 0)
  {
    var start: nat := 0;
    var i: nat := 0;
    var charCount := |text|;
    result := [];
    while i < charCount
      invariant start <= i <= charCount
      invariant ScanAcc(text, sortedNeedles, i, start, result) == ScanAcc(text, sortedNeedles, 0, 0, [])
      decreases charCount - i
    {
      var found := FirstMatch(sortedNeedles, text, i);
      if found.None? {
        i := i + 1;
        continue;
      }
      var n := found.value;
      if start < i {
        result := result + [Text(text[start..i])];
      }
      result := result + [Tagged(n)];
      i := i + |n.text|;
      start := i;
    }
    if start < charCount {
      result := result + [Text(text[start..])];
    }
    ScanAccFrom(text, sortedNeedles, 0, 0, []);
    assert [] + ScanFrom(text, sortedNeedles, 0, 0) == ScanFrom(text, sortedNeedles, 0, 0);
  }
}
