/** Needles, their types, the spans `findAll` returns, and the normalisation
    that turns the caller's needles into the ordered candidate list. */
module Needles {
  import opened Whitespace

  /** The category of a needle. The Swift raw value (hashtag 0, link 1,
      user 2) is the priority between needles of equal length. */
  datatype NeedleType = Hashtag | Link | User

  /** Swift numbers the cases of an `Int` enum from 0 in declaration order. */
  function RawValue(t: NeedleType): (v: nat)
    ensures v < 3
    ensures v == 0 <==> t.Hashtag?
    ensures v == 2 <==> t.User?
  {
    match t
    case Hashtag => 0
    case Link => 1
    case User => 2
  }

  /** User outranks link, link outranks hashtag, and no two types share a priority. */
  lemma PriorityOrder(t: NeedleType, u: NeedleType)
    ensures RawValue(NeedleType.Hashtag) < RawValue(NeedleType.Link) < RawValue(NeedleType.User)
    ensures RawValue(t) == RawValue(u) ==> t == u
  {
  }

  /** A needle; Swift's `type` field is called `kind` here. */
  datatype Needle = Needle(text: string, kind: NeedleType)

  /** One span of the partitioned text. Equality is structural: same variant
      and same payload, which is what the custom `hash(into:)` encodes. */
  datatype DetectionResult =
    | User(text: string)
    | Link(text: string)
    | Hashtag(text: string)
    | Text(text: string)

  /** The typed span that a match of `n` produces. */
  function Tagged(n: Needle): (r: DetectionResult)
    ensures !r.Text? && r.text == n.text && KindOf(r) == n.kind
  {
    match n.kind
    case User => DetectionResult.User(n.text)
    case Hashtag => DetectionResult.Hashtag(n.text)
    case Link => DetectionResult.Link(n.text)
  }

  /** The needle type a typed span stands for. */
  function KindOf(r: DetectionResult): NeedleType
    requires !r.Text?
  {
    match r
    case User(_) => NeedleType.User
    case Link(_) => NeedleType.Link
    case Hashtag(_) => NeedleType.Hashtag
  }

  /** A typed span is the tagged form of the needle it names. */
  lemma TaggedKindOf(r: DetectionResult)
    requires !r.Text?
    ensures Tagged(Needle(r.text, KindOf(r))) == r
  {
  }

  /** The candidates the caller's needles stand for: the trimmed form of every
      needle that does not trim to nothing, with its type unchanged. */
  ghost function CandidateSet(needles: seq<Needle>): set<Needle> {
    set m | m in needles && Trim(m.text) != [] :: Needle(Trim(m.text), m.kind)
  }

  /** A needle as the scanner expects it: non-empty and already trimmed. */
  predicate IsNormal(n: Needle) {
    n.text != [] && Trim(n.text) == n.text
  }

  /** The `filter` and `map` steps: drop needles that trim to nothing, trim the rest. */
  function TrimmedNeedles(needles: seq<Needle>): (r: seq<Needle>)
    ensures |r| <= |needles|
    ensures forall n :: n in r ==> IsNormal(n)
    ensures forall n :: n in r <==> n in CandidateSet(needles)
  {
    if needles == [] then []
    else
      var m := needles[0];
      var rest := TrimmedNeedles(needles[1..]);
      assert forall n :: n in CandidateSet(needles) <==>
        (Trim(m.text) != [] && n == Needle(Trim(m.text), m.kind)) || n in CandidateSet(needles[1..]) by {
        assert needles == [m] + needles[1..];
      }
      TrimIdempotent(m.text);
      if Trim(m.text) == [] then rest else [Needle(Trim(m.text), m.kind)] + rest
  }

  /** The comparator handed to `sorted`: longer text first, then higher raw value. */
  predicate SortsBefore(a: Needle, b: Needle): (r: bool)
    ensures r ==> |a.text| >= |b.text|
    ensures |a.text| > |b.text| ==> r
  {
    if |a.text| != |b.text| then |a.text| > |b.text| else RawValue(a.kind) > RawValue(b.kind)
  }

  /** The comparator is a strict weak ordering, as `sorted(by:)` demands:
      irreflexive and transitive, and two needles it cannot tell apart have
      the same length and the same type. */
  lemma SortsBeforeStrictWeak(a: Needle, b: Needle, c: Needle)
    ensures !SortsBefore(a, a)
    ensures SortsBefore(a, b) && SortsBefore(b, c) ==> SortsBefore(a, c)
    ensures !SortsBefore(a, b) && !SortsBefore(b, a) <==> |a.text| == |b.text| && a.kind == b.kind
  {
    PriorityOrder(a.kind, b.kind);
  }

  /** No needle sorts strictly before one that precedes it. */
  predicate Sorted(ns: seq<Needle>) {
    forall i, j :: 0 <= i < j < |ns| ==> !SortsBefore(ns[j], ns[i])
  }

  /** Insert `n` into a sorted list ahead of the first entry that does not sort before it. */
  function Insert(n: Needle, ns: seq<Needle>): (r: seq<Needle>)
    requires Sorted(ns)
    ensures Sorted(r)
    ensures multiset(r) == multiset(ns) + multiset{n}
    ensures forall x :: x in r <==> x == n || x in ns
  {
    if ns == [] || !SortsBefore(ns[0], n) then [n] + ns
    else
      var rest := Insert(n, ns[1..]);
      assert ns == [ns[0]] + ns[1..];
      assert forall j :: 0 <= j < |rest| ==> !SortsBefore(rest[j], ns[0]) by {
        forall j | 0 <= j < |rest| ensures !SortsBefore(rest[j], ns[0]) {
          assert rest[j] in rest;
        }
      }
      [ns[0]] + rest
  }

  /** The `sorted` step, as an insertion sort. */
  function SortNeedles(ns: seq<Needle>): (r: seq<Needle>)
    ensures Sorted(r)
    ensures multiset(r) == multiset(ns)
  {
    if ns == [] then []
    else
      assert ns == [ns[0]] + ns[1..];
      Insert(ns[0], SortNeedles(ns[1..]))
  }

  /** `sortedNeedles`: the candidate list the scanner consults, in order. */
  function Normalise(needles: seq<Needle>): (r: seq<Needle>)
    ensures Sorted(r)
    ensures forall n :: n in r ==> IsNormal(n)
    ensures forall n :: n in r <==> n in CandidateSet(needles)
  {
    var t := TrimmedNeedles(needles);
    var r := SortNeedles(t);
    assert forall n :: n in r <==> n in t by {
      forall n ensures n in r <==> n in t {
        assert n in r <==> n in multiset(r);
        assert n in t <==> n in multiset(t);
      }
    }
    r
  }

  /** Sorting a list that is already sorted leaves it as it is. */
  lemma {:induction false} SortSorted(ns: seq<Needle>)
    requires Sorted(ns)
    ensures SortNeedles(ns) == ns
  {
    if ns != [] {
      SortSorted(ns[1..]);
      assert ns == [ns[0]] + ns[1..];
    }
  }

  /** Filtering and trimming needles that are already normal keeps them all. */
  lemma {:induction false} TrimmedNormal(ns: seq<Needle>)
    requires forall n :: n in ns ==> IsNormal(n)
    ensures TrimmedNeedles(ns) == ns
  {
    if ns != [] {
      TrimmedNormal(ns[1..]);
      assert ns[0] in ns;
      assert ns == [ns[0]] + ns[1..];
    }
  }

  /** Normalising a normalised list changes nothing. */
  lemma NormaliseIdempotent(needles: seq<Needle>)
    ensures Normalise(Normalise(needles)) == Normalise(needles)
  {
    var r := Normalise(needles);
    TrimmedNormal(r);
    SortSorted(r);
  }
}
