# detect-strings in Dafny

A model of `String.findAll(needles:)` from the detect-strings Swift package.
The function splits a text into spans: each span is either a typed
`.user`/`.link`/`.hashtag` span for a needle found in the text, or a
`.text` span holding the characters between matches. The model has four
modules:

- `Whitespace` (`whitespace.dfy`): the `trim` extension on `String`. It is
  built from the length of the leading and trailing whitespace runs.
- `Needles` (`needles.dfy`): the `NeedleType`, `Needle` and
  `DetectionResult` types, and the normalisation pipeline of `findAll`.
  That pipeline filters out needles that trim to nothing, trims the rest,
  and sorts them longest first, then by descending raw value.
- `FindAll` (`find_all.dfy`): the first-match search and the scan loop. The
  scan is a `while` loop in the method `Scan`, proved against the spec
  function `ScanFrom`.
  - `FindAllSpec` is the whole function, including the blank-input shortcut.
  - `GreedyPartition` is an independent reference definition of what the
    output must be. Each span must fit the text where it starts: a `.text`
    span covers only positions where no candidate occurs, and a typed span
    is the longest, then highest-priority, candidate at its position.
  - The main results:
    - For every text except `""`, `findAll` produces exactly this
      partition; that includes blank texts, which come out as one `.text`
      span.
    - The partition is unique, so the result does not depend on how
      `sorted` orders needles that compare equal.
    - The spans concatenate back to the text.
- `FindAllCases` (`find_all_cases.dfy`): the six test cases of
  `DetectStringsTests.swift`, worked through on the model. It also has a few
  more cases, such as the tie between needles of equal length.

A Swift `Character` is modelled as one Dafny `char`, and a `String` as
`seq<char>`. Then `count` is the length, `index(offsetBy:)` is indexing and
`hasPrefix` is a sequence prefix.

On the empty input the code and the tests disagree. The test case at
`DetectStringsTests/DetectStringsTests.swift:20-23` expects `[]` for the text
`""` with no needles. The code at `DetectStrings/DetectStrings.swift:61-63`
returns `[.text("")]`, because the blank-input shortcut returns `.text(self)`
for every text that trims to nothing. The model follows the code, and
`FindAllCases.EmptyText` states both facts. `FindAll.ShortcutOnlyEmptyText`
shows that the shortcut matters only for `""`: on any other text, blank or
not, the scan alone returns the same spans.

## Model

| member | source | states |
|---|---|---|
| Whitespace.IsWhitespace | DetectStrings/DetectStrings.swift:49 | space, tab, line feed and carriage return count as whitespace, and no character outside U+0009 to U+3000 does |
| Whitespace.LeadingSpace | DetectStrings/DetectStrings.swift:48-51 | the count is the length of the longest all-whitespace prefix: every character before it is whitespace and the one at it is not |
| Whitespace.TrailingSpace | DetectStrings/DetectStrings.swift:48-51 | the count is the length of the longest all-whitespace suffix |
| Whitespace.Trim | DetectStrings/DetectStrings.swift:48-51 | the result is empty exactly when the text is all whitespace; otherwise it neither starts nor ends with whitespace, and it is the text after the leading whitespace, with only whitespace after it |
| Whitespace.TrimUnique | DetectStrings/DetectStrings.swift:48-51 | any whitespace + core + whitespace split whose core has no whitespace at either end trims to that core |
| Whitespace.TrimIdempotent | DetectStrings/DetectStrings.swift:48-51 | trimming a trimmed string changes nothing |
| Needles.RawValue | DetectStrings/DetectStrings.swift:10-15 | the raw value is below 3; it is 0 exactly for `hashtag` and 2 exactly for `user`, the declaration order |
| Needles.PriorityOrder | DetectStrings/DetectStrings.swift:10-15 | raw values rank hashtag < link < user, and distinct types have distinct raw values |
| Needles.Tagged | DetectStrings/DetectStrings.swift:103-110 | a match of a needle becomes a typed (non-`.text`) span with the needle's text as its payload and the needle's type as its variant |
| Needles.TaggedKindOf | DetectStrings/DetectStrings.swift:22-27 | every typed span is the tagged form of the needle built from its payload and its variant |
| Needles.TrimmedNeedles | DetectStrings/DetectStrings.swift:67-70 | the filtered and trimmed list holds exactly the trimmed forms, with types unchanged, of the needles that do not trim to nothing; each one is non-empty and already trimmed |
| Needles.SortsBefore | DetectStrings/DetectStrings.swift:71-76 | a needle that sorts first is never shorter, and a strictly longer needle always sorts first |
| Needles.SortsBeforeStrictWeak | DetectStrings/DetectStrings.swift:71-76 | the comparator is irreflexive and transitive, and two needles it cannot order have the same length and the same type |
| Needles.Insert | DetectStrings/DetectStrings.swift:71-76 | inserting into a list sorted by the comparator keeps it sorted, and the result is the old list plus the new needle, as a multiset |
| Needles.SortNeedles | DetectStrings/DetectStrings.swift:71-76 | the result is sorted by the comparator (longer text first, then higher raw value) and is a permutation of the input |
| Needles.Normalise | DetectStrings/DetectStrings.swift:67-76 | `sortedNeedles` is sorted, each entry is non-empty and trimmed, and it holds exactly the candidate set of the caller's needles |
| Needles.SortSorted | DetectStrings/DetectStrings.swift:71-76 | sorting a sorted list returns it unchanged |
| Needles.TrimmedNormal | DetectStrings/DetectStrings.swift:67-70 | filtering and trimming needles that are already non-empty and trimmed keeps the list as it is |
| Needles.NormaliseIdempotent | DetectStrings/DetectStrings.swift:67-76 | normalising a normalised list changes nothing |
| FindAll.HasPrefix | DetectStrings/DetectStrings.swift:87 | a prefix is never longer than the text it is a prefix of |
| FindAll.HasPrefixSlice | DetectStrings/DetectStrings.swift:87 | `hasPrefix(p)` holds exactly when the first `|p|` characters are `p` |
| FindAll.MatchesAt | DetectStrings/DetectStrings.swift:86-87 | a needle found at a position fits in the text from there |
| FindAll.MatchesAtSlice | DetectStrings/DetectStrings.swift:86-87 | a needle occurs at `i` exactly when it fits in the text there and equals the slice of its length |
| FindAll.FirstMatch | DetectStrings/DetectStrings.swift:87 | the search result, when there is one, is a needle of the list that occurs at the position |
| FindAll.FirstMatchNoneIff | DetectStrings/DetectStrings.swift:87-93 | the search finds nothing exactly when no needle of the list occurs at the position |
| FindAll.FirstMatchNone | DetectStrings/DetectStrings.swift:87-93 | when the search finds nothing, no candidate of the list occurs at the position |
| FindAll.FirstMatchIsBest | DetectStrings/DetectStrings.swift:71-76 | on a sorted list, the first needle found is a longest candidate occurring there, and has the highest priority among those of that length |
| FindAll.SortedFirstIsBest | DetectStrings/DetectStrings.swift:71-87 | on a sorted list, the search finds the best match at every position |
| FindAll.BestMatchUnique | DetectStrings/DetectStrings.swift:10-15 | at most one candidate is the best match at a position |
| FindAll.Pending | DetectStrings/DetectStrings.swift:96-100 | at most one span is emitted, none exactly when the run is empty, and an emitted span is a non-empty `.text` span |
| FindAll.ScanFrom | DetectStrings/DetectStrings.swift:78-120 | the scan from a loop state emits no span exactly when the pending run starts at the end of the text |
| FindAll.FindAllSpec | DetectStrings/DetectStrings.swift:57-123 | the result is never empty, and its payloads concatenate back to the text, for every text including blank ones |
| FindAll.ConcatAppend | DetectStrings/DetectStrings.swift:96-120 | the payloads of two span lists in a row are the payloads of each in a row |
| FindAll.GreedyConcat | DetectStrings/DetectStrings.swift:96-120 | the payloads of a greedy partition concatenate to the text it partitions |
| FindAll.GreedyShape | DetectStrings/DetectStrings.swift:96-119 | a greedy partition has no empty span and no two `.text` spans in a row, and each typed span names a candidate with its own type |
| FindAll.TextRunEndsAtMatch | DetectStrings/DetectStrings.swift:83-99 | a `.text` span that ends before the end of the text ends where a candidate occurs |
| FindAll.TextHeadNoMatch | DetectStrings/DetectStrings.swift:87-93 | no candidate occurs at any position under a leading `.text` span |
| FindAll.GreedyTextNoMatch | DetectStrings/DetectStrings.swift:87-99 | no candidate occurs at any position under any `.text` span of a greedy partition, located by the payloads before it |
| FindAll.GreedyHeadUnique | DetectStrings/DetectStrings.swift:83-114 | two greedy partitions from the same position start with the same span |
| FindAll.GreedyUnique | DetectStrings/DetectStrings.swift:83-114 | a text has at most one greedy partition for a candidate set |
| FindAll.PendingGreedy | DetectStrings/DetectStrings.swift:96-100 | the pending `.text` run, put before a greedy partition that does not start with `.text`, gives a greedy partition |
| FindAll.MatchGreedy | DetectStrings/DetectStrings.swift:103-113 | the best match, then a greedy partition of the text after it, is a greedy partition |
| FindAll.GreedyAtMatch | DetectStrings/DetectStrings.swift:95-113 | the pending run, the best match, then a greedy partition of the rest, is a greedy partition |
| FindAll.ScanFromNoMatch | DetectStrings/DetectStrings.swift:89-93 | with no match at the cursor, the scan moves on one character and keeps the pending run |
| FindAll.ScanFromMatch | DetectStrings/DetectStrings.swift:95-113 | at a match, the scan emits the pending run and the typed span, then continues after the match with an empty pending run; the match fits in the text |
| FindAll.ScanIsGreedy | DetectStrings/DetectStrings.swift:78-120 | from any loop state whose pending run holds no match, the scan yields the greedy partition of the rest of the text |
| FindAll.ScanIsGreedyNoMatch | DetectStrings/DetectStrings.swift:89-93 | the no-match step of that induction |
| FindAll.ScanIsGreedyMatch | DetectStrings/DetectStrings.swift:95-113 | the match step of that induction |
| FindAll.ScanStepMatch | DetectStrings/DetectStrings.swift:95-113 | at a match, a greedy partition after the match extends to one from the start of the pending run |
| FindAll.NormaliseMembers | DetectStrings/DetectStrings.swift:67-76 | the normalised list holds exactly the candidate set |
| FindAll.FirstCharDiffers | DetectStrings/DetectStrings.swift:87 | a needle does not occur where the text's character differs from its first one |
| FindAll.BlankIsGreedy | DetectStrings/DetectStrings.swift:61-63 | a non-empty text that trims to nothing, as one `.text` span, is the greedy partition, since no trimmed needle occurs in it |
| FindAll.FindAllIsGreedy | DetectStrings/DetectStrings.swift:57-123 | for any text but the empty one, blank texts included, a span list is a greedy partition over the candidate set if and only if it is the result of `findAll` |
| FindAll.ShortcutOnlyEmptyText | DetectStrings/DetectStrings.swift:61-64 | the blank-input shortcut returns the same spans as the scan alone for every text except the empty one, where the two differ |
| FindAll.ScanOrderIndependent | DetectStrings/DetectStrings.swift:71-76 | two sorted lists of the same needles scan every text the same way, so how `sorted` breaks ties does not matter |
| FindAll.FindAllShape | DetectStrings/DetectStrings.swift:57-123 | no two `.text` spans in a row; no empty span for any text but the empty one; every typed span is a trimmed caller needle with its type |
| FindAll.TextSpansUnmatched | DetectStrings/DetectStrings.swift:57-123 | for every text, blank ones included, no candidate occurs at any position inside any `.text` span of the result |
| FindAll.FindAll | DetectStrings/DetectStrings.swift:57-123 | the result is `FindAllSpec`: `[.text(self)]` for blank text, otherwise the scan over the normalised needles; it concatenates back to the text and, for any text but the empty one, is the greedy partition over the candidate set |
| FindAll.ScanAccFrom | DetectStrings/DetectStrings.swift:78-120 | the loop's accumulating form equals the span list built so far followed by the spans `ScanFrom` produces |
| FindAll.ScanAccFromMatch | DetectStrings/DetectStrings.swift:95-113 | the match step of that induction |
| FindAll.ScanAccStep | DetectStrings/DetectStrings.swift:95-113 | one match step of the loop appends the pending run, if any, then the typed span, and moves both cursors past the match |
| FindAll.PendingAppend | DetectStrings/DetectStrings.swift:96-100 | the loop's conditional append of the pending run is appending `Pending` |
| FindAll.ScanAccMatch | DetectStrings/DetectStrings.swift:95-113 | one match step of the loop body keeps the accumulating form in step with `ScanFrom` |
| FindAll.Scan | DetectStrings/DetectStrings.swift:78-120 | the loop keeps `start <= i <= count`, and the array it returns is `ScanFrom(text, sortedNeedles, 0, 0)` |
| FindAllCases.PlainNeedle | DetectStrings/DetectStrings.swift:67-70 | a non-empty needle with no whitespace at its ends is unchanged by trimming |
| FindAllCases.EmptyText | DetectStringsTests/DetectStringsTests.swift:20-23 | `""` with no needles gives `[.text("")]`, which is not the `[]` the test expects |
| FindAllCases.LongestWins | DetectStringsTests/DetectStringsTests.swift:24-27 | for "ABCDEF" with link "ABC" and hashtag "ABCDE", the longer needle wins: `[.hashtag("ABCDE"), .text("F")]` |
| FindAllCases.LongestWinsOrder | DetectStrings/DetectStrings.swift:71-76 | normalising those two needles puts the longer one first |
| FindAllCases.SortPair | DetectStrings/DetectStrings.swift:71-76 | two needles given in the wrong order come out swapped |
| FindAllCases.LongestWinsScan | DetectStringsTests/DetectStringsTests.swift:24-27 | the scan of "ABCDEF" over the sorted pair gives the expected spans |
| FindAllCases.ScanNoMatchRun | DetectStrings/DetectStrings.swift:89-120 | with no match from the cursor to the end, the scan emits just the pending run |
| FindAllCases.WholeTextIsNeedle | DetectStringsTests/DetectStringsTests.swift:40-43 | "ABC" with link "ABC" gives `[.link("ABC")]` |
| FindAllCases.TextSpanGreedy | DetectStrings/DetectStrings.swift:89-100 | a run of characters none of which starts a candidate, as a `.text` span before a greedy partition that does not start with `.text`, gives a greedy partition |
| FindAllCases.NeedleSpanGreedy | DetectStrings/DetectStrings.swift:103-113 | the best candidate at a position, before a greedy partition of the text after it, gives a greedy partition |
| FindAllCases.RepeatedPrefix | DetectStringsTests/DetectStringsTests.swift:28-31 | "Test ABC ABC ABC" with link "ABC" cuts into "Test ", then "ABC", " ", "ABC", " ", "ABC", whatever greedy partition follows |
| FindAllCases.RepeatedNeedle | DetectStringsTests/DetectStringsTests.swift:28-31 | "Test ABC ABC ABC" with link "ABC" gives `[.text("Test "), .link("ABC"), .text(" "), .link("ABC"), .text(" "), .link("ABC")]` |
| FindAllCases.RepeatedNeedleTrailingSpace | DetectStringsTests/DetectStringsTests.swift:32-35 | "Test ABC ABC ABC " gives the same six spans followed by `.text(" ")` |
| FindAllCases.RepeatedNeedleCaseSensitive | DetectStringsTests/DetectStringsTests.swift:36-39 | "Test ABC ABC ABC abc" gives the same six spans followed by `.text(" abc")`: matching is case-sensitive |
| FindAllCases.RepeatedWithTail | DetectStringsTests/DetectStringsTests.swift:32-39 | "Test ABC ABC ABC" followed by any non-empty text without an upper-case A gives the six spans, then that text as one `.text` span |
| FindAllCases.PriorityWins | DetectStrings/DetectStrings.swift:71-76 | for "ABCDEF" with hashtag and link "ABC" and link and user "DEF", equal lengths are settled by type: `[.link("ABC"), .user("DEF")]` |
| FindAllCases.NoNeedles | DetectStrings/DetectStrings.swift:83-120 | with no needles, "abc" is one `.text` span |
| FindAllCases.BlankNeedleIgnored | DetectStrings/DetectStrings.swift:67-69 | a needle that trims to nothing is dropped, so "A B" with needle " " stays one `.text` span |

## Left out

- Grapheme clusters: a Swift `Character` can be several code points ("\r\n", a letter with combining marks), and `hasPrefix` compares up to canonical equivalence. The model treats one `char` as one `Character` and compares exactly, so it does not capture segmentation or normalisation.
- `CharacterSet.whitespacesAndNewlines` and `trimmingCharacters(in:)` are Foundation calls. `IsWhitespace` approximates the library's table by a fixed set of code points (U+0009 to U+000D, U+0085 and the Zs, Zl and Zp characters). Characters on which the two may disagree, such as U+200B, are not modelled.
- The custom `hash(into:)` (`DetectStrings/DetectStrings.swift:28-43`) is not modelled. `Hasher` is opaque. Structural equality of the Dafny datatype gives the same notion of equality: same variant, same payload.
- The `Comparable` conformance of `DetectionResult` is declared but never used, so it is not modelled.
- Swift's `sorted` is modelled as an insertion sort. Its stability and its actual algorithm are not captured. `ScanOrderIndependent` and `FindAllIsGreedy` show that any sorted order of the same needles gives the same result.
- The `type` field of `Needle` is called `kind`, because `type` is reserved in Dafny.
- Performance, such as the cost of `index(offsetBy:)` and the repeated prefix tests, is not modelled.
- `DetectStringsTests.swift` is an XCTest harness with `print` output, so it is not modelled. Each of its six cases appears as a lemma in `FindAllCases`.
