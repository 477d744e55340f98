# Split text: a verified model

`SplitText` is a React component that breaks its children into small
wrapper elements ("fragments", usually one per word) so that a stylesheet
can animate them word by word and line by line. Two pieces of it carry the
logic, and this project models and proves both:

- **The splitter** (`splitter.dfy`, module `Splitter`). Each child is
  turned into fragments. A primitive child (string, number or boolean) is
  converted to text, trimmed, each white-space run that contains a CR or LF
  is replaced by the separator (a single space unless the component is
  given one), and the result is split on the separator; fragment `i` of
  that child is keyed `i`. Any other child becomes one fragment that wraps
  it unchanged, keyed by its sibling position. The text operations are
  modelled with their JavaScript meaning: `trim`, a global `replace` of
  `\s*[\r\n]\s*` (leftmost, greedy matches: a match is always a whole
  white-space run, and a run is replaced exactly when it holds a CR or LF;
  the separator is a replacement string, so its `$$`, `$&`, `` $` `` and
  `$'` patterns are expanded), and `split`/`join` on a string separator (leftmost non-overlapping
  occurrences; `"".split(sep)` is `[""]`; the empty separator gives one
  piece per character).
- **The line-index resolver** (`line_resolver.dfy`, module `LineResolver`).
  Once the fragments are laid out, a loop walks them in document order,
  reads each one's top-edge Y and writes four presentation properties on
  it: its line index, its global word index, its index within its line,
  and a ready flag. `LineResolver.Resolve` is that loop, over an array of
  per-fragment styles, proved against the specification function
  `LineResolver.Tagged`; the measured Ys are a sequence of integers, since
  the code only compares them with `<`.

`wrappers.dfy` holds the `Option` type both modules use.

The line-word index of the very first fragment is 1, not 0. The resolver
seeds `lastY` with the first fragment's own Y, so the first fragment fails
the "strictly below the previous Y" test and takes the "same line" branch,
which increments the counter from 0 to 1. The first line therefore counts
its words from 1 and every later line from 0, so a 0-based count was
evidently meant. The model follows the code as written:
`LineResolver.LineWordIndexStep`, `LineResolver.LineWordIndexZeroIff` and
`LineResolver.TwoLinesExample` state the value 1 for the first fragment.

## Model

| member | source | states |
|---|---|---|
| LineResolver.Resolve | text-split.tsx:32-55 | one run of the loop leaves every fragment's style equal to `Tagged(ys, old styles)`: fragment k gets line index `LineIndexOf(ys, k)`, word index k, line-word index `LineWordIndexOf(ys, k)` and ready, and keeps its other state |
| LineResolver.LineStart | text-split.tsx:41-46 | the first fragment of k's line lies at or before k, is fragment 0 or starts a line, and no fragment after it up to k starts a line |
| LineResolver.LineIndexStep | text-split.tsx:41-53 | the line index goes up by exactly one at fragment k iff its Y is strictly greater than fragment k-1's, and stays the same iff it is not greater |
| LineResolver.LineIndexMonotone | text-split.tsx:32-43 | the line index starts at 0, never decreases, and grows by at most one per fragment |
| LineResolver.SameLineIff | text-split.tsx:41-53 | two fragments share a line index iff no fragment between them starts a line |
| LineResolver.LineWordIndexStep | text-split.tsx:34-46 | the first fragment gets line-word index 1; a later one gets 0 when it starts a line and its predecessor's value plus one otherwise |
| LineResolver.LineWordIndexZeroIff | text-split.tsx:34-46 | the line-word index is 0 exactly at the fragments that start a line, so never at the first fragment |
| LineResolver.LineWordIndexIsPositionInLine | text-split.tsx:41-46 | the line-word index is the distance from the first fragment of the line (which has the same line index, and a larger one than the fragment before it), plus one on line 0 |
| LineResolver.TaggedTagsEveryChild | text-split.tsx:37-54 | every fragment is tagged: fragment k has word index k, its line index, its line-word index and ready set, and its transition-end flag unchanged |
| LineResolver.TagsIgnoreEarlierTags | text-split.tsx:32-35 | the tags of a run do not depend on tags left by an earlier run, since the counters and `lastY` start afresh |
| LineResolver.RerunIsIdempotent | text-split.tsx:32-35 | running the resolver again on the same Ys changes nothing |
| LineResolver.TwoLinesExample | text-split.tsx:32-55 | for Ys 10,10,10,30,30,30 the line indices are 0,0,0,1,1,1 and line-word indices count 1..3 on line 0 and 0..2 on line 1 |
| Splitter.RunEnd | text-split.tsx:80-81 | the white-space run from p ends at the first non-white-space position at or after p, or at the end |
| Splitter.TrimmedEnd | text-split.tsx:80 | dropping trailing white space from `s[lo..q]` stops at `lo` or after a non-white-space character, and drops only white space |
| Splitter.Trim | text-split.tsx:80 | `trim()` leaves a text that neither starts nor ends with white space, and is empty exactly when the input is all white space |
| Splitter.TrimIsSlice | text-split.tsx:80 | `trim()` removes only white space, from the two ends |
| Splitter.TrimKeepsUnpadded | text-split.tsx:80 | a text with no white space at either end is its own trim |
| Splitter.TrimIdempotent | text-split.tsx:80 | trimming twice is trimming once |
| Splitter.BreakRunAtIsGreedyMatch | text-split.tsx:81 | the scan finds a match at p exactly when `\s*[\r\n]\s*` (white space, a CR or LF, white space) matches some `s[p..e]`, and then it is the longest such match, as the greedy quantifiers make it |
| Splitter.MatchWithinRun | text-split.tsx:81 | every match of the pattern from p lies inside the white-space run from p, and that run holds a CR or LF |
| Splitter.SubstituteLiteral | text-split.tsx:81 | a separator without `$` is inserted as it is |
| Splitter.SubstitutionPatterns | text-split.tsx:81 | in the separator `$$` becomes `$`, `$&` the matched text, `` $` `` the text before the match and `$'` the text after it, while `$1` stays as it is since the pattern has no capture groups |
| Splitter.MatchPatternKeepsText | text-split.tsx:81 | with the separator `$&` every match is put back, so the text comes out unchanged, line breaks included |
| Splitter.LineBreakStartsMatch | text-split.tsx:81 | a CR or LF always starts a match |
| Splitter.CollapseRemovesLineBreaks | text-split.tsx:81 | with a separator free of CR, LF and `$`, no CR or LF is left after the replace |
| Splitter.CollapseKeepsPlainText | text-split.tsx:81 | a text without CR or LF comes out of the replace unchanged, white space included |
| Splitter.ReplaceBreaksCopiesWord | text-split.tsx:81 | a stretch without white space is copied through the replace as it is |
| Splitter.CollapseWordGapWord | text-split.tsx:81 | a word, a white-space gap holding a line break, and a word become the two words with the expanded separator between them |
| Splitter.IndexOf | text-split.tsx:82 | the position found holds the separator and lies at or after the start |
| Splitter.IndexOfIsFirst | text-split.tsx:82 | the separator occurs nowhere between the start and the position found, and nowhere at all when none is found |
| Splitter.SplitFrom | text-split.tsx:82 | splitting with a non-empty separator gives at least one piece |
| Splitter.SplitJoin | text-split.tsx:82 | with a non-empty separator, joining the pieces with it gives the text back, no piece contains it, and there is one piece more than its non-overlapping occurrences |
| Splitter.SplitEmpty | text-split.tsx:82 | the empty text splits into one empty piece |
| Splitter.SplitEmptySeparator | text-split.tsx:82 | with the empty separator there is one piece per character, and joining them gives the text back |
| Splitter.SplitAtOnlyOccurrence | text-split.tsx:82 | a text with exactly one occurrence of the separator splits into the parts before and after it |
| Splitter.WordsRoundTrip | text-split.tsx:80-82 | a primitive child's words, joined with the separator, give its trimmed and collapsed text; no word holds the separator; there is one word more than separators in that text |
| Splitter.BlankTextOneEmptyWord | text-split.tsx:80-83 | an empty or all-white-space text gives exactly one, empty, word |
| Splitter.WordsOfPlainLine | text-split.tsx:80-82 | a one-line text with no white space at its ends is split as it is |
| Splitter.DigitsSpellNumber | text-split.tsx:79 | the digits of n are decimal digits whose value is n, with no leading zero |
| Splitter.NumberTextSpellsNumber | text-split.tsx:79 | a number's text starts with `-` exactly when the number is negative, and the rest is the decimal digits of its magnitude, with no leading zero |
| Splitter.NumberTextIsPlain | text-split.tsx:79 | a number's text is a sign and digits only |
| Splitter.NumberWords | text-split.tsx:78-82 | a number child is split on its text as it is, with nothing trimmed or collapsed |
| Splitter.SplitTwoWords | text-split.tsx:82 | two words joined by one space split on the default separator into those two words |
| Splitter.TwoWordsOnOneLine | text-split.tsx:79-83 | a text of two words with a space between them gives those two words |
| Splitter.TwoWordsAcrossLineBreak | text-split.tsx:79-83 | two words with a gap of white space holding a line break between them give those two words |
| Splitter.SplitChildShape | text-split.tsx:76-104 | a non-primitive child gives one fragment wrapping it, keyed by its sibling index; a primitive child gives its words in order, fragment i keyed i, at least one of them and one more than the separators when the separator is non-empty |
| Splitter.SplitChildrenPrefix | text-split.tsx:76-106 | the fragments of the first j children come first, unchanged by later children |
| Splitter.SplitChildrenBlock | text-split.tsx:76-106 | the fragments of child i form one contiguous block, right after those of the children before it, equal to the child's own fragments, so no split crosses a sibling boundary |
| Splitter.SplitChildrenCount | text-split.tsx:76-106 | with a non-empty separator there are at least as many fragments as children |
| Splitter.DefaultSeparatorTwoWords | text-split.tsx:76-93 | with no separator given, one text child of two space-separated words gives fragments keyed 0 and 1 holding those words |

## Left out

- Rendering: the JSX, `classNames`, the CSS module, and the `role` and `aria-hidden` attributes (text-split.tsx:68-74, 85-92). They are presentation only.
- `useInView` (text-split.tsx:21, 24). Viewport intersection is done by a foreign library. Being in view is taken as the condition under which `Resolve` runs at all.
- The 200 ms `setTimeout` debounce and the `resize` listener's lifecycle (text-split.tsx:28-31, 56-65). These are timers and events, not sequential logic; each call of `Resolve` is one timer firing.
- `getBoundingClientRect` (text-split.tsx:35, 39). Layout measurement is replaced by the input sequence of Ys. The code only compares them with `<`, so integers stand for the floating-point values.
- The case where the container is unmounted (`ref.current` null at text-split.tsx:35): the loop then has no children and writes nothing. This path is not modelled.
- The container with no children: `children[0]` is undefined there and the read at text-split.tsx:35 throws. `Resolve` requires at least one Y instead of modelling the exception.
- The style writes are stored as natural numbers and booleans, not the strings `setProperty` receives (text-split.tsx:48-51).
- The transition-end handler that sets `--complete` (text-split.tsx:15-17) is not modelled as an operation. Its flag is a field of `Style` that the resolver is proved to leave unchanged.
- Splitter.CollapseRemovesLineBreaks: holds only for a separator without `$`. A separator holding `$&`, `` $` `` or `$'` puts text of the child back in place of each match, line breaks included, as `Splitter.MatchPatternKeepsText` shows for `$&`.
- Splitter.NumberText: models `toString()` only for integers. Fractions, exponent notation, `NaN` and `Infinity` are not modelled.
- Splitter.Split: with the empty separator it gives one piece per Unicode scalar value, where JavaScript gives one per UTF-16 code unit. Characters outside the Basic Multilingual Plane therefore differ.
- Splitter.IsWhitespace: a fixed set of characters that matches ECMAScript's white space and line terminators for `\s` and `trim`. It is not tied to a particular Unicode version's space separators.
- `Children.map`'s own normalisation of children is not modelled. In React a boolean, `null` or `undefined` child reaches the callback as `null`, nested arrays are flattened, and keys get prefixes. The model takes the children as a flat sequence and follows the callback's own `typeof` test, so a boolean child gives the text `true` or `false`.
