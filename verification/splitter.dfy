/**
 * The splitter of the split-text component: it turns the component's children
 * into the ordered fragments that become one wrapper element each. A
 * primitive child (string, number or boolean) is rendered to text, trimmed,
 * each whitespace run that holds a line break is collapsed into the
 * separator, and the text is split on the separator; every other child is
 * wrapped whole.
 */
module Splitter {
  import opened Wrappers

  /** The separator used when the component is given none. */
  const DefaultSeparator: string := " "

  // ---------------------------------------------------------------------
  // Characters
  // ---------------------------------------------------------------------

  /**
   * The characters JavaScript's `trim` removes and `\s` matches: tab, line
   * feed, vertical tab, form feed, carriage return, space, and the Unicode
   * space separators, line terminators and byte-order mark.
   */
  predicate IsWhitespace(c: char) {
    || c == ' ' || ('\t' <= c <= '\r')
    || c == '\U{00A0}' || c == '\U{1680}' || ('\U{2000}' <= c <= '\U{200A}')
    || c == '\U{2028}' || c == '\U{2029}' || c == '\U{202F}' || c == '\U{205F}'
    || c == '\U{3000}' || c == '\U{FEFF}'
  }

  /** The characters of the class `[\r\n]`. */
  predicate IsLineBreak(c: char) {
    c == '\r' || c == '\n'
  }

  predicate AllWhitespace(s: string) {
    forall i :: 0 <= i < |s| ==> IsWhitespace(s[i])
  }

  predicate NoWhitespace(s: string) {
    forall i :: 0 <= i < |s| ==> !IsWhitespace(s[i])
  }

  predicate HasLineBreak(s: string) {
    exists i :: 0 <= i < |s| && IsLineBreak(s[i])
  }

  /** Every character of `s` from position i up to j is white space. */
  predicate WhitespaceBetween(s: string, i: nat, j: nat)
    requires i <= j <= |s|
  {
    forall k :: i <= k < j ==> IsWhitespace(s[k])
  }

  /** No character of `s` from position i up to j is white space. */
  predicate NoWhitespaceBetween(s: string, i: nat, j: nat)
    requires i <= j <= |s|
  {
    forall k :: i <= k < j ==> !IsWhitespace(s[k])
  }

  /** Some character of `s` from position i up to j is a CR or LF. */
  predicate LineBreakBetween(s: string, i: nat, j: nat)
    requires i <= j <= |s|
  {
    exists k :: i <= k < j && IsLineBreak(s[k])
  }

  // ---------------------------------------------------------------------
  // trim()
  // ---------------------------------------------------------------------

  /**
   * The end of the longest run of white space that starts at position p:
   * the first position at or after p that holds no white space, or |s|.
   */
  function RunEnd(s: string, p: nat): (e: nat)
    requires p <= |s|
    ensures p <= e <= |s|
    ensures WhitespaceBetween(s, p, e)
    ensures e == |s| || !IsWhitespace(s[e])
    decreases |s| - p
  {
    if p < |s| && IsWhitespace(s[p]) then RunEnd(s, p + 1) else p
  }

  /** Where `s[lo..q]` ends once its trailing white space is dropped. */
  function TrimmedEnd(s: string, lo: nat, q: nat): (j: nat)
    requires lo <= q <= |s|
    ensures lo <= j <= q
    ensures WhitespaceBetween(s, j, q)
    ensures j == lo || !IsWhitespace(s[j - 1])
    decreases q
  {
    if lo < q && IsWhitespace(s[q - 1]) then TrimmedEnd(s, lo, q - 1) else q
  }

  /**
   * `s` without its leading and trailing white space: it neither starts nor
   * ends with white space, and it is empty exactly when `s` is all white
   * space.
   */
  function Trim(s: string): (r: string)
    ensures r == [] || (!IsWhitespace(r[0]) && !IsWhitespace(r[|r| - 1]))
    ensures r == [] <==> AllWhitespace(s)
  {
    var i := RunEnd(s, 0);
    s[i..TrimmedEnd(s, i, |s|)]
  }

  // ---------------------------------------------------------------------
  // replace(/\s*[\r\n]\s*/g, separator)
  // ---------------------------------------------------------------------

  /**
   * `s[p..e]` is a match of `\s*[\r\n]\s*`: white space, a CR or LF at some
   * position u, and white space again.
   */
  predicate PatternMatch(s: string, p: nat, e: nat)
    requires p <= e <= |s|
  {
    exists u :: p <= u < e && WhitespaceBetween(s, p, u) && IsLineBreak(s[u]) && WhitespaceBetween(s, u + 1, e)
  }

  /**
   * Where the match of `\s*[\r\n]\s*` that starts at position p ends, if one
   * does. The greedy first `\s*` backs off to the last line break of the
   * white-space run from p and the second `\s*` takes the rest of the run, so
   * the match is the whole run (`BreakRunAtIsGreedyMatch`).
   */
  function BreakRunAt(s: string, p: nat): (m: Option<nat>)
    requires p <= |s|
    ensures m.Some? ==> p < m.value <= |s|
  {
    var e := RunEnd(s, p);
    if LineBreakBetween(s, p, e) then Some(e) else None
  }

  /**
   * The text a match `s[p..e]` is replaced with: the replacement string `rep`
   * with `replace`'s substitution patterns expanded. `$$` is a dollar sign,
   * `$&` the match, `` $` `` the text before it and `$'` the text after it;
   * the pattern has no capture groups, so every other `$` stands for itself.
   */
  function Substitute(rep: string, s: string, p: nat, e: nat): string
    requires p <= e <= |s|
    decreases |rep|
  {
    if rep == [] then []
    else if rep[0] == '$' && |rep| >= 2 && rep[1] == '$' then "$" + Substitute(rep[2..], s, p, e)
    else if rep[0] == '$' && |rep| >= 2 && rep[1] == '&' then s[p..e] + Substitute(rep[2..], s, p, e)
    else if rep[0] == '$' && |rep| >= 2 && rep[1] == '`' then s[..p] + Substitute(rep[2..], s, p, e)
    else if rep[0] == '$' && |rep| >= 2 && rep[1] == '\'' then s[e..] + Substitute(rep[2..], s, p, e)
    else [rep[0]] + Substitute(rep[1..], s, p, e)
  }

  /** The global replace, scanning the original text `s` left to right from position p. */
  function ReplaceBreaksFrom(s: string, sep: string, p: nat): string
    requires p <= |s|
    decreases |s| - p
  {
    if p == |s| then []
    else match BreakRunAt(s, p)
      case Some(e) => Substitute(sep, s, p, e) + ReplaceBreaksFrom(s, sep, e)
      case None => [s[p]] + ReplaceBreaksFrom(s, sep, p + 1)
  }

  /** `s` with every white-space run that holds a CR or LF replaced by the replacement string `sep`. */
  function CollapseBreaks(s: string, sep: string): string {
    ReplaceBreaksFrom(s, sep, 0)
  }

  // ---------------------------------------------------------------------
  // split(separator) and join(separator)
  // ---------------------------------------------------------------------

  /** `sep` occurs in `s` at position r. */
  predicate OccursAt(s: string, sep: string, r: int) {
    0 <= r && r + |sep| <= |s| && forall i :: 0 <= i < |sep| ==> s[r + i] == sep[i]
  }

  predicate Contains(s: string, sep: string) {
    exists r :: 0 <= r <= |s| && OccursAt(s, sep, r)
  }

  /** The first position at or after `from` where `sep` occurs in `s`, if any. */
  function IndexOf(s: string, sep: string, from: nat): (r: Option<nat>)
    requires from <= |s|
    ensures r.Some? ==> from <= r.value && OccursAt(s, sep, r.value)
    decreases |s| - from
  {
    if |s| < from + |sep| then None
    else if OccursAt(s, sep, from) then Some(from)
    else IndexOf(s, sep, from + 1)
  }

  /** The pieces of `s[from..]` between the successive leftmost occurrences of `sep`. */
  function SplitFrom(s: string, sep: string, from: nat): (parts: seq<string>)
    requires 0 < |sep| && from <= |s|
    ensures |parts| >= 1
    decreases |s| - from
  {
    match IndexOf(s, sep, from)
    case None => [s[from..]]
    case Some(q) => [s[from..q]] + SplitFrom(s, sep, q + |sep|)
  }

  /**
   * JavaScript's `s.split(sep)`: with a non-empty separator, the pieces
   * between its occurrences; with the empty separator, one piece per
   * character.
   */
  function Split(s: string, sep: string): seq<string> {
    if sep == [] then seq(|s|, i requires 0 <= i < |s| => [s[i]])
    else SplitFrom(s, sep, 0)
  }

  /** JavaScript's `parts.join(sep)`. */
  function Join(parts: seq<string>, sep: string): string {
    if |parts| == 0 then []
    else if |parts| == 1 then parts[0]
    else parts[0] + sep + Join(parts[1..], sep)
  }

  /** The number of non-overlapping occurrences of `sep` in `s[p..]`, found scanning left to right. */
  function CountFrom(s: string, sep: string, p: nat): nat
    requires 0 < |sep| && p <= |s|
    decreases |s| - p
  {
    if |s| < p + |sep| then 0
    else if OccursAt(s, sep, p) then 1 + CountFrom(s, sep, p + |sep|)
    else CountFrom(s, sep, p + 1)
  }

  function Occurrences(s: string, sep: string): nat
    requires 0 < |sep|
  {
    CountFrom(s, sep, 0)
  }

  // ---------------------------------------------------------------------
  // Children and fragments
  // ---------------------------------------------------------------------

  /** A child of the component: a primitive value, or any other (opaque) node. */
  datatype Child<E> = Str(text: string) | Num(value: int) | Bool(flag: bool) | Element(node: E)

  /** What a fragment wrapper holds: a piece of text, or a child left as it is. */
  datatype Content<E> = Text(text: string) | Wrapped(node: E)

  /** One wrapper element and its key. */
  datatype Fragment<E> = Fragment(key: nat, content: Content<E>)

  /** The decimal digits of n, most significant first. */
  function Digits(n: nat): (r: string)
    ensures |r| >= 1
    ensures forall i :: 0 <= i < |r| ==> '0' <= r[i] <= '9'
  {
    if n < 10 then ['0' + n as char]
    else Digits(n / 10) + ['0' + (n % 10) as char]
  }

  predicate IsDigits(r: string) {
    forall i :: 0 <= i < |r| ==> '0' <= r[i] <= '9'
  }

  /** The number a string of decimal digits spells, most significant first. */
  function DigitsValue(r: string): nat
    requires IsDigits(r)
  {
    if r == [] then 0
    else DigitsValue(r[..|r| - 1]) * 10 + (r[|r| - 1] as int - '0' as int)
  }

  /** `toString()` of an integer. */
  function NumberText(n: int): string {
    if n < 0 then "-" + Digits(-n) else Digits(n)
  }

  /** `toString()` of a primitive child. */
  function PrimitiveText<E>(c: Child<E>): string
    requires !c.Element?
  {
    match c
    case Str(t) => t
    case Num(n) => NumberText(n)
    case Bool(b) => if b then "true" else "false"
  }

  /** The words of a primitive child's text: trimmed, line breaks collapsed, split. */
  function Words(text: string, sep: string): seq<string> {
    Split(CollapseBreaks(Trim(text), sep), sep)
  }

  /** The fragments of the child at sibling position `index`. */
  function SplitChild<E>(c: Child<E>, index: nat, sep: string): seq<Fragment<E>> {
    if c.Element? then [Fragment(index, Wrapped(c.node))]
    else
      var w := Words(PrimitiveText(c), sep);
      seq(|w|, i requires 0 <= i < |w| => Fragment(i, Text(w[i])))
  }

  /** Every child's fragments, in sibling order. */
  function SplitChildren<E>(cs: seq<Child<E>>, sep: string): seq<Fragment<E>>
    decreases |cs|
  {
    if cs == [] then []
    else SplitChildren(cs[..|cs| - 1], sep) + SplitChild(cs[|cs| - 1], |cs| - 1, sep)
  }

  /** The component's fragments, with the separator defaulting to a single space. */
  function SplitText<E>(cs: seq<Child<E>>, separator: Option<string>): seq<Fragment<E>> {
    SplitChildren(cs, separator.GetOr(DefaultSeparator))
  }

  /** The texts of fragments that all hold text. */
  function Texts<E>(frags: seq<Fragment<E>>): seq<string>
    requires forall i :: 0 <= i < |frags| ==> frags[i].content.Text?
  {
    seq(|frags|, i requires 0 <= i < |frags| => frags[i].content.text)
  }

  // ---------------------------------------------------------------------
  // Properties of trim and of the line-break collapse
  // ---------------------------------------------------------------------

  /**
   * `Trim(s)` is the slice of `s` left when the white space before position i
   * and after position j is removed.
   */
  lemma TrimIsSlice(s: string)
    ensures exists i, j ::
              && 0 <= i <= j <= |s| && Trim(s) == s[i..j]
              && WhitespaceBetween(s, 0, i) && WhitespaceBetween(s, j, |s|)
  {
    var i := RunEnd(s, 0);
    var j := TrimmedEnd(s, i, |s|);
    assert Trim(s) == s[i..j];
  }

  /** A text that neither starts nor ends with white space is its own trim. */
  lemma TrimKeepsUnpadded(s: string)
    requires s == [] || (!IsWhitespace(s[0]) && !IsWhitespace(s[|s| - 1]))
    ensures Trim(s) == s
  {
    assert RunEnd(s, 0) == 0;
    assert TrimmedEnd(s, 0, |s|) == |s|;
    assert s[0..|s|] == s;
  }

  /** Trimming twice trims no more than trimming once. */
  lemma TrimIdempotent(s: string)
    ensures Trim(Trim(s)) == Trim(s)
  {
    TrimKeepsUnpadded(Trim(s));
  }

  /** A CR or LF at p always starts a match of the collapse. */
  lemma LineBreakStartsMatch(s: string, p: nat)
    requires p < |s|
    ensures IsLineBreak(s[p]) ==> BreakRunAt(s, p).Some?
  {
    if IsLineBreak(s[p]) {
      assert RunEnd(s, p) > p;
      assert LineBreakBetween(s, p, RunEnd(s, p));
    }
  }

  lemma HasLineBreakConcat(a: string, b: string)
    ensures HasLineBreak(a + b) <==> HasLineBreak(a) || HasLineBreak(b)
  {
    if HasLineBreak(a + b) {
      var i :| 0 <= i < |a + b| && IsLineBreak((a + b)[i]);
      if i >= |a| { assert IsLineBreak(b[i - |a|]); }
    }
    if HasLineBreak(a) {
      var i :| 0 <= i < |a| && IsLineBreak(a[i]);
      assert (a + b)[i] == a[i];
    }
    if HasLineBreak(b) {
      var i :| 0 <= i < |b| && IsLineBreak(b[i]);
      assert (a + b)[|a| + i] == b[i];
    }
  }

  /**
   * With a separator free of CR and LF, no CR or LF survives the collapse:
   * every one of them lies in a white-space run that is replaced.
   */
  lemma {:induction false} ReplaceBreaksRemovesLineBreaks(s: string, sep: string, p: nat)
    requires p <= |s|
    requires !HasLineBreak(sep) && '$' !in sep
    ensures !HasLineBreak(ReplaceBreaksFrom(s, sep, p))
    decreases |s| - p
  {
    if p < |s| {
      match BreakRunAt(s, p)
      case Some(e) =>
        SubstituteLiteral(sep, s, p, e);
        ReplaceBreaksRemovesLineBreaks(s, sep, e);
        HasLineBreakConcat(sep, ReplaceBreaksFrom(s, sep, e));
      case None =>
        LineBreakStartsMatch(s, p);
        ReplaceBreaksRemovesLineBreaks(s, sep, p + 1);
        HasLineBreakConcat([s[p]], ReplaceBreaksFrom(s, sep, p + 1));
    }
  }

  lemma CollapseRemovesLineBreaks(s: string, sep: string)
    requires !HasLineBreak(sep) && '$' !in sep
    ensures !HasLineBreak(CollapseBreaks(s, sep))
  {
    ReplaceBreaksRemovesLineBreaks(s, sep, 0);
  }

  /** Text without CR or LF goes through the collapse unchanged, even its white space. */
  lemma {:induction false} ReplaceBreaksKeepsPlainText(s: string, sep: string, p: nat)
    requires p <= |s|
    requires !HasLineBreak(s)
    ensures ReplaceBreaksFrom(s, sep, p) == s[p..]
    decreases |s| - p
  {
    if p < |s| {
      assert BreakRunAt(s, p).None?;
      ReplaceBreaksKeepsPlainText(s, sep, p + 1);
      assert s[p..] == [s[p]] + s[p + 1..];
    }
  }

  lemma CollapseKeepsPlainText(s: string, sep: string)
    requires !HasLineBreak(s)
    ensures CollapseBreaks(s, sep) == s
  {
    ReplaceBreaksKeepsPlainText(s, sep, 0);
  }

  /** The collapse copies a stretch without white space as it is. */
  lemma {:induction false} ReplaceBreaksCopiesWord(s: string, sep: string, p: nat, q: nat)
    requires p <= q <= |s|
    requires NoWhitespaceBetween(s, p, q)
    ensures ReplaceBreaksFrom(s, sep, p) == s[p..q] + ReplaceBreaksFrom(s, sep, q)
    decreases q - p
  {
    if p < q {
      ReplaceBreaksCopiesWord(s, sep, p + 1, q);
      CopyStep(s, sep, p, q);
    }
  }

  /** One more character of the stretch: the copy of `s[p + 1..q]` extends to `s[p..q]`. */
  lemma CopyStep(s: string, sep: string, p: nat, q: nat)
    requires p < q <= |s| && !IsWhitespace(s[p])
    requires ReplaceBreaksFrom(s, sep, p + 1) == s[p + 1..q] + ReplaceBreaksFrom(s, sep, q)
    ensures ReplaceBreaksFrom(s, sep, p) == s[p..q] + ReplaceBreaksFrom(s, sep, q)
  {
    CopiesPlainCharacter(s, sep, p);
    assert s[p..q] == [s[p]] + s[p + 1..q];
    ConcatAssoc([s[p]], s[p + 1..q], ReplaceBreaksFrom(s, sep, q));
  }

  /** A character that is not white space starts no match and is copied. */
  lemma CopiesPlainCharacter(s: string, sep: string, p: nat)
    requires p < |s| && !IsWhitespace(s[p])
    ensures ReplaceBreaksFrom(s, sep, p) == [s[p]] + ReplaceBreaksFrom(s, sep, p + 1)
  {
    assert RunEnd(s, p) == p;
    assert BreakRunAt(s, p) == None;
  }

  lemma ConcatAssoc(a: string, b: string, c: string)
    ensures a + (b + c) == (a + b) + c
  {
  }

  // ---------------------------------------------------------------------
  // Properties of split and join
  // ---------------------------------------------------------------------

  /** `IndexOf` finds the first occurrence: none lies between `from` and it, and none at all when it finds nothing. */
  lemma {:induction false} IndexOfIsFirst(s: string, sep: string, from: nat)
    requires from <= |s|
    ensures var r := IndexOf(s, sep, from);
      && (r.Some? ==> forall q :: from <= q < r.value ==> !OccursAt(s, sep, q))
      && (r.None? ==> forall q :: from <= q ==> !OccursAt(s, sep, q))
    decreases |s| - from
  {
    if from + |sep| <= |s| && !OccursAt(s, sep, from) {
      IndexOfIsFirst(s, sep, from + 1);
    }
  }

  /** Joining the pieces with the separator gives back the text split. */
  lemma {:induction false} SplitFromJoin(s: string, sep: string, from: nat)
    requires 0 < |sep| && from <= |s|
    ensures Join(SplitFrom(s, sep, from), sep) == s[from..]
    decreases |s| - from
  {
    var r := IndexOf(s, sep, from);
    if r.None? {
      assert SplitFrom(s, sep, from) == [s[from..]];
    } else {
      var q := r.value;
      var rest := SplitFrom(s, sep, q + |sep|);
      assert SplitFrom(s, sep, from) == [s[from..q]] + rest;
      var tail := Join(rest, sep);
      assert Join(SplitFrom(s, sep, from), sep) == s[from..q] + sep + tail by {
        JoinCons(s[from..q], rest, sep);
      }
      assert tail == s[q + |sep|..] by {
        SplitFromJoin(s, sep, q + |sep|);
      }
      assert s[q..q + |sep|] == sep by {
        OccurrenceIsSlice(s, sep, q);
      }
      SliceAt(s, from, q, q + |sep|);
    }
  }

  lemma JoinCons(x: string, rest: seq<string>, sep: string)
    requires |rest| >= 1
    ensures Join([x] + rest, sep) == x + sep + Join(rest, sep)
  {
    assert ([x] + rest)[1..] == rest;
  }

  lemma OccurrenceIsSlice(s: string, sep: string, r: nat)
    requires OccursAt(s, sep, r)
    ensures s[r..r + |sep|] == sep
  {
  }

  lemma SliceAt(s: string, i: nat, j: nat, k: nat)
    requires i <= j <= k <= |s|
    ensures s[i..] == s[i..j] + s[j..k] + s[k..]
  {
  }

  /** A piece of `s[a..b]` that holds the separator puts it in `s` itself, between a and b. */
  lemma OccursInSlice(s: string, sep: string, a: nat, b: nat, r: int)
    requires a <= b <= |s|
    requires OccursAt(s[a..b], sep, r)
    ensures OccursAt(s, sep, a + r) && a + r + |sep| <= b
  {
    forall i | 0 <= i < |sep|
      ensures s[a + r + i] == sep[i]
    {
      assert s[a..b][r + i] == s[a + r + i];
    }
  }

  /** A stretch of `s` in which the separator starts nowhere does not contain it. */
  lemma NotContainedBetween(s: string, sep: string, a: nat, b: nat)
    requires 0 < |sep| && a <= b <= |s|
    requires forall r :: a <= r < b ==> !OccursAt(s, sep, r)
    ensures !Contains(s[a..b], sep)
  {
    if Contains(s[a..b], sep) {
      var r :| 0 <= r <= |s[a..b]| && OccursAt(s[a..b], sep, r);
      OccursInSlice(s, sep, a, b, r);
    }
  }

  /** No piece holds the separator. */
  lemma {:induction false} SplitFromPiecesAreFree(s: string, sep: string, from: nat)
    requires 0 < |sep| && from <= |s|
    ensures forall i :: 0 <= i < |SplitFrom(s, sep, from)| ==> !Contains(SplitFrom(s, sep, from)[i], sep)
    decreases |s| - from
  {
    var r := IndexOf(s, sep, from);
    if r.None? {
      assert SplitFrom(s, sep, from) == [s[from..]];
      assert s[from..] == s[from..|s|];
      assert !Contains(s[from..|s|], sep) by {
        IndexOfIsFirst(s, sep, from);
        NotContainedBetween(s, sep, from, |s|);
      }
    } else {
      var q := r.value;
      var rest := SplitFrom(s, sep, q + |sep|);
      assert SplitFrom(s, sep, from) == [s[from..q]] + rest;
      assert !Contains(s[from..q], sep) by {
        IndexOfIsFirst(s, sep, from);
        NotContainedBetween(s, sep, from, q);
      }
      SplitFromPiecesAreFree(s, sep, q + |sep|);
    }
  }

  /** Counting from `from` counts the first occurrence `IndexOf` finds, then goes on after it. */
  lemma {:induction false} CountFollowsIndexOf(s: string, sep: string, from: nat)
    requires 0 < |sep| && from <= |s|
    ensures CountFrom(s, sep, from) ==
              match IndexOf(s, sep, from)
              case None => 0
              case Some(q) => 1 + CountFrom(s, sep, q + |sep|)
    decreases |s| - from
  {
    if from + |sep| <= |s| && !OccursAt(s, sep, from) {
      CountFollowsIndexOf(s, sep, from + 1);
    }
  }

  /** There is one more piece than there are occurrences of the separator. */
  lemma {:induction false} SplitFromCount(s: string, sep: string, from: nat)
    requires 0 < |sep| && from <= |s|
    ensures |SplitFrom(s, sep, from)| == CountFrom(s, sep, from) + 1
    decreases |s| - from
  {
    var r := IndexOf(s, sep, from);
    if r.None? {
      assert |SplitFrom(s, sep, from)| == 1;
      assert CountFrom(s, sep, from) == 0 by { CountFollowsIndexOf(s, sep, from); }
    } else {
      var q := r.value;
      assert |SplitFrom(s, sep, from)| == 1 + |SplitFrom(s, sep, q + |sep|)|;
      assert CountFrom(s, sep, from) == 1 + CountFrom(s, sep, q + |sep|) by { CountFollowsIndexOf(s, sep, from); }
      SplitFromCount(s, sep, q + |sep|);
    }
  }

  /** Split and join, for a non-empty separator: the round trip, the pieces, their number. */
  lemma SplitJoin(s: string, sep: string)
    requires 0 < |sep|
    ensures Join(Split(s, sep), sep) == s
    ensures forall i :: 0 <= i < |Split(s, sep)| ==> !Contains(Split(s, sep)[i], sep)
    ensures |Split(s, sep)| == Occurrences(s, sep) + 1
  {
    SplitFromJoin(s, sep, 0);
    SplitFromPiecesAreFree(s, sep, 0);
    SplitFromCount(s, sep, 0);
  }

  /** Splitting the empty text on a non-empty separator gives one empty piece. */
  lemma SplitEmpty(sep: string)
    requires 0 < |sep|
    ensures Split([], sep) == [[]]
  {
  }

  /** With the empty separator every character is its own piece, and the round trip still holds. */
  lemma {:induction false} SplitEmptySeparator(s: string)
    ensures |Split(s, [])| == |s|
    ensures forall i :: 0 <= i < |s| ==> |Split(s, [])[i]| == 1
    ensures Join(Split(s, []), []) == s
  {
    if |s| > 1 {
      SplitEmptySeparator(s[1..]);
      assert Split(s, [])[1..] == Split(s[1..], []);
      assert s == [s[0]] + s[1..];
    }
  }

  /** A text where the separator occurs once, at q, splits into the two sides of it. */
  lemma SplitAtOnlyOccurrence(s: string, sep: string, q: nat)
    requires 0 < |sep|
    requires OccursAt(s, sep, q)
    requires forall r :: 0 <= r <= |s| && r != q ==> !OccursAt(s, sep, r)
    ensures Split(s, sep) == [s[..q], s[q + |sep|..]]
  {
    IndexOfIsFirst(s, sep, 0);
    assert IndexOf(s, sep, 0) == Some(q);
    IndexOfIsFirst(s, sep, q + |sep|);
    assert IndexOf(s, sep, q + |sep|) == None;
    assert SplitFrom(s, sep, q + |sep|) == [s[q + |sep|..]];
    assert SplitFrom(s, sep, 0) == [s[0..q]] + [s[q + |sep|..]];
  }

  // ---------------------------------------------------------------------
  // Properties of a primitive child's words
  // ---------------------------------------------------------------------

  /**
   * Joining a primitive child's words with the separator gives its text
   * trimmed and with the line-break runs collapsed; no word holds the
   * separator; there is one word more than separators in that text.
   */
  lemma WordsRoundTrip(text: string, sep: string)
    requires 0 < |sep|
    ensures Join(Words(text, sep), sep) == CollapseBreaks(Trim(text), sep)
    ensures forall i :: 0 <= i < |Words(text, sep)| ==> !Contains(Words(text, sep)[i], sep)
    ensures |Words(text, sep)| == Occurrences(CollapseBreaks(Trim(text), sep), sep) + 1
  {
    SplitJoin(CollapseBreaks(Trim(text), sep), sep);
  }

  /** A text that is all white space (the empty text included) gives one empty word. */
  lemma BlankTextOneEmptyWord(text: string, sep: string)
    requires 0 < |sep|
    requires AllWhitespace(text)
    ensures Words(text, sep) == [[]]
  {
  }

  /** A one-line text that neither starts nor ends with white space is split as it is. */
  lemma WordsOfPlainLine(t: string, sep: string)
    requires t == [] || (!IsWhitespace(t[0]) && !IsWhitespace(t[|t| - 1]))
    requires !HasLineBreak(t)
    ensures Words(t, sep) == Split(t, sep)
  {
    TrimKeepsUnpadded(t);
    CollapseKeepsPlainText(t, sep);
  }

  /** A number's text is a minus sign and decimal digits. */
  lemma NumberTextIsPlain(n: int)
    ensures forall i :: 0 <= i < |NumberText(n)| ==> NumberText(n)[i] == '-' || '0' <= NumberText(n)[i] <= '9'
  {
    var d := Digits(if n < 0 then -n else n);
    assert NumberText(n) == if n < 0 then "-" + d else d;
  }

  /** The digits of n spell n in decimal, without leading zeros. */
  lemma {:induction false} DigitsSpellNumber(n: nat)
    ensures IsDigits(Digits(n)) && DigitsValue(Digits(n)) == n
    ensures |Digits(n)| == 1 || Digits(n)[0] != '0'
    decreases n
  {
    var r := Digits(n);
    var last := '0' + (n % 10) as char;
    if n < 10 {
      assert r[..0] == [];
    } else {
      var d := Digits(n / 10);
      DigitsSpellNumber(n / 10);
      assert r == d + [last];
      assert r[..|r| - 1] == d;
      assert r[0] == d[0];
    }
  }

  /**
   * A number's text is a minus sign exactly for a negative number, followed
   * by the decimal digits of its magnitude, without leading zeros.
   */
  lemma NumberTextSpellsNumber(n: int)
    ensures |NumberText(n)| >= 1
    ensures NumberText(n)[0] == '-' <==> n < 0
    ensures var d := if n < 0 then NumberText(n)[1..] else NumberText(n);
      && IsDigits(d) && DigitsValue(d) == (if n < 0 then -n else n)
      && (|d| == 1 || d[0] != '0')
  {
    var m := if n < 0 then -n else n;
    DigitsSpellNumber(m);
    if n < 0 {
      assert NumberText(n)[1..] == Digits(m);
    } else {
      assert Digits(m)[0] != '-';
    }
  }

  /** A number's text has no white space, so its words are its text split as it is. */
  lemma NumberWords(n: int, sep: string)
    ensures Words(NumberText(n), sep) == Split(NumberText(n), sep)
  {
    NumberTextIsPlain(n);
    WordsOfPlainLine(NumberText(n), sep);
  }

  /** Two words with one default separator between them split into those two words. */
  lemma SplitTwoWords(a: string, b: string)
    requires NoWhitespace(a) && NoWhitespace(b)
    ensures Split(a + DefaultSeparator + b, DefaultSeparator) == [a, b]
  {
    var t := a + DefaultSeparator + b;
    forall r | 0 <= r <= |t| && r != |a|
      ensures !OccursAt(t, DefaultSeparator, r)
    {
      if r < |a| { assert t[r + 0] == a[r]; }
      else if r < |t| { assert t[r + 0] == b[r - |a| - 1]; }
    }
    assert t[|a| + 0] == ' ';
    SplitAtOnlyOccurrence(t, DefaultSeparator, |a|);
    assert t[..|a|] == a && t[|a| + 1..] == b;
  }

  /** The words of two words with one space between them, as in `"hello world"`. */
  lemma TwoWordsOnOneLine(a: string, b: string)
    requires a != [] && b != []
    requires NoWhitespace(a) && NoWhitespace(b)
    ensures Words(a + DefaultSeparator + b, DefaultSeparator) == [a, b]
  {
    var t := a + DefaultSeparator + b;
    assert t[0] == a[0] && t[|t| - 1] == b[|b| - 1];
    assert !HasLineBreak(t) by {
      forall i | 0 <= i < |t| ensures !IsLineBreak(t[i]) {
        if i < |a| { assert t[i] == a[i]; }
        else if i > |a| { assert t[i] == b[i - |a| - 1]; }
      }
    }
    WordsOfPlainLine(t, DefaultSeparator);
    SplitTwoWords(a, b);
  }

  /** The collapse turns a gap of white space holding a line break, between two words, into the separator. */
  lemma CollapseGap(a: string, gap: string, b: string, sep: string)
    requires NoWhitespace(a) && NoWhitespace(b) && b != []
    requires AllWhitespace(gap) && HasLineBreak(gap)
    requires '$' !in sep
    ensures CollapseBreaks(a + gap + b, sep) == a + sep + b
  {
    GapLayout(a, gap, b);
    CollapseWordGapWord(a + gap + b, sep, |a|, |a| + |gap|);
    SubstituteLiteral(sep, a + gap + b, |a|, |a| + |gap|);
  }

  /** A word, a white-space gap holding a line break, and a word: the gap becomes the replacement text. */
  lemma CollapseWordGapWord(s: string, sep: string, i: nat, m: nat)
    requires i < m < |s|
    requires NoWhitespaceBetween(s, 0, i) && NoWhitespaceBetween(s, m, |s|)
    requires WhitespaceBetween(s, i, m) && LineBreakBetween(s, i, m)
    ensures CollapseBreaks(s, sep) == s[0..i] + Substitute(sep, s, i, m) + s[m..|s|]
  {
    ReplaceBreaksCopiesWord(s, sep, 0, i);
    ReplacesBreakRun(s, sep, i, m);
    ReplaceBreaksCopiesWord(s, sep, m, |s|);
    assert ReplaceBreaksFrom(s, sep, |s|) == [];
    assert s[m..|s|] + [] == s[m..|s|];
    ConcatAssoc(s[0..i], Substitute(sep, s, i, m), s[m..|s|]);
  }

  /** Where the words and the gap of `a + gap + b` lie. */
  lemma GapLayout(a: string, gap: string, b: string)
    requires NoWhitespace(a) && NoWhitespace(b) && b != []
    requires AllWhitespace(gap) && HasLineBreak(gap)
    ensures var t, m := a + gap + b, |a| + |gap|;
      && m < |t| && t[0..|a|] == a && t[m..|t|] == b
      && NoWhitespaceBetween(t, 0, |a|) && NoWhitespaceBetween(t, m, |t|)
      && WhitespaceBetween(t, |a|, m) && LineBreakBetween(t, |a|, m) && !IsWhitespace(t[m])
  {
    var t, m := a + gap + b, |a| + |gap|;
    forall k | 0 <= k < |a| ensures !IsWhitespace(t[k]) { assert t[k] == a[k]; }
    forall k | m <= k < |t| ensures !IsWhitespace(t[k]) { assert t[k] == b[k - m]; }
    forall k | |a| <= k < m ensures IsWhitespace(t[k]) { assert t[k] == gap[k - |a|]; }
    var k :| 0 <= k < |gap| && IsLineBreak(gap[k]);
    assert t[|a| + k] == gap[k];
  }

  /** A white-space run from p to e that holds a line break is one match, and is replaced. */
  lemma ReplacesBreakRun(s: string, sep: string, p: nat, e: nat)
    requires p < e < |s|
    requires WhitespaceBetween(s, p, e) && !IsWhitespace(s[e]) && LineBreakBetween(s, p, e)
    ensures ReplaceBreaksFrom(s, sep, p) == Substitute(sep, s, p, e) + ReplaceBreaksFrom(s, sep, e)
  {
    RunEndAcross(s, p, e);
    assert BreakRunAt(s, p) == Some(e);
  }

  /** A white-space stretch from p to e lies inside the white-space run from p. */
  lemma {:induction false} RunEndCoversWhitespace(s: string, p: nat, e: nat)
    requires p <= e <= |s|
    requires WhitespaceBetween(s, p, e)
    ensures e <= RunEnd(s, p)
    decreases e - p
  {
    if p < e {
      RunEndCoversWhitespace(s, p + 1, e);
    }
  }

  /** Every match of the pattern from p lies inside the white-space run from p, and puts a line break in it. */
  lemma MatchWithinRun(s: string, p: nat, e: nat)
    requires p <= e <= |s|
    requires PatternMatch(s, p, e)
    ensures e <= RunEnd(s, p) && LineBreakBetween(s, p, RunEnd(s, p))
  {
    var u :| p <= u < e && WhitespaceBetween(s, p, u) && IsLineBreak(s[u]) && WhitespaceBetween(s, u + 1, e);
    forall k | p <= k < e
      ensures IsWhitespace(s[k])
    {
      if k < u {
        assert IsWhitespace(s[k]);
      } else if k > u {
        assert IsWhitespace(s[k]);
      }
    }
    RunEndCoversWhitespace(s, p, e);
    assert p <= u < RunEnd(s, p) && IsLineBreak(s[u]);
  }

  /**
   * `BreakRunAt` finds the match the regular expression engine finds at p:
   * there is one exactly when the pattern matches some `s[p..e]`, and then it
   * is the longest such match, as the greedy quantifiers make it.
   */
  lemma BreakRunAtIsGreedyMatch(s: string, p: nat)
    requires p <= |s|
    ensures BreakRunAt(s, p).Some? <==> exists e :: p <= e <= |s| && PatternMatch(s, p, e)
    ensures BreakRunAt(s, p).Some? ==>
      && PatternMatch(s, p, BreakRunAt(s, p).value)
      && forall e :: BreakRunAt(s, p).value < e <= |s| ==> !PatternMatch(s, p, e)
  {
    var r := RunEnd(s, p);
    forall e | p <= e <= |s| && PatternMatch(s, p, e)
      ensures e <= r && LineBreakBetween(s, p, r)
    {
      MatchWithinRun(s, p, e);
    }
    if LineBreakBetween(s, p, r) {
      var u :| p <= u < r && IsLineBreak(s[u]);
      assert WhitespaceBetween(s, p, u);
      assert WhitespaceBetween(s, u + 1, r);
      assert PatternMatch(s, p, r);
    }
  }

  /** Without a `$` the replacement string is inserted as it is. */
  lemma {:induction false} SubstituteLiteral(rep: string, s: string, p: nat, e: nat)
    requires p <= e <= |s|
    requires '$' !in rep
    ensures Substitute(rep, s, p, e) == rep
    decreases |rep|
  {
    if rep != [] {
      assert '$' !in rep[1..] by {
        forall i | 0 <= i < |rep[1..]| ensures rep[1..][i] != '$' { assert rep[1..][i] == rep[i + 1]; }
      }
      SubstituteLiteral(rep[1..], s, p, e);
      assert rep == [rep[0]] + rep[1..];
    }
  }

  /**
   * The four substitution patterns: `$$` gives `$`, `$&` the match, `` $` ``
   * the text before the match and `$'` the text after it. `$1` stays as it
   * is, since the pattern has no capture groups.
   */
  lemma SubstitutionPatterns(s: string, p: nat, e: nat)
    requires p <= e <= |s|
    ensures Substitute("$$", s, p, e) == "$"
    ensures Substitute("$&", s, p, e) == s[p..e]
    ensures Substitute("$`", s, p, e) == s[..p]
    ensures Substitute("$'", s, p, e) == s[e..]
    ensures Substitute("$1", s, p, e) == "$1"
  {
    assert Substitute("$$", s, p, e) == "$" by { assert "$$"[2..] == []; }
    assert Substitute("$&", s, p, e) == s[p..e] by { assert "$&"[2..] == []; }
    assert Substitute("$`", s, p, e) == s[..p] by { assert "$`"[2..] == []; }
    assert Substitute("$'", s, p, e) == s[e..] by { assert "$'"[2..] == []; }
    assert Substitute("$1", s, p, e) == "$1" by { assert "$1"[1..] == "1" && "1"[1..] == []; }
  }

  /** With the replacement `$&` every match is put back, so the text is unchanged, line breaks included. */
  lemma {:induction false} MatchPatternKeepsText(s: string, p: nat)
    requires p <= |s|
    ensures ReplaceBreaksFrom(s, "$&", p) == s[p..]
    decreases |s| - p
  {
    if p < |s| {
      match BreakRunAt(s, p)
      case Some(e) =>
        MatchPatternKeepsText(s, e);
        KeepMatch(s, p, e);
      case None =>
        MatchPatternKeepsText(s, p + 1);
        KeepCharacter(s, p);
    }
  }

  /** A match followed by text kept as it is: the match is put back in front of it. */
  lemma KeepMatch(s: string, p: nat, e: nat)
    requires p < e <= |s| && BreakRunAt(s, p) == Some(e)
    requires ReplaceBreaksFrom(s, "$&", e) == s[e..]
    ensures ReplaceBreaksFrom(s, "$&", p) == s[p..]
  {
    var m := Substitute("$&", s, p, e);
    assert ReplaceBreaksFrom(s, "$&", p) == m + s[e..];
    SubstitutionPatterns(s, p, e);
    SliceAt(s, p, e, |s|);
    assert s[e..|s|] + s[|s|..] == s[e..];
  }

  /** A character that starts no match, followed by text kept as it is: it is copied in front of it. */
  lemma KeepCharacter(s: string, p: nat)
    requires p < |s| && BreakRunAt(s, p).None?
    requires ReplaceBreaksFrom(s, "$&", p + 1) == s[p + 1..]
    ensures ReplaceBreaksFrom(s, "$&", p) == s[p..]
  {
    assert ReplaceBreaksFrom(s, "$&", p) == [s[p]] + ReplaceBreaksFrom(s, "$&", p + 1);
    assert s[p..] == [s[p]] + s[p + 1..];
  }

  /** The white-space run from p reaches past a stretch of white space up to the next non-white character. */
  lemma {:induction false} RunEndAcross(s: string, p: nat, q: nat)
    requires p <= q < |s|
    requires WhitespaceBetween(s, p, q) && !IsWhitespace(s[q])
    ensures RunEnd(s, p) == q
    decreases q - p
  {
    if p < q {
      RunEndAcross(s, p + 1, q);
    }
  }

  /**
   * Two words with white space holding a line break between them, as in
   * `"a\nb"`, give the same two words.
   */
  lemma TwoWordsAcrossLineBreak(a: string, gap: string, b: string)
    requires a != [] && b != []
    requires NoWhitespace(a) && NoWhitespace(b)
    requires AllWhitespace(gap) && HasLineBreak(gap)
    ensures Words(a + gap + b, DefaultSeparator) == [a, b]
  {
    var t := a + gap + b;
    assert t[0] == a[0] && t[|t| - 1] == b[|b| - 1];
    TrimKeepsUnpadded(t);
    CollapseGap(a, gap, b, DefaultSeparator);
    SplitTwoWords(a, b);
  }

  // ---------------------------------------------------------------------
  // Properties of the children's fragments
  // ---------------------------------------------------------------------

  /**
   * A non-primitive child becomes one fragment holding it unchanged, keyed by
   * its sibling position. A primitive child becomes its words in order,
   * fragment i keyed i; with a non-empty separator there is at least one,
   * and joining their texts gives the trimmed, collapsed text.
   */
  lemma SplitChildShape<E>(c: Child<E>, index: nat, sep: string)
    ensures c.Element? ==> SplitChild(c, index, sep) == [Fragment(index, Wrapped(c.node))]
    ensures !c.Element? ==>
      var frags := SplitChild(c, index, sep);
      && (forall i :: 0 <= i < |frags| ==> frags[i].key == i && frags[i].content.Text?)
      && Texts(frags) == Words(PrimitiveText(c), sep)
    ensures !c.Element? && 0 < |sep| ==>
      var frags := SplitChild(c, index, sep);
      && (forall i :: 0 <= i < |frags| ==> frags[i].content.Text?)
      && 1 <= |frags| == Occurrences(CollapseBreaks(Trim(PrimitiveText(c)), sep), sep) + 1
      && Join(Texts(frags), sep) == CollapseBreaks(Trim(PrimitiveText(c)), sep)
  {
    if !c.Element? {
      var frags := SplitChild(c, index, sep);
      assert Texts(frags) == Words(PrimitiveText(c), sep);
      if 0 < |sep| {
        WordsRoundTrip(PrimitiveText(c), sep);
      }
    }
  }

  /** The fragments of the first j children come first, unchanged by the children after them. */
  lemma {:induction false} SplitChildrenPrefix<E>(cs: seq<Child<E>>, sep: string, j: nat)
    requires j <= |cs|
    ensures |SplitChildren(cs[..j], sep)| <= |SplitChildren(cs, sep)|
    ensures SplitChildren(cs, sep)[..|SplitChildren(cs[..j], sep)|] == SplitChildren(cs[..j], sep)
    decreases |cs|
  {
    if j == |cs| {
      assert cs[..j] == cs;
    } else {
      var init := cs[..|cs| - 1];
      assert init[..j] == cs[..j];
      SplitChildrenPrefix(init, sep, j);
    }
  }

  /**
   * Children are split independently and their fragments concatenated in
   * order: the fragments of child i form one block, right after those of
   * children 0..i-1, and no block mixes two children.
   */
  lemma SplitChildrenBlock<E>(cs: seq<Child<E>>, sep: string, i: nat)
    requires i < |cs|
    ensures var lo := |SplitChildren(cs[..i], sep)|;
      var hi := |SplitChildren(cs[..i + 1], sep)|;
      && lo <= hi <= |SplitChildren(cs, sep)|
      && SplitChildren(cs, sep)[lo..hi] == SplitChild(cs[i], i, sep)
  {
    var prefix := cs[..i + 1];
    assert prefix[..|prefix| - 1] == cs[..i];
    SplitChildrenPrefix(cs, sep, i + 1);
  }

  /** With a non-empty separator every child gives at least one fragment. */
  lemma {:induction false} SplitChildrenCount<E>(cs: seq<Child<E>>, sep: string)
    requires 0 < |sep|
    ensures |SplitChildren(cs, sep)| >= |cs|
    decreases |cs|
  {
    if cs != [] {
      SplitChildrenCount(cs[..|cs| - 1], sep);
      SplitChildShape(cs[|cs| - 1], |cs| - 1, sep);
    }
  }

  /** A single child's fragments are the component's fragments. */
  lemma SplitSingleChild<E>(c: Child<E>, sep: string)
    ensures SplitChildren([c], sep) == SplitChild(c, 0, sep)
  {
    assert [c][..0] == [];
  }

  /** The component given one text child of two words and no separator: two fragments, keyed 0 and 1. */
  lemma DefaultSeparatorTwoWords<E>(a: string, b: string)
    requires a != [] && b != []
    requires NoWhitespace(a) && NoWhitespace(b)
    ensures SplitText<E>([Str(a + DefaultSeparator + b)], None) == [Fragment(0, Text(a)), Fragment(1, Text(b))]
  {
    var c: Child<E> := Str(a + DefaultSeparator + b);
    SplitSingleChild(c, DefaultSeparator);
    TwoWordsOnOneLine(a, b);
    var frags := SplitChild(c, 0, DefaultSeparator);
    assert |frags| == 2;
  }
}
