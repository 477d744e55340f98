/**
 * The line-index resolver of the split-text component: after the fragments are
 * laid out, it walks them in document order, reads each one's top-edge Y, and
 * tags each fragment with its line index, its global word index and its index
 * within the line, then marks it ready.
 *
 * The measured Ys are only ever compared with `<`, so integers stand for them.
 */
module LineResolver {
  import opened Wrappers

  /**
   * The presentation state of one fragment element. The four tags are unset
   * (`None`) until the resolver first runs; `complete` is the flag the
   * transition-end handler sets, which the resolver never writes.
   */
  datatype Style = Style(
    lineIndex: Option<nat>,
    wordIndex: Option<nat>,
    lineWordIndex: Option<nat>,
    ready: bool,
    complete: bool)

  /**
   * Child k starts a new line when its Y is strictly below (greater than) the
   * Y of the child before it. Child 0 is compared with its own Y, so it never
   * starts a line.
   */
  predicate StartsLine(ys: seq<int>, k: nat)
    requires k < |ys|
  {
    k > 0 && ys[k - 1] < ys[k]
  }

  /** The line index of child k: how many children in 0..k start a line. */
  function LineIndexOf(ys: seq<int>, k: nat): nat
    requires k < |ys|
  {
    if k == 0 then 0
    else LineIndexOf(ys, k - 1) + (if StartsLine(ys, k) then 1 else 0)
  }

  /** The first child of the line that child k lies on. */
  function LineStart(ys: seq<int>, k: nat): (j: nat)
    requires k < |ys|
    ensures j <= k
    ensures j == 0 || StartsLine(ys, j)
    ensures forall i :: j < i <= k ==> !StartsLine(ys, i)
  {
    if k == 0 || StartsLine(ys, k) then k else LineStart(ys, k - 1)
  }

  /**
   * The line-word index child k receives: its distance from the first child
   * of its line, plus one on the first line (whose first child is compared
   * with itself and so takes the "same line" branch).
   */
  function LineWordIndexOf(ys: seq<int>, k: nat): nat
    requires k < |ys|
  {
    var j := LineStart(ys, k);
    if j == 0 then k + 1 else k - j
  }

  /** One fragment's style after the resolver has tagged it as child k. */
  function TagAt(s: Style, ys: seq<int>, k: nat): Style
    requires k < |ys|
  {
    s.(lineIndex := Some(LineIndexOf(ys, k)),
       wordIndex := Some(k),
       lineWordIndex := Some(LineWordIndexOf(ys, k)),
       ready := true)
  }

  /** The styles of all fragments after one run of the resolver. */
  function Tagged(ys: seq<int>, before: seq<Style>): (after: seq<Style>)
    requires |before| == |ys|
  {
    seq(|ys|, k requires 0 <= k < |ys| => TagAt(before[k], ys, k))
  }

  /**
   * One run of the debounced measurement callback: `ys[k]` is the measured
   * top-edge Y of the container's k-th child and `styles[k]` its style. The
   * container has at least one child (the first child's Y seeds `lastY`).
   */
  method Resolve(ys: seq<int>, styles: array<Style>)
    requires |ys| > 0
    requires styles.Length == |ys|
    modifies styles
    ensures styles[..] == Tagged(ys, old(styles[..]))
  {
    var lineIndex: nat := 0;
    var wordIndex: nat := 0;
    var wordLineIndex: nat := 0;
    var lastY: Option<int> := Some(ys[0]);

    for i := 0 to |ys|
      invariant wordIndex == i
      invariant i == 0 ==> lineIndex == 0 && wordLineIndex == 0 && lastY == Some(ys[0])
      invariant 0 < i ==> lineIndex == LineIndexOf(ys, i - 1)
      invariant 0 < i ==> wordLineIndex == LineWordIndexOf(ys, i - 1)
      invariant 0 < i ==> lastY == Some(ys[i - 1])
      invariant forall k :: 0 <= k < i ==> styles[k] == TagAt(old(styles[k]), ys, k)
      invariant forall k :: i <= k < |ys| ==> styles[k] == old(styles[k])
    {
      var y := ys[i];
      if lastY.Some? && lastY.value < y {
        lineIndex := lineIndex + 1;
        wordLineIndex := 0;
      } else {
        wordLineIndex := wordLineIndex + 1;
      }
      LineWordIndexStep(ys, i);

      styles[i] := styles[i].(
        lineIndex := Some(lineIndex),
        wordIndex := Some(wordIndex),
        lineWordIndex := Some(wordLineIndex),
        ready := true);

      lastY := Some(y);
      wordIndex := wordIndex + 1;
    }
  }

  /**
   * The recurrence the loop follows: child 0 gets line-word index 1; a later
   * child gets 0 when it starts a line and its predecessor's value plus one
   * otherwise.
   */
  lemma LineWordIndexStep(ys: seq<int>, k: nat)
    requires k < |ys|
    ensures k == 0 ==> LineWordIndexOf(ys, k) == 1
    ensures 0 < k && StartsLine(ys, k) ==> LineWordIndexOf(ys, k) == 0
    ensures 0 < k && !StartsLine(ys, k) ==> LineWordIndexOf(ys, k) == LineWordIndexOf(ys, k - 1) + 1
  {
  }

  /** The line index goes up by one exactly at the children that start a line. */
  lemma LineIndexStep(ys: seq<int>, k: nat)
    requires 0 < k < |ys|
    ensures LineIndexOf(ys, k) == LineIndexOf(ys, k - 1) + 1 <==> ys[k - 1] < ys[k]
    ensures LineIndexOf(ys, k) == LineIndexOf(ys, k - 1) <==> ys[k] <= ys[k - 1]
  {
  }

  /** Line indices start at 0, never decrease, and never exceed the child's position. */
  lemma {:induction false} LineIndexMonotone(ys: seq<int>, j: nat, k: nat)
    requires j <= k < |ys|
    ensures LineIndexOf(ys, 0) == 0
    ensures LineIndexOf(ys, j) <= LineIndexOf(ys, k) <= LineIndexOf(ys, j) + (k - j)
  {
    if j < k {
      LineIndexMonotone(ys, j, k - 1);
    }
  }

  /** Two children share a line exactly when no child between them starts a line. */
  lemma {:induction false} SameLineIff(ys: seq<int>, j: nat, k: nat)
    requires j <= k < |ys|
    ensures LineIndexOf(ys, j) == LineIndexOf(ys, k) <==> forall i :: j < i <= k ==> !StartsLine(ys, i)
  {
    if j < k {
      SameLineIff(ys, j, k - 1);
      LineIndexMonotone(ys, j, k - 1);
    }
  }

  /**
   * The line-word index is 0 exactly at the children that start a line; in
   * particular child 0 never gets 0.
   */
  lemma LineWordIndexZeroIff(ys: seq<int>, k: nat)
    requires k < |ys|
    ensures LineWordIndexOf(ys, k) == 0 <==> StartsLine(ys, k)
  {
  }

  /**
   * The line-word index of child k is its position on its line: the line's
   * first child `j` has the same line index as child k and a larger one than
   * child j - 1, and child k's line-word index is k - j, plus one when the
   * line is line 0.
   */
  lemma {:induction false} LineWordIndexIsPositionInLine(ys: seq<int>, k: nat)
    requires k < |ys|
    ensures var j := LineStart(ys, k);
      && LineIndexOf(ys, j) == LineIndexOf(ys, k)
      && (0 < j ==> LineIndexOf(ys, j - 1) < LineIndexOf(ys, j))
      && LineWordIndexOf(ys, k) == k - j + (if LineIndexOf(ys, k) == 0 then 1 else 0)
  {
    var j := LineStart(ys, k);
    SameLineIff(ys, j, k);
    if j == 0 {
      assert LineIndexOf(ys, k) == 0;
    } else {
      LineIndexMonotone(ys, 0, j - 1);
      assert LineIndexOf(ys, k) > 0;
    }
  }

  /** Every child is tagged, the word index of child k is k, and nothing but the tags and ready flag changes. */
  lemma TaggedTagsEveryChild(ys: seq<int>, before: seq<Style>)
    requires |before| == |ys|
    ensures |Tagged(ys, before)| == |ys|
    ensures forall k :: 0 <= k < |ys| ==>
      var s := Tagged(ys, before)[k];
      && s.wordIndex == Some(k)
      && s.lineIndex == Some(LineIndexOf(ys, k))
      && s.lineWordIndex == Some(LineWordIndexOf(ys, k))
      && s.ready
      && s.complete == before[k].complete
  {
  }

  /** The tags a run writes do not depend on the tags left by an earlier run. */
  lemma TagsIgnoreEarlierTags(ys: seq<int>, s1: seq<Style>, s2: seq<Style>)
    requires |s1| == |ys| == |s2|
    requires forall k :: 0 <= k < |ys| ==> s1[k].complete == s2[k].complete
    ensures Tagged(ys, s1) == Tagged(ys, s2)
  {
  }

  /** Re-running the resolver on the same measurements changes nothing. */
  lemma RerunIsIdempotent(ys: seq<int>, before: seq<Style>)
    requires |before| == |ys|
    ensures Tagged(ys, Tagged(ys, before)) == Tagged(ys, before)
  {
  }

  /** Two lines of three words: line 0 counts from 1, line 1 from 0. */
  lemma TwoLinesExample()
    ensures var ys := [10, 10, 10, 30, 30, 30];
      && LineIndexOf(ys, 2) == 0 && LineIndexOf(ys, 3) == 1 && LineIndexOf(ys, 5) == 1
      && LineWordIndexOf(ys, 0) == 1 && LineWordIndexOf(ys, 2) == 3
      && LineWordIndexOf(ys, 3) == 0 && LineWordIndexOf(ys, 5) == 2
  {
  }
}
