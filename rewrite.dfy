/**
  The left-to-right scan of a global JavaScript `replace` for a pattern of
  fixed width with a constant replacement text, and what every such scan
  guarantees.  At the scan position, on a match the replacement is emitted
  and the scan jumps past the match; otherwise one character is copied.
*/
module Rewrite {
  import opened Chars
  import opened Texts

  /** Where a pattern matches, how many characters a match spans, and its replacement. */
  datatype Rule = Rule(at: (seq<char>, int) -> bool, width: nat, rep: seq<char>)

  /** A match of `r` that fits in `s` starts at position `i`. */
  predicate Hit(r: Rule, s: seq<char>, i: int) {
    0 <= i && i + r.width <= |s| && r.at(s, i)
  }

  /** The output of the global replacement for the part of `s` from scan position `i` on. */
  function ReplaceFrom(r: Rule, s: seq<char>, i: nat): seq<char>
    requires r.width > 0
    decreases |s| - i
  {
    if i >= |s| then []
    else if Hit(r, s, i) then r.rep + ReplaceFrom(r, s, i + r.width)
    else [s[i]] + ReplaceFrom(r, s, i + 1)
  }

  /** At a match the scan emits the replacement and jumps past the match. */
  lemma HitStep(r: Rule, s: seq<char>, i: nat)
    requires r.width > 0 && Hit(r, s, i)
    ensures ReplaceFrom(r, s, i) == r.rep + ReplaceFrom(r, s, i + r.width)
  {
  }

  /** Elsewhere the scan copies one character. */
  lemma CopyStep(r: Rule, s: seq<char>, i: nat)
    requires r.width > 0 && i < |s| && !Hit(r, s, i)
    ensures ReplaceFrom(r, s, i) == [s[i]] + ReplaceFrom(r, s, i + 1)
  {
  }

  /** Every match has the skeleton of the replacement. */
  ghost predicate KeepsSkeleton(r: Rule) {
    forall s, i :: Hit(r, s, i) ==> Skeleton(s[i..i + r.width]) == Skeleton(r.rep)
  }

  /** A rule whose matches have the skeleton of its replacement changes only whitespace and letter case. */
  lemma {:induction false} ReplaceFromSkeleton(r: Rule, s: seq<char>, i: nat)
    requires r.width > 0 && KeepsSkeleton(r) && i <= |s|
    ensures Skeleton(ReplaceFrom(r, s, i)) == Skeleton(s[i..])
    decreases |s| - i
  {
    if i < |s| {
      if Hit(r, s, i) {
        var j := i + r.width;
        HitStep(r, s, i);
        ReplaceFromSkeleton(r, s, j);
        SkeletonSplitSuffix(s, i, j);
        SkeletonAppend(r.rep, ReplaceFrom(r, s, j));
      } else {
        CopyStep(r, s, i);
        ReplaceFromSkeleton(r, s, i + 1);
        SkeletonSplitSuffix(s, i, i + 1);
        assert s[i..i + 1] == [s[i]];
        SkeletonAppend([s[i]], ReplaceFrom(r, s, i + 1));
      }
    }
  }

  /** A text whose every match already holds the replacement is left as it is. */
  lemma {:induction false} FixedPoint(r: Rule, s: seq<char>, i: nat)
    requires r.width > 0 && i <= |s|
    requires forall q :: i <= q && Hit(r, s, q) ==> s[q..q + r.width] == r.rep
    ensures ReplaceFrom(r, s, i) == s[i..]
    decreases |s| - i
  {
    if i < |s| {
      if Hit(r, s, i) {
        FixedPoint(r, s, i + r.width);
        SuffixSplit(s, i, i + r.width);
      } else {
        FixedPoint(r, s, i + 1);
        SuffixCons(s, i);
      }
    }
  }

  /** Without a match in `[i, j)` the scan copies that part unchanged. */
  lemma {:induction false} CopyUntil(r: Rule, s: seq<char>, i: nat, j: nat)
    requires r.width > 0 && i <= j <= |s|
    requires forall q :: i <= q < j ==> !Hit(r, s, q)
    ensures ReplaceFrom(r, s, i) == s[i..j] + ReplaceFrom(r, s, j)
    decreases j - i
  {
    if i < j {
      CopyUntil(r, s, i + 1, j);
      SliceCons(s, i, j);
    }
  }

  /** Up to the first match from `i`, at `m`, the scan copies; then it writes the replacement and goes on at `j`. */
  lemma CopyThenHit(r: Rule, s: seq<char>, i: nat, m: nat, j: nat)
    requires r.width > 0 && i <= m && Hit(r, s, m) && j == m + r.width
    requires forall q :: i <= q < m ==> !Hit(r, s, q)
    ensures ReplaceFrom(r, s, i) == s[i..m] + r.rep + ReplaceFrom(r, s, j)
  {
    CopyUntil(r, s, i, m);
    HitStep(r, s, m);
  }

  /** The first match of `r` at or after position `i` of `s`. */
  function NextHit(r: Rule, s: seq<char>, i: nat): (m: Option<nat>)
    requires r.width > 0
    ensures m.Some? ==> i <= m.value && Hit(r, s, m.value) && forall q :: i <= q < m.value ==> !Hit(r, s, q)
    ensures m.None? ==> forall q :: i <= q ==> !Hit(r, s, q)
    decreases |s| - i
  {
    if i >= |s| then None
    else if Hit(r, s, i) then Some(i)
    else NextHit(r, s, i + 1)
  }

  /**
    The scan from `i` copies the text up to the next match, writes the
    replacement in place of the match and goes on after it; with no match
    left it copies the rest.
  */
  lemma ReplaceFromNextHit(r: Rule, s: seq<char>, i: nat)
    requires r.width > 0 && i <= |s|
    ensures match NextHit(r, s, i)
      case Some(m) => ReplaceFrom(r, s, i) == s[i..m] + r.rep + ReplaceFrom(r, s, m + r.width)
      case None => ReplaceFrom(r, s, i) == s[i..]
  {
    match NextHit(r, s, i)
    case Some(m) =>
      CopyThenHit(r, s, i, m, m + r.width);
    case None =>
      CopyUntil(r, s, i, |s|);
  }

  // ---------------------------------------------------------------------
  // Rules whose replacement is as long as a match.

  /**
    Position `q` of `s` starts a rewritten window of `out`, the output of
    the scan from position `i`: a match starts there and `out` holds the
    replacement at the corresponding place.
  */
  predicate Window(r: Rule, s: seq<char>, out: seq<char>, i: nat, q: int) {
    i <= q && Hit(r, s, q) && q - i + r.width <= |out| && out[q - i..q - i + r.width] == r.rep
  }

  /** Position `k` lies in a rewritten window of `out`, the output of the scan from `i`. */
  ghost predicate Covered(r: Rule, s: seq<char>, out: seq<char>, i: nat, k: int) {
    exists q :: Window(r, s, out, i, q) && q <= k < q + r.width
  }

  /**
    What the scan of a same-width rule from `i` produces: an output as long
    as the rest of the input, equal to it outside the rewritten windows, and
    covering every match of the input with a window.
  */
  ghost predicate WindowsExplain(r: Rule, s: seq<char>, out: seq<char>, i: nat) {
    && |out| == |s| - i
    && (forall k :: i <= k < |s| ==> out[k - i] == s[k] || Covered(r, s, out, i, k))
    && (forall m :: i <= m && Hit(r, s, m) ==> Covered(r, s, out, i, m))
  }

  /** Windows of the scan from `j` are windows of the scan from `i` whose output ends with it. */
  lemma CoveredShift(r: Rule, s: seq<char>, out: seq<char>, i: nat, j: nat, k: int)
    requires i <= j <= |s| && j - i <= |out| && Covered(r, s, out[j - i..], j, k)
    ensures Covered(r, s, out, i, k)
  {
    var out' := out[j - i..];
    var q :| Window(r, s, out', j, q) && q <= k < q + r.width;
    assert out[q - i..q - i + r.width] == out'[q - j..q - j + r.width];
    assert Window(r, s, out, i, q);
  }

  /** The scan of a same-width rule from a match at `i`, at one position. */
  lemma SameWidthHitChar(r: Rule, s: seq<char>, i: nat, k: nat)
    requires |r.rep| == r.width > 0 && Hit(r, s, i) && i <= k < |s|
    requires WindowsExplain(r, s, ReplaceFrom(r, s, i + r.width), i + r.width)
    ensures var out := ReplaceFrom(r, s, i);
      out[k - i] == s[k] || Covered(r, s, out, i, k)
  {
    var j := i + r.width;
    var out := ReplaceFrom(r, s, i);
    var out' := ReplaceFrom(r, s, j);
    HitStep(r, s, i);
    DropPrefix(r.rep, out');
    if k < j {
      TakePrefix(r.rep, out');
      assert Window(r, s, out, i, i);
    } else {
      assert out[k - i] == out'[k - j];
      if out'[k - j] != s[k] {
        CoveredShift(r, s, out, i, j, k);
      }
    }
  }

  /** The scan of a same-width rule from a match at `i`. */
  lemma SameWidthHitStep(r: Rule, s: seq<char>, i: nat)
    requires |r.rep| == r.width > 0 && i < |s| && Hit(r, s, i)
    requires WindowsExplain(r, s, ReplaceFrom(r, s, i + r.width), i + r.width)
    ensures WindowsExplain(r, s, ReplaceFrom(r, s, i), i)
  {
    var j := i + r.width;
    var out := ReplaceFrom(r, s, i);
    var out' := ReplaceFrom(r, s, j);
    HitStep(r, s, i);
    DropPrefix(r.rep, out');
    assert out[j - i..] == out';
    forall k | i <= k < |s|
      ensures out[k - i] == s[k] || Covered(r, s, out, i, k)
    {
      SameWidthHitChar(r, s, i, k);
    }
    TakePrefix(r.rep, out');
    assert Window(r, s, out, i, i);
    forall m | i <= m && Hit(r, s, m)
      ensures Covered(r, s, out, i, m)
    {
      if m >= j {
        CoveredShift(r, s, out, i, j, m);
      }
    }
  }

  /** The scan of a same-width rule from a position where nothing matches, at one position. */
  lemma SameWidthCopyChar(r: Rule, s: seq<char>, i: nat, k: nat)
    requires |r.rep| == r.width > 0 && !Hit(r, s, i) && i <= k < |s|
    requires WindowsExplain(r, s, ReplaceFrom(r, s, i + 1), i + 1)
    ensures var out := ReplaceFrom(r, s, i);
      out[k - i] == s[k] || Covered(r, s, out, i, k)
  {
    var out := ReplaceFrom(r, s, i);
    var out' := ReplaceFrom(r, s, i + 1);
    CopyStep(r, s, i);
    if k > i {
      assert out[k - i] == out'[k - (i + 1)];
      if out'[k - (i + 1)] != s[k] {
        DropPrefix([s[i]], out');
        CoveredShift(r, s, out, i, i + 1, k);
      }
    }
  }

  /** The scan of a same-width rule from a position where nothing matches. */
  lemma SameWidthCopyStep(r: Rule, s: seq<char>, i: nat)
    requires |r.rep| == r.width > 0 && i < |s| && !Hit(r, s, i)
    requires WindowsExplain(r, s, ReplaceFrom(r, s, i + 1), i + 1)
    ensures WindowsExplain(r, s, ReplaceFrom(r, s, i), i)
  {
    var out := ReplaceFrom(r, s, i);
    var out' := ReplaceFrom(r, s, i + 1);
    CopyStep(r, s, i);
    DropPrefix([s[i]], out');
    forall k | i <= k < |s|
      ensures out[k - i] == s[k] || Covered(r, s, out, i, k)
    {
      SameWidthCopyChar(r, s, i, k);
    }
    forall m | i <= m && Hit(r, s, m)
      ensures Covered(r, s, out, i, m)
    {
      CoveredShift(r, s, out, i, i + 1, m);
    }
  }

  /**
    For a rule whose replacement is as long as a match, the output is as
    long as the input; every output character is the input character or
    lies in a rewritten window, which starts at a match and holds the
    replacement; and every match of the input lies in a rewritten window
    (it was rewritten, or it overlaps a match that was).
  */
  lemma {:induction false} SameWidthWindows(r: Rule, s: seq<char>, i: nat)
    requires |r.rep| == r.width > 0 && i <= |s|
    ensures WindowsExplain(r, s, ReplaceFrom(r, s, i), i)
    decreases |s| - i
  {
    if i < |s| {
      if Hit(r, s, i) {
        SameWidthWindows(r, s, i + r.width);
        SameWidthHitStep(r, s, i);
      } else {
        SameWidthWindows(r, s, i + 1);
        SameWidthCopyStep(r, s, i);
      }
    }
  }
}
