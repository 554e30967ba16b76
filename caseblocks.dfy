/**
  Stage 3 of `customSqlPostFormatter` (script.js:87-126): every block
  matched by `/\bCASE\b.*?\bEND\b/gis` gets its WHEN keywords and its END
  on lines of their own.  Inside a block, the first WHEN (a plain substring,
  not a whole word) gets a space after it; then every `\sWHEN\s` that is not
  followed on its line by a CASE with a WHEN after it becomes
  "\n    WHEN ", and every `\sEND\b` becomes "\nEND".
*/
module CaseBlocks {
  import opened Chars
  import opened Rewrite
  import opened Patterns
  import opened Texts

  /** The whole word `w` occurs at no position of `[a, b)`. */
  predicate NoWordIn(s: seq<char>, w: string, a: int, b: int) {
    forall k :: a <= k < b ==> !WordMatch(s, k, w)
  }

  /** The first whole-word occurrence of `w` at or after `from`. */
  function NextWord(s: seq<char>, w: string, from: nat): (r: Option<nat>)
    requires w != []
    ensures r.Some? ==> from <= r.value && WordMatch(s, r.value, w) && NoWordIn(s, w, from, r.value)
    ensures r.None? ==> NoWordIn(s, w, from, |s| + 1)
    decreases |s| - from
  {
    if from + |w| > |s| then None
    else if WordMatch(s, from, w) then Some(from)
    else NextWord(s, w, from + 1)
  }

  /** `s[c..e]` is a match of `\bCASE\b.*?\bEND\b` (the `s` flag lets `.` match anything). */
  predicate BlockMatch(s: seq<char>, c: int, e: int) {
    WordMatch(s, c, "CASE") && c + 4 <= e - 3 && WordMatch(s, e - 3, "END")
  }

  datatype Span = Span(start: nat, end: nat)

  /** `casePattern.exec(s)` with `lastIndex` at `from`. */
  function FindCase(s: seq<char>, from: nat): (r: Option<Span>)
    ensures r.Some? ==> from <= r.value.start && r.value.start + 7 <= r.value.end <= |s|
  {
    match NextWord(s, "CASE", from)
    case None => None
    case Some(c) =>
      match NextWord(s, "END", c + 4)
      case None => None
      case Some(e) => Some(Span(c, e + 3))
  }

  /**
    The match found is the one a backtracking engine finds: it starts at the
    leftmost position from which a match exists, and among the matches from
    there it is the shortest (the lazy `.*?`); there is none when no match
    starts at or after `from`.
  */
  lemma FindCaseLeftmost(s: seq<char>, from: nat)
    ensures match FindCase(s, from)
      case Some(sp) =>
        && BlockMatch(s, sp.start, sp.end)
        && (forall e :: e < sp.end ==> !BlockMatch(s, sp.start, e))
        && (forall c, e :: from <= c < sp.start ==> !BlockMatch(s, c, e))
      case None => forall c, e :: from <= c ==> !BlockMatch(s, c, e)
  {
    match NextWord(s, "CASE", from)
    case None =>
      forall c, e | from <= c ensures !BlockMatch(s, c, e) {
        assert !WordMatch(s, c, "CASE");
      }
    case Some(c) =>
      match NextWord(s, "END", c + 4)
      case None =>
        forall c', e | from <= c' ensures !BlockMatch(s, c', e) {
          NoEndNoBlock(s, from, c, c', e);
        }
      case Some(e) =>
        assert FindCase(s, from) == Some(Span(c, e + 3));
        forall e' | e' < e + 3 ensures !BlockMatch(s, c, e') {
          if c + 4 <= e' - 3 {
            assert !WordMatch(s, e' - 3, "END");
          }
        }
        forall c', e' | from <= c' < c ensures !BlockMatch(s, c', e') {
          assert !WordMatch(s, c', "CASE");
        }
  }

  /** Without a whole word END after the first CASE, no block starts at or after `from`. */
  lemma NoEndNoBlock(s: seq<char>, from: nat, c: nat, c': int, e: int)
    requires NextWord(s, "CASE", from) == Some(c) && NextWord(s, "END", c + 4).None? && from <= c'
    ensures !BlockMatch(s, c', e)
  {
    if WordMatch(s, c', "CASE") && c' + 4 <= e - 3 {
      assert !WordMatch(s, e - 3, "END");
    }
  }

  // ---------------------------------------------------------------------
  // One block.

  /** Where the search for the first WHEN of a block starts: `toUpperCase().indexOf('CASE')`. */
  function CaseStart(b: seq<char>): int {
    IndexOf(UpperStr(b), "CASE", 0)
  }

  /** `firstWhenIndex`: the first WHEN, in any case and not necessarily a word, from the CASE on. */
  function FirstWhen(b: seq<char>): (w: int)
    ensures w == -1 || (0 <= w && w + 4 <= |b| && CiEq(b[w..w + 4], "WHEN"))
  {
    var w := IndexOf(UpperStr(b), "WHEN", CaseStart(b));
    if w >= 0 then
      UpperStrOccurrence(b, w, "WHEN");
      w
    else -1
  }

  /** The block with a space inserted after the WHEN at `w`. */
  function SpaceAfterWhen(b: seq<char>, w: nat): seq<char>
    requires w + 4 <= |b|
  {
    b[..w] + b[w..w + 4] + " " + b[w + 4..]
  }

  function ProcessBlock(b: seq<char>): seq<char> {
    var w := FirstWhen(b);
    if w > -1 then ReplaceAll(EndBreak, ReplaceAll(WhenBreak, SpaceAfterWhen(b, w))) else b
  }

  /** A block of the scan starts with CASE, so the search for its first WHEN starts at 0. */
  lemma BlockCaseStart(s: seq<char>, from: nat)
    requires FindCase(s, from).Some?
    ensures var sp := FindCase(s, from).value;
      CaseStart(s[sp.start..sp.end]) == 0
  {
    var sp := FindCase(s, from).value;
    var b := s[sp.start..sp.end];
    var u := UpperStr(b);
    assert WordMatch(s, sp.start, "CASE");
    assert b[..4] == s[sp.start..sp.start + 4];
    forall k | 0 <= k < 4 ensures u[k] == "CASE"[k] {
      assert Upper(s[sp.start..sp.start + 4][k]) == Upper("CASE"[k]);
    }
    assert u[0..4] == "CASE";
  }

  lemma SpaceAfterWhenSkeleton(b: seq<char>, w: nat)
    requires w + 4 <= |b|
    ensures Skeleton(SpaceAfterWhen(b, w)) == Skeleton(b)
  {
    SkeletonInsertSpace(b[..w] + b[w..w + 4], b[w + 4..]);
    SkeletonAppend(b[..w], b[w..w + 4]);
    SkeletonSplitPrefix(b, w, w + 4);
    SkeletonSplitAt(b, w + 4);
  }

  /**
    The END pass of a block rewrites every `\sEND\b` it meets with "\nEND",
    a text as long as the match, and leaves every other character as it is.
  */
  lemma EndPassWindows(s: seq<char>)
    ensures WindowsExplain(RuleOf(EndBreak), s, ReplaceAll(EndBreak, s), 0)
  {
    var r := RuleOf(EndBreak);
    assert |r.rep| == |"\nEND"| == r.width;
    SameWidthWindows(r, s, 0);
  }

  /** Processing a block only moves whitespace. */
  lemma ProcessBlockSkeleton(b: seq<char>)
    ensures Skeleton(ProcessBlock(b)) == Skeleton(b)
  {
    var w := FirstWhen(b);
    if w > -1 {
      var b' := SpaceAfterWhen(b, w);
      SpaceAfterWhenSkeleton(b, w);
      ReplaceAllSkeleton(WhenBreak, b');
      ReplaceAllSkeleton(EndBreak, ReplaceAll(WhenBreak, b'));
    }
  }

  /** In a block that starts with CASE the first WHEN is the first anywhere in the block. */
  lemma FirstWhenIsFirst(b: seq<char>)
    requires StartsWith(UpperStr(b), "CASE") && FirstWhen(b) >= 0
    ensures NoOccurrence(UpperStr(b), "WHEN", 0, FirstWhen(b))
  {
    assert OccursAt(UpperStr(b), "CASE", 0);
  }

  /** What inserting the space leaves in place. */
  lemma SpaceAfterWhenShape(b: seq<char>, w: nat)
    requires w + 4 <= |b|
    ensures var b' := SpaceAfterWhen(b, w);
      && |b'| == |b| + 1
      && b'[..w + 4] == b[..w + 4]
      && b'[w + 4] == ' '
      && b'[w + 5..] == b[w + 4..]
  {
  }

  /** Before the first WHEN of the upper-cased block, the block has no WHEN in any case. */
  lemma {:induction false} NoWhenBefore(b: seq<char>, w: nat, k: int, j: int)
    requires NoOccurrence(UpperStr(b), "WHEN", 0, w) && 0 <= k < w && j == k + 4 <= |b|
    ensures !CiEq(b[k..j], "WHEN")
  {
    assert !OccursAt(UpperStr(b), "WHEN", k);
    CiWhenAbsent(b, k);
  }

  lemma UpperWhen()
    ensures UpperStr("WHEN") == "WHEN"
  {
    assert UpperStr("WHEN") == [Upper('W')] + UpperStr("HEN");
    assert UpperStr("HEN") == [Upper('H')] + UpperStr("EN");
    assert UpperStr("EN") == [Upper('E')] + UpperStr("N");
    assert UpperStr("N") == [Upper('N')] + UpperStr([]);
  }

  /** A WHEN in any case shows as WHEN in the upper-cased text. */
  lemma CiWhenOccurs(b: seq<char>, k: nat)
    requires k + 4 <= |b| && CiEq(b[k..k + 4], "WHEN")
    ensures OccursAt(UpperStr(b), "WHEN", k)
  {
    UpperWhen();
    CiEqUpperStr(b, k, "WHEN");
  }

  lemma CiWhenAbsent(b: seq<char>, k: nat)
    requires k + 4 <= |b| && !OccursAt(UpperStr(b), "WHEN", k)
    ensures !CiEq(b[k..k + 4], "WHEN")
  {
    if CiEq(b[k..k + 4], "WHEN") {
      CiWhenOccurs(b, k);
      assert false;
    }
  }

  /** Slices inside a common prefix agree. */
  lemma PrefixSlices(x: seq<char>, y: seq<char>, n: nat, k: nat, j: nat)
    requires n <= |x| && n <= |y| && x[..n] == y[..n] && k <= j <= n
    ensures x[k..j] == y[k..j]
  {
    SliceOfSlice(x, 0, n, k, j);
    SliceOfSlice(y, 0, n, k, j);
  }

  /** The WHEN rule does not match the spaced block at `q`, before the first WHEN. */
  lemma {:induction false} NoHitBeforeFirstWhen(b: seq<char>, w: nat, q: nat)
    requires w + 4 <= |b| && NoOccurrence(UpperStr(b), "WHEN", 0, w) && q + 1 < w
    ensures !Hit(RuleOf(WhenBreak), SpaceAfterWhen(b, w), q)
  {
    var b' := SpaceAfterWhen(b, w);
    SpaceAfterWhenShape(b, w);
    HitIsMatch(WhenBreak, b', q);
    NoWhenBefore(b, w, q + 1, q + 5);
    PrefixSlices(b', b, w + 4, q + 1, q + 5);
  }

  /** Before the whitespace ahead of the first WHEN, the WHEN rule does not match the spaced block. */
  lemma {:induction false} NoHitBeforeFirst(b: seq<char>, w: nat)
    requires StartsWith(UpperStr(b), "CASE") && FirstWhen(b) == w >= 1
    ensures forall q :: 0 <= q < w - 1 ==> !Hit(RuleOf(WhenBreak), SpaceAfterWhen(b, w), q)
  {
    FirstWhenIsFirst(b);
    forall q | 0 <= q < w - 1 ensures !Hit(RuleOf(WhenBreak), SpaceAfterWhen(b, w), q) {
      NoHitBeforeFirstWhen(b, w, q);
    }
  }

  /** The first WHEN, with whitespace before it and no CASE ... WHEN later on its line, is a match. */
  lemma {:induction false} FirstWhenMatches(b: seq<char>, w: nat)
    requires FirstWhen(b) == w >= 1 && IsWs(b[w - 1]) && !CaseThenWhenAhead(SpaceAfterWhen(b, w), w + 5)
    ensures WhenMatch(SpaceAfterWhen(b, w), w - 1)
    ensures Hit(RuleOf(WhenBreak), SpaceAfterWhen(b, w), w - 1)
  {
    var b' := SpaceAfterWhen(b, w);
    SpaceAfterWhenShape(b, w);
    PrefixSlices(b', b, w + 4, w, w + 4);
    assert b'[w - 1] == b[w - 1];
    HitIsMatch(WhenBreak, b', w - 1);
  }

  /** The spaced block agrees with the block before the WHEN and after the inserted space. */
  lemma SpaceAfterWhenAround(b: seq<char>, w: nat)
    requires 1 <= w && w + 4 <= |b|
    ensures SpaceAfterWhen(b, w)[0..w - 1] == b[..w - 1]
    ensures SpaceAfterWhen(b, w)[w + 5..] == b[w + 4..]
  {
    SpaceAfterWhenShape(b, w);
    PrefixSlices(SpaceAfterWhen(b, w), b, w + 4, 0, w - 1);
  }

  /**
    The first WHEN of a block is broken onto its own line too: when it
    follows whitespace, and no CASE with a WHEN after it follows it on its
    line, it and the whitespace before it become "\n    WHEN ", followed by
    the character that followed it in the block, so a WHEN followed by a
    space ends up followed by two.
  */
  lemma {:induction false} FirstWhenBroken(b: seq<char>, w: nat)
    requires StartsWith(UpperStr(b), "CASE") && FirstWhen(b) == w >= 1
    requires IsWs(b[w - 1]) && !CaseThenWhenAhead(SpaceAfterWhen(b, w), w + 5)
    ensures var b' := SpaceAfterWhen(b, w);
      && b'[w + 5..] == b[w + 4..]
      && ReplaceAll(WhenBreak, b') == b[..w - 1] + "\n    WHEN " + ReplaceFrom(RuleOf(WhenBreak), b', w + 5)
  {
    NoHitBeforeFirst(b, w);
    FirstWhenMatches(b, w);
    FirstWhenRewritten(b, w);
  }

  /** The WHEN rule copies the spaced block up to its first match, which precedes the WHEN. */
  lemma FirstWhenRewritten(b: seq<char>, w: nat)
    requires 1 <= w && w + 4 <= |b|
    requires forall q :: 0 <= q < w - 1 ==> !Hit(RuleOf(WhenBreak), SpaceAfterWhen(b, w), q)
    requires Hit(RuleOf(WhenBreak), SpaceAfterWhen(b, w), w - 1)
    ensures var b' := SpaceAfterWhen(b, w);
      && b'[w + 5..] == b[w + 4..]
      && ReplaceAll(WhenBreak, b') == b[..w - 1] + "\n    WHEN " + ReplaceFrom(RuleOf(WhenBreak), b', w + 5)
  {
    CopyThenHit(RuleOf(WhenBreak), SpaceAfterWhen(b, w), 0, w - 1, w + 5);
    SpaceAfterWhenAround(b, w);
  }

  /**
    The WHEN pass goes from one match to the next: it copies the text up to
    the next `\sWHEN\s` that is not followed on its line by a whole word
    CASE with a WHEN after it, writes "\n    WHEN " in place of that match
    and goes on after it; with no such match left it copies the rest.
  */
  lemma WhenPassScan(s: seq<char>, i: nat)
    requires i <= |s|
    ensures match NextHit(RuleOf(WhenBreak), s, i)
      case Some(m) =>
        && WhenMatch(s, m)
        && (forall q :: i <= q < m ==> !WhenMatch(s, q))
        && ReplaceFrom(RuleOf(WhenBreak), s, i) == s[i..m] + "\n    WHEN " + ReplaceFrom(RuleOf(WhenBreak), s, m + 6)
      case None =>
        && (forall q :: i <= q ==> !WhenMatch(s, q))
        && ReplaceFrom(RuleOf(WhenBreak), s, i) == s[i..]
  {
    var r := RuleOf(WhenBreak);
    ReplaceFromNextHit(r, s, i);
    forall q | 0 <= q ensures Hit(r, s, q) == WhenMatch(s, q) {
      HitIsMatch(WhenBreak, s, q);
    }
  }

  /** The four letters of a WHEN in any case are not whitespace. */
  lemma WhenLettersNotWs(s: seq<char>, i: nat, d: nat)
    requires i + 4 <= |s| && CiEq(s[i..i + 4], "WHEN") && d < 4
    ensures !IsWs(s[i + d])
  {
    assert Upper(s[i..i + 4][d]) == Upper("WHEN"[d]);
    SameUpperSameClass(s[i + d], "WHEN"[d]);
  }

  /**
    The lookahead exception: a `\sWHEN\s` followed on its line by a whole
    word CASE with a WHEN after it is no match, so the pass copies the
    whitespace before it and the WHEN itself unchanged.
  */
  lemma WhenBeforeCaseCopied(s: seq<char>, i: nat)
    requires i + 6 <= |s| && IsWs(s[i]) && CiEq(s[i + 1..i + 5], "WHEN") && IsWs(s[i + 5])
    requires CaseThenWhenAhead(s, i + 6)
    ensures ReplaceFrom(RuleOf(WhenBreak), s, i) == s[i..i + 5] + ReplaceFrom(RuleOf(WhenBreak), s, i + 5)
  {
    var r := RuleOf(WhenBreak);
    forall q | i <= q < i + 5 ensures !Hit(r, s, q) {
      HitIsMatch(WhenBreak, s, q);
      if q > i {
        WhenLettersNotWs(s, i + 1, q - i - 1);
      }
    }
    CopyUntil(r, s, i, i + 5);
  }

  // ---------------------------------------------------------------------
  // The whole stage.

  /** The scan from `lastPos` on: text between blocks is copied, every block is processed. */
  function CaseBlocksFrom(s: seq<char>, lastPos: nat): seq<char>
    requires lastPos <= |s|
    decreases |s| - lastPos
  {
    match FindCase(s, lastPos)
    case None => s[lastPos..]
    case Some(sp) => s[lastPos..sp.start] + ProcessBlock(s[sp.start..sp.end]) + CaseBlocksFrom(s, sp.end)
  }

  /** One step of the scan: the text before the block, the processed block, the rest. */
  lemma CaseBlocksStep(s: seq<char>, lastPos: nat)
    requires lastPos <= |s| && FindCase(s, lastPos).Some?
    ensures var sp := FindCase(s, lastPos).value;
      CaseBlocksFrom(s, lastPos) == s[lastPos..sp.start] + ProcessBlock(s[sp.start..sp.end]) + CaseBlocksFrom(s, sp.end)
  {
  }

  lemma Regroup(r: seq<char>, a: seq<char>, b: seq<char>, c: seq<char>)
    ensures r + a + b + c == r + (a + b + c)
  {
  }

  function CaseBlocks(s: seq<char>): seq<char> {
    CaseBlocksFrom(s, 0)
  }

  /** The loop of script.js:92-124 and the tail of script.js:122-124. */
  method ExpandCaseBlocks(sql: seq<char>) returns (result: seq<char>)
    ensures result == CaseBlocks(sql)
  {
    result := "";
    var lastPos := 0;
    var m := FindCase(sql, lastPos);
    while m.Some?
      invariant lastPos <= |sql|
      invariant m == FindCase(sql, lastPos)
      invariant result + CaseBlocksFrom(sql, lastPos) == CaseBlocks(sql)
      decreases |sql| - lastPos
    {
      var sp := m.value;
      CaseBlocksStep(sql, lastPos);
      Regroup(result, sql[lastPos..sp.start], ProcessBlock(sql[sp.start..sp.end]), CaseBlocksFrom(sql, sp.end));
      result := result + sql[lastPos..sp.start];
      var caseBlock := sql[sp.start..sp.end];
      result := result + ProcessBlock(caseBlock);
      lastPos := sp.end;
      m := FindCase(sql, lastPos);
    }
    if lastPos < |sql| {
      result := result + sql[lastPos..];
    }
  }

  lemma {:induction false} CaseBlocksSkeleton(s: seq<char>, lastPos: nat)
    requires lastPos <= |s|
    ensures Skeleton(CaseBlocksFrom(s, lastPos)) == Skeleton(s[lastPos..])
    decreases |s| - lastPos
  {
    match FindCase(s, lastPos)
    case None =>
    case Some(sp) =>
      var before := s[lastPos..sp.start];
      var block := s[sp.start..sp.end];
      CaseBlocksSkeleton(s, sp.end);
      ProcessBlockSkeleton(block);
      SuffixSplit3(s, lastPos, sp.start, sp.end);
      SkeletonConcat3(before, ProcessBlock(block), CaseBlocksFrom(s, sp.end), before, block, s[sp.end..]);
  }

  /** Without a whole word CASE followed somewhere by a whole word END the stage changes nothing. */
  lemma CaseBlocksWithoutBlock(s: seq<char>)
    requires forall c, e :: !BlockMatch(s, c, e)
    ensures CaseBlocks(s) == s
  {
    FindCaseLeftmost(s, 0);
    if FindCase(s, 0).Some? {
      assert false;
    }
  }
}
