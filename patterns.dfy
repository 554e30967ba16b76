/**
  The regular expressions of the post-formatter that a global `replace`
  rewrites with a constant text, one hand-written matcher per pattern.
  `\s` is `Chars.IsWs`, `\b` is `Chars.Boundary`, and the `i` flag compares
  ASCII letters without regard to case (`Chars.CiEq`).
*/
module Patterns {
  import opened Chars
  import opened Rewrite

  datatype Pattern =
    | WsKeyword(kw: string)   // /\sKW\s/gi   -> "\nKW "   (script.js:77-78, 83)
    | WordToken(word: string) // /\bword\b/gi -> "WORD"    (script.js:180-181)
    | EndBreak                // /\s(END)\b/gi -> "\nEND"  (script.js:111)
    | WhenBreak               // /\s(WHEN)\s(?!.*?\bCASE\b.*?\1)/gi -> "\n    WHEN " (script.js:108)
    | Semicolon               // /;/g -> ";\n"             (script.js:185)
    | OpenSpace               // /\( /g -> "("             (script.js:64)
    | SpaceClose              // / \)/g -> ")"             (script.js:65)

  /** A pattern that can be scanned: keywords and words are not empty. */
  predicate ValidPattern(p: Pattern) {
    match p
    case WsKeyword(kw) => kw != []
    case WordToken(w) => w != []
    case _ => true
  }

  /** The number of characters a match of `p` spans. */
  function Width(p: Pattern): (n: nat)
    ensures ValidPattern(p) ==> n > 0
  {
    match p
    case WsKeyword(kw) => |kw| + 2
    case WordToken(w) => |w|
    case EndBreak => 4
    case WhenBreak => 6
    case Semicolon => 1
    case OpenSpace => 2
    case SpaceClose => 2
  }

  function Replacement(p: Pattern): string {
    match p
    case WsKeyword(kw) => "\n" + kw + " "
    case WordToken(w) => UpperStr(w)
    case EndBreak => "\nEND"
    case WhenBreak => "\n    WHEN "
    case Semicolon => ";\n"
    case OpenSpace => "("
    case SpaceClose => ")"
  }

  /** A whole word `w` (case-insensitive, `\b` on both sides) at position `c` of `s`. */
  predicate WordMatch(s: seq<char>, c: int, w: string) {
    0 <= c && c + |w| <= |s| && CiEq(s[c..c + |w|], w) && Boundary(s, c) && Boundary(s, c + |w|)
  }

  /** No line terminator in `s[a..b]`. */
  predicate NoLineTerminator(s: seq<char>, a: int, b: int)
    requires 0 <= a && b <= |s|
  {
    forall k :: a <= k < b ==> !IsLineTerminator(s[k])
  }

  /** The first line terminator at or after `j`, or the end of `s`. */
  function LineEnd(s: seq<char>, j: nat): (e: nat)
    requires j <= |s|
    ensures j <= e <= |s|
    ensures NoLineTerminator(s, j, e)
    ensures e < |s| ==> IsLineTerminator(s[e])
    decreases |s| - j
  {
    if j == |s| || IsLineTerminator(s[j]) then j else LineEnd(s, j + 1)
  }

  /** `WHEN` (any case, not necessarily a whole word) starts somewhere in `s[a..e]`. */
  predicate WhenIn(s: seq<char>, a: int, e: int)
    requires 0 <= a && e <= |s|
  {
    exists w :: a <= w && w + 4 <= e && WhenAt(s, w)
  }

  /** `WHEN` in any case at position `w` of `s`. */
  predicate WhenAt(s: seq<char>, w: int) {
    0 <= w && w + 4 <= |s| && CiEq(s[w..w + 4], "WHEN")
  }

  /**
    The lookahead `.*?\bCASE\b.*?\1` from position `j`: on the rest of the
    line there is a whole word CASE with a WHEN (the back-reference, compared
    case-insensitively) after it.
  */
  predicate CaseThenWhenAhead(s: seq<char>, j: nat)
    requires j <= |s|
  {
    var e := LineEnd(s, j);
    exists c :: j <= c && c + 4 <= e && WordMatch(s, c, "CASE") && WhenIn(s, c + 4, e)
  }

  /** `\sKW\s` at position `i`: a keyword, any case, between two whitespace characters. */
  predicate KeywordMatch(s: seq<char>, i: int, kw: string) {
    0 <= i && i + |kw| + 2 <= |s| &&
    IsWs(s[i]) && CiEq(s[i + 1..i + 1 + |kw|], kw) && IsWs(s[i + 1 + |kw|])
  }

  /** `\s(END)\b` at position `i`. */
  predicate EndMatch(s: seq<char>, i: int) {
    0 <= i && i + 4 <= |s| && IsWs(s[i]) && CiEq(s[i + 1..i + 4], "END") && Boundary(s, i + 4)
  }

  /** `\s(WHEN)\s(?!.*?\bCASE\b.*?\1)` at position `i`. */
  predicate WhenMatch(s: seq<char>, i: int) {
    0 <= i && i + 6 <= |s| &&
    IsWs(s[i]) && CiEq(s[i + 1..i + 5], "WHEN") && IsWs(s[i + 5]) && !CaseThenWhenAhead(s, i + 6)
  }

  /** Whether a match of `p` starts at position `i` of `s`. */
  predicate MatchAt(p: Pattern, s: seq<char>, i: int)
    ensures MatchAt(p, s, i) ==> 0 <= i && i + Width(p) <= |s|
  {
    match p
    case WsKeyword(kw) => KeywordMatch(s, i, kw)
    case WordToken(w) => WordMatch(s, i, w)
    case EndBreak => EndMatch(s, i)
    case WhenBreak => WhenMatch(s, i)
    case Semicolon => 0 <= i < |s| && s[i] == ';'
    case OpenSpace => 0 <= i && i + 2 <= |s| && s[i] == '(' && s[i + 1] == ' '
    case SpaceClose => 0 <= i && i + 2 <= |s| && s[i] == ' ' && s[i + 1] == ')'
  }

  /** The scanning rule of `p`: where it matches, how wide a match is, what replaces it. */
  function RuleOf(p: Pattern): (r: Rule)
    requires ValidPattern(p)
    ensures r.width == Width(p) > 0 && r.rep == Replacement(p)
  {
    Rule((s: seq<char>, i: int) => MatchAt(p, s, i), Width(p), Replacement(p))
  }

  lemma HitIsMatch(p: Pattern, s: seq<char>, i: int)
    requires ValidPattern(p)
    ensures Hit(RuleOf(p), s, i) <==> MatchAt(p, s, i)
  {
  }

  /** `s.replace(p, Replacement(p))` with the global flag. */
  function ReplaceAll(p: Pattern, s: seq<char>): seq<char>
    requires ValidPattern(p)
  {
    ReplaceFrom(RuleOf(p), s, 0)
  }

  // ---------------------------------------------------------------------
  // Every replacement keeps the skeleton (whitespace and letter case aside).

  lemma KeywordSkeleton(s: seq<char>, i: nat, j: nat, kw: string)
    requires KeywordMatch(s, i, kw) && j == i + |kw| + 2
    ensures Skeleton(s[i..j]) == Skeleton(kw)
  {
    SkeletonOfFramedCiEq(s, i, j, kw);
  }

  lemma KeywordReplacementSkeleton(kw: string)
    ensures Skeleton("\n" + kw + " ") == Skeleton(kw)
  {
    assert "\n" + kw + " " == ['\n'] + kw + [' '];
    SkeletonWsAround('\n', kw, ' ');
  }

  lemma WordSkeleton(s: seq<char>, i: nat, w: string)
    requires WordMatch(s, i, w)
    ensures Skeleton(s[i..i + |w|]) == Skeleton(UpperStr(w))
  {
    var m := s[i..i + |w|];
    assert CiEq(m, UpperStr(w)) by {
      forall k | 0 <= k < |m| ensures Upper(m[k]) == Upper(UpperStr(w)[k]) {
        UpperClasses(w[k]);
      }
    }
    SkeletonOfCiEq(m, UpperStr(w));
  }

  lemma EndSkeleton(s: seq<char>, i: nat, j: nat)
    requires EndMatch(s, i) && j == i + 4
    ensures Skeleton(s[i..j]) == Skeleton("END")
  {
    SkeletonDropSlice(s, i, j);
    SkeletonOfCiEq(s[i + 1..j], "END");
  }

  lemma EndReplacementSkeleton()
    ensures Skeleton("\nEND") == Skeleton("END")
  {
  }

  lemma WhenSkeleton(s: seq<char>, i: nat, j: nat)
    requires WhenMatch(s, i) && j == i + 6
    ensures Skeleton(s[i..j]) == Skeleton("WHEN")
  {
    SkeletonOfFramedCiEq(s, i, j, "WHEN");
  }

  lemma WhenReplacementSkeleton()
    ensures Skeleton("\n    WHEN ") == Skeleton("WHEN")
  {
  }

  lemma SemicolonSkeleton(s: seq<char>, i: nat, j: nat)
    requires 0 <= i < |s| && s[i] == ';' && j == i + 1
    ensures Skeleton(s[i..j]) == Skeleton(";\n")
  {
    assert s[i..j] == [';'];
  }

  lemma OpenSpaceSkeleton(s: seq<char>, i: nat, j: nat)
    requires i + 2 <= |s| && s[i] == '(' && s[i + 1] == ' ' && j == i + 2
    ensures Skeleton(s[i..j]) == Skeleton("(")
  {
    assert s[i..j] == "( ";
  }

  lemma SpaceCloseSkeleton(s: seq<char>, i: nat, j: nat)
    requires i + 2 <= |s| && s[i] == ' ' && s[i + 1] == ')' && j == i + 2
    ensures Skeleton(s[i..j]) == Skeleton(")")
  {
    assert s[i..j] == " )";
  }

  lemma ReplacementSkeleton(p: Pattern, s: seq<char>, i: nat)
    requires MatchAt(p, s, i)
    ensures Skeleton(s[i..i + Width(p)]) == Skeleton(Replacement(p))
  {
    var j := i + Width(p);
    match p
    case WsKeyword(kw) => KeywordSkeleton(s, i, j, kw); KeywordReplacementSkeleton(kw);
    case WordToken(w) => WordSkeleton(s, i, w);
    case EndBreak => EndSkeleton(s, i, j); EndReplacementSkeleton();
    case WhenBreak => WhenSkeleton(s, i, j); WhenReplacementSkeleton();
    case Semicolon => SemicolonSkeleton(s, i, j);
    case OpenSpace => OpenSpaceSkeleton(s, i, j);
    case SpaceClose => SpaceCloseSkeleton(s, i, j);
  }

  lemma PatternKeepsSkeleton(p: Pattern)
    requires ValidPattern(p)
    ensures KeepsSkeleton(RuleOf(p))
  {
    forall s, i | Hit(RuleOf(p), s, i)
      ensures Skeleton(s[i..i + Width(p)]) == Skeleton(Replacement(p))
    {
      HitIsMatch(p, s, i);
      ReplacementSkeleton(p, s, i);
    }
  }

  /** A global replacement of one of these patterns changes only whitespace and letter case. */
  lemma ReplaceAllSkeleton(p: Pattern, s: seq<char>)
    requires ValidPattern(p)
    ensures Skeleton(ReplaceAll(p, s)) == Skeleton(s)
  {
    PatternKeepsSkeleton(p);
    ReplaceFromSkeleton(RuleOf(p), s, 0);
    assert s[0..] == s;
  }
}
