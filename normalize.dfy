/**
  Stage 1 of `customSqlPostFormatter` (script.js:55-65): every line break
  becomes a space, every run of whitespace one space, the indentation of
  every line goes, and the space just inside a parenthesis goes.
*/
module Normalize {
  import opened Chars
  import opened Rewrite
  import opened Patterns

  /** Every whitespace character of `t` is a plain space. */
  predicate SpacesOnly(t: seq<char>) {
    forall k :: 0 <= k < |t| ==> IsWs(t[k]) ==> t[k] == ' '
  }

  /** No two whitespace characters of `t` are adjacent. */
  predicate NoDoubleWs(t: seq<char>) {
    forall k :: 0 <= k < |t| - 1 ==> !(IsWs(t[k]) && IsWs(t[k + 1]))
  }

  /** `t` does not contain the two-character text `[a, b]`. */
  predicate NoPair(t: seq<char>, a: char, b: char) {
    forall k :: 0 <= k < |t| - 1 ==> !(t[k] == a && t[k + 1] == b)
  }

  /** What stage 1 promises of its output. */
  predicate Tidy(t: seq<char>) {
    SpacesOnly(t) && NoDoubleWs(t)
  }

  /** Putting a character in front of a tidy text that does not start a double whitespace. */
  lemma ConsTidy(c: char, t: seq<char>)
    requires Tidy(t) && (IsWs(c) ==> c == ' ') && !(|t| > 0 && IsWs(c) && IsWs(t[0]))
    ensures Tidy([c] + t)
  {
    var u := [c] + t;
    forall k | 0 < k < |u| ensures u[k] == t[k - 1] { }
  }

  /** Putting a character in front of a text that does not start the pair `[a, b]`. */
  lemma ConsNoPair(c: char, t: seq<char>, a: char, b: char)
    requires NoPair(t, a, b) && !(|t| > 0 && c == a && t[0] == b)
    ensures NoPair([c] + t, a, b)
  {
    var u := [c] + t;
    forall k | 0 < k < |u| ensures u[k] == t[k - 1] { }
  }

  // ---------------------------------------------------------------------
  // Every line feed, with a carriage return before it if there is one, becomes a space (script.js:55).

  function LineBreaksToSpaces(s: seq<char>): (r: seq<char>)
    ensures '\n' !in r
    ensures |r| <= |s|
  {
    if s == [] then []
    else if |s| >= 2 && s[0] == '\r' && s[1] == '\n' then [' '] + LineBreaksToSpaces(s[2..])
    else if s[0] == '\n' then [' '] + LineBreaksToSpaces(s[1..])
    else [s[0]] + LineBreaksToSpaces(s[1..])
  }

  lemma {:induction false} LineBreaksToSpacesSkeleton(s: seq<char>)
    ensures Skeleton(LineBreaksToSpaces(s)) == Skeleton(s)
  {
    if s != [] {
      if |s| >= 2 && s[0] == '\r' && s[1] == '\n' {
        LineBreaksToSpacesSkeleton(s[2..]);
        assert s[1..][1..] == s[2..];
        SkeletonCons(' ', LineBreaksToSpaces(s[2..]));
      } else {
        LineBreaksToSpacesSkeleton(s[1..]);
        SkeletonCons(LineBreaksToSpaces(s)[0], LineBreaksToSpaces(s[1..]));
      }
    }
  }

  // ---------------------------------------------------------------------
  // Each run of whitespace becomes one space (script.js:58).

  /** `s` without its leading whitespace. */
  function DropWs(s: seq<char>): (t: seq<char>)
    ensures |t| <= |s| && t == s[|s| - |t|..]
    ensures t == [] || !IsWs(t[0])
    ensures s != [] && IsWs(s[0]) ==> |t| < |s|
    ensures forall k :: 0 <= k < |s| - |t| ==> IsWs(s[k])
  {
    if s != [] && IsWs(s[0]) then DropWs(s[1..]) else s
  }

  function CollapseWs(s: seq<char>): (r: seq<char>)
    ensures Tidy(r)
    ensures |r| <= |s|
    ensures s == [] <==> r == []
    ensures s != [] ==> r[0] == if IsWs(s[0]) then ' ' else s[0]
    decreases |s|
  {
    if s == [] then []
    else if IsWs(s[0]) then
      var t := DropWs(s);
      var r' := CollapseWs(t);
      ConsTidy(' ', r');
      [' '] + r'
    else
      var r' := CollapseWs(s[1..]);
      ConsTidy(s[0], r');
      [s[0]] + r'
  }

  lemma {:induction false} CollapseWsSkeleton(s: seq<char>)
    ensures Skeleton(CollapseWs(s)) == Skeleton(s)
    decreases |s|
  {
    if s != [] {
      if IsWs(s[0]) {
        var t := DropWs(s);
        CollapseWsSkeleton(t);
        var n := |s| - |t|;
        SkeletonSplitAt(s, n);
        SkeletonOfBlank(s[..n]);
        SkeletonCons(' ', CollapseWs(t));
      } else {
        CollapseWsSkeleton(s[1..]);
        SkeletonCons(s[0], s[1..]);
        SkeletonCons(s[0], CollapseWs(s[1..]));
        assert s == [s[0]] + s[1..];
      }
    }
  }

  // ---------------------------------------------------------------------
  // Spaces and tabs at the start of a line are removed (script.js:61).

  predicate IsBlank(c: char) {
    c == ' ' || c == '\t'
  }

  /** `^` in multiline mode: the start of the text or just after a line terminator. */
  predicate LineStart(s: seq<char>, i: int) {
    i == 0 || (0 < i <= |s| && IsLineTerminator(s[i - 1]))
  }

  /** The end of the run of spaces and tabs that starts at `i`. */
  function SkipBlanks(s: seq<char>, i: nat): (j: nat)
    requires i <= |s|
    ensures i <= j <= |s|
    ensures j < |s| ==> !IsBlank(s[j])
    ensures forall k :: i <= k < j ==> IsBlank(s[k])
    decreases |s| - i
  {
    if i < |s| && IsBlank(s[i]) then SkipBlanks(s, i + 1) else i
  }

  function StripIndentFrom(s: seq<char>, i: nat): seq<char>
    requires i <= |s|
    decreases |s| - i
  {
    if i == |s| then []
    else if LineStart(s, i) && IsBlank(s[i]) then StripIndentFrom(s, SkipBlanks(s, i))
    else [s[i]] + StripIndentFrom(s, i + 1)
  }

  function StripIndent(s: seq<char>): seq<char> {
    StripIndentFrom(s, 0)
  }

  lemma {:induction false} StripIndentSkeleton(s: seq<char>, i: nat)
    requires i <= |s|
    ensures Skeleton(StripIndentFrom(s, i)) == Skeleton(s[i..])
    decreases |s| - i
  {
    if i < |s| {
      if LineStart(s, i) && IsBlank(s[i]) {
        var j := SkipBlanks(s, i);
        StripIndentSkeleton(s, j);
        SkeletonSplitSuffix(s, i, j);
        BlanksSkeleton(s, i, j);
      } else {
        StripIndentSkeleton(s, i + 1);
        SuffixCons(s, i);
        SkeletonCons(s[i], s[i + 1..]);
        SkeletonCons(s[i], StripIndentFrom(s, i + 1));
      }
    }
  }

  /** A run of spaces and tabs has an empty skeleton. */
  lemma BlanksSkeleton(s: seq<char>, i: nat, j: nat)
    requires i <= j <= |s| && forall k :: i <= k < j ==> IsBlank(s[k])
    ensures Skeleton(s[i..j]) == []
  {
    forall k | 0 <= k < j - i ensures IsWs(s[i..j][k]) {
      assert s[i..j][k] == s[i + k];
    }
    SkeletonOfBlank(s[i..j]);
  }

  /** Without line terminators the only line start is the start of the text. */
  lemma {:induction false} StripIndentOneLine(s: seq<char>, i: nat)
    requires 0 < i <= |s| && forall k :: 0 <= k < |s| ==> !IsLineTerminator(s[k])
    ensures StripIndentFrom(s, i) == s[i..]
    decreases |s| - i
  {
    if i < |s| {
      StripIndentOneLine(s, i + 1);
      SuffixCons(s, i);
    }
  }

  /** On a tidy text the pass removes at most one leading space and nothing else. */
  lemma StripIndentTidy(s: seq<char>)
    requires Tidy(s)
    ensures var r := StripIndent(s);
      && Tidy(r)
      && (r == [] || r[0] != ' ')
  {
    forall k | 0 <= k < |s| ensures !IsLineTerminator(s[k]) {
      if IsWs(s[k]) { assert s[k] == ' '; }
    }
    var r := StripIndent(s);
    if s != [] {
      if IsBlank(s[0]) {
        var j := SkipBlanks(s, 0);
        assert j == 1 by {
          if |s| > 1 { assert !(IsWs(s[0]) && IsWs(s[1])); }
        }
        if j < |s| { StripIndentOneLine(s, j); } else { assert s[j..] == []; }
        assert r == s[1..];
      } else {
        StripIndentOneLine(s, 1);
        assert r == [s[0]] + s[1..];
        assert r == s;
      }
      assert forall k :: 0 <= k < |r| ==> r[k] == s[k + |s| - |r|];
    }
  }

  // ---------------------------------------------------------------------
  // The space after `(` and the space before `)` are removed (script.js:64-65).

  function TightenOpen(s: seq<char>): seq<char> {
    ReplaceAll(OpenSpace, s)
  }

  function TightenClose(s: seq<char>): seq<char> {
    ReplaceAll(SpaceClose, s)
  }

  lemma {:induction false} TightenOpenFrom(s: seq<char>, i: nat)
    requires Tidy(s) && i <= |s|
    ensures var r := ReplaceFrom(RuleOf(OpenSpace), s, i);
      && Tidy(r)
      && NoPair(r, '(', ' ')
      && (r == [] <==> i == |s|)
      && (i < |s| ==> r[0] == s[i])
    decreases |s| - i
  {
    var rule := RuleOf(OpenSpace);
    if i < |s| {
      HitIsMatch(OpenSpace, s, i);
      if Hit(rule, s, i) {
        var r' := ReplaceFrom(rule, s, i + 2);
        HitStep(rule, s, i);
        TightenOpenFrom(s, i + 2);
        if i + 2 < |s| {
          assert !(IsWs(s[i + 1]) && IsWs(s[i + 2]));
        }
        ConsTidy('(', r');
        ConsNoPair('(', r', '(', ' ');
      } else {
        var r' := ReplaceFrom(rule, s, i + 1);
        CopyStep(rule, s, i);
        TightenOpenFrom(s, i + 1);
        if i + 1 < |s| {
          assert !(IsWs(s[i]) && IsWs(s[i + 1]));
        }
        ConsTidy(s[i], r');
        ConsNoPair(s[i], r', '(', ' ');
      }
    }
  }

  /** What the closing-parenthesis pass writes from scan position `i` on. */
  predicate ClosedFrom(s: seq<char>, i: nat, r: seq<char>)
    requires i <= |s|
  {
    && Tidy(r)
    && NoPair(r, '(', ' ')
    && NoPair(r, ' ', ')')
    && (r == [] <==> i == |s|)
    && (i < |s| ==> r[0] == if s[i] == ' ' && i + 1 < |s| && s[i + 1] == ')' then ')' else s[i])
  }

  lemma {:induction false} TightenCloseFrom(s: seq<char>, i: nat)
    requires Tidy(s) && NoPair(s, '(', ' ') && i <= |s|
    ensures ClosedFrom(s, i, ReplaceFrom(RuleOf(SpaceClose), s, i))
    decreases |s| - i
  {
    var rule := RuleOf(SpaceClose);
    if i < |s| {
      HitIsMatch(SpaceClose, s, i);
      if Hit(rule, s, i) {
        var r' := ReplaceFrom(rule, s, i + 2);
        HitStep(rule, s, i);
        TightenCloseFrom(s, i + 2);
        ClosedHit(s, i, r');
      } else {
        var r' := ReplaceFrom(rule, s, i + 1);
        CopyStep(rule, s, i);
        TightenCloseFrom(s, i + 1);
        ClosedCopy(s, i, r');
      }
    }
  }

  /** A removed space before `)`. */
  lemma ClosedHit(s: seq<char>, i: nat, r': seq<char>)
    requires Tidy(s) && i + 1 < |s| && s[i] == ' ' && s[i + 1] == ')' && ClosedFrom(s, i + 2, r')
    ensures ClosedFrom(s, i, [')'] + r')
  {
    ConsTidy(')', r');
    ConsNoPair(')', r', '(', ' ');
    ConsNoPair(')', r', ' ', ')');
  }

  /** A copied character that is not a space before `)`. */
  lemma ClosedCopy(s: seq<char>, i: nat, r': seq<char>)
    requires Tidy(s) && NoPair(s, '(', ' ') && i < |s| && ClosedFrom(s, i + 1, r')
    requires !(s[i] == ' ' && i + 1 < |s| && s[i + 1] == ')')
    ensures ClosedFrom(s, i, [s[i]] + r')
  {
    if i + 1 < |s| {
      assert !(IsWs(s[i]) && IsWs(s[i + 1]));
      assert !(s[i] == '(' && s[i + 1] == ' ');
      if i + 2 < |s| {
        assert !(IsWs(s[i + 1]) && IsWs(s[i + 2]));
      }
    }
    ConsTidy(s[i], r');
    ConsNoPair(s[i], r', '(', ' ');
    ConsNoPair(s[i], r', ' ', ')');
  }

  // ---------------------------------------------------------------------
  // The whole stage.

  function NormalizeWhitespace(s: seq<char>): seq<char> {
    TightenClose(TightenOpen(StripIndent(CollapseWs(LineBreaksToSpaces(s)))))
  }

  /**
    After stage 1 the only whitespace is single spaces (so no line feed,
    carriage return or tab is left), the text does not start with a space,
    and it contains neither "( " nor " )"; only whitespace has changed.
  */
  lemma NormalizeShape(s: seq<char>)
    ensures var r := NormalizeWhitespace(s);
      && SpacesOnly(r)
      && NoDoubleWs(r)
      && (r == [] || r[0] != ' ')
      && NoPair(r, '(', ' ')
      && NoPair(r, ' ', ')')
      && Skeleton(r) == Skeleton(s)
  {
    var a := LineBreaksToSpaces(s);
    var b := CollapseWs(a);
    var c := StripIndent(b);
    var d := TightenOpen(c);
    var e := TightenClose(d);
    StripIndentTidy(b);
    TightenOpenFrom(c, 0);
    TightenCloseFrom(d, 0);
    if d != [] {
      assert d[0] == c[0];
      assert d[0] != ' ';
    }
    LineBreaksToSpacesSkeleton(s);
    CollapseWsSkeleton(a);
    StripIndentSkeleton(b, 0);
    assert b[0..] == b;
    ReplaceAllSkeleton(OpenSpace, c);
    ReplaceAllSkeleton(SpaceClose, d);
  }
}
