/**
  Stage 6 of `customSqlPostFormatter` (script.js:185): a line feed after
  every semicolon, `s.replace(/;/g, ';\n')`.
*/
module Semicolons {
  import opened Chars
  import opened Rewrite
  import opened Patterns
  import opened Lines

  /** The whole stage. */
  function BreakSemicolons(s: seq<char>): seq<char> {
    ReplaceAll(Semicolon, s)
  }

  /** Drops the line feed right after each semicolon, scanning from the left. */
  function Unbreak(t: seq<char>): (r: seq<char>)
    ensures |r| <= |t|
  {
    if t == [] then []
    else if |t| >= 2 && t[0] == ';' && t[1] == '\n' then [';'] + Unbreak(t[2..])
    else [t[0]] + Unbreak(t[1..])
  }

  /** The scan from `i` at a semicolon writes it with a line feed; elsewhere it copies. */
  lemma SemicolonStep(s: seq<char>, i: nat)
    requires i < |s|
    ensures ReplaceFrom(RuleOf(Semicolon), s, i) ==
      (if s[i] == ';' then ";\n" else [s[i]]) + ReplaceFrom(RuleOf(Semicolon), s, i + 1)
  {
    HitIsMatch(Semicolon, s, i);
  }

  /** Dropping the added line feeds gives the text back. */
  lemma {:induction false} UnbreakFrom(s: seq<char>, i: nat)
    requires i <= |s|
    ensures Unbreak(ReplaceFrom(RuleOf(Semicolon), s, i)) == s[i..]
    decreases |s| - i
  {
    if i < |s| {
      var rest := ReplaceFrom(RuleOf(Semicolon), s, i + 1);
      SemicolonStep(s, i);
      UnbreakFrom(s, i + 1);
      SuffixCons(s, i);
      if s[i] == ';' {
        assert (";\n" + rest)[2..] == rest;
      } else {
        assert ([s[i]] + rest)[1..] == rest;
      }
    }
  }

  /** A piece the scan writes in front of a text with every semicolon broken. */
  lemma BrokenPrepend(h: seq<char>, rest: seq<char>)
    requires h == ";\n" || (|h| == 1 && h[0] != ';')
    requires SemicolonsFollowed(rest)
    ensures SemicolonsFollowed(h + rest)
  {
    var out := h + rest;
    forall k | 0 <= k < |out| && out[k] == ';' ensures k + 1 < |out| && out[k + 1] == '\n' {
      if k >= |h| {
        assert out[k] == rest[k - |h|];
        assert out[k + 1] == rest[k + 1 - |h|];
      }
    }
  }

  /** The scan from `i` leaves every semicolon followed by a line feed. */
  lemma {:induction false} BrokenFrom(s: seq<char>, i: nat)
    requires i <= |s|
    ensures SemicolonsFollowed(ReplaceFrom(RuleOf(Semicolon), s, i))
    decreases |s| - i
  {
    if i < |s| {
      SemicolonStep(s, i);
      BrokenFrom(s, i + 1);
      BrokenPrepend(if s[i] == ';' then ";\n" else [s[i]], ReplaceFrom(RuleOf(Semicolon), s, i + 1));
    }
  }

  /** Counting from `i`: one character, and one line feed, more per semicolon. */
  lemma {:induction false} CountsFrom(s: seq<char>, i: nat)
    requires i <= |s|
    ensures var out := ReplaceFrom(RuleOf(Semicolon), s, i);
      && |out| == |s| - i + Count(s[i..], ';')
      && Count(out, '\n') == Count(s[i..], '\n') + Count(s[i..], ';')
    decreases |s| - i
  {
    if i == |s| {
      assert s[i..] == [];
    } else {
      var rest := ReplaceFrom(RuleOf(Semicolon), s, i + 1);
      var h := if s[i] == ';' then ";\n" else [s[i]];
      SemicolonStep(s, i);
      CountsFrom(s, i + 1);
      SuffixCons(s, i);
      CountAppend([s[i]], s[i + 1..], ';');
      CountAppend([s[i]], s[i + 1..], '\n');
      CountAppend(h, rest, '\n');
    }
  }

  /**
    Stage 6 puts a line feed after every semicolon and changes nothing
    else: removing those line feeds gives the text back, the text grows by
    the number of semicolons, and the skeleton is the same.
  */
  lemma BreakSemicolonsSpec(s: seq<char>)
    ensures SemicolonsFollowed(BreakSemicolons(s))
    ensures Unbreak(BreakSemicolons(s)) == s
    ensures |BreakSemicolons(s)| == |s| + Count(s, ';')
    ensures Count(BreakSemicolons(s), '\n') == Count(s, '\n') + Count(s, ';')
    ensures Skeleton(BreakSemicolons(s)) == Skeleton(s)
  {
    UnbreakFrom(s, 0);
    BrokenFrom(s, 0);
    CountsFrom(s, 0);
    assert s[0..] == s;
    ReplaceAllSkeleton(Semicolon, s);
  }
}
