/**
  The comment fix of `customSqlPostFormatter` (script.js:211):
  `s.replace(/^\s+--/gm, '\n--')`.  At a line start (the start of the text
  or right after a line terminator), a run of whitespace, which may span
  line terminators, followed by "--" is replaced by a line feed and "--".
*/
module Comments {
  import opened Chars
  import opened Lines

  /** The length of the run of whitespace `t` starts with. */
  function WsRun(t: seq<char>): (n: nat)
    ensures n <= |t|
    ensures forall k :: 0 <= k < n ==> IsWs(t[k])
    ensures n < |t| ==> !IsWs(t[n])
  {
    if t == [] || !IsWs(t[0]) then 0 else 1 + WsRun(t[1..])
  }

  /** `t` starts with (possibly no) whitespace followed by "--". */
  predicate DashesAfterWs(t: seq<char>) {
    var e := WsRun(t);
    e + 2 <= |t| && t[e] == '-' && t[e + 1] == '-'
  }

  /** `^` in multiline mode. */
  predicate LineStart(s: seq<char>, p: nat) {
    p == 0 || (p <= |s| && IsLineTerminator(s[p - 1]))
  }

  /** A match of `^\s+--` starts at `p`; greedy `\s+` takes the whole run. */
  predicate CommentAt(s: seq<char>, p: nat) {
    p < |s| && LineStart(s, p) && WsRun(s[p..]) > 0 && DashesAfterWs(s[p..])
  }

  /** One past the "--" of the match at `p`. */
  function MatchEnd(s: seq<char>, p: nat): (e: nat)
    requires CommentAt(s, p)
    ensures p + 3 <= e <= |s|
  {
    p + WsRun(s[p..]) + 2
  }

  /** The output of the global replacement from scan position `i` on. */
  function FixFrom(s: seq<char>, i: nat): seq<char>
    requires i <= |s|
    decreases |s| - i
  {
    if i == |s| then []
    else if CommentAt(s, i) then "\n--" + FixFrom(s, MatchEnd(s, i))
    else [s[i]] + FixFrom(s, i + 1)
  }

  /** The whole stage. */
  function FixComments(s: seq<char>): seq<char> {
    FixFrom(s, 0)
  }

  // ---------------------------------------------------------------------
  // The matches.

  /** A non-empty run of whitespace over `[p, e)`, then "--". */
  predicate RunThenDashes(s: seq<char>, p: nat, e: nat) {
    p < e && e + 2 <= |s| && s[e] == '-' && s[e + 1] == '-' && forall k :: p <= k < e ==> IsWs(s[k])
  }

  /**
    `^\s+--` matches at `p` exactly when `p` is a line start and some
    non-empty run of whitespace from `p` is followed by "--".
  */
  lemma CommentAtMeans(s: seq<char>, p: nat)
    requires p < |s|
    ensures CommentAt(s, p) <==> (LineStart(s, p) && exists e :: RunThenDashes(s, p, e))
  {
    var t := s[p..];
    if CommentAt(s, p) {
      var e := p + WsRun(t);
      assert s[e] == t[e - p] && s[e + 1] == t[e - p + 1];
      forall k | p <= k < e ensures IsWs(s[k]) {
        assert s[k] == t[k - p];
      }
      assert RunThenDashes(s, p, e);
    }
    if LineStart(s, p) && exists e :: RunThenDashes(s, p, e) {
      var e: nat :| RunThenDashes(s, p, e);
      MatchUnique(s, p, e);
      assert t[e - p] == s[e] && t[e - p + 1] == s[e + 1];
    }
  }

  /** Backtracking never shortens the run: the only "--" a run from `p` can reach is the one after all of it. */
  lemma MatchUnique(s: seq<char>, p: nat, e: nat)
    requires p < e && e + 2 <= |s| && s[e] == '-' && (forall k :: p <= k < e ==> IsWs(s[k]))
    ensures e == p + WsRun(s[p..])
  {
    var t := s[p..];
    assert t[e - p] == s[e];
  }

  // ---------------------------------------------------------------------
  // The skeleton.

  lemma MatchSkeleton(s: seq<char>, i: nat)
    requires CommentAt(s, i)
    ensures Skeleton(s[i..MatchEnd(s, i)]) == Skeleton("\n--")
  {
    var t := s[i..];
    var n := WsRun(t);
    var e := i + n;
    SkeletonSplitPrefix(s, i, e);
    assert s[i..e] == t[..n];
    SkeletonOfBlank(s[i..e]);
    assert s[i..e + 2] == s[i..e] + s[e..e + 2];
    SkeletonAppend(s[i..e], s[e..e + 2]);
    assert s[e..e + 2] == "--" by {
      assert s[e] == t[n] && s[e + 1] == t[n + 1];
    }
  }

  /** The fix changes nothing but whitespace. */
  lemma {:induction false} FixFromSkeleton(s: seq<char>, i: nat)
    requires i <= |s|
    ensures Skeleton(FixFrom(s, i)) == Skeleton(s[i..])
    decreases |s| - i
  {
    if i < |s| {
      if CommentAt(s, i) {
        var e := MatchEnd(s, i);
        FixFromSkeleton(s, e);
        MatchSkeleton(s, i);
        SkeletonSplitSuffix(s, i, e);
        SkeletonAppend("\n--", FixFrom(s, e));
      } else {
        FixFromSkeleton(s, i + 1);
        SkeletonSplitSuffix(s, i, i + 1);
        assert s[i..i + 1] == [s[i]];
        SkeletonAppend([s[i]], FixFrom(s, i + 1));
      }
    }
  }

  // ---------------------------------------------------------------------
  // Semicolons.

  /** Where nothing matches, the output starts with the character at the scan position. */
  lemma CopyFirst(s: seq<char>, i: nat)
    requires i < |s| && !CommentAt(s, i)
    ensures FixFrom(s, i) == [s[i]] + FixFrom(s, i + 1)
  {
  }

  /** At a match the output starts with the replacement. */
  lemma MatchFirst(s: seq<char>, i: nat)
    requires CommentAt(s, i)
    ensures FixFrom(s, i) == "\n--" + FixFrom(s, MatchEnd(s, i))
  {
  }

  /** A semicolon and the line feed after it are never part of a match. */
  lemma {:induction false} FixFromSemicolons(s: seq<char>, i: nat)
    requires i <= |s| && SemicolonsFollowed(s[i..])
    ensures SemicolonsFollowed(FixFrom(s, i))
    decreases |s| - i
  {
    if i < |s| {
      var out := FixFrom(s, i);
      var next := if CommentAt(s, i) then MatchEnd(s, i) else i + 1;
      var h := if CommentAt(s, i) then "\n--" else [s[i]];
      var rest := FixFrom(s, next);
      assert out == h + rest;
      assert SemicolonsFollowed(s[next..]) by {
        forall k | 0 <= k < |s[next..]| && s[next..][k] == ';' ensures k + 1 < |s[next..]| && s[next..][k + 1] == '\n' {
          assert s[next..][k] == s[i..][k + next - i];
          assert s[next..][k + 1] == s[i..][k + next - i + 1];
        }
      }
      FixFromSemicolons(s, next);
      if h == [';'] {
        assert s[i..][0] == ';';
        assert s[i + 1] == s[i..][1] == '\n';
        assert !LineStart(s, i + 1);
        CopyFirst(s, i + 1);
      }
      forall k | 0 <= k < |out| && out[k] == ';' ensures k + 1 < |out| && out[k + 1] == '\n' {
        if k >= |h| {
          assert out[k] == rest[k - |h|];
          assert out[k + 1] == rest[k + 1 - |h|];
        } else {
          assert h == [';'] && k == 0;
          assert out[1] == rest[0];
        }
      }
    }
  }

  // ---------------------------------------------------------------------
  // A second fix changes nothing.

  /** Every match left in `t` after position 0 is a lone line feed before "--". */
  predicate StableAfter(t: seq<char>) {
    forall p :: 1 <= p < |t| && CommentAt(t, p) ==> t[p] == '\n' && WsRun(t[p..]) == 1
  }

  /** Every match left in `t` is a lone line feed before "--", which the fix writes back unchanged. */
  predicate Stable(t: seq<char>) {
    forall p :: 0 <= p < |t| && CommentAt(t, p) ==> t[p] == '\n' && WsRun(t[p..]) == 1
  }

  /** What the output starts with. */
  lemma FixFirst(s: seq<char>, j: nat)
    requires j < |s|
    ensures FixFrom(s, j) != []
    ensures FixFrom(s, j)[0] == (if CommentAt(s, j) then '\n' else s[j])
  {
  }

  /** Whitespace in front does not change whether whitespace and "--" start a text. */
  lemma DashesCons(c: char, t: seq<char>)
    requires IsWs(c)
    ensures WsRun([c] + t) == 1 + WsRun(t)
    ensures DashesAfterWs([c] + t) <==> DashesAfterWs(t)
  {
    DropPrefix([c], t);
  }

  /** A text starting with something other than whitespace must start with "--". */
  lemma DashesNoWs(c: char, t: seq<char>)
    requires !IsWs(c)
    ensures DashesAfterWs([c] + t) <==> c == '-' && |t| > 0 && t[0] == '-'
  {
  }

  /** Whitespace and "--" at the start of the output come from whitespace and "--" in the text. */
  lemma {:induction false} DashAhead(s: seq<char>, j: nat)
    requires j <= |s| && DashesAfterWs(FixFrom(s, j))
    ensures DashesAfterWs(s[j..])
    decreases |s| - j
  {
    if j < |s| && !CommentAt(s, j) {
      if IsWs(s[j]) {
        DashCopiedWs(s, j);
        DashAhead(s, j + 1);
        SuffixCons(s, j);
        DashesCons(s[j], s[j + 1..]);
      } else {
        DashCopied(s, j);
      }
    }
  }

  /** Copied whitespace in front of the output does not change whether "--" follows. */
  lemma DashCopiedWs(s: seq<char>, j: nat)
    requires j < |s| && !CommentAt(s, j) && IsWs(s[j]) && DashesAfterWs(FixFrom(s, j))
    ensures DashesAfterWs(FixFrom(s, j + 1))
  {
    CopyFirst(s, j);
    DashesCons(s[j], FixFrom(s, j + 1));
  }

  /** A copied character other than whitespace in front of the output is the first dash of the text. */
  lemma DashCopied(s: seq<char>, j: nat)
    requires j < |s| && !CommentAt(s, j) && !IsWs(s[j]) && DashesAfterWs(FixFrom(s, j))
    ensures DashesAfterWs(s[j..])
  {
    CopyFirst(s, j);
    DashesNoWs(s[j], FixFrom(s, j + 1));
    FixFirst(s, j + 1);
    SuffixCons(s, j);
    DashesNoWs(s[j], s[j + 1..]);
  }

  /** At a line start of the text, a match at the start of the output is a lone line feed before "--". */
  lemma StableStart(s: seq<char>, i: nat)
    requires i <= |s| && LineStart(s, i)
    requires var out := FixFrom(s, i); WsRun(out) > 0 && DashesAfterWs(out)
    ensures FixFrom(s, i)[0] == '\n' && WsRun(FixFrom(s, i)) == 1
  {
    var out := FixFrom(s, i);
    if i < |s| && !CommentAt(s, i) {
      CopyFirst(s, i);
      DashAhead(s, i);
      assert false;
    }
  }

  /** The positions of `h + rest` after `h` inherit `CommentAt` from `rest`. */
  lemma CommentAtShift(h: seq<char>, rest: seq<char>, p: nat)
    requires |h| < p < |h| + |rest|
    ensures CommentAt(h + rest, p) <==> CommentAt(rest, p - |h|)
  {
    var out := h + rest;
    assert out[p..] == rest[p - |h|..];
    assert out[p - 1] == rest[p - |h| - 1];
  }

  lemma {:induction false} FixFromStable(s: seq<char>, i: nat)
    requires i <= |s|
    ensures StableAfter(FixFrom(s, i))
    decreases |s| - i
  {
    if i < |s| {
      var out := FixFrom(s, i);
      var next := if CommentAt(s, i) then MatchEnd(s, i) else i + 1;
      var h := if CommentAt(s, i) then "\n--" else [s[i]];
      var rest := FixFrom(s, next);
      if CommentAt(s, i) {
        MatchFirst(s, i);
      } else {
        CopyFirst(s, i);
      }
      FixFromStable(s, next);
      forall p | 1 <= p < |out| && CommentAt(out, p) ensures out[p] == '\n' && WsRun(out[p..]) == 1 {
        if p > |h| {
          StableShifted(h, rest, p);
        } else if !CommentAt(s, i) {
          StableAfterCopy(s, i, rest);
        }
      }
    }
  }

  /** A match of the output past its first piece is a match of the rest. */
  lemma StableShifted(h: seq<char>, rest: seq<char>, p: nat)
    requires StableAfter(rest) && |h| < p < |h + rest| && CommentAt(h + rest, p)
    ensures (h + rest)[p] == '\n' && WsRun((h + rest)[p..]) == 1
  {
    CommentAtShift(h, rest, p);
    assert (h + rest)[p..] == rest[p - |h|..];
  }

  /** A match right after a copied line terminator is a lone line feed. */
  lemma StableAfterCopy(s: seq<char>, i: nat, rest: seq<char>)
    requires i < |s| && !CommentAt(s, i) && rest == FixFrom(s, i + 1)
    requires 1 < |[s[i]] + rest| && CommentAt([s[i]] + rest, 1)
    ensures ([s[i]] + rest)[1] == '\n' && WsRun(([s[i]] + rest)[1..]) == 1
  {
    DropPrefix([s[i]], rest);
    assert IsLineTerminator(s[i]);
    assert LineStart(s, i + 1);
    StableStart(s, i + 1);
  }

  /** The fix leaves the text in a form the fix does not change. */
  lemma FixStable(s: seq<char>)
    ensures Stable(FixComments(s))
  {
    var out := FixComments(s);
    FixFromStable(s, 0);
    if |out| > 0 && CommentAt(out, 0) {
      assert out[0..] == out;
      StableStart(s, 0);
    }
  }

  /** On a stable text the fix copies everything. */
  lemma {:induction false} StableFixed(t: seq<char>, i: nat)
    requires Stable(t) && i <= |t|
    ensures FixFrom(t, i) == t[i..]
    decreases |t| - i
  {
    if i < |t| {
      if CommentAt(t, i) {
        StableMatch(t, i);
        MatchFirst(t, i);
        StableFixed(t, i + 3);
        SuffixSplit(t, i, i + 3);
      } else {
        CopyFirst(t, i);
        StableFixed(t, i + 1);
        SuffixCons(t, i);
      }
    }
  }

  /** A match in a stable text is a line feed and "--", which the fix writes back. */
  lemma StableMatch(t: seq<char>, i: nat)
    requires Stable(t) && CommentAt(t, i)
    ensures MatchEnd(t, i) == i + 3 && t[i..i + 3] == "\n--"
  {
    var u := t[i..];
    assert u[0] == '\n' && WsRun(u) == 1;
    assert t[i + 1] == u[1] && t[i + 2] == u[2];
  }

  /**
    Stage 8 changes only whitespace, keeps every semicolon followed by a
    line feed, and running it a second time changes nothing.
  */
  lemma FixCommentsSpec(s: seq<char>)
    ensures Skeleton(FixComments(s)) == Skeleton(s)
    ensures SemicolonsFollowed(s) ==> SemicolonsFollowed(FixComments(s))
    ensures FixComments(FixComments(s)) == FixComments(s)
  {
    assert s[0..] == s;
    FixFromSkeleton(s, 0);
    if SemicolonsFollowed(s) {
      FixFromSemicolons(s, 0);
    }
    FixStable(s);
    StableFixed(FixComments(s), 0);
    assert FixComments(s)[0..] == FixComments(s);
  }

  /** An indented comment line is moved to the start of its line, and a blank line appears before it. */
  lemma IndentedCommentGetsBlankLine()
    ensures FixComments("a\n --") == "a\n\n--"
  {
    var s := "a\n --";
    assert !CommentAt(s, 0) && !CommentAt(s, 1);
    assert s[2..] == " --" && WsRun(s[2..]) == 1;
    assert CommentAt(s, 2) && MatchEnd(s, 2) == 5;
  }
}
