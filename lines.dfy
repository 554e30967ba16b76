/**
  `split('\n')`, `join('\n')` and `trim()` of JavaScript strings, and what
  prefixing some lines with four spaces does to a text.
*/
module Lines {
  import opened Chars

  /** `s.split('\n')`: the pieces between line feeds; there is always at least one. */
  function Split(s: seq<char>): (ls: seq<seq<char>>)
    ensures |ls| >= 1
    decreases |s|
  {
    if s == [] then [[]]
    else
      var r := Split(s[1..]);
      if s[0] == '\n' then [[]] + r else [[s[0]] + r[0]] + r[1..]
  }

  /** `ls.join('\n')`. */
  function Join(ls: seq<seq<char>>): seq<char>
    decreases |ls|
  {
    if ls == [] then [] else if |ls| == 1 then ls[0] else ls[0] + "\n" + Join(ls[1..])
  }

  /** No piece holds a line feed. */
  predicate NoLineFeeds(ls: seq<seq<char>>) {
    forall i :: 0 <= i < |ls| ==> '\n' !in ls[i]
  }

  lemma JoinCons(a: seq<char>, ls: seq<seq<char>>)
    requires ls != []
    ensures Join([a] + ls) == a + "\n" + Join(ls)
  {
    assert ([a] + ls)[1..] == ls;
  }

  /** Joining the pieces gives the text back. */
  lemma {:induction false} JoinSplit(s: seq<char>)
    ensures Join(Split(s)) == s
    decreases |s|
  {
    if s != [] {
      var r := Split(s[1..]);
      JoinSplit(s[1..]);
      if s[0] == '\n' {
        JoinCons([], r);
        assert s == "\n" + s[1..];
      } else if |r| == 1 {
        assert Split(s) == [[s[0]] + r[0]];
        assert s == [s[0]] + s[1..];
      } else {
        assert r == [r[0]] + r[1..];
        JoinCons(r[0], r[1..]);
        JoinCons([s[0]] + r[0], r[1..]);
        assert s == [s[0]] + s[1..];
      }
    }
  }

  lemma {:induction false} SplitLineFeeds(s: seq<char>)
    ensures NoLineFeeds(Split(s))
    ensures |Split(s)| == Count(s, '\n') + 1
    decreases |s|
  {
    if s != [] {
      SplitLineFeeds(s[1..]);
      var r := Split(s[1..]);
      if s[0] != '\n' {
        assert '\n' !in r[0];
        forall i | 0 <= i < |Split(s)| ensures '\n' !in Split(s)[i] {
          if i > 0 {
            assert Split(s)[i] == r[i];
          }
        }
      } else {
        forall i | 0 <= i < |Split(s)| ensures '\n' !in Split(s)[i] {
          if i > 0 {
            assert Split(s)[i] == r[i - 1];
          }
        }
      }
    }
  }

  /** Splitting a text that starts with a piece free of line feeds. */
  lemma {:induction false} SplitPrefix(a: seq<char>, t: seq<char>)
    requires '\n' !in a
    ensures Split(a + t) == [a + Split(t)[0]] + Split(t)[1..]
    decreases |a|
  {
    if a != [] {
      assert (a + t)[0] == a[0] != '\n' && (a + t)[1..] == a[1..] + t;
      assert '\n' !in a[1..];
      SplitPrefix(a[1..], t);
      var r := Split(a[1..] + t);
      assert r[0] == a[1..] + Split(t)[0] && r[1..] == Split(t)[1..];
      assert Split(a + t) == [[a[0]] + r[0]] + r[1..];
      assert [a[0]] + (a[1..] + Split(t)[0]) == a + Split(t)[0];
    } else {
      assert a + t == t && a + Split(t)[0] == Split(t)[0];
      assert Split(t) == [Split(t)[0]] + Split(t)[1..];
    }
  }

  /** Splitting joined pieces that hold no line feed gives the pieces back. */
  lemma {:induction false} SplitJoin(ls: seq<seq<char>>)
    requires ls != [] && NoLineFeeds(ls)
    ensures Split(Join(ls)) == ls
    decreases |ls|
  {
    if |ls| == 1 {
      assert '\n' !in ls[0];
      SplitPrefix(ls[0], []);
      assert ls[0] + [] == ls[0];
      assert ls == [ls[0]];
    } else {
      var rest := Join(ls[1..]);
      assert NoLineFeeds(ls[1..]) by {
        forall i | 0 <= i < |ls[1..]| ensures '\n' !in ls[1..][i] {
          assert ls[1..][i] == ls[i + 1];
        }
      }
      SplitJoin(ls[1..]);
      assert '\n' !in ls[0];
      assert ls[0] + "\n" + rest == ls[0] + ("\n" + rest);
      assert Join(ls) == ls[0] + ("\n" + rest);
      SplitPrefix(ls[0], "\n" + rest);
      assert ("\n" + rest)[0] == '\n' && ("\n" + rest)[1..] == rest;
      var u := Split("\n" + rest);
      assert u == [[]] + ls[1..];
      assert u[0] == [] && u[1..] == ls[1..];
      assert ls[0] + u[0] == ls[0];
      assert ls == [ls[0]] + ls[1..];
    }
  }

  // ---------------------------------------------------------------------
  // trim()

  /** Where `trim` starts: the first character that is not whitespace, or the end. */
  function TrimStart(s: seq<char>, i: nat): (a: nat)
    requires i <= |s|
    ensures i <= a <= |s|
    ensures forall k :: i <= k < a ==> IsWs(s[k])
    ensures a < |s| ==> !IsWs(s[a])
    decreases |s| - i
  {
    if i == |s| || !IsWs(s[i]) then i else TrimStart(s, i + 1)
  }

  /** Where `trim` ends: one past the last character of `s[a..j]` that is not whitespace, or `a`. */
  function TrimEnd(s: seq<char>, a: nat, j: nat): (b: nat)
    requires a <= j <= |s|
    ensures a <= b <= j
    ensures forall k :: b <= k < j ==> IsWs(s[k])
    ensures b > a ==> !IsWs(s[b - 1])
    decreases j
  {
    if j == a || !IsWs(s[j - 1]) then j else TrimEnd(s, a, j - 1)
  }

  /**
    `s.trim()`: `s` without its leading and trailing whitespace; what is cut
    off is whitespace, and what is left neither starts nor ends with it.
  */
  function Trim(s: seq<char>): (r: seq<char>)
    ensures exists a, b :: (0 <= a <= b <= |s| && r == s[a..b]
      && (forall k :: 0 <= k < a ==> IsWs(s[k])) && (forall k :: b <= k < |s| ==> IsWs(s[k])))
    ensures r != [] ==> !IsWs(r[0]) && !IsWs(r[|r| - 1])
  {
    var a := TrimStart(s, 0);
    var b := TrimEnd(s, a, |s|);
    s[a..b]
  }

  /** `!s.trim()`: the trimmed text is empty exactly when every character is whitespace. */
  lemma TrimEmpty(s: seq<char>)
    ensures Trim(s) == [] <==> forall k :: 0 <= k < |s| ==> IsWs(s[k])
  {
    var a := TrimStart(s, 0);
    var b := TrimEnd(s, a, |s|);
    if Trim(s) == [] {
      assert a == b;
      if a < |s| {
        assert false;
      }
    }
  }

  // ---------------------------------------------------------------------
  // Lines prefixed with four spaces.

  /** Each line of `ls'` is the line of `ls` or that line after four spaces. */
  predicate Padded(ls: seq<seq<char>>, ls': seq<seq<char>>) {
    |ls'| == |ls| && forall i :: 0 <= i < |ls| ==> ls'[i] == ls[i] || ls'[i] == "    " + ls[i]
  }

  /** Every semicolon of `a` is its last character or followed by a line feed. */
  predicate SemicolonsEndLines(a: seq<char>) {
    forall k :: 0 <= k < |a| && a[k] == ';' ==> k + 1 == |a| || a[k + 1] == '\n'
  }

  /** Every semicolon of `a` is followed by a line feed. */
  predicate SemicolonsFollowed(a: seq<char>) {
    forall k :: 0 <= k < |a| && a[k] == ';' ==> k + 1 < |a| && a[k + 1] == '\n'
  }

  lemma PadLine(a: seq<char>, a': seq<char>)
    requires a' == a || a' == "    " + a
    ensures Skeleton(a') == Skeleton(a) && Count(a', '\n') == Count(a, '\n')
    ensures SemicolonsEndLines(a) ==> SemicolonsEndLines(a')
    ensures SemicolonsFollowed(a) ==> SemicolonsFollowed(a')
  {
    if a' != a {
      SkeletonAppend("    ", a);
      CountAppend("    ", a, '\n');
      forall k | 0 <= k < |a'| && a'[k] == ';' ensures k >= 4 && a'[k] == a[k - 4] {
      }
      if SemicolonsEndLines(a) {
        forall k | 0 <= k < |a'| && a'[k] == ';' ensures k + 1 == |a'| || a'[k + 1] == '\n' {
          assert a[k - 4] == ';';
          assert k + 1 == |a'| || a'[k + 1] == a[k - 3];
        }
      }
      if SemicolonsFollowed(a) {
        forall k | 0 <= k < |a'| && a'[k] == ';' ensures k + 1 < |a'| && a'[k + 1] == '\n' {
          assert a[k - 4] == ';';
          assert a'[k + 1] == a[k - 3];
        }
      }
    }
  }

  /** Semicolons around the line feed between a line and the rest of the text. */
  lemma SemicolonsAcrossLine(a: seq<char>, t: seq<char>)
    ensures SemicolonsFollowed(a + "\n" + t) <==> SemicolonsEndLines(a) && SemicolonsFollowed(t)
  {
    var x := a + "\n" + t;
    if SemicolonsFollowed(x) {
      forall k | 0 <= k < |t| && t[k] == ';' ensures k + 1 < |t| && t[k + 1] == '\n' {
        assert x[|a| + 1 + k] == t[k];
        assert x[|a| + 2 + k] == '\n';
      }
      forall k | 0 <= k < |a| && a[k] == ';' ensures k + 1 == |a| || a[k + 1] == '\n' {
        assert x[k] == a[k];
        if k + 1 < |a| {
          assert x[k + 1] == a[k + 1];
        }
      }
    }
    if SemicolonsEndLines(a) && SemicolonsFollowed(t) {
      forall k | 0 <= k < |x| && x[k] == ';' ensures k + 1 < |x| && x[k + 1] == '\n' {
        if k < |a| {
          assert x[k] == a[k];
          if k + 1 < |a| {
            assert x[k + 1] == a[k + 1];
          }
        } else {
          assert k > |a| && x[k] == t[k - |a| - 1];
          assert x[k + 1] == t[k - |a|];
        }
      }
    }
  }

  /**
    Prefixing lines with four spaces keeps the skeleton, the line feeds and
    the property that every semicolon is followed by a line feed.
  */
  lemma {:induction false} PaddedJoin(ls: seq<seq<char>>, ls': seq<seq<char>>)
    requires Padded(ls, ls')
    ensures Skeleton(Join(ls')) == Skeleton(Join(ls))
    ensures Count(Join(ls'), '\n') == Count(Join(ls), '\n')
    ensures SemicolonsFollowed(Join(ls)) ==> SemicolonsFollowed(Join(ls'))
    decreases |ls|
  {
    if |ls| == 1 {
      PadLine(ls[0], ls'[0]);
    } else if |ls| > 1 {
      PadLine(ls[0], ls'[0]);
      assert Padded(ls[1..], ls'[1..]) by {
        forall i | 0 <= i < |ls[1..]| ensures ls'[1..][i] == ls[1..][i] || ls'[1..][i] == "    " + ls[1..][i] {
          assert ls[1..][i] == ls[i + 1] && ls'[1..][i] == ls'[i + 1];
        }
      }
      PaddedJoin(ls[1..], ls'[1..]);
      var t, t' := Join(ls[1..]), Join(ls'[1..]);
      SkeletonAppend(ls[0] + "\n", t);
      SkeletonAppend(ls'[0] + "\n", t');
      SkeletonAppend(ls[0], "\n");
      SkeletonAppend(ls'[0], "\n");
      CountAppend(ls[0] + "\n", t, '\n');
      CountAppend(ls'[0] + "\n", t', '\n');
      CountAppend(ls[0], "\n", '\n');
      CountAppend(ls'[0], "\n", '\n');
      SemicolonsAcrossLine(ls[0], t);
      SemicolonsAcrossLine(ls'[0], t');
    }
  }

  lemma ConsInit(h: seq<char>, ls: seq<seq<char>>)
    requires ls != []
    ensures ([h] + ls)[..|ls|] == [h] + ls[..|ls| - 1] && ([h] + ls)[|ls|] == ls[|ls| - 1]
  {
  }

  lemma ConsRegroup(h: seq<char>, a: seq<seq<char>>, l: seq<char>, b: seq<seq<char>>)
    ensures [h] + (a + [l] + b) == ([h] + a) + [l] + b
  {
  }

  /** Splitting `x + y`: the last piece of `x` and the first piece of `y` make one line. */
  predicate SplitsAsConcat(x: seq<char>, y: seq<char>) {
    var xs, ys := Split(x), Split(y);
    Split(x + y) == xs[..|xs| - 1] + [xs[|xs| - 1] + ys[0]] + ys[1..]
  }

  lemma SplitConcatLineFeed(x: seq<char>, y: seq<char>)
    requires x != [] && x[0] == '\n' && SplitsAsConcat(x[1..], y)
    ensures SplitsAsConcat(x, y)
  {
    var xs, ys := Split(x), Split(y);
    ConsTail(x, y);
    var xs' := Split(x[1..]);
    var n := |xs'|;
    var last := xs'[n - 1] + ys[0];
    assert Split(x[1..] + y) == xs'[..n - 1] + [last] + ys[1..];
    assert xs == [[]] + xs';
    ConsInit([], xs');
    ConsRegroup([], xs'[..n - 1], last, ys[1..]);
  }

  lemma SplitConcatChar(x: seq<char>, y: seq<char>)
    requires x != [] && x[0] != '\n' && |Split(x[1..])| == 1 && SplitsAsConcat(x[1..], y)
    ensures SplitsAsConcat(x, y)
  {
    var xs, ys := Split(x), Split(y);
    ConsTail(x, y);
    var xs' := Split(x[1..]);
    var last := xs'[0] + ys[0];
    assert Split(x[1..] + y) == [last] + ys[1..];
    assert xs == [[x[0]] + xs'[0]];
    assert [x[0]] + (xs'[0] + ys[0]) == [x[0]] + xs'[0] + ys[0];
  }

  lemma SplitConcatChars(x: seq<char>, y: seq<char>)
    requires x != [] && x[0] != '\n' && |Split(x[1..])| > 1 && SplitsAsConcat(x[1..], y)
    ensures SplitsAsConcat(x, y)
  {
    var xs, ys := Split(x), Split(y);
    ConsTail(x, y);
    var xs' := Split(x[1..]);
    var n := |xs'|;
    var r := Split(x[1..] + y);
    var last := xs'[n - 1] + ys[0];
    var mid := xs'[1..n - 1];
    assert xs'[..n - 1] == [xs'[0]] + mid;
    assert r == [xs'[0]] + (mid + [last] + ys[1..]);
    assert xs == [[x[0]] + xs'[0]] + xs'[1..];
    ConsInit([x[0]] + xs'[0], xs'[1..]);
    assert xs'[1..][..n - 2] == mid;
    ConsRegroup([x[0]] + xs'[0], mid, last, ys[1..]);
  }

  lemma {:induction false} SplitConcat(x: seq<char>, y: seq<char>)
    ensures SplitsAsConcat(x, y)
    decreases |x|
  {
    if x == [] {
      var ys := Split(y);
      assert x + y == y && Split(x) == [[]] && Split(x)[..0] == [];
      assert [] + ys[0] == ys[0];
      assert ys == [ys[0]] + ys[1..];
    } else {
      SplitConcat(x[1..], y);
      if x[0] == '\n' {
        SplitConcatLineFeed(x, y);
      } else if |Split(x[1..])| == 1 {
        SplitConcatChar(x, y);
      } else {
        SplitConcatChars(x, y);
      }
    }
  }

  lemma PaddedCat(a: seq<seq<char>>, a': seq<seq<char>>, b: seq<seq<char>>, b': seq<seq<char>>)
    requires Padded(a, a') && Padded(b, b')
    ensures Padded(a + b, a' + b')
  {
    forall i | 0 <= i < |a + b| ensures (a' + b')[i] == (a + b)[i] || (a' + b')[i] == "    " + (a + b)[i] {
      if i >= |a| {
        assert (a + b)[i] == b[i - |a|] && (a' + b')[i] == b'[i - |a|];
      }
    }
  }

  lemma PaddedTake(a: seq<seq<char>>, a': seq<seq<char>>, n: nat)
    requires Padded(a, a') && n <= |a|
    ensures Padded(a[..n], a'[..n]) && Padded(a[n..], a'[n..])
  {
    assert forall i :: 0 <= i < |a| - n ==> a[n..][i] == a[n + i] && a'[n..][i] == a'[n + i];
  }

  /** Text appended after lines that were padded leaves them padded. */
  lemma PaddedSuffix(x: seq<char>, x': seq<char>, b: seq<char>)
    requires Padded(Split(x), Split(x'))
    ensures Padded(Split(x + b), Split(x' + b))
  {
    var xs, xs', bs := Split(x), Split(x'), Split(b);
    var n := |xs|;
    SplitConcat(x, b);
    SplitConcat(x', b);
    PaddedTake(xs, xs', n - 1);
    var l, l' := xs[n - 1] + bs[0], xs'[n - 1] + bs[0];
    PaddedLine(xs[n - 1], xs'[n - 1], bs[0]);
    PaddedCat(xs[..n - 1], xs'[..n - 1], [l], [l']);
    PaddedSame(bs[1..]);
    PaddedCat(xs[..n - 1] + [l], xs'[..n - 1] + [l'], bs[1..], bs[1..]);
  }

  /** A line padded or not stays so with text appended. */
  lemma PaddedLine(l: seq<char>, l': seq<char>, b: seq<char>)
    requires l' == l || l' == "    " + l
    ensures Padded([l + b], [l' + b])
  {
    if l' != l {
      assert l' + b == "    " + (l + b);
    }
  }

  lemma PaddedSame(ls: seq<seq<char>>)
    ensures Padded(ls, ls)
  {
  }

  /** Text put in front of padded lines whose first line is unchanged leaves them padded. */
  lemma PaddedPrefix(a: seq<char>, x: seq<char>, x': seq<char>)
    requires Padded(Split(x), Split(x')) && Split(x')[0] == Split(x)[0]
    ensures Padded(Split(a + x), Split(a + x'))
  {
    var ps, xs, xs' := Split(a), Split(x), Split(x');
    var m := |ps|;
    SplitConcat(a, x);
    SplitConcat(a, x');
    PaddedTake(xs, xs', 1);
    var l := ps[m - 1] + xs[0];
    assert Padded(ps[..m - 1] + [l], ps[..m - 1] + [l]);
    PaddedCat(ps[..m - 1] + [l], ps[..m - 1] + [l], xs[1..], xs'[1..]);
  }

  /** A text whose lines are those of another, some after four spaces, keeps what `PaddedJoin` keeps. */
  lemma PaddedLinesKeep(t: seq<char>, t': seq<char>)
    requires Padded(Split(t), Split(t'))
    ensures Skeleton(t') == Skeleton(t)
    ensures Count(t', '\n') == Count(t, '\n')
    ensures SemicolonsFollowed(t) ==> SemicolonsFollowed(t')
  {
    PaddedJoin(Split(t), Split(t'));
    JoinSplit(t);
    JoinSplit(t');
  }
}
