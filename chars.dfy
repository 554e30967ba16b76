/**
  Character classes of the JavaScript regular expressions used by the
  post-formatter, ASCII upper-casing, and the "skeleton" of a text: its
  non-whitespace characters, upper-cased.  Every stage of the formatter
  only moves whitespace around and changes the case of ASCII letters, so
  every stage preserves the skeleton.
*/
module Chars {

  /** `\s` of JavaScript regular expressions (also what String.prototype.trim strips). */
  predicate IsWs(c: char) {
    || ('\t' <= c <= '\r')          // tab, line feed, vertical tab, form feed, carriage return
    || c == ' '
    || c == '\U{00A0}' || c == '\U{1680}'
    || ('\U{2000}' <= c <= '\U{200A}')
    || c == '\U{2028}' || c == '\U{2029}'
    || c == '\U{202F}' || c == '\U{205F}' || c == '\U{3000}' || c == '\U{FEFF}'
  }

  /** The line terminators: what `^` in multiline mode follows and what `.` does not match. */
  predicate IsLineTerminator(c: char) {
    c == '\n' || c == '\r' || c == '\U{2028}' || c == '\U{2029}'
  }

  /** `\w` of JavaScript regular expressions: the characters `\b` separates from the others. */
  predicate IsWordChar(c: char) {
    ('a' <= c <= 'z') || ('A' <= c <= 'Z') || ('0' <= c <= '9') || c == '_'
  }

  /** Whether position `j` of `s` holds a word character; positions outside `s` do not. */
  predicate WordAt(s: seq<char>, j: int) {
    0 <= j < |s| && IsWordChar(s[j])
  }

  /** `\b` at position `j`: a word character on exactly one side of it. */
  predicate Boundary(s: seq<char>, j: int) {
    WordAt(s, j - 1) != WordAt(s, j)
  }

  /** `toUpperCase` restricted to ASCII letters. */
  function Upper(c: char): (u: char)
    ensures ('a' <= c <= 'z') ==> u as int == c as int - 32
    ensures !('a' <= c <= 'z') ==> u == c
  {
    if 'a' <= c <= 'z' then (c as int - 32) as char else c
  }

  function UpperStr(s: seq<char>): (u: seq<char>)
    ensures |u| == |s|
    ensures forall k :: 0 <= k < |s| ==> u[k] == Upper(s[k])
  {
    if s == [] then [] else [Upper(s[0])] + UpperStr(s[1..])
  }

  /** Where the upper-cased text shows an upper-case pattern, the text matches it up to case. */
  lemma UpperStrOccurrence(b: seq<char>, w: nat, pat: seq<char>)
    requires w + |pat| <= |b| && UpperStr(b)[w..w + |pat|] == pat
    ensures CiEq(b[w..w + |pat|], pat)
  {
    var a, u := b[w..w + |pat|], UpperStr(b);
    forall k | 0 <= k < |pat| ensures Upper(a[k]) == Upper(pat[k]) {
      assert a[k] == b[w + k];
      assert pat[k] == u[w..w + |pat|][k] == u[w + k] == Upper(b[w + k]);
      UpperIdempotent(b[w + k]);
    }
  }

  /** Where the text matches an upper-case pattern up to case, the upper-cased text shows the pattern. */
  lemma CiEqUpperStr(b: seq<char>, i: nat, pat: seq<char>)
    requires i + |pat| <= |b| && CiEq(b[i..i + |pat|], pat) && UpperStr(pat) == pat
    ensures UpperStr(b)[i..i + |pat|] == pat
  {
    forall k | 0 <= k < |pat| ensures UpperStr(b)[i..i + |pat|][k] == pat[k] {
      assert Upper(b[i..i + |pat|][k]) == Upper(pat[k]);
      assert Upper(pat[k]) == UpperStr(pat)[k];
    }
  }

  /** Case-insensitive equality as the `i` flag of a JavaScript regular expression sees it. */
  predicate CiEq(a: seq<char>, b: seq<char>) {
    |a| == |b| && forall k :: 0 <= k < |a| ==> Upper(a[k]) == Upper(b[k])
  }

  /**
    `w` up to ASCII case at position `i` of `s`, compared one character at
    a time; the same as `CiEq(s[i..i + |w|], w)` (see `CiPrefixIsCiEq`).
  */
  predicate CiPrefix(s: seq<char>, i: nat, w: seq<char>)
    decreases |w|
  {
    w == [] || (i < |s| && Upper(s[i]) == Upper(w[0]) && CiPrefix(s, i + 1, w[1..]))
  }

  lemma {:induction false} CiPrefixIsCiEq(s: seq<char>, i: nat, w: seq<char>)
    requires i <= |s|
    ensures CiPrefix(s, i, w) <==> i + |w| <= |s| && CiEq(s[i..i + |w|], w)
    decreases |w|
  {
    if w != [] && i < |s| {
      CiPrefixIsCiEq(s, i + 1, w[1..]);
      if i + |w| <= |s| {
        var a := s[i..i + |w|];
        var b := s[i + 1..i + 1 + |w[1..]|];
        assert a[0] == s[i] && a[1..] == b;
        assert CiPrefix(s, i, w) <==> Upper(a[0]) == Upper(w[0]) && CiEq(b, w[1..]);
        if Upper(a[0]) == Upper(w[0]) && CiEq(b, w[1..]) {
          forall k | 0 <= k < |a| ensures Upper(a[k]) == Upper(w[k]) {
            if k > 0 {
              assert b[k - 1] == a[k] && w[1..][k - 1] == w[k];
            }
          }
        }
        if CiEq(a, w) {
          forall k | 0 <= k < |b| ensures Upper(b[k]) == Upper(w[1..][k]) {
            assert b[k] == a[k + 1] && w[1..][k] == w[k + 1];
          }
        }
      } else {
        assert !CiPrefix(s, i + 1, w[1..]);
      }
    }
  }

  /** A character of a case-insensitive occurrence. */
  lemma {:induction false} CiPrefixAt(s: seq<char>, i: nat, w: seq<char>, k: nat)
    requires CiPrefix(s, i, w) && k < |w|
    ensures i + k < |s| && Upper(s[i + k]) == Upper(w[k])
    decreases k
  {
    if k > 0 {
      CiPrefixAt(s, i + 1, w[1..], k - 1);
    }
  }

  // ---------------------------------------------------------------------
  // Cutting sequences into parts.

  /** What follows a prefix of a concatenation. */
  lemma DropPrefix<T>(a: seq<T>, t: seq<T>)
    ensures (a + t)[|a|..] == t
  {
  }

  /** The first part of a concatenation. */
  lemma TakePrefix<T>(a: seq<T>, t: seq<T>)
    ensures (a + t)[0..|a|] == a
  {
  }

  /** A suffix is its first part followed by the rest. */
  lemma SuffixSplit<T>(s: seq<T>, i: nat, j: nat)
    requires i <= j <= |s|
    ensures s[i..] == s[i..j] + s[j..]
  {
  }

  /** A non-empty suffix is its first element followed by the rest. */
  lemma SuffixCons<T>(s: seq<T>, i: nat)
    requires i < |s|
    ensures s[i..] == [s[i]] + s[i + 1..]
  {
  }

  /** A non-empty slice is its first element followed by the rest. */
  lemma SliceCons<T>(s: seq<T>, i: nat, j: nat)
    requires i < j <= |s|
    ensures s[i..j] == [s[i]] + s[i + 1..j]
  {
  }

  /** A non-empty slice is the rest followed by its last element. */
  lemma SliceSnoc<T>(s: seq<T>, i: nat, j: nat)
    requires i < j <= |s|
    ensures s[i..j] == s[i..j - 1] + [s[j - 1]]
  {
  }

  /** A longer prefix is the shorter one followed by one more element. */
  lemma PrefixSnoc<T>(s: seq<T>, k: nat)
    requires k < |s|
    ensures s[..k + 1] == s[..k] + [s[k]]
  {
  }

  /** The tail of a concatenation with a non-empty first part. */
  lemma ConsTail<T>(a: seq<T>, b: seq<T>)
    requires a != []
    ensures (a + b)[0] == a[0] && (a + b)[1..] == a[1..] + b
  {
  }

  /** A slice of a slice is a slice of the whole. */
  lemma SliceOfSlice<T>(s: seq<T>, a: nat, b: nat, i: nat, j: nat)
    requires a <= b <= |s| && i <= j <= b - a
    ensures s[a..b][i..j] == s[a + i..a + j]
  {
    forall k | 0 <= k < j - i ensures s[a..b][i..j][k] == s[a + i..a + j][k] {
      assert s[a..b][i..j][k] == s[a + i + k];
    }
  }

  lemma UpperIdempotent(c: char)
    ensures Upper(Upper(c)) == Upper(c)
  {
  }

  /** Upper-casing keeps the class of a character and is idempotent. */
  lemma UpperClasses(c: char)
    ensures Upper(Upper(c)) == Upper(c)
    ensures IsWs(Upper(c)) == IsWs(c)
    ensures IsWordChar(Upper(c)) == IsWordChar(c)
    ensures IsLineTerminator(Upper(c)) == IsLineTerminator(c)
    ensures Upper(c) == c || 'a' <= c <= 'z'
  {
  }

  /** Two characters with the same upper case are both whitespace or both not. */
  lemma SameUpperSameClass(a: char, b: char)
    requires Upper(a) == Upper(b)
    ensures IsWs(a) == IsWs(b)
    ensures IsWordChar(a) == IsWordChar(b)
    ensures IsLineTerminator(a) == IsLineTerminator(b)
  {
    UpperClasses(a);
    UpperClasses(b);
  }

  /** The non-whitespace characters of `s`, upper-cased. */
  function Skeleton(s: seq<char>): (k: seq<char>)
    ensures |k| <= |s|
  {
    if s == [] then [] else (if IsWs(s[0]) then [] else [Upper(s[0])]) + Skeleton(s[1..])
  }

  /** The skeleton of a text with one more character in front. */
  lemma SkeletonCons(c: char, t: seq<char>)
    ensures Skeleton([c] + t) == (if IsWs(c) then [] else [Upper(c)]) + Skeleton(t)
  {
    assert ([c] + t)[1..] == t;
  }

  lemma {:induction false} SkeletonAppend(a: seq<char>, b: seq<char>)
    ensures Skeleton(a + b) == Skeleton(a) + Skeleton(b)
  {
    if a == [] {
      assert a + b == b;
    } else {
      ConsTail(a, b);
      SkeletonAppend(a[1..], b);
    }
  }

  /** A space inserted between two texts does not show in the skeleton. */
  lemma SkeletonInsertSpace(x: seq<char>, c: seq<char>)
    ensures Skeleton(x + [' '] + c) == Skeleton(x) + Skeleton(c)
  {
    SkeletonAppend(x + [' '], c);
    SkeletonAppend(x, [' ']);
    assert Skeleton([' ']) == [] by {
      SkeletonCons(' ', []);
      assert [' '] + [] == [' '];
    }
  }

  /** The skeleton of a suffix is that of its two parts. */
  lemma SkeletonSplitSuffix(s: seq<char>, a: nat, b: nat)
    requires a <= b <= |s|
    ensures Skeleton(s[a..]) == Skeleton(s[a..b]) + Skeleton(s[b..])
  {
    SuffixSplit(s, a, b);
    SkeletonAppend(s[a..b], s[b..]);
  }

  /** Texts made of parts with equal skeletons have equal skeletons. */
  lemma SkeletonConcat3(a: seq<char>, b: seq<char>, c: seq<char>, a': seq<char>, b': seq<char>, c': seq<char>)
    requires Skeleton(a) == Skeleton(a') && Skeleton(b) == Skeleton(b') && Skeleton(c) == Skeleton(c')
    ensures Skeleton(a + b + c) == Skeleton(a' + b' + c')
  {
    SkeletonAppend(a + b, c);
    SkeletonAppend(a, b);
    SkeletonAppend(a' + b', c');
    SkeletonAppend(a', b');
  }

  /** A suffix is the concatenation of its three consecutive parts. */
  lemma SuffixSplit3(s: seq<char>, a: nat, b: nat, c: nat)
    requires a <= b <= c <= |s|
    ensures s[a..] == s[a..b] + s[b..c] + s[c..]
  {
  }

  /** The skeleton of a text is that of its two parts. */
  lemma SkeletonSplitAt(b: seq<char>, i: nat)
    requires i <= |b|
    ensures Skeleton(b) == Skeleton(b[..i]) + Skeleton(b[i..])
  {
    assert b == b[..i] + b[i..];
    SkeletonAppend(b[..i], b[i..]);
  }

  /** The skeleton of a prefix is that of its two parts. */
  lemma SkeletonSplitPrefix(b: seq<char>, i: nat, j: nat)
    requires i <= j <= |b|
    ensures Skeleton(b[..j]) == Skeleton(b[..i]) + Skeleton(b[i..j])
  {
    assert b[..j] == b[..i] + b[i..j];
    SkeletonAppend(b[..i], b[i..j]);
  }

  /** Whitespace on both sides of a text does not show in its skeleton. */
  lemma SkeletonWsAround(a: char, m: seq<char>, b: char)
    requires IsWs(a) && IsWs(b)
    ensures Skeleton([a] + m + [b]) == Skeleton(m)
  {
    SkeletonAppend([a] + m, [b]);
    SkeletonAppend([a], m);
    assert Skeleton([b]) == [] by {
      assert [b][1..] == [];
    }
    assert Skeleton([a]) == [] by {
      assert [a][1..] == [];
    }
  }

  /** Whitespace at both ends of a slice does not show in its skeleton. */
  lemma SkeletonTrimSlice(s: seq<char>, i: nat, j: nat)
    requires i + 2 <= j <= |s| && IsWs(s[i]) && IsWs(s[j - 1])
    ensures Skeleton(s[i..j]) == Skeleton(s[i + 1..j - 1])
  {
    assert s[i..j] == [s[i]] + s[i + 1..j - 1] + [s[j - 1]];
    SkeletonWsAround(s[i], s[i + 1..j - 1], s[j - 1]);
  }

  /** A slice that is `w` (up to case) between two whitespace characters has the skeleton of `w`. */
  lemma SkeletonOfFramedCiEq(s: seq<char>, i: nat, j: nat, w: seq<char>)
    requires i + 2 <= j <= |s| && IsWs(s[i]) && IsWs(s[j - 1]) && CiEq(s[i + 1..j - 1], w)
    ensures Skeleton(s[i..j]) == Skeleton(w)
  {
    SkeletonTrimSlice(s, i, j);
    SkeletonOfCiEq(s[i + 1..j - 1], w);
  }

  /** Whitespace at the front of a slice does not show in its skeleton. */
  lemma SkeletonDropSlice(s: seq<char>, i: nat, j: nat)
    requires i < j <= |s| && IsWs(s[i])
    ensures Skeleton(s[i..j]) == Skeleton(s[i + 1..j])
  {
    SliceCons(s, i, j);
    SkeletonAppend([s[i]], s[i + 1..j]);
    assert [s[i]][1..] == [];
  }

  /** A text made of whitespace only has an empty skeleton. */
  lemma {:induction false} SkeletonOfBlank(s: seq<char>)
    requires forall k :: 0 <= k < |s| ==> IsWs(s[k])
    ensures Skeleton(s) == []
  {
    if s != [] {
      SkeletonOfBlank(s[1..]);
    }
  }

  /** Texts that agree up to ASCII case have the same skeleton. */
  lemma {:induction false} SkeletonOfCiEq(a: seq<char>, b: seq<char>)
    requires CiEq(a, b)
    ensures Skeleton(a) == Skeleton(b)
  {
    if a != [] {
      SameUpperSameClass(a[0], b[0]);
      assert CiEq(a[1..], b[1..]) by {
        forall k | 0 <= k < |a[1..]| ensures Upper(a[1..][k]) == Upper(b[1..][k]) {
          assert a[1..][k] == a[k + 1] && b[1..][k] == b[k + 1];
        }
      }
      SkeletonOfCiEq(a[1..], b[1..]);
    }
  }

  /** The number of occurrences of `c` in `s`. */
  function Count(s: seq<char>, c: char): (n: nat)
    ensures n <= |s|
  {
    if s == [] then 0 else (if s[0] == c then 1 else 0) + Count(s[1..], c)
  }

  lemma {:induction false} CountAppend(a: seq<char>, b: seq<char>, c: char)
    ensures Count(a + b, c) == Count(a, c) + Count(b, c)
  {
    if a == [] {
      assert a + b == b;
    } else {
      ConsTail(a, b);
      CountAppend(a[1..], b, c);
    }
  }

  lemma {:induction false} CountAbsent(s: seq<char>, c: char)
    requires c !in s
    ensures Count(s, c) == 0
  {
    if s != [] {
      CountAbsent(s[1..], c);
    }
  }

  /** `s` with every `c` taken out. */
  function Without(s: seq<char>, c: char): (r: seq<char>)
    ensures |r| <= |s|
  {
    if s == [] then [] else (if s[0] == c then [] else [s[0]]) + Without(s[1..], c)
  }

  lemma {:induction false} WithoutAppend(a: seq<char>, b: seq<char>, c: char)
    ensures Without(a + b, c) == Without(a, c) + Without(b, c)
  {
    if a == [] {
      assert a + b == b;
    } else {
      ConsTail(a, b);
      WithoutAppend(a[1..], b, c);
    }
  }

  lemma {:induction false} WithoutAbsent(s: seq<char>, c: char)
    requires c !in s
    ensures Without(s, c) == s
  {
    if s != [] {
      WithoutAbsent(s[1..], c);
    }
  }

  /** Every character of `s` is either taken out or kept. */
  lemma {:induction false} WithoutCount(s: seq<char>, c: char)
    ensures |Without(s, c)| + Count(s, c) == |s|
  {
    if s != [] {
      WithoutCount(s[1..], c);
    }
  }

  /** Taking out a whitespace character leaves the skeleton as it is. */
  lemma {:induction false} WithoutKeepsSkeleton(s: seq<char>, c: char)
    requires IsWs(c)
    ensures Skeleton(Without(s, c)) == Skeleton(s)
  {
    if s != [] {
      WithoutKeepsSkeleton(s[1..], c);
      SkeletonAppend(if s[0] == c then [] else [s[0]], Without(s[1..], c));
      assert Skeleton([s[0]]) == Skeleton(s[..1]);
      assert s == [s[0]] + s[1..];
      SkeletonAppend([s[0]], s[1..]);
    }
  }

  lemma CiEqAppend(a: seq<char>, b: seq<char>, c: seq<char>, d: seq<char>)
    requires CiEq(a, c) && CiEq(b, d)
    ensures CiEq(a + b, c + d)
  {
    forall k | 0 <= k < |a + b| ensures Upper((a + b)[k]) == Upper((c + d)[k]) {
      if k >= |a| {
        assert (a + b)[k] == b[k - |a|] && (c + d)[k] == d[k - |a|];
      }
    }
  }

  /** Whether `s` starts with `p`. */
  predicate StartsWith(s: seq<char>, p: seq<char>) {
    |p| <= |s| && s[..|p|] == p
  }

  /** A character absent from the skeleton and not a letter or whitespace is absent from the text. */
  lemma {:induction false} AbsentFromSkeleton(s: seq<char>, c: char)
    requires !IsWs(c) && Upper(c) == c && !('A' <= c <= 'Z')
    ensures (c in Skeleton(s)) <==> (c in s)
  {
    if s != [] {
      AbsentFromSkeleton(s[1..], c);
      UpperClasses(s[0]);
      assert s == [s[0]] + s[1..];
    }
  }
}
