/**
  Stage 2 of `customSqlPostFormatter` (script.js:69-83): a line break before
  each of the regular keywords, one global replacement per keyword in the
  order of the list, and then one before CASE.
*/
module Keywords {
  import opened Chars
  import opened Rewrite
  import opened Patterns

  /** The regular keywords, in the order the passes run (script.js:69-71). */
  const RegularKeywords: seq<string> :=
    ["SELECT", "FROM", "WHERE", "ORDER BY", "GROUP BY", "HAVING",
     "UPDATE", "SET", "JOIN", "LEFT JOIN", "CREATE", "INSERT", "VALUES"]

  /** The connectors handled by the scan of stage 4 (script.js:72). */
  const SpecialKeywords: seq<string> := ["AND", "OR"]

  predicate NonEmptyWords(kws: seq<string>) {
    forall k :: 0 <= k < |kws| ==> kws[k] != []
  }

  /** One pass `s.replace(/\sKW\s/gi, "\nKW ")` for each keyword of `kws`, in order. */
  function BreakEach(s: seq<char>, kws: seq<string>): seq<char>
    requires NonEmptyWords(kws)
    decreases |kws|
  {
    if kws == [] then s else BreakEach(ReplaceAll(WsKeyword(kws[0]), s), kws[1..])
  }

  /** The whole stage: the regular keywords, then `s.replace(/\s(CASE)\s/gi, '\nCASE ')`. */
  function BreakKeywords(s: seq<char>): seq<char> {
    ReplaceAll(WsKeyword("CASE"), BreakEach(s, RegularKeywords))
  }

  /** Each keyword pass rewrites every match it meets with a text as long as the match. */
  lemma KeywordPassWindows(kw: string, s: seq<char>)
    requires kw != []
    ensures WindowsExplain(RuleOf(WsKeyword(kw)), s, ReplaceAll(WsKeyword(kw), s), 0)
  {
    var r := RuleOf(WsKeyword(kw));
    assert |r.rep| == |"\n" + kw + " "| == r.width;
    SameWidthWindows(r, s, 0);
  }

  lemma {:induction false} BreakEachSkeleton(s: seq<char>, kws: seq<string>)
    requires NonEmptyWords(kws)
    ensures Skeleton(BreakEach(s, kws)) == Skeleton(s)
    decreases |kws|
  {
    if kws != [] {
      ReplaceAllSkeleton(WsKeyword(kws[0]), s);
      BreakEachSkeleton(ReplaceAll(WsKeyword(kws[0]), s), kws[1..]);
    }
  }

  /** Stage 2 only turns whitespace into line breaks and upper-cases keywords. */
  lemma BreakKeywordsSkeleton(s: seq<char>)
    ensures Skeleton(BreakKeywords(s)) == Skeleton(s)
  {
    RegularKeywordsNonEmpty();
    BreakThenCaseSkeleton(s, RegularKeywords);
  }

  lemma RegularKeywordsNonEmpty()
    ensures NonEmptyWords(RegularKeywords)
  {
  }

  /** The passes of any list of keywords, then the CASE pass, keep the skeleton. */
  lemma BreakThenCaseSkeleton(s: seq<char>, kws: seq<string>)
    requires NonEmptyWords(kws)
    ensures Skeleton(ReplaceAll(WsKeyword("CASE"), BreakEach(s, kws))) == Skeleton(s)
  {
    BreakEachSkeleton(s, kws);
    ReplaceAllSkeleton(WsKeyword("CASE"), BreakEach(s, kws));
  }

  lemma {:induction false} BreakEachAppend(s: seq<char>, a: seq<string>, b: seq<string>)
    requires NonEmptyWords(a) && NonEmptyWords(b)
    ensures NonEmptyWords(a + b)
    ensures BreakEach(s, a + b) == BreakEach(BreakEach(s, a), b)
    decreases |a|
  {
    if a == [] {
      assert a + b == b;
    } else {
      ConsTail(a, b);
      BreakEachAppend(ReplaceAll(WsKeyword(a[0]), s), a[1..], b);
    }
  }

  /** The `forEach` of script.js:75-79 over the keywords of `kws`. */
  method KeywordPasses(s: seq<char>, kws: seq<string>) returns (sql: seq<char>)
    requires NonEmptyWords(kws)
    ensures sql == BreakEach(s, kws)
  {
    sql := s;
    for k := 0 to |kws|
      invariant NonEmptyWords(kws[..k])
      invariant sql == BreakEach(s, kws[..k])
    {
      PrefixSnoc(kws, k);
      BreakEachAppend(s, kws[..k], [kws[k]]);
      assert [kws[k]][1..] == [];
      sql := ReplaceAll(WsKeyword(kws[k]), sql);
    }
    assert kws[..|kws|] == kws;
  }

  // ---------------------------------------------------------------------
  // JOIN runs before LEFT JOIN, so the LEFT JOIN pass never finds anything.

  /** `\sLEFT JOIN\s` at position `p`, spelled out character by character. */
  predicate LeftJoinAt(out: seq<char>, p: int) {
    && 0 <= p && p + 11 <= |out|
    && Upper(out[p + 1]) == 'L' && out[p + 5] == ' '
    && (forall d :: 0 <= d < 4 ==> Upper(out[p + 6 + d]) == "JOIN"[d])
    && IsWs(out[p + 10])
  }

  lemma LeftJoinMatchShape(out: seq<char>, p: int)
    requires KeywordMatch(out, p, "LEFT JOIN")
    ensures LeftJoinAt(out, p)
  {
    var t := out[p + 1..p + 10];
    assert Upper(t[0]) == Upper("LEFT JOIN"[0]);
    assert Upper(t[4]) == Upper("LEFT JOIN"[4]);
    forall d | 0 <= d < 4 ensures Upper(out[p + 6 + d]) == "JOIN"[d] {
      assert Upper(t[5 + d]) == Upper("LEFT JOIN"[5 + d]);
    }
  }

  /** The character of a JOIN replacement window at offset `k - m`. */
  lemma JoinWindowChar(r: Rule, s: seq<char>, out: seq<char>, m: int, k: int)
    requires r.width == 6 && r.rep == "\nJOIN "
    requires Window(r, s, out, 0, m) && m <= k < m + 6
    ensures out[k] == "\nJOIN "[k - m]
  {
    assert out[k] == out[m..m + 6][k - m];
  }

  /** The space inside a LEFT JOIN of the output is not in a window: it does not follow "JOIN". */
  lemma LeftJoinSpaceOriginal(r: Rule, s: seq<char>, out: seq<char>, p: int)
    requires r.width == 6 && r.rep == "\nJOIN " && LeftJoinAt(out, p)
    ensures !Covered(r, s, out, 0, p + 5)
  {
    if Covered(r, s, out, 0, p + 5) {
      var m :| Window(r, s, out, 0, m) && m <= p + 5 < m + 6;
      JoinWindowChar(r, s, out, m, p + 5);
      JoinWindowChar(r, s, out, m, p + 1);
      assert false;
    }
  }

  /**
    When no window covers the space inside a LEFT JOIN of the output, none
    reaches into the JOIN after it either, so that JOIN is original text.
  */
  lemma LeftJoinTailOriginal(r: Rule, s: seq<char>, out: seq<char>, p: int, k: int)
    requires r.width == 6 && r.rep == "\nJOIN " && LeftJoinAt(out, p)
    requires forall q :: Hit(r, s, q) ==> IsWs(s[q])
    requires !Covered(r, s, out, 0, p + 5) && p + 6 <= k <= p + 10 && k < |s|
    requires out[k] == s[k] || Covered(r, s, out, 0, k)
    ensures out[k] == s[k] || (k == p + 10 && IsWs(s[k]))
  {
    if out[k] != s[k] {
      var m :| Window(r, s, out, 0, m) && m <= k < m + 6;
      OutsideWindow(r, s, out, m, p + 5);
      JoinWindowChar(r, s, out, m, m);
      LineFeedAfterJoin(out, p, m);
      assert Hit(r, s, m);
    }
  }

  /** A line feed after the space of a LEFT JOIN comes after its JOIN. */
  lemma LineFeedAfterJoin(out: seq<char>, p: int, m: int)
    requires LeftJoinAt(out, p) && p + 6 <= m < |out| && out[m] == '\n'
    ensures m >= p + 10
  {
    LeftJoinLetters(out, p);
  }

  /** The letters of the JOIN of a LEFT JOIN, by position. */
  lemma LeftJoinLetters(out: seq<char>, p: int)
    requires LeftJoinAt(out, p)
    ensures forall j :: p + 6 <= j < p + 10 ==> Upper(out[j]) == "JOIN"[j - p - 6]
  {
    forall j | p + 6 <= j < p + 10 ensures Upper(out[j]) == "JOIN"[j - p - 6] {
      var d := j - p - 6;
      assert Upper(out[p + 6 + d]) == "JOIN"[d];
    }
  }

  /** A position no window covers lies outside each window. */
  lemma OutsideWindow(r: Rule, s: seq<char>, out: seq<char>, m: int, k: int)
    requires Window(r, s, out, 0, m) && !Covered(r, s, out, 0, k)
    ensures !(m <= k < m + r.width)
  {
  }

  /**
    For a rule that rewrites `\sJOIN\s` with a window "\nJOIN ", a LEFT
    JOIN in the output exposes original text: the space before its JOIN is
    in no window, and it and the JOIN after it form a match in the input.
  */
  lemma LeftJoinExposesJoin(r: Rule, s: seq<char>, out: seq<char>, p: int)
    requires r.width == 6 && r.rep == "\nJOIN " && |out| == |s|
    requires forall q :: Hit(r, s, q) ==> IsWs(s[q])
    requires forall k :: p + 5 <= k <= p + 10 && 0 <= k < |s| ==> out[k] == s[k] || Covered(r, s, out, 0, k)
    ensures LeftJoinAt(out, p) ==> KeywordMatch(s, p + 5, "JOIN") && !Covered(r, s, out, 0, p + 5)
  {
    if LeftJoinAt(out, p) {
      LeftJoinSpaceOriginal(r, s, out, p);
      assert out[p + 5] == s[p + 5];
      forall k | p + 6 <= k <= p + 10 ensures out[k] == s[k] || (k == p + 10 && IsWs(s[k])) {
        LeftJoinTailOriginal(r, s, out, p, k);
      }
      var w := s[p + 6..p + 10];
      forall d | 0 <= d < 4 ensures Upper(w[d]) == Upper("JOIN"[d]) {
        assert w[d] == out[p + 6 + d];
      }
    }
  }

  /**
    So where every `\sJOIN\s` of the input lies in a window, the output
    holds no LEFT JOIN.
  */
  lemma NoLeftJoinAfterJoins(r: Rule, s: seq<char>, out: seq<char>, p: int)
    requires r.width == 6 && r.rep == "\nJOIN " && |out| == |s|
    requires forall q :: Hit(r, s, q) ==> IsWs(s[q])
    requires forall k :: p + 5 <= k <= p + 10 && 0 <= k < |s| ==> out[k] == s[k] || Covered(r, s, out, 0, k)
    requires KeywordMatch(s, p + 5, "JOIN") ==> Covered(r, s, out, 0, p + 5)
    ensures !LeftJoinAt(out, p)
  {
    LeftJoinExposesJoin(r, s, out, p);
  }

  /** After the JOIN pass, `\sLEFT JOIN\s` matches nowhere. */
  lemma LeftJoinNeverMatches(s: seq<char>, p: int)
    ensures !KeywordMatch(ReplaceAll(WsKeyword("JOIN"), s), p, "LEFT JOIN")
  {
    var J := RuleOf(WsKeyword("JOIN"));
    var out := ReplaceAll(WsKeyword("JOIN"), s);
    KeywordPassWindows("JOIN", s);
    forall q | Hit(J, s, q) ensures IsWs(s[q]) {
      HitIsMatch(WsKeyword("JOIN"), s, q);
    }
    HitIsMatch(WsKeyword("JOIN"), s, p + 5);
    NoLeftJoinAfterJoins(J, s, out, p);
    if KeywordMatch(out, p, "LEFT JOIN") {
      LeftJoinMatchShape(out, p);
      assert false;
    }
  }

  /** So the LEFT JOIN pass right after the JOIN pass leaves the text as it is. */
  lemma LeftJoinPassIdle(s: seq<char>)
    ensures var t := ReplaceAll(WsKeyword("JOIN"), s);
      ReplaceAll(WsKeyword("LEFT JOIN"), t) == t
  {
    var t := ReplaceAll(WsKeyword("JOIN"), s);
    var L := RuleOf(WsKeyword("LEFT JOIN"));
    forall q ensures !Hit(L, t, q) {
      HitIsMatch(WsKeyword("LEFT JOIN"), t, q);
      LeftJoinNeverMatches(s, q);
    }
    FixedPoint(L, t, 0);
    assert t[0..] == t;
  }

  /** In any list of passes, a LEFT JOIN pass right after a JOIN pass can be dropped. */
  lemma LeftJoinAfterJoinIdle(s: seq<char>, before: seq<string>, after: seq<string>)
    requires NonEmptyWords(before) && NonEmptyWords(after)
    ensures NonEmptyWords(before + ["JOIN", "LEFT JOIN"] + after)
    ensures NonEmptyWords(before + ["JOIN"] + after)
    ensures BreakEach(s, before + ["JOIN", "LEFT JOIN"] + after) == BreakEach(s, before + ["JOIN"] + after)
  {
    BreakEachAppend(s, before, ["JOIN", "LEFT JOIN"]);
    BreakEachAppend(s, before + ["JOIN", "LEFT JOIN"], after);
    BreakEachAppend(s, before, ["JOIN"]);
    BreakEachAppend(s, before + ["JOIN"], after);
    var u := BreakEach(s, before);
    var t := ReplaceAll(WsKeyword("JOIN"), u);
    assert ["JOIN", "LEFT JOIN"][1..] == ["LEFT JOIN"];
    assert BreakEach(u, ["JOIN", "LEFT JOIN"]) == BreakEach(t, ["LEFT JOIN"]);
    assert BreakEach(t, ["LEFT JOIN"]) == BreakEach(ReplaceAll(WsKeyword("LEFT JOIN"), t), []);
    assert BreakEach(u, ["JOIN"]) == BreakEach(t, []);
    LeftJoinPassIdle(u);
  }

  /** Stage 2 as it runs is stage 2 without its LEFT JOIN pass. */
  lemma LeftJoinIsDead(s: seq<char>)
    ensures BreakEach(s, RegularKeywords) ==
      BreakEach(s, RegularKeywords[..9] + RegularKeywords[10..])
  {
    var before := RegularKeywords[..8];
    var after := RegularKeywords[10..];
    assert RegularKeywords == before + ["JOIN", "LEFT JOIN"] + after;
    assert RegularKeywords[..9] + RegularKeywords[10..] == before + ["JOIN"] + after;
    LeftJoinAfterJoinIdle(s, before, after);
  }
}
