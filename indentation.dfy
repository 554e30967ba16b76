/**
  Stage 7 of `customSqlPostFormatter` (script.js:188-208): the text is cut
  at line feeds, every line that is not blank and does not start with a
  keyword (after trimming and upper-casing) gets four spaces in front, and
  the lines are joined again.
*/
module Indentation {
  import opened Chars
  import opened Lines
  import opened Keywords

  /** `kws.some(k => t.startsWith(k))`. */
  function AnyPrefix(t: seq<char>, kws: seq<string>): (b: bool)
    ensures b <==> exists k :: 0 <= k < |kws| && StartsWith(t, kws[k])
    decreases |kws|
  {
    if kws == [] then false
    else StartsWith(t, kws[0]) || AnyPrefix(t, kws[1..])
  }

  /**
    The trimmed, upper-cased line starts with a regular keyword or with AND
    or OR (script.js:194-198); a bare prefix is enough, so "ORDERS" starts
    with OR.
  */
  predicate StartsWithKeyword(line: seq<char>) {
    var u := UpperStr(Trim(line));
    AnyPrefix(u, RegularKeywords) || AnyPrefix(u, SpecialKeywords)
  }

  /** One line of the map at script.js:189-206. */
  function IndentLine(line: seq<char>): seq<char> {
    if Trim(line) == [] then line
    else if StartsWithKeyword(line) then line
    else "    " + line
  }

  /** `lines.map(...)`. */
  function IndentAll(ls: seq<seq<char>>): (r: seq<seq<char>>)
    ensures |r| == |ls|
  {
    seq(|ls|, k requires 0 <= k < |ls| => IndentLine(ls[k]))
  }

  /** The whole stage. */
  function IndentLines(s: seq<char>): seq<char> {
    Join(IndentAll(Split(s)))
  }

  /**
    A line gets four spaces exactly when it holds a character that is not
    whitespace and it does not start with a keyword; otherwise it stays.
  */
  lemma IndentLineChoice(line: seq<char>)
    ensures IndentLine(line) == (
      if (exists k :: 0 <= k < |line| && !IsWs(line[k])) && !StartsWithKeyword(line)
      then "    " + line else line)
  {
    TrimEmpty(line);
  }

  /** The stage works line by line: the lines of the result are the lines of the text, indented. */
  lemma IndentLinesByLine(s: seq<char>)
    ensures Split(IndentLines(s)) == IndentAll(Split(s))
    ensures |Split(IndentLines(s))| == |Split(s)|
  {
    var ls := Split(s);
    SplitLineFeeds(s);
    assert NoLineFeeds(IndentAll(ls)) by {
      forall i | 0 <= i < |ls| ensures '\n' !in IndentAll(ls)[i] {
        assert '\n' !in ls[i];
      }
    }
    SplitJoin(IndentAll(ls));
  }

  /**
    So the stage adds only spaces at the start of lines: it keeps the line
    feeds, the skeleton, and every semicolon followed by a line feed.
  */
  lemma IndentLinesKeeps(s: seq<char>)
    ensures Count(IndentLines(s), '\n') == Count(s, '\n')
    ensures Skeleton(IndentLines(s)) == Skeleton(s)
    ensures SemicolonsFollowed(s) ==> SemicolonsFollowed(IndentLines(s))
  {
    var ls := Split(s);
    assert Padded(ls, IndentAll(ls));
    PaddedJoin(ls, IndentAll(ls));
    JoinSplit(s);
  }

  /** Only a prefix is compared: a line starting with "orders" is taken to start with OR. */
  lemma OrdersNotIndented()
    ensures IndentLine("orders") == "orders"
  {
    var u := UpperStr(Trim("orders"));
    assert Trim("orders") == "orders" by {
      assert TrimStart("orders", 0) == 0;
      assert TrimEnd("orders", 0, 6) == 6;
    }
    assert u[..2] == "OR";
    assert StartsWith(u, SpecialKeywords[1]);
  }
}
