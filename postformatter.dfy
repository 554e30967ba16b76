/**
  `customSqlPostFormatter` (script.js:53-217): the nine stages in the order
  the source runs them, and what holds of the whole.
*/
module PostFormatter {
  import opened Chars
  import opened Rewrite
  import opened Patterns
  import Normalize
  import Keywords
  import CaseBlocks
  import Connectors
  import DataTypes
  import Semicolons
  import Lines
  import Indentation
  import Comments
  import ParenBlocks

  /** The post-formatter as a composition of its stages. */
  function PostFormat(s: seq<char>): seq<char> {
    var s1 := Normalize.NormalizeWhitespace(s);
    var s2 := Keywords.BreakKeywords(s1);
    var s3 := CaseBlocks.CaseBlocks(s2);
    var s4 := Connectors.Connect(s3);
    var s5 := DataTypes.UpcaseTypes(s4);
    var s6 := Semicolons.BreakSemicolons(s5);
    var s7 := Indentation.IndentLines(s6);
    var s8 := Comments.FixComments(s7);
    ParenBlocks.IndentParens(s8)
  }

  /** `customSqlPostFormatter`, stage by stage, with the keyword and type passes as loops. */
  method CustomSqlPostFormatter(input: seq<char>) returns (sql: seq<char>)
    ensures sql == PostFormat(input)
  {
    sql := Normalize.NormalizeWhitespace(input);
    sql := Keywords.KeywordPasses(sql, Keywords.RegularKeywords);
    sql := ReplaceAll(WsKeyword("CASE"), sql);
    sql := CaseBlocks.ExpandCaseBlocks(sql);
    sql := Connectors.BreakConnectors(sql);
    DataTypes.TypeNamesWordy();
    sql := DataTypes.TypePasses(sql, DataTypes.TypeNames);
    sql := Semicolons.BreakSemicolons(sql);
    sql := Indentation.IndentLines(sql);
    sql := Comments.FixComments(sql);
    sql := ParenBlocks.IndentMultiLineParentheses(sql);
  }

  /**
    The post-formatter changes only whitespace and the case of letters:
    the non-whitespace characters of the result, upper-cased, are those of
    the input, in the same order.
  */
  lemma PostFormatSkeleton(s: seq<char>)
    ensures Skeleton(PostFormat(s)) == Skeleton(s)
  {
    var s1 := Normalize.NormalizeWhitespace(s);
    var s2 := Keywords.BreakKeywords(s1);
    var s3 := CaseBlocks.CaseBlocks(s2);
    var s4 := Connectors.Connect(s3);
    var s5 := DataTypes.UpcaseTypes(s4);
    var s6 := Semicolons.BreakSemicolons(s5);
    var s7 := Indentation.IndentLines(s6);
    var s8 := Comments.FixComments(s7);
    Normalize.NormalizeShape(s);
    Keywords.BreakKeywordsSkeleton(s1);
    CaseBlocks.CaseBlocksSkeleton(s2, 0);
    assert s2[0..] == s2;
    Connectors.ConnectEdits(s3);
    DataTypes.UpcaseTypesSpec(s4);
    Semicolons.BreakSemicolonsSpec(s5);
    Indentation.IndentLinesKeeps(s6);
    Comments.FixCommentsSpec(s7);
    ParenBlocks.IndentParensKeeps(s8);
  }

  /** In the result every semicolon is followed by a line feed. */
  lemma PostFormatSemicolons(s: seq<char>)
    ensures Lines.SemicolonsFollowed(PostFormat(s))
  {
    var s5 := DataTypes.UpcaseTypes(Connectors.Connect(CaseBlocks.CaseBlocks(Keywords.BreakKeywords(Normalize.NormalizeWhitespace(s)))));
    var s6 := Semicolons.BreakSemicolons(s5);
    var s7 := Indentation.IndentLines(s6);
    var s8 := Comments.FixComments(s7);
    Semicolons.BreakSemicolonsSpec(s5);
    Indentation.IndentLinesKeeps(s6);
    Comments.FixCommentsSpec(s7);
    ParenBlocks.IndentParensKeeps(s8);
  }
}
