/**
  Stage 4 of `customSqlPostFormatter` (script.js:129-174): a scan over the
  text that tracks the parenthesis depth and an "inside CASE" flag and puts
  a line break before every AND and OR that stands between two spaces at
  depth 0 outside a CASE.  When the last such break leaves its space as
  the last character of the text, the whole scan is thrown away.
*/
module Connectors {
  import opened Chars
  import opened Texts
  import opened Keywords

  /** `inParentheses` and `inCaseBlock` of the scan. */
  datatype Flags = Flags(depth: nat, inCase: bool)

  /**
    `CASE` in any case at `i`, at the start or after whitespace; nothing is
    demanded after it, so "CASEY" counts (script.js:137-138).
  */
  predicate CaseMark(s: seq<char>, i: nat) {
    CiPrefix(s, i, "CASE") && (i == 0 || IsWs(s[i - 1]))
  }

  /**
    `END` in any case at `i`, at the end or before whitespace; nothing is
    demanded before it, so the END of "WEEKEND " counts (script.js:142-143).
  */
  predicate EndMark(s: seq<char>, i: nat) {
    CiPrefix(s, i, "END") && (i + 3 == |s| || IsWs(s[i + 3]))
  }

  /** How the character at `i` changes the flags (script.js:137-150). */
  function Step(s: seq<char>, i: nat, f: Flags): Flags
    requires i < |s|
  {
    var inCase := if CaseMark(s, i) then true else if EndMark(s, i) then false else f.inCase;
    var depth := if s[i] == '(' then f.depth + 1
      else if s[i] == ')' then (if f.depth == 0 then 0 else f.depth - 1)
      else f.depth;
    Flags(depth, inCase)
  }

  /** The flags after the characters before `i`, every one of them looked at. */
  function FlagsAt(s: seq<char>, i: nat): Flags
    requires i <= |s|
  {
    if i == 0 then Flags(0, false) else Step(s, i - 1, FlagsAt(s, i - 1))
  }

  /** `kw` in any case at `i`, with a space before and after it (script.js:155-157). */
  predicate ConnectorAt(s: seq<char>, i: nat, kw: string) {
    0 < i && i + |kw| < |s| && s[i - 1] == ' ' && CiPrefix(s, i, kw) && s[i + |kw|] == ' '
  }

  /** The first keyword of `kws` that stands at `i`. */
  function FirstConnector(s: seq<char>, i: nat, kws: seq<string>): (r: Option<string>)
    ensures r.Some? ==> r.value in kws && ConnectorAt(s, i, r.value)
    ensures r.None? ==> forall k :: 0 <= k < |kws| ==> !ConnectorAt(s, i, kws[k])
  {
    if kws == [] then None
    else if ConnectorAt(s, i, kws[0]) then Some(kws[0])
    else FirstConnector(s, i, kws[1..])
  }

  /**
    The connector the loop breaks at when it reaches `i` carrying the flags
    `f` (script.js:146-168): AND or OR between two spaces, where the
    character is no parenthesis, the depth is 0 and the CASE flag, as
    updated at `i`, is clear.
  */
  function LoopBreak(s: seq<char>, i: nat, f: Flags): (r: Option<string>)
    requires i < |s|
    ensures r.Some? ==> (r.value == "AND" || r.value == "OR") && ConnectorAt(s, i, r.value)
  {
    if s[i] == '(' || s[i] == ')' || f.depth != 0 || Step(s, i, f).inCase then None
    else FirstConnector(s, i, SpecialKeywords)
  }

  /** The connector the scan breaks at when the flags are those of every character before `i`. */
  function BreakAt(s: seq<char>, i: nat): (r: Option<string>)
    requires i < |s|
    ensures r.Some? ==> (r.value == "AND" || r.value == "OR") && ConnectorAt(s, i, r.value)
  {
    LoopBreak(s, i, FlagsAt(s, i))
  }

  /** The scan breaks at no position of `[a, b)`. */
  predicate NoBreakIn(s: seq<char>, a: nat, b: nat) {
    b <= |s| && forall p :: a <= p < b ==> BreakAt(s, p).None?
  }

  /** A break whose trailing space is the character before `e`. */
  predicate BreakEndsAt(s: seq<char>, e: nat) {
    || (5 <= e <= |s| + 4 && e - 4 < |s| && BreakAt(s, e - 4) == Some("AND"))
    || (4 <= e <= |s| + 3 && e - 3 < |s| && BreakAt(s, e - 3) == Some("OR"))
  }

  /**
    The text the scan builds from `i` on (script.js:159-161): the text with
    "\n" before every connector it breaks at and that connector in upper
    case.
  */
  function BreaksFrom(s: seq<char>, i: nat): seq<char>
    requires i <= |s|
    decreases |s| - i
  {
    if i == |s| then []
    else match BreakAt(s, i)
      case Some(kw) => "\n" + kw + " " + BreaksFrom(s, i + |kw| + 1)
      case None => [s[i]] + BreaksFrom(s, i + 1)
  }

  /** The scan is thrown away when `lastIndex` ends at the length (script.js:171-174). */
  predicate Discarded(s: seq<char>) {
    |s| == 0 || BreakEndsAt(s, |s|)
  }

  /** The whole stage. */
  function Connect(s: seq<char>): seq<char> {
    if Discarded(s) then s else BreaksFrom(s, 0)
  }

  // ---------------------------------------------------------------------
  // The characters the scan jumps over after a break.

  lemma ConnectorChar(s: seq<char>, p: nat, kw: string, q: nat)
    requires (kw == "AND" || kw == "OR") && ConnectorAt(s, p, kw) && p <= q < p + |kw|
    ensures Upper(s[q]) in "ANDOR"
  {
    CiPrefixAt(s, p, kw, q - p);
  }

  /** A character of a connector or the space after it changes no flag. */
  lemma SkippedStep(s: seq<char>, p: nat, kw: string, q: nat, f: Flags)
    requires (kw == "AND" || kw == "OR") && ConnectorAt(s, p, kw) && p < q <= p + |kw|
    ensures Step(s, q, f) == f
  {
    if q < p + |kw| {
      ConnectorChar(s, p, kw, q);
    }
    if CaseMark(s, q) {
      assert false;
    }
    if EndMark(s, q) {
      assert false;
    }
  }

  /** After a break the flags are those right after the connector's first character. */
  lemma {:induction false} SkipKeepsFlags(s: seq<char>, p: nat, kw: string, q: nat)
    requires (kw == "AND" || kw == "OR") && ConnectorAt(s, p, kw) && p < q <= p + |kw| + 1
    ensures FlagsAt(s, q) == FlagsAt(s, p + 1)
    decreases q
  {
    if q > p + 1 {
      SkipKeepsFlags(s, p, kw, q - 1);
      SkippedStep(s, p, kw, q - 1, FlagsAt(s, q - 1));
    }
  }

  /** No connector starts inside a connector or on the space after it. */
  lemma NoBreakInside(s: seq<char>, p: nat, kw: string, q: nat)
    requires (kw == "AND" || kw == "OR") && ConnectorAt(s, p, kw) && p < q <= p + |kw| && q < |s|
    ensures BreakAt(s, q).None?
  {
    ConnectorChar(s, p, kw, q - 1);
  }

  /** So the positions a break jumps over hold no break. */
  lemma NoBreakSkipped(s: seq<char>, p: nat)
    requires p < |s| && BreakAt(s, p).Some?
    ensures NoBreakIn(s, p + 1, p + |BreakAt(s, p).value| + 1)
  {
    var kw := BreakAt(s, p).value;
    forall q | p + 1 <= q < p + |kw| + 1 ensures BreakAt(s, q).None? {
      NoBreakInside(s, p, kw, q);
    }
  }

  // ---------------------------------------------------------------------
  // The scan as a function.

  /** Between breaks the scan copies the text. */
  lemma {:induction false} CopyRun(s: seq<char>, a: nat, b: nat)
    requires a <= b && NoBreakIn(s, a, b)
    ensures BreaksFrom(s, a) == s[a..b] + BreaksFrom(s, b)
    decreases b - a
  {
    if a == b {
      assert s[a..b] + BreaksFrom(s, b) == BreaksFrom(s, b);
    } else {
      assert BreakAt(s, a).None?;
      CopyOne(s, a);
      CopyRun(s, a + 1, b);
      Prepend(s[a], s[a + 1..b], BreaksFrom(s, b));
      SliceCons(s, a, b);
    }
  }

  lemma Prepend(c: char, x: seq<char>, y: seq<char>)
    ensures [c] + (x + y) == ([c] + x) + y
  {
  }

  /** Where the scan does not break, it copies one character. */
  lemma CopyOne(s: seq<char>, a: nat)
    requires a < |s| && BreakAt(s, a).None?
    ensures BreaksFrom(s, a) == [s[a]] + BreaksFrom(s, a + 1)
  {
  }

  /** Where the scan breaks, it writes the break and goes on after the connector's space. */
  lemma BreakOne(s: seq<char>, a: nat, kw: string)
    requires a < |s| && BreakAt(s, a) == Some(kw)
    ensures a + |kw| + 1 <= |s|
    ensures BreaksFrom(s, a) == "\n" + kw + " " + BreaksFrom(s, a + |kw| + 1)
  {
  }

  /** Where the break that ends at `e` starts. */
  function BreakStart(s: seq<char>, e: nat): (p: nat)
    requires BreakEndsAt(s, e)
    ensures p < |s| && BreakAt(s, p).Some? && p + |BreakAt(s, p).value| + 1 == e
  {
    if 5 <= e && e - 4 < |s| && BreakAt(s, e - 4) == Some("AND") then e - 4 else e - 3
  }

  /** Two breaks do not overlap: the later one starts after the earlier one's space. */
  lemma BreaksApart(s: seq<char>, p: nat, q: nat)
    requires p < q < |s| && BreakAt(s, p).Some? && BreakAt(s, q).Some?
    ensures p + |BreakAt(s, p).value| + 1 <= q
  {
    NoBreakSkipped(s, p);
  }

  /** The scan end: `lastIndex < sql.length` exactly when the scan is not thrown away. */
  lemma Commit(s: seq<char>, last: nat)
    requires last <= |s| && (last == 0 || BreakEndsAt(s, last)) && NoBreakIn(s, last, |s|)
    ensures last < |s| <==> !Discarded(s)
  {
    if last < |s| && BreakEndsAt(s, |s|) {
      var p := BreakStart(s, |s|);
      if p < last {
        var q := BreakStart(s, last);
        if p < q {
          BreaksApart(s, p, q);
        } else if q < p {
          BreaksApart(s, q, p);
        }
      }
    }
  }

  // ---------------------------------------------------------------------
  // The loop.

  /** The inner loop of script.js:153-167: the first connector at `i`, in list order. */
  method MatchConnector(sql: seq<char>, i: nat) returns (found: Option<string>)
    requires i < |sql|
    ensures found == FirstConnector(sql, i, SpecialKeywords)
  {
    found := None;
    var k := 0;
    while k < |SpecialKeywords|
      invariant k <= |SpecialKeywords|
      invariant FirstConnector(sql, i, SpecialKeywords) == FirstConnector(sql, i, SpecialKeywords[k..])
      decreases |SpecialKeywords| - k
    {
      var keyword := SpecialKeywords[k];
      if i > 0 && sql[i - 1] == ' ' && i + |keyword| < |sql|
        && CiPrefix(sql, i, keyword) && sql[i + |keyword|] == ' '
      {
        found := Some(keyword);
        return;
      }
      assert SpecialKeywords[k..][1..] == SpecialKeywords[k + 1..];
      k := k + 1;
    }
  }

  lemma NoBreakExtend(s: seq<char>, a: nat, i: nat)
    requires NoBreakIn(s, a, i) && i < |s| && BreakAt(s, i).None?
    ensures NoBreakIn(s, a, i + 1)
  {
  }

  /** What the loop has built from `i` on, and `lastIndex` when it stops. */
  datatype Run = Run(text: seq<char>, last: nat)

  /**
    The loop from `i` on, reaching `i` with the flags `f` and `lastIndex`
    at `last`.  After a break it jumps past the connector's space, so it
    never looks at those characters (script.js:162-163).
  */
  function Loop(s: seq<char>, i: nat, f: Flags, last: nat): Run
    requires i <= |s|
    decreases |s| - i
  {
    if i == |s| then Run([], last)
    else
      var g := Step(s, i, f);
      match LoopBreak(s, i, f)
      case Some(kw) =>
        var r := Loop(s, i + |kw| + 1, g, i + |kw| + 1);
        Run("\n" + kw + " " + r.text, r.last)
      case None =>
        var r := Loop(s, i + 1, g, last);
        Run([s[i]] + r.text, r.last)
  }

  /** The loop from the start of the text. */
  function WholeLoop(s: seq<char>): Run {
    Loop(s, 0, Flags(0, false), 0)
  }

  /**
    `lastIndex` at `last` is where the last break before `i` ends, or 0
    when there is none.
  */
  predicate LastBreak(s: seq<char>, last: nat, i: nat) {
    last <= i <= |s| && (last == 0 || BreakEndsAt(s, last)) && NoBreakIn(s, last, i)
  }

  /**
    Jumping over a connector loses nothing: the loop builds the scan's
    text, and stops with `lastIndex` at the end of the last break, or where
    it was when there is none.
  */
  lemma {:induction false} LoopIsScan(s: seq<char>, i: nat, last: nat)
    requires LastBreak(s, last, i)
    ensures LoopScans(s, i, last)
    decreases |s| - i
  {
    if i < |s| {
      match BreakAt(s, i)
      case Some(kw) =>
        var e := i + |kw| + 1;
        HitStart(s, i, kw);
        LoopIsScan(s, e, e);
        HitScan(s, i, last, kw);
      case None =>
        NoBreakExtend(s, last, i);
        LoopIsScan(s, i + 1, last);
        CopyScan(s, i, last);
    }
  }

  /** What `LoopIsScan` states about the loop from `i` with `lastIndex` at `last`. */
  predicate LoopScans(s: seq<char>, i: nat, last: nat)
    requires i <= |s|
  {
    var r := Loop(s, i, FlagsAt(s, i), last);
    r.text == BreaksFrom(s, i) && LastBreak(s, r.last, |s|)
  }

  /** A break ends where the loop goes on. */
  lemma HitStart(s: seq<char>, i: nat, kw: string)
    requires i < |s| && BreakAt(s, i) == Some(kw)
    ensures LastBreak(s, i + |kw| + 1, i + |kw| + 1)
  {
    BreakOne(s, i, kw);
    assert BreakEndsAt(s, i + |kw| + 1);
  }

  /** The loop from a break is the loop from after its space, with the break in front. */
  lemma HitScan(s: seq<char>, i: nat, last: nat, kw: string)
    requires i < |s| && BreakAt(s, i) == Some(kw) && i + |kw| + 1 <= |s|
    requires LoopScans(s, i + |kw| + 1, i + |kw| + 1)
    ensures LoopScans(s, i, last)
  {
    var f := FlagsAt(s, i);
    var e := i + |kw| + 1;
    FlagsNext(s, i);
    BreakOne(s, i, kw);
    SkipKeepsFlags(s, i, kw, e);
    LoopHit(s, i, f, last, kw);
  }

  /** The loop from a copied character is the loop from the next one, with it in front. */
  lemma CopyScan(s: seq<char>, i: nat, last: nat)
    requires i < |s| && BreakAt(s, i).None?
    requires LoopScans(s, i + 1, last)
    ensures LoopScans(s, i, last)
  {
    var f := FlagsAt(s, i);
    FlagsNext(s, i);
    CopyOne(s, i);
    LoopCopy(s, i, f, last);
  }

  lemma FlagsNext(s: seq<char>, i: nat)
    requires i < |s|
    ensures FlagsAt(s, i + 1) == Step(s, i, FlagsAt(s, i))
  {
  }

  /** The stage is what the loop gives, committed when `lastIndex` stops short of the end. */
  lemma ConnectIsLoop(s: seq<char>)
    ensures Connect(s) == (var r := WholeLoop(s); if r.last < |s| then r.text else s)
  {
    LoopIsScan(s, 0, 0);
    var r := WholeLoop(s);
    Commit(s, r.last);
  }

  lemma LoopHit(s: seq<char>, i: nat, f: Flags, last: nat, kw: string)
    requires i < |s| && LoopBreak(s, i, f) == Some(kw)
    ensures var e := i + |kw| + 1;
      && e <= |s|
      && Loop(s, i, f, last).text == "\n" + kw + " " + Loop(s, e, Step(s, i, f), e).text
      && Loop(s, i, f, last).last == Loop(s, e, Step(s, i, f), e).last
  {
  }

  lemma LoopCopy(s: seq<char>, i: nat, f: Flags, last: nat)
    requires i < |s| && LoopBreak(s, i, f).None?
    ensures Loop(s, i, f, last).text == [s[i]] + Loop(s, i + 1, Step(s, i, f), last).text
    ensures Loop(s, i, f, last).last == Loop(s, i + 1, Step(s, i, f), last).last
  {
  }

  /**
    The invariant of the loop of `ScanConnectors`: what is built so far,
    the text from `lastIndex` to `i`, and what the loop builds from `i` on
    make up what the whole loop builds.
  */
  predicate ScanInv(s: seq<char>, i: nat, f: Flags, last: nat, result: seq<char>) {
    last <= i <= |s| &&
    var r := Loop(s, i, f, last);
    result + s[last..i] + r.text == WholeLoop(s).text && r.last == WholeLoop(s).last
  }

  /** A break keeps the invariant. */
  lemma HitKeeps(s: seq<char>, i: nat, f: Flags, last: nat, result: seq<char>, kw: string, e: nat)
    requires i < |s| && LoopBreak(s, i, f) == Some(kw) && ScanInv(s, i, f, last, result) && e == i + |kw| + 1
    ensures ScanInv(s, e, Step(s, i, f), e, result + s[last..i] + "\n" + kw + " ")
  {
    LoopHit(s, i, f, last, kw);
    var rest := Loop(s, e, Step(s, i, f), e).text;
    assert s[e..e] == [];
    Regroup(result + s[last..i], kw, rest);
  }

  lemma Regroup(a: seq<char>, kw: seq<char>, rest: seq<char>)
    ensures a + ("\n" + kw + " " + rest) == a + "\n" + kw + " " + [] + rest
  {
  }

  /** A copied character keeps the invariant. */
  lemma CopyKeeps(s: seq<char>, i: nat, f: Flags, last: nat, result: seq<char>)
    requires i < |s| && LoopBreak(s, i, f).None? && ScanInv(s, i, f, last, result)
    ensures ScanInv(s, i + 1, Step(s, i, f), last, result)
  {
    LoopCopy(s, i, f, last);
    var rest := Loop(s, i + 1, Step(s, i, f), last).text;
    SliceSnoc(s, last, i + 1);
    Regroup2(result, s[last..i], [s[i]], rest);
  }

  lemma Regroup2(a: seq<char>, b: seq<char>, c: seq<char>, rest: seq<char>)
    ensures a + b + (c + rest) == a + (b + c) + rest
  {
  }

  /** The flag updates of script.js:137-150 for the character at `i`. */
  method UpdateFlags(sql: seq<char>, i: nat, f: Flags) returns (g: Flags)
    requires i < |sql|
    ensures g == Step(sql, i, f)
  {
    var inCaseBlock := f.inCase;
    if CaseMark(sql, i) {
      inCaseBlock := true;
    } else if EndMark(sql, i) {
      inCaseBlock := false;
    }
    var inParentheses: int := f.depth;
    if sql[i] == '(' {
      inParentheses := inParentheses + 1;
    } else if sql[i] == ')' {
      inParentheses := inParentheses - 1;
      if inParentheses < 0 {
        inParentheses := 0;
      }
    }
    g := Flags(inParentheses, inCaseBlock);
  }

  /**
    The loop of script.js:135-169: the text built up to `lastIndex`, and
    `lastIndex`.
  */
  method ScanConnectors(sql: seq<char>) returns (result: seq<char>, lastIndex: nat)
    ensures lastIndex == WholeLoop(sql).last <= |sql|
    ensures result + sql[lastIndex..] == WholeLoop(sql).text
  {
    result := "";
    var flags := Flags(0, false);
    lastIndex := 0;
    var i: nat := 0;
    while i < |sql|
      invariant ScanInv(sql, i, flags, lastIndex, result)
      decreases |sql| - i
    {
      var next := i + 1;
      var updated := UpdateFlags(sql, i, flags);
      var found: Option<string> := None;
      if sql[i] != '(' && sql[i] != ')' && updated.depth == 0 && !updated.inCase {
        found := MatchConnector(sql, i);
      }
      assert found == LoopBreak(sql, i, flags);
      if found.Some? {
        var keyword := found.value;
        var e := i + |keyword| + 1;
        HitKeeps(sql, i, flags, lastIndex, result, keyword, e);
        result := result + sql[lastIndex..i] + "\n" + keyword + " ";
        lastIndex := e;
        next := e;
      } else {
        CopyKeeps(sql, i, flags, lastIndex, result);
      }
      flags := updated;
      i := next;
    }
    assert sql[lastIndex..i] == sql[lastIndex..];
  }

  /** The scan of script.js:129-174, committed only when `lastIndex` stops short of the end. */
  method BreakConnectors(sql: seq<char>) returns (out: seq<char>)
    ensures out == Connect(sql)
  {
    var result, lastIndex := ScanConnectors(sql);
    ConnectIsLoop(sql);
    if lastIndex < |sql| {
      result := result + sql[lastIndex..];
      out := result;
    } else {
      out := sql;
    }
  }

  // ---------------------------------------------------------------------
  // What the stage changes.

  /** The number of positions of `[i, |s|)` the scan breaks at. */
  function BreaksIn(s: seq<char>, i: nat): nat
    requires i <= |s|
    decreases |s| - i
  {
    if i == |s| then 0 else (if BreakAt(s, i).Some? then 1 else 0) + BreaksIn(s, i + 1)
  }

  lemma {:induction false} BreaksInSkip(s: seq<char>, a: nat, b: nat)
    requires a <= b && NoBreakIn(s, a, b)
    ensures BreaksIn(s, a) == BreaksIn(s, b)
    decreases b - a
  {
    if a < b {
      BreaksInSkip(s, a + 1, b);
    }
  }

  /** A connector the scan breaks at, with its space: no line feed, and the connector up to case. */
  lemma BrokenWord(s: seq<char>, p: nat, kw: string)
    requires p < |s| && BreakAt(s, p) == Some(kw)
    ensures p + |kw| + 1 <= |s|
    ensures CiEq(kw + " ", s[p..p + |kw| + 1]) && '\n' !in s[p..p + |kw| + 1]
  {
    var t := s[p..p + |kw| + 1];
    forall k | 0 <= k < |t| ensures Upper((kw + " ")[k]) == Upper(t[k]) && t[k] != '\n' {
      if k < |kw| {
        CiPrefixAt(s, p, kw, k);
        ConnectorChar(s, p, kw, p + k);
      }
    }
  }

  /** The text a break writes: one line feed, then the connector and its space. */
  lemma BreakText(kw: string)
    requires kw == "AND" || kw == "OR"
    ensures Without("\n" + kw + " ", '\n') == kw + " " && Count("\n" + kw + " ", '\n') == 1
  {
    var w := kw + " ";
    forall k | 0 <= k < |w| ensures w[k] != '\n' {
    }
    assert "\n" + kw + " " == ['\n'] + w;
    WithoutAbsent(w, '\n');
    CountAbsent(w, '\n');
  }

  /** Line feeds and case around a piece `h` written for a piece `a` of the text. */
  lemma JoinEdits(h: seq<char>, w: seq<char>, a: seq<char>, rest: seq<char>, b: seq<char>, n: nat)
    requires Without(h, '\n') == w && Count(h, '\n') == 1 && CiEq(w, a) && '\n' !in a
    requires CiEq(Without(rest, '\n'), Without(b, '\n')) && Count(rest, '\n') == Count(b, '\n') + n
    ensures CiEq(Without(h + rest, '\n'), Without(a + b, '\n'))
    ensures Count(h + rest, '\n') == Count(a + b, '\n') + 1 + n
  {
    WithoutAppend(h, rest, '\n');
    CountAppend(h, rest, '\n');
    WithoutAppend(a, b, '\n');
    CountAppend(a, b, '\n');
    WithoutAbsent(a, '\n');
    CountAbsent(a, '\n');
    CiEqAppend(w, Without(rest, '\n'), a, Without(b, '\n'));
  }

  /**
    The scan from `i` on writes the text from `i` on with one line feed
    more for every break and nothing else changed but the case of letters:
    with all line feeds taken out the two agree up to case.
  */
  predicate EditsFrom(s: seq<char>, i: nat)
    requires i <= |s|
  {
    && CiEq(Without(BreaksFrom(s, i), '\n'), Without(s[i..], '\n'))
    && Count(BreaksFrom(s, i), '\n') == Count(s[i..], '\n') + BreaksIn(s, i)
  }

  /** The step of `BreaksFromEdits` at a break. */
  lemma HitEdits(s: seq<char>, i: nat, kw: string, e: nat)
    requires i < |s| && BreakAt(s, i) == Some(kw) && e == i + |kw| + 1 <= |s| && EditsFrom(s, e)
    ensures EditsFrom(s, i)
  {
    BreakOne(s, i, kw);
    BreakText(kw);
    BrokenWord(s, i, kw);
    SuffixSplit(s, i, e);
    JoinEdits("\n" + kw + " ", kw + " ", s[i..e], BreaksFrom(s, e), s[e..], BreaksIn(s, e));
    NoBreakSkipped(s, i);
    BreaksInSkip(s, i + 1, e);
  }

  /** The step of `BreaksFromEdits` where the scan copies a character. */
  lemma CopyEdits(s: seq<char>, i: nat)
    requires i < |s| && BreakAt(s, i).None? && EditsFrom(s, i + 1)
    ensures EditsFrom(s, i)
  {
    var rest := BreaksFrom(s, i + 1);
    CopyOne(s, i);
    SuffixCons(s, i);
    WithoutAppend([s[i]], rest, '\n');
    CountAppend([s[i]], rest, '\n');
    WithoutAppend([s[i]], s[i + 1..], '\n');
    CountAppend([s[i]], s[i + 1..], '\n');
    var c := Without([s[i]], '\n');
    CiEqAppend(c, Without(rest, '\n'), c, Without(s[i + 1..], '\n'));
  }

  /** `EditsFrom` holds from every position on. */
  lemma {:induction false} BreaksFromEdits(s: seq<char>, i: nat)
    requires i <= |s|
    ensures EditsFrom(s, i)
    decreases |s| - i
  {
    if i == |s| {
      assert s[i..] == [];
    } else {
      match BreakAt(s, i)
      case Some(kw) =>
        BrokenWord(s, i, kw);
        BreaksFromEdits(s, i + |kw| + 1);
        HitEdits(s, i, kw, i + |kw| + 1);
      case None =>
        BreaksFromEdits(s, i + 1);
        CopyEdits(s, i);
    }
  }

  /**
    Stage 4 as a whole: unless it is thrown away, it adds exactly one line
    feed per break, keeps the length otherwise, changes no other character
    but for case, and so keeps the skeleton.
  */
  lemma ConnectEdits(s: seq<char>)
    ensures CiEq(Without(Connect(s), '\n'), Without(s, '\n'))
    ensures Count(Connect(s), '\n') == Count(s, '\n') + (if Discarded(s) then 0 else BreaksIn(s, 0))
    ensures |Connect(s)| == |s| + (if Discarded(s) then 0 else BreaksIn(s, 0))
    ensures Skeleton(Connect(s)) == Skeleton(s)
  {
    var out := Connect(s);
    if !Discarded(s) {
      BreaksFromEdits(s, 0);
      assert EditsFrom(s, 0);
      assert s[0..] == s;
    }
    WithoutCount(out, '\n');
    WithoutCount(s, '\n');
    WithoutKeepsSkeleton(out, '\n');
    WithoutKeepsSkeleton(s, '\n');
    SkeletonOfCiEq(Without(out, '\n'), Without(s, '\n'));
  }

  /**
    The scan breaks at `i` exactly at AND or OR between spaces (AND taking
    precedence), at depth 0, with the CASE flag clear once `i` is looked
    at; the test for a parenthesis at `i` never decides anything.
  */
  lemma BreakAtExactly(s: seq<char>, i: nat, kw: string)
    requires i < |s|
    ensures BreakAt(s, i) == Some(kw) <==>
      && ((kw == "AND" && ConnectorAt(s, i, "AND")) || (kw == "OR" && ConnectorAt(s, i, "OR") && !ConnectorAt(s, i, "AND")))
      && FlagsAt(s, i).depth == 0 && !FlagsAt(s, i + 1).inCase
  {
    if ConnectorAt(s, i, "AND") {
      CiPrefixAt(s, i, "AND", 0);
    }
    if ConnectorAt(s, i, "OR") {
      CiPrefixAt(s, i, "OR", 0);
    }
    assert SpecialKeywords[1..] == ["OR"] && ["OR"][1..] == [];
    assert FirstConnector(s, i, SpecialKeywords) ==
      if ConnectorAt(s, i, "AND") then Some("AND") else if ConnectorAt(s, i, "OR") then Some("OR") else None;
    assert FlagsAt(s, i + 1) == Step(s, i, FlagsAt(s, i));
  }

  /** The depth never exceeds the opening parentheses seen, and falls only with closing ones. */
  lemma {:induction false} DepthBounds(s: seq<char>, i: nat)
    requires i <= |s|
    ensures FlagsAt(s, i).depth <= Count(s[..i], '(')
    ensures Count(s[..i], '(') <= FlagsAt(s, i).depth + Count(s[..i], ')')
  {
    if i > 0 {
      DepthBounds(s, i - 1);
      assert s[..i] == s[..i - 1] + [s[i - 1]];
      CountAppend(s[..i - 1], [s[i - 1]], '(');
      CountAppend(s[..i - 1], [s[i - 1]], ')');
    }
  }

  /**
    The CASE test looks only at what comes before the word, so a word such
    as CASEY sets the flag, and the AND after it stays on its line.
  */
  lemma CaseyHidesConnector()
    ensures ConnectorAt("CASEY AND x", 6, "AND")
    ensures BreakAt("CASEY AND x", 6).None?
  {
    var s := "CASEY AND x";
    assert CaseMark(s, 0);
    assert FlagsAt(s, 7).inCase && FlagsAt(s, 6).depth == 0;
  }
}
