/**
  `indentMultiLineParentheses` (script.js:226-271), the last stage of the
  post-formatter. A scan with a stack of open parentheses collects the
  outermost parenthesised blocks; then every block that spans several
  lines has each line after its first prefixed with four spaces (unless it
  already starts with four), and the first occurrence of the block's text
  is replaced by the re-indented text.
*/
module ParenBlocks {
  import opened Chars
  import opened Texts
  import opened Lines

  /** An outermost block `(`...`)`: where it starts and ends, and its text `sql.substring(start, end + 1)`. */
  datatype Block = Block(start: nat, end: nat, content: string)

  /**
    What the scan knows after a prefix: how many parentheses are open, the
    position of the outermost of them, and the blocks found so far. Only
    the bottom of the stack is ever recorded in a block, so its height and
    bottom element are all of it that matters.
  */
  datatype Scan = Scan(depth: nat, open: nat, blocks: seq<Block>)

  /** The scan of script.js:231-250 after the first `i` characters. */
  function ScanTo(s: seq<char>, i: nat): (r: Scan)
    requires i <= |s|
    ensures r.depth > 0 ==> r.open < i
    decreases i
  {
    if i == 0 then Scan(0, 0, [])
    else
      var st := ScanTo(s, i - 1);
      var c := s[i - 1];
      if c == '(' then
        (if st.depth == 0 then Scan(1, i - 1, st.blocks) else Scan(st.depth + 1, st.open, st.blocks))
      else if c == ')' && st.depth == 1 then
        Scan(0, st.open, st.blocks + [Block(st.open, i - 1, s[st.open..i])])
      else if c == ')' && st.depth > 1 then
        Scan(st.depth - 1, st.open, st.blocks)
      else st
  }

  /** The blocks the scan collects over the whole text. */
  function ParenBlocks(s: seq<char>): seq<Block> {
    ScanTo(s, |s|).blocks
  }

  /** The scan itself: a stack of the positions of open parentheses; a `)` with an empty stack is skipped. */
  method FindParenBlocks(sql: seq<char>) returns (blocks: seq<Block>)
    ensures blocks == ParenBlocks(sql)
  {
    blocks := [];
    var openParens: seq<nat> := [];
    var i := 0;
    while i < |sql|
      invariant 0 <= i <= |sql|
      invariant |openParens| == ScanTo(sql, i).depth
      invariant openParens != [] ==> openParens[0] == ScanTo(sql, i).open
      invariant blocks == ScanTo(sql, i).blocks
    {
      if sql[i] == '(' {
        openParens := openParens + [i];
      } else if sql[i] == ')' && |openParens| > 0 {
        var o := openParens[|openParens| - 1];
        openParens := openParens[..|openParens| - 1];
        if |openParens| == 0 {
          blocks := blocks + [Block(o, i, sql[o..i + 1])];
        }
      }
      i := i + 1;
    }
  }

  // ---------------------------------------------------------------------
  // What the blocks are.

  /** Opening minus closing parentheses. */
  function Excess(t: seq<char>): int {
    Count(t, '(') - Count(t, ')')
  }

  /**
    A balanced group whose first parenthesis closes only at its end: it
    opens with `(`, closes with `)`, holds as many of each, and every
    proper prefix holds more `(` than `)`.
  */
  predicate Group(c: seq<char>) {
    |c| >= 2 && c[0] == '(' && c[|c| - 1] == ')' && Excess(c) == 0
    && forall m :: 0 < m < |c| ==> Excess(c[..m]) >= 1
  }

  /** Block `b` is the group at `[b.start, b.end]` of `s`. */
  predicate BlockOf(s: seq<char>, b: Block) {
    b.start < b.end < |s| && b.content == s[b.start..b.end + 1] && Group(b.content)
  }

  /** The blocks lie in `s[..i]`, in order and without overlap. */
  predicate BlocksIn(s: seq<char>, bs: seq<Block>, i: nat) {
    i <= |s|
    && (forall k :: 0 <= k < |bs| ==> BlockOf(s, bs[k]) && bs[k].end < i)
    && (forall k :: 0 < k < |bs| ==> bs[k - 1].end < bs[k].start)
  }

  /** While parentheses are open, the text from the outermost of them is an unfinished group. */
  predicate OpenGroup(s: seq<char>, i: nat, st: Scan) {
    i <= |s| && (st.depth > 0 ==>
      st.open < i && s[st.open] == '(' && Excess(s[st.open..i]) == st.depth
      && (forall m :: st.open < m <= i ==> Excess(s[st.open..m]) >= 1)
      && (forall k :: 0 <= k < |st.blocks| ==> st.blocks[k].end < st.open))
  }

  /** What the scan keeps true after each prefix. */
  predicate ScanOk(s: seq<char>, i: nat)
    requires i <= |s|
  {
    OpenGroup(s, i, ScanTo(s, i)) && BlocksIn(s, ScanTo(s, i).blocks, i)
  }

  lemma ExcessStep(s: seq<char>, a: nat, i: nat)
    requires a <= i < |s|
    ensures Excess(s[a..i + 1]) == Excess(s[a..i]) + (if s[i] == '(' then 1 else if s[i] == ')' then -1 else 0)
  {
    SliceSnoc(s, a, i + 1);
    CountAppend(s[a..i], [s[i]], '(');
    CountAppend(s[a..i], [s[i]], ')');
  }

  /** Blocks that lie before `i` lie before any later position. */
  lemma BlocksLater(s: seq<char>, bs: seq<Block>, i: nat, j: nat)
    requires BlocksIn(s, bs, i) && i <= j <= |s|
    ensures BlocksIn(s, bs, j)
  {
  }

  /** A `(` seen with nothing open starts a new group. */
  lemma OpenStep(s: seq<char>, i: nat)
    requires i < |s| && s[i] == '(' && ScanTo(s, i).depth == 0 && ScanOk(s, i)
    ensures ScanOk(s, i + 1)
  {
    ExcessStep(s, i, i);
    assert s[i..i] == [];
    BlocksLater(s, ScanTo(s, i).blocks, i, i + 1);
  }

  /** Any other character seen inside a group keeps it unfinished until the depth drops to zero. */
  lemma InnerStep(s: seq<char>, i: nat)
    requires i < |s| && ScanTo(s, i).depth > 0 && ScanOk(s, i)
    requires !(s[i] == ')' && ScanTo(s, i).depth == 1)
    ensures ScanOk(s, i + 1)
  {
    var st := ScanTo(s, i);
    var d := if s[i] == '(' then st.depth + 1 else if s[i] == ')' then st.depth - 1 else st.depth;
    assert ScanTo(s, i + 1) == Scan(d, st.open, st.blocks);
    ExcessStep(s, st.open, i);
    OpenLonger(s, i, st, Scan(d, st.open, st.blocks));
    BlocksLater(s, st.blocks, i, i + 1);
  }

  /** An unfinished group one character longer, whose depth stays positive. */
  lemma OpenLonger(s: seq<char>, i: nat, st: Scan, st': Scan)
    requires i < |s| && OpenGroup(s, i, st) && st.depth > 0
    requires st'.open == st.open && st'.blocks == st.blocks && st'.depth > 0
    requires Excess(s[st.open..i + 1]) == st'.depth
    ensures OpenGroup(s, i + 1, st')
  {
  }

  /** With nothing open, anything but `(` leaves the scan as it is. */
  lemma IdleStep(s: seq<char>, i: nat)
    requires i < |s| && s[i] != '(' && ScanTo(s, i).depth == 0 && ScanOk(s, i)
    ensures ScanOk(s, i + 1)
  {
    assert ScanTo(s, i + 1) == ScanTo(s, i);
    BlocksLater(s, ScanTo(s, i).blocks, i, i + 1);
  }

  /** The text from the outermost `(` to the `)` that closes it is a group. */
  lemma ClosedGroup(s: seq<char>, i: nat)
    requires i < |s| && s[i] == ')' && ScanTo(s, i).depth == 1 && OpenGroup(s, i, ScanTo(s, i))
    ensures Group(s[ScanTo(s, i).open..i + 1])
  {
    var o := ScanTo(s, i).open;
    var c := s[o..i + 1];
    ExcessStep(s, o, i);
    forall m | 0 < m < |c| ensures Excess(c[..m]) >= 1 {
      SliceOfSlice(s, o, i + 1, 0, m);
    }
  }

  /** The `)` that closes the outermost parenthesis completes a group. */
  lemma CloseStep(s: seq<char>, i: nat)
    requires i < |s| && s[i] == ')' && ScanTo(s, i).depth == 1 && ScanOk(s, i)
    ensures ScanOk(s, i + 1)
  {
    var st := ScanTo(s, i);
    var o := st.open;
    var c := s[o..i + 1];
    ClosedGroup(s, i);
    var bs := st.blocks + [Block(o, i, c)];
    assert ScanTo(s, i + 1).blocks == bs;
    forall k | 0 <= k < |bs| ensures BlockOf(s, bs[k]) && bs[k].end < i + 1 {
      if k < |bs| - 1 {
        assert bs[k] == st.blocks[k];
      }
    }
    forall k | 0 < k < |bs| ensures bs[k - 1].end < bs[k].start {
      if k < |bs| - 1 {
        assert bs[k - 1] == st.blocks[k - 1] && bs[k] == st.blocks[k];
      }
    }
  }

  lemma {:induction false} ScanFacts(s: seq<char>, i: nat)
    requires i <= |s|
    ensures ScanOk(s, i)
    decreases i
  {
    if i > 0 {
      ScanFacts(s, i - 1);
      ScanStep(s, i);
    }
  }

  /** Each character keeps what the scan keeps true. */
  lemma ScanStep(s: seq<char>, i: nat)
    requires 0 < i <= |s| && ScanOk(s, i - 1)
    ensures ScanOk(s, i)
  {
    var j := i - 1;
    assert j + 1 == i;
    var st := ScanTo(s, j);
    if s[j] == '(' && st.depth == 0 {
      OpenStep(s, j);
    } else if s[j] == ')' && st.depth == 1 {
      CloseStep(s, j);
    } else if st.depth > 0 {
      InnerStep(s, j);
    } else {
      IdleStep(s, j);
    }
  }

  /**
    The scan finds groups of the text, from left to right and without
    overlap: each block opens with `(` and ends at the `)` that balances
    it, and its text is that stretch of the text.
  */
  lemma ParenBlocksSpec(s: seq<char>)
    ensures BlocksIn(s, ParenBlocks(s), |s|)
  {
    ScanFacts(s, |s|);
  }

  /** From a `(` seen with nothing open, the scan counts exactly, as long as the group stays open. */
  lemma {:induction false} Tracked(s: seq<char>, p: nat, j: nat)
    requires p < j <= |s| && s[p] == '(' && ScanTo(s, p).depth == 0
    requires forall e :: p < e <= j ==> Excess(s[p..e]) >= 1
    ensures ScanTo(s, j) == Scan(Excess(s[p..j]), p, ScanTo(s, p).blocks)
    decreases j
  {
    var k := j - 1;
    assert k + 1 == j;
    if k == p {
      ExcessStep(s, p, p);
      assert s[p..p] == [];
    } else {
      Tracked(s, p, k);
      ExcessStep(s, p, k);
    }
  }

  /** The scan never forgets a block. */
  lemma {:induction false} BlocksGrow(s: seq<char>, j: nat, j': nat)
    requires j <= j' <= |s|
    ensures ScanTo(s, j).blocks <= ScanTo(s, j').blocks
    decreases j' - j
  {
    if j < j' {
      BlocksGrow(s, j, j' - 1);
    }
  }

  /**
    Conversely, every group of the text that starts where no parenthesis
    is open is one of the blocks.
  */
  lemma GroupIsBlock(s: seq<char>, p: nat, q: nat)
    requires p <= q < |s| && ScanTo(s, p).depth == 0 && Group(s[p..q + 1])
    ensures Block(p, q, s[p..q + 1]) in ParenBlocks(s)
  {
    GroupCloses(s, p, q);
    BlocksGrow(s, q + 1, |s|);
    LastIn(ScanTo(s, p).blocks, Block(p, q, s[p..q + 1]), ParenBlocks(s));
  }

  /** The scan records a group that starts where nothing is open when it reaches its end. */
  lemma GroupCloses(s: seq<char>, p: nat, q: nat)
    requires p <= q < |s| && ScanTo(s, p).depth == 0 && Group(s[p..q + 1])
    ensures ScanTo(s, q + 1).blocks == ScanTo(s, p).blocks + [Block(p, q, s[p..q + 1])]
  {
    var c := s[p..q + 1];
    forall e | p < e <= q ensures Excess(s[p..e]) >= 1 {
      SliceOfSlice(s, p, q + 1, 0, e - p);
    }
    Tracked(s, p, q);
    ExcessStep(s, p, q);
    assert s[q] == c[|c| - 1];
  }

  lemma LastIn<T>(a: seq<T>, x: T, b: seq<T>)
    requires a + [x] <= b
    ensures x in b
  {
    assert b[|a|] == x;
  }

  /** A `)` that arrives with nothing open changes nothing. */
  lemma StrayCloseIgnored(s: seq<char>, i: nat)
    requires i < |s| && s[i] == ')' && ScanTo(s, i).depth == 0
    ensures ScanTo(s, i + 1) == ScanTo(s, i)
  {
  }

  /**
    A `(` seen with nothing open that is never closed hides every later
    group: the blocks are those found before it, all of which end before it.
  */
  lemma UnclosedHidesLater(s: seq<char>, p: nat)
    requires p < |s| && s[p] == '(' && ScanTo(s, p).depth == 0
    requires forall e :: p < e <= |s| ==> Excess(s[p..e]) >= 1
    ensures ParenBlocks(s) == ScanTo(s, p).blocks
    ensures forall k :: 0 <= k < |ParenBlocks(s)| ==> ParenBlocks(s)[k].end < p
  {
    Tracked(s, p, |s|);
    ScanFacts(s, p);
  }

  // ---------------------------------------------------------------------
  // Re-indenting a block and putting it back.

  /** Lines after the first that do not already start with four spaces get them (script.js:260-264). */
  function PadTail(ls: seq<seq<char>>): (r: seq<seq<char>>)
    ensures |r| == |ls|
  {
    seq(|ls|, k requires 0 <= k < |ls| => if k == 0 || StartsWith(ls[k], "    ") then ls[k] else "    " + ls[k])
  }

  /** The re-indented text of a block (script.js:258-265). */
  function Reindent(c: seq<char>): seq<char> {
    Join(PadTail(Split(c)))
  }

  /**
    Re-indenting keeps the first line, adds four spaces at most to the
    others, leaves every line after the first starting with four spaces,
    keeps a line that already starts with them, and a second pass changes
    nothing.
  */
  lemma ReindentSpec(c: seq<char>)
    ensures Split(Reindent(c)) == PadTail(Split(c))
    ensures Padded(Split(c), Split(Reindent(c))) && Split(Reindent(c))[0] == Split(c)[0]
    ensures forall k :: 1 <= k < |Split(Reindent(c))| ==> StartsWith(Split(Reindent(c))[k], "    ")
    ensures forall k :: 0 <= k < |Split(c)| && StartsWith(Split(c)[k], "    ") ==> Split(Reindent(c))[k] == Split(c)[k]
    ensures Reindent(Reindent(c)) == Reindent(c)
  {
    var ls := Split(c);
    var ls' := PadTail(ls);
    SplitLineFeeds(c);
    assert NoLineFeeds(ls') by {
      forall k | 0 <= k < |ls'| ensures '\n' !in ls'[k] {
        assert '\n' !in ls[k];
      }
    }
    SplitJoin(ls');
    forall k | 1 <= k < |ls'| ensures StartsWith(ls'[k], "    ") {
      if !StartsWith(ls[k], "    ") {
        assert ls'[k][..4] == "    ";
      }
    }
    assert PadTail(ls') == ls';
  }

  /** `t.replace(pat, rep)` for a string `pat`, with `rep` taken literally. */
  function ReplaceFirst(t: seq<char>, pat: seq<char>, rep: seq<char>): seq<char> {
    var k := IndexOf(t, pat, 0);
    if k < 0 then t else t[..k] + rep + t[k + |pat|..]
  }

  /** The first occurrence of the pattern is the one replaced. */
  lemma ReplaceFirstAt(t: seq<char>, pat: seq<char>, rep: seq<char>, k: nat)
    requires OccursAt(t, pat, k) && NoOccurrence(t, pat, 0, k)
    ensures ReplaceFirst(t, pat, rep) == t[..k] + rep + t[k + |pat|..]
  {
  }

  /** Without an occurrence nothing changes. */
  lemma ReplaceFirstAbsent(t: seq<char>, pat: seq<char>, rep: seq<char>)
    requires NoOccurrence(t, pat, 0, |t| + 1)
    ensures ReplaceFirst(t, pat, rep) == t
  {
  }

  /**
    The text `String.prototype.replace` inserts for a string pattern
    matched at `k` with length `n` (GetSubstitution of ECMA-262): `$$`
    stands for `$`, `$&` for the matched text, `` $` `` for the text before
    it and `$'` for the text after it; any other `$` is itself.
  */
  function Expand(rep: seq<char>, t: seq<char>, k: nat, n: nat): seq<char>
    requires k + n <= |t|
    decreases |rep|
  {
    if rep == [] then []
    else if rep[0] == '$' && |rep| >= 2 && rep[1] == '$' then "$" + Expand(rep[2..], t, k, n)
    else if rep[0] == '$' && |rep| >= 2 && rep[1] == '&' then t[k..k + n] + Expand(rep[2..], t, k, n)
    else if rep[0] == '$' && |rep| >= 2 && rep[1] == '`' then t[..k] + Expand(rep[2..], t, k, n)
    else if rep[0] == '$' && |rep| >= 2 && rep[1] == '\'' then t[k + n..] + Expand(rep[2..], t, k, n)
    else [rep[0]] + Expand(rep[1..], t, k, n)
  }

  /** `t.replace(pat, rep)` for a string `pat`, as JavaScript does it: `$` patterns in `rep` are expanded. */
  function ReplaceFirstAsWritten(t: seq<char>, pat: seq<char>, rep: seq<char>): seq<char> {
    var k := IndexOf(t, pat, 0);
    if k < 0 then t else t[..k] + Expand(rep, t, k, |pat|) + t[k + |pat|..]
  }

  /** A replacement without `$` is inserted as it is. */
  lemma {:induction false} ExpandLiteral(rep: seq<char>, t: seq<char>, k: nat, n: nat)
    requires k + n <= |t| && '$' !in rep
    ensures Expand(rep, t, k, n) == rep
    decreases |rep|
  {
    if rep != [] {
      ExpandLiteral(rep[1..], t, k, n);
      assert rep == [rep[0]] + rep[1..];
    }
  }

  /** One block of the loop at script.js:253-268; `asWritten` selects how `replace` treats `$`. */
  function ApplyBlock(t: seq<char>, b: Block, asWritten: bool): seq<char> {
    var c := b.content;
    if '\n' !in c then t
    else if asWritten then ReplaceFirstAsWritten(t, c, Reindent(c))
    else ReplaceFirst(t, c, Reindent(c))
  }

  /** The blocks, one after the other. */
  function ApplyBlocks(t: seq<char>, bs: seq<Block>, asWritten: bool): seq<char>
    decreases |bs|
  {
    if bs == [] then t else ApplyBlocks(ApplyBlock(t, bs[0], asWritten), bs[1..], asWritten)
  }

  /** The stage, with the block text put back literally. */
  function IndentParens(s: seq<char>): seq<char> {
    ApplyBlocks(s, ParenBlocks(s), false)
  }

  /** The stage as script.js:267 writes it, with `$` patterns of the new text expanded. */
  function IndentParensAsWritten(s: seq<char>): seq<char> {
    ApplyBlocks(s, ParenBlocks(s), true)
  }

  /** The loop at script.js:260-264 over the lines of one block. */
  method PadLines(ls: seq<seq<char>>) returns (lines: seq<seq<char>>)
    ensures lines == PadTail(ls)
  {
    lines := ls;
    var i := 1;
    while i < |lines|
      invariant 1 <= i && |lines| == |ls| && (ls != [] ==> i <= |ls|)
      invariant forall k :: 0 <= k < i && k < |ls| ==> lines[k] == PadTail(ls)[k]
      invariant forall k :: i <= k < |lines| ==> lines[k] == ls[k]
    {
      if !StartsWith(lines[i], "    ") {
        lines := lines[i := "    " + lines[i]];
      }
      i := i + 1;
    }
  }

  /** `indentMultiLineParentheses`, with the block text put back literally. */
  method IndentMultiLineParentheses(sql: seq<char>) returns (out: seq<char>)
    ensures out == IndentParens(sql)
  {
    var blocks := FindParenBlocks(sql);
    out := sql;
    var j := 0;
    while j < |blocks|
      invariant 0 <= j <= |blocks|
      invariant ApplyBlocks(out, blocks[j..], false) == IndentParens(sql)
    {
      assert blocks[j..][1..] == blocks[j + 1..];
      var content := blocks[j].content;
      if '\n' in content {
        var lines := PadLines(Split(content));
        out := ReplaceFirst(out, content, Join(lines));
      }
      j := j + 1;
    }
  }

  // ---------------------------------------------------------------------
  // What the stage keeps.

  /** Putting a re-indented block back in place of its first occurrence only pads lines. */
  lemma ReplaceReindented(t: seq<char>, c: seq<char>)
    ensures Padded(Split(t), Split(ReplaceFirst(t, c, Reindent(c))))
  {
    var k := IndexOf(t, c, 0);
    if k >= 0 {
      var a, rest := t[..k], t[k + |c|..];
      assert t == a + c + rest;
      ReindentSpec(c);
      PaddedPrefix(a, c, Reindent(c));
      PaddedSuffix(a + c, a + Reindent(c), rest);
    } else {
      assert Padded(Split(t), Split(t));
    }
  }

  lemma {:induction false} ApplyBlocksKeeps(t: seq<char>, bs: seq<Block>)
    ensures Skeleton(ApplyBlocks(t, bs, false)) == Skeleton(t)
    ensures Count(ApplyBlocks(t, bs, false), '\n') == Count(t, '\n')
    ensures SemicolonsFollowed(t) ==> SemicolonsFollowed(ApplyBlocks(t, bs, false))
    decreases |bs|
  {
    if bs != [] {
      var t' := ApplyBlock(t, bs[0], false);
      if '\n' in bs[0].content {
        ReplaceReindented(t, bs[0].content);
        PaddedLinesKeep(t, t');
      }
      ApplyBlocksKeeps(t', bs[1..]);
    }
  }

  /**
    The stage only puts spaces at the start of lines: the skeleton, the
    line feeds and every semicolon followed by a line feed are kept.
  */
  lemma IndentParensKeeps(s: seq<char>)
    ensures Skeleton(IndentParens(s)) == Skeleton(s)
    ensures Count(IndentParens(s), '\n') == Count(s, '\n')
    ensures SemicolonsFollowed(s) ==> SemicolonsFollowed(IndentParens(s))
  {
    ApplyBlocksKeeps(s, ParenBlocks(s));
  }

  // ---------------------------------------------------------------------
  // `$` in the re-indented text.

  lemma ReindentNoDollar(c: seq<char>)
    requires '$' !in c
    ensures '$' !in Reindent(c)
  {
    ReindentSpec(c);
    PaddedLinesKeep(c, Reindent(c));
    AbsentFromSkeleton(c, '$');
    AbsentFromSkeleton(Reindent(c), '$');
  }

  lemma {:induction false} ApplyBlocksAgree(t: seq<char>, bs: seq<Block>)
    requires forall k :: 0 <= k < |bs| ==> '$' !in bs[k].content
    ensures ApplyBlocks(t, bs, true) == ApplyBlocks(t, bs, false)
    decreases |bs|
  {
    if bs != [] {
      var c := bs[0].content;
      var k := IndexOf(t, c, 0);
      if '\n' in c && k >= 0 {
        ReindentNoDollar(c);
        ExpandLiteral(Reindent(c), t, k, |c|);
      }
      assert ApplyBlock(t, bs[0], true) == ApplyBlock(t, bs[0], false);
      ApplyBlocksAgree(ApplyBlock(t, bs[0], false), bs[1..]);
    }
  }

  /** On a text without `$` the stage as written and the literal one agree. */
  lemma AsWrittenAgrees(s: seq<char>)
    requires '$' !in s
    ensures IndentParensAsWritten(s) == IndentParens(s)
  {
    var bs := ParenBlocks(s);
    ParenBlocksSpec(s);
    forall k | 0 <= k < |bs| ensures '$' !in bs[k].content {
      var b := bs[k];
      assert BlockOf(s, b);
      forall d | 0 <= d < |b.content| ensures b.content[d] != '$' {
        assert b.content[d] == s[b.start + d];
      }
    }
    ApplyBlocksAgree(s, bs);
  }

  /** The text `($$` line feed `)`, spelled out character by character. */
  predicate DollarText(s: seq<char>) {
    |s| == 5 && s[0] == '(' && s[1] == '$' && s[2] == '$' && s[3] == '\n' && s[4] == ')'
  }

  lemma DollarBlock(s: seq<char>)
    requires DollarText(s)
    ensures ParenBlocks(s) == [Block(0, 4, s)]
  {
    assert ScanTo(s, 1) == Scan(1, 0, []);
    assert ScanTo(s, 2) == Scan(1, 0, []);
    assert ScanTo(s, 3) == Scan(1, 0, []);
    assert ScanTo(s, 4) == Scan(1, 0, []);
    assert s[0..5] == s;
  }

  /** A two-line block whose second line is not indented yet. */
  lemma ReindentTwo(a: seq<char>, b: seq<char>)
    requires '\n' !in a && '\n' !in b && !StartsWith(b, "    ")
    ensures Reindent(a + "\n" + b) == a + "\n" + ("    " + b)
  {
    assert [a, b][1..] == [b];
    assert Join([a, b]) == a + "\n" + b;
    assert NoLineFeeds([a, b]);
    SplitJoin([a, b]);
    assert PadTail([a, b]) == [a, "    " + b];
    assert [a, "    " + b][1..] == ["    " + b];
    assert Join([a, "    " + b]) == a + "\n" + ("    " + b);
  }

  lemma ExpandDollars(r: seq<char>, m: seq<char>, t: seq<char>, k: nat, n: nat)
    requires k + n <= |t| && '$' !in m && r == ['(', '$', '$'] + m
    ensures Expand(r, t, k, n) == ['(', '$'] + m
  {
    var r' := ['$', '$'] + m;
    ConsTail(['('], r');
    ExpandPlain(r, t, k, n);
    ConsTail(['$'], ['$'] + m);
    ConsTail(['$'], m);
    ExpandDollarDollar(r', t, k, n);
    ExpandLiteral(m, t, k, n);
    ConsDollar('(', Expand(r', t, k, n), m);
  }

  lemma ConsDollar(c: char, x: seq<char>, m: seq<char>)
    requires x == "$" + m
    ensures [c] + x == [c, '$'] + m
  {
  }

  /** A character other than `$` is copied. */
  lemma ExpandPlain(rep: seq<char>, t: seq<char>, k: nat, n: nat)
    requires k + n <= |t| && rep != [] && rep[0] != '$'
    ensures Expand(rep, t, k, n) == [rep[0]] + Expand(rep[1..], t, k, n)
  {
  }

  /** `$$` stands for one `$`. */
  lemma ExpandDollarDollar(rep: seq<char>, t: seq<char>, k: nat, n: nat)
    requires k + n <= |t| && |rep| >= 2 && rep[0] == '$' && rep[1] == '$'
    ensures Expand(rep, t, k, n) == "$" + Expand(rep[2..], t, k, n)
  {
  }

  lemma ApplyOne(t: seq<char>, b: Block, asWritten: bool)
    ensures ApplyBlocks(t, [b], asWritten) == ApplyBlock(t, b, asWritten)
  {
    assert [b][1..] == [];
  }

  lemma IndexOfAt(t: seq<char>, pat: seq<char>, k: nat)
    requires OccursAt(t, pat, k) && NoOccurrence(t, pat, 0, k)
    ensures IndexOf(t, pat, 0) == k
  {
  }

  /** A text that is one block, spanning several lines, as a whole. */
  lemma WholeBlock(s: seq<char>)
    requires |s| > 0 && ParenBlocks(s) == [Block(0, |s| - 1, s)] && '\n' in s
    ensures IndentParens(s) == Reindent(s)
    ensures IndentParensAsWritten(s) == Expand(Reindent(s), s, 0, |s|)
  {
    var b := Block(0, |s| - 1, s);
    ApplyOne(s, b, false);
    ApplyOne(s, b, true);
    ReplaceWhole(s, Reindent(s));
  }

  /** Replacing a text that is all of the text. */
  lemma ReplaceWhole(s: seq<char>, rep: seq<char>)
    ensures ReplaceFirst(s, s, rep) == rep
    ensures ReplaceFirstAsWritten(s, s, rep) == Expand(rep, s, 0, |s|)
  {
    assert OccursAt(s, s, 0);
    IndexOfAt(s, s, 0);
    assert s[..0] == [] && s[|s|..] == [];
  }

  /**
    A block holding `$$` loses a `$`: in the new text `($$\n    )` JavaScript
    reads `$$` as the pattern for one `$`.
  */
  lemma DollarReindent(s: seq<char>)
    requires DollarText(s)
    ensures Reindent(s) == ['(', '$', '$'] + "\n    )"
  {
    var a, b := s[..3], s[4..];
    assert '\n' !in a && '\n' !in b && !StartsWith(b, "    ");
    ReindentTwo(a, b);
    assert a + "\n" + b == s;
  }

  lemma DollarCounterexample(s: seq<char>)
    requires DollarText(s)
    ensures IndentParensAsWritten(s) == "($\n    )"
    ensures IndentParens(s) == "($$\n    )"
  {
    DollarBlock(s);
    DollarReindent(s);
    ExpandDollars(Reindent(s), "\n    )", s, 0, 5);
    WholeBlock(s);
  }



}
