/**
  Stage 5 of `customSqlPostFormatter` (script.js:177-182): for each data
  type name in turn, every whole-word occurrence of it, in any case, is
  replaced by its upper-case spelling (`/\btype\b/gi`).
*/
module DataTypes {
  import opened Chars
  import opened Rewrite
  import opened Patterns
  import opened Keywords

  /** The data type names, in the order the passes run (script.js:177). */
  const TypeNames: seq<string> :=
    ["number", "date", "varchar", "char", "int", "float", "decimal", "boolean", "text", "timestamp", "datetime"]

  /** One pass `s.replace(new RegExp("\\b" + w + "\\b", "gi"), w.toUpperCase())`. */
  function TypePass(w: string, s: seq<char>): seq<char>
    requires w != []
  {
    ReplaceAll(WordToken(w), s)
  }

  /** One pass for each name of `ws`, in order. */
  function UpcaseEach(s: seq<char>, ws: seq<string>): seq<char>
    requires NonEmptyWords(ws)
    decreases |ws|
  {
    if ws == [] then s else UpcaseEach(TypePass(ws[0], s), ws[1..])
  }

  /** The whole stage. */
  function UpcaseTypes(s: seq<char>): seq<char> {
    UpcaseEach(s, TypeNames)
  }

  /** `t` is `s` with some characters upper-cased and nothing else changed. */
  predicate UpcasesOnly(s: seq<char>, t: seq<char>) {
    |t| == |s| && forall k :: 0 <= k < |s| ==> t[k] == s[k] || t[k] == Upper(s[k])
  }

  /** Every character of `w` is a word character, so `\b` never falls inside it. */
  predicate Wordy(w: string) {
    forall d :: 0 <= d < |w| ==> IsWordChar(w[d])
  }

  /** Every whole-word occurrence of a name of `ws` in `s` is spelled in upper case. */
  predicate TypesUpper(s: seq<char>, ws: seq<string>) {
    forall j, q :: 0 <= j < |ws| && 0 <= q <= |s| && WordMatch(s, q, ws[j]) ==> s[q..q + |ws[j]|] == UpperStr(ws[j])
  }

  /** Every character where `t` differs from `s` lies in a whole-word occurrence in `s` of a name of `ws`. */
  ghost predicate ChangesInNames(s: seq<char>, t: seq<char>, ws: seq<string>) {
    |t| == |s| &&
    forall k :: 0 <= k < |s| && t[k] != s[k] ==>
      exists j, q :: 0 <= j < |ws| && WordMatch(s, q, ws[j]) && q <= k < q + |ws[j]|
  }

  // ---------------------------------------------------------------------
  // Upper-casing only.

  lemma UpcasesOnlyCiEq(s: seq<char>, t: seq<char>)
    requires UpcasesOnly(s, t)
    ensures CiEq(t, s)
  {
    forall k | 0 <= k < |s| ensures Upper(t[k]) == Upper(s[k]) {
      UpperClasses(s[k]);
    }
  }

  lemma UpcasesOnlyTrans(s: seq<char>, t: seq<char>, u: seq<char>)
    requires UpcasesOnly(s, t) && UpcasesOnly(t, u)
    ensures UpcasesOnly(s, u)
  {
    forall k | 0 <= k < |s| ensures u[k] == s[k] || u[k] == Upper(s[k]) {
      UpperClasses(s[k]);
    }
  }

  /** Upper-casing leaves a stretch that is already upper case as it is. */
  lemma UpcasesOnlyKeepsUpper(s: seq<char>, t: seq<char>, q: nat, w: string)
    requires UpcasesOnly(s, t) && q + |w| <= |s| && s[q..q + |w|] == UpperStr(w)
    ensures t[q..q + |w|] == UpperStr(w)
  {
    var u := s[q..q + |w|];
    forall d | 0 <= d < |w| ensures t[q + d] == u[d] {
      KeepUpperChar(s, t, q, w, d);
    }
    assert t[q..q + |w|] == u;
  }

  lemma KeepUpperChar(s: seq<char>, t: seq<char>, q: nat, w: string, d: nat)
    requires UpcasesOnly(s, t) && q + |w| <= |s| && s[q..q + |w|] == UpperStr(w) && d < |w|
    ensures t[q + d] == s[q + d]
  {
    assert s[q + d] == UpperStr(w)[d] == Upper(w[d]);
    UpperClasses(w[d]);
  }

  /** Texts equal up to case have the same whole-word occurrences. */
  lemma WordMatchUpToCase(s: seq<char>, t: seq<char>, q: int, w: string)
    requires CiEq(t, s)
    ensures WordMatch(t, q, w) <==> WordMatch(s, q, w)
  {
    forall j | 0 <= j < |s| ensures IsWordChar(t[j]) == IsWordChar(s[j]) {
      SameUpperSameClass(t[j], s[j]);
    }
    assert Boundary(t, q) == Boundary(s, q);
    assert Boundary(t, q + |w|) == Boundary(s, q + |w|);
    if 0 <= q && q + |w| <= |s| {
      assert CiEq(t[q..q + |w|], w) <==> CiEq(s[q..q + |w|], w) by {
        var a, b := t[q..q + |w|], s[q..q + |w|];
        forall d | 0 <= d < |w| ensures Upper(a[d]) == Upper(b[d]) {
          assert a[d] == t[q + d] && b[d] == s[q + d];
        }
      }
    }
  }

  // ---------------------------------------------------------------------
  // One pass.

  /** What a rewritten window of a pass holds: the upper case of the text under it. */
  lemma WindowUpcases(w: string, s: seq<char>, out: seq<char>, m: int, k: int)
    requires w != [] && Window(RuleOf(WordToken(w)), s, out, 0, m) && m <= k < m + |w|
    ensures out[k] == Upper(s[k])
  {
    HitIsMatch(WordToken(w), s, m);
    assert out[k] == out[m..m + |w|][k - m] == UpperStr(w)[k - m];
    assert Upper(s[m..m + |w|][k - m]) == Upper(w[k - m]);
    UpperClasses(w[k - m]);
  }

  /** A pass changes nothing but the case of letters. */
  lemma TypePassUpcases(w: string, s: seq<char>)
    requires w != []
    ensures UpcasesOnly(s, TypePass(w, s))
  {
    var r := RuleOf(WordToken(w));
    var out := TypePass(w, s);
    SameWidthWindows(r, s, 0);
    forall k | 0 <= k < |s| ensures out[k] == s[k] || out[k] == Upper(s[k]) {
      if out[k] != s[k] {
        var m :| Window(r, s, out, 0, m) && m <= k < m + r.width;
        WindowUpcases(w, s, out, m, k);
      }
    }
  }

  /** A pass changes characters only inside whole-word occurrences of its word. */
  lemma TypePassChanges(w: string, s: seq<char>)
    requires w != []
    ensures ChangesInNames(s, TypePass(w, s), [w])
  {
    var r := RuleOf(WordToken(w));
    var out := TypePass(w, s);
    SameWidthWindows(r, s, 0);
    forall k | 0 <= k < |s| && out[k] != s[k]
      ensures exists j, q :: 0 <= j < |[w]| && WordMatch(s, q, [w][j]) && q <= k < q + |[w][j]|
    {
      var m :| Window(r, s, out, 0, m) && m <= k < m + r.width;
      HitIsMatch(WordToken(w), s, m);
      assert [w][0] == w;
    }
  }

  /** Two whole-word occurrences of a word of word characters never overlap. */
  lemma NoOverlap(s: seq<char>, m: int, q: int, w: string)
    requires Wordy(w) && WordMatch(s, m, w) && WordMatch(s, q, w) && m <= q < m + |w|
    ensures m == q
  {
    if m < q {
      var a := s[m..m + |w|];
      assert Upper(a[q - m - 1]) == Upper(w[q - m - 1]) && Upper(a[q - m]) == Upper(w[q - m]);
      SameUpperSameClass(a[q - m - 1], w[q - m - 1]);
      SameUpperSameClass(a[q - m], w[q - m]);
      assert false;
    }
  }

  /** Every whole-word occurrence lies in a rewritten window of the pass. */
  lemma MatchWindow(w: string, s: seq<char>, q: int) returns (m: int)
    requires w != [] && WordMatch(s, q, w)
    ensures Window(RuleOf(WordToken(w)), s, TypePass(w, s), 0, m) && m <= q < m + |w|
  {
    var r := RuleOf(WordToken(w));
    HitIsMatch(WordToken(w), s, q);
    SameWidthWindows(r, s, 0);
    assert Covered(r, s, TypePass(w, s), 0, q);
    m :| Window(r, s, TypePass(w, s), 0, m) && m <= q < m + r.width;
  }

  /** A pass rewrites every whole-word occurrence of its word in the text it scans. */
  lemma MatchRewritten(w: string, s: seq<char>, q: int)
    requires w != [] && Wordy(w) && WordMatch(s, q, w)
    ensures q + |w| <= |TypePass(w, s)| && TypePass(w, s)[q..q + |w|] == UpperStr(w)
  {
    var m := MatchWindow(w, s, q);
    HitIsMatch(WordToken(w), s, m);
    NoOverlap(s, m, q, w);
  }

  /** After a pass, every whole-word occurrence of its word is upper case. */
  lemma TypePassUpper(w: string, s: seq<char>, q: int)
    requires w != [] && Wordy(w)
    requires WordMatch(TypePass(w, s), q, w)
    ensures TypePass(w, s)[q..q + |w|] == UpperStr(w)
  {
    var out := TypePass(w, s);
    TypePassUpcases(w, s);
    UpcasesOnlyCiEq(s, out);
    WordMatchUpToCase(s, out, q, w);
    MatchRewritten(w, s, q);
  }

  /** A second pass for the same word changes nothing. */
  lemma TypePassIdempotent(w: string, s: seq<char>)
    requires w != [] && Wordy(w)
    ensures TypePass(w, TypePass(w, s)) == TypePass(w, s)
  {
    var r := RuleOf(WordToken(w));
    var out := TypePass(w, s);
    forall q | 0 <= q && Hit(r, out, q) ensures out[q..q + r.width] == r.rep {
      HitIsMatch(WordToken(w), out, q);
      TypePassUpper(w, s, q);
    }
    FixedPoint(r, out, 0);
    assert out[0..] == out;
  }

  // ---------------------------------------------------------------------
  // The whole stage.

  lemma {:induction false} UpcaseEachUpcases(s: seq<char>, ws: seq<string>)
    requires NonEmptyWords(ws)
    ensures UpcasesOnly(s, UpcaseEach(s, ws))
    decreases |ws|
  {
    if ws == [] {
      assert UpcasesOnly(s, s);
    } else {
      var mid := TypePass(ws[0], s);
      TypePassUpcases(ws[0], s);
      UpcaseEachUpcases(mid, ws[1..]);
      UpcasesOnlyTrans(s, mid, UpcaseEach(mid, ws[1..]));
    }
  }

  /** An occurrence that is upper case after its own pass stays so through the later passes. */
  lemma StaysUpper(mid: seq<char>, out: seq<char>, w: string, q: int)
    requires UpcasesOnly(mid, out) && WordMatch(out, q, w)
    requires WordMatch(mid, q, w) ==> mid[q..q + |w|] == UpperStr(w)
    ensures out[q..q + |w|] == UpperStr(w)
  {
    UpcasesOnlyCiEq(mid, out);
    WordMatchUpToCase(mid, out, q, w);
    UpcasesOnlyKeepsUpper(mid, out, q, w);
  }

  lemma {:induction false} UpcaseEachUpper(s: seq<char>, ws: seq<string>)
    requires NonEmptyWords(ws) && forall j :: 0 <= j < |ws| ==> Wordy(ws[j])
    ensures TypesUpper(UpcaseEach(s, ws), ws)
    decreases |ws|
  {
    if ws != [] {
      var w := ws[0];
      var mid := TypePass(w, s);
      var out := UpcaseEach(mid, ws[1..]);
      assert forall j :: 0 <= j < |ws[1..]| ==> Wordy(ws[1..][j]) by {
        forall j | 0 <= j < |ws[1..]| ensures Wordy(ws[1..][j]) {
          assert ws[1..][j] == ws[j + 1];
        }
      }
      UpcaseEachUpper(mid, ws[1..]);
      UpcaseEachUpcases(mid, ws[1..]);
      forall j, q | 0 <= j < |ws| && 0 <= q <= |out| && WordMatch(out, q, ws[j]) ensures out[q..q + |ws[j]|] == UpperStr(ws[j]) {
        if j == 0 {
          if WordMatch(mid, q, w) {
            TypePassUpper(w, s, q);
          }
          StaysUpper(mid, out, w, q);
        } else {
          assert ws[j] == ws[1..][j - 1];
        }
      }
    }
  }

  /** A change made by a later pass lies in an occurrence in `mid`, hence in `s`, which differs only in case. */
  lemma LaterChange(s: seq<char>, mid: seq<char>, ws: seq<string>, k: int)
    requires ws != [] && UpcasesOnly(s, mid) && 0 <= k < |s|
    requires exists j, q :: 0 <= j < |ws[1..]| && WordMatch(mid, q, ws[1..][j]) && q <= k < q + |ws[1..][j]|
    ensures exists j, q :: 0 <= j < |ws| && WordMatch(s, q, ws[j]) && q <= k < q + |ws[j]|
  {
    var j, q :| 0 <= j < |ws[1..]| && WordMatch(mid, q, ws[1..][j]) && q <= k < q + |ws[1..][j]|;
    assert ws[1..][j] == ws[j + 1];
    UpcasesOnlyCiEq(s, mid);
    WordMatchUpToCase(s, mid, q, ws[j + 1]);
  }

  /** A change made by the first pass lies in an occurrence of the first name. */
  lemma FirstChange(s: seq<char>, ws: seq<string>, k: int)
    requires NonEmptyWords(ws) && ws != [] && 0 <= k < |s|
    requires exists j, q :: 0 <= j < |[ws[0]]| && WordMatch(s, q, [ws[0]][j]) && q <= k < q + |[ws[0]][j]|
    ensures exists j, q :: 0 <= j < |ws| && WordMatch(s, q, ws[j]) && q <= k < q + |ws[j]|
  {
    var j, q :| 0 <= j < |[ws[0]]| && WordMatch(s, q, [ws[0]][j]) && q <= k < q + |[ws[0]][j]|;
    assert [ws[0]][j] == ws[0];
  }

  /** The passes change characters only inside whole-word occurrences, in the input, of their names. */
  lemma {:induction false} UpcaseEachChanges(s: seq<char>, ws: seq<string>)
    requires NonEmptyWords(ws)
    ensures ChangesInNames(s, UpcaseEach(s, ws), ws)
    decreases |ws|
  {
    if ws != [] {
      var mid := TypePass(ws[0], s);
      var out := UpcaseEach(mid, ws[1..]);
      TypePassChanges(ws[0], s);
      TypePassUpcases(ws[0], s);
      UpcaseEachChanges(mid, ws[1..]);
      forall k | 0 <= k < |s| && out[k] != s[k]
        ensures exists j, q :: 0 <= j < |ws| && WordMatch(s, q, ws[j]) && q <= k < q + |ws[j]|
      {
        if mid[k] != s[k] {
          FirstChange(s, ws, k);
        } else {
          LaterChange(s, mid, ws, k);
        }
      }
    }
  }

  /** Running the passes for `a` and then for `b` is running them for `a + b`. */
  lemma {:induction false} UpcaseEachAppend(s: seq<char>, a: seq<string>, b: seq<string>)
    requires NonEmptyWords(a) && NonEmptyWords(b)
    ensures NonEmptyWords(a + b)
    ensures UpcaseEach(s, a + b) == UpcaseEach(UpcaseEach(s, a), b)
    decreases |a|
  {
    if a == [] {
      assert a + b == b;
    } else {
      ConsTail(a, b);
      UpcaseEachAppend(TypePass(a[0], s), a[1..], b);
    }
  }

  /** The `forEach` of script.js:178-182 over the names of `ws`. */
  method TypePasses(s: seq<char>, ws: seq<string>) returns (sql: seq<char>)
    requires NonEmptyWords(ws)
    ensures sql == UpcaseEach(s, ws)
  {
    sql := s;
    for k := 0 to |ws|
      invariant NonEmptyWords(ws[..k])
      invariant sql == UpcaseEach(s, ws[..k])
    {
      PrefixSnoc(ws, k);
      UpcaseEachAppend(s, ws[..k], [ws[k]]);
      assert [ws[k]][1..] == [];
      sql := TypePass(ws[k], sql);
    }
    assert ws[..|ws|] == ws;
  }

  lemma TypeNamesWordy()
    ensures NonEmptyWords(TypeNames)
    ensures forall j :: 0 <= j < |TypeNames| ==> Wordy(TypeNames[j])
  {
  }

  /** A character of an already upper-case occurrence stays as it is. */
  lemma UnchangedInUpper(t: seq<char>, u: seq<char>, k: int)
    requires UpcasesOnly(t, u) && TypesUpper(t, TypeNames) && 0 <= k < |t|
    requires exists j, q :: 0 <= j < |TypeNames| && WordMatch(t, q, TypeNames[j]) && q <= k < q + |TypeNames[j]|
    ensures u[k] == t[k]
  {
    var j, q :| 0 <= j < |TypeNames| && WordMatch(t, q, TypeNames[j]) && q <= k < q + |TypeNames[j]|;
    var w := TypeNames[j];
    UpcasesOnlyKeepsUpper(t, u, q, w);
    assert u[k] == u[q..q + |w|][k - q] && t[k] == t[q..q + |w|][k - q];
  }

  /** Running stage 5 on its own output changes nothing. */
  lemma UpcaseTypesIdempotent(s: seq<char>)
    ensures UpcaseTypes(UpcaseTypes(s)) == UpcaseTypes(s)
  {
    var t := UpcaseTypes(s);
    var u := UpcaseTypes(t);
    TypeNamesWordy();
    UpcaseEachUpper(s, TypeNames);
    UpcaseEachUpcases(t, TypeNames);
    UpcaseEachChanges(t, TypeNames);
    forall k | 0 <= k < |t| ensures u[k] == t[k] {
      if u[k] != t[k] {
        UnchangedInUpper(t, u, k);
      }
    }
  }

  /**
    After stage 5 every whole-word occurrence of a data type name is in
    upper case; nothing but the case of letters changed, and only inside
    such occurrences in the input, so the skeleton is the same; and running
    the stage again changes nothing.
  */
  lemma UpcaseTypesSpec(s: seq<char>)
    ensures UpcasesOnly(s, UpcaseTypes(s))
    ensures ChangesInNames(s, UpcaseTypes(s), TypeNames)
    ensures TypesUpper(UpcaseTypes(s), TypeNames)
    ensures Skeleton(UpcaseTypes(s)) == Skeleton(s)
    ensures UpcaseTypes(UpcaseTypes(s)) == UpcaseTypes(s)
  {
    TypeNamesWordy();
    UpcaseEachUpcases(s, TypeNames);
    UpcaseEachChanges(s, TypeNames);
    UpcaseEachUpper(s, TypeNames);
    UpcasesOnlyCiEq(s, UpcaseTypes(s));
    SkeletonOfCiEq(UpcaseTypes(s), s);
    UpcaseTypesIdempotent(s);
  }
}
