/**
  The page clean-up at the end of `extract_text_blocks`: the page texts are
  joined with newlines, runs of spaces and tabs become one space, and a word
  broken by a hyphen at a line end is glued back together.
 */
module Pages {
  import opened Text

  predicate IsBlank(c: char) { c == ' ' || c == '\t' }

  /** Characters that the clean-up never removes. */
  predicate IsContent(c: char) { !IsBlank(c) && c != '-' && c != '\n' }

  predicate IsHyphenOrNewline(c: char) { c == '-' || c == '\n' }

  predicate NotHyphenOrNewline(c: char) { !IsHyphenOrNewline(c) }

  predicate NotBlank(c: char) { !IsBlank(c) }

  /** `"\n".join(pages)`. */
  function JoinLines(pages: seq<string>): string
  {
    if |pages| == 0 then ""
    else if |pages| == 1 then pages[0]
    else pages[0] + "\n" + JoinLines(pages[1..])
  }

  /** Joining one more page adds a line break and the page. */
  lemma {:induction false} JoinLinesSnoc(pages: seq<string>, p: string)
    requires |pages| > 0
    ensures JoinLines(pages + [p]) == JoinLines(pages) + "\n" + p
    decreases |pages|
  {
    var q := pages + [p];
    assert q[0] == pages[0];
    if |pages| == 1 {
      assert q[1..] == [p];
    } else {
      assert q[1..] == pages[1..] + [p];
      JoinLinesSnoc(pages[1..], p);
    }
  }

  /** `re.sub(r"[ \t]+", " ", s)`. */
  function CollapseBlanks(s: string): (r: string)
    ensures '\t' !in r
    ensures NoAdjacent(r, IsBlank)
    ensures Filter(r, NotBlank) == Filter(s, NotBlank)
  {
    var r := ReplaceRuns(s, IsBlank, 1, " ");
    ReplaceRunsNoAdjacent(s, IsBlank, 1, " ");
    ReplaceRunsOnlyRepl(s, IsBlank, 1, " ");
    ReplaceRunsKeepsOthers(s, IsBlank, 1, " ", NotBlank);
    r
  }

  /** A single space between non-blanks is replaced by itself, so the
      result of a run collapse is left alone by a second one. */
  lemma {:induction false} ReplaceRunsFixed(s: string, p: char -> bool, repl: string)
    requires |repl| == 1
    requires NoAdjacent(s, p)
    requires forall i :: 0 <= i < |s| && p(s[i]) ==> s[i] == repl[0]
    ensures ReplaceRuns(s, p, 1, repl) == s
    decreases |s|
  {
    if |s| > 0 {
      assert NoAdjacent(s[1..], p) by {
        forall i | 0 < i < |s| - 1 ensures !(p(s[1..][i - 1]) && p(s[1..][i])) {
          assert s[1..][i - 1] == s[i] && s[1..][i] == s[i + 1];
        }
      }
      ReplaceRunsFixed(s[1..], p, repl);
      if p(s[0]) {
        assert |s| > 1 ==> !p(s[1]);
        assert RunLength(s, p) == 1;
        assert repl == [s[0]];
      }
      assert [s[0]] + s[1..] == s;
    }
  }

  lemma CollapseBlanksIdempotent(s: string)
    ensures CollapseBlanks(CollapseBlanks(s)) == CollapseBlanks(s)
  {
    var r := CollapseBlanks(s);
    ReplaceRunsOnlyRepl(s, IsBlank, 1, " ");
    assert forall i :: 0 <= i < |r| && IsBlank(r[i]) ==> r[i] == ' ' by {
      forall i | 0 <= i < |r| && IsBlank(r[i]) ensures r[i] == ' ' { assert r[i] in r; }
    }
    ReplaceRunsFixed(r, IsBlank, " ");
  }

  /** Text without tabs and without two blanks in a row is left alone. */
  lemma CollapseBlanksFixed(s: string)
    requires '\t' !in s && NoAdjacent(s, IsBlank)
    ensures CollapseBlanks(s) == s
  {
    assert forall i :: 0 <= i < |s| && IsBlank(s[i]) ==> s[i] == ' ' by {
      forall i | 0 <= i < |s| && IsBlank(s[i]) ensures s[i] == ' ' { assert s[i] in s; }
    }
    ReplaceRunsFixed(s, IsBlank, " ");
  }

  /** A whole run of spaces and tabs becomes one space; the text before it
      is kept as it is. */
  lemma CollapseBlanksRun(a: string, b: string, c: string)
    requires NoneOf(a, IsBlank)
    requires |b| > 0 && AllOf(b, IsBlank)
    requires |c| == 0 || !IsBlank(c[0])
    ensures CollapseBlanks(a + b + c) == a + " " + CollapseBlanks(c)
  {
    var u := b + c;
    assert a + b + c == a + u;
    ReplaceRunsPrefix(a, u, IsBlank, 1, " ");
    assert u[..|b|] == b;
    assert |b| < |u| ==> u[|b|] == c[0];
    RunLengthIs(u, IsBlank, |b|);
    ReplaceRunsStepRun(u, IsBlank, 1, " ");
    assert u[|b|..] == c;
  }

  /** `(\w)-\n(\w)` matches at offset `i`. */
  predicate HyphenBreakAt(s: string, i: nat) {
    i + 3 < |s| && IsWord(s[i]) && s[i + 1] == '-' && s[i + 2] == '\n' && IsWord(s[i + 3])
  }

  /** `re.sub(r"(\w)-\n(\w)", r"\1\2", s)`: scanning left to right, each
      match is replaced and the scan resumes after it. */
  function RepairHyphens(s: string): (r: string)
    ensures |r| <= |s|
    ensures forall c :: c in r ==> c in s
    ensures |s| > 0 ==> |r| > 0 && r[0] == s[0]
    decreases |s|
  {
    if |s| == 0 then []
    else if HyphenBreakAt(s, 0) then [s[0], s[3]] + RepairHyphens(s[4..])
    else [s[0]] + RepairHyphens(s[1..])
  }

  /** The characters a repaired break keeps: the two word characters. */
  lemma FilterAtBreak(s: string)
    requires HyphenBreakAt(s, 0)
    ensures Filter(s, NotHyphenOrNewline) == [s[0], s[3]] + Filter(s[4..], NotHyphenOrNewline)
  {
    var q := NotHyphenOrNewline;
    FilterHead(s, q);
    assert s[1..][..2] == [s[1], s[2]];
    FilterDrop(s[1..], 2, q);
    assert s[1..][2..] == s[3..];
    FilterHead(s[3..], q);
    assert s[3..][0] == s[3] && s[3..][1..] == s[4..];
  }

  /** One step of the repair at a broken word. */
  lemma RepairStepBreak(s: string)
    requires HyphenBreakAt(s, 0)
    ensures Filter(RepairHyphens(s), NotHyphenOrNewline) == [s[0], s[3]] + Filter(RepairHyphens(s[4..]), NotHyphenOrNewline)
    ensures Filter(s, NotHyphenOrNewline) == [s[0], s[3]] + Filter(s[4..], NotHyphenOrNewline)
  {
    var q := NotHyphenOrNewline;
    var rest := RepairHyphens(s[4..]);
    assert RepairHyphens(s) == [s[0], s[3]] + rest;
    FilterAppend([s[0], s[3]], rest, q);
    assert Filter([s[0], s[3]], q) == [s[0], s[3]];
    FilterAtBreak(s);
  }

  /** One step of the repair elsewhere. */
  lemma RepairStepKeep(s: string)
    requires |s| > 0 && !HyphenBreakAt(s, 0)
    ensures Filter(RepairHyphens(s), NotHyphenOrNewline) == Filter([s[0]], NotHyphenOrNewline) + Filter(RepairHyphens(s[1..]), NotHyphenOrNewline)
    ensures Filter(s, NotHyphenOrNewline) == Filter([s[0]], NotHyphenOrNewline) + Filter(s[1..], NotHyphenOrNewline)
  {
    var rest := RepairHyphens(s[1..]);
    assert RepairHyphens(s) == [s[0]] + rest;
    FilterAppend([s[0]], rest, NotHyphenOrNewline);
    FilterHead(s, NotHyphenOrNewline);
  }

  /** The repair removes only hyphens and line breaks: every other character
      survives, in order. */
  lemma {:induction false} RepairHyphensKeepsText(s: string)
    ensures Filter(RepairHyphens(s), NotHyphenOrNewline) == Filter(s, NotHyphenOrNewline)
    decreases |s|
  {
    if |s| > 0 {
      if HyphenBreakAt(s, 0) {
        RepairHyphensKeepsText(s[4..]);
        RepairStepBreak(s);
      } else {
        RepairHyphensKeepsText(s[1..]);
        RepairStepKeep(s);
      }
    }
  }

  /** At the first broken word, the text before it is copied, the hyphen
      and line break are dropped, and the scan resumes after the second
      word character. */
  lemma {:induction false} RepairHyphensFirstBreak(s: string, i: nat)
    requires HyphenBreakAt(s, i)
    requires forall j :: 0 <= j < i ==> !HyphenBreakAt(s, j)
    ensures RepairHyphens(s) == s[..i] + [s[i], s[i + 3]] + RepairHyphens(s[i + 4..])
    decreases i
  {
    if i == 0 {
      assert s[..0] == [];
    } else {
      assert !HyphenBreakAt(s, 0);
      var t := s[1..];
      assert forall j :: 0 <= j < |t| ==> (HyphenBreakAt(t, j) <==> HyphenBreakAt(s, j + 1));
      RepairHyphensFirstBreak(t, i - 1);
      assert t[..i - 1] == s[1..i] && t[i - 1] == s[i] && t[i + 2] == s[i + 3];
      assert t[i + 3..] == s[i + 4..];
      assert [s[0]] + s[1..i] == s[..i];
    }
  }

  /** Text with no broken word is left unchanged. */
  lemma {:induction false} RepairHyphensNoBreak(s: string)
    requires forall i :: 0 <= i < |s| ==> !HyphenBreakAt(s, i)
    ensures RepairHyphens(s) == s
    decreases |s|
  {
    if |s| > 0 {
      assert forall i :: 0 <= i < |s| - 1 ==> (HyphenBreakAt(s[1..], i) <==> HyphenBreakAt(s, i + 1));
      RepairHyphensNoBreak(s[1..]);
      assert [s[0]] + s[1..] == s;
    }
  }

  /** Gluing two word characters never puts two blanks side by side. */
  lemma {:induction false} RepairHyphensNoAdjacent(s: string)
    requires NoAdjacent(s, IsBlank)
    ensures NoAdjacent(RepairHyphens(s), IsBlank)
    decreases |s|
  {
    if |s| > 0 {
      if HyphenBreakAt(s, 0) {
        var t := s[4..];
        assert NoAdjacent(t, IsBlank) by {
          forall i | 0 < i < |t| ensures !(IsBlank(t[i - 1]) && IsBlank(t[i])) {
            assert t[i - 1] == s[i + 3] && t[i] == s[i + 4];
          }
        }
        RepairHyphensNoAdjacent(t);
        var rest := RepairHyphens(t);
        NoAdjacentPrepend(s[3], rest, IsBlank);
        NoAdjacentPrepend(s[0], [s[3]] + rest, IsBlank);
        assert [s[0], s[3]] + rest == [s[0]] + ([s[3]] + rest);
      } else {
        var t := s[1..];
        assert NoAdjacent(t, IsBlank) by {
          forall i | 0 < i < |t| ensures !(IsBlank(t[i - 1]) && IsBlank(t[i])) {
            assert t[i - 1] == s[i] && t[i] == s[i + 1];
          }
        }
        RepairHyphensNoAdjacent(t);
        if |t| > 0 { assert !(IsBlank(s[0]) && IsBlank(s[1])); }
        NoAdjacentPrepend(s[0], RepairHyphens(t), IsBlank);
      }
    }
  }

  /** The repair is not idempotent: a chain of two broken words is only
      half repaired, because the scan resumes after the first match. */
  lemma RepairHyphensNotIdempotent()
    ensures RepairHyphens("a-\nb-\nc") == "ab-\nc"
    ensures RepairHyphens(RepairHyphens("a-\nb-\nc")) == "abc"
    ensures RepairHyphens(RepairHyphens("a-\nb-\nc")) != RepairHyphens("a-\nb-\nc")
  {
    var s := "a-\nb-\nc";
    assert HyphenBreakAt(s, 0);
    var t := s[4..];
    assert t == "-\nc";
    assert !HyphenBreakAt(t, 0);
    assert t[1..] == "\nc";
    assert !HyphenBreakAt(t[1..], 0);
    assert t[1..][1..] == "c";
    assert RepairHyphens("c") == "c";
    assert RepairHyphens(s) == "ab-\nc";
    var u := "ab-\nc";
    assert !HyphenBreakAt(u, 0);
    assert u[1..] == "b-\nc";
    assert HyphenBreakAt(u[1..], 0);
    assert u[1..][4..] == [];
    assert RepairHyphens(u) == "abc";
  }

  /** The whole clean-up: no tab and no two neighbouring blanks remain, and
      apart from blanks, hyphens and line breaks every character of the
      joined pages is still there, in order. */
  function CleanPages(pages: seq<string>): (r: string)
    ensures '\t' !in r
    ensures NoAdjacent(r, IsBlank)
    ensures Filter(r, IsContent) == Filter(JoinLines(pages), IsContent)
  {
    var joined := JoinLines(pages);
    var blanks := CollapseBlanks(joined);
    var r := RepairHyphens(blanks);
    RepairHyphensNoAdjacent(blanks);
    RepairHyphensKeepsText(blanks);
    FilterFilter(r, IsContent, NotHyphenOrNewline);
    FilterFilter(blanks, IsContent, NotHyphenOrNewline);
    FilterFilter(blanks, IsContent, NotBlank);
    FilterFilter(joined, IsContent, NotBlank);
    r
  }

  /** Pages without tabs, without two blanks in a row and without a word
      broken at a line end come out of the clean-up as their join. */
  lemma CleanPagesFixed(pages: seq<string>)
    requires '\t' !in JoinLines(pages) && NoAdjacent(JoinLines(pages), IsBlank)
    requires forall i :: 0 <= i < |JoinLines(pages)| ==> !HyphenBreakAt(JoinLines(pages), i)
    ensures CleanPages(pages) == JoinLines(pages)
  {
    CollapseBlanksFixed(JoinLines(pages));
    RepairHyphensNoBreak(JoinLines(pages));
  }
}
