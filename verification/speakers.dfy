/**
  `parse_speaker_meta`: a speaker label such as `Mr Smith (Leeds) (Labour)`
  is split into a name and up to two trailing parenthesised groups.

  The pattern `^(?P<name>.+?)(?:\s*\((?P<constit>[^)]+)\))?(?:\s*\((?P<party>[^)]+)\))?$`
  is interpreted exactly, in the order a backtracking engine tries it:
  the lazy name grows one character at a time (it cannot cross a line
  break); for each length the engine tries both groups, then the first
  only, then the second only, then neither, each followed by `$` (the end
  of the string, or just before a final line break).
 */
module Speakers {
  import opened Options
  import opened Text

  /** A label that did not match keeps only its name (`{"name": s}`). */
  datatype SpeakerMeta =
    | NameOnly(name: string)
    | Meta(name: string, constituency: Option<string>, party: Option<string>)

  predicate NotCloseParen(c: char) { c != ')' }

  /** What `\s*\(([^)]+)\)` captures at some offset, and where it ends. */
  datatype GroupMatch = GroupMatch(content: string, end: nat)

  /** `\s*\(([^)]+)\)` tried at offset `i`. Neither `\s*` nor `[^)]+` can
      give back a character usefully, so the match, if any, is unique. */
  function GroupAt(s: string, i: nat): (g: Option<GroupMatch>)
    requires i <= |s|
    ensures g.Some? ==> i < g.value.end <= |s|
  {
    var j := i + RunLength(s[i..], IsSpace);
    if j < |s| && s[j] == '(' then
      var n := RunLength(s[j + 1..], NotCloseParen);
      if n >= 1 && j + 1 + n < |s| then Some(GroupMatch(s[j + 1..j + 1 + n], j + 2 + n))
      else None
    else None
  }

  /** `$` without MULTILINE at offset `i`. */
  predicate AtEnd(s: string, i: nat) {
    i == |s| || (i + 1 == |s| && s[i] == '\n')
  }

  /** The raw `constit` and `party` groups. */
  datatype Groups = Groups(first: Option<string>, second: Option<string>)

  /** The part of the pattern after the name, tried at offset `k`. */
  function TailAt(s: string, k: nat): Option<Groups>
    requires k <= |s|
  {
    match GroupAt(s, k)
    case Some(g1) =>
      var g2 := GroupAt(s, g1.end);
      if g2.Some? && AtEnd(s, g2.value.end) then Some(Groups(Some(g1.content), Some(g2.value.content)))
      else if AtEnd(s, g1.end) then Some(Groups(Some(g1.content), None))
      else TailWithoutFirst(s, k)
    case None => TailWithoutFirst(s, k)
  }

  /** The same, once the first optional group has been given up. */
  function TailWithoutFirst(s: string, k: nat): Option<Groups>
    requires k <= |s|
  {
    var g := GroupAt(s, k);
    if g.Some? && AtEnd(s, g.value.end) then Some(Groups(None, Some(g.value.content)))
    else if AtEnd(s, k) then Some(Groups(None, None))
    else None
  }

  /** The second group is never used alone: a single trailing group is
      always taken by the first one, the constituency. */
  lemma LoneGroupIsFirst(s: string, k: nat)
    requires k <= |s|
    ensures TailAt(s, k).Some? && TailAt(s, k).value.second.Some? ==> TailAt(s, k).value.first.Some?
  {
  }

  /** `TailAt` at any offset; past the end nothing matches. */
  function Tail(s: string, k: nat): Option<Groups> {
    if k <= |s| then TailAt(s, k) else None
  }

  /** A name of `j` characters is possible for the tail matcher `tail`:
      non-empty, without a line break, and followed by what `tail`
      accepts. */
  ghost predicate EndWith(s: string, j: nat, tail: (string, nat) -> Option<Groups>) {
    1 <= j <= |s| && '\n' !in s[..j] && tail(s, j).Some?
  }

  /** A name of `j` characters is possible for the speaker pattern. */
  ghost predicate ValidNameEnd(s: string, j: nat) {
    EndWith(s, j, Tail)
  }

  datatype NameSplit = NameSplit(nameEnd: nat, groups: Groups)

  /** The regex engine trying name lengths `k`, `k + 1`, ... in turn, each
      followed by the tail matcher. */
  function NameSearch(s: string, k: nat, tail: (string, nat) -> Option<Groups>): (r: Option<NameSplit>)
    requires 1 <= k
    decreases |s| - k
  {
    if k > |s| || s[k - 1] == '\n' then None
    else
      match tail(s, k)
      case Some(g) => Some(NameSplit(k, g))
      case None => NameSearch(s, k + 1, tail)
  }

  /** Past a line break no name end is possible. */
  lemma NoNameEndPastBreak(s: string, k: nat, tail: (string, nat) -> Option<Groups>)
    requires 1 <= k <= |s| && s[k - 1] == '\n'
    ensures forall j :: k <= j ==> !EndWith(s, j, tail)
  {
    assert forall j :: k <= j <= |s| ==> s[..j][k - 1] == s[k - 1];
  }

  /** The search finds the first possible name end from `k` on. */
  lemma {:induction false} NameSearchFirst(s: string, k: nat, tail: (string, nat) -> Option<Groups>)
    requires 1 <= k && (k - 1 <= |s| ==> '\n' !in s[..k - 1])
    ensures var r := NameSearch(s, k, tail);
      && (r.Some? ==> k <= r.value.nameEnd && EndWith(s, r.value.nameEnd, tail))
      && (r.Some? ==> tail(s, r.value.nameEnd) == Some(r.value.groups))
      && (r.Some? ==> forall j :: k <= j < r.value.nameEnd ==> !EndWith(s, j, tail))
      && (r.None? ==> forall j :: k <= j ==> !EndWith(s, j, tail))
    decreases |s| - k
  {
    if k > |s| {
    } else if s[k - 1] == '\n' {
      NoNameEndPastBreak(s, k, tail);
    } else {
      assert s[..k] == s[..k - 1] + [s[k - 1]];
      if tail(s, k).None? {
        NameSearchFirst(s, k + 1, tail);
      }
    }
  }

  /** The search stops at the first name end the tail accepts. */
  lemma NameSearchAt(s: string, m: nat, g: Groups, tail: (string, nat) -> Option<Groups>)
    requires EndWith(s, m, tail) && tail(s, m) == Some(g)
    requires forall j :: 1 <= j < m ==> tail(s, j).None?
    ensures NameSearch(s, 1, tail) == Some(NameSplit(m, g))
  {
    assert s[..0] == [];
    NameSearchFirst(s, 1, tail);
    var r := NameSearch(s, 1, tail);
    assert r.Some?;
    var e := r.value.nameEnd;
    assert EndWith(s, e, tail);
    assert !(e < m);
    assert !(m < e);
  }

  /** The lazy name: the shortest possible name, with the groups the tail
      takes after it; none when no name is possible. */
  function SplitName(s: string): (r: Option<NameSplit>)
    ensures r.Some? ==> ValidNameEnd(s, r.value.nameEnd) && TailAt(s, r.value.nameEnd) == Some(r.value.groups)
    ensures r.Some? ==> forall j :: 0 <= j < r.value.nameEnd ==> !ValidNameEnd(s, j)
    ensures r.None? <==> forall j :: !ValidNameEnd(s, j)
  {
    assert s[..0] == [];
    NameSearchFirst(s, 1, Tail);
    var r := NameSearch(s, 1, Tail);
    assert r.Some? ==> Tail(s, r.value.nameEnd) == TailAt(s, r.value.nameEnd);
    assert r.Some? ==> ValidNameEnd(s, r.value.nameEnd);
    assert r.None? ==> forall j :: !ValidNameEnd(s, j) by {
      forall j | r.None? ensures !ValidNameEnd(s, j) {
        assert j >= 1 ==> !EndWith(s, j, Tail);
      }
    }
    r
  }

  /** `(g or "").strip() or None`. */
  function BlankToNone(g: Option<string>): (r: Option<string>)
    ensures r.Some? ==> |r.value| > 0 && Stripped(r.value, IsSpace)
    ensures r.None? <==> g.None? || |Strip(g.value)| == 0
    ensures r.Some? ==> r.value == Strip(g.value)
  {
    match g
    case None => None
    case Some(v) => if |Strip(v)| == 0 then None else Some(Strip(v))
  }

  /** `parse_speaker_meta`. */
  function ParseSpeakerMeta(s: string): (r: SpeakerMeta)
    ensures r.NameOnly? <==> forall j :: !ValidNameEnd(s, j)
    ensures r.NameOnly? ==> r.name == s
    ensures r.Meta? ==> IsStripOf(r.name, s[..SplitName(s).value.nameEnd])
    ensures r.Meta? && r.party.Some? ==> SplitName(s).value.groups.first.Some?
    ensures r.Meta? ==> r.constituency == BlankToNone(SplitName(s).value.groups.first)
    ensures r.Meta? ==> r.party == BlankToNone(SplitName(s).value.groups.second)
  {
    match SplitName(s)
    case None => NameOnly(s)
    case Some(sp) =>
      LoneGroupIsFirst(s, sp.nameEnd);
      StripIsStripOf(s[..sp.nameEnd]);
      Meta(Strip(s[..sp.nameEnd]), BlankToNone(sp.groups.first), BlankToNone(sp.groups.second))
  }

  /** An empty label does not match: the name needs at least one character. */
  lemma EmptyLabel()
    ensures ParseSpeakerMeta("") == NameOnly("")
  {
  }

  // ---------------------------------------------------------------------
  // The three label shapes

  /** A name part: non-empty, on one line, and without an opening parenthesis. */
  ghost predicate NamePart(n: string) {
    |n| > 0 && '\n' !in n && '(' !in n
  }

  /** What a group may hold: at least one character, no closing parenthesis. */
  ghost predicate GroupText(c: string) {
    |c| > 0 && ')' !in c
  }

  /** A parenthesised group as written in a label. */
  function Paren(c: string): (r: string)
    ensures |r| == |c| + 2 && r[0] == '(' && r[|c| + 1] == ')' && r[1..|c| + 1] == c
  {
    "(" + c + ")"
  }

  /** The pieces `GroupAt` computes, for a group `(c)` after the blanks `w`. */
  lemma GroupParts(s: string, i: nat, w: string, c: string, rest: string)
    requires GroupText(c) && AllOf(w, IsSpace)
    requires i <= |s| && s[i..] == w + Paren(c) + rest
    ensures i + |w| + 1 + |c| < |s|
    ensures RunLength(s[i..], IsSpace) == |w| && s[i + |w|] == '('
    ensures RunLength(s[i + |w| + 1..], NotCloseParen) == |c|
    ensures s[i + |w| + 1..i + |w| + 1 + |c|] == c
  {
    var t := s[i..];
    assert t[..|w|] == w;
    assert t[|w|] == '(';
    RunLengthIs(t, IsSpace, |w|);
    var j := i + |w|;
    var u := s[j + 1..];
    assert u[..|c|] == c;
    assert AllOf(c, NotCloseParen) by {
      forall x | 0 <= x < |c| ensures c[x] != ')' { assert c[x] in c; }
    }
    assert u[|c|] == ')';
    RunLengthIs(u, NotCloseParen, |c|);
  }

  /** A group `(c)` after the blanks `w`, at offset `i`. */
  lemma GroupAtExact(s: string, i: nat, w: string, c: string, rest: string)
    requires GroupText(c) && AllOf(w, IsSpace)
    requires i <= |s| && s[i..] == w + Paren(c) + rest
    ensures GroupAt(s, i) == Some(GroupMatch(c, i + |w| + 2 + |c|))
  {
    GroupParts(s, i, w, c, rest);
    var j := i + RunLength(s[i..], IsSpace);
    assert j == i + |w| && j < |s| && s[j] == '(';
    assert RunLength(s[j + 1..], NotCloseParen) == |c|;
  }

  /** Before the last non-blank character of a name part, the tail cannot match. */
  lemma NoTailInsideName(s: string, n: string, j: nat)
    requires NamePart(n) && |n| <= |s| && s[..|n|] == n
    requires 1 <= j < |n| && !AllOf(n[j..], IsSpace)
    ensures TailAt(s, j).None?
  {
    var k := RunLength(s[j..], IsSpace);
    var x :| 0 <= x < |n| - j && !IsSpace(n[j..][x]);
    assert s[j..][x] == n[j + x];
    assert k <= x;
    assert s[j + k] == n[j + k];
    assert n[j + k] in n;
    assert s[j] == n[j] && n[j] in n;
  }

  /** Where the lazy name of `n + ...` ends: after the last non-blank
      character of `n` (or after one character if `n` is all blank). */
  function NameCut(n: string): (m: nat)
    requires |n| > 0
    ensures 1 <= m <= |n|
    ensures AllOf(n[m..], IsSpace)
    ensures forall j :: 1 <= j < m ==> !AllOf(n[j..], IsSpace)
  {
    var h := |n| - TrailLength(n, IsSpace);
    if h == 0 then
      assert AllOf(n[1..], IsSpace) by {
        forall x | 0 <= x < |n| - 1 ensures IsSpace(n[1..][x]) { assert n[1..][x] == n[x + 1]; }
      }
      1
    else
      assert forall j :: 1 <= j < h ==> n[j..][h - 1 - j] == n[h - 1];
      assert AllOf(n[h..], IsSpace) by {
        forall x | 0 <= x < |n| - h ensures IsSpace(n[h..][x]) { assert n[h..][x] == n[h + x]; }
      }
      h
  }

  /** The lazy name ends at the first possible name end. */
  lemma SplitNameAt(s: string, m: nat, g: Groups)
    requires ValidNameEnd(s, m) && TailAt(s, m) == Some(g)
    requires forall j :: 1 <= j < m ==> TailAt(s, j).None?
    ensures SplitName(s) == Some(NameSplit(m, g))
  {
    assert forall j :: 1 <= j < m ==> Tail(s, j).None?;
    NameSearchAt(s, m, g, Tail);
  }

  /** The name cut of a name part that opens `s` is a cut of `s` with no
      newline before it. */
  lemma NameCutInLine(s: string, n: string)
    requires NamePart(n) && |n| <= |s| && s[..|n|] == n
    ensures NameCut(n) <= |s| && '\n' !in s[..NameCut(n)]
  {
    var m := NameCut(n);
    assert s[..m] == n[..m];
    assert forall x :: 0 <= x < m ==> n[..m][x] == n[x];
  }

  /** Cutting the name part at its name cut drops only blanks. */
  lemma NameCutStrip(s: string, n: string)
    requires |n| > 0 && |n| <= |s| && s[..|n|] == n
    ensures Strip(s[..NameCut(n)]) == Strip(n)
  {
    var m := NameCut(n);
    assert s[..m] == n[..m];
    assert n == n[..m] + n[m..];
    StripAppendRun(n[..m], n[m..], IsSpace);
  }

  /** A name cut where the tail matches, after a prefix where it cannot, is
      the lazy name; its strip is the strip of the whole name part. */
  lemma NameAtCut(s: string, n: string, g: Groups)
    requires NamePart(n) && |n| <= |s| && s[..|n|] == n
    requires TailAt(s, NameCut(n)) == Some(g)
    ensures SplitName(s) == Some(NameSplit(NameCut(n), g))
    ensures Strip(s[..NameCut(n)]) == Strip(n)
  {
    var m := NameCut(n);
    forall j | 1 <= j < m ensures TailAt(s, j).None? {
      NoTailInsideName(s, n, j);
    }
    NameCutInLine(s, n);
    SplitNameAt(s, m, g);
    NameCutStrip(s, n);
  }

  /** `name (first) (second)`: the name is the stripped name part, the
      first group the constituency and the second the party. */
  lemma TwoGroups(n: string, c: string, w: string, q: string)
    requires NamePart(n) && GroupText(c) && GroupText(q) && AllOf(w, IsSpace)
    ensures ParseSpeakerMeta(n + Paren(c) + w + Paren(q))
         == Meta(Strip(n), BlankToNone(Some(c)), BlankToNone(Some(q)))
  {
    var s := n + Paren(c) + w + Paren(q);
    var g := Groups(Some(c), Some(q));
    TwoGroupsTail(n, c, w, q);
    NameAtCut(s, n, g);
    MetaAt(s, NameSplit(NameCut(n), g));
  }

  lemma TwoGroupsTail(n: string, c: string, w: string, q: string)
    requires NamePart(n) && GroupText(c) && GroupText(q) && AllOf(w, IsSpace)
    ensures var s := n + Paren(c) + w + Paren(q);
      |n| <= |s| && s[..|n|] == n && TailAt(s, NameCut(n)) == Some(Groups(Some(c), Some(q)))
  {
    var s := n + Paren(c) + w + Paren(q);
    assert s[..|n|] == n;
    TwoGroupsTailAt(n, NameCut(n), c, w, q);
  }

  /** Both groups follow a name cut that leaves only blanks. */
  lemma TwoGroupsTailAt(n: string, m: nat, c: string, w: string, q: string)
    requires m <= |n| && AllOf(n[m..], IsSpace)
    requires GroupText(c) && GroupText(q) && AllOf(w, IsSpace)
    ensures TailAt(n + Paren(c) + w + Paren(q), m) == Some(Groups(Some(c), Some(q)))
  {
    var a := n + Paren(c);
    var s := a + w + Paren(q);
    assert |a| == |n| + |c| + 2;
    assert s[..|a|] == a;
    FirstGroupAfter(s, n, m, c);
    var g1 := GroupMatch(c, |a|);
    SecondOfTwo(a, w, q);
    var g2 := GroupMatch(q, |s|);
    TailBoth(s, m, g1, g2);
  }

  /** The first group right after the name part of `s`. */
  lemma FirstOfTwo(s: string, n: string, c: string)
    requires NamePart(n) && GroupText(c)
    requires |n| + |c| + 2 <= |s| && s[..|n| + |c| + 2] == n + Paren(c)
    ensures GroupAt(s, NameCut(n)) == Some(GroupMatch(c, |n| + |c| + 2))
  {
    FirstGroupAfter(s, n, NameCut(n), c);
  }

  /** A group after a name part whose cut leaves only blanks. */
  lemma FirstGroupAfter(s: string, n: string, m: nat, c: string)
    requires m <= |n| && AllOf(n[m..], IsSpace) && GroupText(c)
    requires |n| + |c| + 2 <= |s| && s[..|n| + |c| + 2] == n + Paren(c)
    ensures GroupAt(s, m) == Some(GroupMatch(c, |n| + |c| + 2))
  {
    var e := |n| + |c| + 2;
    var rest := s[e..];
    assert s[m..] == n[m..] + Paren(c) + rest by {
      assert s == s[..e] + rest;
      assert s[..e][m..] == n[m..] + Paren(c);
    }
    GroupAtExact(s, m, n[m..], c, rest);
  }

  lemma SecondOfTwo(a: string, w: string, q: string)
    requires GroupText(q) && AllOf(w, IsSpace)
    ensures var s := a + w + Paren(q); GroupAt(s, |a|) == Some(GroupMatch(q, |s|))
  {
    var s := a + w + Paren(q);
    assert s[|a|..] == w + Paren(q) + "";
    GroupAtExact(s, |a|, w, q, "");
  }

  lemma TailBoth(s: string, k: nat, g1: GroupMatch, g2: GroupMatch)
    requires k <= |s| && GroupAt(s, k) == Some(g1) && GroupAt(s, g1.end) == Some(g2) && AtEnd(s, g2.end)
    ensures TailAt(s, k) == Some(Groups(Some(g1.content), Some(g2.content)))
  {
  }

  /** The label as a whole, once its lazy name is known. */
  lemma MetaAt(s: string, sp: NameSplit)
    requires SplitName(s) == Some(sp)
    ensures ParseSpeakerMeta(s) == Meta(Strip(s[..sp.nameEnd]), BlankToNone(sp.groups.first), BlankToNone(sp.groups.second))
  {
  }

  /** `name (group)`: a single group is the constituency; there is no party. */
  lemma OneGroup(n: string, c: string)
    requires NamePart(n) && GroupText(c)
    ensures ParseSpeakerMeta(n + Paren(c)) == Meta(Strip(n), BlankToNone(Some(c)), None)
  {
    var s := n + Paren(c);
    var g := Groups(Some(c), None);
    OneGroupTail(n, c);
    NameAtCut(s, n, g);
    MetaAt(s, NameSplit(NameCut(n), g));
  }

  lemma OneGroupTail(n: string, c: string)
    requires NamePart(n) && GroupText(c)
    ensures var s := n + Paren(c);
      |n| <= |s| && s[..|n|] == n && TailAt(s, NameCut(n)) == Some(Groups(Some(c), None))
  {
    var s := n + Paren(c);
    assert s[..|s|] == s;
    FirstOfTwo(s, n, c);
    assert GroupAt(s, |s|).None?;
    assert s[..|n|] == n;
  }

  /** A label without a group is all name. */
  lemma NoGroup(n: string)
    requires NamePart(n)
    ensures ParseSpeakerMeta(n) == Meta(Strip(n), None, None)
  {
    forall j | 1 <= j < |n| ensures TailAt(n, j).None? {
      var k := RunLength(n[j..], IsSpace);
      if j + k < |n| { assert n[j + k] == n[j..][k]; assert n[j + k] in n; }
      assert n[j] in n;
    }
    assert n[..|n|] == n;
    assert TailAt(n, |n|) == Some(Groups(None, None));
    assert ValidNameEnd(n, |n|);
  }
}
