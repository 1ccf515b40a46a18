/**
  Character classes and the whitespace-handling string operations that the
  extractor performs with Python's `str.strip`, `str.lower` and `re.sub`.

  Character classes are the ASCII parts of Python's Unicode classes:
  `IsSpace` is `str.isspace` / `\s`, `IsWord` is `\w`, `IsAlnum` is
  `str.isalnum`.
 */
module Text {

  /** The ASCII characters `str.isspace` accepts: `\t`, `\n`, `\v`, `\f`,
      `\r` (9 to 13), the separators U+001C to U+001F and the space (28 to
      32). */
  predicate IsSpace(c: char) {
    9 <= c as int <= 13 || 28 <= c as int <= 32
  }

  predicate NotSpace(c: char) { !IsSpace(c) }

  predicate IsUpper(c: char) { 'A' <= c <= 'Z' }

  predicate IsLowerLetter(c: char) { 'a' <= c <= 'z' }

  predicate IsDigit(c: char) { '0' <= c <= '9' }

  predicate IsAlnum(c: char) { IsUpper(c) || IsLowerLetter(c) || IsDigit(c) }

  predicate IsWord(c: char) { IsAlnum(c) || c == '_' }

  /** `str.lower` on one character. */
  function Lower(c: char): (d: char)
    ensures !IsUpper(d)
    ensures IsSpace(d) <==> IsSpace(c)
    ensures IsWord(d) <==> IsWord(c)
    ensures !IsUpper(c) ==> d == c
  {
    if IsUpper(c) then (c as int + 32) as char else c
  }

  /** `str.lower`. */
  function LowerAll(s: string): (r: string)
    ensures |r| == |s|
    ensures forall i :: 0 <= i < |s| ==> r[i] == Lower(s[i])
  {
    seq(|s|, i requires 0 <= i < |s| => Lower(s[i]))
  }

  ghost predicate AllOf(s: string, p: char -> bool) {
    forall i :: 0 <= i < |s| ==> p(s[i])
  }

  ghost predicate NoneOf(s: string, p: char -> bool) {
    forall i :: 0 <= i < |s| ==> !p(s[i])
  }

  /** Neither end of `s` is a `p` character. */
  ghost predicate Stripped(s: string, p: char -> bool) {
    |s| == 0 || (!p(s[0]) && !p(s[|s| - 1]))
  }

  /** No two neighbouring characters of `s` are both `p` characters. */
  ghost predicate NoAdjacent(s: string, p: char -> bool) {
    forall i :: 0 < i < |s| ==> !(p(s[i - 1]) && p(s[i]))
  }

  /** Length of the longest prefix of `s` made of `p` characters. */
  function RunLength(s: string, p: char -> bool): (n: nat)
    ensures n <= |s|
    ensures forall i :: 0 <= i < n ==> p(s[i])
    ensures n < |s| ==> !p(s[n])
  {
    if |s| == 0 || !p(s[0]) then 0 else 1 + RunLength(s[1..], p)
  }

  /** A run of exactly `k` characters is recognised as such. */
  lemma RunLengthIs(t: string, p: char -> bool, k: nat)
    requires k <= |t| && AllOf(t[..k], p) && (k < |t| ==> !p(t[k]))
    ensures RunLength(t, p) == k
  {
    var n := RunLength(t, p);
    assert forall i :: 0 <= i < k ==> t[..k][i] == t[i];
  }

  /** A whole run in front of a non-class character. */
  lemma RunLengthPrefix(x: string, y: string, p: char -> bool)
    requires AllOf(x, p) && (|y| == 0 || !p(y[0]))
    ensures RunLength(x + y, p) == |x|
    ensures (x + y)[|x|..] == y
  {
    var s := x + y;
    assert s[..|x|] == x;
    assert |x| < |s| ==> s[|x|] == y[0];
    RunLengthIs(s, p, |x|);
  }

  /** Length of the longest suffix of `s` made of `p` characters. */
  function TrailLength(s: string, p: char -> bool): (n: nat)
    ensures n <= |s|
    ensures forall i :: |s| - n <= i < |s| ==> p(s[i])
    ensures n < |s| ==> !p(s[|s| - n - 1])
  {
    if |s| == 0 || !p(s[|s| - 1]) then 0 else 1 + TrailLength(s[..|s| - 1], p)
  }

  /** `s.strip(chars)`: drop the leading and the trailing run of `p` characters. */
  function StripBy(s: string, p: char -> bool): (r: string)
    ensures Stripped(r, p)
    ensures RunLength(s, p) + |r| <= |s|
    ensures r == s[RunLength(s, p)..RunLength(s, p) + |r|]
    ensures AllOf(s[RunLength(s, p) + |r|..], p)
  {
    var lo := RunLength(s, p);
    var t := s[lo..];
    t[..|t| - TrailLength(t, p)]
  }

  /** `s.strip()`. */
  function Strip(s: string): string {
    StripBy(s, IsSpace)
  }

  /** The strip of `s` is the unique stripped infix `s[lo..hi]` whose
      surroundings are all `p` characters. */
  lemma StripUnique(s: string, p: char -> bool, lo: nat, hi: nat)
    requires lo <= hi <= |s|
    requires AllOf(s[..lo], p) && AllOf(s[hi..], p)
    requires Stripped(s[lo..hi], p)
    ensures StripBy(s, p) == s[lo..hi]
  {
    var r := StripBy(s, p);
    var L := RunLength(s, p);
    if lo == hi {
      assert AllOf(s, p) by {
        forall i | 0 <= i < |s| ensures p(s[i]) {
          if i < lo { assert s[..lo][i] == s[i]; } else { assert s[hi..][i - hi] == s[i]; }
        }
      }
      assert L == |s|;
    } else {
      assert s[lo] == s[lo..hi][0];
      assert s[hi - 1] == s[lo..hi][hi - lo - 1];
      forall i | 0 <= i < lo ensures p(s[i]) { assert s[..lo][i] == s[i]; }
      assert L == lo;
      assert forall k :: hi <= k < |s| ==> p(s[k]) by {
        forall k | hi <= k < |s| ensures p(s[k]) { assert s[hi..][k - hi] == s[k]; }
      }
      assert forall k :: L + |r| <= k < |s| ==> p(s[k]) by {
        forall k | L + |r| <= k < |s| ensures p(s[k]) { assert s[L + |r|..][k - L - |r|] == s[k]; }
      }
      assert |r| > 0 ==> !p(s[L + |r| - 1]) by {
        if |r| > 0 { assert r[|r| - 1] == s[L + |r| - 1]; }
      }
    }
  }

  /** `Strip` leaves an already stripped string alone. */
  lemma StripStripped(s: string, p: char -> bool)
    requires Stripped(s, p)
    ensures StripBy(s, p) == s
  {
    assert s[..0] == [] && s[|s|..] == [] && s[0..|s|] == s;
    StripUnique(s, p, 0, |s|);
  }

  /** `r` is `s` without some leading and trailing `p` characters. */
  ghost predicate IsStripOfBy(r: string, s: string, p: char -> bool) {
    exists lo :: 0 <= lo && lo + |r| <= |s| && r == s[lo..lo + |r|]
      && AllOf(s[..lo], p) && AllOf(s[lo + |r|..], p)
  }

  /** `r` is `s` without some leading and trailing whitespace, and `r` has
      none of its own at either end. */
  ghost predicate IsStripOf(r: string, s: string) {
    Stripped(r, IsSpace) && IsStripOfBy(r, s, IsSpace)
  }

  lemma StripByIsStripOf(s: string, p: char -> bool)
    ensures IsStripOfBy(StripBy(s, p), s, p)
  {
    var lo := RunLength(s, p);
    assert AllOf(s[..lo], p);
  }

  lemma StripIsStripOf(s: string)
    ensures IsStripOf(Strip(s), s)
  {
    StripByIsStripOf(s, IsSpace);
  }

  lemma AllOfAppend(x: string, y: string, p: char -> bool)
    requires AllOf(x, p) && AllOf(y, p)
    ensures AllOf(x + y, p)
  {
    forall i | 0 <= i < |x + y| ensures p((x + y)[i]) {
      if i < |x| { assert (x + y)[i] == x[i]; } else { assert (x + y)[i] == y[i - |x|]; }
    }
  }

  /** Every character of the strip comes from the string. */
  lemma StripMembers(s: string, p: char -> bool)
    ensures forall c :: c in StripBy(s, p) ==> c in s
  {
    var lo := RunLength(s, p);
    var t := StripBy(s, p);
    forall c | c in t ensures c in s {
      var i :| 0 <= i < |t| && t[i] == c;
      assert s[lo + i] == c;
    }
  }

  /** Dropping a prefix of the first part of a concatenation. */
  lemma DropAppend<T>(a: seq<T>, b: seq<T>, k: nat)
    requires k <= |a|
    ensures (a + b)[k..] == a[k..] + b
  {
    assert forall i :: 0 <= i < |a| - k + |b| ==> (a + b)[k..][i] == (a[k..] + b)[i];
  }

  /** Appending `p` characters does not change the strip. */
  lemma StripAppendRun(a: string, b: string, p: char -> bool)
    requires AllOf(b, p)
    ensures StripBy(a + b, p) == StripBy(a, p)
  {
    var s := a + b;
    var r := StripBy(a, p);
    var L := RunLength(a, p);
    var hi := L + |r|;
    assert AllOf(s[..L], p) by {
      forall i | 0 <= i < L ensures p(s[..L][i]) { assert s[..L][i] == a[i]; }
    }
    DropAppend(a, b, hi);
    AllOfAppend(a[hi..], b, p);
    assert s[L..hi] == r;
    StripUnique(s, p, L, hi);
  }

  /** Python's `re.sub(P, repl, s)` where `P` matches a maximal run of at
      least `minLen` (and at least one) `p` characters: every such run is
      replaced by `repl`, shorter runs are kept. */
  function ReplaceRuns(s: string, p: char -> bool, minLen: nat, repl: string): string
    decreases |s|
  {
    if |s| == 0 then []
    else if !p(s[0]) then [s[0]] + ReplaceRuns(s[1..], p, minLen, repl)
    else
      var n := RunLength(s, p);
      (if n >= minLen then repl else s[..n]) + ReplaceRuns(s[n..], p, minLen, repl)
  }

  /** Every character of the result comes from the input or the replacement. */
  lemma {:induction false} ReplaceRunsChars(s: string, p: char -> bool, minLen: nat, repl: string)
    ensures forall c :: c in ReplaceRuns(s, p, minLen, repl) ==> c in s || c in repl
    decreases |s|
  {
    if |s| > 0 {
      if !p(s[0]) {
        ReplaceRunsChars(s[1..], p, minLen, repl);
      } else {
        var n := RunLength(s, p);
        ReplaceRunsChars(s[n..], p, minLen, repl);
        assert forall c :: c in s[..n] ==> c in s;
        assert forall c :: c in s[n..] ==> c in s;
      }
    }
  }

  /** With no `p` character there is nothing to replace. */
  lemma {:induction false} ReplaceRunsNone(s: string, p: char -> bool, minLen: nat, repl: string)
    requires NoneOf(s, p)
    ensures ReplaceRuns(s, p, minLen, repl) == s
    decreases |s|
  {
    if |s| > 0 {
      ReplaceRunsNone(s[1..], p, minLen, repl);
    }
  }

  /** With runs of at most one `p` character, a pattern that needs two finds nothing. */
  lemma {:induction false} ReplaceRunsShort(s: string, p: char -> bool, repl: string)
    requires NoAdjacent(s, p)
    ensures ReplaceRuns(s, p, 2, repl) == s
    decreases |s|
  {
    if |s| > 0 {
      assert NoAdjacent(s[1..], p) by {
        forall i | 0 < i < |s| - 1 ensures !(p(s[1..][i - 1]) && p(s[1..][i])) {
          assert s[1..][i - 1] == s[i] && s[1..][i] == s[i + 1];
        }
      }
      ReplaceRunsShort(s[1..], p, repl);
      if p(s[0]) {
        assert |s| > 1 ==> !p(s[1]);
        assert RunLength(s, p) == 1;
        assert s[..1] + s[1..] == s;
      } else {
        assert [s[0]] + s[1..] == s;
      }
    }
  }

  /** A leading character outside the class is kept in front. */
  lemma ReplaceRunsHead(s: string, p: char -> bool, minLen: nat, repl: string)
    requires |s| > 0 && !p(s[0])
    ensures |ReplaceRuns(s, p, minLen, repl)| > 0
    ensures ReplaceRuns(s, p, minLen, repl)[0] == s[0]
  {
  }

  /** A trailing character outside the class is kept at the end. */
  lemma {:induction false} ReplaceRunsLast(s: string, p: char -> bool, minLen: nat, repl: string)
    requires |s| > 0 && !p(s[|s| - 1])
    ensures var r := ReplaceRuns(s, p, minLen, repl); |r| > 0 && r[|r| - 1] == s[|s| - 1]
    decreases |s|
  {
    if !p(s[0]) {
      if |s| > 1 {
        assert s[1..][|s| - 2] == s[|s| - 1];
        ReplaceRunsLast(s[1..], p, minLen, repl);
      }
    } else {
      var n := RunLength(s, p);
      assert n < |s|;
      assert s[n..][|s| - n - 1] == s[|s| - 1];
      ReplaceRunsLast(s[n..], p, minLen, repl);
    }
  }

  lemma NoAdjacentPrepend(h: char, t: string, p: char -> bool)
    requires NoAdjacent(t, p)
    requires !p(h) || |t| == 0 || !p(t[0])
    ensures NoAdjacent([h] + t, p)
  {
    var s := [h] + t;
    forall i | 0 < i < |s| ensures !(p(s[i - 1]) && p(s[i])) {
      if i > 1 { assert s[i - 1] == t[i - 2] && s[i] == t[i - 1]; }
    }
  }

  /** When a run of one or two-or-more characters becomes a single character,
      no two class characters are left side by side. */
  lemma {:induction false} ReplaceRunsNoAdjacent(s: string, p: char -> bool, minLen: nat, repl: string)
    requires |repl| == 1 && minLen <= 2
    ensures NoAdjacent(ReplaceRuns(s, p, minLen, repl), p)
    decreases |s|
  {
    if |s| > 0 {
      if !p(s[0]) {
        ReplaceRunsNoAdjacent(s[1..], p, minLen, repl);
        NoAdjacentPrepend(s[0], ReplaceRuns(s[1..], p, minLen, repl), p);
      } else {
        var n := RunLength(s, p);
        var rest := ReplaceRuns(s[n..], p, minLen, repl);
        ReplaceRunsNoAdjacent(s[n..], p, minLen, repl);
        if n < |s| { ReplaceRunsHead(s[n..], p, minLen, repl); }
        var h := if n >= minLen then repl else s[..n];
        assert |h| == 1;
        assert h == [h[0]];
        NoAdjacentPrepend(h[0], rest, p);
      }
    }
  }

  /** When every run is replaced, the only class characters left are those of `repl`. */
  lemma {:induction false} ReplaceRunsOnlyRepl(s: string, p: char -> bool, minLen: nat, repl: string)
    requires minLen <= 1
    ensures forall c :: c in ReplaceRuns(s, p, minLen, repl) && p(c) ==> c in repl
    decreases |s|
  {
    if |s| > 0 {
      if !p(s[0]) {
        ReplaceRunsOnlyRepl(s[1..], p, minLen, repl);
      } else {
        ReplaceRunsOnlyRepl(s[RunLength(s, p)..], p, minLen, repl);
      }
    }
  }

  /** Every piece of a string without neighbouring class characters has none either. */
  lemma NoAdjacentInfix(s: string, p: char -> bool, lo: nat, hi: nat)
    requires NoAdjacent(s, p) && lo <= hi <= |s|
    ensures NoAdjacent(s[lo..hi], p)
  {
    var t := s[lo..hi];
    forall i | 0 < i < |t| ensures !(p(t[i - 1]) && p(t[i])) {
      assert t[i - 1] == s[lo + i - 1] && t[i] == s[lo + i];
    }
  }

  /** One step of the scan at a character outside the class. */
  lemma ReplaceRunsStepOther(s: string, p: char -> bool, minLen: nat, repl: string)
    requires |s| > 0 && !p(s[0])
    ensures ReplaceRuns(s, p, minLen, repl) == [s[0]] + ReplaceRuns(s[1..], p, minLen, repl)
  {
  }

  /** One step of the scan at the start of a run. */
  lemma ReplaceRunsStepRun(s: string, p: char -> bool, minLen: nat, repl: string)
    requires |s| > 0 && p(s[0])
    ensures var n := RunLength(s, p);
      ReplaceRuns(s, p, minLen, repl) == (if n >= minLen then repl else s[..n]) + ReplaceRuns(s[n..], p, minLen, repl)
  {
  }

  /** A prefix without class characters is copied unchanged. */
  lemma {:induction false} ReplaceRunsPrefix(a: string, b: string, p: char -> bool, minLen: nat, repl: string)
    requires NoneOf(a, p)
    ensures ReplaceRuns(a + b, p, minLen, repl) == a + ReplaceRuns(b, p, minLen, repl)
    decreases |a|
  {
    if |a| == 0 {
      assert a + b == b;
    } else {
      var s := a + b;
      assert s[0] == a[0] && s[1..] == a[1..] + b;
      ReplaceRunsStepOther(s, p, minLen, repl);
      ReplaceRunsPrefix(a[1..], b, p, minLen, repl);
      assert a == [a[0]] + a[1..];
    }
  }

  /** `Filter(s, q)` keeps the `q` characters of `s`, in order. */
  function Filter(s: string, q: char -> bool): (r: string)
    ensures |r| <= |s|
  {
    if |s| == 0 then [] else (if q(s[0]) then [s[0]] else []) + Filter(s[1..], q)
  }

  /** The kept characters are exactly the `q` characters of `s`. */
  lemma {:induction false} FilterMembers(s: string, q: char -> bool)
    ensures forall c :: c in Filter(s, q) <==> c in s && q(c)
    decreases |s|
  {
    if |s| > 0 {
      FilterMembers(s[1..], q);
      assert forall c :: c in s <==> c == s[0] || c in s[1..];
    }
  }

  lemma {:induction false} FilterAppend(a: string, b: string, q: char -> bool)
    ensures Filter(a + b, q) == Filter(a, q) + Filter(b, q)
    decreases |a|
  {
    if |a| > 0 {
      assert (a + b)[1..] == a[1..] + b;
      FilterAppend(a[1..], b, q);
    } else {
      assert a + b == b;
    }
  }

  lemma {:induction false} FilterAll(s: string, q: char -> bool)
    requires AllOf(s, q)
    ensures Filter(s, q) == s
    decreases |s|
  {
    if |s| > 0 {
      FilterAll(s[1..], q);
      assert [s[0]] + s[1..] == s;
    }
  }

  lemma {:induction false} FilterNone(s: string, q: char -> bool)
    requires NoneOf(s, q)
    ensures Filter(s, q) == []
    decreases |s|
  {
    if |s| > 0 {
      FilterNone(s[1..], q);
    }
  }

  /** Filtering looks at the first character, then at the rest. */
  lemma FilterHead(s: string, q: char -> bool)
    requires |s| > 0
    ensures Filter(s, q) == Filter([s[0]], q) + Filter(s[1..], q)
  {
    FilterAppend([s[0]], s[1..], q);
    assert [s[0]] + s[1..] == s;
  }

  /** Dropping a prefix without `q` characters keeps the `q` characters. */
  lemma {:induction false} FilterDrop(s: string, k: nat, q: char -> bool)
    requires k <= |s| && NoneOf(s[..k], q)
    ensures Filter(s, q) == Filter(s[k..], q)
    decreases k
  {
    if k > 0 {
      assert !q(s[..k][0]);
      assert s[1..][..k - 1] == s[..k][1..];
      FilterDrop(s[1..], k - 1, q);
      assert s[1..][k - 1..] == s[k..];
    }
  }

  /** Cutting off a suffix without `q` characters keeps the `q` characters. */
  lemma {:induction false} FilterTake(s: string, m: nat, q: char -> bool)
    requires m <= |s| && NoneOf(s[m..], q)
    ensures Filter(s, q) == Filter(s[..m], q)
    decreases |s|
  {
    if m == 0 {
      FilterNone(s, q);
    } else {
      assert s[1..][m - 1..] == s[m..];
      FilterTake(s[1..], m - 1, q);
      assert s[..m][0] == s[0];
      assert s[..m][1..] == s[1..][..m - 1];
    }
  }

  /** The leading run of `p` characters holds no `q` character. */
  lemma RunNone(s: string, p: char -> bool, q: char -> bool)
    requires forall c :: q(c) ==> !p(c)
    ensures NoneOf(s[..RunLength(s, p)], q)
  {
    var n := RunLength(s, p);
    forall i | 0 <= i < n ensures !q(s[..n][i]) { assert p(s[i]); }
  }

  /** Stripping `p` characters keeps every character outside the class. */
  lemma StripByKeeps(s: string, p: char -> bool, q: char -> bool)
    requires forall c :: q(c) ==> !p(c)
    ensures Filter(StripBy(s, p), q) == Filter(s, q)
  {
    var lo := RunLength(s, p);
    var t := s[lo..];
    var m := |t| - TrailLength(t, p);
    RunNone(s, p, q);
    FilterDrop(s, lo, q);
    assert NoneOf(t[m..], q) by {
      forall i | 0 <= i < |t| - m ensures !q(t[m..][i]) { assert p(t[m + i]); }
    }
    FilterTake(t, m, q);
  }

  /** Filtering with a coarser predicate first changes nothing. */
  lemma {:induction false} FilterFilter(s: string, q: char -> bool, q2: char -> bool)
    requires forall c :: q(c) ==> q2(c)
    ensures Filter(Filter(s, q2), q) == Filter(s, q)
    decreases |s|
  {
    if |s| > 0 {
      var h := if q2(s[0]) then [s[0]] else [];
      FilterAppend(h, Filter(s[1..], q2), q);
      FilterFilter(s[1..], q, q2);
      if q2(s[0]) { assert Filter(h, q) == (if q(s[0]) then [s[0]] else []); }
    }
  }

  /** Two tests that agree on every character of `s` keep the same ones. */
  lemma {:induction false} FilterAgree(s: string, q: char -> bool, q2: char -> bool)
    requires forall i :: 0 <= i < |s| ==> q(s[i]) == q2(s[i])
    ensures Filter(s, q) == Filter(s, q2)
    decreases |s|
  {
    if |s| > 0 {
      assert forall i :: 0 <= i < |s[1..]| ==> s[1..][i] == s[i + 1];
      FilterAgree(s[1..], q, q2);
    }
  }

  lemma LowerAllAppend(a: string, b: string)
    ensures LowerAll(a + b) == LowerAll(a) + LowerAll(b)
  {
    assert forall i :: 0 <= i < |a + b| ==> LowerAll(a + b)[i] == (LowerAll(a) + LowerAll(b))[i];
  }

  /** Lower-casing and keeping the non-whitespace characters commute. */
  lemma {:induction false} FilterLowerAll(s: string)
    ensures Filter(LowerAll(s), NotSpace) == LowerAll(Filter(s, NotSpace))
    decreases |s|
  {
    if |s| > 0 {
      var l := LowerAll(s);
      assert l[1..] == LowerAll(s[1..]);
      FilterLowerAll(s[1..]);
      FilterHead(l, NotSpace);
      FilterHead(s, NotSpace);
      var h := Filter([s[0]], NotSpace);
      assert h == (if NotSpace(s[0]) then [s[0]] else []) by {
        assert [s[0]][1..] == [];
      }
      assert Filter([l[0]], NotSpace) == (if NotSpace(l[0]) then [l[0]] else []) by {
        assert [l[0]][1..] == [];
      }
      LowerAllAppend(h, Filter(s[1..], NotSpace));
    }
  }

  /** Replacing runs of `p` characters by `p` characters leaves every
      character outside the class where it was, in order. */
  lemma {:induction false} ReplaceRunsKeepsOthers(s: string, p: char -> bool, minLen: nat, repl: string, q: char -> bool)
    requires forall c :: q(c) ==> !p(c)
    requires AllOf(repl, p)
    ensures Filter(ReplaceRuns(s, p, minLen, repl), q) == Filter(s, q)
    decreases |s|
  {
    if |s| > 0 {
      if !p(s[0]) {
        ReplaceRunsStepOther(s, p, minLen, repl);
        FilterAppend([s[0]], ReplaceRuns(s[1..], p, minLen, repl), q);
        ReplaceRunsKeepsOthers(s[1..], p, minLen, repl, q);
      } else {
        var n := RunLength(s, p);
        var h := if n >= minLen then repl else s[..n];
        ReplaceRunsStepRun(s, p, minLen, repl);
        FilterAppend(h, ReplaceRuns(s[n..], p, minLen, repl), q);
        ReplaceRunsKeepsOthers(s[n..], p, minLen, repl, q);
        FilterNone(h, q);
        FilterNone(s[..n], q);
        FilterAppend(s[..n], s[n..], q);
        assert s[..n] + s[n..] == s;
      }
    }
  }
}
