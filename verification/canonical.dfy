/**
  The first half of `build_entity_map`: every entity text is reduced to a
  normalised key (`normalize_key`), and each new key is registered either
  as its own canonical key or, when the fuzzy matcher finds an earlier key
  that scores at least the similarity threshold, as that key.

  The matcher (`process.extractOne` with `fuzz.token_sort_ratio`) is a
  parameter; all the model assumes of it is that, given a non-empty list
  of choices, it returns one of them.
 */
module Canonical {
  import opened Text

  /** Characters `[^\w\s&\-./]` does not remove. */
  predicate KeepKeyChar(c: char) {
    IsWord(c) || IsSpace(c) || c == '&' || c == '-' || c == '.' || c == '/'
  }

  /** `normalize_key`: drop other punctuation, strip, lower-case, and turn
      each run of two or more whitespace characters into one space. */
  function NormalizeKey(s: string): string
  {
    ReplaceRuns(LowerAll(Strip(Filter(s, KeepKeyChar))), IsSpace, 2, " ")
  }

  /** A normalised key holds only key characters and no capital, has no
      whitespace at either end and no two whitespace characters in a row. */
  lemma NormalizeKeyShape(s: string)
    ensures var r := NormalizeKey(s);
      && (forall c :: c in r ==> KeepKeyChar(c) && !IsUpper(c))
      && Stripped(r, IsSpace)
      && NoAdjacent(r, IsSpace)
  {
    var t := Strip(Filter(s, KeepKeyChar));
    var u := LowerAll(t);
    KeyCharsOfStrip(s);
    assert forall c :: c in u ==> KeepKeyChar(c) && !IsUpper(c) by {
      forall c | c in u ensures KeepKeyChar(c) && !IsUpper(c) {
        var i :| 0 <= i < |u| && u[i] == c;
        assert t[i] in t;
      }
    }
    CollapseKeySpaces(u);
  }

  /** The characters left after filtering and stripping are key characters. */
  lemma KeyCharsOfStrip(s: string)
    ensures forall c :: c in Strip(Filter(s, KeepKeyChar)) ==> KeepKeyChar(c)
  {
    FilterMembers(s, KeepKeyChar);
    StripMembers(Filter(s, KeepKeyChar), IsSpace);
  }

  /** The last step of `normalize_key` on a stripped lower-case key. */
  lemma CollapseKeySpaces(u: string)
    requires forall c :: c in u ==> KeepKeyChar(c) && !IsUpper(c)
    requires Stripped(u, IsSpace)
    ensures var r := ReplaceRuns(u, IsSpace, 2, " ");
      (forall c :: c in r ==> KeepKeyChar(c) && !IsUpper(c)) && Stripped(r, IsSpace) && NoAdjacent(r, IsSpace)
  {
    ReplaceRunsChars(u, IsSpace, 2, " ");
    ReplaceRunsNoAdjacent(u, IsSpace, 2, " ");
    if |u| > 0 {
      ReplaceRunsHead(u, IsSpace, 2, " ");
      ReplaceRunsLast(u, IsSpace, 2, " ");
    } else {
      ReplaceRunsNone(u, IsSpace, 2, " ");
    }
  }

  /** A normalised key normalises to itself. */
  lemma NormalizeKeyIdempotent(s: string)
    ensures NormalizeKey(NormalizeKey(s)) == NormalizeKey(s)
  {
    var x := NormalizeKey(s);
    NormalizeKeyShape(s);
    assert AllOf(x, KeepKeyChar) by {
      forall i | 0 <= i < |x| ensures KeepKeyChar(x[i]) { assert x[i] in x; }
    }
    FilterAll(x, KeepKeyChar);
    StripStripped(x, IsSpace);
    assert LowerAll(x) == x by {
      forall i | 0 <= i < |x| ensures Lower(x[i]) == x[i] { assert x[i] in x; }
    }
    ReplaceRunsShort(x, IsSpace, " ");
  }

  /** Key characters other than whitespace: `\w` and `&-./`. */
  predicate KeyContent(c: char) { KeepKeyChar(c) && !IsSpace(c) }

  /** Normalising removes whitespace and the characters outside `\w` and
      `&-./`, and nothing else: every other character survives, lower-cased,
      in order. */
  lemma NormalizeKeyKeepsText(s: string)
    ensures Filter(NormalizeKey(s), NotSpace) == LowerAll(Filter(s, KeyContent))
  {
    var f := Filter(s, KeepKeyChar);
    var t := Strip(f);
    ReplaceRunsKeepsOthers(LowerAll(t), IsSpace, 2, " ", NotSpace);
    FilterLowerAll(t);
    StripByKeeps(f, IsSpace, NotSpace);
    assert forall i :: 0 <= i < |f| ==> NotSpace(f[i]) == KeyContent(f[i]) by {
      FilterMembers(s, KeepKeyChar);
      forall i | 0 <= i < |f| ensures NotSpace(f[i]) == KeyContent(f[i]) {
        assert f[i] in f;
      }
    }
    FilterAgree(f, NotSpace, KeyContent);
    FilterFilter(s, KeyContent, KeepKeyChar);
  }

  /** What `process.extractOne` returns: the best choice and its score. */
  datatype FuzzyHit = FuzzyHit(choice: string, score: real)

  /** `process.extractOne(query, choices, scorer=fuzz.token_sort_ratio)`. */
  type Matcher = (string, seq<string>) -> FuzzyHit

  /** The matcher's answer is one of the choices it was given. */
  ghost predicate PicksAChoice(extractOne: Matcher) {
    forall q, cs :: |cs| > 0 ==> extractOne(q, cs).choice in cs
  }

  /** The default `sim_threshold`. */
  const SimThreshold: real := 92.0

  /** The `canonical` dictionary: its keys in insertion order, and where
      each points. */
  datatype Registry = Registry(keys: seq<string>, canon: map<string, string>)

  /** Keys are registered once, and each points at itself or at a key
      registered before it. */
  ghost predicate Valid(g: Registry) {
    && (forall i, j :: 0 <= i < j < |g.keys| ==> g.keys[i] != g.keys[j])
    && (forall k :: k in g.canon <==> k in g.keys)
    && (forall i :: 0 <= i < |g.keys| ==> g.canon[g.keys[i]] in g.keys[..i + 1])
  }

  /** One iteration of the first loop of `build_entity_map`: a key seen
      before is left alone; a new key points at the matcher's choice among
      the earlier keys when that scores at least the threshold, and at
      itself otherwise. */
  function Register(g: Registry, nk: string, extractOne: Matcher, threshold: real): (r: Registry)
    ensures nk in r.canon
  {
    if nk in g.canon then g
    else
      var target :=
        if |g.keys| == 0 then nk
        else
          var hit := extractOne(nk, g.keys);
          if hit.score >= threshold then hit.choice else nk;
      Registry(g.keys + [nk], g.canon[nk := target])
  }

  /** Where a newly registered key points: at the matcher's choice exactly
      when there are earlier keys and the choice scores at least the
      threshold, at itself otherwise; nothing registered before moves. */
  lemma RegisterNew(g: Registry, nk: string, extractOne: Matcher, threshold: real)
    requires nk !in g.canon
    ensures var r := Register(g, nk, extractOne, threshold);
      && r.keys == g.keys + [nk]
      && (forall k :: k in r.canon <==> k in g.canon || k == nk)
      && (forall k :: k in g.canon ==> r.canon[k] == g.canon[k])
      && (if |g.keys| > 0 && extractOne(nk, g.keys).score >= threshold
          then r.canon[nk] == extractOne(nk, g.keys).choice
          else r.canon[nk] == nk)
  {
  }

  /** A key registered before leaves the registry as it was. */
  lemma RegisterSeen(g: Registry, nk: string, extractOne: Matcher, threshold: real)
    requires nk in g.canon
    ensures Register(g, nk, extractOne, threshold) == g
  {
  }

  /** A new key is not among the earlier ones, so keys stay distinct. */
  lemma RegisterDistinct(g: Registry, nk: string, extractOne: Matcher, threshold: real)
    requires Valid(g)
    ensures var r := Register(g, nk, extractOne, threshold);
      forall i, j :: 0 <= i < j < |r.keys| ==> r.keys[i] != r.keys[j]
  {
    var r := Register(g, nk, extractOne, threshold);
    if nk !in g.canon {
      RegisterNew(g, nk, extractOne, threshold);
      var n := |g.keys|;
      assert nk !in g.keys;
      forall i, j | 0 <= i < j < |r.keys| ensures r.keys[i] != r.keys[j] {
        assert r.keys[i] == g.keys[i];
        if j < n { assert r.keys[j] == g.keys[j]; }
      }
    }
  }

  lemma PrefixOfAppend(a: seq<string>, x: string, i: nat)
    requires i <= |a|
    ensures (a + [x])[..i] == a[..i]
  {
  }

  /** Each key still points at itself or at an earlier key. */
  lemma RegisterPoints(g: Registry, nk: string, extractOne: Matcher, threshold: real)
    requires Valid(g) && PicksAChoice(extractOne)
    ensures var r := Register(g, nk, extractOne, threshold);
      && (forall k :: k in r.canon <==> k in r.keys)
      && (forall i :: 0 <= i < |r.keys| ==> r.canon[r.keys[i]] in r.keys[..i + 1])
  {
    var r := Register(g, nk, extractOne, threshold);
    if nk !in g.canon {
      RegisterNew(g, nk, extractOne, threshold);
      var n := |g.keys|;
      assert forall k :: k in r.keys <==> k in g.keys || k == nk by {
        assert r.keys == g.keys + [nk];
      }
      forall i | 0 <= i < |r.keys| ensures r.canon[r.keys[i]] in r.keys[..i + 1] {
        if i < n {
          assert r.keys[i] == g.keys[i];
          PrefixOfAppend(g.keys, nk, i + 1);
        } else {
          assert r.keys[..i + 1] == r.keys;
          if n > 0 {
            assert extractOne(nk, g.keys).choice in g.keys;
          }
        }
      }
    }
  }

  lemma RegisterValid(g: Registry, nk: string, extractOne: Matcher, threshold: real)
    requires Valid(g) && PicksAChoice(extractOne)
    ensures Valid(Register(g, nk, extractOne, threshold))
  {
    RegisterDistinct(g, nk, extractOne, threshold);
    RegisterPoints(g, nk, extractOne, threshold);
  }

  /** The normalised key of every text, in order. */
  function Keys(texts: seq<string>): (nks: seq<string>)
    ensures |nks| == |texts|
  {
    seq(|texts|, i requires 0 <= i < |texts| => NormalizeKey(texts[i]))
  }

  /** The registry after registering `nks` in order. */
  function AssignAll(nks: seq<string>, extractOne: Matcher, threshold: real): Registry
    decreases |nks|
  {
    if |nks| == 0 then Registry([], map[])
    else Register(AssignAll(nks[..|nks| - 1], extractOne, threshold), nks[|nks| - 1], extractOne, threshold)
  }

  lemma AssignAllStep(nks: seq<string>, extractOne: Matcher, threshold: real)
    requires |nks| > 0
    ensures var n := |nks| - 1;
      AssignAll(nks, extractOne, threshold) == Register(AssignAll(nks[..n], extractOne, threshold), nks[n], extractOne, threshold)
  {
  }

  /** The registry after the first loop of `build_entity_map` over `texts`. */
  function AssignKeys(texts: seq<string>, extractOne: Matcher, threshold: real): Registry
  {
    AssignAll(Keys(texts), extractOne, threshold)
  }

  /** The registered keys are exactly the keys given. */
  lemma {:induction false} AssignAllDomain(nks: seq<string>, extractOne: Matcher, threshold: real)
    ensures forall k :: k in AssignAll(nks, extractOne, threshold).canon <==> k in nks
    decreases |nks|
  {
    if |nks| > 0 {
      var n := |nks| - 1;
      var prev := AssignAll(nks[..n], extractOne, threshold);
      AssignAllDomain(nks[..n], extractOne, threshold);
      assert nks == nks[..n] + [nks[n]];
      if nks[n] !in prev.canon {
        RegisterNew(prev, nks[n], extractOne, threshold);
      }
    }
  }

  /** Every text's key is in the `canonical` dictionary, and every key there
      is some text's key. */
  lemma AssignKeysDomain(texts: seq<string>, extractOne: Matcher, threshold: real)
    ensures var g := AssignKeys(texts, extractOne, threshold);
      && (forall i :: 0 <= i < |texts| ==> NormalizeKey(texts[i]) in g.canon)
      && (forall k :: k in g.canon ==> exists i :: 0 <= i < |texts| && NormalizeKey(texts[i]) == k)
  {
    var nks := Keys(texts);
    AssignAllDomain(nks, extractOne, threshold);
    assert forall i :: 0 <= i < |texts| ==> nks[i] == NormalizeKey(texts[i]);
  }

  lemma {:induction false} AssignAllValid(nks: seq<string>, extractOne: Matcher, threshold: real)
    requires PicksAChoice(extractOne)
    ensures Valid(AssignAll(nks, extractOne, threshold))
    decreases |nks|
  {
    if |nks| > 0 {
      var n := |nks| - 1;
      AssignAllValid(nks[..n], extractOne, threshold);
      RegisterValid(AssignAll(nks[..n], extractOne, threshold), nks[n], extractOne, threshold);
    }
  }

  /** With a matcher that answers with one of its choices, the `canonical`
      dictionary lists each key once and points every key at itself or at
      a key registered before it. */
  lemma AssignKeysValid(texts: seq<string>, extractOne: Matcher, threshold: real)
    requires PicksAChoice(extractOne)
    ensures Valid(AssignKeys(texts, extractOne, threshold))
  {
    AssignAllValid(Keys(texts), extractOne, threshold);
  }

  /** Registering more keys never changes where an earlier key points. */
  lemma {:induction false} AssignAllStable(nks: seq<string>, m: nat, extractOne: Matcher, threshold: real)
    requires m <= |nks|
    ensures var early := AssignAll(nks[..m], extractOne, threshold).canon;
      var late := AssignAll(nks, extractOne, threshold).canon;
      forall k :: k in early ==> k in late && late[k] == early[k]
    decreases |nks| - m
  {
    if m < |nks| {
      var n := |nks| - 1;
      assert nks[..n][..m] == nks[..m];
      AssignAllStable(nks[..n], m, extractOne, threshold);
      var prev := AssignAll(nks[..n], extractOne, threshold);
      if nks[n] !in prev.canon {
        RegisterNew(prev, nks[n], extractOne, threshold);
      }
    } else {
      assert nks[..m] == nks;
    }
  }

  /** Where a text's key points once all texts are registered is where it
      pointed right after the text itself was registered. */
  lemma AssignKeysStable(texts: seq<string>, m: nat, extractOne: Matcher, threshold: real)
    requires m <= |texts|
    ensures var early := AssignKeys(texts[..m], extractOne, threshold).canon;
      var late := AssignKeys(texts, extractOne, threshold).canon;
      forall k :: k in early ==> k in late && late[k] == early[k]
  {
    var nks := Keys(texts);
    assert Keys(texts[..m]) == nks[..m];
    assert AssignKeys(texts[..m], extractOne, threshold) == AssignAll(nks[..m], extractOne, threshold);
    AssignAllStable(nks, m, extractOne, threshold);
  }

  /** The first key registered is its own canonical key. */
  lemma AssignAllFirst(nks: seq<string>, extractOne: Matcher, threshold: real)
    requires |nks| > 0
    ensures var g := AssignAll(nks, extractOne, threshold);
      nks[0] in g.canon && g.canon[nks[0]] == nks[0]
  {
    AssignAllStable(nks, 1, extractOne, threshold);
    var one := nks[..1];
    assert one[..0] == [];
    AssignAllStep(one, extractOne, threshold);
    assert AssignAll(one, extractOne, threshold) == Register(Registry([], map[]), nks[0], extractOne, threshold);
  }

  /** The first text's key is its own canonical key. */
  lemma AssignKeysFirst(texts: seq<string>, extractOne: Matcher, threshold: real)
    requires |texts| > 0
    ensures var k := NormalizeKey(texts[0]); var g := AssignKeys(texts, extractOne, threshold);
      k in g.canon && g.canon[k] == k
  {
    var nks := Keys(texts);
    assert nks[0] == NormalizeKey(texts[0]);
    AssignAllFirst(nks, extractOne, threshold);
  }

  /** Every key is its own canonical key. */
  ghost predicate Unmerged(g: Registry) {
    forall k :: k in g.canon ==> g.canon[k] == k
  }

  /** When the matcher never reaches the threshold, no key is merged:
      every key is its own canonical key. */
  lemma {:induction false} AssignAllNoMerge(nks: seq<string>, extractOne: Matcher, threshold: real)
    requires forall q, cs :: extractOne(q, cs).score < threshold
    ensures Unmerged(AssignAll(nks, extractOne, threshold))
    decreases |nks|
  {
    if |nks| > 0 {
      var n := |nks| - 1;
      AssignAllNoMerge(nks[..n], extractOne, threshold);
      var prev := AssignAll(nks[..n], extractOne, threshold);
      AssignAllStep(nks, extractOne, threshold);
      if nks[n] !in prev.canon {
        RegisterNew(prev, nks[n], extractOne, threshold);
        if |prev.keys| > 0 {
          assert extractOne(nks[n], prev.keys).score < threshold;
        }
      }
    }
  }

  lemma AssignKeysNoMerge(texts: seq<string>, extractOne: Matcher, threshold: real)
    requires forall q, cs :: extractOne(q, cs).score < threshold
    ensures Unmerged(AssignKeys(texts, extractOne, threshold))
  {
    AssignAllNoMerge(Keys(texts), extractOne, threshold);
  }

  /** Merging does not follow chains: with a matcher that always picks the
      most recent key with full score, three distinct keys `a`, `b`, `c`
      registered in that order point at `a`, `a` and `b`. The third key is
      grouped under `b` although `b` itself was grouped under `a`. */
  lemma ChainNotFollowed(a: string, b: string, c: string, extractOne: Matcher)
    requires forall q, cs :: |cs| > 0 ==> extractOne(q, cs) == FuzzyHit(cs[|cs| - 1], 100.0)
    requires a != b && b != c && a != c
    ensures var g := AssignAll([a, b, c], extractOne, SimThreshold);
      a in g.canon && b in g.canon && c in g.canon &&
      g.canon[a] == a && g.canon[b] == a && g.canon[c] == b
  {
    var nks := [a, b, c];
    var e: Registry := Registry([], map[]);
    assert [a][..0] == [];
    AssignAllStep([a], extractOne, SimThreshold);
    var g1 := Register(e, a, extractOne, SimThreshold);
    assert g1 == Registry([a], map[a := a]);
    assert nks[..2] == [a, b] && [a, b][..1] == [a];
    AssignAllStep([a, b], extractOne, SimThreshold);
    assert extractOne(b, [a]) == FuzzyHit(a, 100.0);
    var g2 := Register(g1, b, extractOne, SimThreshold);
    assert g2 == Registry([a, b], map[a := a, b := a]);
    assert nks[..2] == [a, b];
    AssignAllStep(nks, extractOne, SimThreshold);
    assert extractOne(c, [a, b]) == FuzzyHit(b, 100.0);
    var g3 := Register(g2, c, extractOne, SimThreshold);
    assert g3 == Registry([a, b, c], map[a := a, b := a, c := b]);
  }
}
