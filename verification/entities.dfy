/**
  `clean_entities`: the token-classification results of one speech are
  reduced to `{"text", "type", "score"}` records. Entries whose word is
  empty, or a single non-alphanumeric character, once stripped, are
  dropped; spaced slashes inside a word are squeezed (`a / b` becomes
  `a/b`).
 */
module Entities {
  import opened Options
  import opened Text

  /** One aggregated result of the recogniser: `word`, `entity_group` and,
      when present, `score`. */
  datatype RawEntity = RawEntity(word: string, entityGroup: string, score: Option<real>)

  /** A cleaned entity. */
  datatype Entity = Entity(text: string, etype: string, score: real)

  predicate IsSlash(c: char) { c == '/' }

  /** Characters the slash squeeze never touches. */
  predicate IsPlain(c: char) { !IsSpace(c) && c != '/' }

  /** The length of the match of `\s+/+\s+` at the start of `s`, or 0.
      Whitespace and slashes are disjoint, so the greedy runs never
      backtrack: a match is a whole blank run, the whole slash run after it
      and the whole blank run after that. */
  function SlashMatch(s: string): (k: nat)
    ensures k == 0 || (3 <= k <= |s| && IsSpace(s[0]) && IsSpace(s[k - 1]))
    ensures k > 0 ==> NoneOf(s[..k], IsPlain)
  {
    if |s| == 0 || !IsSpace(s[0]) then 0
    else
      var a := RunLength(s, IsSpace);
      var b := RunLength(s[a..], IsSlash);
      var c := RunLength(s[a + b..], IsSpace);
      if b > 0 && c > 0 then
        SlashMatchParts(s, a, b, c);
        a + b + c
      else 0
  }

  /** The three greedy runs of a match hold no plain character, and the
      last one ends in a blank. */
  lemma SlashMatchParts(s: string, a: nat, b: nat, c: nat)
    requires |s| > 0 && IsSpace(s[0])
    requires a == RunLength(s, IsSpace)
    requires b == RunLength(s[a..], IsSlash) && b > 0
    requires c == RunLength(s[a + b..], IsSpace) && c > 0
    ensures 3 <= a + b + c <= |s| && IsSpace(s[a + b + c - 1])
    ensures NoneOf(s[..a + b + c], IsPlain)
  {
    assert a >= 1 by { assert s[0] == s[..1][0]; }
    var k := a + b + c;
    forall x | 0 <= x < k ensures !IsPlain(s[..k][x]) {
      if x < a { assert IsSpace(s[x]); }
      else if x < a + b { assert s[x] == s[a..][x - a]; }
      else { assert s[x] == s[a + b..][x - a - b]; }
    }
    assert s[k - 1] == s[a + b..][c - 1];
  }

  /** `re.sub(r"\s+/+\s+", "/", s)`: a match is replaced by one slash and
      the scan resumes after it; anywhere else one character is kept and
      the scan moves on. */
  function SquashSlashes(s: string): (r: string)
    ensures |r| <= |s|
    decreases |s|
  {
    if |s| == 0 then []
    else
      var k := SlashMatch(s);
      if k > 0 then "/" + SquashSlashes(s[k..])
      else [s[0]] + SquashSlashes(s[1..])
  }

  /** At a match the squeeze writes one slash and resumes after it. */
  lemma SquashAtMatch(s: string, k: nat)
    requires |s| > 0 && k == SlashMatch(s) && k > 0
    ensures SquashSlashes(s) == "/" + SquashSlashes(s[k..])
  {
  }

  /** Outside a match the squeeze keeps the first character. */
  lemma SquashAtPlain(s: string)
    requires |s| > 0 && SlashMatch(s) == 0
    ensures SquashSlashes(s) == [s[0]] + SquashSlashes(s[1..])
  {
  }

  /** A match holds no plain character, so replacing it by a slash keeps
      the plain characters of both sides. */
  lemma SquashMatchStep(s: string, k: nat)
    requires |s| > 0 && k == SlashMatch(s) && k > 0
    ensures Filter(SquashSlashes(s), IsPlain) == Filter(SquashSlashes(s[k..]), IsPlain)
    ensures Filter(s, IsPlain) == Filter(s[k..], IsPlain)
  {
    SquashAtMatch(s, k);
    FilterDrop("/" + SquashSlashes(s[k..]), 1, IsPlain);
    assert ("/" + SquashSlashes(s[k..]))[1..] == SquashSlashes(s[k..]);
    FilterDrop(s, k, IsPlain);
  }

  /** Outside a match the first character is kept as it is. */
  lemma SquashKeepStep(s: string)
    requires |s| > 0 && SlashMatch(s) == 0
    ensures && Filter(SquashSlashes(s), IsPlain) == Filter([s[0]], IsPlain) + Filter(SquashSlashes(s[1..]), IsPlain)
            && Filter(s, IsPlain) == Filter([s[0]], IsPlain) + Filter(s[1..], IsPlain)
  {
    SquashAtPlain(s);
    FilterAppend([s[0]], SquashSlashes(s[1..]), IsPlain);
    FilterHead(s, IsPlain);
  }

  /** The squeeze removes only blanks and slashes: every other character
      survives, in order. */
  lemma {:induction false} SquashSlashesKeepsPlain(s: string)
    ensures Filter(SquashSlashes(s), IsPlain) == Filter(s, IsPlain)
    decreases |s|
  {
    if |s| > 0 {
      var k := SlashMatch(s);
      if k > 0 {
        SquashSlashesKeepsPlain(s[k..]);
        SquashMatchStep(s, k);
      } else {
        SquashSlashesKeepsPlain(s[1..]);
        SquashKeepStep(s);
      }
    }
  }

  /** A word without a slash is left alone. */
  lemma {:induction false} SquashSlashesNoSlash(s: string)
    requires '/' !in s
    ensures SquashSlashes(s) == s
    decreases |s|
  {
    if |s| > 0 {
      var k := SlashMatch(s);
      assert '/' !in s[1..] by {
        forall x | 0 <= x < |s| - 1 ensures s[1..][x] != '/' { assert s[1..][x] == s[x + 1] && s[x + 1] in s; }
      }
      SquashSlashesNoSlash(s[1..]);
      assert [s[0]] + s[1..] == s;
    }
  }

  /** A prefix of plain characters is copied as it is. */
  lemma {:induction false} SquashPlainPrefix(a: string, rest: string)
    requires AllOf(a, IsPlain)
    ensures SquashSlashes(a + rest) == a + SquashSlashes(rest)
    decreases |a|
  {
    if |a| == 0 {
      assert a + rest == rest;
    } else {
      var s := a + rest;
      var t := a[1..] + rest;
      assert AllOf(a[1..], IsPlain) by {
        forall x | 0 <= x < |a| - 1 ensures IsPlain(a[1..][x]) { assert a[1..][x] == a[x + 1]; }
      }
      SquashPlainPrefix(a[1..], rest);
      assert SquashSlashes(s) == [a[0]] + SquashSlashes(t) by {
        assert s[0] == a[0] && IsPlain(a[0]);
        DropAppend(a, rest, 1);
        SquashAtPlain(s);
      }
      assert [a[0]] + (a[1..] + SquashSlashes(rest)) == a + SquashSlashes(rest) by {
        assert [a[0]] + a[1..] == a;
      }
    }
  }

  /** A match is the three greedy runs when the slash run and the second
      blank run are non-empty. */
  lemma SlashMatchIs(s: string, a: nat, b: nat, c: nat)
    requires |s| > 0 && IsSpace(s[0])
    requires a == RunLength(s, IsSpace) && a <= |s|
    requires b == RunLength(s[a..], IsSlash) && a + b <= |s|
    requires c == RunLength(s[a + b..], IsSpace)
    requires b > 0 && c > 0
    ensures SlashMatch(s) == a + b + c
  {
  }

  /** A blank run, a slash run and a blank run, all whole, are one match. */
  lemma SlashMatchSpaced(w1: string, sl: string, w2: string, b: string)
    requires |w1| > 0 && AllOf(w1, IsSpace)
    requires |sl| > 0 && AllOf(sl, IsSlash)
    requires |w2| > 0 && AllOf(w2, IsSpace)
    requires |b| == 0 || !IsSpace(b[0])
    ensures SlashMatch(w1 + (sl + (w2 + b))) == |w1| + |sl| + |w2|
    ensures (w1 + (sl + (w2 + b)))[|w1| + |sl| + |w2|..] == b
  {
    var t3 := w2 + b;
    var t2 := sl + t3;
    var s := w1 + t2;
    assert RunLength(s, IsSpace) == |w1| && s[|w1|..] == t2 by {
      assert t2[0] == sl[0];
      RunLengthPrefix(w1, t2, IsSpace);
    }
    assert RunLength(t2, IsSlash) == |sl| && t2[|sl|..] == t3 by {
      assert t3[0] == w2[0];
      RunLengthPrefix(sl, t3, IsSlash);
    }
    assert RunLength(t3, IsSpace) == |w2| && t3[|w2|..] == b by {
      RunLengthPrefix(w2, b, IsSpace);
    }
    assert s[|w1| + |sl|..] == t3 by {
      assert s[|w1| + |sl|..] == s[|w1|..][|sl|..];
    }
    assert IsSpace(s[0]) by {
      assert s[0] == w1[0];
    }
    assert s[|w1| + |sl| + |w2|..] == b by {
      assert s[|w1| + |sl| + |w2|..] == t3[|w2|..];
    }
    SlashMatchIs(s, |w1|, |sl|, |w2|);
  }

  /** After a match followed by a plain word, the squeeze gives one slash
      and the word. */
  lemma SquashAfterMatch(u: string, k: nat, b: string)
    requires |u| > 0 && k == SlashMatch(u) && k > 0 && u[k..] == b
    requires AllOf(b, IsPlain)
    ensures SquashSlashes(u) == "/" + b
  {
    SquashAtMatch(u, k);
    assert '/' !in b by {
      forall x | 0 <= x < |b| ensures b[x] != '/' { assert IsPlain(b[x]); }
    }
    SquashSlashesNoSlash(b);
  }

  /** `a / b` with spaced slashes between two plain words becomes `a/b`. */
  lemma SquashSlashesSpaced(a: string, w1: string, sl: string, w2: string, b: string)
    requires AllOf(a, IsPlain) && AllOf(b, IsPlain)
    requires |w1| > 0 && AllOf(w1, IsSpace)
    requires |sl| > 0 && AllOf(sl, IsSlash)
    requires |w2| > 0 && AllOf(w2, IsSpace)
    ensures SquashSlashes(a + w1 + sl + w2 + b) == a + "/" + b
  {
    var u := w1 + (sl + (w2 + b));
    assert SquashSlashes(u) == "/" + b by {
      assert |b| > 0 ==> IsPlain(b[0]);
      SlashMatchSpaced(w1, sl, w2, b);
      SquashAfterMatch(u, |w1| + |sl| + |w2|, b);
    }
    assert SquashSlashes(a + u) == a + ("/" + b) by {
      SquashPlainPrefix(a, u);
    }
    assert a + w1 + sl + w2 + b == a + u;
    assert a + ("/" + b) == a + "/" + b;
  }

  /** A word that ends in a non-blank keeps its last character: a match
      always ends in a blank, so it never reaches the end of such a word. */
  lemma {:induction false} SquashSlashesLast(s: string)
    requires |s| > 0 && !IsSpace(s[|s| - 1])
    ensures var r := SquashSlashes(s); |r| > 0 && r[|r| - 1] == s[|s| - 1]
    decreases |s|
  {
    var k := SlashMatch(s);
    if k > 0 {
      assert k < |s|;
      assert s[k..][|s| - k - 1] == s[|s| - 1];
      SquashSlashesLast(s[k..]);
    } else if |s| > 1 {
      assert s[1..][|s| - 2] == s[|s| - 1];
      SquashSlashesLast(s[1..]);
    }
  }

  /** Squeezing a stripped word leaves it stripped, and non-empty if it was. */
  lemma SquashSlashesStripped(s: string)
    requires Stripped(s, IsSpace)
    ensures Stripped(SquashSlashes(s), IsSpace)
    ensures |s| > 0 ==> |SquashSlashes(s)| > 0
  {
    if |s| > 0 {
      SquashSlashesLast(s);
    }
  }

  /** Whether `clean_entities` skips an entry whose stripped word is `t`:
      it is empty, or one character that is neither a letter nor a digit. */
  predicate Dropped(t: string) {
    |t| == 0 || (|t| == 1 && !IsAlnum(t[0]))
  }

  /** One iteration of the loop in `clean_entities`. */
  function CleanEntity(e: RawEntity): (r: Option<Entity>)
    ensures r.None? <==> Dropped(Strip(e.word))
  {
    var t := Strip(e.word);
    if Dropped(t) then None
    else Some(Entity(SquashSlashes(t), e.entityGroup, e.score.GetOr(0.0)))
  }

  /** A kept entry: its text is a non-empty stripped word with the same
      characters apart from blanks and slashes, its type is the entity
      group, and a missing score counts as 0.0. */
  lemma CleanEntityFields(e: RawEntity)
    ensures var r := CleanEntity(e);
      r.Some? ==> && |r.value.text| > 0 && Stripped(r.value.text, IsSpace)
                  && Filter(r.value.text, IsPlain) == Filter(e.word, IsPlain)
                  && r.value.etype == e.entityGroup
                  && (e.score.None? ==> r.value.score == 0.0)
                  && (e.score.Some? ==> r.value.score == e.score.value)
  {
    var t := Strip(e.word);
    if !Dropped(t) {
      SquashSlashesStripped(t);
      SquashSlashesKeepsPlain(t);
      StripKeepsPlain(e.word);
    }
  }

  /** Stripping removes only blanks. */
  lemma StripKeepsPlain(s: string)
    ensures Filter(Strip(s), IsPlain) == Filter(s, IsPlain)
  {
    StripByKeeps(s, IsSpace, IsPlain);
  }

  /** `clean_entities`: the kept entries, cleaned, in their original order. */
  function CleanEntities(ents: seq<RawEntity>): (r: seq<Entity>)
    ensures |r| <= |ents|
    ensures forall x :: x in r ==> |x.text| > 0 && Stripped(x.text, IsSpace)
    decreases |ents|
  {
    if |ents| == 0 then []
    else
      CleanEntityFields(ents[0]);
      match CleanEntity(ents[0])
      case None => CleanEntities(ents[1..])
      case Some(x) => [x] + CleanEntities(ents[1..])
  }

  /** One iteration of the loop. */
  lemma CleanEntitiesStep(ents: seq<RawEntity>)
    requires |ents| > 0
    ensures var h := CleanEntity(ents[0]);
      CleanEntities(ents) == (if h.Some? then [h.value] else []) + CleanEntities(ents[1..])
  {
  }

  /** Cleaning works entry by entry: it distributes over concatenation. */
  lemma {:induction false} CleanEntitiesAppend(a: seq<RawEntity>, b: seq<RawEntity>)
    ensures CleanEntities(a + b) == CleanEntities(a) + CleanEntities(b)
    decreases |a|
  {
    if |a| == 0 {
      assert a + b == b;
    } else {
      assert (a + b)[0] == a[0];
      assert (a + b)[1..] == a[1..] + b;
      CleanEntitiesAppend(a[1..], b);
    }
  }

  /** Some entry of `ents` cleans to `x`. */
  ghost predicate CleansTo(ents: seq<RawEntity>, x: Entity) {
    exists i :: 0 <= i < |ents| && CleanEntity(ents[i]) == Some(x)
  }

  /** An entry cleans to `x` when the first one does or one of the rest does. */
  lemma CleansToStep(ents: seq<RawEntity>, x: Entity)
    requires |ents| > 0
    ensures CleansTo(ents, x) <==> CleanEntity(ents[0]) == Some(x) || CleansTo(ents[1..], x)
  {
    if CleansTo(ents[1..], x) {
      var i :| 0 <= i < |ents[1..]| && CleanEntity(ents[1..][i]) == Some(x);
      assert ents[1..][i] == ents[i + 1];
    }
    if CleansTo(ents, x) {
      var i :| 0 <= i < |ents| && CleanEntity(ents[i]) == Some(x);
      if i > 0 {
        assert ents[1..][i - 1] == ents[i];
      }
    }
  }

  /** An entity is in the output exactly when some entry is kept and cleans to it. */
  lemma {:induction false} CleanEntitiesMembers(ents: seq<RawEntity>, x: Entity)
    ensures x in CleanEntities(ents) <==> exists i :: 0 <= i < |ents| && CleanEntity(ents[i]) == Some(x)
    decreases |ents|
  {
    if |ents| > 0 {
      CleanEntitiesMembers(ents[1..], x);
      CleanEntitiesStep(ents);
      CleansToStep(ents, x);
    }
    assert CleansTo(ents, x) <==> exists i :: 0 <= i < |ents| && CleanEntity(ents[i]) == Some(x);
  }

  /** When no entry is dropped, there is one entity per entry; a word that is
      already stripped and holds no slash is kept verbatim. */
  lemma {:induction false} CleanEntitiesKeepsAll(ents: seq<RawEntity>)
    requires forall i :: 0 <= i < |ents| ==> !Dropped(Strip(ents[i].word))
    ensures |CleanEntities(ents)| == |ents|
    ensures forall i :: 0 <= i < |ents| && Stripped(ents[i].word, IsSpace) && '/' !in ents[i].word ==>
              CleanEntities(ents)[i].text == ents[i].word
    decreases |ents|
  {
    if |ents| > 0 {
      assert forall i :: 1 <= i < |ents| ==> ents[1..][i - 1] == ents[i];
      CleanEntitiesKeepsAll(ents[1..]);
      var r := CleanEntities(ents);
      assert r == [CleanEntity(ents[0]).value] + CleanEntities(ents[1..]);
      if Stripped(ents[0].word, IsSpace) && '/' !in ents[0].word {
        StripStripped(ents[0].word, IsSpace);
        SquashSlashesNoSlash(ents[0].word);
      }
    }
  }
}
