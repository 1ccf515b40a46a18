/**
  The second half of `build_entity_map`: every entity is filed under the
  canonical key of its text, each group keeps the first text it saw as its
  `canonical` form, the list of texts, their number, and the type of the
  best-scoring entity; the texts are finally reduced to `sorted(set(...))`.

  The groups are given by a reference description, `MembersOf`: the
  entities whose key is `k`, in input order. Each group is shown to be
  what `Gather` computes from its own members alone, so the interleaving
  of groups in the input does not matter.
 */
module EntityMaps {
  import opened Options
  import opened Entities
  import opened Canonical
  import opened LexOrder
  import Text

  /** An entry of `out` while the second loop runs; `best` is `best_score`,
      absent until a positive score has been seen. */
  datatype Cluster = Cluster(canonical: string, etype: string, mentions: seq<string>, best: Option<real>)

  /** The groups in insertion order (the order of `out`'s keys). */
  datatype Groups = Groups(order: seq<string>, clusters: map<string, Cluster>)

  /** An entry of the returned map, after `best_score` is dropped. */
  datatype CanonicalEntity = CanonicalEntity(canonical: string, etype: string, mentions: seq<string>, count: nat)

  datatype EntityMap = EntityMap(order: seq<string>, entries: map<string, CanonicalEntity>)

  /** The texts of a list of entities. */
  function Texts(ents: seq<Entity>): (r: seq<string>)
    ensures |r| == |ents|
    ensures forall i :: 0 <= i < |ents| ==> r[i] == ents[i].text
  {
    seq(|ents|, i requires 0 <= i < |ents| => ents[i].text)
  }

  /** `canonical.get(normalize_key(text), normalize_key(text))`. */
  function KeyOf(canon: map<string, string>, text: string): string
  {
    var nk := NormalizeKey(text);
    if nk in canon then canon[nk] else nk
  }

  /** Whether an entity's score takes over the group's type: it is positive
      and above the best so far, a missing best counting as -1. */
  predicate Beats(best: Option<real>, score: real) {
    score > 0.0 && (best.None? || best.value < score)
  }

  /** The body of the second loop for an entity of an existing group. */
  function Absorb(c: Cluster, e: Entity): Cluster
  {
    var c1 := c.(mentions := c.mentions + [e.text]);
    if Beats(c.best, e.score) then c1.(etype := e.etype, best := Some(e.score)) else c1
  }

  /** A new group takes the text and type of the entity that opens it. */
  function Open(e: Entity): Cluster {
    Cluster(e.text, e.etype, [], None)
  }

  /** One iteration of the second loop, with the entity's key `k`. */
  function Add(g: Groups, k: string, e: Entity): Groups
  {
    if k in g.clusters then Groups(g.order, g.clusters[k := Absorb(g.clusters[k], e)])
    else Groups(g.order + [k], g.clusters[k := Absorb(Open(e), e)])
  }

  /** An entity together with the key it is filed under. */
  datatype Filed = Filed(key: string, ent: Entity)

  /** Every entity with its key. */
  function FileAll(canon: map<string, string>, ents: seq<Entity>): (fs: seq<Filed>)
    ensures |fs| == |ents|
    ensures forall i :: 0 <= i < |ents| ==> fs[i] == Filed(KeyOf(canon, ents[i].text), ents[i])
  {
    seq(|ents|, i requires 0 <= i < |ents| => Filed(KeyOf(canon, ents[i].text), ents[i]))
  }

  /** The second loop of `build_entity_map`, once each entity's key is known. */
  function Aggregate(fs: seq<Filed>): Groups
    decreases |fs|
  {
    if |fs| == 0 then Groups([], map[])
    else
      var n := |fs| - 1;
      Add(Aggregate(fs[..n]), fs[n].key, fs[n].ent)
  }

  /** Reference: the entities filed under `k`, in input order. */
  function MembersOf(fs: seq<Filed>, k: string): seq<Entity>
    decreases |fs|
  {
    if |fs| == 0 then []
    else
      var n := |fs| - 1;
      MembersOf(fs[..n], k) + (if fs[n].key == k then [fs[n].ent] else [])
  }

  /** Reference: the group a non-empty list of members forms on its own. */
  function Gather(m: seq<Entity>): Cluster
    requires |m| > 0
    decreases |m|
  {
    if |m| == 1 then Absorb(Open(m[0]), m[0])
    else Absorb(Gather(m[..|m| - 1]), m[|m| - 1])
  }

  /** The returned entry for a group: its texts sorted without repeats and
      counted with repeats. */
  function Summarise(c: Cluster): (r: CanonicalEntity)
    ensures r.canonical == c.canonical && r.etype == c.etype && r.count == |c.mentions|
    ensures StrictlySorted(r.mentions) && forall y :: y in r.mentions <==> y in c.mentions
  {
    CanonicalEntity(c.canonical, c.etype, SortedSet(c.mentions), |c.mentions|)
  }

  /** The final loop of `build_entity_map`. */
  function Finish(g: Groups): (m: EntityMap)
    ensures m.order == g.order
    ensures forall k :: k in m.entries <==> k in g.clusters
    ensures forall k :: k in g.clusters ==> m.entries[k] == Summarise(g.clusters[k])
  {
    EntityMap(g.order, map k | k in g.clusters :: Summarise(g.clusters[k]))
  }

  /** `build_entity_map(all_entities, sim_threshold)`. */
  function BuildEntityMap(ents: seq<Entity>, extractOne: Matcher, threshold: real): EntityMap
  {
    var canon := AssignKeys(Texts(ents), extractOne, threshold).canon;
    Finish(Aggregate(FileAll(canon, ents)))
  }

  // ---------------------------------------------------------------------
  // The members of a key

  /** A key has members exactly when some entity is filed under it. */
  lemma {:induction false} MembersOfNonEmpty(fs: seq<Filed>, k: string)
    ensures |MembersOf(fs, k)| > 0 <==> exists i :: 0 <= i < |fs| && fs[i].key == k
    decreases |fs|
  {
    if |fs| > 0 {
      var n := |fs| - 1;
      MembersOfNonEmpty(fs[..n], k);
      if exists i :: 0 <= i < |fs| && fs[i].key == k {
        var i :| 0 <= i < |fs| && fs[i].key == k;
        if i < n {
          assert fs[..n][i] == fs[i];
        }
      }
      if exists i :: 0 <= i < n && fs[..n][i].key == k {
        var i :| 0 <= i < n && fs[..n][i].key == k;
        assert fs[..n][i] == fs[i];
      }
    }
  }

  /** The members of a key are exactly the entities filed under it. */
  lemma {:induction false} MembersOfElements(fs: seq<Filed>, k: string)
    ensures forall x :: x in MembersOf(fs, k) <==> Filed(k, x) in fs
    decreases |fs|
  {
    if |fs| > 0 {
      var n := |fs| - 1;
      MembersOfElements(fs[..n], k);
      assert fs == fs[..n] + [fs[n]];
    }
  }

  // ---------------------------------------------------------------------
  // One group on its own

  lemma GatherSnoc(m: seq<Entity>, e: Entity)
    requires |m| > 0
    ensures Gather(m + [e]) == Absorb(Gather(m), e)
  {
    assert (m + [e])[..|m|] == m;
  }

  /** A group keeps the text of its first member as its canonical form and
      lists every member's text, in order. */
  lemma {:induction false} GatherTexts(m: seq<Entity>)
    requires |m| > 0
    ensures Gather(m).canonical == m[0].text
    ensures Gather(m).mentions == Texts(m)
    decreases |m|
  {
    if |m| > 1 {
      var n := |m| - 1;
      GatherTexts(m[..n]);
      assert Texts(m) == Texts(m[..n]) + [m[n].text];
    }
  }

  /** No member has a positive score. */
  ghost predicate NoPositive(m: seq<Entity>) {
    forall j :: 0 <= j < |m| ==> m[j].score <= 0.0
  }

  /** Member `i` has the highest score, a positive one, and is the first to
      reach it. */
  ghost predicate FirstBest(m: seq<Entity>, i: int) {
    && 0 <= i < |m| && m[i].score > 0.0
    && (forall j :: 0 <= j < |m| ==> m[j].score <= m[i].score)
    && (forall j :: 0 <= j < i ==> m[j].score < m[i].score)
  }

  /** The type rule for `m`, as `GatherType` states it. */
  ghost predicate TypeRule(m: seq<Entity>)
    requires |m| > 0
  {
    && (NoPositive(m) ==> Gather(m).best.None? && Gather(m).etype == m[0].etype)
    && (!NoPositive(m) ==> exists i :: FirstBest(m, i) && Gather(m).best == Some(m[i].score) && Gather(m).etype == m[i].etype)
  }

  /** Adding a member to a group without a positive score so far. */
  lemma TypeStepFromNone(m: seq<Entity>)
    requires |m| > 1
    requires var p := m[..|m| - 1]; NoPositive(p) && Gather(p).best.None? && Gather(p).etype == m[0].etype
    ensures TypeRule(m)
  {
    var n := |m| - 1;
    var p := m[..n];
    assert Gather(m) == Absorb(Gather(p), m[n]);
    assert forall j :: 0 <= j < n ==> m[j] == p[j];
    if m[n].score > 0.0 {
      assert FirstBest(m, n);
    } else {
      assert NoPositive(m);
    }
  }

  /** Adding a member to a group whose best so far is member `i`. */
  lemma TypeStepFromBest(m: seq<Entity>, i: int)
    requires |m| > 1
    requires var p := m[..|m| - 1];
      FirstBest(p, i) && Gather(p).best == Some(p[i].score) && Gather(p).etype == p[i].etype
    ensures TypeRule(m)
  {
    var n := |m| - 1;
    var p := m[..n];
    assert Gather(m) == Absorb(Gather(p), m[n]);
    assert forall j :: 0 <= j < n ==> m[j] == p[j];
    assert !NoPositive(m) by { assert m[i].score > 0.0; }
    if Beats(Gather(p).best, m[n].score) {
      assert FirstBest(m, n);
    } else {
      assert FirstBest(m, i);
    }
  }

  /** The type rule: without a positive score a group keeps the type of its
      first member; otherwise it takes the type of the first member with the
      highest score, a later tie not taking over. */
  lemma {:induction false} GatherType(m: seq<Entity>)
    requires |m| > 0
    ensures NoPositive(m) ==> Gather(m).best.None? && Gather(m).etype == m[0].etype
    ensures !NoPositive(m) ==> exists i :: FirstBest(m, i) && Gather(m).best == Some(m[i].score) && Gather(m).etype == m[i].etype
    decreases |m|
  {
    var n := |m| - 1;
    if n == 0 {
      if !NoPositive(m) {
        assert FirstBest(m, 0);
      }
    } else {
      var p := m[..n];
      GatherType(p);
      assert p[0] == m[0];
      if NoPositive(p) {
        TypeStepFromNone(m);
      } else {
        var i :| FirstBest(p, i) && Gather(p).best == Some(p[i].score) && Gather(p).etype == p[i].etype;
        TypeStepFromBest(m, i);
      }
      assert TypeRule(m);
    }
  }

  // ---------------------------------------------------------------------
  // The loop

  /** Each key is recorded once in `order`, and `order` lists exactly the
      groups. */
  ghost predicate WellOrdered(g: Groups) {
    && (forall i, j :: 0 <= i < j < |g.order| ==> g.order[i] != g.order[j])
    && (forall k :: k in g.clusters <==> k in g.order)
  }

  /** The groups are those of the reference: a key has a group exactly when
      it has members, and its group is what its members form on their own. */
  lemma {:induction false} AggregateGroups(fs: seq<Filed>)
    ensures var g := Aggregate(fs);
      forall k :: (k in g.clusters <==> |MembersOf(fs, k)| > 0)
               && (k in g.clusters ==> g.clusters[k] == Gather(MembersOf(fs, k)))
    decreases |fs|
  {
    if |fs| > 0 {
      var n := |fs| - 1;
      var e := fs[n].ent;
      var ke := fs[n].key;
      var prev := Aggregate(fs[..n]);
      AggregateGroups(fs[..n]);
      var g := Aggregate(fs);
      assert g == Add(prev, ke, e);
      forall k ensures (k in g.clusters <==> |MembersOf(fs, k)| > 0)
                    && (k in g.clusters ==> g.clusters[k] == Gather(MembersOf(fs, k)))
      {
        var mp := MembersOf(fs[..n], k);
        if k == ke {
          assert MembersOf(fs, k) == mp + [e];
          if ke in prev.clusters {
            GatherSnoc(mp, e);
          } else {
            assert mp + [e] == [e];
          }
        } else {
          assert MembersOf(fs, k) == mp;
        }
      }
    }
  }

  lemma {:induction false} AggregateWellOrdered(fs: seq<Filed>)
    ensures WellOrdered(Aggregate(fs))
    decreases |fs|
  {
    if |fs| > 0 {
      var n := |fs| - 1;
      var ke := fs[n].key;
      var prev := Aggregate(fs[..n]);
      AggregateWellOrdered(fs[..n]);
      var g := Aggregate(fs);
      assert g == Add(prev, ke, fs[n].ent);
      if ke !in prev.clusters {
        assert g.order == prev.order + [ke];
        assert ke !in prev.order;
        forall i, j | 0 <= i < j < |g.order| ensures g.order[i] != g.order[j] {
          assert g.order[i] == prev.order[i];
          if j < |prev.order| { assert g.order[j] == prev.order[j]; }
        }
        assert forall k :: k in g.order <==> k in prev.order || k == ke;
      }
    }
  }

  /** The number of texts recorded over the groups listed in `order`. */
  function CountSum(order: seq<string>, clusters: map<string, Cluster>): int
    decreases |order|
  {
    if |order| == 0 then 0
    else (if order[0] in clusters then |clusters[order[0]].mentions| else 0) + CountSum(order[1..], clusters)
  }

  lemma {:induction false} CountSumSnoc(order: seq<string>, clusters: map<string, Cluster>, k: string)
    ensures CountSum(order + [k], clusters)
         == CountSum(order, clusters) + (if k in clusters then |clusters[k].mentions| else 0)
    decreases |order|
  {
    if |order| == 0 {
      assert order + [k] == [k];
      assert [k][1..] == [];
    } else {
      assert (order + [k])[1..] == order[1..] + [k];
      CountSumSnoc(order[1..], clusters, k);
    }
  }

  /** Changing a group `order` does not list leaves the sum alone. */
  lemma {:induction false} CountSumOther(order: seq<string>, clusters: map<string, Cluster>, k: string, c: Cluster)
    requires k !in order
    ensures CountSum(order, clusters[k := c]) == CountSum(order, clusters)
    decreases |order|
  {
    if |order| > 0 {
      assert k !in order[1..];
      CountSumOther(order[1..], clusters, k, c);
    }
  }

  /** One more text in a group listed once raises the sum by one. */
  lemma {:induction false} CountSumBump(order: seq<string>, clusters: map<string, Cluster>, k: string, c: Cluster)
    requires k in clusters && |c.mentions| == |clusters[k].mentions| + 1
    requires k in order
    requires forall i, j :: 0 <= i < j < |order| ==> order[i] != order[j]
    ensures CountSum(order, clusters[k := c]) == CountSum(order, clusters) + 1
    decreases |order|
  {
    if order[0] == k {
      assert k !in order[1..] by {
        forall j | 1 <= j < |order| ensures order[j] != k { }
      }
      CountSumOther(order[1..], clusters, k, c);
    } else {
      assert forall i, j :: 0 <= i < j < |order[1..]| ==> order[1..][i] != order[1..][j] by {
        forall i, j | 0 <= i < j < |order[1..]| ensures order[1..][i] != order[1..][j] {
          assert order[1..][i] == order[i + 1] && order[1..][j] == order[j + 1];
        }
      }
      CountSumBump(order[1..], clusters, k, c);
    }
  }

  /** Every entity is counted once: the group sizes add up to the number of
      entities. */
  lemma {:induction false} AggregateTotal(fs: seq<Filed>)
    ensures var g := Aggregate(fs); CountSum(g.order, g.clusters) == |fs|
    decreases |fs|
  {
    if |fs| > 0 {
      var n := |fs| - 1;
      var e := fs[n].ent;
      var ke := fs[n].key;
      var prev := Aggregate(fs[..n]);
      AggregateTotal(fs[..n]);
      AggregateWellOrdered(fs[..n]);
      var g := Aggregate(fs);
      assert g == Add(prev, ke, e);
      if ke in prev.clusters {
        CountSumBump(prev.order, prev.clusters, ke, Absorb(prev.clusters[ke], e));
      } else {
        assert ke !in prev.order;
        var c := Absorb(Open(e), e);
        CountSumOther(prev.order, prev.clusters, ke, c);
        CountSumSnoc(prev.order, prev.clusters[ke := c], ke);
      }
    }
  }

  // ---------------------------------------------------------------------
  // The returned map

  /** The entries of `build_entity_map`: one per canonical key that some
      entity is filed under; each keeps the first member's text, the number
      of members, and their texts sorted without repeats. */
  lemma BuildEntityMapEntries(ents: seq<Entity>, extractOne: Matcher, threshold: real, k: string)
    ensures var canon := AssignKeys(Texts(ents), extractOne, threshold).canon;
      var m := BuildEntityMap(ents, extractOne, threshold);
      var ms := MembersOf(FileAll(canon, ents), k);
      && (k in m.entries <==> exists i :: 0 <= i < |ents| && KeyOf(canon, ents[i].text) == k)
      && (k in m.entries ==>
            && |ms| > 0
            && m.entries[k].canonical == ms[0].text
            && m.entries[k].count == |ms|
            && StrictlySorted(m.entries[k].mentions)
            && (forall y :: y in m.entries[k].mentions <==> exists x :: x in ms && x.text == y))
  {
    var canon := AssignKeys(Texts(ents), extractOne, threshold).canon;
    var fs := FileAll(canon, ents);
    FinishEntry(fs, k);
    assert (exists i :: 0 <= i < |fs| && fs[i].key == k) <==> exists i :: 0 <= i < |ents| && KeyOf(canon, ents[i].text) == k;
  }

  /** The entry for `k` of the map built from filed entities `fs`. */
  lemma FinishEntry(fs: seq<Filed>, k: string)
    ensures var m := Finish(Aggregate(fs));
      var ms := MembersOf(fs, k);
      && (k in m.entries <==> exists i :: 0 <= i < |fs| && fs[i].key == k)
      && (k in m.entries ==>
            && |ms| > 0
            && m.entries[k].canonical == ms[0].text
            && m.entries[k].count == |ms|
            && StrictlySorted(m.entries[k].mentions)
            && (forall y :: y in m.entries[k].mentions <==> exists x :: x in ms && x.text == y))
  {
    var ms := MembersOf(fs, k);
    AggregateGroups(fs);
    MembersOfNonEmpty(fs, k);
    if |ms| > 0 {
      GatherTexts(ms);
      var t := Texts(ms);
      forall y ensures y in t <==> exists x :: x in ms && x.text == y {
        if y in t {
          var i :| 0 <= i < |t| && t[i] == y;
          assert ms[i] in ms;
        }
      }
    }
  }

  /** Every entity's text is among the mentions of the entry it is filed
      under. */
  lemma EntityMentioned(ents: seq<Entity>, extractOne: Matcher, threshold: real, x: Entity)
    requires x in ents
    ensures var m := BuildEntityMap(ents, extractOne, threshold);
      exists k :: k in m.entries && x.text in m.entries[k].mentions
  {
    var j :| 0 <= j < |ents| && ents[j] == x;
    var canon := AssignKeys(Texts(ents), extractOne, threshold).canon;
    var fs := FileAll(canon, ents);
    var k := fs[j].key;
    assert fs[j] == Filed(k, x) && fs[j] in fs;
    MembersOfElements(fs, k);
    assert x in MembersOf(fs, k);
    FinishEntry(fs, k);
    var m := Finish(Aggregate(fs));
    assert k in m.entries && x.text in m.entries[k].mentions;
    assert BuildEntityMap(ents, extractOne, threshold) == m;
  }

  /** The type of an entry follows the type rule over its members. */
  lemma BuildEntityMapType(ents: seq<Entity>, extractOne: Matcher, threshold: real, k: string)
    ensures var canon := AssignKeys(Texts(ents), extractOne, threshold).canon;
      var m := BuildEntityMap(ents, extractOne, threshold);
      var ms := MembersOf(FileAll(canon, ents), k);
      k in m.entries ==>
        && |ms| > 0
        && (NoPositive(ms) ==> m.entries[k].etype == ms[0].etype)
        && (!NoPositive(ms) ==> exists i :: FirstBest(ms, i) && m.entries[k].etype == ms[i].etype)
  {
    var canon := AssignKeys(Texts(ents), extractOne, threshold).canon;
    var fs := FileAll(canon, ents);
    var ms := MembersOf(fs, k);
    AggregateGroups(fs);
    if |ms| > 0 {
      GatherType(ms);
    }
  }

  /** The keys come in order of first appearance, each once, and the group
      sizes add up to the number of entities. */
  lemma BuildEntityMapTotal(ents: seq<Entity>, extractOne: Matcher, threshold: real)
    ensures var m := BuildEntityMap(ents, extractOne, threshold);
      && (forall i, j :: 0 <= i < j < |m.order| ==> m.order[i] != m.order[j])
      && (forall k :: k in m.entries <==> k in m.order)
      && EntryCountSum(m.order, m.entries) == |ents|
  {
    var canon := AssignKeys(Texts(ents), extractOne, threshold).canon;
    var fs := FileAll(canon, ents);
    var g := Aggregate(fs);
    AggregateWellOrdered(fs);
    AggregateTotal(fs);
    EntryCountSumFinish(g.order, g);
  }

  /** The sum of the `count` fields over the entries listed in `order`. */
  function EntryCountSum(order: seq<string>, entries: map<string, CanonicalEntity>): int
    decreases |order|
  {
    if |order| == 0 then 0
    else (if order[0] in entries then entries[order[0]].count else 0) + EntryCountSum(order[1..], entries)
  }

  lemma {:induction false} EntryCountSumFinish(order: seq<string>, g: Groups)
    ensures EntryCountSum(order, Finish(g).entries) == CountSum(order, g.clusters)
    decreases |order|
  {
    if |order| > 0 {
      EntryCountSumFinish(order[1..], g);
    }
  }

  /** No entity, no entry. */
  lemma BuildEntityMapEmpty(extractOne: Matcher, threshold: real)
    ensures BuildEntityMap([], extractOne, threshold) == EntityMap([], map[])
  {
    var m := BuildEntityMap([], extractOne, threshold);
    assert m.entries.Keys == {};
  }

  /** Entities whose texts normalise to the same key are filed under the
      same entry. */
  lemma SameKeySameEntry(ents: seq<Entity>, extractOne: Matcher, threshold: real, i: int, j: int)
    requires 0 <= i < |ents| && 0 <= j < |ents|
    requires NormalizeKey(ents[i].text) == NormalizeKey(ents[j].text)
    ensures var canon := AssignKeys(Texts(ents), extractOne, threshold).canon;
      var k := KeyOf(canon, ents[i].text);
      var ms := MembersOf(FileAll(canon, ents), k);
      k in BuildEntityMap(ents, extractOne, threshold).entries && ents[i] in ms && ents[j] in ms
  {
    var canon := AssignKeys(Texts(ents), extractOne, threshold).canon;
    var fs := FileAll(canon, ents);
    var k := KeyOf(canon, ents[i].text);
    assert fs[i] == Filed(k, ents[i]) && fs[i] in fs;
    assert fs[j] == Filed(k, ents[j]) && fs[j] in fs;
    MembersOfElements(fs, k);
    FinishEntry(fs, k);
    assert BuildEntityMap(ents, extractOne, threshold) == Finish(Aggregate(fs));
  }

  /** An entry's key is itself the normalised text of some entity: the
      registry only ever points at keys it holds. */
  lemma EntryKeysAreKeys(ents: seq<Entity>, extractOne: Matcher, threshold: real, k: string)
    requires PicksAChoice(extractOne)
    requires k in BuildEntityMap(ents, extractOne, threshold).entries
    ensures exists i :: 0 <= i < |ents| && NormalizeKey(ents[i].text) == k
  {
    var texts := Texts(ents);
    var g := AssignKeys(texts, extractOne, threshold);
    BuildEntityMapEntries(ents, extractOne, threshold, k);
    var i :| 0 <= i < |ents| && KeyOf(g.canon, ents[i].text) == k;
    KeyOfRegistered(texts, extractOne, threshold, i);
    AssignKeysDomain(texts, extractOne, threshold);
    var j :| 0 <= j < |texts| && NormalizeKey(texts[j]) == k;
  }

  /** So an entry's key holds no capital, no surrounding whitespace and no
      whitespace run. */
  lemma EntryKeyShape(ents: seq<Entity>, extractOne: Matcher, threshold: real, k: string)
    requires PicksAChoice(extractOne)
    requires k in BuildEntityMap(ents, extractOne, threshold).entries
    ensures forall c :: c in k ==> !Text.IsUpper(c)
    ensures Text.Stripped(k, Text.IsSpace) && Text.NoAdjacent(k, Text.IsSpace)
  {
    EntryKeysAreKeys(ents, extractOne, threshold, k);
    var i :| 0 <= i < |ents| && NormalizeKey(ents[i].text) == k;
    NormalizeKeyShape(ents[i].text);
  }

  /** With a matcher that picks among its choices, a text's key is a
      registered key. */
  lemma KeyOfRegistered(texts: seq<string>, extractOne: Matcher, threshold: real, i: int)
    requires PicksAChoice(extractOne) && 0 <= i < |texts|
    ensures var g := AssignKeys(texts, extractOne, threshold); KeyOf(g.canon, texts[i]) in g.canon
  {
    var g := AssignKeys(texts, extractOne, threshold);
    AssignKeysDomain(texts, extractOne, threshold);
    AssignKeysValid(texts, extractOne, threshold);
    var nk := NormalizeKey(texts[i]);
    assert nk in g.canon && nk in g.keys;
    var p :| 0 <= p < |g.keys| && g.keys[p] == nk;
    assert g.canon[nk] in g.keys[..p + 1];
  }
}
