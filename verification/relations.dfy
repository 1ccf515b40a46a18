/**
  `extract_relations`: (subject, relation, object) triples for one speech.

  With a text-to-text generator, the speech is cut into chunks of at most
  `maxLen` characters, the first generated text of each chunk is searched
  for `<triplet> s | r | o </triplet>` groups, and each field is stripped.
  Without one, every question of the form "what steps ... on X?" gives the
  triple `("MP", "asks_about", X)` with `X` trimmed of ` .;:)`.

  The generator, the triplet pattern and the question pattern are
  parameters: the generator maps a chunk to its list of generated texts,
  the two patterns map a text to their groups, match by match.
 */
module Relations {
  import opened Text
  import opened Options
  import opened Slicing

  datatype Triple = Triple(subj: string, rel: string, obj: string)

  /** `[text[i:i+maxLen] for i in range(0, len(text), maxLen)]`. A zero
      step makes `range` raise, hence the precondition; a negative step
      gives an empty range. */
  function Chunks(text: string, maxLen: int): (r: seq<string>)
    requires maxLen != 0
    ensures maxLen < 0 || |text| == 0 ==> r == []
    decreases |text|
  {
    if maxLen < 0 || |text| == 0 then []
    else if |text| <= maxLen then [text]
    else [text[..maxLen]] + Chunks(text[maxLen..], maxLen)
  }

  /** The chunks are the text cut into pieces: put back together they give
      the text, each holds between 1 and `maxLen` characters, and all but
      the last hold exactly `maxLen`. */
  lemma {:induction false} ChunksCover(text: string, maxLen: int)
    requires maxLen > 0
    ensures Concat(Chunks(text, maxLen)) == text
    ensures forall i :: 0 <= i < |Chunks(text, maxLen)| ==> 1 <= |Chunks(text, maxLen)[i]| <= maxLen
    ensures forall i :: 0 <= i < |Chunks(text, maxLen)| - 1 ==> |Chunks(text, maxLen)[i]| == maxLen
    decreases |text|
  {
    if |text| > maxLen {
      var rest := Chunks(text[maxLen..], maxLen);
      ChunksCover(text[maxLen..], maxLen);
      var r := Chunks(text, maxLen);
      assert r == [text[..maxLen]] + rest;
      assert forall i :: 1 <= i < |r| ==> r[i] == rest[i - 1];
      assert r[1..] == rest;
      assert text[..maxLen] + text[maxLen..] == text;
    } else if |text| > 0 {
      assert Chunks(text, maxLen)[1..] == [];
    }
  }

  /** There are `ceil(|text| / maxLen)` chunks: just enough to hold the text. */
  lemma {:induction false} ChunksCount(text: string, maxLen: int)
    requires maxLen > 0 && |text| > 0
    ensures var n := |Chunks(text, maxLen)|; (n - 1) * maxLen < |text| <= n * maxLen
    decreases |text|
  {
    if |text| > maxLen {
      ChunksCount(text[maxLen..], maxLen);
      var m := |Chunks(text[maxLen..], maxLen)|;
      assert |Chunks(text, maxLen)| == m + 1;
      assert (m - 1) * maxLen + maxLen == m * maxLen;
      assert m * maxLen + maxLen == (m + 1) * maxLen;
    }
  }

  /** Cutting at a multiple of `maxLen` does not change the chunks. */
  lemma {:induction false} ChunksAppend(a: string, b: string, maxLen: int, k: nat)
    requires maxLen > 0 && |a| == k * maxLen
    ensures Chunks(a + b, maxLen) == Chunks(a, maxLen) + Chunks(b, maxLen)
    decreases k
  {
    if k == 0 {
      assert a + b == b;
    } else if |b| == 0 {
      assert a + b == a;
    } else {
      var s := a + b;
      assert |a| >= maxLen;
      assert s[..maxLen] == a[..maxLen];
      assert s[maxLen..] == a[maxLen..] + b;
      assert |a[maxLen..]| == (k - 1) * maxLen;
      ChunksAppend(a[maxLen..], b, maxLen, k - 1);
      if |a| == maxLen {
        assert a[maxLen..] == [];
        assert a[..maxLen] == a;
      }
    }
  }

  /** The characters `.strip(" .;:)")` removes from a topic. */
  predicate IsTopicTrim(c: char) {
    c == ' ' || c == '.' || c == ';' || c == ':' || c == ')'
  }

  /** The triple the rule-based fallback records for one question topic. */
  function AskTriple(topic: string): (t: Triple)
    ensures t.subj == "MP" && t.rel == "asks_about"
    ensures Stripped(t.obj, IsTopicTrim)
    ensures IsStripOfBy(t.obj, topic, IsTopicTrim)
  {
    StripByIsStripOf(topic, IsTopicTrim);
    Triple("MP", "asks_about", StripBy(topic, IsTopicTrim))
  }

  /** The fallback: one triple per question match, in match order. */
  function FallbackTriples(topics: seq<string>): (r: seq<Triple>)
    ensures |r| == |topics|
    ensures forall i :: 0 <= i < |topics| ==> r[i] == AskTriple(topics[i])
  {
    seq(|topics|, i requires 0 <= i < |topics| => AskTriple(topics[i]))
  }

  /** The three fields, each stripped of surrounding whitespace. */
  function StripTriple(t: Triple): (r: Triple)
    ensures IsStripOf(r.subj, t.subj) && IsStripOf(r.rel, t.rel) && IsStripOf(r.obj, t.obj)
  {
    StripIsStripOf(t.subj);
    StripIsStripOf(t.rel);
    StripIsStripOf(t.obj);
    Triple(Strip(t.subj), Strip(t.rel), Strip(t.obj))
  }

  ghost predicate StrippedTriple(t: Triple) {
    Stripped(t.subj, IsSpace) && Stripped(t.rel, IsSpace) && Stripped(t.obj, IsSpace)
  }

  /** Each field of `r` is the field of `t` without surrounding whitespace. */
  ghost predicate StripsTo(t: Triple, r: Triple) {
    IsStripOf(r.subj, t.subj) && IsStripOf(r.rel, t.rel) && IsStripOf(r.obj, t.obj)
  }

  /** The triples of one chunk: none when the generator produced nothing,
      otherwise those found in its first generated text, field by field
      without surrounding whitespace, in match order. */
  function ChunkTriples(outputs: seq<string>, triplets: string -> seq<Triple>): (r: seq<Triple>)
    ensures forall t :: t in r ==> StrippedTriple(t)
    ensures |outputs| == 0 ==> r == []
    ensures |outputs| > 0 ==> |r| == |triplets(outputs[0])|
    ensures |outputs| > 0 ==> forall i :: 0 <= i < |r| ==> StripsTo(triplets(outputs[0])[i], r[i])
  {
    if |outputs| == 0 then []
    else
      var found := triplets(outputs[0]);
      seq(|found|, i requires 0 <= i < |found| => StripTriple(found[i]))
  }

  /** The generator path over a list of chunks, in chunk order. */
  function GeneratedTriples(gen: string -> seq<string>, triplets: string -> seq<Triple>, chunks: seq<string>): (r: seq<Triple>)
    ensures forall t :: t in r ==> StrippedTriple(t)
    ensures |chunks| == 0 ==> r == []
  {
    if |chunks| == 0 then []
    else ChunkTriples(gen(chunks[0]), triplets) + GeneratedTriples(gen, triplets, chunks[1..])
  }

  lemma {:induction false} GeneratedTriplesAppend(gen: string -> seq<string>, triplets: string -> seq<Triple>, c: seq<string>, d: seq<string>)
    ensures GeneratedTriples(gen, triplets, c + d) == GeneratedTriples(gen, triplets, c) + GeneratedTriples(gen, triplets, d)
    decreases |c|
  {
    if |c| == 0 {
      assert c + d == d;
    } else {
      assert (c + d)[0] == c[0];
      assert (c + d)[1..] == c[1..] + d;
      GeneratedTriplesAppend(gen, triplets, c[1..], d);
    }
  }

  /** `extract_relations(gen, text, max_len)`: `gen` is the generator, if
      one could be built; `topics` the question pattern's first group, match
      by match; `triplets` the triplet pattern's three groups. */
  function ExtractRelations(gen: Option<string -> seq<string>>, topics: string -> seq<string>,
                            triplets: string -> seq<Triple>, text: string, maxLen: int): (r: seq<Triple>)
    requires maxLen != 0
    ensures gen.None? ==> |r| == |topics(text)|
    ensures gen.None? ==> forall i :: 0 <= i < |r| ==>
              r[i].subj == "MP" && r[i].rel == "asks_about" && IsStripOfBy(r[i].obj, topics(text)[i], IsTopicTrim)
                && Stripped(r[i].obj, IsTopicTrim)
    ensures gen.Some? ==> forall t :: t in r ==> StrippedTriple(t)
    ensures gen.Some? && (|text| == 0 || maxLen < 0) ==> r == []
  {
    var chunks := Chunks(text, maxLen);
    match gen
    case None => FallbackTriples(topics(text))
    case Some(g) => GeneratedTriples(g, triplets, chunks)
  }

  /** With a generator, relation extraction works chunk by chunk: splitting
      the speech at a multiple of `maxLen` splits the triples the same way. */
  lemma RelationsAppend(g: string -> seq<string>, topics: string -> seq<string>, triplets: string -> seq<Triple>,
                        a: string, b: string, maxLen: int)
    requires maxLen > 0 && |a| % maxLen == 0
    ensures ExtractRelations(Some(g), topics, triplets, a + b, maxLen)
         == ExtractRelations(Some(g), topics, triplets, a, maxLen) + ExtractRelations(Some(g), topics, triplets, b, maxLen)
  {
    var k := |a| / maxLen;
    assert |a| == k * maxLen;
    ChunksAppend(a, b, maxLen, k);
    GeneratedTriplesAppend(g, triplets, Chunks(a, maxLen), Chunks(b, maxLen));
  }

  /** A speech of at most `maxLen` characters is one chunk: the triples are
      those of the generator's first output for the whole speech. */
  lemma ShortSpeechOneChunk(g: string -> seq<string>, topics: string -> seq<string>, triplets: string -> seq<Triple>,
                            text: string, maxLen: int)
    requires 0 < |text| <= maxLen
    ensures ExtractRelations(Some(g), topics, triplets, text, maxLen) == ChunkTriples(g(text), triplets)
  {
    assert Chunks(text, maxLen) == [text];
    assert GeneratedTriples(g, triplets, [text]) == ChunkTriples(g(text), triplets) + [];
  }
}
