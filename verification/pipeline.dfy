/**
  The per-debate loop of `process_pdf`: the cleaned document is cut into
  debates; each debate into speeches; each speech gets its speaker fields,
  its entities (none for an empty speech) and its relation triples; and the
  entities of all speeches of a debate are merged into one entity map.

  The patterns and models the loop relies on are given together as a
  `Models` value. Reading the PDF and writing the JSON file are not part of
  the model.
 */
module Pipeline {
  import opened Options
  import opened Text
  import opened Slicing
  import opened Pages
  import opened Segmentation
  import opened Speakers
  import opened Entities
  import opened Relations
  import opened Canonical
  import opened EntityMaps

  /** The patterns and models behind `process_pdf`:
      `headings` is `DEBATE_HEADING_RE.finditer` (start and title group of
      each match), `speakerLines` the starts of `SPEAKER_LINE_RE.finditer`,
      `atLabel` `SPEAKER_LINE_RE.match`, `ner` the token classifier, `gen`
      the relation generator if it could be built, `topics` and `triplets`
      the two patterns of `extract_relations`, and `extractOne` the fuzzy
      matcher. */
  datatype Models = Models(
    headings: string -> seq<HeadingMatch>,
    speakerLines: string -> seq<nat>,
    atLabel: string -> Option<LabelMatch>,
    ner: string -> seq<RawEntity>,
    gen: Option<string -> seq<string>>,
    topics: string -> seq<string>,
    triplets: string -> seq<Triple>,
    extractOne: Matcher)

  /** What every `finditer` delivers: match starts inside the text, in
      increasing order. */
  ghost predicate WellBehaved(md: Models) {
    && (forall s :: Increasing(Starts(md.headings(s)), |s|))
    && (forall s :: Increasing(md.speakerLines(s), |s|))
  }

  /** The default `max_len` of `extract_relations`. */
  const MaxLen: int := 350

  datatype Speech = Speech(speaker: SpeakerMeta, speechText: string, entities: seq<Entity>, relations: seq<Triple>)

  datatype Debate = Debate(title: string, speeches: seq<Speech>, entityMap: EntityMap)

  /** The body of the inner loop of `process_pdf` for one speech. */
  function EnrichSpeech(md: Models, t: SpeechTurn): (r: Speech)
    ensures r.speechText == t.speechText
    ensures |t.speechText| == 0 ==> r.entities == []
    ensures forall x :: x in r.entities ==> |x.text| > 0
    ensures md.gen.None? ==> |r.relations| == |md.topics(t.speechText)|
    ensures md.gen.Some? && |t.speechText| == 0 ==> r.relations == []
  {
    var ents := if |t.speechText| > 0 then CleanEntities(md.ner(t.speechText)) else [];
    Speech(ParseSpeakerMeta(t.speakerRaw), t.speechText, ents, ExtractRelations(md.gen, md.topics, md.triplets, t.speechText, MaxLen))
  }

  /** `all_ents`: the entities of every speech, speech by speech. */
  function AllEntities(speeches: seq<Speech>): (r: seq<Entity>)
    decreases |speeches|
  {
    if |speeches| == 0 then [] else speeches[0].entities + AllEntities(speeches[1..])
  }

  /** One iteration of the outer loop of `process_pdf`. */
  function ProcessDebate(md: Models, sec: Section): (d: Debate)
    requires WellBehaved(md)
    ensures d.title == sec.title
    ensures |d.speeches| <= |md.speakerLines(sec.text)|
  {
    var turns := ParseSpeeches(sec.text, md.speakerLines(sec.text), md.atLabel);
    var speeches := seq(|turns|, i requires 0 <= i < |turns| => EnrichSpeech(md, turns[i]));
    Debate(sec.title, speeches, BuildEntityMap(AllEntities(speeches), md.extractOne, SimThreshold))
  }

  /** The outer loop of `process_pdf` over the debates of a cleaned text. */
  function ProcessText(md: Models, text: string): (ds: seq<Debate>)
    requires WellBehaved(md)
    ensures |md.headings(text)| == 0 ==> |ds| == 1
    ensures |md.headings(text)| > 0 ==> |ds| == |md.headings(text)|
  {
    var sections := SplitDebates(text, md.headings(text));
    seq(|sections|, i requires 0 <= i < |sections| => ProcessDebate(md, sections[i]))
  }

  /** `process_pdf` from the extracted page texts to the list of debates. */
  function ProcessDocument(md: Models, pages: seq<string>): (ds: seq<Debate>)
    requires WellBehaved(md)
    ensures |md.headings(CleanPages(pages))| == 0 ==> |ds| == 1
    ensures |md.headings(CleanPages(pages))| > 0 ==> |ds| == |md.headings(CleanPages(pages))|
  {
    ProcessText(md, CleanPages(pages))
  }

  // ---------------------------------------------------------------------

  /** How a speech is filled in: the speaker fields parse its label, a
      non-empty body gets the cleaned output of the token classifier, and the
      triples are those `extract_relations` finds in the body. */
  lemma EnrichSpeechFields(md: Models, t: SpeechTurn)
    ensures var r := EnrichSpeech(md, t);
      && r.speaker == ParseSpeakerMeta(t.speakerRaw)
      && (|t.speechText| > 0 ==> r.entities == CleanEntities(md.ner(t.speechText)))
      && r.relations == ExtractRelations(md.gen, md.topics, md.triplets, t.speechText, MaxLen)
  {
  }

  /** A debate's speeches are the speeches of its section, each enriched,
      in order; its entity map is built from their entities, speech by
      speech. */
  lemma ProcessDebateSpeeches(md: Models, sec: Section)
    requires WellBehaved(md)
    ensures var d := ProcessDebate(md, sec);
      var turns := ParseSpeeches(sec.text, md.speakerLines(sec.text), md.atLabel);
      && |d.speeches| == |turns|
      && (forall i :: 0 <= i < |turns| ==> d.speeches[i] == EnrichSpeech(md, turns[i]))
      && d.entityMap == BuildEntityMap(AllEntities(d.speeches), md.extractOne, SimThreshold)
  {
  }

  /** When every speaker line's piece re-matches the speaker pattern,
      speech `i` of a debate is read from the piece of speaker line `i`. */
  lemma DebateSpeechAt(md: Models, sec: Section, i: nat)
    requires WellBehaved(md)
    requires var starts := md.speakerLines(sec.text);
      forall j :: 0 <= j < |starts| ==> md.atLabel(Spans(sec.text, starts)[j]).Some?
    requires i < |md.speakerLines(sec.text)|
    ensures var piece := Spans(sec.text, md.speakerLines(sec.text))[i];
      var d := ProcessDebate(md, sec);
      i < |d.speeches| && d.speeches[i] == EnrichSpeech(md, TurnOf(piece, md.atLabel).value)
  {
    ParseSpeechesOrder(sec.text, md.speakerLines(sec.text), md.atLabel);
  }

  /** Debate `i` is the debate of heading `i`: its stripped title over the
      stripped text from that heading to the next. */
  lemma ProcessTextDebate(md: Models, text: string, i: nat)
    requires WellBehaved(md)
    requires i < |md.headings(text)|
    ensures var hs := md.headings(text);
      i < |ProcessText(md, text)| &&
      ProcessText(md, text)[i] == ProcessDebate(md, Section(Strip(hs[i].title), Strip(Spans(text, Starts(hs))[i])))
  {
    var hs := md.headings(text);
    var secs := SplitDebates(text, hs);
    assert secs[i] == Section(Strip(hs[i].title), Strip(Spans(text, Starts(hs))[i]));
  }

  /** Without a heading, the one debate covers the whole text. */
  lemma ProcessTextNoHeading(md: Models, text: string)
    requires WellBehaved(md)
    requires md.headings(text) == []
    ensures ProcessText(md, text) == [ProcessDebate(md, Section(FallbackTitle, text))]
  {
  }

  /** `all_ents` is built speech by speech, so the entities of speech `i`
      sit after those of the speeches before it and before those after it. */
  lemma {:induction false} AllEntitiesAppend(a: seq<Speech>, b: seq<Speech>)
    ensures AllEntities(a + b) == AllEntities(a) + AllEntities(b)
    decreases |a|
  {
    if |a| > 0 {
      assert (a + b)[1..] == a[1..] + b;
      AllEntitiesAppend(a[1..], b);
    } else {
      assert a + b == b;
    }
  }

  lemma AllEntitiesAt(speeches: seq<Speech>, i: nat)
    requires i < |speeches|
    ensures AllEntities(speeches)
         == AllEntities(speeches[..i]) + speeches[i].entities + AllEntities(speeches[i + 1..])
  {
    assert speeches == speeches[..i] + speeches[i..];
    AllEntitiesAppend(speeches[..i], speeches[i..]);
    assert speeches[i..][1..] == speeches[i + 1..];
  }

  /** An entity is among all entities exactly when some speech holds it. */
  lemma {:induction false} AllEntitiesMember(speeches: seq<Speech>, x: Entity)
    ensures x in AllEntities(speeches) <==> exists i :: 0 <= i < |speeches| && x in speeches[i].entities
    decreases |speeches|
  {
    if |speeches| > 0 {
      AllEntitiesMember(speeches[1..], x);
      if exists i :: 0 <= i < |speeches| && x in speeches[i].entities {
        var i :| 0 <= i < |speeches| && x in speeches[i].entities;
        if i > 0 {
          assert speeches[1..][i - 1] == speeches[i];
        }
      }
      if exists i :: 0 <= i < |speeches[1..]| && x in speeches[1..][i].entities {
        var i :| 0 <= i < |speeches[1..]| && x in speeches[1..][i].entities;
        assert speeches[1..][i] == speeches[i + 1];
      }
    }
  }

  /** The number of entities over all speeches. */
  function EntityCount(speeches: seq<Speech>): (n: nat)
    decreases |speeches|
  {
    if |speeches| == 0 then 0 else |speeches[0].entities| + EntityCount(speeches[1..])
  }

  lemma {:induction false} AllEntitiesLength(speeches: seq<Speech>)
    ensures |AllEntities(speeches)| == EntityCount(speeches)
    decreases |speeches|
  {
    if |speeches| > 0 {
      AllEntitiesLength(speeches[1..]);
    }
  }

  /** The entity map of a debate accounts for every entity of its speeches
      once: the counts add up to the number of entities found. */
  lemma DebateEntityTotal(md: Models, sec: Section)
    requires WellBehaved(md)
    ensures var d := ProcessDebate(md, sec);
      EntryCountSum(d.entityMap.order, d.entityMap.entries) == EntityCount(d.speeches)
  {
    var d := ProcessDebate(md, sec);
    BuildEntityMapTotal(AllEntities(d.speeches), md.extractOne, SimThreshold);
    AllEntitiesLength(d.speeches);
  }

  /** Every entity of every speech of a debate shows up among the mentions
      of some entry of the debate's entity map. */
  lemma DebateEntityMentioned(md: Models, sec: Section, i: int, x: Entity)
    requires WellBehaved(md)
    requires 0 <= i < |ProcessDebate(md, sec).speeches|
    requires x in ProcessDebate(md, sec).speeches[i].entities
    ensures var m := ProcessDebate(md, sec).entityMap;
      exists k :: k in m.entries && x.text in m.entries[k].mentions
  {
    var d := ProcessDebate(md, sec);
    AllEntitiesMember(d.speeches, x);
    EntityMentioned(AllEntities(d.speeches), md.extractOne, SimThreshold, x);
  }

  /** Each speech of a debate was read from a speaker line; when every piece
      re-matches the speaker pattern there is one speech per line. */
  lemma DebateSpeechCount(md: Models, sec: Section)
    requires WellBehaved(md)
    requires var starts := md.speakerLines(sec.text);
      forall i :: 0 <= i < |starts| ==> md.atLabel(Spans(sec.text, starts)[i]).Some?
    ensures |ProcessDebate(md, sec).speeches| == |md.speakerLines(sec.text)|
  {
    ParseSpeechesCount(sec.text, md.speakerLines(sec.text), md.atLabel);
  }

  /** An empty speech has no entities, and with a generator no relations. */
  lemma EmptySpeech(md: Models, raw: string)
    requires md.gen.Some?
    ensures var r := EnrichSpeech(md, SpeechTurn(raw, ""));
      r.entities == [] && r.relations == [] && r.speaker == ParseSpeakerMeta(raw)
  {
  }

  /** Increasing starts inside a text of length `n` are at least their
      position, so there are at most `n` of them; the empty text has no
      match. */
  lemma {:induction false} StartsAtLeastIndex(starts: seq<nat>, n: nat, i: nat)
    requires Increasing(starts, n) && i < |starts|
    ensures starts[i] >= i
  {
    if i > 0 {
      StartsAtLeastIndex(starts, n, i - 1);
    }
  }

  lemma MatchesFit(starts: seq<nat>, n: nat)
    requires Increasing(starts, n)
    ensures |starts| <= n
  {
    if |starts| > 0 {
      StartsAtLeastIndex(starts, n, |starts| - 1);
    }
  }

  /** With no page text there is one debate, titled "Debate", without
      speeches and with an empty entity map. */
  lemma EmptyDocument(md: Models)
    requires WellBehaved(md)
    ensures ProcessDocument(md, []) == [Debate(FallbackTitle, [], EntityMap([], map[]))]
  {
    var text := CleanPages([]);
    assert JoinLines([]) == "";
    assert |text| == 0 by {
      assert Filter(text, IsContent) == [];
    }
    assert text == "";
    var hs := md.headings(text);
    assert Increasing(Starts(hs), 0);
    MatchesFit(Starts(hs), 0);
    var sec := Section(FallbackTitle, "");
    assert SplitDebates(text, hs) == [sec];
    var starts := md.speakerLines("");
    assert Increasing(starts, 0);
    MatchesFit(starts, 0);
    ParseSpeechesCount("", starts, md.atLabel);
    var d := ProcessDebate(md, sec);
    assert d.speeches == [];
    assert AllEntities([]) == [];
    BuildEntityMapEmpty(md.extractOne, SimThreshold);
  }

  /** Debate `i` of a document carries the stripped title of heading `i`
      found in the cleaned pages. */
  lemma ProcessDocumentDebate(md: Models, pages: seq<string>, i: nat)
    requires WellBehaved(md)
    requires i < |md.headings(CleanPages(pages))|
    ensures var ds := ProcessDocument(md, pages);
      i < |ds| && ds[i].title == Strip(md.headings(CleanPages(pages))[i].title)
  {
    ProcessTextDebate(md, CleanPages(pages), i);
  }

  /** A document in which no heading is found is one debate, titled
      "Debate", over the whole cleaned text. */
  lemma NoHeadingOneDebate(md: Models, pages: seq<string>)
    requires WellBehaved(md)
    requires md.headings(CleanPages(pages)) == []
    ensures var ds := ProcessDocument(md, pages);
      |ds| == 1 && ds[0] == ProcessDebate(md, Section(FallbackTitle, CleanPages(pages)))
  {
  }
}
