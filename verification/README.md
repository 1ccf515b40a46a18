# Debate extractor: a Dafny model

`extract_debates.py` turns the text of a parliamentary record into a list of
debates. Each debate has a title, its speeches, and an entity map.

- A speech has a speaker, split into name, constituency and party, and a speech body.
- Each speech also has the named entities found in it and subject–relation–object triples.
- The entity map merges the entities of all speeches of a debate under canonical keys.

This project models the pure text processing at the core of that script:

- the page clean-up;
- cutting the document into debates and debates into speeches;
- collapsing whitespace in speech bodies;
- parsing speaker labels;
- cleaning recogniser output;
- chunking and the rule-based fallback of relation extraction;
- key normalisation and the two loops of `build_entity_map`;
- the per-debate loop of `process_pdf`.

Everything the script borrows from elsewhere is a parameter of the model. That covers the PDF reader, the token classifier, the relation generator, the fuzzy matcher, and the heading, speaker-line, question and triplet patterns. The model states only what any implementation of them guarantees. The heading and speaker-line matches are starts that increase and lie inside the text, as any `finditer` delivers them. The question and triplet matches are arbitrary functions of the text. `extractOne` answers with one of its choices.

| file | module | models |
|---|---|---|
| options.dfy | `Options` | `Option` |
| text.dfy | `Text` | ASCII `str.isspace`/`\w`/`isalnum`/`lower`, `strip`, `re.sub` of a run pattern, filtering |
| slicing.dfy | `Slicing` | cutting a text at match starts, list concatenation |
| pages.dfy | `Pages` | lines 15–19 of `extract_text_blocks` |
| segmentation.dfy | `Segmentation` | `split_debates`, `parse_speeches`, `collapse_paragraphs` |
| speakers.dfy | `Speakers` | `SPEAKER_META_RE` and `parse_speaker_meta`, interpreted exactly |
| entities.dfy | `Entities` | `clean_entities` |
| relations.dfy | `Relations` | `extract_relations` |
| lexorder.dfy | `LexOrder` | Python string order and `sorted(set(...))` |
| canonical.dfy | `Canonical` | `normalize_key` and the first loop of `build_entity_map` |
| entitymap.dfy | `EntityMaps` | the second and third loops of `build_entity_map` |
| pipeline.dfy | `Pipeline` | the per-debate loop of `process_pdf` |

Behaviour of the code worth knowing:

- A speaker label with one parenthesised group always gives that group to `constituency`. The backtracking engine tries the first optional group before the second, and `Speakers.LoneGroupIsFirst` shows that the second group is never used alone.
- A label the pattern rejects becomes `{"name": s}` (`NameOnly`), with no `constituency` or `party` key at all.
- The page clean-up is not idempotent (`Pages.RepairHyphensNotIdempotent`).
- A failing model aborts the run; nothing isolates a failing speech.
- With the real `SPEAKER_LINE_RE`, every piece re-matches the speaker pattern, so the `continue` on line 53 never runs. The pattern's only anchor is `^`, and each `finditer` match lies inside its own piece. Some lemmas about speech counts and order still take this as a premise, because the model leaves the pattern as a parameter.

## Model

| member | source | states |
|---|---|---|
| Pages.CollapseBlanks | extract_debates.py:17 | no tab and no two neighbouring blanks remain, and the non-blank characters are exactly those of the input, in order |
| Pages.CollapseBlanksIdempotent | extract_debates.py:17 | collapsing blank runs a second time changes nothing |
| Pages.JoinLinesSnoc | extract_debates.py:15 | joining one more page appends a line break and that page to the join of the others |
| Pages.CollapseBlanksFixed | extract_debates.py:17 | a text without tabs and without two neighbouring blanks is returned unchanged |
| Pages.CollapseBlanksRun | extract_debates.py:17 | a whole run of spaces and tabs after a blank-free prefix becomes one space; the prefix is kept and the rest is processed on its own |
| Pages.RepairHyphens | extract_debates.py:19 | the repair never lengthens the text, introduces no character, and keeps the first character |
| Pages.RepairHyphensKeepsText | extract_debates.py:19 | apart from hyphens and line breaks, every character survives, in order |
| Pages.RepairHyphensFirstBreak | extract_debates.py:19 | at the first `(\w)-\n(\w)` occurrence, the text before it is kept, the two word characters are joined without hyphen and line break, and the scan resumes after them |
| Pages.RepairHyphensNoBreak | extract_debates.py:19 | a text without a `(\w)-\n(\w)` occurrence is returned unchanged |
| Pages.RepairHyphensNoAdjacent | extract_debates.py:19 | the repair never puts two blanks next to each other |
| Pages.RepairHyphensNotIdempotent | extract_debates.py:19 | `"a-\nb-\nc"` is repaired to `"ab-\nc"` and only a second pass gives `"abc"`, so the clean-up is not idempotent |
| Pages.CleanPages | extract_debates.py:15-19 | the cleaned document has no tab and no two neighbouring blanks, and keeps every character of the joined pages other than blanks, hyphens and line breaks, in order |
| Pages.CleanPagesFixed | extract_debates.py:15-19 | pages whose join has no tab, no two neighbouring blanks and no broken word come out as their join |
| Segmentation.CollapseParagraphs | extract_debates.py:60-64 | a collapsed body has no line break, no two neighbouring whitespace characters, and no whitespace at either end |
| Segmentation.CollapseParagraphsIdempotent | extract_debates.py:60-64 | collapsing a collapsed body changes nothing |
| Segmentation.CollapseParagraphsKeepsText | extract_debates.py:60-64 | without a blank line, collapsing removes only whitespace: every other character survives, in order |
| Segmentation.CollapseParagraphsMarksParagraph | extract_debates.py:62-64 | a blank line between two words becomes the `<PARA>` mark with one space on each side |
| Segmentation.SplitDebates | extract_debates.py:32-41 | with no heading the result is one section titled "Debate" holding the unstripped document; otherwise there is one section per heading, with the stripped title and the stripped slice from its start to the next heading's start |
| Segmentation.SplitDebatesCoverage | extract_debates.py:38-40 | the pieces behind the sections tile the document from the first heading to the end, and each section text is its piece without surrounding whitespace |
| Segmentation.ParseSpeeches | extract_debates.py:43-58 | there is at most one speech per speaker line |
| Segmentation.ParseSpeechesCount | extract_debates.py:43-58 | no speaker line gives no speech, and there is exactly one speech per line when every piece re-matches the speaker pattern |
| Segmentation.ParseSpeechesOrder | extract_debates.py:46-57 | when every piece re-matches the speaker pattern there is one speech per speaker line, and speech `i` is the speech read from piece `i` |
| Segmentation.ParseSpeechesSplit | extract_debates.py:50-57 | the speeches of the pieces before match `k` come before those of the pieces from match `k` on |
| Segmentation.ParseSpeechesMembers | extract_debates.py:50-57 | a speech is in the result iff some piece yields it |
| Segmentation.ParseSpeechesWellFormed | extract_debates.py:55-57 | every speech in the result has a stripped label and a collapsed body |
| Segmentation.TurnOfWellFormed | extract_debates.py:55-57 | a speech taken from a piece has a stripped label and a collapsed body |
| Segmentation.TurnOfFields | extract_debates.py:52-57 | a piece yields a speech iff the speaker pattern matches at its start; the label is the `name` group without surrounding whitespace; without a blank line the body keeps every non-whitespace character after the match, in order |
| Speakers.SplitName | extract_debates.py:67 | the lazy name is the shortest valid name, and there is none exactly when no name length lets the rest of the pattern match |
| Speakers.LoneGroupIsFirst | extract_debates.py:67 | the party group is never matched without the constituency group |
| Speakers.TwoGroupsTailAt | extract_debates.py:67 | after a name cut followed only by whitespace, two parenthesised groups separated by whitespace are taken as constituency and party |
| Speakers.OneGroupTail | extract_debates.py:67 | a single parenthesised group after a name part is taken as the constituency, with no party |
| Speakers.BlankToNone | extract_debates.py:75-76 | a missing or all-whitespace group gives None; otherwise the stripped group, which is non-empty |
| Speakers.ParseSpeakerMeta | extract_debates.py:67-77 | the label is name-only iff the pattern cannot match, and then keeps the label as is; otherwise the name is the label up to the end of the lazy name with surrounding whitespace removed, a party implies a constituency group, and both groups pass through the blank-to-None rule |
| Speakers.EmptyLabel | extract_debates.py:70-72 | an empty label does not match and gives `{"name": ""}` |
| Speakers.TwoGroups | extract_debates.py:67-77 | `name (c) (p)` gives the stripped name, constituency `c` stripped (None if blank), and party `p` stripped (None if blank) |
| Speakers.OneGroup | extract_debates.py:67-77 | `name (c)` gives the stripped name, constituency `c` stripped (None if blank), and no party |
| Speakers.NoGroup | extract_debates.py:67-77 | a label without groups gives the stripped label as name and neither group |
| Entities.SquashSlashesKeepsPlain | extract_debates.py:97 | squeezing spaced slashes removes only whitespace and slashes; every other character survives, in order |
| Entities.SquashSlashesNoSlash | extract_debates.py:97 | a word without a slash is unchanged |
| Entities.SquashSlashesSpaced | extract_debates.py:97 | between two slash-free words, whitespace, one or more slashes and whitespace become a single `/` |
| Entities.SquashSlashesStripped | extract_debates.py:97 | squeezing a stripped word leaves it stripped, and non-empty if it was |
| Entities.CleanEntity | extract_debates.py:93-98 | an entry is dropped iff its stripped word is empty or a single character that is not alphanumeric |
| Entities.CleanEntityFields | extract_debates.py:93-98 | a kept entry has a non-empty stripped text with the word's non-blank, non-slash characters, its entity group as type, and its score, or 0.0 when absent |
| Entities.CleanEntities | extract_debates.py:90-99 | never more entities than entries, each with a non-empty stripped text |
| Entities.CleanEntitiesAppend | extract_debates.py:90-99 | cleaning works entry by entry: it distributes over concatenation, so order is preserved |
| Entities.CleanEntitiesMembers | extract_debates.py:90-99 | an entity is in the output iff some entry is kept and cleans to it |
| Entities.CleanEntitiesKeepsAll | extract_debates.py:90-99 | without dropped entries there is one entity per entry, and a stripped slash-free word is kept verbatim |
| Relations.Chunks | extract_debates.py:114 | an empty text, or a negative step, gives no chunk; what the chunks hold is stated in `Relations.ChunksCover` |
| Relations.ChunksCover | extract_debates.py:114 | the chunks concatenate back to the text, each holds 1 to `max_len` characters, and all but the last hold exactly `max_len` |
| Relations.ChunksCount | extract_debates.py:114 | there are `ceil(len(text) / max_len)` chunks |
| Relations.ChunksAppend | extract_debates.py:114 | cutting the text at a multiple of `max_len` cuts the chunk list there |
| Relations.AskTriple | extract_debates.py:119-120 | a fallback triple is `("MP", "asks_about", topic)`, with the topic trimmed of ` .;:)` at both ends and nothing else removed |
| Relations.FallbackTriples | extract_debates.py:118-121 | one fallback triple per question match, in match order |
| Relations.ChunkTriples | extract_debates.py:124-130 | a chunk without generated text gives no triple; otherwise triple `i` is triplet match `i` of the first generated text with each of its three fields stripped |
| Relations.StripTriple | extract_debates.py:130 | each field of a kept triple is its matched group without surrounding whitespace |
| Relations.GeneratedTriples | extract_debates.py:123-130 | every triple of the generator path is stripped, and no chunk gives no triple |
| Relations.GeneratedTriplesAppend | extract_debates.py:123-130 | the generator path distributes over the chunk list, so triples come in chunk order |
| Relations.ExtractRelations | extract_debates.py:112-131 | without a generator, one `("MP","asks_about",topic)` triple per question match, each topic a trimmed form of its match; with one, every field is stripped, and an empty text gives no triple |
| Relations.RelationsAppend | extract_debates.py:112-131 | with a generator, splitting a speech at a multiple of `max_len` splits its triples the same way |
| Relations.ShortSpeechOneChunk | extract_debates.py:114-130 | a speech of at most `max_len` characters is one chunk |
| LexOrder.SortedSet | extract_debates.py:179 | `sorted(set(xs))` is strictly increasing and holds exactly the elements of `xs` |
| LexOrder.SortedUnique | extract_debates.py:179 | a strictly sorted list is determined by its elements, so `sorted(set(xs))` is the only such listing |
| LexOrder.LexLessTotal | extract_debates.py:179 | two different strings are ordered one way or the other |
| LexOrder.LexLessFirstDifference | extract_debates.py:179 | `LexLess` is Python's string order: a proper prefix comes first, and otherwise the lower character at the first difference decides |
| Canonical.NormalizeKeyShape | extract_debates.py:134-137 | a key holds only `\w`, whitespace and `&-./`, no capital, no surrounding whitespace and no whitespace run |
| Canonical.NormalizeKeyIdempotent | extract_debates.py:134-137 | normalising a key gives the key back |
| Canonical.NormalizeKeyKeepsText | extract_debates.py:134-137 | normalising removes only whitespace and characters outside `\w` and `&-./`; every other character survives lower-cased, in order |
| Canonical.RegisterNew | extract_debates.py:149-162 | a new key points at the matcher's choice iff there are earlier keys and the choice scores at least the threshold, and at itself otherwise; earlier keys do not move |
| Canonical.RegisterSeen | extract_debates.py:149-151 | a key registered before leaves the `canonical` dictionary as it was |
| Canonical.RegisterValid | extract_debates.py:149-162 | registering keeps the keys distinct and every key pointing at itself or at an earlier key |
| Canonical.AssignKeysDomain | extract_debates.py:144-162 | every text's key is registered, and only those |
| Canonical.AssignKeysValid | extract_debates.py:148-162 | after the first loop each key appears once and points at itself or at a key registered before it |
| Canonical.AssignKeysStable | extract_debates.py:150-151 | registering more texts never changes where an earlier key points |
| Canonical.AssignKeysFirst | extract_debates.py:160-162 | the first text's key is its own canonical key |
| Canonical.AssignKeysNoMerge | extract_debates.py:154-159 | when the matcher never reaches the threshold, every key is its own canonical key |
| Canonical.ChainNotFollowed | extract_debates.py:153-157 | with a matcher that picks the latest key at full score, keys `a`, `b`, `c` point at `a`, `a`, `b`: the chosen key is used as is, so a cluster key need not map to itself |
| EntityMaps.Summarise | extract_debates.py:178-180 | an entry keeps canonical text and type, counts its texts with repeats, and lists them strictly sorted without repeats |
| EntityMaps.Finish | extract_debates.py:178-181 | the final loop keeps the keys and their order and summarises each group |
| EntityMaps.MembersOfNonEmpty | extract_debates.py:166-169 | a key has members iff some entity is filed under it |
| EntityMaps.MembersOfElements | extract_debates.py:166-171 | the members of a key are exactly the entities filed under it |
| EntityMaps.GatherTexts | extract_debates.py:169-172 | a group's canonical text is its first member's text, and its texts are its members' texts in order |
| EntityMaps.GatherType | extract_debates.py:170-176 | without a positive score a group has its first member's type; otherwise the type of the first member with the highest score |
| EntityMaps.AggregateGroups | extract_debates.py:165-176 | after the second loop a key has a group iff it has members, and the group is what its members form on their own |
| EntityMaps.AggregateWellOrdered | extract_debates.py:169-170 | each key is recorded once in insertion order, and exactly the keys with a group are recorded |
| EntityMaps.AggregateTotal | extract_debates.py:165-172 | the group sizes add up to the number of entities |
| EntityMaps.FinishEntry | extract_debates.py:165-181 | an entry exists iff some entity is filed under its key; it has the first member's text, the member count, and the sorted distinct member texts |
| EntityMaps.BuildEntityMapEntries | extract_debates.py:139-181 | the same, for `build_entity_map` with the keys of its first loop |
| EntityMaps.BuildEntityMapType | extract_debates.py:170-176 | an entry's type follows that rule over its members |
| EntityMaps.BuildEntityMapTotal | extract_debates.py:165-181 | the keys are recorded once each, exactly the entries are recorded, and the counts add up to the number of entities |
| EntityMaps.BuildEntityMapEmpty | extract_debates.py:139-181 | no entity gives an empty map |
| EntityMaps.EntityMentioned | extract_debates.py:166-171 | every entity's text is among the mentions of some entry |
| EntityMaps.SameKeySameEntry | extract_debates.py:149-151 | entities whose texts normalise to the same key land in the same entry |
| EntityMaps.EntryKeysAreKeys | extract_debates.py:148-168 | with a matcher that picks among its choices, every entry key is the normalised text of some entity |
| EntityMaps.EntryKeyShape | extract_debates.py:134-168 | so every entry key is lower-case, stripped and free of whitespace runs |
| Pipeline.EnrichSpeech | extract_debates.py:197-206 | an empty speech has no entities, and with a generator no relations; every entity text is non-empty; without a generator there is one relation per question match |
| Pipeline.EnrichSpeechFields | extract_debates.py:197-199 | the speaker fields parse the label, a non-empty body gets the cleaned classifier output, and the triples are those `extract_relations` finds in the body |
| Pipeline.EmptySpeech | extract_debates.py:197-199 | with a generator, an empty speech has no entities and no relations, and its speaker fields still parse the label |
| Pipeline.ProcessDebate | extract_debates.py:192-212 | a debate keeps its section's title and has at most one speech per speaker line |
| Pipeline.ProcessDebateSpeeches | extract_debates.py:192-212 | speech `i` of a debate is speech `i` of its section enriched, and the entity map is built from the entities of all speeches in speech order |
| Pipeline.DebateSpeechAt | extract_debates.py:193-206 | when every piece re-matches the speaker pattern, speech `i` of a debate is read from the piece of speaker line `i` |
| Pipeline.AllEntitiesAt | extract_debates.py:194-200 | `all_ents` holds the entities of speech `i` after those of earlier speeches and before those of later ones |
| Pipeline.ProcessText | extract_debates.py:186-212 | one debate per heading, or a single one when there is none |
| Pipeline.ProcessTextDebate | extract_debates.py:186-212 | debate `i` is the debate of heading `i`, over its stripped title and the stripped text from that heading to the next |
| Pipeline.ProcessTextNoHeading | extract_debates.py:186-212 | without a heading the single debate is the debate of the whole text titled "Debate" |
| Pipeline.ProcessDocument | extract_debates.py:184-212 | the cleaned pages give one debate per heading found in them, or a single debate when there is none |
| Pipeline.ProcessDocumentDebate | extract_debates.py:184-212 | debate `i` of the document carries the stripped title of heading `i` found in the cleaned pages |
| Pipeline.AllEntitiesMember | extract_debates.py:200 | an entity is among a debate's entities iff some speech holds it |
| Pipeline.DebateEntityTotal | extract_debates.py:192-212 | a debate's entity-map counts add up to the number of entities of its speeches |
| Pipeline.DebateEntityMentioned | extract_debates.py:192-212 | every entity of every speech is among the mentions of some entry of its debate's map |
| Pipeline.DebateSpeechCount | extract_debates.py:193 | when every piece re-matches the speaker pattern, a debate has one speech per speaker line |
| Pipeline.MatchesFit | extract_debates.py:34 | a text of length `n` has at most `n` match starts |
| Pipeline.EmptyDocument | extract_debates.py:185-212 | no page text gives one debate titled "Debate", with no speeches and an empty entity map |
| Pipeline.NoHeadingOneDebate | extract_debates.py:185-212 | without a heading the document is a single debate titled "Debate" over the whole cleaned text |

## Left out

- Reading the PDF (`pdfplumber`), writing the JSON file, and `__main__` are I/O. The page texts are the input of `Pipeline.ProcessDocument`, and the list of debates is its output.
- The token classifier and the relation generator are parameters. This covers how they are built and run, and whether `try_build_re` succeeds. The model does not isolate a failing model call, and neither does the script.
- The model does not compute `fuzz.token_sort_ratio` or `process.extractOne`. The matcher is a parameter. Some lemmas assume only that it answers with one of its choices.
- The model does not interpret `DEBATE_HEADING_RE`, `SPEAKER_LINE_RE`, the question pattern of the fallback or the triplet pattern. Their matches are inputs. Heading and speaker-line starts must increase and lie inside the text; the question and triplet matches are unconstrained. `SPEAKER_META_RE`, `[ \t]+`, `(\w)-\n(\w)`, `\n{2,}`, `\s{2,}`, `\s+/+\s+` and `[^\w\s&\-./]` are written out exactly.
- Character classes are ASCII. `\s` and `strip()` cover tab to carriage return, U+001C to U+001F and the space. `\w`, `isalnum` and `lower` cover ASCII letters, digits and `_`. The rest of Unicode is ignored.
- Scores are reals, compared only. Float rounding is not modelled.
- Python dictionaries are a map plus the list of keys in insertion order. The JSON shape of the output is not modelled.
- Relations.Chunks: a zero `max_len` makes `range` raise. The model makes it a precondition instead of an error result, because the script never passes zero.
- Speakers.TwoGroups: stated only for name parts without an opening parenthesis or line break. `Speakers.ParseSpeakerMeta` covers every label.
- Speakers.OneGroup: the same restriction on the name part.
- Speakers.NoGroup: the same restriction on the name part.
- `streamlit_app.py` is not part of this model.
