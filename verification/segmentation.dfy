/**
  Cutting the cleaned document into debates (`split_debates`) and a debate
  into speeches (`parse_speeches`), and the whitespace collapse applied to
  each speech body (`collapse_paragraphs`).

  The heading pattern and the speaker-line pattern are not interpreted here:
  the offsets and groups they report are inputs, constrained only by what
  any `finditer` guarantees (increasing, non-empty, inside the text).
 */
module Segmentation {
  import opened Options
  import opened Text
  import opened Slicing

  predicate IsNewline(c: char) { c == '\n' }

  /** `re.sub(r"\n", " ", s)`. */
  function NewlinesToSpaces(s: string): (r: string)
    ensures |r| == |s|
    ensures forall i :: 0 <= i < |s| ==> r[i] == (if s[i] == '\n' then ' ' else s[i])
  {
    seq(|s|, i requires 0 <= i < |s| => if s[i] == '\n' then ' ' else s[i])
  }

  const ParagraphMark: string := " <PARA> "

  /** `collapse_paragraphs`: a run of two or more line breaks becomes a
      paragraph mark, a single line break a space, a run of two or more
      whitespace characters one space, and the ends are stripped. */
  function CollapseParagraphs(t: string): (r: string)
    ensures '\n' !in r
    ensures NoAdjacent(r, IsSpace)
    ensures Stripped(r, IsSpace)
  {
    var t1 := ReplaceRuns(t, IsNewline, 2, ParagraphMark);
    var t2 := NewlinesToSpaces(t1);
    var t3 := ReplaceRuns(t2, IsSpace, 2, " ");
    var r := Strip(t3);
    ReplaceRunsNoAdjacent(t2, IsSpace, 2, " ");
    ReplaceRunsChars(t2, IsSpace, 2, " ");
    var lo := RunLength(t3, IsSpace);
    NoAdjacentInfix(t3, IsSpace, lo, lo + |r|);
    assert '\n' !in t2;
    assert '\n' !in t3;
    assert forall i :: 0 <= i < |r| ==> r[i] == t3[lo + i];
    r
  }

  /** Collapsing an already collapsed text changes nothing. */
  lemma CollapseParagraphsIdempotent(t: string)
    ensures CollapseParagraphs(CollapseParagraphs(t)) == CollapseParagraphs(t)
  {
    var x := CollapseParagraphs(t);
    assert NoneOf(x, IsNewline);
    ReplaceRunsNone(x, IsNewline, 2, ParagraphMark);
    assert NewlinesToSpaces(x) == x;
    ReplaceRunsShort(x, IsSpace, " ");
    StripStripped(x, IsSpace);
  }

  /** Turning line breaks into spaces keeps every non-whitespace character. */
  lemma {:induction false} NewlinesKeepText(s: string)
    ensures Filter(NewlinesToSpaces(s), NotSpace) == Filter(s, NotSpace)
    decreases |s|
  {
    if |s| > 0 {
      var r := NewlinesToSpaces(s);
      assert r[1..] == NewlinesToSpaces(s[1..]);
      NewlinesKeepText(s[1..]);
      FilterHead(r, NotSpace);
      FilterHead(s, NotSpace);
    }
  }

  /** Without a blank line, collapsing removes only whitespace: every other
      character of the speech survives, in order. */
  lemma CollapseParagraphsKeepsText(t: string)
    requires NoAdjacent(t, IsNewline)
    ensures Filter(CollapseParagraphs(t), NotSpace) == Filter(t, NotSpace)
  {
    ReplaceRunsShort(t, IsNewline, ParagraphMark);
    var t2 := NewlinesToSpaces(t);
    NewlinesKeepText(t);
    var t3 := ReplaceRuns(t2, IsSpace, 2, " ");
    ReplaceRunsKeepsOthers(t2, IsSpace, 2, " ", NotSpace);
    StripByKeeps(t3, IsSpace, NotSpace);
  }

  /** A blank line between two words becomes the paragraph mark. */
  lemma CollapseParagraphsMarksParagraph(a: string, b: string)
    requires |a| > 0 && |b| > 0
    requires NoneOf(a, IsSpace) && NoneOf(b, IsSpace)
    ensures CollapseParagraphs(a + "\n\n" + b) == a + ParagraphMark + b
  {
    var m := a + ParagraphMark + b;
    MarkParagraph(a, b);
    assert NewlinesToSpaces(m) == m;
    MarkedNoAdjacent(a, b);
    ReplaceRunsShort(m, IsSpace, " ");
    assert m[0] == a[0] && m[|m| - 1] == b[|b| - 1];
    StripStripped(m, IsSpace);
  }

  /** The blank line itself becomes the mark. */
  lemma MarkBlankLine(b: string)
    requires |b| > 0 && NoneOf(b, IsSpace)
    ensures ReplaceRuns("\n\n" + b, IsNewline, 2, ParagraphMark) == ParagraphMark + b
  {
    var u := "\n\n" + b;
    assert RunLength(u, IsNewline) == 2 by {
      assert u[2..][0] == b[0];
    }
    assert u[2..] == b;
    ReplaceRunsStepRun(u, IsNewline, 2, ParagraphMark);
    ReplaceRunsNone(b, IsNewline, 2, ParagraphMark);
  }

  lemma MarkParagraph(a: string, b: string)
    requires |a| > 0 && |b| > 0
    requires NoneOf(a, IsSpace) && NoneOf(b, IsSpace)
    ensures ReplaceRuns(a + "\n\n" + b, IsNewline, 2, ParagraphMark) == a + ParagraphMark + b
  {
    var u := "\n\n" + b;
    assert a + "\n\n" + b == a + u;
    assert NoneOf(a, IsNewline) by {
      forall i | 0 <= i < |a| ensures !IsNewline(a[i]) { assert !IsSpace(a[i]); }
    }
    ReplaceRunsPrefix(a, u, IsNewline, 2, ParagraphMark);
    MarkBlankLine(b);
    assert a + (ParagraphMark + b) == a + ParagraphMark + b;
  }

  lemma MarkedNoAdjacent(a: string, b: string)
    requires |a| > 0 && |b| > 0
    requires NoneOf(a, IsSpace) && NoneOf(b, IsSpace)
    ensures NoAdjacent(a + ParagraphMark + b, IsSpace)
  {
    var m := a + ParagraphMark + b;
    forall i | 0 < i < |m| ensures !(IsSpace(m[i - 1]) && IsSpace(m[i])) {
      if i < |a| { assert m[i] == a[i]; }
      else if i == |a| { assert m[i - 1] == a[|a| - 1]; }
      else if i < |a| + 8 { assert m[i] == ParagraphMark[i - |a|]; assert m[i - 1] == ParagraphMark[i - 1 - |a|]; }
      else if i == |a| + 8 { assert m[i] == b[0]; }
      else { assert m[i] == b[i - |a| - 8]; }
    }
  }

  // ---------------------------------------------------------------------
  // split_debates

  /** One heading match: `m.start()` and the raw `title` group. */
  datatype HeadingMatch = HeadingMatch(start: nat, title: string)

  datatype Section = Section(title: string, text: string)

  const FallbackTitle: string := "Debate"

  function Starts(ms: seq<HeadingMatch>): (r: seq<nat>)
    ensures |r| == |ms|
    ensures forall i :: 0 <= i < |ms| ==> r[i] == ms[i].start
  {
    seq(|ms|, i requires 0 <= i < |ms| => ms[i].start)
  }

  /** `split_debates`. */
  function SplitDebates(raw: string, ms: seq<HeadingMatch>): (r: seq<Section>)
    requires Increasing(Starts(ms), |raw|)
    ensures |ms| == 0 ==> r == [Section(FallbackTitle, raw)]
    ensures |ms| > 0 ==> |r| == |ms|
    ensures |ms| > 0 ==> forall i :: 0 <= i < |ms| ==>
              r[i].title == Strip(ms[i].title) && r[i].text == Strip(Spans(raw, Starts(ms))[i])
  {
    if |ms| == 0 then [Section(FallbackTitle, raw)]
    else
      var pieces := Spans(raw, Starts(ms));
      seq(|ms|, i requires 0 <= i < |ms| => Section(Strip(ms[i].title), Strip(pieces[i])))
  }

  /** The debates tile the document from the first heading on: the unstripped
      pieces behind the sections concatenate to that suffix, section `i`'s
      piece starts at heading `i`, and each section text is its piece with
      only surrounding whitespace removed. Text before the first heading
      belongs to no debate. */
  lemma SplitDebatesCoverage(raw: string, ms: seq<HeadingMatch>)
    requires Increasing(Starts(ms), |raw|) && |ms| > 0
    ensures var pieces := Spans(raw, Starts(ms));
      && Concat(pieces) == raw[ms[0].start..]
      && (forall i :: 0 <= i < |ms| ==> pieces[i] == raw[ms[i].start..SpanEnd(Starts(ms), |raw|, i)])
      && (forall i :: 0 <= i < |ms| ==> IsStripOf(SplitDebates(raw, ms)[i].text, pieces[i]))
  {
    var pieces := Spans(raw, Starts(ms));
    SpansCover(raw, Starts(ms));
    forall i | 0 <= i < |ms| ensures IsStripOf(SplitDebates(raw, ms)[i].text, pieces[i]) {
      StripIsStripOf(pieces[i]);
    }
  }

  // ---------------------------------------------------------------------
  // parse_speeches

  /** `SPEAKER_LINE_RE.match(piece)`: the raw `name` group and `m.end()`. */
  datatype LabelMatch = LabelMatch(name: string, end: nat)

  datatype SpeechTurn = SpeechTurn(speakerRaw: string, speechText: string)

  /** Python's `s[k:]`, which is empty past the end. */
  function Drop(s: string, k: nat): (r: string)
    ensures k <= |s| ==> r == s[k..]
    ensures k > |s| ==> r == []
  {
    if k <= |s| then s[k..] else []
  }

  /** The speech held by one piece, or none when the speaker pattern does
      not match at the piece's start. */
  function TurnOf(piece: string, atLabel: string -> Option<LabelMatch>): Option<SpeechTurn>
  {
    match atLabel(piece)
    case None => None
    case Some(m) => Some(SpeechTurn(Strip(m.name), CollapseParagraphs(Strip(Drop(piece, m.end)))))
  }

  /** A speech label is stripped, and a speech body is collapsed. */
  ghost predicate WellFormedTurn(t: SpeechTurn) {
    && Stripped(t.speakerRaw, IsSpace)
    && '\n' !in t.speechText && NoAdjacent(t.speechText, IsSpace) && Stripped(t.speechText, IsSpace)
  }

  lemma TurnOfWellFormed(piece: string, atLabel: string -> Option<LabelMatch>)
    ensures TurnOf(piece, atLabel).Some? ==> WellFormedTurn(TurnOf(piece, atLabel).value)
  {
  }

  /** A piece yields a speech exactly when the speaker pattern matches at
      its start. The label is then the `name` group stripped; and when the
      rest of the piece holds no blank line, the body keeps every
      non-whitespace character of that rest, in order. */
  lemma TurnOfFields(piece: string, atLabel: string -> Option<LabelMatch>)
    ensures TurnOf(piece, atLabel).Some? <==> atLabel(piece).Some?
    ensures atLabel(piece).Some? ==>
              IsStripOf(TurnOf(piece, atLabel).value.speakerRaw, atLabel(piece).value.name)
    ensures atLabel(piece).Some? && NoAdjacent(Drop(piece, atLabel(piece).value.end), IsNewline) ==>
              Filter(TurnOf(piece, atLabel).value.speechText, NotSpace)
              == Filter(Drop(piece, atLabel(piece).value.end), NotSpace)
  {
    if atLabel(piece).Some? {
      var m := atLabel(piece).value;
      StripIsStripOf(m.name);
      var rest := Drop(piece, m.end);
      if NoAdjacent(rest, IsNewline) {
        var lo := RunLength(rest, IsSpace);
        var body := Strip(rest);
        NoAdjacentInfix(rest, IsNewline, lo, lo + |body|);
        CollapseParagraphsKeepsText(body);
        StripByKeeps(rest, IsSpace, NotSpace);
      }
    }
  }

  /** The speech of a piece, as a function of the piece. */
  function TurnFn(atLabel: string -> Option<LabelMatch>): string -> Option<SpeechTurn>
  {
    piece => TurnOf(piece, atLabel)
  }

  /** `parse_speeches`: `starts` are the speaker-line matches of `text`,
      `atLabel` re-matches the speaker pattern at the start of a piece.
      Each piece contributes its speech, or nothing, in match order. */
  function ParseSpeeches(text: string, starts: seq<nat>, atLabel: string -> Option<LabelMatch>): (r: seq<SpeechTurn>)
    requires Increasing(starts, |text|)
    ensures |r| <= |starts|
  {
    Collect(Spans(text, starts), TurnFn(atLabel))
  }

  /** No speaker line gives no speech; when every piece re-matches the
      speaker pattern there is one speech per line. */
  lemma ParseSpeechesCount(text: string, starts: seq<nat>, atLabel: string -> Option<LabelMatch>)
    requires Increasing(starts, |text|)
    ensures |starts| == 0 ==> ParseSpeeches(text, starts, atLabel) == []
    ensures (forall i :: 0 <= i < |starts| ==> atLabel(Spans(text, starts)[i]).Some?) ==>
              |ParseSpeeches(text, starts, atLabel)| == |starts|
  {
    var pieces := Spans(text, starts);
    if forall i :: 0 <= i < |starts| ==> atLabel(pieces[i]).Some? {
      assert forall i :: 0 <= i < |pieces| ==> TurnFn(atLabel)(pieces[i]).Some?;
      CollectAll(pieces, TurnFn(atLabel));
    }
  }

  /** When every piece re-matches the speaker pattern, speech `i` is the
      speech of piece `i`: the speeches come in match order. */
  lemma ParseSpeechesOrder(text: string, starts: seq<nat>, atLabel: string -> Option<LabelMatch>)
    requires Increasing(starts, |text|)
    requires forall i :: 0 <= i < |starts| ==> atLabel(Spans(text, starts)[i]).Some?
    ensures |ParseSpeeches(text, starts, atLabel)| == |starts|
    ensures forall i :: 0 <= i < |starts| ==>
              ParseSpeeches(text, starts, atLabel)[i] == TurnOf(Spans(text, starts)[i], atLabel).value
  {
    var pieces := Spans(text, starts);
    assert forall i :: 0 <= i < |pieces| ==> TurnFn(atLabel)(pieces[i]).Some?;
    CollectAll(pieces, TurnFn(atLabel));
  }

  /** In general, the speeches of the pieces before match `k` come before
      those of the pieces from match `k` on. */
  lemma ParseSpeechesSplit(text: string, starts: seq<nat>, atLabel: string -> Option<LabelMatch>, k: nat)
    requires Increasing(starts, |text|) && k <= |starts|
    ensures ParseSpeeches(text, starts, atLabel)
         == Collect(Spans(text, starts)[..k], TurnFn(atLabel)) + Collect(Spans(text, starts)[k..], TurnFn(atLabel))
  {
    CollectSplit(Spans(text, starts), TurnFn(atLabel), k);
  }

  /** A speech is in the result exactly when some piece yields it. */
  lemma ParseSpeechesMembers(text: string, starts: seq<nat>, atLabel: string -> Option<LabelMatch>, t: SpeechTurn)
    requires Increasing(starts, |text|)
    ensures t in ParseSpeeches(text, starts, atLabel) <==>
              exists i :: 0 <= i < |starts| && TurnOf(Spans(text, starts)[i], atLabel) == Some(t)
  {
    var pieces := Spans(text, starts);
    CollectMember(pieces, TurnFn(atLabel), t);
    assert forall i :: 0 <= i < |pieces| ==> TurnFn(atLabel)(pieces[i]) == TurnOf(pieces[i], atLabel);
  }

  /** Every speech has a stripped label and a collapsed body. */
  lemma ParseSpeechesWellFormed(text: string, starts: seq<nat>, atLabel: string -> Option<LabelMatch>, t: SpeechTurn)
    requires Increasing(starts, |text|)
    requires t in ParseSpeeches(text, starts, atLabel)
    ensures WellFormedTurn(t)
  {
    ParseSpeechesMembers(text, starts, atLabel, t);
    var i :| 0 <= i < |starts| && TurnOf(Spans(text, starts)[i], atLabel) == Some(t);
    TurnOfWellFormed(Spans(text, starts)[i], atLabel);
  }
}
