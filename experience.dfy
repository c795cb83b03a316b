/** Stage 1 of the company extractor: read the company off the first entry
    of the experience section. */
module Experience {
  import opened Text
  import opened Dom

  /** The experience-section selectors, in the order they are tried. */
  const ExperienceSelectors: seq<string> := [
    "#experience ~ .pvs-list",
    "section[data-section='experience']",
    "#experience",
    "[data-section='experience']",
    "section[id*='experience']",
    ".pvs-list[data-section='experience']"
  ]

  /** The meaningful lines among `pieces`: each trimmed, kept when the trimmed
      text is non-empty and longer than two characters, in order. */
  function KeepLines(pieces: seq<string>): (lines: seq<string>)
    ensures |lines| <= |pieces|
    ensures forall k | 0 <= k < |lines| :: |lines[k]| > 2 && IsStripped(lines[k])
  {
    if pieces == [] then []
    else
      var l := Strip(pieces[0]);
      (if l != "" && |l| > 2 then [l] else []) + KeepLines(pieces[1..])
  }

  /** The lines of an entry's text that can name a title or a company: each
      is trimmed, longer than two characters and a single line. */
  function MeaningfulLines(text: string): (lines: seq<string>)
    ensures forall k | 0 <= k < |lines| :: |lines[k]| > 2 && IsStripped(lines[k])
    ensures forall k | 0 <= k < |lines| :: !Contains(lines[k], "\n")
  {
    KeptLinesAreSingleLines(text);
    KeepLines(Split(text, "\n"))
  }

  /** Filtering keeps the order of the pieces: it distributes over
      concatenation. */
  lemma {:induction false} KeepLinesAppend(a: seq<string>, b: seq<string>)
    ensures KeepLines(a + b) == KeepLines(a) + KeepLines(b)
  {
    if a != [] {
      assert (a + b)[0] == a[0];
      assert (a + b)[1..] == a[1..] + b;
      KeepLinesAppend(a[1..], b);
    } else {
      assert a + b == b;
    }
  }

  /** Every kept line is the trimmed text of some piece. */
  lemma {:induction false} KeepLinesOrigin(pieces: seq<string>, i: nat)
    requires i < |KeepLines(pieces)|
    ensures exists k | 0 <= k < |pieces| :: Strip(pieces[k]) == KeepLines(pieces)[i]
  {
    var l := Strip(pieces[0]);
    if l != "" && |l| > 2 {
      if i > 0 {
        KeepLinesOrigin(pieces[1..], i - 1);
        var k :| 0 <= k < |pieces[1..]| && Strip(pieces[1..][k]) == KeepLines(pieces[1..])[i - 1];
        assert Strip(pieces[k + 1]) == KeepLines(pieces)[i];
      } else {
        assert Strip(pieces[0]) == KeepLines(pieces)[0];
      }
    } else {
      KeepLinesOrigin(pieces[1..], i);
      var k :| 0 <= k < |pieces[1..]| && Strip(pieces[1..][k]) == KeepLines(pieces[1..])[i];
      assert Strip(pieces[k + 1]) == KeepLines(pieces)[i];
    }
  }

  lemma KeptLinesAreSingleLines(text: string)
    ensures forall k | 0 <= k < |KeepLines(Split(text, "\n"))| ::
      !Contains(KeepLines(Split(text, "\n"))[k], "\n")
  {
    var pieces := Split(text, "\n");
    var lines := KeepLines(pieces);
    forall k | 0 <= k < |lines| ensures !Contains(lines[k], "\n") {
      KeepLinesOrigin(pieces, k);
      var j :| 0 <= j < |pieces| && Strip(pieces[j]) == lines[k];
      SplitPiecesFree(text, "\n");
      assert !Contains(pieces[j], "\n");
      StripContained(pieces[j]);
      if Contains(lines[k], "\n") {
        ContainsTrans(pieces[j], lines[k], "\n");
      }
    }
  }

  /** No meaningful line is dropped. */
  lemma {:induction false} KeepLinesComplete(pieces: seq<string>, k: nat)
    requires k < |pieces| && |Strip(pieces[k])| > 2
    ensures Strip(pieces[k]) in KeepLines(pieces)
  {
    if k > 0 {
      KeepLinesComplete(pieces[1..], k - 1);
      assert pieces[1..][k - 1] == pieces[k];
    }
  }

  /** Picks the company out of an entry's trimmed text: the second meaningful
      line (the first is the job title), else the only one, else the text. */
  function PickCompany(text: string): (company: string)
    ensures text != "" ==> company != ""
    ensures IsStripped(text) ==> IsStripped(company)
  {
    var lines := MeaningfulLines(text);
    if |lines| >= 2 then lines[1]
    else if |lines| == 1 then lines[0]
    else text
  }

  /** The picked company is always a piece of the entry's text: the second
      meaningful line when there are two or more, the only one when there is
      one, and the whole text when there are none. */
  lemma PickCompanyFromEntry(text: string)
    ensures Contains(text, PickCompany(text))
    ensures |MeaningfulLines(text)| > 0 ==> PickCompany(text) in MeaningfulLines(text)
    ensures |MeaningfulLines(text)| >= 2 ==> PickCompany(text) == MeaningfulLines(text)[1]
    ensures |MeaningfulLines(text)| == 1 ==> PickCompany(text) == MeaningfulLines(text)[0]
    ensures |MeaningfulLines(text)| == 0 ==> PickCompany(text) == text
  {
    var pieces := Split(text, "\n");
    var lines := MeaningfulLines(text);
    if |lines| == 0 {
      assert OccursAt(text, text, 0);
    } else {
      var i := if |lines| >= 2 then 1 else 0;
      KeepLinesOrigin(pieces, i);
      var k :| 0 <= k < |pieces| && Strip(pieces[k]) == lines[i];
      StripContained(pieces[k]);
      SplitPiecesContained(text, "\n");
      ContainsTrans(text, pieces[k], lines[i]);
    }
  }

  /** The lines of an entry's text, as `text.split('\n')` gives them. */
  function Lines(text: string): (pieces: seq<string>)
    ensures |pieces| >= 1
  {
    Split(text, "\n")
  }

  /** A line that the picker counts: longer than two characters once trimmed. */
  predicate LongLine(piece: string) {
    |Strip(piece)| > 2
  }

  /** An entry with no line longer than two characters yields its whole
      text as the company. */
  lemma PickCompanyNoLongLine(text: string)
    requires forall m | 0 <= m < |Lines(text)| :: !LongLine(Lines(text)[m])
    ensures PickCompany(text) == text
  {
    KeepNone(Lines(text));
  }

  /** An entry with exactly one line longer than two characters yields that
      line, trimmed. */
  lemma PickCompanyOnlyLongLine(text: string, j: nat)
    requires j < |Lines(text)| && LongLine(Lines(text)[j])
    requires forall m | 0 <= m < |Lines(text)| && m != j :: !LongLine(Lines(text)[m])
    ensures PickCompany(text) == Strip(Lines(text)[j])
  {
    KeepOne(Lines(text), j);
  }

  /** An entry with two or more lines longer than two characters yields the
      second of them, trimmed: the first names the job title. */
  lemma PickCompanySecondLongLine(text: string, j0: nat, j1: nat)
    requires j0 < j1 < |Lines(text)|
    requires LongLine(Lines(text)[j0]) && LongLine(Lines(text)[j1])
    requires forall m | 0 <= m < j1 && m != j0 :: !LongLine(Lines(text)[m])
    ensures PickCompany(text) == Strip(Lines(text)[j1])
  {
    KeepSecond(Lines(text), j0, j1);
  }

  lemma {:induction false} KeepNone(pieces: seq<string>)
    requires forall m | 0 <= m < |pieces| :: !LongLine(pieces[m])
    ensures KeepLines(pieces) == []
  {
    if pieces != [] {
      assert !LongLine(pieces[0]);
      forall m | 0 <= m < |pieces[1..]| ensures !LongLine(pieces[1..][m]) {
        assert pieces[1..][m] == pieces[m + 1];
      }
      KeepNone(pieces[1..]);
    }
  }

  lemma KeepOne(pieces: seq<string>, j: nat)
    requires j < |pieces| && LongLine(pieces[j])
    requires forall m | 0 <= m < |pieces| && m != j :: !LongLine(pieces[m])
    ensures KeepLines(pieces) == [Strip(pieces[j])]
  {
    KeepFrom(pieces, j);
    NotLongAfter(pieces, j + 1, |pieces|);
    KeepNone(pieces[j + 1..]);
  }

  lemma KeepSecond(pieces: seq<string>, j0: nat, j1: nat)
    requires j0 < j1 < |pieces|
    requires LongLine(pieces[j0]) && LongLine(pieces[j1])
    requires forall m | 0 <= m < j1 && m != j0 :: !LongLine(pieces[m])
    ensures |KeepLines(pieces)| >= 2 && KeepLines(pieces)[1] == Strip(pieces[j1])
  {
    KeepFrom(pieces, j0);
    var rest := pieces[j0 + 1..];
    var k := j1 - j0 - 1;
    assert rest[k] == pieces[j1];
    NotLongAfter(pieces, j0 + 1, j1);
    KeepFrom(rest, k);
  }

  /** The kept lines start with the first long line. */
  lemma {:induction false} KeepFrom(pieces: seq<string>, j: nat)
    requires j < |pieces| && LongLine(pieces[j])
    requires forall m | 0 <= m < j :: !LongLine(pieces[m])
    ensures KeepLines(pieces) == [Strip(pieces[j])] + KeepLines(pieces[j + 1..])
  {
    if j > 0 {
      var tail := pieces[1..];
      assert !LongLine(pieces[0]);
      assert tail[j - 1] == pieces[j];
      assert tail[j..] == pieces[j + 1..];
      NotLongAfter(pieces, 1, j);
      KeepFrom(tail, j - 1);
    }
  }

  /** No line of `pieces[lo..hi]` is long, seen from the suffix at `lo`. */
  lemma NotLongAfter(pieces: seq<string>, lo: nat, hi: nat)
    requires lo <= hi <= |pieces|
    requires forall m | lo <= m < hi :: !LongLine(pieces[m])
    ensures forall m | 0 <= m < hi - lo :: !LongLine(pieces[lo..][m])
  {
    forall m | 0 <= m < hi - lo ensures !LongLine(pieces[lo..][m]) {
      assert pieces[lo..][m] == pieces[lo + m];
    }
  }

  /** What one experience selector yields: the trimmed text of its section's
      first-position entry, or `None` when the section is absent, it has no
      such entry, or that entry's text is blank. */
  function EntryText(p: Page, sel: string): (r: Option<string>)
    ensures r.Some? ==> r.value != "" && IsStripped(r.value)
  {
    var entries := EntriesOf(p, sel);
    if |Matches(p, sel)| > 0 && |entries| > 0 && Strip(entries[0]) != ""
    then Some(Strip(entries[0]))
    else None
  }

  /** The entry text of the first selector that yields one. */
  function FirstEntryText(p: Page, sels: seq<string>): (r: Option<string>)
    ensures r.Some? ==> r.value != "" && IsStripped(r.value)
  {
    if sels == [] then None
    else match EntryText(p, sels[0])
      case Some(t) => Some(t)
      case None => FirstEntryText(p, sels[1..])
  }

  /** Stage 1: the company picked from the first non-blank entry, else "". */
  function ExperienceStage(p: Page, sels: seq<string>): (company: string)
    ensures IsStripped(company)
  {
    match FirstEntryText(p, sels)
    case Some(t) => PickCompany(t)
    case None => ""
  }

  /** The scan stops at the first selector with a non-blank entry: there is
      one exactly when some selector yields text, and it is the text of a
      selector all of whose predecessors yield none. */
  lemma {:induction false} FirstEntryTextNone(p: Page, sels: seq<string>)
    ensures FirstEntryText(p, sels).None? <==>
      forall i | 0 <= i < |sels| :: EntryText(p, sels[i]).None?
  {
    if sels != [] && EntryText(p, sels[0]).None? {
      var rest := sels[1..];
      FirstEntryTextNone(p, rest);
      if FirstEntryText(p, rest).None? {
        forall j | 0 <= j < |sels| ensures EntryText(p, sels[j]).None? {
          if j > 0 { assert sels[j] == rest[j - 1]; }
        }
      } else {
        var j :| 0 <= j < |rest| && EntryText(p, rest[j]).Some?;
        assert sels[j + 1] == rest[j];
      }
    }
  }

  /** The index of the selector whose entry text the scan returns. */
  lemma {:induction false} FirstEntryTextIndex(p: Page, sels: seq<string>) returns (i: nat)
    requires FirstEntryText(p, sels).Some?
    ensures i < |sels| && EntryText(p, sels[i]) == FirstEntryText(p, sels)
    ensures forall j | 0 <= j < i :: EntryText(p, sels[j]).None?
  {
    if EntryText(p, sels[0]).Some? {
      i := 0;
    } else {
      var rest := sels[1..];
      var k := FirstEntryTextIndex(p, rest);
      i := k + 1;
      assert sels[i] == rest[k];
      forall j | 0 <= j < i ensures EntryText(p, sels[j]).None? {
        if j > 0 { assert sels[j] == rest[j - 1]; }
      }
    }
  }

  /** Stage 1 finds a company exactly when some selector's entry has text,
      and then it is the company picked from the entry of the first such
      selector. */
  lemma ExperienceStageFirst(p: Page, sels: seq<string>)
    ensures ExperienceStage(p, sels) == "" <==>
      forall i | 0 <= i < |sels| :: EntryText(p, sels[i]).None?
    ensures ExperienceStage(p, sels) != "" ==>
      exists i | 0 <= i < |sels| ::
        (&& EntryText(p, sels[i]).Some?
         && ExperienceStage(p, sels) == PickCompany(EntryText(p, sels[i]).value)
         && forall j | 0 <= j < i :: EntryText(p, sels[j]).None?)
  {
    FirstEntryTextNone(p, sels);
    if FirstEntryText(p, sels).Some? {
      var i := FirstEntryTextIndex(p, sels);
    }
  }

  /** The stage-1 loop: look up each section and its first entry, skip the
      ones that are missing or blank, and take the company from the first
      entry that has text. */
  method FindExperienceCompany(p: Page, sels: seq<string>) returns (company: string)
    ensures company == ExperienceStage(p, sels)
  {
    company := "";
    var i := 0;
    while i < |sels|
      invariant 0 <= i <= |sels|
      invariant company == ""
      invariant FirstEntryText(p, sels) == FirstEntryText(p, sels[i..])
    {
      assert sels[i..][1..] == sels[i + 1..];
      var sel := sels[i];
      if |Matches(p, sel)| > 0 {
        var entries := EntriesOf(p, sel);
        if |entries| > 0 {
          var text := Strip(entries[0]);
          if text != "" {
            var lines := MeaningfulLines(text);
            if |lines| >= 2 {
              company := lines[1];
            } else if |lines| == 1 {
              company := lines[0];
            } else {
              company := text;
            }
            break;
          }
        }
      }
      i := i + 1;
    }
  }
}
