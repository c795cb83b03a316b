/** The rendered profile page, reduced to what the extraction heuristics
    observe, and the selector cascade that every field extractor runs. */
module Dom {
  import opened Text

  /** What the browser shows for one profile URL.
      - `fetchFails`: navigating to the URL or waiting for the page body raised;
      - `found[sel]`: the texts of the elements a CSS selector matches, in
        document order (a missing key means no match);
      - `entries[sel]`: the texts of the first-position entries inside the
        first element `sel` matches (the nested lookup of the experience
        section);
      - `aboutSibling`: `None` when no About heading exists, otherwise the
        trimmed text of the heading's parent's next sibling (empty when there
        is no sibling). */
  datatype Page = Page(
    fetchFails: bool,
    found: map<string, seq<string>>,
    entries: map<string, seq<string>>,
    aboutSibling: Option<string>)

  /** Selenium's `find_elements`: the matches of `sel`, possibly none. */
  function Matches(p: Page, sel: string): seq<string> {
    if sel in p.found then p.found[sel] else []
  }

  function EntriesOf(p: Page, sel: string): seq<string> {
    if sel in p.entries then p.entries[sel] else []
  }

  /** The yes/no tests a multi-element cascade applies to trimmed text. */
  datatype Filter = LocationText | AboutText

  const Bullet: char := '\U{2022}'

  predicate Accepts(f: Filter, text: string)
    ensures Accepts(f, text) ==> text != ""
  {
    match f
    case LocationText =>
      // keep "City • Region", drop a lone separator glyph
      text != "" && (Bullet !in text || |text| > 5)
    case AboutText =>
      // long enough, and not the section's own "About" label
      text != "" && |text| > 20 && !Contains(Take(text, 10), "About")
  }

  /** The About filter drops any text that opens with the section's own
      "About" label, whatever follows it. */
  lemma AboutLabelRejected(text: string)
    requires StartsWith(text, "About")
    ensures !Accepts(AboutText, text)
  {
    if |text| > 20 {
      var head := Take(text, 10);
      assert head[..5] == text[..5];
      assert OccursAt(head, "About", 0);
    }
  }

  /** How one selector of a cascade is examined. */
  datatype Strategy =
    | SingleElement          // only the first match (`find_element`)
    | MultiElement(f: Filter) // every match in order, the first accepted wins

  /** The first element text, trimmed, that `f` accepts. */
  function FirstAccepted(texts: seq<string>, f: Filter): (r: Option<string>)
    ensures r.Some? ==> Accepts(f, r.value) && IsStripped(r.value)
  {
    if texts == [] then None
    else if Accepts(f, Strip(texts[0])) then Some(Strip(texts[0]))
    else FirstAccepted(texts[1..], f)
  }

  /** The inner scan takes the first accepted element: it finds something
      exactly when some element is accepted, and what it finds is the trimmed
      text of an element no earlier element of which is accepted. */
  lemma FirstAcceptedFirst(texts: seq<string>, f: Filter)
    ensures FirstAccepted(texts, f).Some? <==>
      exists k | 0 <= k < |texts| :: Accepts(f, Strip(texts[k]))
    ensures FirstAccepted(texts, f).Some? ==>
      exists k | 0 <= k < |texts| ::
        (FirstAccepted(texts, f).value == Strip(texts[k])
         && forall m | 0 <= m < k :: !Accepts(f, Strip(texts[m])))
  {
    if FirstAccepted(texts, f).Some? {
      var k := FirstAcceptedIndex(texts, f);
    } else {
      FirstAcceptedNone(texts, f);
    }
  }

  lemma {:induction false} FirstAcceptedNone(texts: seq<string>, f: Filter)
    requires FirstAccepted(texts, f).None?
    ensures forall k | 0 <= k < |texts| :: !Accepts(f, Strip(texts[k]))
  {
    if texts != [] {
      var tail := texts[1..];
      FirstAcceptedNone(tail, f);
      forall k | 1 <= k < |texts| ensures !Accepts(f, Strip(texts[k])) {
        assert texts[k] == tail[k - 1];
      }
    }
  }

  /** The position of the element the inner scan stops at. */
  lemma {:induction false} FirstAcceptedIndex(texts: seq<string>, f: Filter) returns (k: nat)
    requires FirstAccepted(texts, f).Some?
    ensures k < |texts| && FirstAccepted(texts, f).value == Strip(texts[k])
    ensures Accepts(f, Strip(texts[k]))
    ensures forall m | 0 <= m < k :: !Accepts(f, Strip(texts[m]))
  {
    if Accepts(f, Strip(texts[0])) {
      k := 0;
    } else {
      var tail := texts[1..];
      var j := FirstAcceptedIndex(tail, f);
      k := j + 1;
      assert texts[k] == tail[j];
      forall m | 1 <= m < k ensures !Accepts(f, Strip(texts[m])) {
        assert texts[m] == tail[m - 1];
      }
    }
  }

  /** What a single selector contributes under a strategy: the text it
      yields, or `None` when the cascade must move on to the next selector. */
  function Candidate(p: Page, sel: string, s: Strategy): (r: Option<string>)
    ensures r.Some? ==> r.value != "" && IsStripped(r.value)
  {
    match s
    case SingleElement =>
      var els := Matches(p, sel);
      if |els| > 0 && Strip(els[0]) != "" then Some(Strip(els[0])) else None
    case MultiElement(f) =>
      FirstAccepted(Matches(p, sel), f)
  }

  /** The selector cascade: the text of the first selector whose candidate
      exists, or the empty string. */
  function Resolve(p: Page, sels: seq<string>, s: Strategy): (r: string)
    ensures IsStripped(r)
  {
    if sels == [] then ""
    else match Candidate(p, sels[0], s)
      case Some(t) => t
      case None => Resolve(p, sels[1..], s)
  }

  /** The cascade picks the first selector that yields a candidate: the
      result is empty exactly when no selector yields one, and otherwise it
      is the candidate of a selector all of whose predecessors yield none. */
  lemma ResolveFirst(p: Page, sels: seq<string>, s: Strategy)
    ensures Resolve(p, sels, s) == "" <==>
      forall i | 0 <= i < |sels| :: Candidate(p, sels[i], s).None?
    ensures Resolve(p, sels, s) != "" ==>
      exists i | 0 <= i < |sels| ::
        (Candidate(p, sels[i], s) == Some(Resolve(p, sels, s))
         && forall j | 0 <= j < i :: Candidate(p, sels[j], s).None?)
  {
    if Resolve(p, sels, s) != "" {
      var i := ResolveIndex(p, sels, s);
    } else {
      ResolveNone(p, sels, s);
    }
  }

  lemma {:induction false} ResolveNone(p: Page, sels: seq<string>, s: Strategy)
    requires Resolve(p, sels, s) == ""
    ensures forall i | 0 <= i < |sels| :: Candidate(p, sels[i], s).None?
  {
    if sels != [] {
      var rest := sels[1..];
      ResolveNone(p, rest, s);
      forall i | 1 <= i < |sels| ensures Candidate(p, sels[i], s).None? {
        assert sels[i] == rest[i - 1];
      }
    }
  }

  /** The position of the selector whose candidate the cascade returns. */
  lemma {:induction false} ResolveIndex(p: Page, sels: seq<string>, s: Strategy) returns (i: nat)
    requires Resolve(p, sels, s) != ""
    ensures i < |sels| && Candidate(p, sels[i], s) == Some(Resolve(p, sels, s))
    ensures forall j | 0 <= j < i :: Candidate(p, sels[j], s).None?
  {
    if Candidate(p, sels[0], s).Some? {
      i := 0;
    } else {
      var rest := sels[1..];
      var k := ResolveIndex(p, rest, s);
      i := k + 1;
      assert sels[i] == rest[k];
      forall j | 1 <= j < i ensures Candidate(p, sels[j], s).None? {
        assert sels[j] == rest[j - 1];
      }
    }
  }

  /** The loop for Name and Headline: try each selector's first match and stop
      at the first whose trimmed text is non-empty. */
  method ResolveSingle(p: Page, sels: seq<string>) returns (text: string)
    ensures text == Resolve(p, sels, SingleElement)
  {
    text := "";
    var i := 0;
    while i < |sels|
      invariant 0 <= i <= |sels|
      invariant text == ""
      invariant Resolve(p, sels, SingleElement) == Resolve(p, sels[i..], SingleElement)
    {
      assert sels[i..][1..] == sels[i + 1..];
      var els := Matches(p, sels[i]);
      if |els| > 0 {
        var t := Strip(els[0]);
        if t != "" {
          text := t;
          break;
        }
      }
      i := i + 1;
    }
  }

  /** The inner loop for Location and About: scan the matches of one selector
      in order and stop at the first trimmed text the filter accepts. */
  method ScanMatches(els: seq<string>, f: Filter) returns (found: Option<string>)
    ensures found == FirstAccepted(els, f)
  {
    found := None;
    var k := 0;
    while k < |els|
      invariant 0 <= k <= |els|
      invariant FirstAccepted(els, f) == FirstAccepted(els[k..], f)
    {
      assert els[k..][1..] == els[k + 1..];
      var t := Strip(els[k]);
      if Accepts(f, t) {
        found := Some(t);
        return;
      }
      k := k + 1;
    }
  }

  /** The nested loop for Location and About: try the selectors in order and
      stop at the first whose scan finds an accepted text. */
  method ResolveFiltered(p: Page, sels: seq<string>, f: Filter) returns (text: string)
    ensures text == Resolve(p, sels, MultiElement(f))
  {
    text := "";
    var i := 0;
    while i < |sels|
      invariant 0 <= i <= |sels|
      invariant text == ""
      invariant Resolve(p, sels, MultiElement(f)) == Resolve(p, sels[i..], MultiElement(f))
    {
      assert sels[i..][1..] == sels[i + 1..];
      var found := ScanMatches(Matches(p, sels[i]), f);
      if found.Some? {
        text := found.value;
        return;
      }
      i := i + 1;
    }
  }

  /** What a filtered cascade returns passes the filter, unless it is empty. */
  lemma {:induction false} ResolveAccepted(p: Page, sels: seq<string>, f: Filter)
    ensures Resolve(p, sels, MultiElement(f)) == "" || Accepts(f, Resolve(p, sels, MultiElement(f)))
  {
    if sels != [] && Candidate(p, sels[0], MultiElement(f)).None? {
      ResolveAccepted(p, sels[1..], f);
    }
  }
}
