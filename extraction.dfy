/** One profile page turned into one record: the five field extractors run
    in the scraper's order over the abstract page, each filling its field of
    a record that starts out empty. */
module Extraction {
  import opened Text
  import opened Dom
  import opened Experience
  import opened Headline

  /** The five columns of the output, in CSV order. */
  datatype ProfileRecord = ProfileRecord(
    name: string,
    headline: string,
    company: string,
    location: string,
    about: string)

  /** The record every extraction starts from, and the one a failed page
      yields. */
  const EmptyRecord: ProfileRecord := ProfileRecord("", "", "", "", "")

  const NameSelectors: seq<string> := [
    "h1.text-heading-xlarge",
    "h1.pv-text-details__left-panel h1",
    "h1[data-generated-suggestion-target]",
    "main section h1",
    "h1"
  ]

  const HeadlineSelectors: seq<string> := [
    ".text-body-medium.break-words",
    ".pv-text-details__left-panel .text-body-medium",
    ".ph5.pb5 .text-body-medium",
    "[data-generated-suggestion-target] + .text-body-medium",
    ".text-body-medium"
  ]

  const LocationSelectors: seq<string> := [
    ".text-body-small.inline.t-black--light.break-words",
    ".pv-text-details__left-panel .text-body-small",
    ".ph5.pb5 .text-body-small",
    "[data-test-id='location']",
    ".text-body-small"
  ]

  const AboutSelectors: seq<string> := [
    "section[data-section='summary'] .inline-show-more-text",
    "section[data-section='summary'] .pv-shared-text-with-see-more",
    "#about ~ .display-flex .inline-show-more-text",
    "#about ~ .pv-shared-text-with-see-more",
    "section[id='about'] .inline-show-more-text",
    "section[id='about'] .pv-shared-text-with-see-more",
    "[data-section='summary'] .inline-show-more-text",
    "[data-section='summary']",
    "#about",
    "section[id*='about']"
  ]

  /** The About text taken from the heading's neighbour: accepted only when
      it is longer than 20 characters. */
  function SiblingAbout(p: Page): (about: string)
    ensures about == "" || (|about| > 20 && p.aboutSibling == Some(about))
  {
    match p.aboutSibling
    case Some(t) => if t != "" && |t| > 20 then t else ""
    case None => ""
  }

  /** Company: the experience section first, the headline only when that
      found nothing and there is a headline. */
  function CompanyField(p: Page, headline: string): (company: string)
    ensures IsStripped(company)
  {
    var c := ExperienceStage(p, ExperienceSelectors);
    if c == "" && headline != "" then CompanyFromHeadline(headline) else c
  }

  /** About: the filtered cascade first, the heading's neighbour otherwise. */
  function AboutField(p: Page): (about: string)
    ensures about == "" || |about| > 20
  {
    ResolveAccepted(p, AboutSelectors, AboutText);
    var a := Resolve(p, AboutSelectors, MultiElement(AboutText));
    if a == "" then SiblingAbout(p) else a
  }

  /** The record the scraper returns for a page: all empty when the page
      fails to load; otherwise Name, Headline, Company and Location are
      trimmed text. */
  function Profile(p: Page): (r: ProfileRecord)
    ensures p.fetchFails ==> r == ProfileRecord("", "", "", "", "")
    ensures IsStripped(r.name) && IsStripped(r.headline)
    ensures IsStripped(r.company) && IsStripped(r.location)
  {
    if p.fetchFails then EmptyRecord
    else
      var headline := Resolve(p, HeadlineSelectors, SingleElement);
      ProfileRecord(
        Resolve(p, NameSelectors, SingleElement),
        headline,
        CompanyField(p, headline),
        Resolve(p, LocationSelectors, MultiElement(LocationText)),
        AboutField(p))
  }

  /** The extraction: fill the record field by field, Name, Headline,
      Location, Company, About, in the order the scraper does. */
  method ExtractProfileData(p: Page) returns (record: ProfileRecord)
    ensures record == Profile(p)
  {
    if p.fetchFails {
      return EmptyRecord;
    }
    record := EmptyRecord;
    var name := ResolveSingle(p, NameSelectors);
    record := record.(name := name);
    var headline := ResolveSingle(p, HeadlineSelectors);
    record := record.(headline := headline);
    var location := ResolveFiltered(p, LocationSelectors, LocationText);
    record := record.(location := location);
    var company := ExtractCompany(p, headline);
    record := record.(company := company);
    var about := ExtractAbout(p);
    record := record.(about := about);
  }

  /** The company extractor: stage 1 over the experience section, then the
      headline heuristic when that found nothing and a headline exists. */
  method ExtractCompany(p: Page, headline: string) returns (company: string)
    ensures company == CompanyField(p, headline)
  {
    company := FindExperienceCompany(p, ExperienceSelectors);
    if company == "" && headline != "" {
      company := CompanyFromHeadline(headline);
    }
  }

  /** The About extractor: the filtered cascade, then the neighbour of the
      About heading when the cascade found nothing. */
  method ExtractAbout(p: Page) returns (about: string)
    ensures about == AboutField(p)
  {
    about := ResolveFiltered(p, AboutSelectors, AboutText);
    if about == "" {
      match p.aboutSibling {
        case Some(t) =>
          if t != "" && |t| > 20 {
            about := t;
          }
        case None =>
      }
    }
  }

  // ---------------------------------------------------------------------
  // What a record says about its page

  /** Company comes from the experience section whenever that names one;
      the headline is consulted only when it does not and a headline was
      found, and what it yields is then a piece of that headline. */
  lemma CompanySources(p: Page)
    requires !p.fetchFails
    ensures var r := Profile(p);
      var stage := ExperienceStage(p, ExperienceSelectors);
      && (stage != "" ==> r.company == stage)
      && (stage == "" && r.headline == "" ==> r.company == "")
      && (stage == "" && r.headline != "" ==>
            r.company == CompanyFromHeadline(r.headline) && Contains(r.headline, r.company))
  {
    var r := Profile(p);
    if ExperienceStage(p, ExperienceSelectors) == "" && r.headline != "" {
      CompanyIsPieceOfHeadline(r.headline);
    }
  }

  /** Location is empty or passes the bullet filter; About is empty or
      longer than 20 characters, and when it does not come from the
      neighbour of the heading it does not open with the "About" label. */
  lemma FilteredFields(p: Page)
    requires !p.fetchFails
    ensures var r := Profile(p);
      && (r.location == "" || Accepts(LocationText, r.location))
      && (r.about == "" || |r.about| > 20)
      && (Resolve(p, AboutSelectors, MultiElement(AboutText)) != "" ==>
            r.about == Resolve(p, AboutSelectors, MultiElement(AboutText))
            && !Contains(Take(r.about, 10), "About"))
  {
    ResolveAccepted(p, LocationSelectors, LocationText);
    ResolveAccepted(p, AboutSelectors, AboutText);
  }

  /** The neighbour of the About heading is used exactly when no About
      selector yields a text and the neighbour's text is longer than 20
      characters. */
  lemma AboutFallback(p: Page)
    requires !p.fetchFails
    ensures var r := Profile(p);
      var fromSelectors := Resolve(p, AboutSelectors, MultiElement(AboutText));
      && (fromSelectors == "" && p.aboutSibling.Some? && |p.aboutSibling.value| > 20 ==>
            r.about == p.aboutSibling.value)
      && (fromSelectors == "" && (p.aboutSibling.None? || |p.aboutSibling.value| <= 20) ==>
            r.about == "")
      && (fromSelectors == "" <==>
            forall i | 0 <= i < |AboutSelectors| ::
              Candidate(p, AboutSelectors[i], MultiElement(AboutText)).None?)
  {
    ResolveFirst(p, AboutSelectors, MultiElement(AboutText));
  }
}
