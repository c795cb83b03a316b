/** The URL list and the batch run: which lines of the URL file are kept, and
    the one-record-per-URL loop of a scraping run. */
module Batch {
  import opened Text
  import opened Dom
  import opened Extraction

  /** A file line is kept when, trimmed, it starts with "http". */
  predicate IsUrlLine(line: string)
    ensures IsUrlLine(line) <==> StartsWith(Strip(line), "http")
  {
    var u := Strip(line);
    u != "" && StartsWith(u, "http")
  }

  /** The URLs of a file's lines: the trimmed lines that are kept, in order. */
  function KeptUrls(lines: seq<string>): (urls: seq<string>)
    ensures |urls| <= |lines|
    ensures forall k | 0 <= k < |urls| :: StartsWith(urls[k], "http") && IsStripped(urls[k])
  {
    if lines == [] then []
    else (if IsUrlLine(lines[0]) then [Strip(lines[0])] else []) + KeptUrls(lines[1..])
  }

  /** Filtering keeps file order: it distributes over concatenation. */
  lemma {:induction false} KeptUrlsAppend(a: seq<string>, b: seq<string>)
    ensures KeptUrls(a + b) == KeptUrls(a) + KeptUrls(b)
  {
    if a == [] {
      assert a + b == b;
    } else {
      assert (a + b)[0] == a[0];
      assert (a + b)[1..] == a[1..] + b;
      KeptUrlsAppend(a[1..], b);
    }
  }

  /** Reading one more line adds its URL, if it has one, at the end. */
  lemma KeptUrlsSnoc(a: seq<string>, line: string)
    ensures KeptUrls(a + [line]) == KeptUrls(a) + (if IsUrlLine(line) then [Strip(line)] else [])
  {
    KeptUrlsAppend(a, [line]);
    assert [line][1..] == [];
  }

  /** A URL is kept exactly when it is the trimmed text of some line that
      starts with "http". */
  lemma {:induction false} KeptUrlsMembers(lines: seq<string>, u: string)
    ensures u in KeptUrls(lines) <==>
      exists k | 0 <= k < |lines| :: IsUrlLine(lines[k]) && Strip(lines[k]) == u
  {
    if lines != [] {
      var tail := lines[1..];
      KeptUrlsMembers(tail, u);
      if u in KeptUrls(lines) && !(IsUrlLine(lines[0]) && Strip(lines[0]) == u) {
        var k :| 0 <= k < |tail| && IsUrlLine(tail[k]) && Strip(tail[k]) == u;
        assert lines[k + 1] == tail[k];
      }
      if exists k | 0 <= k < |lines| :: IsUrlLine(lines[k]) && Strip(lines[k]) == u {
        var k :| 0 <= k < |lines| && IsUrlLine(lines[k]) && Strip(lines[k]) == u;
        if k > 0 {
          assert tail[k - 1] == lines[k];
        }
      }
    }
  }

  /** `read_urls_from_file`: go through the file's lines, keeping each
      trimmed line that starts with "http"; a missing file yields no URLs. */
  method ReadUrlsFromFile(file: Option<seq<string>>) returns (urls: seq<string>)
    ensures file.None? ==> urls == []
    ensures file.Some? ==> urls == KeptUrls(file.value)
  {
    urls := [];
    if file.None? {
      return;
    }
    var lines := file.value;
    var i := 0;
    while i < |lines|
      invariant 0 <= i <= |lines|
      invariant urls == KeptUrls(lines[..i])
    {
      var url := Strip(lines[i]);
      KeptUrlsSnoc(lines[..i], lines[i]);
      assert lines[..i + 1] == lines[..i] + [lines[i]];
      if url != "" && StartsWith(url, "http") {
        urls := urls + [url];
      }
      i := i + 1;
    }
    assert lines[..i] == lines;
  }

  /** The records of a batch: one per URL, the record of the page that URL
      shows. */
  function Records(urls: seq<string>, site: string -> Page): (records: seq<ProfileRecord>)
    ensures |records| == |urls|
  {
    seq(|urls|, i requires 0 <= i < |urls| => Profile(site(urls[i])))
  }

  /** A page that fails to load still has its row, the all-empty record. */
  lemma FailedPagesKeepTheirRow(urls: seq<string>, site: string -> Page, i: nat)
    requires i < |urls| && site(urls[i]).fetchFails
    ensures Records(urls, site)[i] == EmptyRecord
  {
  }

  /** One more URL adds its record at the end. */
  lemma RecordsSnoc(urls: seq<string>, url: string, site: string -> Page)
    ensures Records(urls + [url], site) == Records(urls, site) + [Profile(site(url))]
  {
    var l := Records(urls + [url], site);
    var r := Records(urls, site) + [Profile(site(url))];
    forall i | 0 <= i < |l| ensures l[i] == r[i] {
      if i == |urls| {
        assert (urls + [url])[i] == url;
      } else {
        assert (urls + [url])[i] == urls[i];
      }
    }
  }

  /** The batch loop: extract every URL in order and append its record; a
      page that fails still contributes its (empty) record and the loop goes
      on. */
  method ScrapeAll(urls: seq<string>, site: string -> Page) returns (records: seq<ProfileRecord>)
    ensures records == Records(urls, site)
  {
    records := [];
    var i := 0;
    while i < |urls|
      invariant 0 <= i <= |urls|
      invariant records == Records(urls[..i], site)
    {
      var record := ExtractProfileData(site(urls[i]));
      RecordsSnoc(urls[..i], urls[i], site);
      assert urls[..i + 1] == urls[..i] + [urls[i]];
      records := records + [record];
      i := i + 1;
    }
    assert urls[..i] == urls;
  }

  /** The batch is the same whether taken at once or in two parts. */
  lemma RecordsAppend(u: seq<string>, v: seq<string>, site: string -> Page)
    ensures Records(u + v, site) == Records(u, site) + Records(v, site)
  {
    var l := Records(u + v, site);
    var r := Records(u, site) + Records(v, site);
    forall i | 0 <= i < |l| ensures l[i] == r[i] {
      if i >= |u| {
        assert (u + v)[i] == v[i - |u|];
      }
    }
  }

  /** `scrape_profiles`: nothing is written when the login fails or the URL
      file yields no URLs; otherwise the rows written are the records of the
      kept URLs, in file order. */
  method ScrapeProfiles(loginSucceeds: bool, file: Option<seq<string>>, site: string -> Page)
    returns (written: Option<seq<ProfileRecord>>)
    ensures written.Some? <==> loginSucceeds && file.Some? && KeptUrls(file.value) != []
    ensures written.Some? ==> written.value == Records(KeptUrls(file.value), site)
  {
    if !loginSucceeds {
      return None;
    }
    var urls := ReadUrlsFromFile(file);
    if urls == [] {
      return None;
    }
    var records := ScrapeAll(urls, site);
    written := Some(records);
  }
}
