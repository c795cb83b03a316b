/** Headline shapes and what the company heuristic makes of them, including
    the two places where it departs from "the text after the last ' at '". */
module HeadlineCases {
  import opened Text
  import opened Headline

  /** A headline without '|' is kept whole. */
  lemma NoBarNoTruncation(h: string)
    requires '|' !in h
    ensures TruncateHeadline(h) == h
  {
    NoneByChar(h, " || ", 1);
    NoneByChar(h, " | ", 1);
  }

  /** Of "<first> || <rest>" only the first employer is kept, whatever the
      rest says. */
  lemma FirstEmployerOnly(t: string, u: string)
    requires '|' !in t
    ensures TruncateHeadline(t + " || " + u) == t
  {
    var h := t + " || " + u;
    var k := |t|;
    assert h[k..k + 4] == " || ";
    forall i | 1 <= i < k + 1 ensures h[i] != '|' {
      if i < k {
        assert h[i] == t[i];
      } else {
        assert h[i] == h[k..k + 4][0];
      }
    }
    NoneWhereCharDiffers(h, " || ", 0, k, 1);
    FindIs(h, " || ", k);
    SplitFirst(h, " || ");
    assert h[..k] == t;
    assert Contains(h, " || ");
  }

  /** A company without '|' is left alone by the clean-up. */
  lemma NoBarNoCleanup(c: string)
    requires '|' !in c
    ensures CleanSuffix(Strip(c)) == Strip(c)
  {
    var s := Strip(c);
    StripContained(c);
    if |s| > 0 {
      var i :| 0 <= i <= |c| - |s| && OccursAt(c, s, i);
      assert s[|s| - 1] == c[i + |s| - 1];
    }
  }

  /** The positions just before a separator `" at "` placed at `|a|` cannot
      start another `" at "` unless `a` ends with `" at"`. */
  lemma NoOverlapBefore(a: string, rest: string)
    requires !EndsWith(a, " at")
    requires StartsWith(rest, " at ")
    ensures forall j | |a| - 4 < j < |a| :: !OccursAt(a + rest, " at ", j)
  {
    var h := a + rest;
    var k := |a|;
    assert h[k] == ' ' by { assert h[k] == rest[..4][0]; }
    NoneWhereCharDiffers(h, " at ", k - 1, k, 1);
    NoneWhereCharDiffers(h, " at ", k - 2, k - 1, 2);
    if k >= 3 {
      assert h[k - 3..k] == a[k - 3..];
      assert h[k - 3..k + 1][..3] == h[k - 3..k];
    }
  }

  /** Past a separator `" at "` placed at `|a|`, no `" at "` starts when the
      text after it, with one leading space, has none. */
  lemma NoneAfter(a: string, c: string)
    requires !Contains(" " + c, " at ")
    ensures forall j | |a| < j :: !OccursAt(a + " at " + c, " at ", j)
  {
    var h := a + " at " + c;
    var k := |a|;
    assert h[k + 1] == 'a' && h[k + 2] == 't';
    NoneWhereCharDiffers(h, " at ", k + 1, k + 3, 0);
    assert h[k + 3..] == " " + c;
    forall j | k + 3 <= j ensures !OccursAt(h, " at ", j) {
      OccursInSuffix(h, " at ", k + 3, j - (k + 3));
    }
  }

  /** With one " at " and no '|', the company is the trimmed text after it,
      even when an earlier " at " precedes it. */
  lemma CompanyAfterLastAt(a: string, c: string)
    requires '|' !in a && '|' !in c
    requires !EndsWith(a, " at")
    requires !Contains(" " + c, " at ")
    ensures CompanyFromHeadline(a + " at " + c) == Strip(c)
  {
    var h := a + " at " + c;
    var k := |a|;
    assert '|' !in h;
    NoBarNoTruncation(h);
    assert h[k..k + 4] == " at ";
    assert h[k..][..4] == " at ";
    assert h == a + h[k..];
    NoOverlapBefore(a, h[k..]);
    NoneAfter(a, c);
    AtTakesTextAfterLastOccurrence(h, k);
    assert h[k + 4..] == c;
    NoBarNoCleanup(c);
  }

  /** A separator `" at "` placed right after a text without one (and not
      ending in " at") is the leftmost. */
  lemma LeftmostAt(a: string, r: string)
    requires !Contains(a, " at ") && !EndsWith(a, " at")
    ensures Find(a + " at " + r, " at ") == Some(|a|)
  {
    var h := a + " at " + r;
    var k := |a|;
    assert h[k..k + 4] == " at ";
    forall j | 0 <= j && j + 4 <= k ensures !OccursAt(h, " at ", j) {
      assert h[j..j + 4] == a[j..j + 4];
      assert !OccursAt(a, " at ", j);
    }
    assert h[k..][..4] == " at ";
    assert h == a + h[k..];
    NoOverlapBefore(a, h[k..]);
    FindIs(h, " at ", k);
  }

  /** "at " followed by a text whose spaced form has no " at " has none. */
  lemma NoAtInOverlapTail(c: string)
    requires !Contains(" " + c, " at ")
    ensures forall j :: !OccursAt("at " + c, " at ", j)
  {
    var r := "at " + c;
    assert r[0] == 'a' && r[1] == 't';
    NoneWhereCharDiffers(r, " at ", 0, 2, 0);
    assert r[2..] == " " + c;
    forall j ensures !OccursAt(r, " at ", j) {
      OccursInSuffix(r, " at ", 2, j - 2);
    }
  }

  /** Splitting "<a> at at <c>" on " at " gives two pieces: `a` and "at <c>". */
  lemma OverlapSplit(a: string, c: string)
    requires !Contains(a, " at ") && !EndsWith(a, " at")
    requires !Contains(" " + c, " at ")
    ensures Split(a + " at at " + c, " at ") == [a, "at " + c]
  {
    var r := "at " + c;
    var h := a + " at " + r;
    var k := |a|;
    assert h == a + " at at " + c;
    LeftmostAt(a, r);
    NoAtInOverlapTail(c);
    SplitWithout(r, " at ");
    SplitUnfold(h, " at ");
    assert h[..k] == a && h[k + 4..] == r;
  }

  /** "... at at Acme": Python's split consumes the first " at " and cannot
      see the second, which overlaps it, so the company keeps the word "at"
      although another " at " starts three characters later. */
  lemma OverlappingAtLeaksIntoCompany(a: string, c: string)
    requires '|' !in a && '|' !in c
    requires !Contains(a, " at ") && !EndsWith(a, " at")
    requires !Contains(" " + c, " at ")
    ensures OccursAt(a + " at at " + c, " at ", |a| + 3)
    ensures CompanyFromHeadline(a + " at at " + c) == Strip("at " + c)
    ensures c != "" && IsStripped(c) ==> CompanyFromHeadline(a + " at at " + c) == "at " + c
  {
    var r := "at " + c;
    var h := a + " at at " + c;
    var k := |a|;
    assert h[k + 3..k + 7] == " at ";
    assert h[k..k + 4] == " at ";
    assert '|' !in h && '|' !in r;
    NoBarNoTruncation(h);
    OverlapSplit(a, c);
    NoBarNoCleanup(r);
    if c != "" && IsStripped(c) {
      StripOfStripped(r);
    }
  }

  /** The clean-up drops three characters whichever suffix it saw: right for
      " ||", one too many for " |", which costs the company its last
      letter (and a one-letter company its whole name). */
  lemma CleanupDropsThreeCharacters(c: string)
    requires c != "" && IsStripped(c)
    ensures CleanSuffix(Strip(c + " ||")) == c
    ensures CleanSuffix(Strip(c + " |")) == Strip(c[..|c| - 1])
    ensures |c| == 1 ==> CleanSuffix(Strip(c + " |")) == ""
  {
    var d2 := c + " ||";
    var d1 := c + " |";
    assert d2[|d2| - 3..] == " ||" && d2[0] == c[0];
    assert d1[|d1| - 2..] == " |" && d1[0] == c[0];
    StripOfStripped(d2);
    StripOfStripped(d1);
    assert DropLast(d2, 3) == c;
    StripOfStripped(c);
    assert DropLast(d1, 3) == c[..|c| - 1];
  }
}
