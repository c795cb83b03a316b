/** The Python string operations the scraper's heuristics are built from,
    stated over `string` (a sequence of Unicode scalar values). */
module Text {

  datatype Option<+T> = None | Some(value: T)

  /** Python's `str.isspace()` for a single character: the characters that a
      bare `str.strip()` removes from either end. */
  predicate IsSpace(c: char)
    ensures c == ' ' || c == '\t' || c == '\n' || c == '\r' ==> IsSpace(c)
    ensures IsSpace(c) ==> !('a' <= c <= 'z' || 'A' <= c <= 'Z' || '0' <= c <= '9')
  {
    var n := c as int;
    (9 <= n <= 13) || (28 <= n <= 32) || n == 0x85 || n == 0xA0 || n == 0x1680
    || (0x2000 <= n <= 0x200A) || n == 0x2028 || n == 0x2029 || n == 0x202F
    || n == 0x205F || n == 0x3000
  }

  predicate AllSpace(s: string) {
    forall i | 0 <= i < |s| :: IsSpace(s[i])
  }

  /** A string that `strip()` leaves unchanged. */
  predicate IsStripped(s: string) {
    s == [] || (!IsSpace(s[0]) && !IsSpace(s[|s| - 1]))
  }

  // ---------------------------------------------------------------------
  // Substrings: Python's `pat in s`, `s.startswith(p)`, `s.endswith(p)`

  /** `pat` occurs in `s` starting at index `i`. */
  predicate OccursAt(s: string, pat: string, i: int) {
    0 <= i && i + |pat| <= |s| && s[i..i + |pat|] == pat
  }

  /** Python's `pat in s`: every text contains itself and the empty text. */
  predicate Contains(s: string, pat: string)
    ensures pat == [] ==> Contains(s, pat)
    ensures pat == s ==> Contains(s, pat)
  {
    assert pat == [] || pat == s ==> OccursAt(s, pat, 0);
    exists i | 0 <= i <= |s| - |pat| :: OccursAt(s, pat, i)
  }

  /** Python's `s.startswith(p)`: `p` occurs at the front of `s`. */
  predicate StartsWith(s: string, p: string)
    ensures StartsWith(s, p) <==> OccursAt(s, p, 0)
    ensures StartsWith(s, p) ==> Contains(s, p)
  {
    |p| <= |s| && s[..|p|] == p
  }

  /** Python's `s.endswith(p)`: `p` occurs at the back of `s`. */
  predicate EndsWith(s: string, p: string)
    ensures EndsWith(s, p) <==> OccursAt(s, p, |s| - |p|)
    ensures EndsWith(s, p) ==> Contains(s, p)
  {
    |p| <= |s| && s[|s| - |p|..] == p
  }

  // ---------------------------------------------------------------------
  // strip()

  function TrimStart(s: string): (r: string)
    ensures |r| <= |s|
  {
    if |s| > 0 && IsSpace(s[0]) then TrimStart(s[1..]) else s
  }

  /** `lstrip()` removes a whitespace prefix and stops at the first other
      character. */
  lemma {:induction false} TrimStartShape(s: string)
    ensures var r := TrimStart(s);
      && r == s[|s| - |r|..]
      && AllSpace(s[..|s| - |r|])
      && (r == [] || !IsSpace(r[0]))
  {
    if |s| > 0 && IsSpace(s[0]) {
      TrimStartShape(s[1..]);
      var r := TrimStart(s);
      assert s[1..][..|s| - 1 - |r|] == s[1..|s| - |r|];
      assert s[..|s| - |r|] == [s[0]] + s[1..|s| - |r|];
    }
  }

  function TrimEnd(s: string): (r: string)
    ensures |r| <= |s|
  {
    if |s| > 0 && IsSpace(s[|s| - 1]) then TrimEnd(s[..|s| - 1]) else s
  }

  /** `rstrip()` removes a whitespace suffix and stops at the last other
      character. */
  lemma {:induction false} TrimEndShape(s: string)
    ensures var r := TrimEnd(s);
      && r == s[..|r|]
      && AllSpace(s[|r|..])
      && (r == [] || !IsSpace(r[|r| - 1]))
  {
    if |s| > 0 && IsSpace(s[|s| - 1]) {
      TrimEndShape(s[..|s| - 1]);
      var r := TrimEnd(s);
      assert s[..|s| - 1][|r|..] == s[|r|..|s| - 1];
      assert s[|r|..] == s[|r|..|s| - 1] + [s[|s| - 1]];
    }
  }

  /** Python's `s.strip()`. */
  function Strip(s: string): (r: string)
    ensures |r| <= |s|
    ensures IsStripped(r)
  {
    TrimStartShape(s);
    TrimEndShape(TrimStart(s));
    TrimEnd(TrimStart(s))
  }

  /** `strip()` yields the empty string exactly when the input is all
      whitespace (Python's "`text.strip()` is falsy"). */
  lemma StripEmpty(s: string)
    ensures Strip(s) == [] <==> AllSpace(s)
  {
    var t := TrimStart(s);
    TrimStartShape(s);
    TrimEndShape(t);
    if Strip(s) == [] {
      assert AllSpace(t[0..]);
      assert s == s[..|s| - |t|] + t;
    }
  }

  /** What `strip()` keeps is a contiguous piece of its input. */
  lemma StripContained(s: string)
    ensures Contains(s, Strip(s))
  {
    var t := TrimStart(s);
    TrimStartShape(s);
    TrimEndShape(t);
    assert OccursAt(s, Strip(s), |s| - |t|);
  }

  lemma StripOfStripped(s: string)
    requires IsStripped(s)
    ensures Strip(s) == s
  {
  }

  // ---------------------------------------------------------------------
  // Slicing: Python's `s[:n]` and `s[:-n]`

  /** Python's `s[:n]` for `n >= 0`. */
  function Take(s: string, n: nat): (r: string)
    ensures |r| <= n && StartsWith(s, r)
    ensures |s| >= n ==> |r| == n
    ensures |s| <= n ==> r == s
  {
    if |s| <= n then s else s[..n]
  }

  /** Python's `s[:-n]` for `n > 0`: empty when `s` is shorter than `n`. */
  function DropLast(s: string, n: nat): (r: string)
    requires n > 0
    ensures StartsWith(s, r)
    ensures |r| == if |s| >= n then |s| - n else 0
  {
    if |s| >= n then s[..|s| - n] else ""
  }

  /** Python's `s.lower()`, restricted to ASCII letters. */
  function Lower(s: string): (r: string)
    ensures |r| == |s|
    ensures forall i | 0 <= i < |r| :: !IsAsciiUpper(r[i])
    ensures forall i | 0 <= i < |s| && !IsAsciiUpper(s[i]) :: r[i] == s[i]
    ensures forall i | 0 <= i < |s| && IsAsciiUpper(s[i]) :: 'a' <= r[i] <= 'z'
    ensures forall i | 0 <= i < |s| && IsAsciiUpper(s[i]) ::
      r[i] as int - 'a' as int == s[i] as int - 'A' as int
  {
    seq(|s|, i requires 0 <= i < |s| => LowerChar(s[i]))
  }

  predicate IsAsciiUpper(c: char) {
    'A' <= c <= 'Z'
  }

  function LowerChar(c: char): char {
    if 'A' <= c <= 'Z' then (c as int + 32) as char else c
  }

  // ---------------------------------------------------------------------
  // find / split

  /** Python's `s.find(pat, k)`: the leftmost occurrence at or after `k`. */
  function FindFrom(s: string, pat: string, k: nat): (r: Option<nat>)
    decreases |s| - k
    ensures r.Some? ==> k <= r.value && OccursAt(s, pat, r.value)
    ensures r.Some? ==> forall j | k <= j < r.value :: !OccursAt(s, pat, j)
    ensures r.None? ==> forall j | k <= j :: !OccursAt(s, pat, j)
  {
    if k + |pat| > |s| then None
    else if s[k..k + |pat|] == pat then Some(k)
    else FindFrom(s, pat, k + 1)
  }

  function Find(s: string, pat: string): (r: Option<nat>)
    ensures r.None? <==> !Contains(s, pat)
    ensures r.Some? ==> OccursAt(s, pat, r.value)
    ensures r.Some? ==> forall j | 0 <= j < r.value :: !OccursAt(s, pat, j)
  {
    FindFrom(s, pat, 0)
  }

  /** Python's `s.split(sep)` for a non-empty `sep`: occurrences are found
      left to right and do not overlap. */
  function Split(s: string, sep: string): (parts: seq<string>)
    requires |sep| > 0
    ensures |parts| >= 1
    decreases |s|
  {
    match Find(s, sep)
    case None => [s]
    case Some(i) => [s[..i]] + Split(s[i + |sep|..], sep)
  }

  /** Python's `s.split(sep, 1)`. */
  function SplitOnce(s: string, sep: string): (parts: seq<string>)
    requires |sep| > 0
    ensures |parts| == if Contains(s, sep) then 2 else 1
    ensures |parts| == 1 ==> parts[0] == s
    ensures |parts| == 2 ==> parts[0] + sep + parts[1] == s && !Contains(parts[0], sep)
    ensures |parts| == 2 ==> Find(s, sep) == Some(|parts[0]|)
  {
    match Find(s, sep)
    case None => [s]
    case Some(i) =>
      assert s[..i] + sep + s[i + |sep|..] == s by {
        assert s[i..i + |sep|] == sep;
      }
      PrefixBeforeFirst(s, sep, i);
      [s[..i], s[i + |sep|..]]
  }

  /** The text before the leftmost occurrence has no occurrence. */
  lemma PrefixBeforeFirst(s: string, sep: string, i: nat)
    requires |sep| > 0 && i <= |s|
    requires forall j | 0 <= j < i :: !OccursAt(s, sep, j)
    ensures !Contains(s[..i], sep)
  {
    forall j | 0 <= j <= i - |sep| ensures !OccursAt(s[..i], sep, j) {
      if OccursAt(s[..i], sep, j) {
        OccursInPrefix(s, sep, i, j);
      }
    }
  }

  /** Python's `sep.join(parts)`. */
  function Join(parts: seq<string>, sep: string): string {
    if parts == [] then ""
    else if |parts| == 1 then parts[0]
    else parts[0] + sep + Join(parts[1..], sep)
  }

  function Last<T>(xs: seq<T>): T
    requires |xs| > 0
  {
    xs[|xs| - 1]
  }

  // ---------------------------------------------------------------------
  // Lemmas about occurrences

  lemma OccursInSuffix(s: string, pat: string, m: nat, j: int)
    requires m <= |s|
    ensures OccursAt(s[m..], pat, j) <==> (0 <= j && OccursAt(s, pat, j + m))
  {
    if 0 <= j && j + |pat| <= |s| - m {
      assert s[m..][j..j + |pat|] == s[j + m..j + m + |pat|];
    }
  }

  lemma OccursInPrefix(s: string, pat: string, n: nat, j: int)
    requires n <= |s|
    requires OccursAt(s[..n], pat, j)
    ensures OccursAt(s, pat, j)
  {
    assert s[..n][j..j + |pat|] == s[j..j + |pat|];
  }

  /** Containment is transitive. */
  lemma ContainsTrans(a: string, b: string, c: string)
    requires Contains(a, b) && Contains(b, c)
    ensures Contains(a, c)
  {
    var i :| 0 <= i <= |a| - |b| && OccursAt(a, b, i);
    var j :| 0 <= j <= |b| - |c| && OccursAt(b, c, j);
    assert a[i..i + |b|] == b;
    assert b[j..j + |c|] == c;
    forall t | 0 <= t < |c| ensures a[i + j + t] == c[t] {
      assert a[i + j + t] == a[i..i + |b|][j + t];
    }
    assert a[i + j..i + j + |c|] == c;
    assert OccursAt(a, c, i + j);
  }

  lemma ContainsEmpty(s: string)
    ensures Contains(s, "")
  {
    assert OccursAt(s, "", 0);
  }

  lemma ContainsPrefix(s: string, n: nat)
    requires n <= |s|
    ensures Contains(s, s[..n])
  {
    assert OccursAt(s, s[..n], 0);
  }

  lemma ContainsSuffix(s: string, m: nat)
    requires m <= |s|
    ensures Contains(s, s[m..])
  {
    assert OccursAt(s, s[m..], m);
  }

  // ---------------------------------------------------------------------
  // Lemmas about split

  /** The first piece of a split is the text before the leftmost
      occurrence, or the whole string when there is none. */
  lemma SplitFirst(s: string, sep: string)
    requires |sep| > 0
    ensures Find(s, sep).None? ==> Split(s, sep) == [s]
    ensures Find(s, sep).Some? ==> Split(s, sep)[0] == s[..Find(s, sep).value]
  {
  }

  /** Splitting then joining with the same separator gives back the input. */
  lemma {:induction false} JoinSplit(s: string, sep: string)
    requires |sep| > 0
    ensures Join(Split(s, sep), sep) == s
    decreases |s|
  {
    if Find(s, sep).Some? {
      var i := Find(s, sep).value;
      var rest := s[i + |sep|..];
      var tail := Split(rest, sep);
      JoinSplit(rest, sep);
      SplitUnfold(s, sep);
      JoinCons(s[..i], tail, sep);
      assert s[i..i + |sep|] == sep;
      assert s == s[..i] + s[i..i + |sep|] + rest;
    }
  }

  /** Joining a list with a head: the head, the separator, then the rest. */
  lemma JoinCons(h: string, tail: seq<string>, sep: string)
    requires |tail| > 0
    ensures Join([h] + tail, sep) == h + sep + Join(tail, sep)
  {
    assert ([h] + tail)[1..] == tail;
  }

  /** A split has more than one piece exactly when the separator occurs. */
  lemma SplitCount(s: string, sep: string)
    requires |sep| > 0
    ensures |Split(s, sep)| > 1 <==> Contains(s, sep)
  {
  }

  /** No piece of a split contains the separator. */
  lemma {:induction false} SplitPiecesFree(s: string, sep: string)
    requires |sep| > 0
    ensures forall k | 0 <= k < |Split(s, sep)| :: !Contains(Split(s, sep)[k], sep)
    decreases |s|
  {
    match Find(s, sep)
    case None =>
    case Some(i) =>
      var rest := s[i + |sep|..];
      var tail := Split(rest, sep);
      SplitPiecesFree(rest, sep);
      PrefixBeforeFirst(s, sep, i);
      var parts := Split(s, sep);
      assert parts == [s[..i]] + tail;
      forall k | 0 <= k < |parts| ensures !Contains(parts[k], sep) {
        if k > 0 {
          assert parts[k] == tail[k - 1];
        }
      }
  }

  /** Every piece of a split is a piece of the input. */
  lemma {:induction false} SplitPiecesContained(s: string, sep: string)
    requires |sep| > 0
    ensures forall k | 0 <= k < |Split(s, sep)| :: Contains(s, Split(s, sep)[k])
    decreases |s|
  {
    match Find(s, sep)
    case None =>
      assert OccursAt(s, s, 0);
    case Some(i) =>
      var rest := s[i + |sep|..];
      var tail := Split(rest, sep);
      SplitPiecesContained(rest, sep);
      assert Split(s, sep) == [s[..i]] + tail;
      forall k | 0 <= k < |Split(s, sep)|
        ensures Contains(s, Split(s, sep)[k])
      {
        if k == 0 {
          ContainsPrefix(s, i);
        } else {
          assert Split(s, sep)[k] == tail[k - 1];
          ContainsSuffix(s, i + |sep|);
          ContainsTrans(s, rest, tail[k - 1]);
        }
      }
  }

  /** The last piece of a split is the text after the last occurrence of the
      separator, provided that occurrence does not overlap an earlier one
      (left-to-right scanning would otherwise step over it). */
  lemma {:induction false} SplitLastAfterLastOccurrence(s: string, sep: string, k: nat)
    requires |sep| > 0
    requires OccursAt(s, sep, k)
    requires forall j | k < j :: !OccursAt(s, sep, j)
    requires forall j | k - |sep| < j < k :: !OccursAt(s, sep, j)
    ensures Last(Split(s, sep)) == s[k + |sep|..]
    decreases |s|, 1
  {
    FirstBeforeLast(s, sep, k);
    var i := Find(s, sep).value;
    if i == k {
      LastPieceWhenOnlyOccurrence(s, sep, k);
    } else {
      SplitLastUnfold(s, sep);
      LastPieceOfRest(s, sep, i + |sep|, k);
    }
  }

  /** The base case: the leftmost occurrence is also the last one. */
  lemma LastPieceWhenOnlyOccurrence(s: string, sep: string, k: nat)
    requires |sep| > 0
    requires Find(s, sep) == Some(k)
    requires forall j | k < j :: !OccursAt(s, sep, j)
    ensures Last(Split(s, sep)) == s[k + |sep|..]
  {
    SplitLastUnfold(s, sep);
    NothingAfterLast(s, sep, k);
  }

  /** The induction step: the text after the leftmost occurrence ends with
      the same last piece. */
  lemma {:induction false} LastPieceOfRest(s: string, sep: string, m: nat, k: nat)
    requires |sep| > 0 && 0 < m <= k
    requires OccursAt(s, sep, k)
    requires forall j | k < j :: !OccursAt(s, sep, j)
    requires forall j | k - |sep| < j < k :: !OccursAt(s, sep, j)
    ensures Last(Split(s[m..], sep)) == s[k + |sep|..]
    decreases |s|, 0
  {
    LastOccurrenceInSuffix(s, sep, m, k);
    SplitLastAfterLastOccurrence(s[m..], sep, k - m);
    assert s[m..][k - m + |sep|..] == s[k + |sep|..];
  }

  /** The leftmost occurrence is the last one, or ends before it starts. */
  lemma FirstBeforeLast(s: string, sep: string, k: nat)
    requires |sep| > 0
    requires OccursAt(s, sep, k)
    requires forall j | k - |sep| < j < k :: !OccursAt(s, sep, j)
    ensures Find(s, sep).Some?
    ensures Find(s, sep).value == k || Find(s, sep).value + |sep| <= k
  {
    assert Contains(s, sep);
  }

  /** After the last occurrence the text splits into one piece. */
  lemma {:induction false} NothingAfterLast(s: string, sep: string, k: nat)
    requires |sep| > 0
    requires OccursAt(s, sep, k)
    requires forall j | k < j :: !OccursAt(s, sep, j)
    ensures Split(s[k + |sep|..], sep) == [s[k + |sep|..]]
  {
    NoneAfterInSuffix(s, sep, k + |sep|, 0);
    SplitWithout(s[k + |sep|..], sep);
  }

  /** The last occurrence of `sep` in `s` is still the last one, and still
      not overlapped from the left, in a suffix that contains it. */
  lemma LastOccurrenceInSuffix(s: string, sep: string, m: nat, k: nat)
    requires m <= k
    requires OccursAt(s, sep, k)
    requires forall j | k < j :: !OccursAt(s, sep, j)
    requires forall j | k - |sep| < j < k :: !OccursAt(s, sep, j)
    ensures OccursAt(s[m..], sep, k - m)
    ensures forall j | k - m < j :: !OccursAt(s[m..], sep, j)
    ensures forall j | k - m - |sep| < j < k - m :: !OccursAt(s[m..], sep, j)
  {
    forall j ensures OccursAt(s[m..], sep, j) <==> 0 <= j && OccursAt(s, sep, j + m) {
      OccursInSuffix(s, sep, m, j);
    }
  }

  /** The last piece of a split is the last piece of the rest after the
      leftmost occurrence. */
  lemma SplitLastUnfold(s: string, sep: string)
    requires |sep| > 0 && Find(s, sep).Some?
    ensures Last(Split(s, sep)) == Last(Split(s[Find(s, sep).value + |sep|..], sep))
  {
    var i := Find(s, sep).value;
    var tail := Split(s[i + |sep|..], sep);
    SplitUnfold(s, sep);
    LastAppend([s[..i]], tail);
  }

  lemma LastAppend<T>(a: seq<T>, b: seq<T>)
    requires |b| > 0
    ensures Last(a + b) == Last(b)
  {
    assert (a + b)[|a + b| - 1] == b[|b| - 1];
  }

  lemma NoneAfterInSuffix(s: string, sep: string, m: nat, lo: int)
    requires m <= |s|
    requires forall j | lo + m <= j :: !OccursAt(s, sep, j)
    ensures forall j | lo <= j :: !OccursAt(s[m..], sep, j)
  {
    forall j | lo <= j ensures !OccursAt(s[m..], sep, j) {
      OccursInSuffix(s, sep, m, j);
    }
  }

  lemma SplitWithout(s: string, sep: string)
    requires |sep| > 0
    requires forall j | 0 <= j :: !OccursAt(s, sep, j)
    ensures Split(s, sep) == [s]
  {
  }

  /** The last piece of a split is a suffix of the input that does not contain
      the separator. */
  lemma {:induction false} SplitLastIsSuffix(s: string, sep: string)
    requires |sep| > 0
    ensures EndsWith(s, Last(Split(s, sep)))
    decreases |s|
  {
    var f := Find(s, sep);
    if f.Some? {
      var rest := s[f.value + |sep|..];
      SplitLastUnfold(s, sep);
      SplitLastIsSuffix(rest, sep);
      EndsWithOfSuffix(s, f.value + |sep|, Last(Split(rest, sep)));
    } else {
      SplitFirst(s, sep);
      assert s[|s| - |s|..] == s;
    }
  }

  lemma EndsWithOfSuffix(s: string, m: nat, t: string)
    requires m <= |s| && EndsWith(s[m..], t)
    ensures EndsWith(s, t)
  {
    assert s[|s| - |t|..] == s[m..][|s| - m - |t|..];
  }

  /** One step of `Split`, when the separator occurs. */
  lemma SplitUnfold(s: string, sep: string)
    requires |sep| > 0 && Find(s, sep).Some?
    ensures Split(s, sep) == [s[..Find(s, sep).value]] + Split(s[Find(s, sep).value + |sep|..], sep)
  {
  }

  /** The first piece of a split, when the separator occurs, is the text
      before its leftmost occurrence. */
  lemma SplitFirstPiece(s: string, sep: string)
    requires |sep| > 0 && Contains(s, sep)
    ensures StartsWith(s, Split(s, sep)[0])
    ensures StartsWith(s[|Split(s, sep)[0]|..], sep)
    ensures !Contains(Split(s, sep)[0], sep)
    ensures Find(s, sep) == Some(|Split(s, sep)[0]|)
  {
    var i := Find(s, sep).value;
    SplitFirst(s, sep);
    assert s[i..][..|sep|] == s[i..i + |sep|];
    if Contains(s[..i], sep) {
      var j :| 0 <= j <= i - |sep| && OccursAt(s[..i], sep, j);
      OccursInPrefix(s, sep, i, j);
    }
  }

  /** The leftmost occurrence, when every earlier position is ruled out. */
  lemma FindIs(s: string, sep: string, i: nat)
    requires OccursAt(s, sep, i)
    requires forall j | 0 <= j < i :: !OccursAt(s, sep, j)
    ensures Find(s, sep) == Some(i)
  {
  }

  /** A pattern cannot start at any of the positions `lo..hi` when none of
      the characters it would put at offset `d` is its `d`-th character. */
  lemma NoneWhereCharDiffers(s: string, pat: string, lo: int, hi: int, d: nat)
    requires d < |pat|
    requires forall i | lo + d <= i < hi + d && 0 <= i < |s| :: s[i] != pat[d]
    ensures forall j | lo <= j < hi :: !OccursAt(s, pat, j)
  {
    forall j | lo <= j < hi ensures !OccursAt(s, pat, j) {
      if 0 <= j && j + |pat| <= |s| {
        assert s[j..j + |pat|][d] == s[j + d];
      }
    }
  }

  /** A pattern does not occur in a string that lacks one of its characters. */
  lemma NoneByChar(s: string, pat: string, d: nat)
    requires d < |pat| && pat[d] !in s
    ensures !Contains(s, pat)
  {
    forall j | 0 <= j <= |s| - |pat| ensures !OccursAt(s, pat, j) {
      assert s[j + d] in s;
      assert s[j..j + |pat|][d] == s[j + d];
    }
  }

  // ---------------------------------------------------------------------
  // Lemmas about lower()

  lemma LowerIdempotent(s: string)
    ensures Lower(Lower(s)) == Lower(s)
  {
  }

  /** Lowercasing keeps every occurrence of a pattern without capitals:
      text that contains it in lower case is still found after `lower()`. */
  lemma ContainsLower(s: string, pat: string)
    requires forall i | 0 <= i < |pat| :: !IsAsciiUpper(pat[i])
    requires Contains(s, pat)
    ensures Contains(Lower(s), pat)
  {
    var j :| 0 <= j <= |s| - |pat| && OccursAt(s, pat, j);
    var l := Lower(s);
    forall d | 0 <= d < |pat| ensures l[j + d] == pat[d] {
      assert s[j + d] == s[j..j + |pat|][d];
    }
    assert l[j..j + |pat|] == pat;
    assert OccursAt(l, pat, j);
  }
}
