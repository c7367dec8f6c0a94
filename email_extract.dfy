/**
 * Email extraction: `re.findall` with the fixed pattern
 *   [a-zA-Z0-9._%+-]+@[a-zA-Z0-9.-]+\.[a-zA-Z]{2,}
 * collected into a set. The scanner below is the leftmost, non-overlapping
 * search that `re.findall` performs: it steps over no match and its spans do
 * not overlap. At each start position it takes the match that the
 * backtracking engine commits to, which is proved to be the longest match
 * starting there.
 */
module EmailExtract {
  import opened Wrappers

  /** The three character classes of the pattern (ASCII ranges only). */
  datatype CharClass = LocalPart | DomainPart | Letter

  predicate IsAsciiLetter(c: char) {
    'a' <= c <= 'z' || 'A' <= c <= 'Z'
  }

  predicate IsAsciiDigit(c: char) {
    '0' <= c <= '9'
  }

  predicate InClass(c: char, k: CharClass) {
    match k
    case LocalPart =>
      IsAsciiLetter(c) || IsAsciiDigit(c) || c == '.' || c == '_' || c == '%' || c == '+' || c == '-'
    case DomainPart =>
      IsAsciiLetter(c) || IsAsciiDigit(c) || c == '.' || c == '-'
    case Letter =>
      IsAsciiLetter(c)
  }

  /** Every character of `s[i..j]` belongs to class `k`. */
  predicate AllInRange(s: string, i: nat, j: nat, k: CharClass)
    requires j <= |s|
  {
    forall t :: i <= t < j ==> InClass(s[t], k)
  }

  // ---------------------------------------------------------------------------
  // The shape of a match.

  /**
   * `s[p..e]` matches the pattern with its `@` at `at` and the dot before
   * the final letters at `dot`: a non-empty local part, the `@`, a non-empty
   * domain part, the dot, and at least two letters up to `e`.
   */
  predicate SpanParts(s: string, p: nat, at: nat, dot: nat, e: nat) {
    p < at && at + 1 < dot && dot + 3 <= e <= |s|
    && AllInRange(s, p, at, LocalPart) && s[at] == '@' && AllInRange(s, at + 1, dot, DomainPart)
    && s[dot] == '.' && AllInRange(s, dot + 1, e, Letter)
  }

  /** `s[p..e]` matches the pattern. */
  ghost predicate EmailSpan(s: string, p: nat, e: nat) {
    exists at: nat, dot: nat :: SpanParts(s, p, at, dot, e)
  }

  /** A whole string of the pattern's shape. */
  ghost predicate IsEmailAddress(w: string) {
    EmailSpan(w, 0, |w|)
  }

  ghost predicate IsSubstring(w: string, s: string) {
    exists i, j :: 0 <= i <= j <= |s| && s[i..j] == w
  }

  /** Some substring of `s` has the pattern's shape. */
  ghost predicate ContainsEmail(s: string) {
    exists b, e :: 0 <= b <= e <= |s| && EmailSpan(s, b, e)
  }

  // ---------------------------------------------------------------------------
  // The matcher.

  /** End of the longest run of class-`k` characters starting at `i` (a greedy `[...]+`). */
  function RunEnd(s: string, i: nat, k: CharClass): (j: nat)
    requires i <= |s|
    ensures i <= j <= |s|
    decreases |s| - i
  {
    if i < |s| && InClass(s[i], k) then RunEnd(s, i + 1, k) else i
  }

  /** A dot at `k` followed by at least two letters: where `\.[a-zA-Z]{2,}` can match. */
  predicate TldAt(s: string, k: nat) {
    k < |s| && s[k] == '.' && RunEnd(s, k + 1, Letter) >= k + 3
  }

  /**
   * The largest `k` in `[lo, hi)` at which `TldAt` holds: greedy `[...]+`
   * for the domain gives back characters one at a time until the rest matches.
   */
  function LastTldDot(s: string, lo: nat, hi: nat): (r: Option<nat>)
    requires lo <= hi <= |s|
    ensures r.Some? ==> lo <= r.value < hi
    decreases hi - lo
  {
    if hi == lo then None
    else if TldAt(s, hi - 1) then Some(hi - 1)
    else LastTldDot(s, lo, hi - 1)
  }

  /**
   * The match the regular-expression engine finds at start position `p`, as
   * its end position, or `None` if the pattern does not match there. The
   * local part cannot contain `@`, so its greedy run is the only choice.
   */
  function MatchAt(s: string, p: nat): (r: Option<nat>)
    requires p <= |s|
    ensures r.Some? ==> p < r.value <= |s|
  {
    var at := RunEnd(s, p, LocalPart);
    if at == p || at == |s| || s[at] != '@' then None
    else
      var domainEnd := RunEnd(s, at + 1, DomainPart);
      if domainEnd < at + 2 then None
      else
        match LastTldDot(s, at + 2, domainEnd)
        case None => None
        case Some(dot) => Some(RunEnd(s, dot + 1, Letter))
  }

  /** A match the engine reports spans a substring of the pattern's shape. */
  lemma MatchAtIsSound(s: string, p: nat)
    requires p <= |s|
    ensures MatchAt(s, p).Some? ==> EmailSpan(s, p, MatchAt(s, p).value)
  {
    var at := RunEnd(s, p, LocalPart);
    if at == p || at == |s| || s[at] != '@' {
      assert MatchAt(s, p).None?;
    } else {
      var domainEnd := RunEnd(s, at + 1, DomainPart);
      if domainEnd < at + 2 {
        assert MatchAt(s, p).None?;
      } else {
        var found := LastTldDot(s, at + 2, domainEnd);
        if found.None? {
          assert MatchAt(s, p).None?;
        } else {
          LastTldDotIsTld(s, at + 2, domainEnd);
          GreedyPartsMakeSpan(s, p, at, found.value);
          MatchAtUnfold(s, p, at, found.value);
        }
      }
    }
  }

  /** The greedy runs the engine takes, around a TLD dot inside the domain run, make a span of the pattern's shape. */
  lemma GreedyPartsMakeSpan(s: string, p: nat, at: nat, dot: nat)
    requires p < at < |s| && s[at] == '@' && RunEnd(s, p, LocalPart) == at
    requires at + 2 <= dot < RunEnd(s, at + 1, DomainPart) && TldAt(s, dot)
    ensures SpanParts(s, p, at, dot, RunEnd(s, dot + 1, Letter))
  {
    RunEndIsMaximalRun(s, p, LocalPart);
    RunEndIsMaximalRun(s, at + 1, DomainPart);
    RunEndIsMaximalRun(s, dot + 1, Letter);
  }

  /** The greedy run covers only class-`k` characters and stops at the first character outside the class. */
  lemma {:induction false} RunEndIsMaximalRun(s: string, i: nat, k: CharClass)
    requires i <= |s|
    ensures AllInRange(s, i, RunEnd(s, i, k), k)
    ensures RunEnd(s, i, k) < |s| ==> !InClass(s[RunEnd(s, i, k)], k)
    decreases |s| - i
  {
    if i < |s| && InClass(s[i], k) {
      RunEndIsMaximalRun(s, i + 1, k);
    }
  }

  /** `RunEnd` is the only end of a run that stops at a character outside the class. */
  lemma {:induction false} RunEndIsFirstOutside(s: string, i: nat, j: nat, k: CharClass)
    requires i <= j <= |s| && AllInRange(s, i, j, k)
    requires j < |s| ==> !InClass(s[j], k)
    ensures RunEnd(s, i, k) == j
    decreases j - i
  {
    if i < j {
      assert InClass(s[i], k);
      RunEndIsFirstOutside(s, i + 1, j, k);
    }
  }

  /** A run of class-`k` characters from `i` to `j` lies inside the greedy run. */
  lemma {:induction false} RunEndCovers(s: string, i: nat, j: nat, k: CharClass)
    requires i <= j <= |s| && AllInRange(s, i, j, k)
    ensures RunEnd(s, i, k) >= j
    decreases j - i
  {
    if i < j {
      assert InClass(s[i], k);
      RunEndCovers(s, i + 1, j, k);
    }
  }

  /** What `LastTldDot` finds is a TLD dot. */
  lemma {:induction false} LastTldDotIsTld(s: string, lo: nat, hi: nat)
    requires lo <= hi <= |s|
    ensures LastTldDot(s, lo, hi).Some? ==> TldAt(s, LastTldDot(s, lo, hi).value)
    decreases hi - lo
  {
    if hi > lo && !TldAt(s, hi - 1) {
      LastTldDotIsTld(s, lo, hi - 1);
    }
  }

  /** Any TLD dot in the range makes `LastTldDot` find one, at or after it. */
  lemma {:induction false} LastTldDotIsLast(s: string, lo: nat, hi: nat, d: nat)
    requires lo <= d < hi <= |s| && TldAt(s, d)
    ensures LastTldDot(s, lo, hi).Some? && d <= LastTldDot(s, lo, hi).value
    decreases hi - lo
  {
    if d < hi - 1 && !TldAt(s, hi - 1) {
      LastTldDotIsLast(s, lo, hi - 1, d);
    }
  }

  /** The engine's end for a given local-part end and TLD dot, spelled out. */
  lemma MatchAtUnfold(s: string, p: nat, at: nat, dot: nat)
    requires p < at < |s| && s[at] == '@' && RunEnd(s, p, LocalPart) == at
    requires at + 2 <= RunEnd(s, at + 1, DomainPart)
    requires LastTldDot(s, at + 2, RunEnd(s, at + 1, DomainPart)) == Some(dot)
    ensures MatchAt(s, p) == Some(RunEnd(s, dot + 1, Letter))
  {
  }

  /**
   * Whenever some `s[p..e]` has the pattern's shape, the engine matches at `p`
   * and its match is at least as long: `MatchAt` returns the longest match.
   */
  lemma {:induction false} MatchAtIsLongest(s: string, p: nat, e: nat)
    requires p <= e <= |s| && EmailSpan(s, p, e)
    ensures MatchAt(s, p).Some? && e <= MatchAt(s, p).value
  {
    var at: nat, dot: nat :| SpanParts(s, p, at, dot, e);
    assert !InClass(s[at], LocalPart);
    RunEndIsFirstOutside(s, p, at, LocalPart);
    DomainRunCoversTld(s, at, dot, e);
    var domainEnd := RunEnd(s, at + 1, DomainPart);
    RunEndCovers(s, dot + 1, e, Letter);
    assert TldAt(s, dot);
    var found := LastTldDot(s, at + 2, domainEnd);
    LastTldDotIsLast(s, at + 2, domainEnd, dot);
    LastTldDotIsTld(s, at + 2, domainEnd);
    var k := found.value;
    MatchAtUnfold(s, p, at, k);
    LaterDotEndsLater(s, dot, k, e);
  }

  /** Domain characters, the dot and the letters after it all belong to the domain's class. */
  lemma DomainRunCoversTld(s: string, at: nat, dot: nat, e: nat)
    requires at + 1 < dot < e <= |s|
    requires AllInRange(s, at + 1, dot, DomainPart) && s[dot] == '.' && AllInRange(s, dot + 1, e, Letter)
    ensures RunEnd(s, at + 1, DomainPart) >= e
  {
    assert AllInRange(s, at + 1, e, DomainPart) by {
      forall t | at + 1 <= t < e ensures InClass(s[t], DomainPart) {
        if dot < t {
          assert InClass(s[t], Letter);
        }
      }
    }
    RunEndCovers(s, at + 1, e, DomainPart);
  }

  /** A TLD dot at or after `dot` whose letters reach `e` from `dot` ends its own letters at `e` or later. */
  lemma LaterDotEndsLater(s: string, dot: nat, k: nat, e: nat)
    requires dot <= k && dot < e <= |s| && AllInRange(s, dot + 1, e, Letter) && TldAt(s, k)
    ensures RunEnd(s, k + 1, Letter) >= e
  {
    if k == dot {
      RunEndCovers(s, dot + 1, e, Letter);
    } else {
      assert !InClass(s[k], Letter);
      assert k >= e;
    }
  }

  // ---------------------------------------------------------------------------
  // The scan of `re.findall`.

  /**
   * All matches from position `p` on, as (start, end) spans: try to match at
   * the current position; on success continue after the match, otherwise one
   * position further.
   */
  function Scan(s: string, p: nat): (spans: seq<(nat, nat)>)
    requires p <= |s|
    ensures forall m :: m in spans ==> p <= m.0 < m.1 <= |s|
    decreases |s| - p
  {
    if p == |s| then []
    else
      match MatchAt(s, p)
      case Some(e) => [(p, e)] + Scan(s, e)
      case None => Scan(s, p + 1)
  }

  /** The scan reports only spans of the pattern's shape. */
  lemma {:induction false} ScanSpansHaveShape(s: string, p: nat)
    requires p <= |s|
    ensures forall m :: m in Scan(s, p) ==> EmailSpan(s, m.0, m.1)
    decreases |s| - p
  {
    if p < |s| {
      MatchAtIsSound(s, p);
      match MatchAt(s, p)
      case Some(e) =>
        ScanSpansHaveShape(s, e);
        forall m | m in Scan(s, p) ensures EmailSpan(s, m.0, m.1) {
          if m != (p, e) {
            assert m in Scan(s, e);
          }
        }
      case None => ScanSpansHaveShape(s, p + 1);
    }
  }

  /** The scan's spans come left to right and do not overlap. */
  lemma {:induction false} ScanIsOrdered(s: string, p: nat)
    requires p <= |s|
    ensures forall i :: 0 <= i < |Scan(s, p)| - 1 ==> Scan(s, p)[i].1 <= Scan(s, p)[i + 1].0
    decreases |s| - p
  {
    if p < |s| {
      match MatchAt(s, p)
      case Some(e) =>
        ScanIsOrdered(s, e);
        var rest := Scan(s, e);
        if rest != [] {
          assert rest[0] in rest;
        }
      case None => ScanIsOrdered(s, p + 1);
    }
  }

  /**
   * The scan never steps over a match: any substring of the pattern's shape
   * that starts at or after `p` starts inside some reported span.
   */
  lemma {:induction false} ScanCoversEveryMatch(s: string, p: nat, b: nat, e: nat)
    requires p <= b <= e <= |s| && EmailSpan(s, b, e)
    ensures exists m :: m in Scan(s, p) && m.0 <= b < m.1
    decreases |s| - p
  {
    var at: nat, dot: nat :| SpanParts(s, b, at, dot, e);
    match MatchAt(s, p)
    case Some(f) =>
      if f <= b {
        ScanCoversEveryMatch(s, f, b, e);
        var m :| m in Scan(s, f) && m.0 <= b < m.1;
        assert m in Scan(s, p);
      } else {
        assert (p, f) in Scan(s, p);
      }
    case None =>
      if b == p {
        MatchAtIsLongest(s, p, e);
        assert false;
      } else {
        ScanCoversEveryMatch(s, p + 1, b, e);
      }
  }

  /** Each reported span is the longest match of the pattern at its start. */
  lemma {:induction false} ScanSpansAreLongest(s: string, p: nat)
    requires p <= |s|
    ensures forall m, e :: m in Scan(s, p) && m.0 <= e <= |s| && EmailSpan(s, m.0, e) ==> e <= m.1
    decreases |s| - p
  {
    if p < |s| {
      match MatchAt(s, p)
      case Some(f) =>
        ScanSpansAreLongest(s, f);
        forall m, e | m in Scan(s, p) && m.0 <= e <= |s| && EmailSpan(s, m.0, e) ensures e <= m.1 {
          if m == (p, f) {
            MatchAtIsLongest(s, p, e);
          } else {
            assert m in Scan(s, f);
          }
        }
      case None => ScanSpansAreLongest(s, p + 1);
    }
  }

  /** When the scan from `p` finds nothing, no substring starting at or after `p` has the pattern's shape. */
  lemma {:induction false} EmptyScanMeansNoEmail(s: string, p: nat)
    requires p <= |s| && Scan(s, p) == []
    ensures forall b, e :: p <= b <= e <= |s| ==> !EmailSpan(s, b, e)
    decreases |s| - p
  {
    if p < |s| {
      assert MatchAt(s, p).None?;
      EmptyScanMeansNoEmail(s, p + 1);
      forall e | p <= e <= |s| ensures !EmailSpan(s, p, e) {
        if EmailSpan(s, p, e) {
          MatchAtIsLongest(s, p, e);
        }
      }
    }
  }

  /** A span of the pattern's shape, read off as a string, is an email address. */
  lemma SpanIsAddress(s: string, p: nat, e: nat)
    requires p <= e <= |s| && EmailSpan(s, p, e)
    ensures IsEmailAddress(s[p..e]) && IsSubstring(s[p..e], s)
  {
    var at: nat, dot: nat :| SpanParts(s, p, at, dot, e);
    var w := s[p..e];
    assert forall t :: 0 <= t < |w| ==> w[t] == s[p + t];
    assert AllInRange(w, 0, at - p, LocalPart);
    assert AllInRange(w, at - p + 1, dot - p, DomainPart);
    assert AllInRange(w, dot - p + 1, |w|, Letter);
    assert w[at - p] == '@' && w[dot - p] == '.';
    assert SpanParts(w, 0, at - p, dot - p, |w|);
  }

  /** Every span of the scan, read off as a string, is an email address of the text. */
  lemma ScannedWordsAreAddresses(text: string)
    ensures forall i :: 0 <= i < |Scan(text, 0)| ==>
      var m := Scan(text, 0)[i];
      IsEmailAddress(text[m.0..m.1]) && IsSubstring(text[m.0..m.1], text)
  {
    var spans := Scan(text, 0);
    ScanSpansHaveShape(text, 0);
    forall i | 0 <= i < |spans|
      ensures IsEmailAddress(text[spans[i].0..spans[i].1]) && IsSubstring(text[spans[i].0..spans[i].1], text)
    {
      assert spans[i] in spans;
      SpanIsAddress(text, spans[i].0, spans[i].1);
    }
  }

  /** The scan finds something exactly when the text holds a substring of the pattern's shape. */
  lemma ScanEmptyIffNoEmail(text: string)
    ensures Scan(text, 0) == [] <==> !ContainsEmail(text)
  {
    var spans := Scan(text, 0);
    if spans == [] {
      EmptyScanMeansNoEmail(text, 0);
    } else {
      ScanSpansHaveShape(text, 0);
      assert spans[0] in spans;
    }
  }

  /** Python's `re.findall` for the pattern: the matched substrings, left to right. */
  function FindAll(text: string): seq<string> {
    var spans := Scan(text, 0);
    assert forall i :: 0 <= i < |spans| ==> spans[i] in spans;
    seq(|spans|, i requires 0 <= i < |spans| => text[spans[i].0..spans[i].1])
  }

  /** Python's `set(xs)` for a list of strings. */
  function Elements(xs: seq<string>): set<string>
    decreases |xs|
  {
    if xs == [] then {} else {xs[0]} + Elements(xs[1..])
  }

  /** `set(xs)` holds exactly the list's members. */
  lemma {:induction false} InElements(xs: seq<string>, w: string)
    ensures w in Elements(xs) <==> w in xs
    decreases |xs|
  {
    if xs != [] {
      InElements(xs[1..], w);
      assert xs == [xs[0]] + xs[1..];
    }
  }

  /** `extract_emails`: the set of the matches; empty text has none. */
  function ExtractEmails(text: string): (r: set<string>)
    ensures text == "" ==> r == {}
  {
    Elements(FindAll(text))
  }

  /** Every string `re.findall` returns is an address of the pattern's shape and a substring of the text. */
  lemma FoundAreAddresses(text: string)
    ensures forall w :: w in FindAll(text) ==> IsEmailAddress(w) && IsSubstring(w, text)
  {
    ScannedWordsAreAddresses(text);
  }

  /** `re.findall` returns nothing exactly when no substring of the text has the pattern's shape. */
  lemma FoundNothingIffNoEmail(text: string)
    ensures FindAll(text) == [] <==> !ContainsEmail(text)
  {
    ScanEmptyIffNoEmail(text);
  }

  /** Every extracted string is an address of the pattern's shape occurring in the text. */
  lemma ExtractedAreAddresses(text: string)
    ensures forall w :: w in ExtractEmails(text) ==> IsEmailAddress(w) && IsSubstring(w, text)
  {
    FoundAreAddresses(text);
    forall w | w in ExtractEmails(text) ensures w in FindAll(text) {
      InElements(FindAll(text), w);
    }
  }

  /** The extracted set is empty exactly when the text holds no substring of the pattern's shape. */
  lemma ExtractedNothingIffNoEmail(text: string)
    ensures ExtractEmails(text) == {} <==> !ContainsEmail(text)
  {
    FoundNothingIffNoEmail(text);
    var ws := FindAll(text);
    if ws != [] {
      InElements(ws, ws[0]);
    }
  }

  // ---------------------------------------------------------------------------
  // Properties of the shape and of the extractor.

  /** An address has exactly one `@`; its domain ends in a dot and two or more letters. */
  lemma AddressShape(w: string)
    requires IsEmailAddress(w)
    ensures exists at :: 0 < at < |w| && w[at] == '@'
    ensures forall i, j :: 0 <= i < |w| && 0 <= j < |w| && w[i] == '@' && w[j] == '@' ==> i == j
    ensures |w| >= 6 && w[|w| - 1] != '.' && IsAsciiLetter(w[|w| - 1]) && IsAsciiLetter(w[|w| - 2])
  {
    var at: nat, dot: nat :| SpanParts(w, 0, at, dot, |w|);
    forall i | 0 <= i < |w| && i != at ensures w[i] != '@' {
      if i < at {
        assert InClass(w[i], LocalPart);
      } else if at < i < dot {
        assert InClass(w[i], DomainPart);
      } else if dot < i {
        assert InClass(w[i], Letter);
      }
    }
  }

  /** Scanning a text that is exactly one address returns that address alone. */
  lemma ExtractWholeAddress(w: string)
    requires IsEmailAddress(w)
    ensures ExtractEmails(w) == {w}
  {
    MatchAtIsLongest(w, 0, |w|);
    assert MatchAt(w, 0) == Some(|w|);
    assert Scan(w, 0) == [(0, |w|)];
    assert w[0..|w|] == w;
    assert FindAll(w) == [w];
    assert Elements([w]) == {w} + Elements([]);
  }
}
