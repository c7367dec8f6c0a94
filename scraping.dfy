/**
 * The scraper: walks search results in order, harvests the email addresses
 * of each result's description and fetched page into one set, stops after
 * the first result at which the set reaches the cap, and returns at most
 * the cap's worth of the collected addresses.
 *
 * The search engine, the HTTP transport and the HTML-to-text conversion are
 * collaborators: the search is given as the sequence of events its result
 * generator produces, the transport and the text conversion as functions.
 */
module Scraping {
  import opened Wrappers
  import EmailExtract

  /** One search hit of the advanced search: address, title and optional snippet. */
  datatype SearchResult = SearchResult(url: string, title: string, description: Option<string>)

  /** What the search generator does next: hand over a result, or raise. */
  datatype SearchEvent = Yield(result: SearchResult) | Raise(error: string)

  /** What the HTTP transport answers for a URL: a response, or an exception. */
  datatype FetchOutcome = Response(status: int, text: string) | Failure(error: string)

  /** The world outside: the transport per URL, and HTML-to-visible-text. */
  datatype Web = Web(fetch: string -> FetchOutcome, getText: string -> string)

  /** The state the loop reaches: the address set and how many results it processed. */
  datatype Harvest = Harvest(emails: set<string>, processed: nat)

  predicate Distinct(xs: seq<string>) {
    forall i, j :: 0 <= i < j < |xs| ==> xs[i] != xs[j]
  }

  // ---------------------------------------------------------------------------
  // Search results.

  /**
   * The results the generator yields before it first raises (all of them if it
   * never raises): the longest prefix of `Yield` events.
   */
  function YieldedBeforeRaise(events: seq<SearchEvent>): (rs: seq<SearchResult>)
    ensures |rs| <= |events|
    ensures forall i :: 0 <= i < |rs| ==> events[i] == Yield(rs[i])
    ensures |rs| < |events| ==> events[|rs|].Raise?
    decreases |events|
  {
    if events == [] || events[0].Raise? then []
    else [events[0].result] + YieldedBeforeRaise(events[1..])
  }

  /**
   * The characterisation of `YieldedBeforeRaise` is complete: any sequence of
   * yielded results that stops at a raise or at the end of the events is it.
   */
  lemma {:induction false} YieldedIsUnique(events: seq<SearchEvent>, rs: seq<SearchResult>)
    requires |rs| <= |events|
    requires forall i :: 0 <= i < |rs| ==> events[i] == Yield(rs[i])
    requires |rs| < |events| ==> events[|rs|].Raise?
    ensures rs == YieldedBeforeRaise(events)
    decreases |rs|
  {
    if rs != [] {
      assert events[0] == Yield(rs[0]);
      YieldedIsUnique(events[1..], rs[1..]);
    }
  }

  // ---------------------------------------------------------------------------
  // Fetching and harvesting one result.

  /** `fetch_page`: the body of a 200 response; the empty string on any other status or an exception. */
  function FetchPage(outcome: FetchOutcome): (page: string)
    ensures page != "" ==> outcome.Response? && outcome.status == 200 && page == outcome.text
    ensures outcome.Response? && outcome.status == 200 ==> page == outcome.text
    ensures outcome.Failure? ==> page == ""
  {
    match outcome
    case Response(status, text) => if status == 200 then text else ""
    case Failure(_) => ""
  }

  /** Addresses found in a result's description; a missing or empty description gives none. */
  function DescriptionEmails(res: SearchResult): set<string> {
    match res.description
    case Some(d) => if d != "" then EmailExtract.ExtractEmails(d) else {}
    case None => {}
  }

  /** Addresses found in the visible text of a fetched page; an empty page gives none. */
  function PageEmails(page: string, web: Web): set<string> {
    if page != "" then EmailExtract.ExtractEmails(web.getText(page)) else {}
  }

  /**
   * A result's description contributes only addresses occurring in its
   * description, and its page only addresses occurring in the page's text.
   */
  lemma ContributionsComeFromTheirText(res: SearchResult, page: string, web: Web)
    ensures forall w :: w in DescriptionEmails(res) ==>
      res.description.Some? && EmailExtract.IsEmailAddress(w) && EmailExtract.IsSubstring(w, res.description.value)
    ensures forall w :: w in PageEmails(page, web) ==>
      page != "" && EmailExtract.IsEmailAddress(w) && EmailExtract.IsSubstring(w, web.getText(page))
  {
    if res.description.Some? {
      EmailExtract.ExtractedAreAddresses(res.description.value);
    }
    if page != "" {
      EmailExtract.ExtractedAreAddresses(web.getText(page));
    }
  }

  /** Everything one result contributes: description addresses and page addresses. */
  function ResultEmails(res: SearchResult, web: Web): set<string> {
    DescriptionEmails(res) + PageEmails(FetchPage(web.fetch(res.url)), web)
  }

  /** What each result contributes, in order. */
  function Contributions(rs: seq<SearchResult>, web: Web): seq<set<string>> {
    seq(|rs|, i requires 0 <= i < |rs| => ResultEmails(rs[i], web))
  }

  /** Reference definition: the union of a sequence of contributions. */
  function UnionAll(cs: seq<set<string>>): set<string>
    decreases |cs|
  {
    if cs == [] then {} else cs[0] + UnionAll(cs[1..])
  }

  /** An address is in the union exactly when one of the contributions holds it. */
  lemma {:induction false} InUnionAll(cs: seq<set<string>>, w: string)
    ensures w in UnionAll(cs) <==> exists i :: 0 <= i < |cs| && w in cs[i]
    decreases |cs|
  {
    if cs != [] {
      InUnionAll(cs[1..], w);
      if w in UnionAll(cs[1..]) {
        var i :| 0 <= i < |cs[1..]| && w in cs[1..][i];
        assert cs[1..][i] == cs[i + 1];
      }
      if exists i :: 0 <= i < |cs| && w in cs[i] {
        var i :| 0 <= i < |cs| && w in cs[i];
        if i > 0 {
          assert cs[1..][i - 1] == cs[i];
        }
      }
    }
  }

  // ---------------------------------------------------------------------------
  // The loop of `run`, as a function of its inputs.

  /**
   * Adds the contributions `cs` in order to the set `acc`, stopping after the
   * first one at which the set holds at least `maxEmails` addresses.
   */
  function Collect(acc: set<string>, cs: seq<set<string>>, maxEmails: int): (h: Harvest)
    ensures acc <= h.emails
    ensures h.processed <= |cs|
    decreases |cs|
  {
    if cs == [] then Harvest(acc, 0)
    else
      var next := acc + cs[0];
      if |next| >= maxEmails then Harvest(next, 1)
      else
        var h := Collect(next, cs[1..], maxEmails);
        Harvest(h.emails, h.processed + 1)
  }

  /** The URLs of a sequence of results. */
  function Urls(rs: seq<SearchResult>): seq<string> {
    seq(|rs|, k requires 0 <= k < |rs| => rs[k].url)
  }

  /** Extending a prefix by one result extends its URLs by that result's URL. */
  lemma UrlsOfLongerPrefix(rs: seq<SearchResult>, i: nat)
    requires i < |rs|
    ensures Urls(rs[..i + 1]) == Urls(rs[..i]) + [rs[i].url]
  {
    assert Urls(rs[..i + 1])[..i] == Urls(rs[..i]);
  }

  /**
   * Appending to a trace after a prefix extends the part after the prefix.
   * Dafny knows this; stating it as a lemma keeps the loop of `Run` cheap,
   * since the same fact written as an `assert` there triples its proof cost.
   */
  lemma AppendAssociates(a: seq<string>, b: seq<string>, x: string)
    ensures (a + b) + [x] == a + (b + [x])
  {
  }

  /** Python's `xs[:n]` length: `n` may be negative, counting from the end. */
  function SliceLength(len: nat, n: int): (k: nat)
    ensures k <= len
    ensures n >= 0 ==> k == if n <= len then n else len
    ensures n < 0 ==> k == if len + n > 0 then len + n else 0
  {
    if n >= 0 then (if n <= len then n else len)
    else if len + n > 0 then len + n else 0
  }

  // ---------------------------------------------------------------------------
  // Properties of the loop.

  /** One step of the loop: the first contribution is added, then the loop stops or goes on with the rest. */
  lemma CollectStep(acc: set<string>, cs: seq<set<string>>, maxEmails: int)
    requires cs != []
    ensures |acc + cs[0]| >= maxEmails ==> Collect(acc, cs, maxEmails) == Harvest(acc + cs[0], 1)
    ensures |acc + cs[0]| < maxEmails ==>
      var rest := Collect(acc + cs[0], cs[1..], maxEmails);
      Collect(acc, cs, maxEmails) == Harvest(rest.emails, rest.processed + 1)
  {
  }

  /** Splitting off the first contribution of a non-empty prefix. */
  lemma UnionOfPrefix(cs: seq<set<string>>, j: nat)
    requires 1 <= j <= |cs|
    ensures UnionAll(cs[..j]) == cs[0] + UnionAll(cs[1..][..j - 1])
  {
    assert cs[..j][1..] == cs[1..][..j - 1];
  }

  /** The harvested set is the starting set united with exactly the processed contributions. */
  lemma {:induction false} CollectIsUnionOfProcessed(acc: set<string>, cs: seq<set<string>>, maxEmails: int)
    ensures var h := Collect(acc, cs, maxEmails);
      h.emails == acc + UnionAll(cs[..h.processed])
    decreases |cs|
  {
    var h := Collect(acc, cs, maxEmails);
    if cs == [] {
      assert cs[..0] == [];
    } else {
      var next := acc + cs[0];
      if |next| >= maxEmails {
        assert h == Harvest(next, 1);
        UnionOfPrefix(cs, 1);
        assert cs[1..][..0] == [];
      } else {
        var tail := Collect(next, cs[1..], maxEmails);
        assert h == Harvest(tail.emails, tail.processed + 1);
        CollectIsUnionOfProcessed(next, cs[1..], maxEmails);
        UnionOfPrefix(cs, h.processed);
      }
    }
  }

  /**
   * Early stop: no processed contribution before the last one brought the set
   * to the cap; if contributions were left unprocessed, the cap was reached;
   * a non-empty sequence has at least its first contribution processed.
   */
  lemma {:induction false} CollectStopsAtFirstCap(acc: set<string>, cs: seq<set<string>>, maxEmails: int)
    ensures var h := Collect(acc, cs, maxEmails);
      (forall j :: 1 <= j < h.processed ==> |acc + UnionAll(cs[..j])| < maxEmails)
      && (h.processed < |cs| ==> |h.emails| >= maxEmails)
      && (cs != [] ==> 1 <= h.processed)
    decreases |cs|
  {
    if cs != [] {
      var next := acc + cs[0];
      if |next| < maxEmails {
        CollectStopsAtFirstCap(next, cs[1..], maxEmails);
        var h := Collect(acc, cs, maxEmails);
        forall j | 1 <= j < h.processed ensures |acc + UnionAll(cs[..j])| < maxEmails {
          UnionOfPrefix(cs, j);
          if j == 1 {
            assert cs[1..][..0] == [];
          } else {
            assert acc + UnionAll(cs[..j]) == next + UnionAll(cs[1..][..j - 1]);
          }
        }
      }
    }
  }

  /**
   * Provenance: an address the loop added is a well-formed address found in the
   * description or the page text of some processed result.
   */
  lemma HarvestedAddressesComeFromProcessedResults(acc: set<string>, rs: seq<SearchResult>, web: Web, maxEmails: int, w: string)
    requires w in Collect(acc, Contributions(rs, web), maxEmails).emails && w !in acc
    ensures EmailExtract.IsEmailAddress(w)
    ensures var n := Collect(acc, Contributions(rs, web), maxEmails).processed;
      exists i :: 0 <= i < n && (w in DescriptionEmails(rs[i]) || w in PageEmails(FetchPage(web.fetch(rs[i].url)), web))
  {
    var cs := Contributions(rs, web);
    var h := Collect(acc, cs, maxEmails);
    CollectIsUnionOfProcessed(acc, cs, maxEmails);
    InUnionAll(cs[..h.processed], w);
    var i :| 0 <= i < |cs[..h.processed]| && w in cs[..h.processed][i];
    assert cs[..h.processed][i] == cs[i] == ResultEmails(rs[i], web);
    ContributionsComeFromTheirText(rs[i], FetchPage(web.fetch(rs[i].url)), web);
  }

  /** A result with no description (or an empty one) whose fetch fails contributes nothing. */
  lemma BarrenResultContributesNothing(res: SearchResult, web: Web)
    requires res.description.None? || res.description == Some("")
    requires FetchPage(web.fetch(res.url)) == ""
    ensures ResultEmails(res, web) == {}
  {
  }

  /** A result that contributes nothing does not stop the loop while the set is below the cap. */
  lemma EmptyContributionDoesNotStop(acc: set<string>, cs: seq<set<string>>, maxEmails: int)
    requires cs != [] && cs[0] == {} && |acc| < maxEmails
    ensures var rest := Collect(acc, cs[1..], maxEmails);
      Collect(acc, cs, maxEmails) == Harvest(rest.emails, rest.processed + 1)
  {
    assert acc + cs[0] == acc;
  }

  /**
   * One turn of the loop of `run` at position `i`: the harvest still to come
   * from `before` over `cs[i..]` is reached either right after adding
   * contribution `i` (when that reaches the cap) or from the new set over
   * `cs[i + 1..]`.
   */
  lemma LoopTurn(h: Harvest, before: set<string>, after: set<string>, cs: seq<set<string>>, i: nat, maxEmails: int)
    requires i < |cs| && after == before + cs[i]
    requires h.emails == Collect(before, cs[i..], maxEmails).emails
    requires h.processed == i + Collect(before, cs[i..], maxEmails).processed
    ensures |after| >= maxEmails ==> h.processed == i + 1 && h.emails == after
    ensures |after| < maxEmails ==>
      h.emails == Collect(after, cs[i + 1..], maxEmails).emails
      && h.processed == i + 1 + Collect(after, cs[i + 1..], maxEmails).processed
  {
    assert cs[i..][0] == cs[i];
    assert cs[i..][1..] == cs[i + 1..];
    CollectStep(before, cs[i..], maxEmails);
  }

  /** The loop of `run` ran out of results: the harvest still to come is the current set. */
  lemma LoopExhausted(h: Harvest, acc: set<string>, cs: seq<set<string>>, maxEmails: int)
    requires h.emails == Collect(acc, cs[|cs|..], maxEmails).emails
    requires h.processed == |cs| + Collect(acc, cs[|cs|..], maxEmails).processed
    ensures h.emails == acc && h.processed == |cs|
  {
    assert cs[|cs|..] == [];
  }

  // ---------------------------------------------------------------------------
  // `list(...)` of a set.

  /** Lists the elements of a set once each, in an unspecified order. */
  method ListOf(s: set<string>) returns (xs: seq<string>)
    ensures |xs| == |s| && Distinct(xs)
    ensures forall x :: x in xs <==> x in s
  {
    xs := [];
    var rest := s;
    while rest != {}
      invariant rest <= s
      invariant forall x :: x in xs ==> x in s && x !in rest
      invariant forall x :: x in s ==> x in xs || x in rest
      invariant Distinct(xs)
      invariant |xs| + |rest| == |s|
      decreases |rest|
    {
      var x :| x in rest;
      xs := xs + [x];
      rest := rest - {x};
    }
  }

  /** `list(s)[:n]`: at most `n` distinct elements of `s` (Python slice semantics for negative `n`). */
  method ListUpTo(s: set<string>, n: int) returns (xs: seq<string>)
    ensures Distinct(xs) && forall x :: x in xs ==> x in s
    ensures |xs| == SliceLength(|s|, n)
    ensures n >= |s| ==> forall x :: x in s ==> x in xs
  {
    var all := ListOf(s);
    xs := all[..SliceLength(|all|, n)];
    assert n >= |s| ==> xs == all;
  }

  // ---------------------------------------------------------------------------
  // The object.

  class Scraper {
    const query: string
    const numResults: int
    const maxEmails: int
    /** The address set, kept across calls of `Run`. */
    var emails: set<string>
    /** The URLs handed to the transport, in call order. */
    ghost var fetched: seq<string>

    constructor (query: string, numResults: int := 50, maxEmails: int := 50)
      ensures this.query == query && this.numResults == numResults && this.maxEmails == maxEmails
      ensures emails == {} && fetched == []
    {
      this.query := query;
      this.numResults := numResults;
      this.maxEmails := maxEmails;
      emails := {};
      fetched := [];
    }

    /**
     * `get_search_results`: collects what the search generator for `query`
     * and `numResults` yields; an exception ends the collection and is not
     * propagated, so the results yielded before it are returned.
     */
    method GetSearchResults(events: seq<SearchEvent>) returns (results: seq<SearchResult>)
      ensures results == YieldedBeforeRaise(events)
    {
      results := [];
      var i := 0;
      while i < |events|
        invariant 0 <= i <= |events| && |results| == i
        invariant forall j :: 0 <= j < i ==> events[j] == Yield(results[j])
      {
        if events[i].Raise? {
          break;
        }
        results := results + [events[i].result];
        i := i + 1;
      }
      YieldedIsUnique(events, results);
    }

    /**
     * The body of the loop of `run` for one result: the description's addresses
     * (when it is present and non-empty), then the fetched page's addresses
     * (when the fetch returned a non-empty page) are added to `emails`.
     */
    method ProcessResult(res: SearchResult, web: Web)
      modifies this
      ensures emails == old(emails) + ResultEmails(res, web)
      ensures fetched == old(fetched) + [res.url]
    {
      match res.description {
        case Some(d) =>
          if d != "" {
            var descriptionEmails := EmailExtract.ExtractEmails(d);
            emails := emails + descriptionEmails;
          }
        case None =>
      }
      var page := FetchPage(web.fetch(res.url));
      fetched := fetched + [res.url];
      if page != "" {
        var text := web.getText(page);
        var pageEmails := EmailExtract.ExtractEmails(text);
        emails := emails + pageEmails;
      }
    }

    /**
     * `run`: harvests the results in order into `emails`, stopping after the
     * first result at which the set reaches `maxEmails`, and returns at most
     * `maxEmails` of the collected addresses (Python slice semantics).
     */
    method Run(events: seq<SearchEvent>, web: Web) returns (collected: seq<string>)
      modifies this
      ensures var h := Collect(old(emails), Contributions(YieldedBeforeRaise(events), web), maxEmails);
        emails == h.emails && fetched == old(fetched) + Urls(YieldedBeforeRaise(events)[..h.processed])
      ensures Distinct(collected) && forall w :: w in collected ==> w in emails
      ensures |collected| == SliceLength(|emails|, maxEmails)
      ensures maxEmails >= |emails| ==> forall w :: w in emails ==> w in collected
    {
      var results := GetSearchResults(events);
      ghost var cs := Contributions(results, web);
      ghost var h := Collect(emails, cs, maxEmails);
      ghost var trace := fetched;
      assert cs[0..] == cs;
      var i := 0;
      while i < |results|
        invariant 0 <= i <= |results|
        invariant fetched == trace + Urls(results[..i])
        invariant h.emails == Collect(emails, cs[i..], maxEmails).emails
        invariant h.processed == i + Collect(emails, cs[i..], maxEmails).processed
      {
        ghost var before := emails;
        ProcessResult(results[i], web);
        LoopTurn(h, before, emails, cs, i, maxEmails);
        UrlsOfLongerPrefix(results, i);
        AppendAssociates(trace, Urls(results[..i]), results[i].url);
        i := i + 1;
        if |emails| >= maxEmails {
          assert h.processed == i && h.emails == emails;
          break;
        }
      }
      if i == |results| {
        LoopExhausted(h, emails, cs, maxEmails);
      }
      collected := ListUpTo(emails, maxEmails);
    }
  }
}
