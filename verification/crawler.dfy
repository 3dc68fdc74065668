/**
 * The page-budgeted crawler of test.py: a depth-first walk over the registry's child tables
 * that stops fetching after 100 pages, and a term log that records each canonical `dt`
 * name the first time any page shows it.
 */
module Crawler {
  import opened Wrappers
  import opened Strings
  import opened Document
  import opened FieldNames

  const BaseUrl: string := "https://oidref.com"

  /** The bound `traverse_tree` tests against (the unused `MAX_PAGES` holds the same number). */
  const PageLimit: nat := 100

  /** The text after the last run of whitespace-free characters: what `split()[-1]` picks. */
  function TrailingWord(t: string): (w: string)
    ensures |w| <= |t| && w == t[|t| - |w|..]
    ensures forall i :: 0 <= i < |w| ==> !IsSpace(w[i])
    ensures |w| == |t| || IsSpace(t[|t| - |w| - 1])
  {
    if t == [] || IsSpace(t[|t| - 1]) then []
    else TrailingWord(t[..|t| - 1]) + [t[|t| - 1]]
  }

  /**
   * `s.split()[-1]`: the last whitespace-separated word, or `None` (an `IndexError`) when
   * `s` is whitespace only.
   */
  function LastWord(s: string): (r: Option<string>)
    ensures r.None? <==> AllSpace(s)
    ensures r.Some? ==> r.value != [] && forall i :: 0 <= i < |r.value| ==> !IsSpace(r.value[i])
    ensures r.Some? ==> var t := StripRight(s);
      && |r.value| <= |t| && t[|t| - |r.value|..] == r.value
      && (|r.value| == |t| || IsSpace(t[|t| - |r.value| - 1]))
  {
    RightSpace(s);
    if StripRight(s) == [] then None else Some(TrailingWord(StripRight(s)))
  }

  /** A string is whitespace only exactly when `rstrip()` leaves nothing of it. */
  lemma RightSpace(s: string)
    ensures StripRight(s) == [] <==> AllSpace(s)
  {
    var t := StripRight(s);
    StripRightShape(s);
    if t != [] {
      assert s[|t| - 1] == t[|t| - 1];
    } else {
      assert s == s[|t|..];
    }
  }

  /** `soup.body`, then `body.find("h1").string.split()[-1]`, with the errors each step raises. */
  function DotOid(doc: Node): (r: Outcome<string>)
    ensures r.Ok? ==> r.value != [] && forall i :: 0 <= i < |r.value| ==> !IsSpace(r.value[i])
    ensures r.Raised? ==> r.error == AttributeError || r.error == IndexError
  {
    match FindFirst(doc, "body")
    case None => Raised(AttributeError)
    case Some(body) =>
      match FindFirst(body, "h1")
      case None => Raised(AttributeError)
      case Some(h1) =>
        match SoupString(h1)
        case None => Raised(AttributeError)
        case Some(s) =>
          match LastWord(s)
          case None => Raised(IndexError)
          case Some(w) => Ok(w)
  }

  /** The `dt` elements of the first `dl` in the body; no `dl` is an `AttributeError`. */
  function TermNodes(doc: Node): (r: Outcome<seq<Node>>)
    ensures r.Raised? <==> FindFirst(doc, "body").None? || FindFirst(FindFirst(doc, "body").value, "dl").None?
    ensures r.Raised? ==> r.error == AttributeError
    ensures r.Ok? ==> r.value == FindAll(FindFirst(FindFirst(doc, "body").value, "dl").value, "dt")
  {
    match FindFirst(doc, "body")
    case None => Raised(AttributeError)
    case Some(body) =>
      match FindFirst(body, "dl")
      case None => Raised(AttributeError)
      case Some(dl) => Ok(FindAll(dl, "dt"))
  }

  /** What one row of the children table leads to. */
  datatype Link = NoEntry | Broken | Url(url: string)

  /** A row with no cell is skipped; a cell without a link text raises; otherwise the child's URL. */
  function RowLink(row: Node): (r: Link)
    ensures r == NoEntry <==> FindFirst(row, "td").None?
    ensures r == Broken <==>
      && FindFirst(row, "td").Some?
      && (FindFirst(FindFirst(row, "td").value, "a").None?
          || SoupString(FindFirst(FindFirst(row, "td").value, "a").value).None?)
    ensures r.Url? ==>
      && |BaseUrl| + 1 <= |r.url|
      && r.url[..|BaseUrl| + 1] == BaseUrl + "/"
      && r.url[|BaseUrl| + 1..] == Strip(SoupString(FindFirst(FindFirst(row, "td").value, "a").value).value)
  {
    match FindFirst(row, "td")
    case None => NoEntry
    case Some(td) =>
      match FindFirst(td, "a")
      case None => Broken
      case Some(a) =>
        match SoupString(a)
        case None => Broken
        case Some(s) => Url(BaseUrl + "/" + Strip(s))
  }

  /** The heading test of `traverse_tree`: an `h3` with a non-empty string mentioning `Children`. */
  predicate IsChildrenHeading(n: Node)
  {
    IsElement(n, "h3") && SoupString(n).Some? && SoupString(n).value != [] && Contains(SoupString(n).value, "Children")
  }

  /** The position of the first node that passes the heading test. */
  function FirstChildrenHeading(heads: seq<Node>): (r: Option<nat>)
    ensures r.Some? ==> r.value < |heads| && IsChildrenHeading(heads[r.value])
    ensures r.Some? ==> forall k :: 0 <= k < r.value ==> !IsChildrenHeading(heads[k])
    ensures r.None? ==> forall k :: 0 <= k < |heads| ==> !IsChildrenHeading(heads[k])
  {
    if heads == [] then None
    else if IsChildrenHeading(heads[0]) then Some(0)
    else match FirstChildrenHeading(heads[1..])
      case None => None
      case Some(k) => Some(k + 1)
  }

  /**
   * The rows `traverse_tree` walks: none without a children heading; the node two siblings
   * after the heading must be an element (`next_sibling.next_sibling`), else `AttributeError`.
   */
  function ChildRows(doc: Node): (r: Outcome<seq<Link>>)
    ensures r.Raised? ==> r.error == AttributeError
    ensures FindFirst(doc, "body").None? ==> r.Raised?
  {
    match FindFirst(doc, "body")
    case None => Raised(AttributeError)
    case Some(body) =>
      var slots := SlotsOf(body, "h3");
      match FirstChildrenHeading(FindAll(body, "h3"))
      case None => Ok([])
      case Some(k) =>
        var slot := slots[k];
        if slot.index + 2 >= |slot.siblings| || slot.siblings[slot.index + 2].Text? then Raised(AttributeError)
        else
          var rows := FindAll(slot.siblings[slot.index + 2], "tr");
          Ok(seq(|rows|, i requires 0 <= i < |rows| => RowLink(rows[i])))
  }

  /** What the crawler reads from one parsed page: its OID, its `dt` elements and its child rows. */
  datatype Page = Page(dotOid: Outcome<string>, termNodes: Outcome<seq<Node>>, rows: Outcome<seq<Link>>)

  function PageOf(doc: Node): (p: Page)
    ensures FindFirst(doc, "body").None? ==>
      p.dotOid == Raised(AttributeError) && p.termNodes == Raised(AttributeError) && p.rows == Raised(AttributeError)
    ensures p.termNodes.Ok? ==> forall i :: 0 <= i < |p.termNodes.value| ==> IsElement(p.termNodes.value[i], "dt")
  {
    Page(DotOid(doc), TermNodes(doc), ChildRows(doc))
  }

  /**
   * The request, parse and reading of a URL, which the model does not see into; the
   * site's real pages are those `PageOf` reads from their documents.
   */
  type Fetch = string -> Page

  /** `scrape_data` completes on this page. */
  predicate Scrapes(page: Page)
  {
    page.dotOid.Ok? && page.termNodes.Ok?
  }

  /** The canonical terms of `dt` elements, in order, repetitions kept. */
  function TermKeys(dts: seq<Node>): (r: seq<string>)
    ensures |r| == |dts|
    ensures forall i :: 0 <= i < |dts| ==> r[i] == SoupTermKey(SoupString(dts[i]))
  {
    seq(|dts|, i requires 0 <= i < |dts| => SoupTermKey(SoupString(dts[i])))
  }

  /** Every term key is canonical, and canonicalising it again as a term gives it back. */
  lemma TermKeysCanonical(dts: seq<Node>)
    ensures forall i :: 0 <= i < |TermKeys(dts)| ==>
      IsCanonical(TermKeys(dts)[i]) && SoupTermKey(Some(TermKeys(dts)[i])) == TermKeys(dts)[i]
  {
    forall i | 0 <= i < |TermKeys(dts)|
      ensures IsCanonical(TermKeys(dts)[i]) && SoupTermKey(Some(TermKeys(dts)[i])) == TermKeys(dts)[i]
    {
      TermKeysIdempotent("", SoupString(dts[i]));
    }
  }

  /** The canonical terms of a page. */
  function Terms(page: Page): (r: seq<string>)
    requires page.termNodes.Ok?
    ensures |r| == |page.termNodes.value|
    ensures forall i :: 0 <= i < |r| ==> IsCanonical(r[i])
  {
    TermKeys(page.termNodes.value)
  }

  /** The pages a walk fetches, in order, and whether it ended without an exception. */
  datatype Trace = Trace(pages: seq<string>, complete: bool)

  /**
   * `traverse_tree(url)` with `budget` pages left: nothing once the budget is spent; else the
   * page, then its children's walks in row order, each with what its elder siblings left.
   */
  function Crawl(fetch: Fetch, url: string, budget: nat): (t: Trace)
    decreases budget, 0
    ensures |t.pages| <= budget
    ensures budget > 0 ==> |t.pages| >= 1 && t.pages[0] == url
    ensures budget == 0 ==> t == Trace([], true)
  {
    if budget == 0 then Trace([], true)
    else
      var page := fetch(url);
      if !Scrapes(page) then Trace([url], false)
      else
        match page.rows
        case Raised(_) => Trace([url], false)
        case Ok(rows) =>
          var rest := CrawlRows(fetch, rows, budget - 1);
          Trace([url] + rest.pages, rest.complete)
  }

  /** One table row of the loop: nothing for a row without a cell, an exception for a cell without a link. */
  function RowTrace(fetch: Fetch, link: Link, budget: nat): (t: Trace)
    decreases budget, 1
    ensures |t.pages| <= budget
  {
    match link
    case NoEntry => Trace([], true)
    case Broken => Trace([], false)
    case Url(u) => Crawl(fetch, u, budget)
  }

  /** The `for table_row` loop: the walks of `rows`, in order, sharing `budget`; an exception ends it. */
  function CrawlRows(fetch: Fetch, rows: seq<Link>, budget: nat): (t: Trace)
    decreases budget, 2, |rows|
    ensures |t.pages| <= budget
  {
    if rows == [] then Trace([], true)
    else
      var first := RowTrace(fetch, rows[0], budget);
      if !first.complete then first
      else
        var rest := CrawlRows(fetch, rows[1..], budget - |first.pages|);
        Trace(first.pages + rest.pages, rest.complete)
  }

  /** The walk of the rows from `i` on: row `i`'s walk, then, unless it raised, the rest's walk on the budget left. */
  lemma CrawlRowsAt(fetch: Fetch, rows: seq<Link>, i: nat, budget: nat)
    requires i < |rows|
    ensures var first := RowTrace(fetch, rows[i], budget);
      !first.complete ==> CrawlRows(fetch, rows[i..], budget) == first
    ensures var first := RowTrace(fetch, rows[i], budget);
      var rest := CrawlRows(fetch, rows[i + 1..], budget - |first.pages|);
      first.complete ==> CrawlRows(fetch, rows[i..], budget) == Trace(first.pages + rest.pages, rest.complete)
  {
    assert rows[i..][0] == rows[i];
    assert rows[i..][1..] == rows[i + 1..];
  }

  /**
   * One pass of the row loop: if the walk so far plus the walk of rows `i..` is the whole walk,
   * then after row `i` either the row raised and the walk is over, or the same holds for rows `i + 1..`
   * on the budget left.
   */
  lemma WalkStep(fetch: Fetch, rows: seq<Link>, i: nat, budget: nat, left: nat, origin: seq<string>, target: Trace,
                 before: seq<string>, after: seq<string>)
    requires i < |rows|
    requires before + CrawlRows(fetch, rows[i..], budget).pages == origin + target.pages
    requires CrawlRows(fetch, rows[i..], budget).complete == target.complete
    requires after == before + RowTrace(fetch, rows[i], budget).pages
    requires left == budget - |RowTrace(fetch, rows[i], budget).pages|
    ensures !RowTrace(fetch, rows[i], budget).complete ==> after == origin + target.pages && !target.complete
    ensures RowTrace(fetch, rows[i], budget).complete ==>
      after + CrawlRows(fetch, rows[i + 1..], left).pages == origin + target.pages
    ensures RowTrace(fetch, rows[i], budget).complete ==>
      CrawlRows(fetch, rows[i + 1..], left).complete == target.complete
  {
    CrawlRowsAt(fetch, rows, i, budget);
    var first := RowTrace(fetch, rows[i], budget);
    if first.complete {
      var rest := CrawlRows(fetch, rows[i + 1..], left);
      assert after + rest.pages == before + (first.pages + rest.pages);
    }
  }

  /** A page that scrapes and has its rows: its walk is the page, then the walk of its rows on one page less. */
  lemma CrawlAfter(fetch: Fetch, url: string, budget: nat, before: seq<string>, mid: seq<string>, after: seq<string>)
    requires budget > 0 && Scrapes(fetch(url)) && fetch(url).rows.Ok?
    requires mid == before + [url]
    requires after == mid + CrawlRows(fetch, fetch(url).rows.value, budget - 1).pages
    ensures after == before + Crawl(fetch, url, budget).pages
    ensures Crawl(fetch, url, budget).complete == CrawlRows(fetch, fetch(url).rows.value, budget - 1).complete
  {
    var rest := CrawlRows(fetch, fetch(url).rows.value, budget - 1);
    assert Crawl(fetch, url, budget) == Trace([url] + rest.pages, rest.complete);
    assert after == before + ([url] + rest.pages);
  }

  /**
   * A larger budget only extends the walk: the pages are a prefix of those fetched with more
   * budget, and a walk that never ran out of budget is the same walk.
   */
  lemma {:induction false} CrawlPrefix(fetch: Fetch, url: string, budget: nat, more: nat)
    requires budget <= more
    decreases budget, 0
    ensures Crawl(fetch, url, budget).pages <= Crawl(fetch, url, more).pages
    ensures |Crawl(fetch, url, budget).pages| < budget ==> Crawl(fetch, url, more) == Crawl(fetch, url, budget)
  {
    if budget > 0 && Scrapes(fetch(url)) && fetch(url).rows.Ok? {
      CrawlRowsPrefix(fetch, fetch(url).rows.value, budget - 1, more - 1);
    }
  }

  /** The same for the walk of one row. */
  lemma {:induction false} RowPrefix(fetch: Fetch, link: Link, budget: nat, more: nat)
    requires budget <= more
    decreases budget, 1
    ensures RowTrace(fetch, link, budget).pages <= RowTrace(fetch, link, more).pages
    ensures |RowTrace(fetch, link, budget).pages| < budget ==> RowTrace(fetch, link, more) == RowTrace(fetch, link, budget)
  {
    if link.Url? {
      CrawlPrefix(fetch, link.url, budget, more);
    }
  }

  /** The same for the walk of a row list. */
  lemma {:induction false} CrawlRowsPrefix(fetch: Fetch, rows: seq<Link>, budget: nat, more: nat)
    requires budget <= more
    decreases budget, 2, |rows|
    ensures CrawlRows(fetch, rows, budget).pages <= CrawlRows(fetch, rows, more).pages
    ensures |CrawlRows(fetch, rows, budget).pages| < budget ==> CrawlRows(fetch, rows, more) == CrawlRows(fetch, rows, budget)
  {
    if rows != [] {
      var first := RowTrace(fetch, rows[0], budget);
      var first' := RowTrace(fetch, rows[0], more);
      RowPrefix(fetch, rows[0], budget, more);
      var rest' := CrawlRows(fetch, rows[1..], more - |first'.pages|);
      assert first'.pages <= first'.pages + rest'.pages;
      if |first.pages| < budget {
        if first.complete {
          CrawlRowsPrefix(fetch, rows[1..], budget - |first.pages|, more - |first.pages|);
        }
      } else if first.complete {
        assert CrawlRows(fetch, rows[1..], 0).pages == [];
      }
    }
  }

  /** A page without a children heading has no rows to walk. */
  lemma NoChildrenHeadingNoRows(doc: Node)
    requires FindFirst(doc, "body").Some?
    requires forall n :: n in FindAll(FindFirst(doc, "body").value, "h3") ==> !IsChildrenHeading(n)
    ensures ChildRows(doc) == Ok([])
  {
  }

  /** The rows that have a cell. */
  function Entries(rows: seq<Link>): (r: seq<Link>)
    ensures forall l :: l in r <==> l in rows && l != NoEntry
  {
    if rows == [] then []
    else if rows[0] == NoEntry then Entries(rows[1..])
    else [rows[0]] + Entries(rows[1..])
  }

  /** A page with no rows to walk leads nowhere: with budget left, the walk fetches it alone. */
  lemma LeafPage(fetch: Fetch, url: string, budget: nat)
    requires budget > 0 && Scrapes(fetch(url)) && fetch(url).rows == Ok([])
    ensures Crawl(fetch, url, budget) == Trace([url], true)
  {
  }

  /** Rows without a cell are passed over: they add nothing to the walk. */
  lemma {:induction false} EmptyRowsSkipped(fetch: Fetch, rows: seq<Link>, budget: nat)
    ensures CrawlRows(fetch, rows, budget) == CrawlRows(fetch, Entries(rows), budget)
  {
    if rows != [] {
      if rows[0] == NoEntry {
        EmptyRowsSkipped(fetch, rows[1..], budget);
      } else {
        var first := RowTrace(fetch, rows[0], budget);
        if first.complete {
          EmptyRowsSkipped(fetch, rows[1..], budget - |first.pages|);
        }
        assert Entries(rows)[1..] == Entries(rows[1..]);
      }
    }
  }

  /** The terms of `terms` not already in `seen`, each the first time it occurs, tagged with the page's OID. */
  function NewEntries(seen: set<string>, terms: seq<string>, dotOid: string): (r: seq<(string, string)>)
  {
    if terms == [] then []
    else
      var front := terms[..|terms| - 1];
      var t := terms[|terms| - 1];
      NewEntries(seen, front, dotOid) + (if t in seen + TermSetOf(front) then [] else [(t, dotOid)])
  }

  function TermSetOf(terms: seq<string>): set<string>
  {
    set t | t in terms
  }

  /** One more term: logged exactly when neither `seen` nor the earlier terms hold it. */
  lemma NewEntriesStep(seen: set<string>, terms: seq<string>, i: nat, dotOid: string)
    requires i < |terms|
    ensures NewEntries(seen, terms[..i + 1], dotOid) ==
      NewEntries(seen, terms[..i], dotOid) + (if terms[i] in seen + TermSetOf(terms[..i]) then [] else [(terms[i], dotOid)])
    ensures TermSetOf(terms[..i + 1]) == TermSetOf(terms[..i]) + {terms[i]}
  {
    assert terms[..i + 1][..i] == terms[..i];
    assert terms[..i + 1] == terms[..i] + [terms[i]];
  }

  /** The terms a log has recorded. */
  function LoggedTerms(log: seq<(string, string)>): set<string>
  {
    set e | e in log :: e.0
  }

  /** No term appears twice in a log. */
  predicate EachTermOnce(log: seq<(string, string)>)
  {
    forall i, j :: 0 <= i < j < |log| ==> log[i].0 != log[j].0
  }

  /**
   * The new entries record exactly the unseen terms, each once, against the page's OID.
   */
  lemma {:induction false} NewEntriesSpec(seen: set<string>, terms: seq<string>, dotOid: string)
    ensures LoggedTerms(NewEntries(seen, terms, dotOid)) == TermSetOf(terms) - seen
    ensures EachTermOnce(NewEntries(seen, terms, dotOid))
    ensures forall e :: e in NewEntries(seen, terms, dotOid) ==> e.1 == dotOid
  {
    if terms != [] {
      var front := terms[..|terms| - 1];
      var t := terms[|terms| - 1];
      NewEntriesSpec(seen, front, dotOid);
      assert TermSetOf(terms) == TermSetOf(front) + {t} by {
        assert terms == front + [t];
      }
      var before := NewEntries(seen, front, dotOid);
      if t !in seen + TermSetOf(front) {
        var after := before + [(t, dotOid)];
        assert LoggedTerms(after) == LoggedTerms(before) + {t};
        forall i, j | 0 <= i < j < |after|
          ensures after[i].0 != after[j].0
        {
          if j == |before| {
            assert after[i] == before[i];
            assert before[i].0 in LoggedTerms(before);
          } else {
            assert after[i] == before[i] && after[j] == before[j];
          }
        }
        assert forall e :: e in after ==> e in before || e == (t, dotOid);
      } else {
        assert NewEntries(seen, terms, dotOid) == before;
        assert TermSetOf(terms) - seen == TermSetOf(front) - seen;
      }
    }
  }

  /** The new entries of canonical terms are logged under canonical terms. */
  lemma NewEntriesCanonical(seen: set<string>, terms: seq<string>, dotOid: string)
    requires forall i :: 0 <= i < |terms| ==> IsCanonical(terms[i])
    ensures forall i :: 0 <= i < |NewEntries(seen, terms, dotOid)| ==> IsCanonical(NewEntries(seen, terms, dotOid)[i].0)
  {
    var added := NewEntries(seen, terms, dotOid);
    NewEntriesSpec(seen, terms, dotOid);
    forall i | 0 <= i < |added| ensures IsCanonical(added[i].0) {
      assert added[i].0 in LoggedTerms(added);
      assert added[i].0 in TermSetOf(terms);
    }
  }

  /** The log `scrape_data` leaves after the pages `pages` have been scraped in order from an empty log. */
  function TermLog(fetch: Fetch, pages: seq<string>): (r: seq<(string, string)>)
    ensures forall i :: 0 <= i < |r| ==> IsCanonical(r[i].0)
  {
    if pages == [] then []
    else
      var before := TermLog(fetch, pages[..|pages| - 1]);
      var page := fetch(pages[|pages| - 1]);
      if Scrapes(page) then
        NewEntriesCanonical(LoggedTerms(before), Terms(page), page.dotOid.value);
        before + NewEntries(LoggedTerms(before), Terms(page), page.dotOid.value)
      else before
  }

  /** A term is written to the log at most once, however many pages show it. */
  lemma {:induction false} TermLogOnce(fetch: Fetch, pages: seq<string>)
    ensures EachTermOnce(TermLog(fetch, pages))
  {
    if pages != [] {
      var before := TermLog(fetch, pages[..|pages| - 1]);
      TermLogOnce(fetch, pages[..|pages| - 1]);
      var page := fetch(pages[|pages| - 1]);
      if Scrapes(page) {
        var added := NewEntries(LoggedTerms(before), Terms(page), page.dotOid.value);
        NewEntriesSpec(LoggedTerms(before), Terms(page), page.dotOid.value);
        var log := before + added;
        forall i, j | 0 <= i < j < |log|
          ensures log[i].0 != log[j].0
        {
          if i < |before| <= j {
            assert log[i] in before && log[j] in added;
            assert log[j].0 in LoggedTerms(added);
          }
        }
      }
    }
  }

  /** The crawler's globals: the page counter, the term set and the term file, and the pages fetched so far. */
  class Crawler {
    const fetch: Fetch
    var numPages: nat
    var termSet: set<string>
    var termLog: seq<(string, string)>
    ghost var visited: seq<string>

    /** The counter counts the pages fetched, never past the limit; the log and set follow from those pages. */
    ghost predicate Valid()
      reads this
    {
      && numPages == |visited| <= PageLimit
      && termLog == TermLog(fetch, visited)
      && termSet == LoggedTerms(termLog)
    }

    constructor (fetch: Fetch)
      ensures Valid() && this.fetch == fetch && visited == [] && termLog == []
    {
      this.fetch := fetch;
      numPages := 0;
      termSet := {};
      termLog := [];
      visited := [];
    }

    /** `scrape_data`: read the page's OID and terms, and log every term not yet in the set. */
    method ScrapeData(page: Page) returns (ok: bool)
      modifies this
      ensures ok == Scrapes(page)
      ensures numPages == old(numPages) && visited == old(visited)
      ensures ok ==> termLog == old(termLog) + NewEntries(old(termSet), Terms(page), page.dotOid.value)
      ensures ok ==> termSet == old(termSet) + TermSetOf(Terms(page))
      ensures !ok ==> termLog == old(termLog) && termSet == old(termSet)
    {
      var dotOid := page.dotOid;
      if dotOid.Raised? {
        return false;
      }
      var termNodes := page.termNodes;
      if termNodes.Raised? {
        return false;
      }
      LogTerms(termNodes.value, dotOid.value);
      return true;
    }

    /** The `for description_term` loop of `scrape_data`: log each canonical term the set has not seen, then add it. */
    method LogTerms(descriptionTerms: seq<Node>, dotOid: string)
      modifies this
      ensures numPages == old(numPages) && visited == old(visited)
      ensures termLog == old(termLog) + NewEntries(old(termSet), TermKeys(descriptionTerms), dotOid)
      ensures termSet == old(termSet) + TermSetOf(TermKeys(descriptionTerms))
    {
      ghost var terms := TermKeys(descriptionTerms);
      ghost var seen := termSet;
      ghost var log := termLog;
      for i := 0 to |descriptionTerms|
        invariant termLog == log + NewEntries(seen, terms[..i], dotOid)
        invariant termSet == seen + TermSetOf(terms[..i])
        invariant numPages == old(numPages) && visited == old(visited)
      {
        var convertedTerm := SpacesToUnderscores(Lower(StrOf(SoupString(descriptionTerms[i]))));
        if convertedTerm == "node_name" {
          convertedTerm := "node_names";
        }
        assert convertedTerm == terms[i];
        NewEntriesStep(seen, terms, i, dotOid);
        RecordTerm(convertedTerm, dotOid);
        assert termLog == log + NewEntries(seen, terms[..i], dotOid) + (if terms[i] in seen + TermSetOf(terms[..i]) then [] else [(terms[i], dotOid)]);
      }
      assert terms[..|descriptionTerms|] == terms;
    }

    /** The `if converted_term not in term_set` test: append and remember a term on its first sighting only. */
    method RecordTerm(term: string, dotOid: string)
      modifies this
      ensures numPages == old(numPages) && visited == old(visited)
      ensures termLog == old(termLog) + (if term in old(termSet) then [] else [(term, dotOid)])
      ensures termSet == old(termSet) + {term}
    {
      if term !in termSet {
        termLog := termLog + [(term, dotOid)];
        termSet := termSet + {term};
      }
    }

    /**
     * `traverse_tree`: past the limit, return at once; otherwise count the page, scrape it and
     * walk its children's rows.
     */
    method TraverseTree(url: string) returns (ok: bool)
      requires Valid()
      modifies this
      decreases PageLimit - numPages, 1
      ensures Valid()
      ensures visited == old(visited) + Crawl(fetch, url, PageLimit - old(numPages)).pages
      ensures numPages == old(numPages) + |Crawl(fetch, url, PageLimit - old(numPages)).pages|
      ensures ok == Crawl(fetch, url, PageLimit - old(numPages)).complete
      ensures old(termSet) <= termSet
      ensures old(numPages) >= PageLimit ==> ok && numPages == old(numPages) && termSet == old(termSet) && termLog == old(termLog)
    {
      if numPages >= PageLimit {
        return true;
      }
      ok := Descend(url);
    }

    /** `traverse_tree` past the guard: open the page, then walk its children's rows. */
    method Descend(url: string) returns (ok: bool)
      requires Valid() && numPages < PageLimit
      modifies this
      decreases PageLimit - numPages, 0
      ensures Valid()
      ensures visited == old(visited) + Crawl(fetch, url, PageLimit - old(numPages)).pages
      ensures numPages == old(numPages) + |Crawl(fetch, url, PageLimit - old(numPages)).pages|
      ensures ok == Crawl(fetch, url, PageLimit - old(numPages)).complete
      ensures old(termSet) <= termSet
    {
      ghost var budget := PageLimit - numPages;
      var page, scraped := OpenPage(url);
      if !scraped {
        return false;
      }
      var childRows := page.rows;
      if childRows.Raised? {
        return false;
      }
      ghost var mid := visited;
      ok := WalkRows(childRows.value);
      CrawlAfter(fetch, url, budget, old(visited), mid, visited);
    }

    /** The first steps of `traverse_tree` past the guard: count the page, fetch it and scrape it. */
    method OpenPage(url: string) returns (page: Page, ok: bool)
      requires Valid() && numPages < PageLimit
      modifies this
      ensures Valid()
      ensures page == fetch(url) && ok == Scrapes(page)
      ensures visited == old(visited) + [url] && numPages == old(numPages) + 1
      ensures old(termSet) <= termSet
    {
      numPages := numPages + 1;
      visited := visited + [url];
      page := fetch(url);
      ok := ScrapeData(page);
      TermLogStep(fetch, old(visited), url, old(termLog));
    }

    /** The `for table_row` loop of `traverse_tree`: each row's child walked in order, an exception ending the walk. */
    method WalkRows(links: seq<Link>) returns (ok: bool)
      requires Valid()
      modifies this
      decreases PageLimit - numPages, 4
      ensures Valid()
      ensures visited == old(visited) + CrawlRows(fetch, links, PageLimit - old(numPages)).pages
      ensures numPages == old(numPages) + |CrawlRows(fetch, links, PageLimit - old(numPages)).pages|
      ensures ok == CrawlRows(fetch, links, PageLimit - old(numPages)).complete
      ensures old(termSet) <= termSet
    {
      ghost var target := CrawlRows(fetch, links, PageLimit - numPages);
      for i := 0 to |links|
        invariant Valid()
        invariant numPages >= old(numPages)
        invariant old(termSet) <= termSet
        invariant visited + CrawlRows(fetch, links[i..], PageLimit - numPages).pages == old(visited) + target.pages
        invariant CrawlRows(fetch, links[i..], PageLimit - numPages).complete == target.complete
      {
        ok := WalkRow(links, i, old(visited), target);
        if !ok {
          return;
        }
      }
      assert links[|links|..] == [];
      return true;
    }

    /** One pass of that loop, as the walk of rows `i..` sees it: row `i` walked, and the rest of the walk still ahead. */
    method WalkRow(links: seq<Link>, i: nat, ghost origin: seq<string>, ghost target: Trace) returns (ok: bool)
      requires Valid() && i < |links|
      requires visited + CrawlRows(fetch, links[i..], PageLimit - numPages).pages == origin + target.pages
      requires CrawlRows(fetch, links[i..], PageLimit - numPages).complete == target.complete
      modifies this
      decreases PageLimit - numPages, 3
      ensures Valid()
      ensures numPages >= old(numPages) && old(termSet) <= termSet
      ensures !ok ==> visited == origin + target.pages && !target.complete
      ensures ok ==> visited + CrawlRows(fetch, links[i + 1..], PageLimit - numPages).pages == origin + target.pages
      ensures ok ==> CrawlRows(fetch, links[i + 1..], PageLimit - numPages).complete == target.complete
    {
      ghost var before := visited;
      ghost var budget := PageLimit - numPages;
      ok := VisitRow(links[i]);
      WalkStep(fetch, links, i, budget, PageLimit - numPages, origin, target, before, visited);
    }

    /** The body of that loop for one row: a row without a cell is passed over, a cell without a link raises. */
    method VisitRow(link: Link) returns (ok: bool)
      requires Valid()
      modifies this
      decreases PageLimit - numPages, 2
      ensures Valid()
      ensures visited == old(visited) + RowTrace(fetch, link, PageLimit - old(numPages)).pages
      ensures numPages == old(numPages) + |RowTrace(fetch, link, PageLimit - old(numPages)).pages|
      ensures ok == RowTrace(fetch, link, PageLimit - old(numPages)).complete
      ensures old(termSet) <= termSet
    {
      match link
      case NoEntry =>
        return true;
      case Broken =>
        return false;
      case Url(child) =>
        ok := TraverseTree(child);
    }

    /** Scraping one more page extends the log by that page's new entries. */
    static lemma TermLogStep(fetch: Fetch, pages: seq<string>, url: string, log: seq<(string, string)>)
      requires log == TermLog(fetch, pages)
      ensures var page := fetch(url);
        && (Scrapes(page) ==> TermLog(fetch, pages + [url]) == log + NewEntries(LoggedTerms(log), Terms(page), page.dotOid.value))
        && (Scrapes(page) ==> LoggedTerms(TermLog(fetch, pages + [url])) == LoggedTerms(log) + TermSetOf(Terms(page)))
        && (!Scrapes(page) ==> TermLog(fetch, pages + [url]) == log)
    {
      assert (pages + [url])[..|pages|] == pages;
      var page := fetch(url);
      if Scrapes(page) {
        var added := NewEntries(LoggedTerms(log), Terms(page), page.dotOid.value);
        NewEntriesSpec(LoggedTerms(log), Terms(page), page.dotOid.value);
        assert LoggedTerms(log + added) == LoggedTerms(log) + LoggedTerms(added);
      }
    }
  }
}
