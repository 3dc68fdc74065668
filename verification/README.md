# qndos scraping rules in Dafny

qndos scrapes the OID registry at oidref.com. This project models the deterministic rules that sit under its
HTML libraries and network calls, and proves what those rules promise. The HTML document is abstract: a tree
of elements (a tag name and child nodes) and bare text nodes.

- `EhpConversion` models `scrape_description_list` and `extract_list` of `ehp_conversion.py`. The `dt` terms of
  the first `dl` become canonical keys. Each `dd` is converted by a per-field rule. A `parent` without an
  anchor is left out. A page without a `dl` gives `None`.
- `EhpDetailed` models `scrape_detailed_data` and its inner `get_pairs`. Each `h3` is paired with the next
  element sibling. `recovered` sections are dropped, and `registration_authority` blocks are cut at the first
  `<\s*h3\s*>` match. The scan stops at the first heading about children or brothers.
- `ConvertEnterprise` models the table loop of `convert_enterprise/convert_enterprise.py`. Texts equal to `"\n"`
  are removed and adjacent texts merged. The title row is skipped. Every other row becomes a record.
- `Crawler` models `traverse_tree` and `scrape_data` of `test.py`. It is a class holding the page counter, the
  term set and the term file. A recursive method walks the child tables depth first, within 100 pages. Fetching
  and parsing a URL is a parameter of type `Fetch`.
- `MainScraper` models `scrape_description_list` of `main.py`, the earlier BeautifulSoup variant. Its field
  rules are strict, so any failure is an exception.
- `DrillDown` models `drill_down_formatter.py`. Each input line is stripped and checked against the exit condition. A dotted OID
  is printed as the Python list literal of its successive prefixes.
- Support modules:
  - `Strings` holds `strip`, `lower`, `replace`, `in`, `split` and `join`.
  - `PyInt` holds `int()` and `str()` on integers.
  - `Document` holds the tree and the parsers' queries. It also holds the reference definitions the queries are proved against: `Descendants` (document order), `Tagged` and `NonBlank`.
  - `FieldNames` holds key canonicalisation.
  - `Dicts` holds a dictionary filled by a loop.
  - `Wrappers` holds `Option` and the Python exceptions.

Notes on what the code does:

- `main.py` and `test.py` lowercase `str(dt.string)` without stripping it. Only `ehp_conversion.py` strips the
  term, so `FieldNames.TermKeysAgree` needs a term without surrounding whitespace.
- `main.py` has no guard for a page without a `dl`: `None.find_all` raises `AttributeError`.
- In `scrape_detailed_data` the `recovered` and `registration_authority` tests come before the children/brothers
  test. A `registration_authority` heading that also mentions children therefore does not stop the scan.
- `get_pairs` raises `IndexError` on a heading with no element after it (see Findings).
- `convert_enterprise.py` removes only the texts that are exactly `"\n"`. Other whitespace texts stay, and
  `smooth()` merges them with their neighbours.

## Model

| member | source | states |
|---|---|---|
| Document.SlotsOf | ehp_conversion.py:97-98 | every slot found is valid and holds an element with the tag, together with its parent's children and its position there |
| Document.SlotsOfComplete | ehp_conversion.py:97-98 | the nodes at the slots found are exactly the descendants that are elements with the tag, each once, in document (pre-order) order |
| Document.SlotsFrom | ehp_conversion.py:97-98 | the same for the slots below `sibs[k..]` |
| Document.SlotsFromComplete | ehp_conversion.py:97-98 | the nodes at the slots below `sibs[k..]` are exactly the tagged descendants of those siblings, each once, in document order |
| Document.FindAll | ehp_conversion.py:40-41 | every node `find` returns is an element with the tag |
| Document.FindAllComplete | ehp_conversion.py:40-41 | `find` returns exactly the descendants that are elements with the tag, each once, in document order |
| Document.FindFirst | ehp_conversion.py:54 | a first match, if any, is an element with the tag |
| Document.FindFirstSpec | ehp_conversion.py:54 | `fst` finds nothing exactly when no descendant is an element with the tag; otherwise it finds a descendant with no such element before it in document order |
| Document.ElementChildren | ehp_conversion.py:17 | only elements are kept |
| Document.ElementsOf | ehp_conversion.py:17 | the result is no longer than the input, holds only elements of it, and holds every element of it |
| Document.ElementsOfAppend | ehp_conversion.py:17 | the filter distributes over concatenation and keeps one node exactly when it is an element, so it keeps each element once, in order |
| Document.StrippedStrings | main.py:35 | no stripped string is empty |
| Document.StrippedStringsSpec | main.py:35 | `stripped_strings` is the stripped text of every text node in the subtree, in document order, leaving out those that strip to nothing |
| Document.StrippedStringsOf | main.py:35 | the same for a child list |
| Document.StrippedStringsOfSpec | main.py:35 | the same for a child list and all that lies below it |
| FieldNames.LowerUnderscoreCanonical | test.py:26-30 | lowercasing, underscoring and renaming leaves no space, no upper-case letter and never `node_name` |
| FieldNames.Rename | ehp_conversion.py:47-49 | the result is never `node_name`, and every other key is left as it is |
| FieldNames.HeadingKey | ehp_conversion.py:40 | as long as the stripped text, with no space and no upper-case letter |
| FieldNames.EhpTermKey | ehp_conversion.py:40-49 | every ehp key is canonical: trimmed, no space, no upper-case letter, never `node_name` |
| FieldNames.SoupTermKey | main.py:18-23 | every BeautifulSoup key is canonical, including the key of `str(None)` |
| FieldNames.CanonicalFixed | ehp_conversion.py:40 | canonicalising a canonical key changes nothing |
| FieldNames.TermKeysIdempotent | ehp_conversion.py:40-49 | both key functions are idempotent |
| FieldNames.HeadingKeyTrimmed | ehp_conversion.py:40 | an ehp key has no whitespace at either end |
| FieldNames.KeepsNonSpace | ehp_conversion.py:40 | lowering and underscoring a non-space character gives a non-space character |
| FieldNames.TermKeysAgree | main.py:18-23 | on a term without surrounding whitespace, the ehp and BeautifulSoup keys agree |
| FieldNames.NodeNamesKey | ehp_conversion.py:47-49 | a key is `node_names` exactly when the term read `node_name` or `node_names` |
| Dicts.FillKeys | ehp_conversion.py:84 | a key is present exactly when some pass assigned it |
| Dicts.FillLast | main.py:41 | a present key holds the value of the last pass that assigned it |
| Dicts.FillOrRaiseSnoc | main.py:17-41 | one more pass: an earlier exception stands, otherwise this pass raises or assigns |
| Dicts.FillOrRaisePrefix | main.py:17-41 | after the first exception, later passes change nothing |
| Dicts.FillOrRaiseOk | main.py:17-43 | the loop completes exactly when no pass raises, and then leaves the dictionary `Fill` describes |
| Dicts.FillOrRaiseFirst | main.py:17-43 | a loop that raises raises the first raising pass's exception |
| Strings.StripLeft | ehp_conversion.py:20 | `lstrip` is no longer than its input and does not start with whitespace |
| Strings.StripLeftShape | ehp_conversion.py:20 | `lstrip` keeps a suffix and drops only whitespace |
| Strings.StripRight | ehp_conversion.py:20 | `rstrip` is no longer than its input and does not end with whitespace |
| Strings.StripRightShape | ehp_conversion.py:20 | `rstrip` keeps a prefix and drops only whitespace |
| Strings.Strip | ehp_conversion.py:20 | `strip` has no whitespace at either end |
| Strings.StripShape | ehp_conversion.py:20 | the input is whitespace, then the result, then whitespace |
| Strings.StripMiddle | ehp_conversion.py:20 | the result sits right after the leading whitespace |
| Strings.StripTail | ehp_conversion.py:20 | what follows the result is whitespace |
| Strings.StripIdempotent | drill_down_formatter.py:6 | stripping twice is stripping once |
| Strings.StripNoEdges | drill_down_formatter.py:6 | a string without whitespace at either end is its own strip |
| Strings.Lower | ehp_conversion.py:40 | `lower` keeps the length, leaves no upper-case letter and changes no other character |
| Strings.SpacesToUnderscoresIsReplace | ehp_conversion.py:40 | the character-wise rewrite of spaces to underscores used for keys is `s.replace(" ", "_")` as `Replace` defines it |
| Strings.Replace | ehp_conversion.py:40 | a string in which the pattern does not occur is returned unchanged |
| Strings.FindFrom | ehp_conversion.py:118 | a position found holds an occurrence at or after the start |
| Strings.FindFromLeftmost | ehp_conversion.py:118 | no occurrence lies between the start and the position found, and none at all when nothing is found |
| Strings.Contains | ehp_conversion.py:118 | a contained string is no longer than the whole, and the empty string is in every string |
| Strings.ContainsOccurs | ehp_conversion.py:118 | `sub in s` exactly when `sub` occurs somewhere in `s` |
| Strings.OccursInPrefix | ehp_conversion.py:129 | an occurrence inside a prefix is an occurrence in the whole |
| Strings.Split | drill_down_formatter.py:11 | `split` gives at least one part, and no part contains the separator |
| Strings.HeadBeforeFirst | drill_down_formatter.py:11 | the text before the leftmost separator does not contain it |
| Strings.JoinShape | drill_down_formatter.py:15 | the join starts with the first part, and with two or more parts the separator follows it |
| Strings.JoinSnoc | drill_down_formatter.py:15 | joining one more part appends the separator and the part |
| Strings.JoinSplit | convert_enterprise/convert_enterprise.py:46 | joining the parts of a split with its separator gives back the string |
| Strings.SplitJoin | drill_down_formatter.py:11-15 | splitting on `c` the join of parts free of `c` gives back the parts |
| PyInt.ParseInt | ehp_conversion.py:65 | `int()` accepts only a text whose stripped form ends in a digit |
| PyInt.ShowNatIsNumeral | convert_enterprise/convert_enterprise.py:47-48 | the decimal digits of a natural number are a numeral of that value, starting with a digit |
| PyInt.ParseShow | convert_enterprise/convert_enterprise.py:47-48 | round trip: `int(str(n)) == n` |
| PyInt.ParseDigits | main.py:33 | a bare numeral parses to its value, and with a minus sign to the negated value |
| PyInt.ParsePositive | main.py:33 | a bare numeral parses to its value |
| PyInt.ParseNegative | main.py:33 | a minus sign before a numeral negates it |
| PyInt.ParseIgnoresSpace | ehp_conversion.py:65-67 | `int()` of a text and of its strip agree |
| PyInt.NoneIsNotInt | ehp_conversion.py:67-68 | the text `None` is not an integer |
| EhpConversion.ElementTexts | ehp_conversion.py:14-23 | one text per element child |
| EhpConversion.ExtractList | ehp_conversion.py:14-23 | the result has one entry per element child, in order, each that child's trimmed text |
| EhpConversion.ConvertParent | ehp_conversion.py:53-62 | `parent` is kept only with an anchor that has content, and is then `None` or the trimmed anchor text, never the text `None` |
| EhpConversion.ConvertNodeCode | ehp_conversion.py:63-70 | `node_code` is always kept: an int exactly when `int()` accepts the text, otherwise text that is neither `None` nor an integer |
| EhpConversion.ConvertField | ehp_conversion.py:52-82 | only `parent` can be left out; the list fields always give a list; the date fields give a date or `None` |
| EhpConversion.Updates | ehp_conversion.py:43-84 | one assignment per `dt` considered |
| EhpConversion.SectionTitles | ehp_conversion.py:40 | one title per `dt` |
| EhpConversion.DescriptionList | ehp_conversion.py:26-86 | the only exception is `IndexError`, and the result is `None` exactly without a `dl` |
| EhpConversion.ScrapeDescriptionList | ehp_conversion.py:26-86 | it returns `None` without a `dl`, else the outcome of the indexed loop on the first `dl`; together that is `DescriptionList` |
| EhpConversion.FillData | ehp_conversion.py:43-86 | the indexed loop raises `IndexError` when the `dd` run out before the `dt`, and otherwise leaves the dictionary of the per-pair assignments in order |
| EhpConversion.DescriptionListOutcome | ehp_conversion.py:29-45 | `None` exactly without a `dl`; `IndexError` exactly when the first `dl` has fewer `dd` than `dt` |
| EhpConversion.UpdateAt | ehp_conversion.py:43-84 | pass `i` assigns exactly when it stores under its canonical key, and then assigns the converted value |
| EhpConversion.DescriptionListKeys | ehp_conversion.py:43-84 | a key is present exactly when some pair stores under it, so a `parent` without an anchor adds no key |
| EhpConversion.DescriptionListLastWins | ehp_conversion.py:84 | a key holds the value of the last pair that stores under it |
| EhpConversion.NoLaterStore | ehp_conversion.py:84 | no pair after the last assignment of a key stores under it |
| EhpConversion.DescriptionListCanonical | ehp_conversion.py:40-49 | every key is trimmed, lower-case and underscored, and never `node_name` |
| EhpConversion.ParentRule | ehp_conversion.py:53-62 | `parent` is left out exactly without an anchor with content; it is `None` exactly for anchor text `None`, otherwise the trimmed anchor text |
| EhpConversion.NodeCodeRule | ehp_conversion.py:63-70 | `node_code` never fails: an int exactly when `int()` accepts it, `None` exactly for the text `None`, otherwise the trimmed non-integer text |
| EhpConversion.NodeCodeRoundTrip | ehp_conversion.py:65 | a `node_code` written by `str(n)` reads back as `n` |
| EhpConversion.ListRules | ehp_conversion.py:71-77 | `asn1_oid`/`iri_oid` always use `extract_list`; `node_names` is the whole trimmed text for exactly one child node, else `extract_list` |
| EhpDetailed.NextElement | ehp_conversion.py:100-103 | the first element at or after a position, with no element before it |
| EhpDetailed.PairOf | ehp_conversion.py:97-108 | a heading's pair is the heading and the first element sibling after it; none exactly when no element follows |
| EhpDetailed.Pairs | ehp_conversion.py:94-110 | no more pairs than headings |
| EhpDetailed.PairsAppend | ehp_conversion.py:97-110 | the pairs of two heading lists are the pairs of each in turn, and one heading contributes its pair exactly when it has one; so with dangling headings the pairs are those of the headings that have one, in order |
| EhpDetailed.PairsAsWritten | ehp_conversion.py:97-108 | as written, the only exception is `IndexError`, and success gives one pair per heading |
| EhpDetailed.PairsSound | ehp_conversion.py:97-108 | every pair is some heading with its first element sibling |
| EhpDetailed.PairsComplete | ehp_conversion.py:97-108 | when every heading has an element after it, there is one pair per heading, in order |
| EhpDetailed.PairsAsWrittenRaises | ehp_conversion.py:101-106 | the code as written raises `IndexError` exactly when some heading has no element after it, and otherwise gives the intended pairs |
| EhpDetailed.DanglingHeadingRaises | ehp_conversion.py:101 | a page whose only heading ends its block raises as written, and has no pairs as intended |
| EhpDetailed.GetPairs | ehp_conversion.py:94-110 | `get_pairs` returns the intended pairs of all headings below the root |
| EhpDetailed.SkipText | ehp_conversion.py:100-103 | the inner loop stops at the first element at or after its start, or at the end |
| EhpDetailed.PairsStep | ehp_conversion.py:97-108 | one more heading adds its pair, if it has one (loop helper) |
| EhpDetailed.StopIndex | ehp_conversion.py:129-130 | the stop position is within the sections |
| EhpDetailed.StopIndexFirst | ehp_conversion.py:129-130 | no section before the stop position stops the scan, and the one at it does |
| EhpDetailed.StopIndexAt | ehp_conversion.py:129-130 | up to the stop position, a section stops the scan exactly at it |
| EhpDetailed.FirstMarker | ehp_conversion.py:89 | the leftmost match of `<\s*h3\s*>` at or after a position |
| EhpDetailed.BeforeMarker | ehp_conversion.py:125 | `split(...)[0]` is a prefix with no match in it, ending at a match or at the end |
| EhpDetailed.MarkerHasOneOpening | ehp_conversion.py:89 | a match has no `<` after its first character |
| EhpDetailed.MarkerInPrefix | ehp_conversion.py:89 | a match cannot start in a match-free text and run into a following `<` |
| EhpDetailed.MarkerWithin | ehp_conversion.py:89 | a match inside a prefix is a match of the prefix |
| EhpDetailed.BeforeMarkerIgnoresTail | ehp_conversion.py:124-126 | the text before the first marker of `s + t` is `s` when `s` has none and `t` starts with one |
| EhpDetailed.RegistrationIgnoresTail | ehp_conversion.py:122-127 | a `registration_authority` value depends only on the text before its first marker |
| EhpDetailed.Kind | ehp_conversion.py:118-130 | the tests in source order: `recovered` exactly skips; `registration_authority` counts only without `recovered`; a stop needs `children` or `brothers` and neither earlier word; everything else is plain |
| EhpDetailed.RegistrationValue | ehp_conversion.py:124-126 | the value stored for a `registration_authority` section is trimmed |
| EhpDetailed.SectionUpdate | ehp_conversion.py:115-132 | a section assigns nothing exactly when it is skipped or stops the scan; otherwise it assigns under its own key, which never contains `recovered`, a trimmed value |
| EhpDetailed.DetailedData | ehp_conversion.py:91-134 | every key in the result belongs to a registration or a plain section |
| EhpDetailed.SectionUpdates | ehp_conversion.py:115-132 | one assignment per section scanned |
| EhpDetailed.UpdateAt | ehp_conversion.py:115-132 | assignment `i` is that of section `i` |
| EhpDetailed.DanglingHeadingLosesPage | ehp_conversion.py:101-113 | as written the page raises; as intended it gives an empty dictionary |
| EhpDetailed.ScrapeDetailedData | ehp_conversion.py:91-134 | the loop leaves the dictionary of the sections before the first stopping heading |
| EhpDetailed.ScanSection | ehp_conversion.py:116-132 | it stops exactly on a children/brothers heading and then changes nothing; otherwise it stores the section's assignment, if any |
| EhpDetailed.FillStep | ehp_conversion.py:115-132 | one more section before the stop adds its assignment (loop helper) |
| EhpDetailed.DetailedKeys | ehp_conversion.py:115-134 | a key is present exactly when a section before the first stopping heading has it and is not `recovered`; no key contains `recovered` |
| EhpDetailed.DetailedLastWins | ehp_conversion.py:115-132 | a key holds the value stored by the last section before the first stopping heading that assigns under it: that section has the key, and no later section before the stop assigns under it |
| EhpDetailed.SectionUpdateAt | ehp_conversion.py:118-132 | a section before the stop assigns exactly when it is not `recovered`, and under its own key |
| EhpDetailed.DetailedIgnoresAfterStop | ehp_conversion.py:129-130 | sections after the first stopping heading do not affect the result |
| EhpDetailed.UpdatesOfPrefix | ehp_conversion.py:115-132 | the first `n` assignments depend only on the first `n` sections |
| EhpDetailed.StopIndexOfPrefix | ehp_conversion.py:129-130 | appending sections after a stopping heading keeps the stop position |
| ConvertEnterprise.DropNewlines | convert_enterprise/convert_enterprise.py:29-32 | a text is unchanged; an element keeps its tag and gains no child |
| ConvertEnterprise.DropNewlinesAll | convert_enterprise/convert_enterprise.py:29-32 | the list does not grow and no text equal to `"\n"` remains |
| ConvertEnterprise.DropNewlinesCount | convert_enterprise/convert_enterprise.py:29-32 | exactly the texts equal to `"\n"` are removed: the length drops by their number |
| ConvertEnterprise.DropNewlinesKeepsElements | convert_enterprise/convert_enterprise.py:29-32 | the element children are kept one for one, in order, each cleaned and with its tag |
| ConvertEnterprise.Smooth | convert_enterprise/convert_enterprise.py:34 | a text is unchanged; an element keeps its tag and gains no child |
| ConvertEnterprise.SmoothAll | convert_enterprise/convert_enterprise.py:34 | smoothing keeps each child's position and kind, leaves texts as they are, and smooths each element in place, keeping its tag |
| ConvertEnterprise.SmoothKeepsElements | convert_enterprise/convert_enterprise.py:34 | the element children are kept one for one, in order, each smoothed and with its tag |
| ConvertEnterprise.SmoothKeepsText | convert_enterprise/convert_enterprise.py:34 | smoothing never changes a node's text |
| ConvertEnterprise.SmoothAllKeepsText | convert_enterprise/convert_enterprise.py:34 | smoothing never changes the text of a child list |
| ConvertEnterprise.MergeTexts | convert_enterprise/convert_enterprise.py:34 | merging never lengthens a child list and never empties a non-empty one |
| ConvertEnterprise.MergeTextsKeepsElements | convert_enterprise/convert_enterprise.py:34 | merging keeps exactly the element children, in order |
| ConvertEnterprise.MergeTextsKeepsText | convert_enterprise/convert_enterprise.py:34 | merging keeps the text of the child list |
| ConvertEnterprise.MergeTextsShape | convert_enterprise/convert_enterprise.py:29-34 | after merging no two texts are adjacent, no text equal to `"\n"` appears, and the first child keeps its kind |
| ConvertEnterprise.Clean | convert_enterprise/convert_enterprise.py:29-34 | the cleaned table keeps its tag and gains no child |
| ConvertEnterprise.CleanChildren | convert_enterprise/convert_enterprise.py:29-37 | the cleaned table's children have no text equal to `"\n"` and no two adjacent texts |
| ConvertEnterprise.CleanKeepsRows | convert_enterprise/convert_enterprise.py:29-37 | cleaning keeps the rows: the cleaned table has as many element children, in order, each the cleaned row with its tag |
| ConvertEnterprise.IntOf | convert_enterprise/convert_enterprise.py:47-48 | `int(x.string)` succeeds exactly on a string `int()` accepts; otherwise `TypeError` for no string and `ValueError` for other text |
| ConvertEnterprise.Collect | convert_enterprise/convert_enterprise.py:37-49 | a completed run has one value per step |
| ConvertEnterprise.RaisedPersists | convert_enterprise/convert_enterprise.py:37-49 | an exception ends the run |
| ConvertEnterprise.CollectStep | convert_enterprise/convert_enterprise.py:37-49 | one more step of the run (loop helper) |
| ConvertEnterprise.CollectAll | convert_enterprise/convert_enterprise.py:37-49 | the run completes exactly when every step does, with the steps' values in order |
| ConvertEnterprise.RowRecord | convert_enterprise/convert_enterprise.py:43-49 | `AttributeError` exactly for a text child; `IndexError` only for a row with fewer than four cells; a record comes from at least four cells and its link is base URL, `/`, identifier |
| ConvertEnterprise.Records | convert_enterprise/convert_enterprise.py:36-49 | a successful run has one record per row after the title row |
| ConvertEnterprise.EnterpriseRecords | convert_enterprise/convert_enterprise.py:26-49 | no table is `AttributeError`; success means a table, with one record per row of the cleaned table after the title row |
| ConvertEnterprise.RowOutcomes | convert_enterprise/convert_enterprise.py:36-41 | one outcome per row after the title row |
| ConvertEnterprise.ConvertTable | convert_enterprise/convert_enterprise.py:26-49 | the loop skips the title row and returns the rows' records, or the first row's exception; no table is `AttributeError` |
| ConvertEnterprise.RecordsSucceed | convert_enterprise/convert_enterprise.py:37-49 | the conversion succeeds exactly when every row after the first converts |
| ConvertEnterprise.RecordsInOrder | convert_enterprise/convert_enterprise.py:36-49 | whenever the run succeeds, there are rows minus one records (none for no rows), and record `i` is that of row `i + 1` |
| ConvertEnterprise.TitleRowIgnored | convert_enterprise/convert_enterprise.py:36-41 | the title row's content never matters |
| ConvertEnterprise.RecordFields | convert_enterprise/convert_enterprise.py:43-48 | link is base URL, `/`, identifier; the names joined with `, ` give back cell 2; the counts are the integers of cells 3 and 4 |
| ConvertEnterprise.RowRoundTrip | convert_enterprise/convert_enterprise.py:43-48 | a row written from an identifier, names and two counts converts back to them |
| ConvertEnterprise.CellCount | convert_enterprise/convert_enterprise.py:47-48 | a cell holding `str(n)` reads back as `n` |
| Crawler.TrailingWord | test.py:20 | the trailing run of non-whitespace characters is a suffix preceded by whitespace or by nothing |
| Crawler.LastWord | test.py:20 | `split()[-1]` fails exactly on a whitespace-only string; otherwise it is the last non-empty, whitespace-free word |
| Crawler.RightSpace | test.py:20 | `rstrip` leaves nothing exactly of a whitespace-only string |
| Crawler.FirstChildrenHeading | test.py:63 | the first `h3` whose non-empty string mentions `Children`, with none before it |
| Crawler.TermNodes | test.py:18-25 | `AttributeError` exactly when there is no body or the body has no `dl`; otherwise the `dt` elements of that `dl`, as `find_all` gives them |
| Crawler.RowLink | test.py:67-68 | no link exactly when the row has no `td`; `Broken` (an exception) exactly when the `td` has no `a` or the `a` has no string; otherwise the URL is base URL, `/`, then the stripped anchor text |
| Crawler.DotOid | test.py:20 | a dotted OID read is a non-empty word without whitespace; failure is `AttributeError` or `IndexError` |
| Crawler.ChildRows | test.py:62-67 | the only exception is `AttributeError`, and a page without a body raises |
| Crawler.PageOf | test.py:17-25 | without a body every part of the page raises `AttributeError`; the term nodes are `dt` elements |
| Crawler.TermKeysCanonical | test.py:25-30 | each `dt` gives a canonical term, which canonicalising again leaves unchanged |
| Crawler.Terms | test.py:25-30 | one canonical term per `dt` |
| Crawler.Crawl | test.py:43-68 | a walk fetches no more pages than its budget, begins with its own URL when there is budget, and does nothing without budget |
| Crawler.RowTrace | test.py:66-68 | a row's walk stays within the budget |
| Crawler.CrawlRows | test.py:66-68 | the rows' walk stays within the budget |
| Crawler.CrawlRowsAt | test.py:66-68 | the walk from row `i` is row `i`'s walk, followed, unless it raised, by the rest's walk on the budget left (loop helper) |
| Crawler.WalkStep | test.py:66-68 | one pass of the row loop keeps "pages so far plus the walk still ahead is the whole walk" (loop helper) |
| Crawler.CrawlAfter | test.py:59-68 | a scraped page's walk is the page, then its rows' walk on one page less |
| Crawler.CrawlPrefix | test.py:46-49 | more budget only extends a walk; a walk that did not use its budget up is unchanged |
| Crawler.RowPrefix | test.py:66-68 | the same for one row |
| Crawler.CrawlRowsPrefix | test.py:66-68 | the same for a row list |
| Crawler.NoChildrenHeadingNoRows | test.py:63-64 | a page without a children heading has no rows to walk |
| Crawler.Entries | test.py:67 | the rows kept are exactly those with a cell |
| Crawler.LeafPage | test.py:63-68 | a page without rows is a walk of that page alone |
| Crawler.EmptyRowsSkipped | test.py:66-67 | rows without a cell add nothing to the walk |
| Crawler.NewEntriesStep | test.py:32-36 | one more term is logged exactly when neither the set nor earlier terms hold it (loop helper) |
| Crawler.NewEntriesSpec | test.py:32-36 | a page logs exactly its terms not yet seen, each once, against its OID |
| Crawler.NewEntriesCanonical | test.py:32-36 | every term a page logs is canonical |
| Crawler.TermLog | test.py:32-36 | every term in the log is canonical |
| Crawler.TermLogOnce | test.py:32-36 | no term is ever written twice to the log |
| Crawler.Crawler.constructor | test.py:15 | an empty set, an empty log, no page counted |
| Crawler.Crawler.ScrapeData | test.py:17-36 | on a page that scrapes, the log gains its new entries and the set its terms; otherwise nothing changes |
| Crawler.Crawler.LogTerms | test.py:25-36 | the loop logs exactly the unseen terms and adds all terms to the set |
| Crawler.Crawler.RecordTerm | test.py:32-36 | a term is appended only if the set lacked it, and the set then holds it |
| Crawler.Crawler.TraverseTree | test.py:43-68 | the pages fetched are the walk on the budget left, the counter grows by that many and stays within 100, and at the limit nothing changes |
| Crawler.Crawler.Descend | test.py:49-68 | past the guard, the pages fetched are the walk, which begins with this page |
| Crawler.Crawler.OpenPage | test.py:49-59 | the counter is incremented once, before the fetch, and the page is scraped |
| Crawler.Crawler.WalkRows | test.py:66-68 | the row loop fetches the rows' walk in row order, an exception ending it |
| Crawler.Crawler.WalkRow | test.py:66-68 | one row walked, and the rest of the walk still ahead |
| Crawler.Crawler.VisitRow | test.py:67-68 | a row without a cell is passed over, a broken link raises, a link is walked |
| Crawler.Crawler.TermLogStep | test.py:32-36 | scraping one more page extends the log by its new entries |
| MainScraper.SoupParent | main.py:27-31 | the only exception is `AttributeError`; the value is `None` or a trimmed text other than `None` |
| MainScraper.SoupNodeCode | main.py:32-33 | success is an int; `AttributeError` exactly without a following node, else `TypeError` or `ValueError` |
| MainScraper.SoupDate | main.py:36-37 | success is a date; failure is `AttributeError` without a following node and `ValueError` otherwise |
| MainScraper.SoupConvert | main.py:26-39 | no following node raises `AttributeError`; nothing raises `IndexError`; `node_code` succeeds only as an int; list fields always succeed with a list |
| MainScraper.TermEntry | main.py:18-41 | no following node raises `AttributeError`; success stores under the `dt`'s canonical key |
| MainScraper.SoupDescriptionList | main.py:12-43 | no `dl` raises `AttributeError`; a `dl` without `dt` gives an empty dictionary |
| MainScraper.NextSibling | main.py:19 | the node right after, if there is one |
| MainScraper.TermEntries | main.py:17-41 | one pass per `dt` considered |
| MainScraper.ScrapeSoupDescriptionList | main.py:12-43 | the loop returns the dictionary of all passes, or the first pass's exception; no `dl` is `AttributeError` |
| MainScraper.EntriesStep | main.py:17-41 | one more pass, and the passes so far as a prefix of all (loop helper) |
| MainScraper.SoupOutcome | main.py:15-43 | without a `dl` it raises `AttributeError`; with one it succeeds exactly when no pass raises, and otherwise raises the first pass's exception |
| MainScraper.SoupKeys | main.py:17-41 | every `dt` produces a key, and every key comes from a `dt` |
| MainScraper.SoupLastWins | main.py:41 | a repeated term overwrites: a key holds the value of the last `dt` with that key |
| MainScraper.NoLaterKey | main.py:41 | no `dt` after the last assignment of a key has that key |
| MainScraper.SoupCanonical | main.py:18-23 | every key is canonical |
| MainScraper.SoupParentRule | main.py:27-31 | `parent` raises `AttributeError` exactly without a following element with an anchor; otherwise `None` exactly for the stripped text `None`, else that text |
| MainScraper.SoupNodeCodeRule | main.py:32-33 | `node_code` is strict: an int exactly when `int()` accepts the string, `TypeError` without a string, `ValueError` otherwise |
| MainScraper.SoupNodeCodeRoundTrip | main.py:33 | a `node_code` written by `str(n)` reads back as `n`; the text `None` raises |
| MainScraper.SoupListAndTextRules | main.py:34-39 | list fields are the stripped strings in document order; other fields the stripped string; dates succeed exactly when the format reads the text |
| DrillDown.IsExit | drill_down_formatter.py:8 | exit exactly on an empty line or a four-letter line that lowercases to `exit` |
| DrillDown.Drill | drill_down_formatter.py:13-20 | the printed list starts with the header and ends with `]` and a blank line |
| DrillDown.Session | drill_down_formatter.py:5-20 | the session exits exactly when some line is an exit line, and an exit first line prints nothing |
| DrillDown.Prefixes | drill_down_formatter.py:14-15 | one entry per segment |
| DrillDown.Quoted | drill_down_formatter.py:15 | one quoted entry per entry |
| DrillDown.QuotedAt | drill_down_formatter.py:15 | quoted entry `i` is entry `i` in double quotes |
| DrillDown.FormatLine | drill_down_formatter.py:11-20 | the header, the quoted prefixes separated by `, ` with no trailing separator, then `]` and a blank line |
| DrillDown.EntryStep | drill_down_formatter.py:14-18 | pass `i` prints entry `i` and a separator unless it is the last (loop helper) |
| DrillDown.Prompt | drill_down_formatter.py:2-20 | the loop prints the list of every line before the first exit line, and reports whether one came |
| DrillDown.SessionAt | drill_down_formatter.py:5-20 | the session from line `k` by what line `k` is (loop helper) |
| DrillDown.ReadLine | drill_down_formatter.py:6-20 | it stops exactly on an exit line; otherwise what it prints comes before the rest of the session |
| DrillDown.PrefixesEnds | drill_down_formatter.py:11-15 | one entry per segment; the first is the top segment and the last the whole stripped input |
| DrillDown.PrefixesStep | drill_down_formatter.py:15 | each entry after the first is the previous one, `.`, and one segment |
| DrillDown.PrefixesGrow | drill_down_formatter.py:15 | every entry is a prefix of every later one |
| DrillDown.EntrySegments | drill_down_formatter.py:11-15 | entry `i` splits back into exactly the first `i + 1` segments |
| DrillDown.NoDotInSegments | drill_down_formatter.py:11 | no segment holds a dot |
| DrillDown.NoDotInPart | drill_down_formatter.py:11 | a part without `.` in the `in` sense holds no dot character |
| DrillDown.StopsAtExit | drill_down_formatter.py:8-9 | lines after an exit line change nothing, and the session exits |

## Left out

- The network: `requests.get` in `test.py` and `main.py` is not modelled. In `Crawler`, fetching and parsing a URL is a parameter of type `Fetch`. `PageOf` gives what the crawler reads from a parsed document.
- HTML parsing by ehp and BeautifulSoup is not modelled. Documents are abstract trees of elements and texts, with no attributes, comments or entities. BeautifulSoup's `.string` follows single-child chains. `str(node)` renders tags without attributes.
- `markdownify` is a parameter of type `Markdownify`, read as an uninterpreted string function.
- `dateparser.parse` and `datetime.strptime` are parameters. Each maps the text to an optional date, with `None` as failure.
- File and console I/O is not modelled:
  - the term file of `test.py` is the `termLog` field;
  - the JSON files of `convert_enterprise.py` are not written;
  - `print` of the OID and of timings is left out;
  - `input` becomes a list of lines;
  - the incremental prints of `drill_down_formatter.py` become one output string.
- `time.perf_counter` and `perf_counter_ns` are left out.
- These `main` functions are not modelled:
  - the `main` of `ehp_conversion.py`, which reads a file and times the scrapes;
  - the `main` of `main.py`, which fetches a page;
  - the `main` of `test.py`, which walks the three top-level URLs;
  - `lambda_handler`.
  Each is I/O around the modelled functions.
- DrillDown.Prompt: running out of input, where `input()` raises `EOFError`, is modelled as the session ending with `exited` false.
- Strings.Lower: lowercases ASCII letters only, where Python lowercases all Unicode letters.
- PyInt.ParseInt: accepts ASCII digits only, where Python also accepts other Unicode decimal digits.
- ConvertEnterprise.DropNewlinesAll: removes the text nodes equal to `"\n"`. BeautifulSoup's `find_all(string=...)` and `extract()` are not modelled further.
- The page counter of `test.py` is not modelled as a module global. It and the term set are fields of a `Crawler` object, so the model does not capture sharing across separate runs in one process.
- `text()` of ehp is modelled as `Document.AllText`, the concatenated text of the whole subtree.
- `parent.index(header)` in `get_pairs` is modelled by position: each `Document.Slot` carries the heading's index among its parent's children. ehp's `index` compares children by identity, so that position is exactly what it returns.
- Strings.Replace: the contract states only that a string without the pattern is unchanged. The full rewrite is its definition, `replacement.join(s.split(pattern))`, whose parts `JoinSplit` and `SplitJoin` relate. Keys use the character-wise `SpacesToUnderscores`, which `Strings.SpacesToUnderscoresIsReplace` proves equal to `Replace(s, " ", "_")`; `Replace` itself is used for the `<p>` and `</p>` removal in `EhpDetailed.RegistrationValue`.
- The `continue` statements of the section loop in `scrape_detailed_data` are not modelled as control flow: they are folded into the result of `EhpDetailed.ScanSection`, which leaves the dictionary unchanged or sets one key. The `break` is a real `break` in `EhpDetailed.ScrapeDetailedData`, taken when `ScanSection` reports `stop`.
- Document.FindAll, Document.FindFirst and Document.SlotsOf yield matches in pre-order: a node before its descendants, as BeautifulSoup does. ehp's `find`, `fst` and `find_with_root` walk the tree with `sail`, which the ehp library defines, and that library is not part of this model. If `sail` yields a node's descendants before the node, the two orders differ only when an element with the tag lies inside another element with the same tag, for instance a `dl` nested in a `dd`, and then `list(root.find("dl"))[0]` may pick another `dl`.

## Findings

| source | as written | input that shows it | evidently intended | confidence | as-written member | corrected member |
|---|---|---|---|---|---|---|
| ehp_conversion.py:101-106 | the `while` test evaluates `parent[paragraph_index]` before `paragraph_index < len(parent)`, so a heading with no element after it raises `IndexError` and the whole `scrape_detailed_data` call fails | a `div` whose only child is `<h3>Notes</h3>` | the `continue` at lines 105-106 skips such a heading, so the page gives an empty dictionary | not executed | EhpDetailed.DanglingHeadingLosesPage | EhpDetailed.GetPairs |
