/**
 * The description-list scraper of ehp_conversion.py: the `dl` of a node page becomes a
 * dictionary keyed by canonical `dt` names, each `dd` converted by a per-field rule.
 */
module EhpConversion {
  import opened Wrappers
  import opened Strings
  import opened PyInt
  import opened Document
  import opened FieldNames
  import Dicts

  datatype DateTime = DateTime(year: int, month: int, day: int, hour: int, minute: int, second: int)

  /** A value the dictionary can hold: Python `None`, a string, an int, a list of strings or a datetime. */
  datatype Value = Null | Str(text: string) | Int(number: int) | StrList(items: seq<string>) | Date(when: DateTime)

  /** A field rule either stores a value under the key or leaves the key out (`continue`). */
  datatype Converted = Omit | Keep(value: Value)

  /** `dateparser.parse`, which the model does not see into: a date, or `None` when the text is not one. */
  type DateParser = string -> Option<DateTime>

  /** What `extract_list` returns: the trimmed text of each element child, in order. */
  function ElementTexts(tag: Node): (r: seq<string>)
    ensures |r| == |ElementChildren(tag)|
  {
    var inner := ElementChildren(tag);
    seq(|inner|, i requires 0 <= i < |inner| => Strip(AllText(inner[i])))
  }

  /** `extract_list`: one trimmed text per element child, in order; text nodes contribute nothing. */
  method ExtractList(tag: Node) returns (result: seq<string>)
    ensures |result| == |ElementChildren(tag)|
    ensures forall i :: 0 <= i < |result| ==> result[i] == Strip(AllText(ElementChildren(tag)[i]))
    ensures result == ElementTexts(tag)
  {
    result := [];
    var innerTags := ElementChildren(tag);
    for i := 0 to |innerTags|
      invariant |result| == i
      invariant forall j :: 0 <= j < i ==> result[j] == Strip(AllText(innerTags[j]))
    {
      result := result + [Strip(AllText(innerTags[i]))];
    }
  }

  /**
   * The `parent` rule: the first anchor below the `dd`. An ehp tag is a Python list, so an
   * anchor without child nodes is as falsy as a missing one.
   */
  function ConvertParent(dd: Node): (r: Converted)
    ensures r.Keep? ==> FindFirst(dd, "a").Some? && Children(FindFirst(dd, "a").value) != []
    ensures r.Keep? && r.value.Str? ==>
      && r.value.text != "None"
      && (r.value.text == [] || (!IsSpace(r.value.text[0]) && !IsSpace(r.value.text[|r.value.text| - 1])))
    ensures r.Keep? ==> r.value.Null? || r.value.Str?
  {
    match FindFirst(dd, "a")
    case None => Omit
    case Some(anchor) =>
      if Children(anchor) == [] then Omit
      else
        var text := Strip(AllText(anchor));
        if text == "None" then Keep(Null) else Keep(Str(text))
  }

  /** The `node_code` rule: an integer if `int()` accepts the text, else `None` or the trimmed text. */
  function ConvertNodeCode(dd: Node): (r: Converted)
    ensures r.Keep?
    ensures r.value.Int? <==> ParseInt(AllText(dd)).Some?
    ensures r.value.Str? ==> r.value.text != "None" && ParseInt(r.value.text).None?
  {
    ParseIgnoresSpace(AllText(dd));
    match ParseInt(AllText(dd))
    case Some(n) => Keep(Int(n))
    case None =>
      var text := Strip(AllText(dd));
      if text == "None" then Keep(Null) else Keep(Str(text))
  }

  /** The per-field `match` of `scrape_description_list`, for an already renamed key. */
  function ConvertField(key: string, dd: Node, parseDate: DateParser): (r: Converted)
    ensures r.Omit? ==> key == "parent"
    ensures key == "node_names" || key == "asn1_oid" || key == "iri_oid" ==> r.Keep? && r.value.StrList?
    ensures key == "creation_date" || key == "modification_date" ==> r.Keep? && (r.value.Date? || r.value.Null?)
  {
    match key
    case "parent" => ConvertParent(dd)
    case "node_code" => ConvertNodeCode(dd)
    case "node_names" =>
      if |Children(dd)| == 1 then Keep(StrList([Strip(AllText(dd))])) else Keep(StrList(ElementTexts(dd)))
    case "asn1_oid" => Keep(StrList(ElementTexts(dd)))
    case "iri_oid" => Keep(StrList(ElementTexts(dd)))
    case "creation_date" => Keep(DateOrNull(parseDate(AllText(dd))))
    case "modification_date" => Keep(DateOrNull(parseDate(AllText(dd))))
    case _ => Keep(Str(Strip(AllText(dd))))
  }

  function DateOrNull(d: Option<DateTime>): Value
  {
    match d
    case Some(when) => Date(when)
    case None => Null
  }

  /** The assignment the loop performs for a pair whose `dt` gave `title`, or `None` for `continue`. */
  function Update(title: string, dd: Node, parseDate: DateParser): Option<(string, Value)>
  {
    var key := Rename(title);
    match ConvertField(key, dd, parseDate)
    case Omit => None
    case Keep(v) => Some((key, v))
  }

  /** The assignments for the first `n` pairs. */
  function Updates(titles: seq<string>, dds: seq<Node>, parseDate: DateParser, n: nat): (u: seq<Option<(string, Value)>>)
    requires n <= |titles| && n <= |dds|
    ensures |u| == n
  {
    seq(n, i requires 0 <= i < n => Update(titles[i], dds[i], parseDate))
  }

  /** The `dt` texts as `section_titles` holds them: trimmed, lowered, spaces to underscores. */
  function SectionTitles(dl: Node): (r: seq<string>)
    ensures |r| == |FindAll(dl, "dt")|
  {
    var dts := FindAll(dl, "dt");
    seq(|dts|, i requires 0 <= i < |dts| => HeadingKey(AllText(dts[i])))
  }

  /**
   * The result of `scrape_description_list`: `None` when the page has no `dl`, an `IndexError`
   * when it has fewer `dd` than `dt`, else the dictionary.
   */
  function DescriptionList(root: Node, parseDate: DateParser): (r: Outcome<Option<map<string, Value>>>)
    ensures r.Raised? ==> r.error == IndexError
    ensures r == Ok(None) <==> FindAll(root, "dl") == []
  {
    var dls := FindAll(root, "dl");
    if dls == [] then Ok(None)
    else
      var titles := SectionTitles(dls[0]);
      var dds := FindAll(dls[0], "dd");
      if |dds| < |titles| then Raised(IndexError)
      else Ok(Some(Dicts.Fill(Updates(titles, dds, parseDate, |titles|))))
  }

  /** `scrape_description_list`: find the first `dl`, then run the indexed loop over its pairs. */
  method ScrapeDescriptionList(root: Node, parseDate: DateParser) returns (r: Outcome<Option<map<string, Value>>>)
    ensures r == DescriptionList(root, parseDate)
  {
    var dls := FindAll(root, "dl");
    if dls == [] {
      return Ok(None);
    }
    var descriptionList := dls[0];
    var sectionTitles := SectionTitles(descriptionList);
    var sectionContents := FindAll(descriptionList, "dd");
    var data := FillData(sectionTitles, sectionContents, parseDate);
    match data
    case Raised(e) => return Raised(e);
    case Ok(m) => return Ok(Some(m));
  }

  /** The indexed loop of `scrape_description_list`: `IndexError` once `dd` run out, else the filled `data`. */
  method FillData(sectionTitles: seq<string>, sectionContents: seq<Node>, parseDate: DateParser)
    returns (r: Outcome<map<string, Value>>)
    ensures |sectionContents| < |sectionTitles| ==> r == Raised(IndexError)
    ensures |sectionTitles| <= |sectionContents|
      ==> r == Ok(Dicts.Fill(Updates(sectionTitles, sectionContents, parseDate, |sectionTitles|)))
  {
    var data: map<string, Value> := map[];
    for i := 0 to |sectionTitles|
      invariant i <= |sectionContents|
      invariant data == Dicts.Fill(Updates(sectionTitles, sectionContents, parseDate, i))
    {
      if i >= |sectionContents| {
        return Raised(IndexError);
      }
      var sectionTitle := sectionTitles[i];
      if sectionTitle == "node_name" {
        sectionTitle := "node_names";
      }
      var next := Updates(sectionTitles, sectionContents, parseDate, i + 1);
      assert next[..i] == Updates(sectionTitles, sectionContents, parseDate, i);
      match ConvertField(sectionTitle, sectionContents[i], parseDate)
      case Omit =>
      case Keep(convertedContent) =>
        data := data[sectionTitle := convertedContent];
    }
    return Ok(data);
  }

  /** The three outcomes: `None` exactly without a `dl`, `IndexError` exactly when a `dt` has no `dd`. */
  lemma DescriptionListOutcome(root: Node, parseDate: DateParser)
    ensures var r := DescriptionList(root, parseDate); var dls := FindAll(root, "dl");
      && (r == Ok(None) <==> dls == [])
      && (r.Raised? <==> dls != [] && |FindAll(dls[0], "dd")| < |FindAll(dls[0], "dt")|)
      && (r.Raised? ==> r.error == IndexError)
  {
  }

  /** The `i`-th pair of `dl` stores a value under `k`: its `dt` canonicalises to `k` and the rule keeps a value. */
  predicate StoresAt(dl: Node, parseDate: DateParser, i: int, k: string)
  {
    var dts := FindAll(dl, "dt");
    var dds := FindAll(dl, "dd");
    0 <= i < |dts| <= |dds| && EhpTermKey(AllText(dts[i])) == k && ConvertField(k, dds[i], parseDate).Keep?
  }

  /** Pass `i` assigns exactly when its pair stores a value, and then assigns the converted value under the canonical key. */
  lemma UpdateAt(dl: Node, parseDate: DateParser, i: int)
    requires |FindAll(dl, "dt")| <= |FindAll(dl, "dd")| && 0 <= i < |FindAll(dl, "dt")|
    ensures var u := Updates(SectionTitles(dl), FindAll(dl, "dd"), parseDate, |FindAll(dl, "dt")|);
      var k := EhpTermKey(AllText(FindAll(dl, "dt")[i]));
      && (u[i].Some? <==> StoresAt(dl, parseDate, i, k))
      && (u[i].Some? ==> u[i] == Some((k, ConvertField(k, FindAll(dl, "dd")[i], parseDate).value)))
  {
  }

  /** A key is present exactly when some pair stores a value under it. */
  lemma DescriptionListKeys(root: Node, parseDate: DateParser, k: string)
    requires DescriptionList(root, parseDate).Ok? && DescriptionList(root, parseDate).value.Some?
    ensures var dl := FindAll(root, "dl")[0];
      k in DescriptionList(root, parseDate).value.value <==> exists i :: StoresAt(dl, parseDate, i, k)
  {
    var dl := FindAll(root, "dl")[0];
    var u := Updates(SectionTitles(dl), FindAll(dl, "dd"), parseDate, |FindAll(dl, "dt")|);
    Dicts.FillKeys(u, k);
    if k in Dicts.Fill(u) {
      var i :| 0 <= i < |u| && u[i].Some? && u[i].value.0 == k;
      UpdateAt(dl, parseDate, i);
    }
    if i :| StoresAt(dl, parseDate, i, k) {
      UpdateAt(dl, parseDate, i);
    }
  }

  /** Later pairs overwrite earlier ones: a key holds the value of the last pair that stores under it. */
  lemma DescriptionListLastWins(root: Node, parseDate: DateParser, k: string)
    requires DescriptionList(root, parseDate).Ok? && DescriptionList(root, parseDate).value.Some?
    requires k in DescriptionList(root, parseDate).value.value
    ensures var dl := FindAll(root, "dl")[0]; var m := DescriptionList(root, parseDate).value.value;
      exists i :: StoresAt(dl, parseDate, i, k) && ConvertField(k, FindAll(dl, "dd")[i], parseDate) == Keep(m[k])
        && forall j :: i < j ==> !StoresAt(dl, parseDate, j, k)
  {
    var dl := FindAll(root, "dl")[0];
    assert DescriptionList(root, parseDate).value.value
      == Dicts.Fill(Updates(SectionTitles(dl), FindAll(dl, "dd"), parseDate, |FindAll(dl, "dt")|));
    LastStoreWins(dl, parseDate, k);
  }

  /** The last-wins property for one description list, stated on the filled map itself. */
  lemma LastStoreWins(dl: Node, parseDate: DateParser, k: string)
    requires |FindAll(dl, "dt")| <= |FindAll(dl, "dd")|
    requires k in Dicts.Fill(Updates(SectionTitles(dl), FindAll(dl, "dd"), parseDate, |FindAll(dl, "dt")|))
    ensures var m := Dicts.Fill(Updates(SectionTitles(dl), FindAll(dl, "dd"), parseDate, |FindAll(dl, "dt")|));
      exists i :: StoresAt(dl, parseDate, i, k) && ConvertField(k, FindAll(dl, "dd")[i], parseDate) == Keep(m[k])
        && forall j :: i < j ==> !StoresAt(dl, parseDate, j, k)
  {
    var u := Updates(SectionTitles(dl), FindAll(dl, "dd"), parseDate, |FindAll(dl, "dt")|);
    var m := Dicts.Fill(u);
    Dicts.FillLast(u, k);
    var i :| 0 <= i < |u| && u[i] == Some((k, m[k])) && Dicts.LastFor(u, i, k);
    UpdateAt(dl, parseDate, i);
    assert EhpTermKey(AllText(FindAll(dl, "dt")[i])) == k;
    assert StoresAt(dl, parseDate, i, k);
    NoLaterStore(dl, parseDate, i, k);
  }

  /** No pair after the last assignment of `k` stores under `k`. */
  lemma NoLaterStore(dl: Node, parseDate: DateParser, i: nat, k: string)
    requires |FindAll(dl, "dt")| <= |FindAll(dl, "dd")|
    requires Dicts.LastFor(Updates(SectionTitles(dl), FindAll(dl, "dd"), parseDate, |FindAll(dl, "dt")|), i, k)
    ensures forall j :: i < j ==> !StoresAt(dl, parseDate, j, k)
  {
    var u := Updates(SectionTitles(dl), FindAll(dl, "dd"), parseDate, |FindAll(dl, "dt")|);
    forall j | i < j
      ensures !StoresAt(dl, parseDate, j, k)
    {
      if 0 <= j < |u| {
        UpdateAt(dl, parseDate, j);
      }
    }
  }

  /** Every key is canonical: trimmed, lower-case, underscored, and never `node_name`. */
  lemma DescriptionListCanonical(root: Node, parseDate: DateParser, k: string)
    requires DescriptionList(root, parseDate).Ok? && DescriptionList(root, parseDate).value.Some?
    requires k in DescriptionList(root, parseDate).value.value
    ensures IsCanonical(k)
  {
    DescriptionListKeys(root, parseDate, k);
    var dl := FindAll(root, "dl")[0];
    var i :| StoresAt(dl, parseDate, i, k);
  }

  /**
   * `parent`: left out when there is no anchor with content; otherwise `None` exactly when the
   * trimmed anchor text is `None`, else that trimmed text.
   */
  lemma ParentRule(dd: Node, parseDate: DateParser)
    ensures var c := ConvertField("parent", dd, parseDate); var a := FindFirst(dd, "a");
      && (c.Omit? <==> a.None? || Children(a.value) == [])
      && (c == Keep(Null) <==> a.Some? && Children(a.value) != [] && Strip(AllText(a.value)) == "None")
      && (c.Keep? && c.value != Null ==> c.value == Str(Strip(AllText(a.value))) && c.value.text != "None")
  {
  }

  /**
   * `node_code` never fails: an int when `int()` accepts the text; otherwise `None` for the
   * text `None`; otherwise the trimmed text, which is then never an integer literal.
   */
  lemma NodeCodeRule(dd: Node, parseDate: DateParser)
    ensures var c := ConvertField("node_code", dd, parseDate); var text := AllText(dd);
      && c.Keep?
      && (c.value.Int? <==> ParseInt(text).Some?)
      && (c.value.Int? ==> ParseInt(text) == Some(c.value.number))
      && (c.value == Null <==> Strip(text) == "None")
      && (c.value.Str? ==> c.value.text == Strip(text) && ParseInt(c.value.text) == None && c.value.text != "None")
  {
    NoneIsNotInt();
    ParseIgnoresSpace(AllText(dd));
    if Strip(AllText(dd)) == "None" {
      assert ParseInt(AllText(dd)) == None;
    }
  }

  /** A `node_code` whose text is an integer written by Python comes back as that integer. */
  lemma NodeCodeRoundTrip(dd: Node, n: int, parseDate: DateParser)
    requires AllText(dd) == ShowInt(n)
    ensures ConvertField("node_code", dd, parseDate) == Keep(Int(n))
  {
    ParseShow(n);
  }

  /**
   * The list fields: `asn1_oid` and `iri_oid` hold one trimmed text per element child;
   * `node_names` does too unless the `dd` has exactly one child node, when it holds the whole trimmed text.
   */
  lemma ListRules(dd: Node, parseDate: DateParser)
    ensures forall key | key in {"asn1_oid", "iri_oid"} :: ConvertField(key, dd, parseDate) == Keep(StrList(ElementTexts(dd)))
    ensures |Children(dd)| == 1 ==> ConvertField("node_names", dd, parseDate) == Keep(StrList([Strip(AllText(dd))]))
    ensures |Children(dd)| != 1 ==> ConvertField("node_names", dd, parseDate) == Keep(StrList(ElementTexts(dd)))
    ensures |ElementTexts(dd)| == |ElementChildren(dd)|
  {
  }
}
