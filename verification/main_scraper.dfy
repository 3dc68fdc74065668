/**
 * The earlier description-list scraper of main.py, over BeautifulSoup: every `dt` gives a
 * key, the node after it is converted by a strict per-field rule, and any failure on the
 * way is an exception rather than a fallback.
 */
module MainScraper {
  import opened Wrappers
  import opened Strings
  import opened PyInt
  import opened Document
  import opened FieldNames
  import Dicts
  import EhpConversion

  type Value = EhpConversion.Value
  type DateTime = EhpConversion.DateTime

  /** `datetime.strptime(text, "%b. %d, %Y")`, which the model does not see into: `None` is a `ValueError`. */
  type DateFormat = string -> Option<DateTime>

  /** BeautifulSoup's `next_sibling`: the node right after this one under the same parent, if any. */
  function NextSibling(slot: Slot): (r: Option<Node>)
    requires slot.Valid()
    ensures r.Some? <==> slot.index + 1 < |slot.siblings|
    ensures r.Some? ==> r.value == slot.siblings[slot.index + 1]
  {
    if slot.index + 1 < |slot.siblings| then Some(slot.siblings[slot.index + 1]) else None
  }

  /** `desc.string`: an attribute error on `None`. */
  function StringOf(desc: Option<Node>): Outcome<Option<string>>
  {
    match desc
    case None => Raised(AttributeError)
    case Some(n) => Ok(SoupString(n))
  }

  /**
   * The `parent` arm: `desc.a.string`, written with `str` and stripped. `None`, a text node
   * (which has no `a`) and an element without an anchor all raise `AttributeError`.
   */
  function SoupParent(desc: Option<Node>): (r: Outcome<Value>)
    ensures r.Raised? ==> r.error == AttributeError
    ensures r.Ok? ==> r.value.Null? || r.value.Str?
    ensures r.Ok? && r.value.Str? ==>
      && r.value.text != "None"
      && (r.value.text == [] || (!IsSpace(r.value.text[0]) && !IsSpace(r.value.text[|r.value.text| - 1])))
  {
    match desc
    case None => Raised(AttributeError)
    case Some(n) =>
      if n.Text? then Raised(AttributeError)
      else
        match FindFirst(n, "a")
        case None => Raised(AttributeError)
        case Some(anchor) =>
          var text := Strip(StrOf(SoupString(anchor)));
          if text == "None" then Ok(EhpConversion.Null) else Ok(EhpConversion.Str(text))
  }

  /** The `node_code` arm: `int(desc.string)`, a `TypeError` on `None` and a `ValueError` on other text. */
  function SoupNodeCode(desc: Option<Node>): (r: Outcome<Value>)
    ensures r.Ok? ==> r.value.Int?
    ensures r.Raised? ==> (r.error == AttributeError <==> desc.None?)
    ensures r.Raised? ==> r.error == AttributeError || r.error == TypeError || r.error == ValueError
  {
    match StringOf(desc)
    case Raised(e) => Raised(e)
    case Ok(None) => Raised(TypeError)
    case Ok(Some(s)) =>
      match ParseInt(s)
      case None => Raised(ValueError)
      case Some(n) => Ok(EhpConversion.Int(n))
  }

  /** The date arms: the stripped `str(desc.string)` read with the fixed format. */
  function SoupDate(desc: Option<Node>, parseDate: DateFormat): (r: Outcome<Value>)
    ensures r.Ok? ==> r.value.Date?
    ensures r.Raised? ==> r.error == (if desc.None? then AttributeError else ValueError)
  {
    match StringOf(desc)
    case Raised(e) => Raised(e)
    case Ok(s) =>
      match parseDate(Strip(StrOf(s)))
      case None => Raised(ValueError)
      case Some(when) => Ok(EhpConversion.Date(when))
  }

  /** The per-term `match` of `scrape_description_list`, for a renamed key and the node after the `dt`. */
  function SoupConvert(key: string, desc: Option<Node>, parseDate: DateFormat): (r: Outcome<Value>)
    ensures desc.None? ==> r == Raised(AttributeError)
    ensures r.Raised? ==> r.error != IndexError
    ensures key == "node_code" && r.Ok? ==> r.value.Int?
    ensures (key == "node_names" || key == "asn1_oid" || key == "iri_oid") && desc.Some? ==> r.Ok? && r.value.StrList?
  {
    match key
    case "parent" => SoupParent(desc)
    case "node_code" => SoupNodeCode(desc)
    case "node_names" => SoupStrings(desc)
    case "asn1_oid" => SoupStrings(desc)
    case "iri_oid" => SoupStrings(desc)
    case "creation_date" => SoupDate(desc, parseDate)
    case "modification_date" => SoupDate(desc, parseDate)
    case _ =>
      match StringOf(desc)
      case Raised(e) => Raised(e)
      case Ok(s) => Ok(EhpConversion.Str(Strip(StrOf(s))))
  }

  /** The list arms: `[str(name) for name in desc.stripped_strings]`. */
  function SoupStrings(desc: Option<Node>): Outcome<Value>
  {
    match desc
    case None => Raised(AttributeError)
    case Some(n) => Ok(EhpConversion.StrList(StrippedStrings(n)))
  }

  /** One pass of the loop: the canonical key of the `dt` at `slot` and its converted value, or the exception. */
  function TermEntry(slot: Slot, parseDate: DateFormat): (r: Outcome<(string, Value)>)
    requires slot.Valid()
    ensures NextSibling(slot).None? ==> r == Raised(AttributeError)
    ensures r.Ok? ==> r.value.0 == SoupTermKey(SoupString(slot.siblings[slot.index])) && IsCanonical(r.value.0)
  {
    var key := SoupTermKey(SoupString(slot.siblings[slot.index]));
    match SoupConvert(key, NextSibling(slot), parseDate)
    case Raised(e) => Raised(e)
    case Ok(v) => Ok((key, v))
  }

  /** The passes over the first `n` `dt` elements of `dl`. */
  function TermEntries(dl: Node, parseDate: DateFormat, n: nat): (r: seq<Outcome<(string, Value)>>)
    requires n <= |SlotsOf(dl, "dt")|
    ensures |r| == n
  {
    var slots := SlotsOf(dl, "dt");
    seq(n, i requires 0 <= i < n => TermEntry(slots[i], parseDate))
  }

  /**
   * The result of `scrape_description_list`: an `AttributeError` without a `dl`, the first
   * exception a term raises, or the dictionary with later terms overwriting earlier ones.
   */
  function SoupDescriptionList(root: Node, parseDate: DateFormat): (r: Outcome<map<string, Value>>)
    ensures FindFirst(root, "dl").None? ==> r == Raised(AttributeError)
    ensures FindFirst(root, "dl").Some? && SlotsOf(FindFirst(root, "dl").value, "dt") == [] ==> r == Ok(map[])
  {
    match FindFirst(root, "dl")
    case None => Raised(AttributeError)
    case Some(dl) => Dicts.FillOrRaise(TermEntries(dl, parseDate, |SlotsOf(dl, "dt")|))
  }

  /** `scrape_description_list`: the loop over `find_all("dt")` that fills `data`. */
  method ScrapeSoupDescriptionList(root: Node, parseDate: DateFormat) returns (r: Outcome<map<string, Value>>)
    ensures r == SoupDescriptionList(root, parseDate)
  {
    var data: map<string, Value> := map[];
    var descriptionList := FindFirst(root, "dl");
    if descriptionList.None? {
      return Raised(AttributeError);
    }
    var dl := descriptionList.value;
    var slots := SlotsOf(dl, "dt");
    for i := 0 to |slots|
      invariant Dicts.FillOrRaise(TermEntries(dl, parseDate, i)) == Ok(data)
    {
      var descriptionTerm := slots[i].siblings[slots[i].index];
      var convertedTerm := SpacesToUnderscores(Lower(StrOf(SoupString(descriptionTerm))));
      var descriptionDesc := NextSibling(slots[i]);
      if convertedTerm == "node_name" {
        convertedTerm := "node_names";
      }
      var convertedDesc := SoupConvert(convertedTerm, descriptionDesc, parseDate);
      EntryKey(slots[i], parseDate);
      EntriesStep(dl, parseDate, i);
      Dicts.FillOrRaiseSnoc(TermEntries(dl, parseDate, i), TermEntry(slots[i], parseDate));
      if convertedDesc.Raised? {
        Dicts.FillOrRaisePrefix(TermEntries(dl, parseDate, |slots|), i + 1);
        return Raised(convertedDesc.error);
      }
      data := data[convertedTerm := convertedDesc.value];
    }
    return Ok(data);
  }

  /** A pass stores the converted value under the `dt`'s canonical key, or raises what the conversion raised. */
  lemma EntryKey(slot: Slot, parseDate: DateFormat)
    requires slot.Valid()
    ensures var key := SoupTermKey(SoupString(slot.siblings[slot.index]));
      var c := SoupConvert(key, NextSibling(slot), parseDate);
      && (c.Raised? ==> TermEntry(slot, parseDate) == Raised(c.error))
      && (c.Ok? ==> TermEntry(slot, parseDate) == Ok((key, c.value)))
  {
  }

  /** One more pass, and the passes so far as a prefix of all of them. */
  lemma EntriesStep(dl: Node, parseDate: DateFormat, i: nat)
    requires i < |SlotsOf(dl, "dt")|
    ensures TermEntries(dl, parseDate, i + 1) == TermEntries(dl, parseDate, i) + [TermEntry(SlotsOf(dl, "dt")[i], parseDate)]
    ensures TermEntries(dl, parseDate, |SlotsOf(dl, "dt")|)[..i + 1] == TermEntries(dl, parseDate, i + 1)
  {
  }

  /** The `dt` at position `i` of `dl` canonicalises to `k`. */
  predicate KeyAt(dl: Node, i: int, k: string)
  {
    var slots := SlotsOf(dl, "dt");
    0 <= i < |slots| && SoupTermKey(SoupString(slots[i].siblings[slots[i].index])) == k
  }

  /**
   * Without a `dl` the scrape raises `AttributeError`; with one, it succeeds exactly when no
   * term's conversion raises, and otherwise raises what the first raising term raised.
   */
  lemma SoupOutcome(root: Node, parseDate: DateFormat)
    ensures FindFirst(root, "dl").None? ==> SoupDescriptionList(root, parseDate) == Raised(AttributeError)
    ensures FindFirst(root, "dl").Some? ==>
      var dl := FindFirst(root, "dl").value; var items := TermEntries(dl, parseDate, |SlotsOf(dl, "dt")|);
      && (SoupDescriptionList(root, parseDate).Ok? <==> forall i :: 0 <= i < |items| ==> items[i].Ok?)
      && (SoupDescriptionList(root, parseDate).Raised? ==>
            exists i :: Dicts.FirstRaise(items, i, SoupDescriptionList(root, parseDate).error))
  {
    if FindFirst(root, "dl").Some? {
      var dl := FindFirst(root, "dl").value;
      var items := TermEntries(dl, parseDate, |SlotsOf(dl, "dt")|);
      Dicts.FillOrRaiseOk(items);
      if Dicts.FillOrRaise(items).Raised? {
        Dicts.FillOrRaiseFirst(items);
      }
    }
  }

  /** Every `dt` produces a key, and every key comes from a `dt`. */
  lemma SoupKeys(root: Node, parseDate: DateFormat, k: string)
    requires SoupDescriptionList(root, parseDate).Ok?
    ensures var dl := FindFirst(root, "dl").value;
      k in SoupDescriptionList(root, parseDate).value <==> exists i :: KeyAt(dl, i, k)
  {
    var dl := FindFirst(root, "dl").value;
    var items := TermEntries(dl, parseDate, |SlotsOf(dl, "dt")|);
    var u := Dicts.Assigned(items);
    Dicts.FillOrRaiseOk(items);
    Dicts.FillKeys(u, k);
    if k in Dicts.Fill(u) {
      var i :| 0 <= i < |u| && u[i].Some? && u[i].value.0 == k;
      assert KeyAt(dl, i, k);
    }
    if i :| KeyAt(dl, i, k) {
      assert u[i].Some? && u[i].value.0 == k;
    }
  }

  /** A repeated term overwrites: a key holds the value converted for the last `dt` with that key. */
  lemma SoupLastWins(root: Node, parseDate: DateFormat, k: string)
    requires SoupDescriptionList(root, parseDate).Ok?
    requires k in SoupDescriptionList(root, parseDate).value
    ensures var dl := FindFirst(root, "dl").value; var slots := SlotsOf(dl, "dt");
      exists i :: KeyAt(dl, i, k) && SoupConvert(k, NextSibling(slots[i]), parseDate) == Ok(SoupDescriptionList(root, parseDate).value[k])
        && forall j :: i < j ==> !KeyAt(dl, j, k)
  {
    var dl := FindFirst(root, "dl").value;
    LastEntryWins(dl, parseDate, k);
  }

  /** The last-wins property for one description list, stated on the filled map itself. */
  lemma LastEntryWins(dl: Node, parseDate: DateFormat, k: string)
    requires Dicts.FillOrRaise(TermEntries(dl, parseDate, |SlotsOf(dl, "dt")|)).Ok?
    requires k in Dicts.FillOrRaise(TermEntries(dl, parseDate, |SlotsOf(dl, "dt")|)).value
    ensures var slots := SlotsOf(dl, "dt"); var m := Dicts.FillOrRaise(TermEntries(dl, parseDate, |slots|)).value;
      exists i :: KeyAt(dl, i, k) && SoupConvert(k, NextSibling(slots[i]), parseDate) == Ok(m[k])
        && forall j :: i < j ==> !KeyAt(dl, j, k)
  {
    var slots := SlotsOf(dl, "dt");
    var items := TermEntries(dl, parseDate, |slots|);
    var u := Dicts.Assigned(items);
    var m := Dicts.Fill(u);
    Dicts.FillOrRaiseOk(items);
    Dicts.FillLast(u, k);
    var i :| 0 <= i < |u| && u[i] == Some((k, m[k])) && Dicts.LastFor(u, i, k);
    assert items[i] == Ok((k, m[k]));
    EntryKey(slots[i], parseDate);
    NoLaterKey(dl, parseDate, i, k);
  }

  /** When every pass assigns, a key no pass after `i` assigns is the key of no `dt` after `i`. */
  lemma NoLaterKey(dl: Node, parseDate: DateFormat, i: nat, k: string)
    requires var items := TermEntries(dl, parseDate, |SlotsOf(dl, "dt")|);
      (forall j :: 0 <= j < |items| ==> items[j].Ok?) && Dicts.LastFor(Dicts.Assigned(items), i, k)
    ensures forall j :: i < j ==> !KeyAt(dl, j, k)
  {
    var slots := SlotsOf(dl, "dt");
    var u := Dicts.Assigned(TermEntries(dl, parseDate, |slots|));
    forall j | i < j
      ensures !KeyAt(dl, j, k)
    {
      if 0 <= j < |u| {
        EntryKey(slots[j], parseDate);
        assert TermEntries(dl, parseDate, |slots|)[j] == TermEntry(slots[j], parseDate);
        assert u[j].value.0 != k;
      }
    }
  }

  /** Every key is canonical, as in the other variants. */
  lemma SoupCanonical(root: Node, parseDate: DateFormat, k: string)
    requires SoupDescriptionList(root, parseDate).Ok?
    requires k in SoupDescriptionList(root, parseDate).value
    ensures IsCanonical(k)
  {
    SoupKeys(root, parseDate, k);
    var dl := FindFirst(root, "dl").value;
    var slots := SlotsOf(dl, "dt");
    var i :| KeyAt(dl, i, k);
  }

  /**
   * `parent`: `None` exactly when the anchor's stripped string is `None`, otherwise that
   * stripped string; no following element or no anchor in it is an `AttributeError`.
   */
  lemma SoupParentRule(desc: Option<Node>, parseDate: DateFormat)
    ensures var c := SoupConvert("parent", desc, parseDate);
      && (c == Raised(AttributeError) <==> desc.None? || desc.value.Text? || FindFirst(desc.value, "a").None?)
      && (c.Ok? ==> var text := Strip(StrOf(SoupString(FindFirst(desc.value, "a").value)));
            c.value == if text == "None" then EhpConversion.Null else EhpConversion.Str(text))
  {
  }

  /**
   * `node_code` is strict: an int exactly when `int()` accepts the string, a `TypeError` when
   * there is no string, a `ValueError` for any other text.
   */
  lemma SoupNodeCodeRule(desc: Option<Node>, parseDate: DateFormat)
    ensures var c := SoupConvert("node_code", desc, parseDate);
      && (desc.None? ==> c == Raised(AttributeError))
      && (desc.Some? && SoupString(desc.value).None? ==> c == Raised(TypeError))
      && (desc.Some? && SoupString(desc.value).Some? ==>
            match ParseInt(SoupString(desc.value).value)
            case Some(n) => c == Ok(EhpConversion.Int(n))
            case None => c == Raised(ValueError))
      && (c.Ok? ==> c.value.Int?)
  {
  }

  /** A `node_code` whose string is an integer written by Python comes back as that integer; `None` raises. */
  lemma SoupNodeCodeRoundTrip(desc: Node, n: int, parseDate: DateFormat)
    ensures SoupString(desc) == Some(ShowInt(n)) ==> SoupConvert("node_code", Some(desc), parseDate) == Ok(EhpConversion.Int(n))
    ensures SoupString(desc) == Some("None") ==> SoupConvert("node_code", Some(desc), parseDate) == Raised(ValueError)
  {
    ParseShow(n);
    NoneIsNotInt();
  }

  /**
   * The list fields hold the stripped strings of the following node, in document order; any
   * other field not named above holds its stripped string.
   */
  lemma SoupListAndTextRules(desc: Node, key: string, parseDate: DateFormat)
    ensures key in {"node_names", "asn1_oid", "iri_oid"} ==>
      SoupConvert(key, Some(desc), parseDate) == Ok(EhpConversion.StrList(StrippedStrings(desc)))
    ensures key !in {"parent", "node_code", "node_names", "asn1_oid", "iri_oid", "creation_date", "modification_date"} ==>
      SoupConvert(key, Some(desc), parseDate) == Ok(EhpConversion.Str(Strip(StrOf(SoupString(desc)))))
    ensures key in {"creation_date", "modification_date"} ==>
      (SoupConvert(key, Some(desc), parseDate).Ok? <==> parseDate(Strip(StrOf(SoupString(desc)))).Some?)
  {
  }
}
