/**
 * The narrative-section extractor of ehp_conversion.py: every `h3` heading is paired with the
 * element that follows it, and the pairs become a dictionary of rendered text, with
 * `recovered` sections dropped, `registration_authority` blocks cut at the first `<h3>`
 * marker and the scan ending at the first heading about children or brothers.
 */
module EhpDetailed {
  import opened Wrappers
  import opened Strings
  import opened Document
  import opened FieldNames
  import Dicts

  /** A heading and the block that follows it. */
  datatype Section = Section(header: Node, paragraph: Node)

  /** `markdownify`, which the model does not see into. */
  type Markdownify = string -> string

  /** The position of the first element in `sibs` at or after `from`. */
  function NextElement(sibs: seq<Node>, from: nat): (r: Option<nat>)
    decreases |sibs| - from
    ensures r.Some? ==> from <= r.value < |sibs| && sibs[r.value].Element?
    ensures forall j :: from <= j < |sibs| && (r.None? || j < r.value) ==> !sibs[j].Element?
  {
    if from >= |sibs| then None
    else if sibs[from].Element? then Some(from)
    else NextElement(sibs, from + 1)
  }

  /** `sec` is the heading at `slot` paired with the first element sibling after it. */
  predicate PairedAt(slot: Slot, sec: Section)
    requires slot.Valid()
  {
    var sibs := slot.siblings;
    && sec.header == sibs[slot.index]
    && exists p :: slot.index < p < |sibs| && sec.paragraph == sibs[p] && sibs[p].Element?
         && forall j :: slot.index < j < p ==> !sibs[j].Element?
  }

  predicate AllValid(slots: seq<Slot>)
  {
    forall k :: 0 <= k < |slots| ==> slots[k].Valid()
  }

  /** The section a heading yields, or `None` when no element follows it. */
  function PairOf(slot: Slot): (r: Option<Section>)
    requires slot.Valid()
    ensures r.Some? ==> PairedAt(slot, r.value)
    ensures r.None? <==> NextElement(slot.siblings, slot.index + 1).None?
  {
    match NextElement(slot.siblings, slot.index + 1)
    case None => None
    case Some(p) => Some(Section(slot.siblings[slot.index], slot.siblings[p]))
  }

  /**
   * `get_pairs` as written: the `while` test reads `parent[paragraph_index]` before comparing
   * the index with `len(parent)`, so a heading with no element after it raises `IndexError`.
   */
  function PairsAsWritten(slots: seq<Slot>): (r: Outcome<seq<Section>>)
    requires AllValid(slots)
    ensures r.Raised? ==> r.error == IndexError
    ensures r.Ok? ==> |r.value| == |slots|
  {
    if slots == [] then Ok([])
    else
      match PairsAsWritten(slots[..|slots| - 1])
      case Raised(e) => Raised(e)
      case Ok(prefix) =>
        match PairOf(slots[|slots| - 1])
        case None => Raised(IndexError)
        case Some(sec) => Ok(prefix + [sec])
  }

  /** `get_pairs` as intended: a heading with no element after it is skipped (`continue`). */
  function Pairs(slots: seq<Slot>): (r: seq<Section>)
    requires AllValid(slots)
    ensures |r| <= |slots|
  {
    if slots == [] then []
    else
      var prefix := Pairs(slots[..|slots| - 1]);
      match PairOf(slots[|slots| - 1])
      case None => prefix
      case Some(sec) => prefix + [sec]
  }

  /** Every pair is some heading with the first element sibling after it. */
  lemma {:induction false} PairsSound(slots: seq<Slot>)
    requires AllValid(slots)
    ensures forall i :: 0 <= i < |Pairs(slots)| ==> exists k :: 0 <= k < |slots| && PairedAt(slots[k], Pairs(slots)[i])
  {
    if slots == [] {
      assert Pairs(slots) == [];
    } else {
      var front := slots[..|slots| - 1];
      PairsSound(front);
      var last := PairOf(slots[|slots| - 1]);
      forall i | 0 <= i < |Pairs(slots)|
        ensures exists k :: 0 <= k < |slots| && PairedAt(slots[k], Pairs(slots)[i])
      {
        if i < |Pairs(front)| {
          assert Pairs(slots)[i] == Pairs(front)[i];
          var k :| 0 <= k < |front| && PairedAt(front[k], Pairs(front)[i]);
          assert slots[k] == front[k];
        } else {
          assert Pairs(slots) == Pairs(front) + [last.value];
          assert PairedAt(slots[|slots| - 1], Pairs(slots)[i]);
        }
      }
    }
  }

  /** When every heading has an element after it, there is one pair per heading, in order. */
  lemma {:induction false} PairsComplete(slots: seq<Slot>)
    requires AllValid(slots)
    requires forall k :: 0 <= k < |slots| ==> NextElement(slots[k].siblings, slots[k].index + 1).Some?
    ensures |Pairs(slots)| == |slots|
    ensures forall k :: 0 <= k < |slots| ==> PairedAt(slots[k], Pairs(slots)[k])
  {
    if slots != [] {
      var front := slots[..|slots| - 1];
      PairsComplete(front);
      var last := PairOf(slots[|slots| - 1]);
      assert Pairs(slots) == Pairs(front) + [last.value];
      forall k | 0 <= k < |slots|
        ensures PairedAt(slots[k], Pairs(slots)[k])
      {
        if k < |front| {
          assert slots[k] == front[k];
          assert Pairs(slots)[k] == Pairs(front)[k];
        }
      }
    }
  }

  /**
   * For any headings, dangling ones included: the pairs of two runs of headings are the pairs
   * of the first run followed by those of the second, and a single heading gives its pair, or
   * nothing when no element follows it. So `Pairs` keeps, in order, the pair of every heading
   * that has one.
   */
  lemma {:induction false} PairsAppend(a: seq<Slot>, b: seq<Slot>)
    requires AllValid(a) && AllValid(b)
    ensures AllValid(a + b) && Pairs(a + b) == Pairs(a) + Pairs(b)
    ensures forall s: Slot :: s.Valid() ==> Pairs([s]) == if PairOf(s).Some? then [PairOf(s).value] else []
    decreases |b|
  {
    assert AllValid(a + b) by {
      forall k | 0 <= k < |a + b| ensures (a + b)[k].Valid() {
        if k < |a| { assert (a + b)[k] == a[k]; } else { assert (a + b)[k] == b[k - |a|]; }
      }
    }
    if b == [] {
      assert a + b == a;
    } else {
      var front := b[..|b| - 1];
      PairsAppend(a, front);
      assert (a + b)[..|a + b| - 1] == a + front;
      assert (a + b)[|a + b| - 1] == b[|b| - 1];
    }
    forall s: Slot | s.Valid() ensures Pairs([s]) == if PairOf(s).Some? then [PairOf(s).value] else [] {
      assert [s][..0] == [];
    }
  }

  /**
   * The code as written raises exactly when some heading has no element after it, and
   * otherwise agrees with the intended pairing.
   */
  lemma {:induction false} PairsAsWrittenRaises(slots: seq<Slot>)
    requires AllValid(slots)
    ensures PairsAsWritten(slots).Raised? <==> exists k :: 0 <= k < |slots| && PairOf(slots[k]).None?
    ensures PairsAsWritten(slots).Raised? ==> PairsAsWritten(slots).error == IndexError
    ensures PairsAsWritten(slots).Ok? ==> PairsAsWritten(slots).value == Pairs(slots)
  {
    if slots != [] {
      var front := slots[..|slots| - 1];
      PairsAsWrittenRaises(front);
      if exists k :: 0 <= k < |front| && PairOf(front[k]).None? {
        var k :| 0 <= k < |front| && PairOf(front[k]).None?;
        assert slots[k] == front[k];
      }
      if k :| 0 <= k < |slots| && PairOf(slots[k]).None? {
        if k < |front| {
          assert front[k] == slots[k];
        }
      }
    }
  }

  /** A page whose only heading ends its block makes the code as written raise, where nothing should be paired. */
  lemma DanglingHeadingRaises()
    ensures var page := Element("div", [Element("h3", [Text("Notes")])]);
      && PairsAsWritten(SlotsOf(page, "h3")) == Raised(IndexError)
      && Pairs(SlotsOf(page, "h3")) == []
  {
    var page := Element("div", [Element("h3", [Text("Notes")])]);
    var heading := Element("h3", [Text("Notes")]);
    assert SlotsOf(heading, "h3") == [];
    assert SlotsOf(page, "h3") == [Slot([heading], 0)];
  }

  /** `get_pairs`, intended version: for each heading, skip the text nodes after it. */
  method GetPairs(root: Node) returns (result: seq<Section>)
    ensures result == Pairs(SlotsOf(root, "h3"))
  {
    var found := SlotsOf(root, "h3");
    result := [];
    for k := 0 to |found|
      invariant result == Pairs(found[..k])
    {
      var parent := found[k].siblings;
      var headerIndex := found[k].index;
      var paragraphIndex := SkipText(parent, headerIndex + 1);
      PairsStep(found, k);
      if paragraphIndex >= |parent| {
        continue;
      }
      result := result + [Section(parent[headerIndex], parent[paragraphIndex])];
    }
    assert found[..|found|] == found;
  }

  /** The inner `while` loop, bound test first: the first element at or after `from`, or the end. */
  method SkipText(parent: seq<Node>, from: nat) returns (p: nat)
    requires from <= |parent|
    ensures NextElement(parent, from) == if p < |parent| then Some(p) else None
  {
    p := from;
    while p < |parent| && !parent[p].Element?
      invariant from <= p <= |parent|
      invariant NextElement(parent, from) == NextElement(parent, p)
      decreases |parent| - p
    {
      p := p + 1;
    }
  }

  /** One more heading adds its pair, if it has one. */
  lemma PairsStep(slots: seq<Slot>, k: nat)
    requires AllValid(slots) && k < |slots|
    ensures AllValid(slots[..k]) && AllValid(slots[..k + 1])
    ensures Pairs(slots[..k + 1]) == match PairOf(slots[k])
      case None => Pairs(slots[..k])
      case Some(sec) => Pairs(slots[..k]) + [sec]
  {
    assert slots[..k + 1][..k] == slots[..k];
  }

  /** How the scan treats a heading; the tests are made in this order. */
  datatype SectionKind = Skipped | Registration | Stop | Plain

  function Kind(key: string): (r: SectionKind)
    ensures r == Skipped <==> Contains(key, "recovered")
    ensures r == Registration ==> !Contains(key, "recovered")
    ensures r == Stop ==>
      && !Contains(key, "recovered")
      && !Contains(key, "registration_authority")
      && (Contains(key, "children") || Contains(key, "brothers"))
    ensures r == Plain ==>
      && !Contains(key, "recovered")
      && !Contains(key, "registration_authority")
      && !Contains(key, "children")
      && !Contains(key, "brothers")
  {
    if Contains(key, "recovered") then Skipped
    else if Contains(key, "registration_authority") then Registration
    else if Contains(key, "children") || Contains(key, "brothers") then Stop
    else Plain
  }

  /** The key of a section: its heading text trimmed, lowered, spaces to underscores (no renaming here). */
  function SectionKey(sec: Section): string
  {
    HeadingKey(AllText(sec.header))
  }

  /** The position of the first section whose heading stops the scan, or the number of sections. */
  function StopIndex(sections: seq<Section>): (n: nat)
    ensures n <= |sections|
  {
    if sections == [] then 0
    else if Kind(SectionKey(sections[0])) == Stop then 0
    else 1 + StopIndex(sections[1..])
  }

  /** Up to the stop index, a heading stops the scan exactly at the stop index. */
  lemma StopIndexAt(sections: seq<Section>, i: nat)
    requires i <= StopIndex(sections) && i < |sections|
    ensures Kind(SectionKey(sections[i])) == Stop <==> i == StopIndex(sections)
  {
    StopIndexFirst(sections);
  }

  /** No heading before the stop index stops the scan, and the heading at it does. */
  lemma {:induction false} StopIndexFirst(sections: seq<Section>)
    ensures var n := StopIndex(sections);
      && (forall j :: 0 <= j < n ==> Kind(SectionKey(sections[j])) != Stop)
      && (n < |sections| ==> Kind(SectionKey(sections[n])) == Stop)
  {
    if sections != [] && Kind(SectionKey(sections[0])) != Stop {
      StopIndexFirst(sections[1..]);
      forall j | 1 <= j < StopIndex(sections)
        ensures Kind(SectionKey(sections[j])) != Stop
      {
        assert sections[j] == sections[1..][j - 1];
      }
    }
  }

  /** `\s` as Python's `re` reads it in a text pattern. */
  predicate IsMarker(m: string)
  {
    && 4 <= |m| && m[0] == '<' && m[|m| - 1] == '>'
    && exists a :: 1 <= a && a + 2 < |m| && AllSpace(m[1..a]) && m[a] == 'h' && m[a + 1] == '3' && AllSpace(m[a + 2..|m| - 1])
  }

  /** A match of the pattern `<\s*h3\s*>` starts at position `i` of `s`. */
  predicate MarkerAt(s: string, i: nat)
  {
    exists e :: i < e <= |s| && IsMarker(s[i..e])
  }

  predicate NoMarker(s: string)
  {
    forall i: nat :: i < |s| ==> !MarkerAt(s, i)
  }

  function FirstMarker(s: string, from: nat): (r: Option<nat>)
    decreases |s| - from
    ensures r.Some? ==> from <= r.value < |s| && MarkerAt(s, r.value)
    ensures forall i: nat :: from <= i < |s| && (r.None? || i < r.value) ==> !MarkerAt(s, i)
  {
    if from >= |s| then None
    else if MarkerAt(s, from) then Some(from)
    else FirstMarker(s, from + 1)
  }

  /** `PARAGRAPH_SPLIT_PATTERN.split(s)[0]`: the text before the leftmost match, or all of `s`. */
  function BeforeMarker(s: string): (r: string)
    ensures |r| <= |s| && r == s[..|r|]
    ensures forall i: nat :: i < |r| ==> !MarkerAt(s, i)
    ensures r == s || MarkerAt(s, |r|)
  {
    match FirstMarker(s, 0)
    case None => s
    case Some(i) => s[..i]
  }

  /** No character after the opening `<` of a match is another `<`. */
  lemma MarkerHasOneOpening(m: string, j: int)
    requires IsMarker(m) && 1 <= j < |m|
    ensures m[j] != '<'
  {
    var a :| 1 <= a && a + 2 < |m| && AllSpace(m[1..a]) && m[a] == 'h' && m[a + 1] == '3' && AllSpace(m[a + 2..|m| - 1]);
    if j < a {
      assert m[1..a][j - 1] == m[j];
    } else if a + 1 < j < |m| - 1 {
      assert m[a + 2..|m| - 1][j - a - 2] == m[j];
    }
  }

  /** A match in `s + t` that starts inside `s` either lies inside `s` or reaches across a `<` at the start of `t`. */
  lemma MarkerInPrefix(s: string, t: string, i: nat)
    requires i < |s| && NoMarker(s) && t != [] && t[0] == '<'
    ensures !MarkerAt(s + t, i)
  {
    if MarkerAt(s + t, i) {
      var e :| i < e <= |s + t| && IsMarker((s + t)[i..e]);
      if e <= |s| {
        MarkerWithin(s, t, i, e);
      } else {
        assert (s + t)[i..e][|s| - i] == t[0];
        MarkerHasOneOpening((s + t)[i..e], |s| - i);
      }
    }
  }

  /** A match that ends inside `s` is a match of `s`. */
  lemma MarkerWithin(s: string, t: string, i: nat, e: int)
    requires i < e <= |s| && IsMarker((s + t)[i..e])
    ensures MarkerAt(s, i)
  {
    assert (s + t)[i..e] == s[i..e];
  }

  /**
   * Whatever follows the first marker is ignored: when `s` holds no match and `t` begins
   * with one, the text before the marker of `s + t` is `s`.
   */
  lemma BeforeMarkerIgnoresTail(s: string, t: string)
    requires NoMarker(s) && MarkerAt(t, 0)
    ensures BeforeMarker(s + t) == s
  {
    var e :| 0 < e <= |t| && IsMarker(t[..e]);
    assert (s + t)[|s|..|s| + e] == t[..e];
    assert MarkerAt(s + t, |s|);
    forall i: nat | i < |s|
      ensures !MarkerAt(s + t, i)
    {
      MarkerInPrefix(s, t, i);
    }
    var r := BeforeMarker(s + t);
    assert |r| == |s|;
    assert r == (s + t)[..|s|] == s;
  }

  /** The value stored for a `registration_authority` block rendered as `html`. */
  function RegistrationValue(html: string, md: Markdownify): (r: string)
    ensures r == [] || (!IsSpace(r[0]) && !IsSpace(r[|r| - 1]))
  {
    Strip(md(Strip(Replace(Replace(BeforeMarker(html), "<p>", ""), "</p>", ""))))
  }

  /** A registration block's value depends only on the text before its first `<h3>` marker. */
  lemma RegistrationIgnoresTail(s: string, t: string, md: Markdownify)
    requires NoMarker(s) && MarkerAt(t, 0)
    ensures RegistrationValue(s + t, md) == RegistrationValue(s, md)
  {
    BeforeMarkerIgnoresTail(s, t);
    assert BeforeMarker(s) == s;
  }

  /** The assignment the scan makes for a section before the stop, or `None` for a skipped one. */
  function SectionUpdate(sec: Section, md: Markdownify): (r: Option<(string, string)>)
    ensures r.None? <==> Kind(SectionKey(sec)) == Skipped || Kind(SectionKey(sec)) == Stop
    ensures r.Some? ==> r.value.0 == SectionKey(sec) && !Contains(r.value.0, "recovered")
    ensures r.Some? ==> r.value.1 == [] || (!IsSpace(r.value.1[0]) && !IsSpace(r.value.1[|r.value.1| - 1]))
  {
    var key := SectionKey(sec);
    match Kind(key)
    case Skipped => None
    case Stop => None
    case Registration => Some((key, RegistrationValue(Render(sec.paragraph), md)))
    case Plain => Some((key, Strip(md(Render(sec.paragraph)))))
  }

  /** The assignments of the first `n` sections, in order. */
  function SectionUpdates(sections: seq<Section>, md: Markdownify, n: nat): (u: seq<Option<(string, string)>>)
    requires n <= |sections|
    ensures |u| == n
  {
    if n == 0 then [] else SectionUpdates(sections, md, n - 1) + [SectionUpdate(sections[n - 1], md)]
  }

  /** Assignment `i` is that of section `i`. */
  lemma {:induction false} UpdateAt(sections: seq<Section>, md: Markdownify, n: nat, i: nat)
    requires i < n <= |sections|
    ensures SectionUpdates(sections, md, n)[i] == SectionUpdate(sections[i], md)
  {
    if i < n - 1 {
      UpdateAt(sections, md, n - 1, i);
    }
  }

  /** The dictionary the scan builds from `sections`: every section before the stop, in order. */
  function DetailedData(sections: seq<Section>, md: Markdownify): (r: map<string, string>)
    ensures forall k :: k in r ==> Kind(k) == Registration || Kind(k) == Plain
  {
    UpdateKeys(sections, md, StopIndex(sections));
    Dicts.Fill(SectionUpdates(sections, md, StopIndex(sections)))
  }

  /** Every key the first `n` assignments store is that of a registration or a plain heading. */
  lemma UpdateKeys(sections: seq<Section>, md: Markdownify, n: nat)
    requires n <= |sections|
    ensures forall k :: k in Dicts.Fill(SectionUpdates(sections, md, n)) ==> Kind(k) == Registration || Kind(k) == Plain
  {
    var u := SectionUpdates(sections, md, n);
    forall k | k in Dicts.Fill(u) ensures Kind(k) == Registration || Kind(k) == Plain {
      Dicts.FillKeys(u, k);
      var i :| 0 <= i < |u| && u[i].Some? && u[i].value.0 == k;
      UpdateAt(sections, md, n, i);
    }
  }

  /** `scrape_detailed_data` as written: any heading with nothing after it makes the whole call raise. */
  function DetailedDataAsWritten(root: Node, md: Markdownify): Outcome<map<string, string>>
  {
    match PairsAsWritten(SlotsOf(root, "h3"))
    case Raised(e) => Raised(e)
    case Ok(sections) => Ok(DetailedData(sections, md))
  }

  /** The code as written fails on a page that the intended version reads as an empty dictionary. */
  lemma DanglingHeadingLosesPage(md: Markdownify)
    ensures var page := Element("div", [Element("h3", [Text("Notes")])]);
      DetailedDataAsWritten(page, md) == Raised(IndexError) && DetailedData(Pairs(SlotsOf(page, "h3")), md) == map[]
  {
    DanglingHeadingRaises();
  }

  /** `scrape_detailed_data` with the intended `get_pairs`. */
  method ScrapeDetailedData(root: Node, md: Markdownify) returns (data: map<string, string>)
    ensures data == DetailedData(Pairs(SlotsOf(root, "h3")), md)
  {
    var headerParagraphPairs := GetPairs(root);
    data := map[];
    var i := 0;
    while i < |headerParagraphPairs|
      invariant i <= StopIndex(headerParagraphPairs)
      invariant data == Dicts.Fill(SectionUpdates(headerParagraphPairs, md, i))
    {
      var next, stop := ScanSection(headerParagraphPairs[i], md, data);
      StopIndexAt(headerParagraphPairs, i);
      if stop {
        break;
      }
      FillStep(headerParagraphPairs, md, i);
      data := next;
      i := i + 1;
    }
  }

  /**
   * One pass of the section loop: a `recovered` heading is passed over, a `registration_authority`
   * block stores the text before its marker, a children or brothers heading ends the scan, and
   * any other heading stores its rendered paragraph.
   */
  method ScanSection(section: Section, md: Markdownify, data: map<string, string>)
    returns (next: map<string, string>, stop: bool)
    ensures stop <==> Kind(SectionKey(section)) == Stop
    ensures stop ==> next == data
    ensures !stop ==> next == match SectionUpdate(section, md)
      case None => data
      case Some(kv) => data[kv.0 := kv.1]
  {
    var header := section.header;
    var paragraph := section.paragraph;
    var convertedHeader := HeadingKey(AllText(header));
    if Contains(convertedHeader, "recovered") {
      return data, false;
    }
    if Contains(convertedHeader, "registration_authority") {
      return data[convertedHeader := RegistrationValue(Render(paragraph), md)], false;
    }
    if Contains(convertedHeader, "children") || Contains(convertedHeader, "brothers") {
      return data, true;
    }
    return data[convertedHeader := Strip(md(Render(paragraph)))], false;
  }

  /** One more section before the stop adds its assignment to the dictionary. */
  lemma FillStep(sections: seq<Section>, md: Markdownify, i: nat)
    requires i < StopIndex(sections)
    ensures var before := Dicts.Fill(SectionUpdates(sections, md, i));
      Dicts.Fill(SectionUpdates(sections, md, i + 1)) ==
        match SectionUpdate(sections[i], md)
        case None => before
        case Some(kv) => before[kv.0 := kv.1]
  {
    var u := SectionUpdates(sections, md, i + 1);
    assert u[..i] == SectionUpdates(sections, md, i);
  }

  /**
   * A key is present exactly when a section before the first stopping heading has that key
   * and is not a `recovered` section; in particular no key mentions `recovered`.
   */
  lemma DetailedKeys(sections: seq<Section>, md: Markdownify, k: string)
    ensures k in DetailedData(sections, md) <==>
      exists i :: 0 <= i < StopIndex(sections) && SectionKey(sections[i]) == k && Kind(k) != Skipped
    ensures k in DetailedData(sections, md) ==> !Contains(k, "recovered")
  {
    var u := SectionUpdates(sections, md, StopIndex(sections));
    Dicts.FillKeys(u, k);
    if k in DetailedData(sections, md) {
      var i :| 0 <= i < |u| && u[i].Some? && u[i].value.0 == k;
      SectionUpdateAt(sections, md, i);
    }
    if i :| 0 <= i < StopIndex(sections) && SectionKey(sections[i]) == k && Kind(k) != Skipped {
      SectionUpdateAt(sections, md, i);
    }
    if k in DetailedData(sections, md) {
      assert Kind(k) != Skipped;
    }
  }

  /**
   * Later sections overwrite earlier ones: a key holds the value of the last section before the
   * stop that assigns under it.
   */
  lemma DetailedLastWins(sections: seq<Section>, md: Markdownify, k: string)
    requires k in DetailedData(sections, md)
    ensures exists i ::
      && 0 <= i < StopIndex(sections) && SectionKey(sections[i]) == k
      && SectionUpdate(sections[i], md) == Some((k, DetailedData(sections, md)[k]))
      && forall j :: i < j < StopIndex(sections) ==> SectionUpdate(sections[j], md).None? || SectionKey(sections[j]) != k
  {
    var n := StopIndex(sections);
    var u := SectionUpdates(sections, md, n);
    Dicts.FillLast(u, k);
    var i :| 0 <= i < |u| && u[i] == Some((k, Dicts.Fill(u)[k])) && Dicts.LastFor(u, i, k);
    UpdateAt(sections, md, n, i);
    forall j | i < j < n
      ensures SectionUpdate(sections[j], md).None? || SectionKey(sections[j]) != k
    {
      UpdateAt(sections, md, n, j);
    }
  }

  /** A section before the stop assigns exactly when it is not `recovered`, and then under its own key. */
  lemma SectionUpdateAt(sections: seq<Section>, md: Markdownify, i: int)
    requires 0 <= i < StopIndex(sections)
    ensures var u := SectionUpdates(sections, md, StopIndex(sections)); var k := SectionKey(sections[i]);
      && (u[i].Some? <==> Kind(k) != Skipped)
      && (u[i].Some? ==> u[i].value.0 == k)
  {
    UpdateAt(sections, md, StopIndex(sections), i);
    StopIndexFirst(sections);
  }

  /** Sections after the first stopping heading have no effect on the result. */
  lemma DetailedIgnoresAfterStop(sections: seq<Section>, rest: seq<Section>, md: Markdownify)
    requires StopIndex(sections) < |sections|
    ensures DetailedData(sections + rest, md) == DetailedData(sections, md)
  {
    StopIndexOfPrefix(sections, rest);
    UpdatesOfPrefix(sections, rest, md, StopIndex(sections));
  }

  /** The first `n` assignments depend only on the first `n` sections. */
  lemma {:induction false} UpdatesOfPrefix(sections: seq<Section>, rest: seq<Section>, md: Markdownify, n: nat)
    requires n <= |sections|
    ensures SectionUpdates(sections + rest, md, n) == SectionUpdates(sections, md, n)
  {
    if n > 0 {
      UpdatesOfPrefix(sections, rest, md, n - 1);
      assert (sections + rest)[n - 1] == sections[n - 1];
    }
  }

  /** Sections appended after a stopping heading leave the stop position where it was. */
  lemma {:induction false} StopIndexOfPrefix(sections: seq<Section>, rest: seq<Section>)
    requires StopIndex(sections) < |sections|
    ensures StopIndex(sections + rest) == StopIndex(sections)
  {
    if Kind(SectionKey(sections[0])) != Stop {
      assert (sections + rest)[1..] == sections[1..] + rest;
      StopIndexOfPrefix(sections[1..], rest);
    }
  }
}
