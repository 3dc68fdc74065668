/**
 * The bulk conversion of convert_enterprise/convert_enterprise.py: the children table of
 * the enterprise page is cleaned of the texts equal to `"\n"`, its adjacent texts are merged, the
 * title row is skipped and every other row becomes a record.
 */
module ConvertEnterprise {
  import opened Wrappers
  import opened Strings
  import opened PyInt
  import opened Document

  const BaseUrl: string := "https://oidref.com"

  datatype Record = Record(identifier: string, link: string, names: seq<string>, subChildren: int, subNodesTotal: int)

  /** `find_all(string='\n')` followed by `extract()`: every text equal to `"\n"` below `n` removed. */
  function DropNewlines(n: Node): (r: Node)
    decreases n
    ensures n.Text? ==> r == n
    ensures n.Element? ==> r.Element? && r.tag == n.tag && |r.children| <= |n.children|
  {
    match n
    case Text(_) => n
    case Element(t, cs) => Element(t, DropNewlinesAll(cs))
  }

  function DropNewlinesAll(cs: seq<Node>): (r: seq<Node>)
    decreases cs
    ensures |r| <= |cs|
    ensures forall k :: 0 <= k < |r| ==> r[k] != Text("\n")
  {
    if cs == [] then []
    else if cs[0] == Text("\n") then DropNewlinesAll(cs[1..])
    else [DropNewlines(cs[0])] + DropNewlinesAll(cs[1..])
  }

  /** `smooth()`: in every child list below `n`, each run of adjacent texts becomes one text. */
  function Smooth(n: Node): (r: Node)
    decreases n
    ensures n.Text? ==> r == n
    ensures n.Element? ==> r.Element? && r.tag == n.tag && |r.children| <= |n.children|
  {
    match n
    case Text(_) => n
    case Element(t, cs) => Element(t, MergeTexts(SmoothAll(cs)))
  }

  function SmoothAll(cs: seq<Node>): (r: seq<Node>)
    decreases cs
    ensures |r| == |cs|
    ensures forall k :: 0 <= k < |r| ==> (r[k].Text? <==> cs[k].Text?) && (cs[k].Text? ==> r[k] == cs[k])
    ensures forall k :: 0 <= k < |r| && cs[k].Element? ==>
      r[k] == Smooth(cs[k]) && r[k].tag == cs[k].tag && |r[k].children| <= |cs[k].children|
  {
    if cs == [] then [] else [Smooth(cs[0])] + SmoothAll(cs[1..])
  }

  /** Merge each run of adjacent texts in `cs` into one text. */
  function MergeTexts(cs: seq<Node>): (r: seq<Node>)
    decreases |cs|
    ensures |r| <= |cs|
    ensures cs != [] ==> r != []
  {
    if |cs| >= 2 && cs[0].Text? && cs[1].Text? then MergeTexts([Text(cs[0].content + cs[1].content)] + cs[2..])
    else if cs == [] then []
    else [cs[0]] + MergeTexts(cs[1..])
  }

  /** The table after removing texts equal to `"\n"` and smoothing. */
  function Clean(table: Node): (r: Node)
    ensures table.Text? ==> r == table
    ensures table.Element? ==> r.Element? && r.tag == table.tag && |r.children| <= |table.children|
  {
    Smooth(DropNewlines(table))
  }

  /** No two texts are neighbours in `cs`. */
  predicate NoAdjacentTexts(cs: seq<Node>)
  {
    forall k :: 0 <= k < |cs| - 1 ==> !(cs[k].Text? && cs[k + 1].Text?)
  }

  /** Merging leaves no two adjacent texts, and creates no text equal to `"\n"` where there was none. */
  lemma {:induction false} MergeTextsShape(cs: seq<Node>)
    requires forall k :: 0 <= k < |cs| ==> cs[k] != Text("\n")
    ensures NoAdjacentTexts(MergeTexts(cs))
    ensures forall k :: 0 <= k < |MergeTexts(cs)| ==> MergeTexts(cs)[k] != Text("\n")
    ensures cs != [] ==> MergeTexts(cs) != [] && (MergeTexts(cs)[0].Text? <==> cs[0].Text?)
    decreases |cs|
  {
    if |cs| >= 2 && cs[0].Text? && cs[1].Text? {
      var merged := [Text(cs[0].content + cs[1].content)] + cs[2..];
      MergeTextsShape(merged);
    } else if cs != [] {
      MergeTextsShape(cs[1..]);
      var r := MergeTexts(cs);
      assert r == [cs[0]] + MergeTexts(cs[1..]);
    }
  }

  /** After cleaning, the table's own child list holds no text equal to `"\n"` and no two adjacent texts. */
  lemma CleanChildren(table: Node)
    requires table.Element?
    ensures var rows := Children(Clean(table));
      NoAdjacentTexts(rows) && forall k :: 0 <= k < |rows| ==> rows[k] != Text("\n")
  {
    var dropped := DropNewlinesAll(table.children);
    MergeTextsShape(SmoothAll(dropped));
  }

  lemma ElementsOfCons(x: Node, rest: seq<Node>)
    ensures ElementsOf([x] + rest) == (if x.Element? then [x] else []) + ElementsOf(rest)
  {
    assert ([x] + rest)[1..] == rest;
  }

  lemma AllTextOfCons(x: Node, rest: seq<Node>)
    ensures AllTextOf([x] + rest) == AllText(x) + AllTextOf(rest)
  {
    assert ([x] + rest)[1..] == rest;
  }

  /**
   * Removing texts equal to `"\n"` keeps every element child, in order, each with its tag and
   * with texts equal to `"\n"` removed below it; and nothing but `"\n"` texts is removed.
   */
  lemma {:induction false} DropNewlinesKeepsElements(cs: seq<Node>)
    decreases cs
    ensures |ElementsOf(DropNewlinesAll(cs))| == |ElementsOf(cs)|
    ensures forall k :: 0 <= k < |ElementsOf(cs)| ==>
      ElementsOf(DropNewlinesAll(cs))[k] == DropNewlines(ElementsOf(cs)[k])
      && ElementsOf(DropNewlinesAll(cs))[k].tag == ElementsOf(cs)[k].tag
  {
    if cs != [] {
      var e, e1 := ElementsOf(cs), ElementsOf(cs[1..]);
      var d, d1 := DropNewlinesAll(cs), DropNewlinesAll(cs[1..]);
      DropNewlinesKeepsElements(cs[1..]);
      assert cs == [cs[0]] + cs[1..];
      ElementsOfCons(cs[0], cs[1..]);
      if cs[0].Text? {
        assert e == e1;
        if cs[0] != Text("\n") {
          assert DropNewlines(cs[0]) == cs[0];
          assert d == [DropNewlines(cs[0])] + d1;
          ElementsOfCons(cs[0], d1);
        } else {
          assert d == d1;
        }
        assert ElementsOf(d) == ElementsOf(d1);
      } else {
        var x := DropNewlines(cs[0]);
        assert d == [x] + d1;
        ElementsOfCons(x, d1);
        var ed := ElementsOf(d);
        assert e == [cs[0]] + e1;
        assert ed == [x] + ElementsOf(d1);
        forall k | 0 <= k < |e|
          ensures ed[k] == DropNewlines(e[k]) && ed[k].tag == e[k].tag
        {
          if k > 0 {
            assert e[k] == e1[k - 1];
            assert ed[k] == ElementsOf(d1)[k - 1];
          }
        }
      }
    }
  }

  /** Exactly the `"\n"` texts of the list are removed from it. */
  lemma {:induction false} DropNewlinesCount(cs: seq<Node>)
    decreases cs
    ensures |DropNewlinesAll(cs)| == |cs| - multiset(cs)[Text("\n")]
  {
    if cs != [] {
      DropNewlinesCount(cs[1..]);
      assert cs == [cs[0]] + cs[1..];
      assert multiset(cs) == multiset{cs[0]} + multiset(cs[1..]);
    }
  }

  /** Smoothing keeps every element child, in order, each with its tag and smoothed inside. */
  lemma {:induction false} SmoothKeepsElements(cs: seq<Node>)
    decreases cs
    ensures |ElementsOf(SmoothAll(cs))| == |ElementsOf(cs)|
    ensures forall k :: 0 <= k < |ElementsOf(cs)| ==>
      ElementsOf(SmoothAll(cs))[k] == Smooth(ElementsOf(cs)[k])
      && ElementsOf(SmoothAll(cs))[k].tag == ElementsOf(cs)[k].tag
  {
    if cs != [] {
      SmoothKeepsElements(cs[1..]);
      ElementsOfCons(cs[0], cs[1..]);
      assert SmoothAll(cs) == [Smooth(cs[0])] + SmoothAll(cs[1..]);
      ElementsOfCons(Smooth(cs[0]), SmoothAll(cs[1..]));
      assert cs == [cs[0]] + cs[1..];
    }
  }

  /** Merging adjacent texts keeps the elements, in order. */
  lemma {:induction false} MergeTextsKeepsElements(cs: seq<Node>)
    decreases |cs|
    ensures ElementsOf(MergeTexts(cs)) == ElementsOf(cs)
  {
    if |cs| >= 2 && cs[0].Text? && cs[1].Text? {
      var merged := [Text(cs[0].content + cs[1].content)] + cs[2..];
      MergeTextsKeepsElements(merged);
      assert ElementsOf(cs) == ElementsOf(cs[1..]);
      assert cs[1..][1..] == cs[2..];
      assert ElementsOf(cs[1..]) == ElementsOf(cs[2..]);
      assert merged[1..] == cs[2..];
      assert ElementsOf(merged) == ElementsOf(cs[2..]);
    } else if cs != [] {
      MergeTextsKeepsElements(cs[1..]);
      assert cs == [cs[0]] + cs[1..];
      ElementsOfCons(cs[0], cs[1..]);
      assert MergeTexts(cs) == [cs[0]] + MergeTexts(cs[1..]);
      ElementsOfCons(cs[0], MergeTexts(cs[1..]));
    }
  }

  /** Merging adjacent texts keeps the text, in order. */
  lemma {:induction false} MergeTextsKeepsText(cs: seq<Node>)
    decreases |cs|
    ensures AllTextOf(MergeTexts(cs)) == AllTextOf(cs)
  {
    if |cs| >= 2 && cs[0].Text? && cs[1].Text? {
      var merged := [Text(cs[0].content + cs[1].content)] + cs[2..];
      MergeTextsKeepsText(merged);
      assert cs == [cs[0]] + ([cs[1]] + cs[2..]);
      AllTextOfCons(cs[0], [cs[1]] + cs[2..]);
      AllTextOfCons(cs[1], cs[2..]);
      AllTextOfCons(merged[0], cs[2..]);
    } else if cs != [] {
      MergeTextsKeepsText(cs[1..]);
      assert cs == [cs[0]] + cs[1..];
      AllTextOfCons(cs[0], cs[1..]);
      assert MergeTexts(cs) == [cs[0]] + MergeTexts(cs[1..]);
      AllTextOfCons(cs[0], MergeTexts(cs[1..]));
    }
  }

  /** Smoothing never changes the text below a node. */
  lemma {:induction false} SmoothKeepsText(n: Node)
    decreases n
    ensures AllText(Smooth(n)) == AllText(n)
  {
    match n
    case Text(_) =>
    case Element(_, cs) =>
      SmoothAllKeepsText(cs);
      MergeTextsKeepsText(SmoothAll(cs));
  }

  lemma {:induction false} SmoothAllKeepsText(cs: seq<Node>)
    decreases cs
    ensures AllTextOf(SmoothAll(cs)) == AllTextOf(cs)
  {
    if cs != [] {
      SmoothKeepsText(cs[0]);
      SmoothAllKeepsText(cs[1..]);
      assert cs == [cs[0]] + cs[1..];
      AllTextOfCons(cs[0], cs[1..]);
      assert SmoothAll(cs) == [Smooth(cs[0])] + SmoothAll(cs[1..]);
      AllTextOfCons(Smooth(cs[0]), SmoothAll(cs[1..]));
    }
  }

  /**
   * Cleaning a table keeps its rows: the element children of the cleaned table are those of the
   * table, in order, each with its tag, texts equal to `"\n"` removed and texts merged below it.
   */
  lemma CleanKeepsRows(table: Node)
    requires table.Element?
    ensures |ElementChildren(Clean(table))| == |ElementChildren(table)|
    ensures forall k :: 0 <= k < |ElementChildren(table)| ==>
      ElementChildren(Clean(table))[k] == Clean(ElementChildren(table)[k])
      && ElementChildren(Clean(table))[k].tag == ElementChildren(table)[k].tag
  {
    var dropped := DropNewlinesAll(table.children);
    DropNewlinesKeepsElements(table.children);
    SmoothKeepsElements(dropped);
    MergeTextsKeepsElements(SmoothAll(dropped));
  }

  /** `int(x.string)`: `TypeError` for a missing string, `ValueError` for text that is not an integer. */
  function IntOf(s: Option<string>): (r: Outcome<int>)
    ensures r.Ok? <==> s.Some? && ParseInt(s.value).Some?
    ensures r.Ok? ==> ParseInt(s.value) == Some(r.value)
    ensures r.Raised? ==> r.error == (if s.None? then TypeError else ValueError)
  {
    match s
    case None => Raised(TypeError)
    case Some(t) =>
      match ParseInt(t)
      case None => Raised(ValueError)
      case Some(n) => Ok(n)
  }

  /**
   * The record built from one row, the cells read in the order the dictionary display
   * evaluates them. A text in place of a row has no `contents` (`AttributeError`); a missing
   * cell is an `IndexError`.
   */
  function RowRecord(row: Node): (r: Outcome<Record>)
    ensures r == Raised(AttributeError) <==> row.Text?
    ensures r == Raised(IndexError) ==> row.Element? && |row.children| < 4
    ensures r.Ok? ==> |row.children| >= 4 && r.value.link == BaseUrl + "/" + r.value.identifier
  {
    if row.Text? then Raised(AttributeError)
    else
      var cells := row.children;
      if |cells| < 2 then Raised(IndexError)
      else
        var identifier := StrOf(SoupString(cells[0]));
        var names := Split(StrOf(SoupString(cells[1])), ", ");
        if |cells| < 3 then Raised(IndexError)
        else
          match IntOf(SoupString(cells[2]))
          case Raised(e) => Raised(e)
          case Ok(subChildren) =>
            if |cells| < 4 then Raised(IndexError)
            else
              match IntOf(SoupString(cells[3]))
              case Raised(e) => Raised(e)
              case Ok(subNodesTotal) => Ok(Record(identifier, BaseUrl + "/" + identifier, names, subChildren, subNodesTotal))
  }

  /** The values of a run of steps, or the error of the first step that fails. */
  function Collect<T>(outs: seq<Outcome<T>>): (r: Outcome<seq<T>>)
    ensures r.Ok? ==> |r.value| == |outs|
  {
    if outs == [] then Ok([])
    else
      match Collect(outs[..|outs| - 1])
      case Raised(e) => Raised(e)
      case Ok(before) =>
        match outs[|outs| - 1]
        case Raised(e) => Raised(e)
        case Ok(x) => Ok(before + [x])
  }

  /** An error stops the run: it stays the outcome however many steps follow. */
  lemma {:induction false} RaisedPersists<T>(outs: seq<Outcome<T>>, k: nat)
    requires k <= |outs| && Collect(outs[..k]).Raised?
    ensures Collect(outs) == Collect(outs[..k])
    decreases |outs| - k
  {
    if k < |outs| {
      assert outs[..k + 1][..k] == outs[..k];
      RaisedPersists(outs, k + 1);
    } else {
      assert outs[..k] == outs;
    }
  }

  /** One more step of a run. */
  lemma CollectStep<T>(outs: seq<Outcome<T>>, k: nat)
    requires 0 < k <= |outs|
    ensures Collect(outs[..k]) ==
      match Collect(outs[..k - 1])
      case Raised(e) => Raised(e)
      case Ok(before) =>
        match outs[k - 1]
        case Raised(e) => Raised(e)
        case Ok(x) => Ok(before + [x])
  {
    assert outs[..k][..k - 1] == outs[..k - 1];
  }

  /** A run succeeds exactly when every step does, and then holds the steps' values in order. */
  lemma {:induction false} CollectAll<T>(outs: seq<Outcome<T>>)
    ensures Collect(outs).Ok? <==> forall j :: 0 <= j < |outs| ==> outs[j].Ok?
    ensures Collect(outs).Ok? ==> forall j :: 0 <= j < |outs| ==> Collect(outs).value[j] == outs[j].value
  {
    if outs != [] {
      var front := outs[..|outs| - 1];
      CollectAll(front);
      assert forall j :: 0 <= j < |front| ==> front[j] == outs[j];
    }
  }

  /** The outcome of each row after the title row. */
  function RowOutcomes(rows: seq<Node>): (outs: seq<Outcome<Record>>)
    ensures |outs| == if rows == [] then 0 else |rows| - 1
  {
    if rows == [] then [] else seq(|rows| - 1, i requires 0 <= i < |rows| - 1 => RowRecord(rows[i + 1]))
  }

  /** The records of every row after the first, or the error of the first row that fails. */
  function Records(rows: seq<Node>): (r: Outcome<seq<Record>>)
    ensures r.Ok? ==> |r.value| == if rows == [] then 0 else |rows| - 1
  {
    Collect(RowOutcomes(rows))
  }

  /** The whole conversion: no table is an `AttributeError` (`None.find_all`). */
  function EnterpriseRecords(page: Node): (r: Outcome<seq<Record>>)
    ensures FindFirst(page, "table").None? ==> r == Raised(AttributeError)
    ensures r.Ok? ==> FindFirst(page, "table").Some?
    ensures r.Ok? ==> var rows := Children(Clean(FindFirst(page, "table").value));
      |r.value| == if rows == [] then 0 else |rows| - 1
  {
    match FindFirst(page, "table")
    case None => Raised(AttributeError)
    case Some(table) => Records(Children(Clean(table)))
  }

  /** The table loop of `main`: skip the title row, convert the rest in order. */
  method ConvertTable(page: Node) returns (r: Outcome<seq<Record>>)
    ensures r == EnterpriseRecords(page)
  {
    var found := FindFirst(page, "table");
    if found.None? {
      return Raised(AttributeError);
    }
    var childrenTable := Clean(found.value);
    var rows := Children(childrenTable);
    ghost var outs := RowOutcomes(rows);
    var children: seq<Record> := [];
    var first := true;
    for k := 0 to |rows|
      invariant first <==> k == 0
      invariant k == 0 ==> children == []
      invariant k > 0 ==> Collect(outs[..k - 1]) == Ok(children)
    {
      if first {
        first := false;
        assert outs[..0] == [];
        continue;
      }
      var record := RowRecord(rows[k]);
      assert outs[k - 1] == record;
      CollectStep(outs, k);
      if record.Raised? {
        RaisedPersists(outs, k);
        return Raised(record.error);
      }
      children := children + [record.value];
    }
    if rows == [] {
      return Ok([]);
    }
    assert outs[..|rows| - 1] == outs;
    return Ok(children);
  }

  /** The conversion succeeds exactly when every row after the first does. */
  lemma RecordsSucceed(rows: seq<Node>)
    ensures Records(rows).Ok? <==> forall j :: 1 <= j < |rows| ==> RowRecord(rows[j]).Ok?
  {
    var outs := RowOutcomes(rows);
    CollectAll(outs);
    if Records(rows).Ok? {
      forall j | 1 <= j < |rows|
        ensures RowRecord(rows[j]).Ok?
      {
        assert outs[j - 1].Ok?;
      }
    } else {
      var i :| 0 <= i < |outs| && !outs[i].Ok?;
      assert !RowRecord(rows[i + 1]).Ok?;
    }
  }

  /** Record `i` comes from row `i + 1`: the title row never contributes and order is kept. */
  lemma RecordsInOrder(rows: seq<Node>)
    requires Records(rows).Ok?
    ensures |Records(rows).value| == if rows == [] then 0 else |rows| - 1
    ensures forall i :: 0 <= i < |Records(rows).value| ==> Ok(Records(rows).value[i]) == RowRecord(rows[i + 1])
  {
    var outs := RowOutcomes(rows);
    CollectAll(outs);
    forall i | 0 <= i < |Records(rows).value|
      ensures Ok(Records(rows).value[i]) == RowRecord(rows[i + 1])
    {
      assert outs[i] == RowRecord(rows[i + 1]);
    }
  }

  /** The title row is never read: replacing it changes nothing. */
  lemma TitleRowIgnored(title: Node, other: Node, rest: seq<Node>)
    ensures Records([title] + rest) == Records([other] + rest)
  {
    assert RowOutcomes([title] + rest) == RowOutcomes([other] + rest);
  }

  /**
   * Each record's fields: the link is the base URL, a slash and the identifier; joining the
   * names with ", " gives back the second cell's text; the counts are the integers the third
   * and fourth cells spell.
   */
  lemma RecordFields(row: Node)
    requires RowRecord(row).Ok?
    ensures var rec := RowRecord(row).value; var cells := row.children;
      && row.Element? && |cells| >= 4
      && rec.identifier == StrOf(SoupString(cells[0]))
      && rec.link == BaseUrl + "/" + rec.identifier
      && |rec.names| >= 1 && Join(rec.names, ", ") == StrOf(SoupString(cells[1]))
      && SoupString(cells[2]).Some? && ParseInt(SoupString(cells[2]).value) == Some(rec.subChildren)
      && SoupString(cells[3]).Some? && ParseInt(SoupString(cells[3]).value) == Some(rec.subNodesTotal)
  {
    JoinSplit(StrOf(SoupString(row.children[1])), ", ");
  }

  /** A cell holding just a text. */
  function Cell(text: string): Node
  {
    Element("td", [Text(text)])
  }

  /** A row written from an identifier, a names text and two counts converts back to them. */
  lemma RowRoundTrip(identifier: string, names: string, subChildren: int, subNodesTotal: int)
    ensures var row := Element("tr", [Cell(identifier), Cell(names), Cell(ShowInt(subChildren)), Cell(ShowInt(subNodesTotal))]);
      RowRecord(row) == Ok(Record(identifier, BaseUrl + "/" + identifier, Split(names, ", "), subChildren, subNodesTotal))
  {
    CellCount(subChildren);
    CellCount(subNodesTotal);
    assert SoupString(Cell(identifier)) == Some(identifier);
    assert SoupString(Cell(names)) == Some(names);
  }

  /** A cell holding `str(n)` reads back as `n`. */
  lemma CellCount(n: int)
    ensures IntOf(SoupString(Cell(ShowInt(n)))) == Ok(n)
  {
    ParseShow(n);
    assert SoupString(Cell(ShowInt(n))) == Some(ShowInt(n));
  }
}
