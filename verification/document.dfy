/**
 * An abstract HTML document as both parsers present it: a tree of elements (tag name and
 * child nodes) and bare text nodes. Attributes, comments and entities are not represented.
 */
module Document {
  import opened Wrappers
  import opened Strings

  datatype Node = Element(tag: string, children: seq<Node>) | Text(content: string)

  predicate IsElement(n: Node, tag: string)
  {
    n.Element? && n.tag == tag
  }

  /** Where a node sits: the child list of its parent and its position in that list. */
  datatype Slot = Slot(siblings: seq<Node>, index: nat) {
    predicate Valid()
    {
      index < |siblings|
    }
  }

  /** Every element named `tag` strictly below `n`, with its parent's children, in document order. */
  function SlotsOf(n: Node, tag: string): (r: seq<Slot>)
    decreases n
    ensures forall k :: 0 <= k < |r| ==> r[k].Valid() && IsElement(r[k].siblings[r[k].index], tag)
  {
    match n
    case Text(_) => []
    case Element(_, cs) => SlotsFrom(cs, 0, tag)
  }

  /** The slots of `SlotsOf` found in `sibs[k..]` and below, in document order. */
  function SlotsFrom(sibs: seq<Node>, k: nat, tag: string): (r: seq<Slot>)
    decreases sibs, |sibs| - k
    ensures forall j :: 0 <= j < |r| ==> r[j].Valid() && IsElement(r[j].siblings[r[j].index], tag)
  {
    if k >= |sibs| then []
    else
      (if IsElement(sibs[k], tag) then [Slot(sibs, k)] else [])
      + SlotsOf(sibs[k], tag) + SlotsFrom(sibs, k + 1, tag)
  }

  /** The node each slot holds. */
  function SlotNodes(slots: seq<Slot>): (r: seq<Node>)
    requires forall k :: 0 <= k < |slots| ==> slots[k].index < |slots[k].siblings|
    ensures |r| == |slots|
    ensures forall k :: 0 <= k < |r| ==> r[k] == slots[k].siblings[slots[k].index]
  {
    if slots == [] then [] else [slots[0].siblings[slots[0].index]] + SlotNodes(slots[1..])
  }

  /** `find(tag)` / `find_all(tag)`: every element named `tag` strictly below `n`, in document order. */
  function FindAll(n: Node, tag: string): (r: seq<Node>)
    ensures forall k :: 0 <= k < |r| ==> IsElement(r[k], tag)
  {
    var slots := SlotsOf(n, tag);
    seq(|slots|, k requires 0 <= k < |slots| => slots[k].siblings[slots[k].index])
  }

  /** `fst(tag)` / `find(tag)`: the first element named `tag` strictly below `n`. */
  function FindFirst(n: Node, tag: string): (r: Option<Node>)
    ensures r.Some? ==> IsElement(r.value, tag)
  {
    var all := FindAll(n, tag);
    if all == [] then None else Some(all[0])
  }

  /** The child nodes of an element; a text node has none. */
  function Children(n: Node): seq<Node>
  {
    if n.Element? then n.children else []
  }

  /** The element children of `n`, in order, text nodes left out. */
  function ElementChildren(n: Node): (r: seq<Node>)
    ensures forall k :: 0 <= k < |r| ==> r[k].Element?
  {
    ElementsOf(Children(n))
  }

  function ElementsOf(cs: seq<Node>): (r: seq<Node>)
    ensures |r| <= |cs|
    ensures forall k :: 0 <= k < |r| ==> r[k].Element? && r[k] in cs
    ensures forall c :: c in cs && c.Element? ==> c in r
  {
    if cs == [] then []
    else (if cs[0].Element? then [cs[0]] else []) + ElementsOf(cs[1..])
  }

  /** The ehp `text()` of a node: all the text below it, in document order. */
  function AllText(n: Node): string
    decreases n
  {
    match n
    case Text(s) => s
    case Element(_, cs) => AllTextOf(cs)
  }

  function AllTextOf(cs: seq<Node>): string
    decreases cs
  {
    if cs == [] then "" else AllText(cs[0]) + AllTextOf(cs[1..])
  }

  /**
   * BeautifulSoup's `.string`: a text node is its own string; an element with exactly one
   * child has that child's string; any other element has none.
   */
  function SoupString(n: Node): Option<string>
    decreases n
  {
    match n
    case Text(s) => Some(s)
    case Element(_, cs) => if |cs| == 1 then SoupString(cs[0]) else None
  }

  /** Python's `str(x)` of an optional string: `str(None)` is the text `None`. */
  function StrOf(s: Option<string>): string
  {
    match s
    case Some(t) => t
    case None => "None"
  }

  /** BeautifulSoup's `stripped_strings`: every text below the node, stripped, the empty ones dropped. */
  function StrippedStrings(n: Node): (r: seq<string>)
    decreases n
    ensures forall k :: 0 <= k < |r| ==> r[k] != []
  {
    match n
    case Text(s) => if Strip(s) == [] then [] else [Strip(s)]
    case Element(_, cs) => StrippedStringsOf(cs)
  }

  function StrippedStringsOf(cs: seq<Node>): (r: seq<string>)
    decreases cs
    ensures forall k :: 0 <= k < |r| ==> r[k] != []
  {
    if cs == [] then [] else StrippedStrings(cs[0]) + StrippedStringsOf(cs[1..])
  }

  /** `str(node)`: the node written back as markup (attributes are not represented). */
  function Render(n: Node): string
    decreases n
  {
    match n
    case Text(s) => s
    case Element(t, cs) => "<" + t + ">" + RenderAll(cs) + "</" + t + ">"
  }

  function RenderAll(cs: seq<Node>): string
    decreases cs
  {
    if cs == [] then "" else Render(cs[0]) + RenderAll(cs[1..])
  }

  /*
   * Reference definitions: the nodes below a node in document order (each node before the
   * nodes inside it, siblings left to right), and the filters the queries apply to them.
   */

  function Descendants(n: Node): seq<Node>
    decreases n
  {
    match n
    case Text(_) => []
    case Element(_, cs) => DescendantsOf(cs)
  }

  function DescendantsOf(cs: seq<Node>): seq<Node>
    decreases cs
  {
    if cs == [] then [] else [cs[0]] + Descendants(cs[0]) + DescendantsOf(cs[1..])
  }

  /** The elements named `tag` among `nodes`, in order. */
  function Tagged(nodes: seq<Node>, tag: string): seq<Node>
  {
    if nodes == [] then [] else (if IsElement(nodes[0], tag) then [nodes[0]] else []) + Tagged(nodes[1..], tag)
  }

  /** The non-empty stripped texts of the text nodes among `nodes`, in order. */
  function NonBlank(nodes: seq<Node>): seq<string>
  {
    if nodes == [] then []
    else
      var first := if nodes[0].Text? && Strip(nodes[0].content) != [] then [Strip(nodes[0].content)] else [];
      first + NonBlank(nodes[1..])
  }

  lemma {:induction false} TaggedAppend(a: seq<Node>, b: seq<Node>, tag: string)
    ensures Tagged(a + b, tag) == Tagged(a, tag) + Tagged(b, tag)
  {
    if a != [] {
      assert (a + b)[1..] == a[1..] + b;
      TaggedAppend(a[1..], b, tag);
    } else {
      assert a + b == b;
    }
  }

  lemma {:induction false} NonBlankAppend(a: seq<Node>, b: seq<Node>)
    ensures NonBlank(a + b) == NonBlank(a) + NonBlank(b)
  {
    if a != [] {
      assert (a + b)[1..] == a[1..] + b;
      NonBlankAppend(a[1..], b);
    } else {
      assert a + b == b;
    }
  }

  lemma {:induction false} SlotNodesAppend(a: seq<Slot>, b: seq<Slot>)
    requires forall k :: 0 <= k < |a| ==> a[k].index < |a[k].siblings|
    requires forall k :: 0 <= k < |b| ==> b[k].index < |b[k].siblings|
    ensures SlotNodes(a + b) == SlotNodes(a) + SlotNodes(b)
  {
    var l, r := SlotNodes(a + b), SlotNodes(a) + SlotNodes(b);
    assert |l| == |r|;
    forall k | 0 <= k < |l| ensures l[k] == r[k] {
      if k < |a| {
        assert (a + b)[k] == a[k];
      } else {
        assert (a + b)[k] == b[k - |a|];
      }
    }
  }

  /** `SlotsOf` finds every element named `tag` below `n`, each once, in document order. */
  lemma {:induction false} SlotsOfComplete(n: Node, tag: string)
    decreases n
    ensures SlotNodes(SlotsOf(n, tag)) == Tagged(Descendants(n), tag)
  {
    match n
    case Text(_) =>
    case Element(_, cs) =>
      SlotsFromComplete(cs, 0, tag);
      assert cs[0..] == cs;
  }

  lemma {:induction false} SlotsFromComplete(sibs: seq<Node>, k: nat, tag: string)
    requires k <= |sibs|
    decreases sibs, |sibs| - k
    ensures SlotNodes(SlotsFrom(sibs, k, tag)) == Tagged(DescendantsOf(sibs[k..]), tag)
  {
    if k < |sibs| {
      var head := if IsElement(sibs[k], tag) then [Slot(sibs, k)] else [];
      var below := SlotsOf(sibs[k], tag);
      var rest := SlotsFrom(sibs, k + 1, tag);
      SlotsOfComplete(sibs[k], tag);
      SlotsFromComplete(sibs, k + 1, tag);
      SlotNodesAppend(head, below);
      SlotNodesAppend(head + below, rest);
      assert SlotNodes(head) == if IsElement(sibs[k], tag) then [sibs[k]] else [];
      assert sibs[k..][0] == sibs[k] && sibs[k..][1..] == sibs[k + 1..];
      TaggedAppend([sibs[k]], Descendants(sibs[k]), tag);
      TaggedAppend([sibs[k]] + Descendants(sibs[k]), DescendantsOf(sibs[k + 1..]), tag);
    }
  }

  /** `find_all(tag)` is every element named `tag` below `n`, each once, in document order. */
  lemma FindAllComplete(n: Node, tag: string)
    ensures FindAll(n, tag) == Tagged(Descendants(n), tag)
  {
    assert FindAll(n, tag) == SlotNodes(SlotsOf(n, tag));
    SlotsOfComplete(n, tag);
  }

  lemma {:induction false} TaggedFirst(nodes: seq<Node>, tag: string)
    ensures Tagged(nodes, tag) == [] <==> forall k :: 0 <= k < |nodes| ==> !IsElement(nodes[k], tag)
    ensures Tagged(nodes, tag) != [] ==>
      exists i :: 0 <= i < |nodes| && nodes[i] == Tagged(nodes, tag)[0] && IsElement(nodes[i], tag)
        && forall j :: 0 <= j < i ==> !IsElement(nodes[j], tag)
  {
    if nodes != [] && !IsElement(nodes[0], tag) {
      TaggedFirst(nodes[1..], tag);
      if Tagged(nodes, tag) != [] {
        var i :| 0 <= i < |nodes[1..]| && nodes[1..][i] == Tagged(nodes[1..], tag)[0] && IsElement(nodes[1..][i], tag)
          && forall j :: 0 <= j < i ==> !IsElement(nodes[1..][j], tag);
        assert nodes[i + 1] == Tagged(nodes, tag)[0];
      }
    }
  }

  /**
   * `find(tag)` gives `None` exactly when no element below `n` is named `tag`, and otherwise
   * the first such element in document order.
   */
  lemma FindFirstSpec(n: Node, tag: string)
    ensures FindFirst(n, tag).None? <==>
      forall k :: 0 <= k < |Descendants(n)| ==> !IsElement(Descendants(n)[k], tag)
    ensures FindFirst(n, tag).Some? ==>
      exists i :: 0 <= i < |Descendants(n)| && Descendants(n)[i] == FindFirst(n, tag).value
        && forall j :: 0 <= j < i ==> !IsElement(Descendants(n)[j], tag)
  {
    FindAllComplete(n, tag);
    TaggedFirst(Descendants(n), tag);
  }

  /** The element filter distributes over concatenation and keeps a single child exactly when it is an element. */
  lemma {:induction false} ElementsOfAppend(a: seq<Node>, b: seq<Node>)
    ensures ElementsOf(a + b) == ElementsOf(a) + ElementsOf(b)
    ensures forall c :: ElementsOf([c]) == if c.Element? then [c] else []
  {
    if a != [] {
      assert (a + b)[1..] == a[1..] + b;
      ElementsOfAppend(a[1..], b);
    } else {
      assert a + b == b;
    }
    forall c ensures ElementsOf([c]) == if c.Element? then [c] else [] {
      assert [c][1..] == [];
    }
  }

  /** `stripped_strings` lists the non-empty stripped texts of the node and everything below it, in document order. */
  lemma {:induction false} StrippedStringsSpec(n: Node)
    decreases n
    ensures StrippedStrings(n) == NonBlank([n] + Descendants(n))
  {
    NonBlankAppend([n], Descendants(n));
    match n
    case Text(_) =>
    case Element(_, cs) => StrippedStringsOfSpec(cs);
  }

  lemma {:induction false} StrippedStringsOfSpec(cs: seq<Node>)
    decreases cs
    ensures StrippedStringsOf(cs) == NonBlank(DescendantsOf(cs))
  {
    if cs != [] {
      StrippedStringsSpec(cs[0]);
      StrippedStringsOfSpec(cs[1..]);
      NonBlankAppend([cs[0]] + Descendants(cs[0]), DescendantsOf(cs[1..]));
    }
  }
}
