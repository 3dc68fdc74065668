/**
 * The drill-path formatter of drill_down_formatter.py: a dotted OID read from a line of input
 * becomes the Python list literal of its successive prefixes, one per `.`-separated segment.
 */
module DrillDown {
  import opened Strings

  const Header: string := "DRILL_DOWN_OID = ["
  const Footer: string := "]\n\n"
  const Separator: string := ", "

  /** The loop's exit test on a stripped line: empty, or `exit` in any ASCII casing. */
  predicate IsExit(inStr: string)
    ensures IsExit(inStr) <==> inStr == [] || (|inStr| == 4 && forall i :: 0 <= i < 4 ==> LowerChar(inStr[i]) == "exit"[i])
  {
    inStr == "" || Lower(inStr) == "exit"
  }

  /** Entry `i` is the first `i + 1` segments joined by `.`. */
  function Prefixes(segs: seq<string>): (r: seq<string>)
    ensures |r| == |segs|
  {
    seq(|segs|, i requires 0 <= i < |segs| => Join(segs[..i + 1], "."))
  }

  /** Each entry in double quotes, as the f-string writes it. */
  function Quoted(entries: seq<string>): (r: seq<string>)
    ensures |r| == |entries|
  {
    if entries == [] then [] else Quoted(entries[..|entries| - 1]) + ["\"" + entries[|entries| - 1] + "\""]
  }

  /** What one line prints: the header, the quoted entries separated by `, `, and the closing bracket with a blank line. */
  function ListLiteral(entries: seq<string>): string
  {
    Header + Join(Quoted(entries), Separator) + Footer
  }

  /** The output for a stripped, non-exit line. */
  function Drill(inStr: string): (r: string)
    ensures |Header| + |Footer| <= |r| && r[..|Header|] == Header && r[|r| - |Footer|..] == Footer
  {
    ListLiteral(Prefixes(Split(inStr, ".")))
  }

  /** The body of the `while True` loop for one stripped line: the `for i` loop that prints the entries. */
  method FormatLine(inStr: string) returns (out: string)
    ensures out == Drill(inStr)
  {
    var splitStr := Split(inStr, ".");
    ghost var entries := Quoted(Prefixes(splitStr));
    out := Header;
    for i := 1 to |splitStr| + 1
      invariant out == Printed(entries, i)
    {
      var entry := "\"" + Join(splitStr[0..i], ".") + "\"";
      EntryStep(splitStr, i);
      out := out + entry;
      if i != |splitStr| {
        out := out + Separator;
      }
    }
    assert entries[..|splitStr|] == entries;
    out := out + Footer;
  }

  /** What the loop has printed before its `i`-th pass: the header, the first `i - 1` entries, and a separator after them if more follow. */
  ghost function Printed(entries: seq<string>, i: nat): string
    requires 1 <= i <= |entries| + 1
  {
    Header + Join(entries[..i - 1], Separator) + (if 1 < i <= |entries| then Separator else "")
  }

  /** The `i`-th pass prints the `i`-th quoted entry, then a separator unless it is the last. */
  lemma EntryStep(segs: seq<string>, i: nat)
    requires 1 <= i <= |segs|
    ensures var entries := Quoted(Prefixes(segs)); var entry := "\"" + Join(segs[0..i], ".") + "\"";
      Printed(entries, i) + entry + (if i != |segs| then Separator else "") == Printed(entries, i + 1)
  {
    var entries := Quoted(Prefixes(segs));
    var entry := entries[i - 1];
    assert entry == "\"" + Join(segs[0..i], ".") + "\"" by {
      QuotedAt(Prefixes(segs), i - 1);
      assert segs[0..i] == segs[..i];
    }
    assert entries[..i] == entries[..i - 1] + [entry];
    if i > 1 {
      JoinSnoc(entries[..i - 1], entry, Separator);
    }
  }

  /** The whole session over the lines typed, until an exit line; `exited` is false when input ran out first. */
  function Session(lines: seq<string>): (r: (string, bool))
    ensures r.1 <==> exists k :: 0 <= k < |lines| && IsExit(Strip(lines[k]))
    ensures lines != [] && IsExit(Strip(lines[0])) ==> r.0 == []
  {
    if lines == [] then ("", false)
    else if IsExit(Strip(lines[0])) then ("", true)
    else
      var rest := Session(lines[1..]);
      (Drill(Strip(lines[0])) + rest.0, rest.1)
  }

  /** `main`: read and format lines until one is an exit line. */
  method Prompt(lines: seq<string>) returns (out: string, exited: bool)
    ensures out == Session(lines).0 && exited == Session(lines).1
  {
    out := "";
    var k := 0;
    assert lines[k..] == lines;
    while true
      invariant k <= |lines|
      invariant out + Session(lines[k..]).0 == Session(lines).0
      invariant Session(lines[k..]).1 == Session(lines).1
      decreases |lines| - k
    {
      if k == |lines| {
        assert lines[k..] == [] && out + "" == out;
        return out, false;
      }
      var printed, stop := ReadLine(lines, k);
      if stop {
        assert out + "" == out;
        return out, true;
      }
      ghost var rest := Session(lines[k + 1..]).0;
      AppendRegroup(out, printed, rest);
      out := out + printed;
      k := k + 1;
    }
  }

  /** Regrouping a three-part concatenation, kept out of the loop's larger context. */
  lemma AppendRegroup(a: string, b: string, c: string)
    ensures (a + b) + c == a + (b + c)
  {
  }

  /** The session from line `k` on, by what line `k` is. */
  lemma SessionAt(lines: seq<string>, k: nat)
    requires k < |lines|
    ensures IsExit(Strip(lines[k])) ==> Session(lines[k..]) == ("", true)
    ensures !IsExit(Strip(lines[k])) ==> Session(lines[k..]).0 == Drill(Strip(lines[k])) + Session(lines[k + 1..]).0
    ensures !IsExit(Strip(lines[k])) ==> Session(lines[k..]).1 == Session(lines[k + 1..]).1
  {
    assert lines[k..] == [lines[k]] + lines[k + 1..];
    LineOutput(lines[k], lines[k + 1..]);
  }

  /**
   * One pass of the `while True` loop on line `k`: strip it, stop on an exit line, else print its
   * list; what the session prints from line `k` on is that, then what it prints from line `k + 1` on.
   */
  method ReadLine(lines: seq<string>, k: nat) returns (printed: string, stop: bool)
    requires k < |lines|
    ensures stop == IsExit(Strip(lines[k]))
    ensures stop ==> Session(lines[k..]) == ("", true)
    ensures !stop ==> Session(lines[k..]).0 == printed + Session(lines[k + 1..]).0
    ensures !stop ==> Session(lines[k..]).1 == Session(lines[k + 1..]).1
  {
    SessionAt(lines, k);
    var inStr := Strip(lines[k]);
    if inStr == "" || Lower(inStr) == "exit" {
      return "", true;
    }
    printed := FormatLine(inStr);
    stop := false;
  }

  /** One entry per segment; the first is the first segment and the last is the whole input. */
  lemma PrefixesEnds(inStr: string)
    ensures var segs := Split(inStr, "."); var p := Prefixes(segs);
      && |p| == |segs|
      && p[0] == segs[0]
      && p[|p| - 1] == inStr
  {
    var segs := Split(inStr, ".");
    assert segs[..1] == [segs[0]];
    assert segs[..|segs|] == segs;
    JoinSplit(inStr, ".");
  }

  /** Each entry after the first is the previous one, a dot and the next segment. */
  lemma PrefixesStep(segs: seq<string>, i: nat)
    requires i + 1 < |segs|
    ensures Prefixes(segs)[i + 1] == Prefixes(segs)[i] + "." + segs[i + 1]
  {
    assert Join(segs[..i + 2], ".") == Join(segs[..i + 1], ".") + "." + segs[i + 1] by {
      assert segs[..i + 2] == segs[..i + 1] + [segs[i + 1]];
      JoinSnoc(segs[..i + 1], segs[i + 1], ".");
    }
  }

  /** So every entry is a prefix of every later one. */
  lemma {:induction false} PrefixesGrow(segs: seq<string>, i: nat, j: nat)
    requires i <= j < |segs|
    ensures Prefixes(segs)[i] <= Prefixes(segs)[j]
    decreases j - i
  {
    if i < j {
      PrefixesStep(segs, i);
      PrefixesGrow(segs, i + 1, j);
    }
  }

  /** Entry `i` of a dotted OID splits back into exactly its first `i + 1` segments. */
  lemma EntrySegments(inStr: string, i: nat)
    requires i < |Split(inStr, ".")|
    ensures Split(Prefixes(Split(inStr, "."))[i], ".") == Split(inStr, ".")[..i + 1]
  {
    var all := Split(inStr, ".");
    var segs := all[..i + 1];
    NoDotInSegments(all);
    assert forall k :: 0 <= k < |segs| ==> '.' !in segs[k] by {
      forall k | 0 <= k < |segs| ensures '.' !in segs[k] {
        assert segs[k] == all[k];
      }
    }
    SplitJoin(segs, '.');
    PrefixAt(all, i);
  }

  /** Entry `i` is the first `i + 1` segments joined by `.`. */
  lemma PrefixAt(segs: seq<string>, i: nat)
    requires i < |segs|
    ensures Prefixes(segs)[i] == Join(segs[..i + 1], ['.'])
  {
  }

  /** Entry `i` of the quoted list is entry `i` in double quotes. */
  lemma {:induction false} QuotedAt(entries: seq<string>, i: nat)
    requires i < |entries|
    ensures Quoted(entries)[i] == "\"" + entries[i] + "\""
    decreases |entries|
  {
    if i < |entries| - 1 {
      QuotedAt(entries[..|entries| - 1], i);
    }
  }

  /** No segment of a split on `.` holds a dot. */
  lemma NoDotInSegments(segs: seq<string>)
    requires forall k :: 0 <= k < |segs| ==> !Contains(segs[k], ".")
    ensures forall k :: 0 <= k < |segs| ==> '.' !in segs[k]
  {
    forall k | 0 <= k < |segs| ensures '.' !in segs[k] {
      NoDotInPart(segs[k]);
    }
  }

  /** A text in which `.` does not occur holds no dot. */
  lemma NoDotInPart(p: string)
    requires !Contains(p, ".")
    ensures '.' !in p
  {
    if '.' in p {
      var j :| 0 <= j < |p| && p[j] == '.';
      assert OccursAt(p, ".", j);
      ContainsOccurs(p, ".");
    }
  }

  /** Lines after the exit line are never read: they change nothing. */
  lemma {:induction false} StopsAtExit(lines: seq<string>, more: seq<string>, n: nat)
    requires n < |lines| && IsExit(Strip(lines[n]))
    ensures Session(lines + more) == Session(lines) && Session(lines).1
  {
    assert (lines + more)[0] == lines[0];
    if n > 0 && !IsExit(Strip(lines[0])) {
      assert (lines + more)[1..] == lines[1..] + more;
      StopsAtExit(lines[1..], more, n - 1);
      var rest := Session(lines[1..]);
      assert Session(lines) == (Drill(Strip(lines[0])) + rest.0, rest.1);
      assert Session(lines + more) == (Drill(Strip(lines[0])) + rest.0, rest.1);
    } else {
      assert IsExit(Strip(lines[0]));
      assert Session(lines) == ("", true);
    }
  }

  /** An exit line prints nothing, and every other line prints one list literal. */
  lemma LineOutput(line: string, rest: seq<string>)
    ensures IsExit(Strip(line)) ==> Session([line] + rest) == ("", true)
    ensures !IsExit(Strip(line)) ==> Session([line] + rest) == (Drill(Strip(line)) + Session(rest).0, Session(rest).1)
  {
    assert ([line] + rest)[1..] == rest;
  }
}
