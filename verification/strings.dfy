/** Python `str` operations used by the scripts, over `seq<char>`. */
module Strings {
  import opened Wrappers

  /** Python's `str.isspace` characters: what `strip()`, `split()` and `\s` treat as whitespace. */
  predicate IsSpace(c: char)
  {
    c == ' ' || ('\t' <= c <= '\r') || ('\U{1C}' <= c <= '\U{1F}') || c == '\U{85}' || c == '\U{A0}'
    || c == '\U{1680}' || ('\U{2000}' <= c <= '\U{200A}') || c == '\U{2028}' || c == '\U{2029}'
    || c == '\U{202F}' || c == '\U{205F}' || c == '\U{3000}'
  }

  predicate AllSpace(s: string)
  {
    forall i :: 0 <= i < |s| ==> IsSpace(s[i])
  }

  /** `s.lstrip()`: drops leading whitespace; the result does not start with whitespace. */
  function StripLeft(s: string): (r: string)
    ensures |r| <= |s|
    ensures r == [] || !IsSpace(r[0])
  {
    if s != [] && IsSpace(s[0]) then StripLeft(s[1..]) else s
  }

  /** `lstrip()` keeps a suffix of `s` and what it drops is whitespace only. */
  lemma {:induction false} StripLeftShape(s: string)
    ensures var k := |s| - |StripLeft(s)|; StripLeft(s) == s[k..] && AllSpace(s[..k])
  {
    if s != [] && IsSpace(s[0]) {
      StripLeftShape(s[1..]);
      var k := |s| - |StripLeft(s)|;
      assert s[1..][..k - 1] == s[1..k];
      assert s[..k] == [s[0]] + s[1..k];
    }
  }

  /** `s.rstrip()`: drops trailing whitespace; the result does not end with whitespace. */
  function StripRight(s: string): (r: string)
    ensures |r| <= |s|
    ensures r == [] || !IsSpace(r[|r| - 1])
  {
    if s != [] && IsSpace(s[|s| - 1]) then StripRight(s[..|s| - 1]) else s
  }

  /** `rstrip()` keeps a prefix of `s` and what it drops is whitespace only. */
  lemma {:induction false} StripRightShape(s: string)
    ensures var k := |StripRight(s)|; StripRight(s) == s[..k] && AllSpace(s[k..])
  {
    if s != [] && IsSpace(s[|s| - 1]) {
      StripRightShape(s[..|s| - 1]);
      var k := |StripRight(s)|;
      assert s[..|s| - 1][k..] + [s[|s| - 1]] == s[k..];
    }
  }

  /** `s.strip()`: the text between the leading and the trailing whitespace. */
  function Strip(s: string): (r: string)
    ensures |r| <= |s|
    ensures r == [] || (!IsSpace(r[0]) && !IsSpace(r[|r| - 1]))
  {
    StripRightShape(StripLeft(s));
    StripRight(StripLeft(s))
  }

  /** `strip()` cuts `s` into whitespace, the result, and whitespace. */
  lemma StripShape(s: string)
    ensures var r := Strip(s); var i := |s| - |StripLeft(s)|;
      && i + |r| <= |s| && s == s[..i] + r + s[i + |r|..]
      && AllSpace(s[..i]) && AllSpace(s[i + |r|..])
  {
    var i := |s| - |StripLeft(s)|;
    var r := Strip(s);
    StripLeftShape(s);
    StripMiddle(s);
    StripTail(s);
    assert s == s[..i] + s[i..i + |r|] + s[i + |r|..];
  }

  /** What `strip()` keeps sits right after what `lstrip()` drops. */
  lemma StripMiddle(s: string)
    ensures var i := |s| - |StripLeft(s)|; var r := Strip(s);
      i + |r| <= |s| && r == s[i..i + |r|]
  {
    var l := StripLeft(s);
    var i := |s| - |l|;
    StripLeftShape(s);
    StripRightShape(l);
    assert l[..|Strip(s)|] == s[i..i + |Strip(s)|];
  }

  /** What `strip()` drops at the right is whitespace. */
  lemma StripTail(s: string)
    ensures var i := |s| - |StripLeft(s)|; var r := Strip(s);
      i + |r| <= |s| && AllSpace(s[i + |r|..])
  {
    var l := StripLeft(s);
    var i := |s| - |l|;
    StripLeftShape(s);
    StripRightShape(l);
    assert l[|Strip(s)|..] == s[i + |Strip(s)|..];
  }

  /** Stripping twice is stripping once. */
  lemma StripIdempotent(s: string)
    ensures Strip(Strip(s)) == Strip(s)
  {
  }

  /** A string with no whitespace at either end is its own strip. */
  lemma StripNoEdges(s: string)
    requires s == [] || (!IsSpace(s[0]) && !IsSpace(s[|s| - 1]))
    ensures Strip(s) == s
  {
  }

  function LowerChar(c: char): char
  {
    if 'A' <= c <= 'Z' then (c as int - 'A' as int + 'a' as int) as char else c
  }

  /** `s.lower()`, for ASCII letters: no upper-case letter is left, and nothing else changes. */
  function Lower(s: string): (r: string)
    ensures |r| == |s|
    ensures forall i :: 0 <= i < |r| ==> !('A' <= r[i] <= 'Z') && ('A' <= s[i] <= 'Z' || r[i] == s[i])
  {
    seq(|s|, i requires 0 <= i < |s| => LowerChar(s[i]))
  }

  /** `s.replace(" ", "_")`. */
  function SpacesToUnderscores(s: string): string
  {
    seq(|s|, i requires 0 <= i < |s| => if s[i] == ' ' then '_' else s[i])
  }

  /** `sub` occurs in `s` starting at position `i`. */
  predicate OccursAt(s: string, sub: string, i: nat)
  {
    i + |sub| <= |s| && s[i..i + |sub|] == sub
  }


  /** The leftmost occurrence of `sub` in `s` at or after position `from`. */
  function FindFrom(s: string, sub: string, from: nat): (r: Option<nat>)
    decreases |s| - from
    ensures r.Some? ==> from <= r.value && OccursAt(s, sub, r.value)
  {
    if |s| < from + |sub| then None
    else if s[from..from + |sub|] == sub then Some(from)
    else FindFrom(s, sub, from + 1)
  }

  /** What `FindFrom` finds is the leftmost occurrence: none lies between `from` and it. */
  lemma {:induction false} FindFromLeftmost(s: string, sub: string, from: nat)
    decreases |s| - from
    ensures var r := FindFrom(s, sub, from);
      forall j: nat :: from <= j && (r.None? || j < r.value) ==> !OccursAt(s, sub, j)
  {
    if |s| >= from + |sub| && s[from..from + |sub|] != sub {
      FindFromLeftmost(s, sub, from + 1);
    }
  }

  /** Python's `sub in s`: never for a longer `sub`, always for the empty one. */
  predicate Contains(s: string, sub: string)
    ensures Contains(s, sub) ==> |sub| <= |s|
    ensures sub == [] ==> Contains(s, sub)
  {
    FindFrom(s, sub, 0).Some?
  }

  /** `sub in s` holds exactly when `sub` occurs somewhere in `s`. */
  lemma ContainsOccurs(s: string, sub: string)
    ensures Contains(s, sub) <==> exists i: nat :: OccursAt(s, sub, i)
  {
    FindFromLeftmost(s, sub, 0);
  }

  /** An occurrence of `sub` inside a prefix of `s` is an occurrence in `s`. */
  lemma OccursInPrefix(s: string, sub: string, k: nat, j: nat)
    requires k <= |s| && OccursAt(s[..k], sub, j)
    ensures OccursAt(s, sub, j)
  {
    assert s[..k][j..j + |sub|] == s[j..j + |sub|];
  }

  /** `s.split(sep)` for a non-empty separator: cut at every leftmost, non-overlapping occurrence. */
  function Split(s: string, sep: string): (parts: seq<string>)
    requires |sep| > 0
    decreases |s|
    ensures |parts| >= 1
    ensures forall k :: 0 <= k < |parts| ==> !Contains(parts[k], sep)
  {
    match FindFrom(s, sep, 0)
    case None => [s]
    case Some(i) =>
      FindFromLeftmost(s, sep, 0);
      HeadBeforeFirst(s, sep, i);
      [s[..i]] + Split(s[i + |sep|..], sep)
  }

  /** The text before the leftmost occurrence of `sep` does not contain `sep`. */
  lemma HeadBeforeFirst(s: string, sep: string, i: nat)
    requires |sep| > 0 && i <= |s|
    requires forall j: nat :: j < i ==> !OccursAt(s, sep, j)
    ensures !Contains(s[..i], sep)
  {
    match FindFrom(s[..i], sep, 0)
    case None =>
    case Some(j) => OccursInPrefix(s, sep, i, j);
  }

  /** `sep.join(parts)`. */
  function Join(parts: seq<string>, sep: string): string
  {
    if parts == [] then ""
    else if |parts| == 1 then parts[0]
    else parts[0] + sep + Join(parts[1..], sep)
  }

  /** A join starts with its first part, and the separator follows it when more parts come. */
  lemma JoinShape(parts: seq<string>, sep: string)
    requires parts != []
    ensures |parts[0]| <= |Join(parts, sep)| && Join(parts, sep)[..|parts[0]|] == parts[0]
    ensures |parts| >= 2 ==> OccursAt(Join(parts, sep), sep, |parts[0]|)
  {
    if |parts| >= 2 {
      var r := Join(parts, sep);
      assert r == parts[0] + sep + Join(parts[1..], sep);
      assert r[|parts[0]|..|parts[0]| + |sep|] == sep;
    }
  }

  /** Appending a part to a join appends the separator and the part. */
  lemma {:induction false} JoinSnoc(parts: seq<string>, p: string, sep: string)
    requires parts != []
    ensures Join(parts + [p], sep) == Join(parts, sep) + sep + p
  {
    if |parts| == 1 {
      assert parts + [p] == [parts[0], p];
    } else {
      assert (parts + [p])[1..] == parts[1..] + [p];
      JoinSnoc(parts[1..], p, sep);
    }
  }

  /** Round trip: joining the parts of a split with the same separator gives back the string. */
  lemma {:induction false} JoinSplit(s: string, sep: string)
    requires |sep| > 0
    ensures Join(Split(s, sep), sep) == s
    decreases |s|
  {
    match FindFrom(s, sep, 0)
    case None =>
    case Some(i) =>
      var rest := s[i + |sep|..];
      var tail := Split(rest, sep);
      JoinSplit(rest, sep);
      assert Split(s, sep) == [s[..i]] + tail;
      assert ([s[..i]] + tail)[1..] == tail;
      assert Join([s[..i]] + tail, sep) == s[..i] + sep + Join(tail, sep);
      assert s == s[..i] + s[i..i + |sep|] + rest;
  }

  /** The other round trip, for a one-character separator: parts that do not contain it come back unchanged. */
  lemma {:induction false} SplitJoin(parts: seq<string>, c: char)
    requires |parts| >= 1
    requires forall k :: 0 <= k < |parts| ==> c !in parts[k]
    ensures Split(Join(parts, [c]), [c]) == parts
  {
    var s := Join(parts, [c]);
    var p := parts[0];
    FindFromLeftmost(s, [c], 0);
    forall j: nat | j < |p| ensures !OccursAt(s, [c], j) {
      if |parts| > 1 { assert s == p + [c] + Join(parts[1..], [c]); }
      assert s[j] == p[j];
    }
    if |parts| == 1 {
      assert s == p;
      assert FindFrom(s, [c], 0).None? by {
        forall j: nat | j >= |p| ensures !OccursAt(s, [c], j) { }
      }
    } else {
      var rest := Join(parts[1..], [c]);
      assert s == p + [c] + rest;
      assert OccursAt(s, [c], |p|);
      assert FindFrom(s, [c], 0) == Some(|p|);
      assert s[|p| + 1..] == rest;
      assert s[..|p|] == p;
      SplitJoin(parts[1..], c);
      assert Split(s, [c]) == [p] + Split(rest, [c]);
      assert parts == [p] + parts[1..];
    }
  }

  /** `s.replace(pattern, replacement)`, which Python defines as `replacement.join(s.split(pattern))`. */
  function Replace(s: string, pattern: string, replacement: string): (r: string)
    requires |pattern| > 0
    ensures !Contains(s, pattern) ==> r == s
  {
    Join(Split(s, pattern), replacement)
  }

  /** `s.replace(" ", "_")` through `Replace` is the character-wise rewrite `SpacesToUnderscores`. */
  lemma {:induction false} SpacesToUnderscoresIsReplace(s: string)
    ensures SpacesToUnderscores(s) == Replace(s, " ", "_")
    decreases |s|
  {
    FindFromLeftmost(s, " ", 0);
    match FindFrom(s, " ", 0)
    case None =>
      forall j | 0 <= j < |s| ensures s[j] != ' ' {
        assert !OccursAt(s, " ", j);
        assert s[j..j + 1] == [s[j]];
      }
      assert SpacesToUnderscores(s) == s;
      assert Split(s, " ") == [s];
    case Some(i) =>
      var rest := s[i + 1..];
      var tail := Split(rest, " ");
      SpacesToUnderscoresIsReplace(rest);
      assert s[i..i + 1] == " ";
      assert Split(s, " ") == [s[..i]] + tail;
      assert ([s[..i]] + tail)[1..] == tail;
      assert Replace(s, " ", "_") == s[..i] + "_" + Replace(rest, " ", "_");
      forall j | 0 <= j < i ensures s[j] != ' ' {
        assert !OccursAt(s, " ", j);
        assert s[j..j + 1] == [s[j]];
      }
      var u := SpacesToUnderscores(s);
      var v := s[..i] + "_" + SpacesToUnderscores(rest);
      assert |u| == |v|;
      forall j | 0 <= j < |u| ensures u[j] == v[j] {
        if j > i {
          assert v[j] == SpacesToUnderscores(rest)[j - i - 1];
          assert rest[j - i - 1] == s[j];
        }
      }
  }
}
