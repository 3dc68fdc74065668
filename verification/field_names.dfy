/** How the scripts turn a `dt` term or an `h3` heading into a dictionary key. */
module FieldNames {
  import opened Wrappers
  import opened Strings
  import Document

  /** The site labels one field either "Node Name" or "Node Names"; both become `node_names`. */
  function Rename(key: string): (r: string)
    ensures r != "node_name"
    ensures key != "node_name" ==> r == key
  {
    if key == "node_name" then "node_names" else key
  }

  /** `text.strip().lower().replace(" ", "_")`, the heading key of `scrape_detailed_data`. */
  function HeadingKey(text: string): (r: string)
    ensures |r| == |Strip(text)|
    ensures forall i :: 0 <= i < |r| ==> r[i] != ' ' && !('A' <= r[i] <= 'Z')
  {
    SpacesToUnderscores(Lower(Strip(text)))
  }

  /** The `dt` key of ehp_conversion.py: trimmed, lowered, spaces to underscores, then renamed. */
  function EhpTermKey(text: string): (r: string)
    ensures IsCanonical(r)
  {
    LowerUnderscoreCanonical(Strip(text));
    Rename(HeadingKey(text))
  }

  /** The `dt` key of main.py and test.py: `str(dt.string).lower().replace(" ", "_")`, renamed; no trimming. */
  function SoupTermKey(s: Option<string>): (r: string)
    ensures IsCanonical(r)
  {
    LowerUnderscoreCanonical(Document.StrOf(s));
    Rename(SpacesToUnderscores(Lower(Document.StrOf(s))))
  }

  /** A key as the canonicalisation leaves it: no space, no upper-case ASCII letter, never `node_name`. */
  predicate IsCanonical(key: string)
  {
    && key != "node_name"
    && forall i :: 0 <= i < |key| ==> key[i] != ' ' && !('A' <= key[i] <= 'Z')
  }

  /** Lowering, underscoring and renaming any text gives a canonical key. */
  lemma LowerUnderscoreCanonical(s: string)
    ensures IsCanonical(Rename(SpacesToUnderscores(Lower(s))))
  {
  }

  /** Canonicalising a canonical key changes nothing. */
  lemma CanonicalFixed(key: string)
    requires IsCanonical(key)
    ensures SpacesToUnderscores(Lower(key)) == key
    ensures Rename(key) == key
  {
    assert Lower(key) == key;
  }

  /** Both variants are idempotent: a key read back as a term gives the same key. */
  lemma TermKeysIdempotent(text: string, s: Option<string>)
    ensures EhpTermKey(EhpTermKey(text)) == EhpTermKey(text)
    ensures SoupTermKey(Some(SoupTermKey(s))) == SoupTermKey(s)
  {
    var k := EhpTermKey(text);
    HeadingKeyTrimmed(text);
    StripNoEdges(k);
    CanonicalFixed(k);
    CanonicalFixed(SoupTermKey(s));
  }

  /** Lowering and underscoring a trimmed text leaves it trimmed. */
  lemma HeadingKeyTrimmed(text: string)
    ensures var k := EhpTermKey(text); k == [] || (!IsSpace(k[0]) && !IsSpace(k[|k| - 1]))
  {
    var t := Strip(text);
    var u := SpacesToUnderscores(Lower(t));
    if u != [] {
      KeepsNonSpace(t[0]);
      KeepsNonSpace(t[|t| - 1]);
    }
  }

  /** Lowering and underscoring a non-space character gives a non-space character. */
  lemma KeepsNonSpace(c: char)
    requires !IsSpace(c)
    ensures !IsSpace(if LowerChar(c) == ' ' then '_' else LowerChar(c))
  {
  }

  /** On a term with no surrounding whitespace whose `.string` exists, the variants agree. */
  lemma TermKeysAgree(text: string)
    requires text == [] || (!IsSpace(text[0]) && !IsSpace(text[|text| - 1]))
    ensures EhpTermKey(text) == SoupTermKey(Some(text))
  {
    StripNoEdges(text);
  }

  /** Only the two spellings of the names field become `node_names`. */
  lemma NodeNamesKey(text: string)
    ensures EhpTermKey(text) == "node_names" <==> HeadingKey(text) in {"node_name", "node_names"}
  {
  }
}
