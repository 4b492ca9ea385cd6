/**
 * `parse_ekyc_xml` and its `find_text` (app.py:45-59). The XML document is
 * foreign (lxml): it appears as a map from a `root.find('.//' + path)` path to
 * the found element's `text`, a missing key meaning that no element was found.
 */
module Record {
  import opened Wrappers
  import opened Text
  import opened Search
  import Archive

  /** path -> `el.text` (`None` for an element without text) */
  type XmlTree = map<string, Option<string>>

  const NameCandidates: seq<string> := ["Poi/Name", "Name", "Poi"]
  const MaskedCandidates: seq<string> := ["MaskedAadhaar", "MaskedUid", "MaskedAadhaarNumber"]

  /** `el is not None and el.text`: the element exists and its text is non-empty. */
  predicate HasText(tree: XmlTree, path: string) {
    path in tree && tree[path].Some? && tree[path].value != ""
  }

  function Matches(tree: XmlTree): string -> bool {
    path => HasText(tree, path)
  }

  /** What `find_text(names)` returns: the stripped text of the earliest candidate with text. */
  function Lookup(tree: XmlTree, names: seq<string>): (r: Option<string>)
    ensures r.None? <==> forall j :: 0 <= j < |names| ==> !HasText(tree, names[j])
  {
    match FirstIndex(names, Matches(tree))
    case None => None
    case Some(i) => Some(Strip(tree[names[i]].value))
  }

  /** `find_text`: walk the candidates in order and return at the first one with text. */
  method FindText(tree: XmlTree, names: seq<string>) returns (r: Option<string>)
    ensures r == Lookup(tree, names)
    ensures r.None? <==> forall j :: 0 <= j < |names| ==> !HasText(tree, names[j])
  {
    for i := 0 to |names|
      invariant forall j :: 0 <= j < i ==> !HasText(tree, names[j])
    {
      var n := names[i];
      if HasText(tree, n) {
        FirstIndexIs(names, Matches(tree), i);
        return Some(Strip(tree[n].value));
      }
    }
    return None;
  }

  /** The dictionary `parse_ekyc_xml` returns. */
  datatype Parsed = Parsed(name: Option<string>, masked: Option<string>, xmlBytes: seq<Archive.byte>)

  /**
   * `parse_ekyc_xml`. `parse` stands for `etree.fromstring`; `None` is the
   * `XMLSyntaxError` it raises, which this function does not catch.
   */
  method ParseEkycXml(xml: seq<Archive.byte>, parse: seq<Archive.byte> -> Option<XmlTree>)
    returns (r: Option<Parsed>)
    ensures r.None? <==> parse(xml).None?
    ensures r.Some? ==> r.value == Parsed(Lookup(parse(xml).value, NameCandidates),
                                          Lookup(parse(xml).value, MaskedCandidates), xml)
  {
    var root := parse(xml);
    if root.None? {
      return None;
    }
    var name := FindText(root.value, NameCandidates);
    var masked := FindText(root.value, MaskedCandidates);
    return Some(Parsed(name, masked, xml));
  }

  // ------------------------------------------------------------- properties

  /** The search stops at the earliest candidate with text and returns that text, stripped. */
  lemma LookupFirstMatch(tree: XmlTree, names: seq<string>, i: nat)
    requires i < |names| && HasText(tree, names[i])
    requires forall j :: 0 <= j < i ==> !HasText(tree, names[j])
    ensures Lookup(tree, names) == Some(Strip(tree[names[i]].value))
  {
    FirstIndexIs(names, Matches(tree), i);
  }

  /** Candidates after the first match are never consulted. */
  lemma LookupIgnoresLaterCandidates(tree: XmlTree, names: seq<string>, i: nat, rest: seq<string>)
    requires i < |names| && HasText(tree, names[i])
    requires forall j :: 0 <= j < i ==> !HasText(tree, names[j])
    ensures Lookup(tree, names[..i + 1] + rest) == Lookup(tree, names)
  {
    var t := names[..i + 1] + rest;
    assert forall j :: 0 <= j <= i ==> t[j] == names[j];
    LookupFirstMatch(tree, names, i);
    LookupFirstMatch(tree, t, i);
  }

  /**
   * Only the candidates up to the first match are read from the document:
   * trees that agree on them give the same answer.
   */
  lemma LookupReadsOnlyUpToFirstMatch(t1: XmlTree, t2: XmlTree, names: seq<string>, i: nat)
    requires i < |names| && HasText(t1, names[i])
    requires forall j :: 0 <= j < i ==> !HasText(t1, names[j])
    requires forall j :: 0 <= j <= i ==> (names[j] in t1 <==> names[j] in t2)
    requires forall j :: 0 <= j <= i && names[j] in t1 ==> t1[names[j]] == t2[names[j]]
    ensures Lookup(t2, names) == Lookup(t1, names)
  {
    LookupFirstMatch(t1, names, i);
    LookupFirstMatch(t2, names, i);
  }

  /** A whitespace-only text still stops the search, and what is returned is "". */
  lemma WhitespaceTextGivesEmpty(tree: XmlTree, names: seq<string>, i: nat)
    requires i < |names| && HasText(tree, names[i]) && AllSpace(tree[names[i]].value)
    requires forall j :: 0 <= j < i ==> !HasText(tree, names[j])
    ensures Lookup(tree, names) == Some("")
  {
    LookupFirstMatch(tree, names, i);
  }

  /** A found value has no leading or trailing whitespace. */
  lemma LookupIsStripped(tree: XmlTree, names: seq<string>, i: nat)
    requires i < |names| && HasText(tree, names[i])
    requires forall j :: 0 <= j < i ==> !HasText(tree, names[j])
    ensures Lookup(tree, names).Some? && Strip(Lookup(tree, names).value) == Lookup(tree, names).value
  {
    LookupFirstMatch(tree, names, i);
    StripIdempotent(tree[names[i]].value);
  }
}
