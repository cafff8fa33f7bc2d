/**
 * Listing the namespaces a document declares (`getXmlNameSpaces`) and
 * finding its default namespace (`getDefaultNameSpace`). Both read the raw
 * text with the scanners of module Patterns; neither looks at the document's
 * element structure, so the index is flat and document-wide.
 */
module NameSpaceIndex {
  import opened Outcomes
  import opened Text
  import opened Patterns

  /**
   * The array `getXmlNameSpaces` returns: keyed by prefix and sorted by it,
   * or the plain list of URIs in scan order. With no declaration at all both
   * stand for PHP's empty array `[]`.
   */
  datatype NameSpaces =
    | ByPrefix(entries: seq<(string, string)>)
    | InScanOrder(uris: seq<string>)

  /** The prefixes of a keyed listing, in order. */
  function KeysOf(es: seq<(string, string)>): (ks: seq<string>)
    ensures |ks| == |es|
    ensures forall i :: 0 <= i < |es| ==> ks[i] == es[i].0
  {
    seq(|es|, i requires 0 <= i < |es| => es[i].0)
  }

  /** The prefix-keyed array the `foreach` builds: a later match for a prefix overwrites an earlier one. */
  function LastWins(ms: seq<Match>): map<string, string>
    decreases |ms|
  {
    if ms == [] then map[]
    else LastWins(ms[..|ms| - 1])[ms[|ms| - 1].prefix := ms[|ms| - 1].uri]
  }

  /** A prefix is a key exactly when some match declares it, and its URI is that of the last such match. */
  lemma {:induction false} LastWinsSpec(ms: seq<Match>, p: string)
    ensures p in LastWins(ms) <==> exists k :: 0 <= k < |ms| && ms[k].prefix == p
    ensures p in LastWins(ms) ==>
      exists k :: 0 <= k < |ms| && ms[k].prefix == p && ms[k].uri == LastWins(ms)[p] &&
        forall j :: k < j < |ms| ==> ms[j].prefix != p
    decreases |ms|
  {
    if ms != [] {
      var init, last := ms[..|ms| - 1], ms[|ms| - 1];
      LastWinsSpec(init, p);
      assert forall k :: 0 <= k < |init| ==> init[k] == ms[k];
      if last.prefix != p && p in LastWins(ms) {
        var k :| 0 <= k < |init| && init[k].prefix == p && init[k].uri == LastWins(init)[p] &&
          forall j :: k < j < |init| ==> init[j].prefix != p;
        assert forall j :: k < j < |ms| ==> ms[j].prefix != p;
      }
    }
  }

  /** The entries of `m` sorted by key: the array `ksort` leaves behind. */
  ghost function SortedEntries(m: map<string, string>): (es: seq<(string, string)>)
    ensures KeysOf(es) == SortedKeys(m.Keys)
    ensures forall i :: 0 <= i < |es| ==> es[i].0 in m && es[i].1 == m[es[i].0]
  {
    var ks := SortedKeys(m.Keys);
    seq(|ks|, i requires 0 <= i < |ks| => (ks[i], m[ks[i]]))
  }

  /** The smallest key of a non-empty set. */
  method LeastKey(ks: set<string>) returns (k: string)
    requires ks != {}
    ensures IsLeast(k, ks)
  {
    k :| k in ks;
    var rest := ks - {k};
    while rest != {}
      invariant rest <= ks && k in ks
      invariant forall j :: j in ks - rest ==> LessEq(k, j)
      decreases rest
    {
      var j :| j in rest;
      if Less(j, k) {
        forall x | x in ks - rest ensures LessEq(j, x) {
          LessEqTransitive(j, k, x);
        }
        k := j;
      } else if j != k {
        LessTotal(j, k);
      }
      rest := rest - {j};
    }
  }

  /** `ksort`: the entries of `m` in ascending order of key. */
  method KSort(m: map<string, string>) returns (es: seq<(string, string)>)
    ensures es == SortedEntries(m)
  {
    es := [];
    var rest := m.Keys;
    while rest != {}
      invariant rest <= m.Keys
      invariant Ascending(KeysOf(es))
      invariant forall i :: 0 <= i < |es| ==> es[i].0 in m && es[i].0 !in rest && es[i].1 == m[es[i].0]
      invariant forall k :: k in m.Keys - rest ==> k in KeysOf(es)
      invariant forall i, k :: 0 <= i < |es| && k in rest ==> Less(es[i].0, k)
      decreases rest
    {
      var k := LeastKey(rest);
      forall k' | k' in rest - {k} ensures Less(k, k') {
      }
      assert KeysOf(es + [(k, m[k])]) == KeysOf(es) + [k];
      es := es + [(k, m[k])];
      rest := rest - {k};
    }
    AscendingUnique(KeysOf(es), SortedKeys(m.Keys));
    assert KeysOf(es) == KeysOf(SortedEntries(m));
  }

  /** The URIs of the matches, in scan order. */
  function Uris(ms: seq<Match>): (us: seq<string>)
    ensures |us| == |ms|
    ensures forall k :: 0 <= k < |ms| ==> us[k] == ms[k].uri
  {
    seq(|ms|, k requires 0 <= k < |ms| => ms[k].uri)
  }

  /** The listing of a sequence of matches: keyed and sorted, or the URIs in order. */
  ghost function ListingOf(ms: seq<Match>, usePrefixKeys: bool): NameSpaces {
    if usePrefixKeys then ByPrefix(SortedEntries(LastWins(ms))) else InScanOrder(Uris(ms))
  }

  /** What `getXmlNameSpaces($xml, $usePrefixKeys)` returns for the document `xml`. */
  ghost function Listing(xml: string, usePrefixKeys: bool): NameSpaces {
    ListingOf(AllMatches(AnyPrefix, xml), usePrefixKeys)
  }

  /**
   * `getXmlNameSpaces($xml, $usePrefixKeys)`: every `xmlns:prefix="uri"`
   * declaration found by a left-to-right scan, either keyed by prefix (the
   * last declaration of a prefix wins) and sorted by prefix, or as the list
   * of URIs in scan order, duplicates kept.
   */
  method XmlNameSpaces(xml: string, usePrefixKeys: bool) returns (r: NameSpaces)
    ensures r == Listing(xml, usePrefixKeys)
  {
    var matches := AllMatches(AnyPrefix, xml);
    r := Collect(matches, usePrefixKeys);
  }

  /** The `foreach` over the matches of `getXmlNameSpaces`, and the `ksort` after it. */
  method Collect(matches: seq<Match>, usePrefixKeys: bool) returns (r: NameSpaces)
    ensures r == ListingOf(matches, usePrefixKeys)
  {
    if |matches| == 0 {
      assert LastWins(matches) == map[];
      assert SortedKeys(LastWins(matches).Keys) == [];
      assert Uris(matches) == [];
      return if usePrefixKeys then ByPrefix([]) else InScanOrder([]);
    }
    var result: map<string, string> := map[];
    var uris: seq<string> := [];
    for k := 0 to |matches|
      invariant usePrefixKeys ==> result == LastWins(matches[..k])
      invariant !usePrefixKeys ==> |uris| == k && forall j :: 0 <= j < k ==> uris[j] == matches[j].uri
    {
      if usePrefixKeys {
        assert matches[..k + 1][..k] == matches[..k];
        result := result[matches[k].prefix := matches[k].uri];
        continue;
      }
      uris := uris + [matches[k].uri];
    }
    if usePrefixKeys {
      assert matches[..|matches|] == matches;
      var entries := KSort(result);
      r := ByPrefix(entries);
    } else {
      assert uris == Uris(matches);
      r := InScanOrder(uris);
    }
  }

  /**
   * The keyed listing of a sequence of matches holds exactly the prefixes
   * they declare, each with the URI of its last declaration, in strictly
   * ascending order of prefix, and is empty exactly when there is no match.
   */
  lemma {:induction false} KeyedListing(ms: seq<Match>)
    ensures var es := SortedEntries(LastWins(ms));
      && Ascending(KeysOf(es))
      && (forall p :: p in KeysOf(es) <==> exists k :: 0 <= k < |ms| && ms[k].prefix == p)
      && (forall i :: 0 <= i < |es| ==>
            exists k :: 0 <= k < |ms| && ms[k].prefix == es[i].0 && ms[k].uri == es[i].1 &&
                        (forall j :: k < j < |ms| ==> ms[j].prefix != es[i].0))
      && (es == [] <==> ms == [])
  {
    var m := LastWins(ms);
    var es := SortedEntries(m);
    forall p ensures p in KeysOf(es) <==> exists k :: 0 <= k < |ms| && ms[k].prefix == p {
      LastWinsSpec(ms, p);
    }
    forall i | 0 <= i < |es|
      ensures exists k :: 0 <= k < |ms| && ms[k].prefix == es[i].0 && ms[k].uri == es[i].1 &&
                (forall j :: k < j < |ms| ==> ms[j].prefix != es[i].0)
    {
      LastWinsSpec(ms, es[i].0);
    }
    if ms != [] {
      assert ms[0].prefix in KeysOf(es);
    }
  }

  /** `m` spans a prefixed declaration of `xml` whose prefix is a non-empty run of word characters. */
  ghost predicate WordDeclaration(xml: string, m: Match) {
    && m.prefix != "" && AllIn(Word, m.prefix) && m.start < m.end <= |xml|
    && exists sp1, sp2 :: Shape(AnyPrefix, xml[m.start..m.end], m.prefix, sp1, sp2, m.uri)
  }

  /**
   * Every prefix the scan captures is a non-empty run of word characters
   * whose declaration occurs in the text; in particular the default
   * namespace, which has no prefix, is never listed.
   */
  lemma ScannedPrefixesAreWords(xml: string)
    ensures forall k :: 0 <= k < |AllMatches(AnyPrefix, xml)| ==> WordDeclaration(xml, AllMatches(AnyPrefix, xml)[k])
  {
    var ms := AllMatches(AnyPrefix, xml);
    ScanGenuine(AnyPrefix, xml, 0);
    forall k | 0 <= k < |ms|
      ensures WordDeclaration(xml, ms[k])
    {
      var m := ms[k];
      var sp1, sp2 := MatchSound(AnyPrefix, xml, m.start);
      assert Fits(AnyPrefix, m.prefix);
    }
  }

  /**
   * `getDefaultNameSpace($xml)`: the quoted value of the leftmost
   * `xmlns="uri"` declaration, or a DomainException when there is none.
   */
  function DefaultNameSpace(xml: string): Result<string> {
    match FirstMatch(Default, xml)
    case Some(m) => Success(m.uri)
    case None => Failure(DomainException("Default namespace is not set check the XML"))
  }

  /**
   * The default namespace is the non-empty, quote-free value of a default
   * declaration that occurs in the text, with no default declaration
   * starting further left; it fails exactly when no default declaration
   * occurs anywhere.
   */
  lemma DefaultNameSpaceSpec(xml: string)
    ensures DefaultNameSpace(xml).Success? ==>
      exists i, e, sp1, sp2 :: 0 <= i <= e <= |xml| &&
        Shape(Default, xml[i..e], "", sp1, sp2, DefaultNameSpace(xml).value) &&
        forall j, t, sp1', sp2', u :: 0 <= j < i && StartsAt(xml, j, t) ==> !Shape(Default, t, "", sp1', sp2', u)
    ensures DefaultNameSpace(xml).Failure? ==>
      DefaultNameSpace(xml).error == DomainException("Default namespace is not set check the XML") &&
      forall j, t, sp1, sp2, u :: 0 <= j <= |xml| && StartsAt(xml, j, t) ==> !Shape(Default, t, "", sp1, sp2, u)
  {
    FirstIsLeftmost(Default, xml, 0);
    match FirstMatch(Default, xml)
    case Some(m) =>
      var sp1, sp2 := MatchSound(Default, xml, m.start);
      forall j, t, sp1', sp2', u | 0 <= j < m.start && StartsAt(xml, j, t)
        ensures !Shape(Default, t, "", sp1', sp2', u)
      {
        if Shape(Default, t, "", sp1', sp2', u) {
          MatchComplete(Default, xml, j, t, "", sp1', sp2', u);
        }
      }
    case None =>
      forall j, t, sp1, sp2, u | 0 <= j <= |xml| && StartsAt(xml, j, t)
        ensures !Shape(Default, t, "", sp1, sp2, u)
      {
        if Shape(Default, t, "", sp1, sp2, u) {
          MatchComplete(Default, xml, j, t, "", sp1, sp2, u);
        }
      }
  }
}
