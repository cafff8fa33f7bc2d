/**
 * The XSLT text `applyXslTemplates` hands to the XSLT processor: a head that
 * declares every `xmlns:prefix="uri"` of the document's sorted prefix
 * listing, then one elision template, then the identity-copy template.
 */
module Stylesheet {
  import opened Outcomes
  import opened Text
  import opened Patterns
  import opened NameSpaceIndex

  const XslNamespace := "http://www.w3.org/1999/XSL/Transform"

  /** `PHP_EOL` on the platforms the cleaner runs on. */
  const Eol := "\n"

  const OutputElement := "<xsl:output method=\"xml\" version=\"1.0\" encoding=\"utf-8\""
    + " omit-xml-declaration=\"no\" standalone=\"no\" indent=\"no\"/>"

  /** The identity-copy template and the end of the stylesheet. */
  const Foot := "<xsl:template match=\"@*|node()\">" + "<xsl:copy>"
    + "<xsl:apply-templates select=\"@*|node()\"/>"
    + "</xsl:copy></xsl:template></xsl:transform>"

  /** Elision template of `removeXmlComments`. */
  const CommentTemplate := "<xsl:template match=\"comment()\"/>"

  /** Elision template of `removeElementsByPrefix`: every element in `prefix`, at any depth. */
  function ElementTemplate(prefix: string): string {
    "<xsl:template match=\"//" + prefix + ":*\"/>"
  }

  /** Elision template of `removeAttributesByPrefix`: every attribute in `prefix`. */
  function AttributeTemplate(prefix: string): string {
    "<xsl:template match=\"@" + prefix + ":*\"/>"
  }

  /** PHP's `implode($glue, $parts)`. */
  function Implode(glue: string, parts: seq<string>): string
    decreases |parts|
  {
    if parts == [] then ""
    else if |parts| == 1 then parts[0]
    else parts[0] + glue + Implode(glue, parts[1..])
  }

  /** The attribute declaring one binding: `xmlns:`, the prefix, `=`, and the URI in double quotes. */
  function Declaration(b: (string, string)): string {
    "xmlns:" + b.0 + "=\"" + b.1 + "\""
  }

  /** The array `$xmlNS`: an empty first element, then one declaration per binding. */
  function DeclarationList(bs: seq<(string, string)>): (parts: seq<string>)
    ensures |parts| == |bs| + 1 && parts[0] == ""
    ensures forall i :: 0 <= i < |bs| ==> parts[i + 1] == Declaration(bs[i])
  {
    [""] + seq(|bs|, i requires 0 <= i < |bs| => Declaration(bs[i]))
  }

  /** The namespace attributes of the head, `implode(' ', $xmlNS)`. */
  function NameSpaceAttributes(bs: seq<(string, string)>): string {
    Implode(" ", DeclarationList(bs))
  }

  /** The whole stylesheet for the bindings `bs` and one elision template. */
  function XslText(bs: seq<(string, string)>, template: string): string {
    "<xsl:transform " + NameSpaceAttributes(bs) + " version=\"1.0\""
      + " xmlns:xsl=\"" + XslNamespace + "\">" + OutputElement
      + template + Eol + Foot
  }

  /** Bindings a scanner can read back: `\w+` prefixes and non-empty quote-free URIs. */
  predicate Readable(bs: seq<(string, string)>) {
    forall i :: 0 <= i < |bs| ==>
      bs[i].0 != "" && AllIn(Word, bs[i].0) && bs[i].1 != "" && AllIn(NotQuote, bs[i].1)
  }

  /** The prefix and URI of each match. */
  function Bindings(ms: seq<Match>): (bs: seq<(string, string)>)
    ensures |bs| == |ms|
    ensures forall i :: 0 <= i < |ms| ==> bs[i] == (ms[i].prefix, ms[i].uri)
  {
    seq(|ms|, i requires 0 <= i < |ms| => (ms[i].prefix, ms[i].uri))
  }

  /** Each declaration preceded by a blank, concatenated. */
  function Spaced(bs: seq<(string, string)>): string
    decreases |bs|
  {
    if bs == [] then "" else " " + Declaration(bs[0]) + Spaced(bs[1..])
  }

  lemma {:induction false} ImplodeSpaced(bs: seq<(string, string)>)
    ensures NameSpaceAttributes(bs) == Spaced(bs)
    decreases |bs|
  {
    var parts := DeclarationList(bs);
    if bs != [] {
      ImplodeSpaced(bs[1..]);
      var tail := DeclarationList(bs[1..]);
      assert parts[1..][0] == Declaration(bs[0]);
      if |bs| == 1 {
        assert Implode(" ", parts[1..]) == Declaration(bs[0]);
      } else {
        assert parts[1..][1..] == tail[1..];
        assert Implode(" ", parts[1..]) == Declaration(bs[0]) + " " + Implode(" ", tail[1..]);
        assert Implode(" ", tail) == "" + " " + Implode(" ", tail[1..]);
      }
    }
  }

  /** A declaration written by the head is exactly one match of the prefixed expression. */
  lemma DeclarationMatches(s: string, i: nat, b: (string, string))
    requires b.0 != "" && AllIn(Word, b.0) && b.1 != "" && AllIn(NotQuote, b.1)
    requires StartsAt(s, i, Declaration(b))
    ensures MatchAt(AnyPrefix, s, i) == Some(Match(b.0, b.1, i, i + |Declaration(b)|))
  {
    assert Declaration(b) == Lead(AnyPrefix, b.0) + TailText("", "", b.1);
    MatchComplete(AnyPrefix, s, i, Declaration(b), b.0, "", "", b.1);
  }

  /** No prefixed declaration starts at a blank. */
  lemma NoMatchAtBlank(s: string, i: nat)
    requires i < |s| && s[i] == ' '
    ensures MatchAt(AnyPrefix, s, i) == None
  {
    if StartsAt(s, i, "xmlns:") {
      StartsAtSplit(s, i, "x", "mlns:");
      CharAt(s, i, 'x');
    }
  }

  lemma BindingsCons(m: Match, later: seq<Match>)
    ensures Bindings([m] + later) == [(m.prefix, m.uri)] + Bindings(later)
  {
    var ms := [m] + later;
    assert forall k :: 1 <= k < |ms| ==> ms[k] == later[k - 1];
  }

  /** A blank followed by a declaration: no match at the blank, the declaration's match right after it. */
  lemma BlankThenDeclaration(s: string, i: nat, b: (string, string))
    requires b.0 != "" && AllIn(Word, b.0) && b.1 != "" && AllIn(NotQuote, b.1)
    requires StartsAt(s, i, " " + Declaration(b))
    ensures i < |s|
    ensures MatchAt(AnyPrefix, s, i) == None
    ensures MatchAt(AnyPrefix, s, i + 1) == Some(Match(b.0, b.1, i + 1, i + 1 + |Declaration(b)|))
  {
    StartsAtSplit(s, i, " ", Declaration(b));
    CharAt(s, i, ' ');
    DeclarationMatches(s, i + 1, b);
    NoMatchAtBlank(s, i);
  }

  /** A position with no match followed by a match: the scan reports that match first, then goes on after it. */
  lemma ScanPastBlank(s: string, i: nat, m: Match)
    requires i < |s| && MatchAt(AnyPrefix, s, i) == None && MatchAt(AnyPrefix, s, i + 1) == Some(m)
    ensures m.end <= |s|
    ensures Bindings(ScanFrom(AnyPrefix, s, i)) == [(m.prefix, m.uri)] + Bindings(ScanFrom(AnyPrefix, s, m.end))
  {
    ScanStep(AnyPrefix, s, i, m);
    BindingsCons(m, ScanFrom(AnyPrefix, s, m.end));
  }

  /** Each match of `ms` stands one position after a position without a match, one after the other from `i` on. */
  predicate Chain(s: string, i: nat, ms: seq<Match>)
    decreases |ms|
  {
    if ms == [] then i <= |s|
    else
      && i < |s| && MatchAt(AnyPrefix, s, i) == None && MatchAt(AnyPrefix, s, i + 1) == Some(ms[0])
      && Chain(s, ms[0].end, ms[1..])
  }

  /** Where a chain of matches from `i` ends. */
  function ChainEnd(i: nat, ms: seq<Match>): nat
    decreases |ms|
  {
    if ms == [] then i else ChainEnd(ms[0].end, ms[1..])
  }

  lemma ChainCons(s: string, i: nat, m: Match, rest: seq<Match>)
    requires i < |s| && MatchAt(AnyPrefix, s, i) == None && MatchAt(AnyPrefix, s, i + 1) == Some(m)
    requires Chain(s, m.end, rest)
    ensures Chain(s, i, [m] + rest) && ChainEnd(i, [m] + rest) == ChainEnd(m.end, rest)
  {
    assert ([m] + rest)[1..] == rest;
  }

  /** The scan reads a chain of matches in order and goes on where the chain ends. */
  lemma {:induction false} ScanChain(s: string, i: nat, ms: seq<Match>)
    requires Chain(s, i, ms)
    ensures ChainEnd(i, ms) <= |s|
    ensures Bindings(ScanFrom(AnyPrefix, s, i)) == Bindings(ms) + Bindings(ScanFrom(AnyPrefix, s, ChainEnd(i, ms)))
    decreases |ms|
  {
    if ms != [] {
      var m := ms[0];
      ScanPastBlank(s, i, m);
      ScanChain(s, m.end, ms[1..]);
      assert ms == [m] + ms[1..];
      BindingsCons(m, ms[1..]);
      Regroup(Bindings(ScanFrom(AnyPrefix, s, i)), Bindings(ScanFrom(AnyPrefix, s, m.end)),
        Bindings(ms), Bindings(ScanFrom(AnyPrefix, s, ChainEnd(i, ms))));
    }
  }

  /** The matches the blank-led declarations of `bs`, written from `i`, are read as. */
  function SpacedMatches(i: nat, bs: seq<(string, string)>): seq<Match>
    decreases |bs|
  {
    if bs == [] then []
    else
      var e := i + 1 + |Declaration(bs[0])|;
      [Match(bs[0].0, bs[0].1, i + 1, e)] + SpacedMatches(e, bs[1..])
  }

  lemma {:induction false} SpacedBindings(i: nat, bs: seq<(string, string)>)
    ensures Bindings(SpacedMatches(i, bs)) == bs
    decreases |bs|
  {
    if bs != [] {
      var e := i + 1 + |Declaration(bs[0])|;
      var m := Match(bs[0].0, bs[0].1, i + 1, e);
      SpacedBindings(e, bs[1..]);
      BindingsCons(m, SpacedMatches(e, bs[1..]));
      assert bs == [bs[0]] + bs[1..];
    }
  }

  /** The blank-led declarations of `bs` stand one after the other from `i` on. */
  predicate SpacedAt(s: string, i: nat, bs: seq<(string, string)>)
    decreases |bs|
  {
    if bs == [] then i <= |s|
    else StartsAt(s, i, " " + Declaration(bs[0])) && SpacedAt(s, i + 1 + |Declaration(bs[0])|, bs[1..])
  }

  /** Where the blank-led declarations of `bs` written from `i` end. */
  function SpacedEnd(i: nat, bs: seq<(string, string)>): nat
    decreases |bs|
  {
    if bs == [] then i else SpacedEnd(i + 1 + |Declaration(bs[0])|, bs[1..])
  }

  lemma {:induction false} SpacedTextAt(s: string, i: nat, bs: seq<(string, string)>)
    requires StartsAt(s, i, Spaced(bs))
    ensures SpacedAt(s, i, bs) && SpacedEnd(i, bs) == i + |Spaced(bs)|
    decreases |bs|
  {
    if bs != [] {
      var d := Declaration(bs[0]);
      assert Spaced(bs) == " " + d + Spaced(bs[1..]);
      StartsAtSplit(s, i, " " + d, Spaced(bs[1..]));
      SpacedTextAt(s, i + 1 + |d|, bs[1..]);
    }
  }

  /** The first of the spaced declarations stands at `i`, and the others follow it. */
  lemma SpacedHead(s: string, i: nat, bs: seq<(string, string)>) returns (e: nat)
    requires Readable(bs) && bs != [] && SpacedAt(s, i, bs)
    ensures e == i + 1 + |Declaration(bs[0])|
    ensures bs[0].0 != "" && AllIn(Word, bs[0].0) && bs[0].1 != "" && AllIn(NotQuote, bs[0].1)
    ensures StartsAt(s, i, " " + Declaration(bs[0]))
    ensures Readable(bs[1..]) && SpacedAt(s, e, bs[1..]) && SpacedEnd(i, bs) == SpacedEnd(e, bs[1..])
  {
    e := i + 1 + |Declaration(bs[0])|;
  }

  /** The first spaced declaration is read as the first match of the chain, right after its blank. */
  lemma SpacedFirst(s: string, i: nat, bs: seq<(string, string)>) returns (m: Match, e: nat)
    requires Readable(bs) && bs != [] && SpacedAt(s, i, bs)
    ensures i < |s| && MatchAt(AnyPrefix, s, i) == None && MatchAt(AnyPrefix, s, i + 1) == Some(m) && m.end == e
    ensures Readable(bs[1..]) && SpacedAt(s, e, bs[1..])
    ensures SpacedMatches(i, bs) == [m] + SpacedMatches(e, bs[1..])
  {
    e := SpacedHead(s, i, bs);
    m := Match(bs[0].0, bs[0].1, i + 1, e);
    BlankThenDeclaration(s, i, bs[0]);
  }

  /** Blank-led declarations of readable bindings form a chain of matches. */
  lemma {:induction false} SpacedChain(s: string, i: nat, bs: seq<(string, string)>)
    requires Readable(bs)
    requires SpacedAt(s, i, bs)
    ensures Chain(s, i, SpacedMatches(i, bs))
    decreases |bs|
  {
    if bs != [] {
      var m, e := SpacedFirst(s, i, bs);
      SpacedChain(s, e, bs[1..]);
      ChainCons(s, i, m, SpacedMatches(e, bs[1..]));
    }
  }

  /** The chain the declarations are read as ends where the declarations do. */
  lemma {:induction false} SpacedChainEnd(i: nat, bs: seq<(string, string)>)
    ensures ChainEnd(i, SpacedMatches(i, bs)) == SpacedEnd(i, bs)
    decreases |bs|
  {
    if bs != [] {
      var e := i + 1 + |Declaration(bs[0])|;
      var m := Match(bs[0].0, bs[0].1, i + 1, e);
      SpacedChainEnd(e, bs[1..]);
      assert SpacedMatches(i, bs) == [m] + SpacedMatches(e, bs[1..]);
      assert ([m] + SpacedMatches(e, bs[1..]))[1..] == SpacedMatches(e, bs[1..]);
    }
  }

  /** Wherever the spaced declarations stand in a text, the scan reads them back in order. */
  lemma ScanSpaced(s: string, i: nat, bs: seq<(string, string)>)
    requires Readable(bs)
    requires SpacedAt(s, i, bs)
    ensures SpacedEnd(i, bs) <= |s|
    ensures Bindings(ScanFrom(AnyPrefix, s, i)) == bs + Bindings(ScanFrom(AnyPrefix, s, SpacedEnd(i, bs)))
  {
    SpacedChain(s, i, bs);
    SpacedChainEnd(i, bs);
    ScanChain(s, i, SpacedMatches(i, bs));
    SpacedBindings(i, bs);
  }

  lemma Regroup<T>(x: seq<T>, y: seq<T>, bs: seq<T>, tail: seq<T>)
    requires bs != [] && x == [bs[0]] + y && y == bs[1..] + tail
    ensures x == bs + tail
  {
    assert bs == [bs[0]] + bs[1..];
  }

  /**
   * Round trip of the head: scanning the namespace attributes it prints
   * yields exactly the bindings it was given, in the same order.
   */
  lemma AttributesReadBack(bs: seq<(string, string)>)
    requires Readable(bs)
    ensures Bindings(AllMatches(AnyPrefix, NameSpaceAttributes(bs))) == bs
  {
    var s := NameSpaceAttributes(bs);
    ImplodeSpaced(bs);
    SpacedTextAt(s, 0, bs);
    ScanSpaced(s, 0, bs);
    assert ScanFrom(AnyPrefix, s, |s|) == [];
  }

  /** The stylesheet declares the namespaces of the document it is built for. */
  ghost function XslFor(xml: string, template: string): string {
    XslText(SortedEntries(LastWins(AllMatches(AnyPrefix, xml))), template)
  }

  /** Matches whose prefix and URI a scanner can read back. */
  predicate ReadableMatches(ms: seq<Match>) {
    forall k :: 0 <= k < |ms| ==>
      ms[k].prefix != "" && AllIn(Word, ms[k].prefix) && ms[k].uri != "" && AllIn(NotQuote, ms[k].uri)
  }

  lemma ScannedReadable(xml: string)
    ensures ReadableMatches(AllMatches(AnyPrefix, xml))
  {
    var ms := AllMatches(AnyPrefix, xml);
    ScannedPrefixesAreWords(xml);
    forall k | 0 <= k < |ms|
      ensures ms[k].prefix != "" && AllIn(Word, ms[k].prefix) && ms[k].uri != "" && AllIn(NotQuote, ms[k].uri)
    {
      assert WordDeclaration(xml, ms[k]);
      var sp1, sp2 :| Shape(AnyPrefix, xml[ms[k].start..ms[k].end], ms[k].prefix, sp1, sp2, ms[k].uri);
    }
  }

  /** The sorted listing keeps only prefixes and URIs taken from the matches. */
  lemma ListingReadable(ms: seq<Match>)
    requires ReadableMatches(ms)
    ensures Readable(SortedEntries(LastWins(ms)))
  {
    var bs := SortedEntries(LastWins(ms));
    KeyedListing(ms);
    forall i | 0 <= i < |bs|
      ensures bs[i].0 != "" && AllIn(Word, bs[i].0) && bs[i].1 != "" && AllIn(NotQuote, bs[i].1)
    {
      var k :| 0 <= k < |ms| && ms[k].prefix == bs[i].0 && ms[k].uri == bs[i].1 &&
                (forall j :: k < j < |ms| ==> ms[j].prefix != bs[i].0);
    }
  }

  /**
   * The bindings the head declares are the document's own prefix listing:
   * read back, they are the scanned prefixes in ascending order, each with
   * the URI of its last declaration.
   */
  lemma ListingIsReadable(xml: string)
    ensures Readable(SortedEntries(LastWins(AllMatches(AnyPrefix, xml))))
    ensures var bs := SortedEntries(LastWins(AllMatches(AnyPrefix, xml)));
      Bindings(AllMatches(AnyPrefix, NameSpaceAttributes(bs))) == bs
  {
    ScannedReadable(xml);
    ListingReadable(AllMatches(AnyPrefix, xml));
    AttributesReadBack(SortedEntries(LastWins(AllMatches(AnyPrefix, xml))));
  }
}
