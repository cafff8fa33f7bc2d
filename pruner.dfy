/**
 * `removeUnusedNameSpaces`: for each declared prefix, in ascending order, a
 * raw substring test for `prefix:` against the text pruned so far; a prefix
 * that fails it has every `xmlns:prefix\s*=\s*"[^"]+"` cut out of the text.
 */
module Pruner {
  import opened Outcomes
  import opened Text
  import opened Patterns
  import opened NameSpaceIndex
  import Stylesheet

  /** The loop body for one prefix. */
  function PruneStep(xml: string, prefix: string): string {
    if Occurs(prefix + ":", xml) then xml else Replace(Prefix(prefix), xml)
  }

  /** The loop over `prefixes`, each tested against the text the earlier ones left. */
  function PruneAll(xml: string, prefixes: seq<string>): string
    decreases |prefixes|
  {
    if prefixes == [] then xml else PruneAll(PruneStep(xml, prefixes[0]), prefixes[1..])
  }

  /** The prefixes the loop visits: the keys of the sorted prefix listing of the input. */
  ghost function DeclaredPrefixes(xml: string): (ps: seq<string>)
    ensures Ascending(ps)
  {
    SortedKeys(LastWins(AllMatches(AnyPrefix, xml)).Keys)
  }

  /**
   * A step leaves the text alone when `prefix:` occurs in it; otherwise it
   * keeps, in order, exactly the characters that no span found by the
   * one-prefix expression covers, and each such span, read from its own
   * start, declares `prefix` itself (never a longer prefix that starts with
   * it). A span may still start inside another declaration's quoted URI:
   * see `PruneCanRebindPrefix`.
   */
  lemma PruneStepSpec(xml: string, prefix: string)
    requires prefix != "" && AllIn(Word, prefix)
    ensures Occurs(prefix + ":", xml) ==> PruneStep(xml, prefix) == xml
    ensures !Occurs(prefix + ":", xml) ==>
      PruneStep(xml, prefix) == Uncovered(xml, AllMatches(Prefix(prefix), xml), 0)
    ensures forall k :: 0 <= k < |AllMatches(Prefix(prefix), xml)| ==>
      var m := AllMatches(Prefix(prefix), xml)[k];
      m.start <= |xml| && MatchAt(AnyPrefix, xml, m.start) == Some(m) && m.prefix == prefix
  {
    ReplaceKeepsUncovered(Prefix(prefix), xml, 0);
    var ms := AllMatches(Prefix(prefix), xml);
    ScanGenuine(Prefix(prefix), xml, 0);
    forall k | 0 <= k < |ms|
      ensures ms[k].start <= |xml| && MatchAt(AnyPrefix, xml, ms[k].start) == Some(ms[k]) && ms[k].prefix == prefix
    {
      PrefixMatchesOnlyItself(xml, ms[k].start, prefix);
    }
  }

  /** A step changes the text exactly when `prefix:` is absent and some declaration of `prefix` is found. */
  lemma PruneStepChanges(xml: string, prefix: string)
    ensures PruneStep(xml, prefix) != xml <==>
      !Occurs(prefix + ":", xml) && AllMatches(Prefix(prefix), xml) != []
  {
  }

  /** Pruning only deletes: the result is never longer than the input. */
  lemma {:induction false} PruneAllShrinks(xml: string, prefixes: seq<string>)
    ensures |PruneAll(xml, prefixes)| <= |xml|
    decreases |prefixes|
  {
    if prefixes != [] {
      PruneAllShrinks(PruneStep(xml, prefixes[0]), prefixes[1..]);
    }
  }

  /** Every prefix in `prefixes` passes the substring test on `xml`. */
  predicate AllUsed(xml: string, prefixes: seq<string>) {
    forall i :: 0 <= i < |prefixes| ==> Occurs(prefixes[i] + ":", xml)
  }

  /** When every prefix passes the substring test, the text comes back unchanged. */
  lemma {:induction false} PruneAllKeepsUsed(xml: string, prefixes: seq<string>)
    requires AllUsed(xml, prefixes)
    ensures PruneAll(xml, prefixes) == xml
    decreases |prefixes|
  {
    if prefixes != [] {
      PruneAllKeepsUsed(xml, prefixes[1..]);
    }
  }

  /**
   * The substring test also sees the `xmlns:` of every declaration: a prefix
   * that is a final segment of `xmlns` (`s`, `ns`, `lns`, `mlns`, `xmlns`)
   * always passes once the text declares any prefix, so its own step never
   * prunes it, used or not (the step of another prefix can still cut into
   * its declaration, as `PruneCanRebindPrefix` shows for `pq`).
   */
  lemma XmlnsSuffixAlwaysPasses(xml: string, prefix: string)
    requires prefix in ["s", "ns", "lns", "mlns", "xmlns"]
    requires Occurs("xmlns:", xml)
    ensures PruneStep(xml, prefix) == xml
  {
    var i :| 0 <= i <= |xml| - 6 && StartsAt(xml, i, "xmlns:");
    var k := 5 - |prefix|;
    assert "xmlns:"[k..] == prefix + ":" by {
      if prefix == "s" {} else if prefix == "ns" {} else if prefix == "lns" {} else if prefix == "mlns" {}
    }
    StartsAtSplit(xml, i, "xmlns:"[..k], "xmlns:"[k..]);
  }

  /** The text `removeUnusedNameSpaces` leaves: every declared prefix, in ascending order, pruned in turn. */
  ghost function Pruned(xml: string): string {
    PruneAll(xml, DeclaredPrefixes(xml))
  }

  /**
   * The loop of `removeUnusedNameSpaces($xml)`: the prefixes come from the sorted
   * listing of the input, each is tested against the text as pruned so far,
   * and the result is never longer than the input and equals it when every
   * prefix passes the test.
   */
  method PruneUnused(xml: string) returns (r: string)
    ensures r == Pruned(xml)
    ensures |r| <= |xml|
    ensures AllUsed(xml, DeclaredPrefixes(xml)) ==> r == xml
  {
    var nameSpaces := XmlNameSpaces(xml, true);
    var prefixes := KeysOf(nameSpaces.entries);
    assert prefixes == DeclaredPrefixes(xml);
    r := xml;
    for i := 0 to |prefixes|
      invariant PruneAll(r, prefixes[i..]) == PruneAll(xml, prefixes)
    {
      assert prefixes[i..][1..] == prefixes[i + 1..];
      if Occurs(prefixes[i] + ":", r) {
        continue;
      }
      r := Replace(Prefix(prefixes[i]), r);
    }
    assert prefixes[|prefixes|..] == [];
    PruneAllShrinks(xml, prefixes);
    if AllUsed(xml, prefixes) {
      PruneAllKeepsUsed(xml, prefixes);
    }
  }

  // ---------------------------------------------------------------------
  // A declaration of `p` can be found inside another prefix's value. The
  // one-prefix expression is searched on its own, not in step with the
  // scan of all declarations, so the span it cuts out may start inside the
  // quoted URI of `pq` and end inside the real declaration of `p`.

  /** `xmlns:pq="xmlns:p=" xmlns:p="v"`: `pq` bound to `xmlns:p=`, then `p` bound to `v`. */
  const RebindingSample: string := "xmlns:pq=\"xmlns:p=\" xmlns:p=\"v\""

  /** `xmlns:pq="v"`: what the step for `p` leaves of the sample. */
  const RebindingResult: string := "xmlns:pq=\"v\""

  lemma SamplePieces()
    ensures |RebindingSample| == 31
    ensures RebindingSample[..10] == "xmlns:pq=\"" && RebindingSample[29..] == "v\""
    ensures RebindingSample[10..17] == "xmlns:p" && RebindingSample[17] == '=' && RebindingSample[18] == '"'
    ensures RebindingSample[19..28] == " xmlns:p=" && RebindingSample[28] == '"'
  {
  }

  lemma SampleMissesAtStart()
    ensures MatchAt(Prefix("p"), RebindingSample, 0).None?
  {
    assert RebindingSample[0..7] == "xmlns:p" && RebindingSample[7] == 'q';
    assert RunEnd(RebindingSample, 7, Space) == 7;
  }

  lemma SampleSkip()
    ensures FirstFrom(Prefix("p"), RebindingSample, 0) == FirstFrom(Prefix("p"), RebindingSample, 10)
  {
    SamplePieces();
    forall k | 1 <= k < 10
      ensures RebindingSample[k] != 'x'
    {
      assert RebindingSample[k] == RebindingSample[..10][k];
    }
    SampleMissesAtStart();
    SkipWithoutX("p", RebindingSample, 1, 10);
  }

  lemma SampleHit()
    ensures FirstFrom(Prefix("p"), RebindingSample, 10) == Some(Match("p", " xmlns:p=", 10, 29))
  {
    SamplePieces();
    assert StartsAt(RebindingSample, 10, "xmlns:" + "p");
    RunOf(RebindingSample, 17, [], Space);
    RunOf(RebindingSample, 18, [], Space);
    RunOf(RebindingSample, 19, " xmlns:p=", NotQuote);
    TailOfRuns(RebindingSample, 17, 17, 18, 28);
    MatchOfParts(Prefix("p"), RebindingSample, 10, "p", 17, " xmlns:p=", 29);
  }

  lemma SampleTail()
    ensures FirstFrom(Prefix("p"), RebindingSample, 29).None?
  {
    SamplePieces();
    MissWithoutX("p", RebindingSample, 29);
    MissWithoutX("p", RebindingSample, 30);
  }

  lemma SampleHasNoPrefixColon()
    ensures !Occurs("p:", RebindingSample)
  {
    forall i | 0 <= i <= |RebindingSample| - 2
      ensures !StartsAt(RebindingSample, i, "p:")
    {
      assert RebindingSample[i..i + 2][0] == RebindingSample[i];
      assert RebindingSample[i..i + 2][1] == RebindingSample[i + 1];
    }
  }

  lemma SampleReplaced()
    ensures Replace(Prefix("p"), RebindingSample) == RebindingResult
  {
    SampleSkip();
    SampleHit();
    SampleTail();
    ReplaceOne(Prefix("p"), RebindingSample, Match("p", " xmlns:p=", 10, 29));
    SamplePieces();
  }

  lemma SampleDeclarationText()
    ensures StartsAt(RebindingSample, 0, Stylesheet.Declaration(("pq", "xmlns:p=")))
    ensures StartsAt(RebindingResult, 0, Stylesheet.Declaration(("pq", "v")))
  {
    assert Stylesheet.Declaration(("pq", "xmlns:p=")) == "xmlns:pq=\"xmlns:p=\"";
    assert RebindingSample[0..19] == "xmlns:pq=\"xmlns:p=\"";
    assert Stylesheet.Declaration(("pq", "v")) == RebindingResult;
  }

  lemma SampleDeclarations()
    ensures MatchAt(AnyPrefix, RebindingSample, 0) == Some(Match("pq", "xmlns:p=", 0, 19))
    ensures MatchAt(AnyPrefix, RebindingResult, 0) == Some(Match("pq", "v", 0, 12))
  {
    SampleDeclarationText();
    Stylesheet.DeclarationMatches(RebindingSample, 0, ("pq", "xmlns:p="));
    Stylesheet.DeclarationMatches(RebindingResult, 0, ("pq", "v"));
  }

  /**
   * The step for an unused prefix can rebind a used one: in the sample,
   * `pq` is declared with the URI `xmlns:p=` and `p:` occurs nowhere, yet
   * the step for `p` cuts from inside that URI to the end of the URI of
   * `p`, and what is left declares `pq` with the URI `v`.
   */
  lemma PruneCanRebindPrefix()
    ensures MatchAt(AnyPrefix, RebindingSample, 0) == Some(Match("pq", "xmlns:p=", 0, 19))
    ensures !Occurs("p:", RebindingSample)
    ensures PruneStep(RebindingSample, "p") == RebindingResult
    ensures MatchAt(AnyPrefix, RebindingResult, 0) == Some(Match("pq", "v", 0, 12))
  {
    SampleHasNoPrefixColon();
    assert "p" + ":" == "p:";
    SampleReplaced();
    SampleDeclarations();
  }
}
