/**
 * The three regular expressions the cleaner applies to raw XML text, written
 * out as deterministic scanners:
 *
 *   any prefixed declaration    xmlns:(\w+)\s*=\s*"([^"]+)"
 *   the default declaration     xmlns\s*=\s*"([^"]+)"
 *   declarations of prefix P    xmlns:P\s*=\s*"[^"]+"
 *
 * None of them needs backtracking: `\w+` can only end where `\s*=` starts,
 * `\s*` only where `=` or `"` follows, and `[^"]+` only at a `"`. On top of
 * the matcher at one position sit the three PCRE entry points the cleaner
 * uses: `preg_match` (the leftmost match), `preg_match_all` (the leftmost
 * non-overlapping matches, left to right) and `preg_replace` with an empty
 * replacement (those matches cut out).
 */
module Patterns {
  import opened Outcomes
  import opened Text

  /** PCRE `\w` outside Unicode mode. */
  predicate IsWordChar(c: char) {
    ('a' <= c <= 'z') || ('A' <= c <= 'Z') || ('0' <= c <= '9') || c == '_'
  }

  /** PCRE `\s`: space, tab, line feed, vertical tab, form feed, carriage return. */
  predicate IsSpaceChar(c: char) {
    c == ' ' || c == '\t' || c == '\n' || c == '\U{000B}' || c == '\U{000C}' || c == '\r'
  }

  /** The character classes a run can be made of. */
  datatype CharClass = Word | Space | NotQuote {
    predicate Has(c: char) {
      match this
      case Word => IsWordChar(c)
      case Space => IsSpaceChar(c)
      case NotQuote => c != '"'
    }
  }

  predicate AllIn(cls: CharClass, s: string) {
    forall i :: 0 <= i < |s| ==> cls.Has(s[i])
  }

  /** End of the longest run of `cls` characters that starts at `i`. */
  function RunEnd(s: string, i: nat, cls: CharClass): (e: nat)
    requires i <= |s|
    ensures i <= e <= |s|
    ensures e == |s| || !cls.Has(s[e])
    decreases |s| - i
  {
    if i < |s| && cls.Has(s[i]) then RunEnd(s, i + 1, cls) else i
  }

  /** Which of the three expressions is being matched. */
  datatype Pattern =
    | AnyPrefix          // xmlns:(\w+)\s*=\s*"([^"]+)"
    | Default            // xmlns\s*=\s*"([^"]+)"
    | Prefix(p: string)  // xmlns:P\s*=\s*"[^"]+" for a \w+ prefix P

  /** One match: the prefix it declares ("" for the default namespace), the quoted URI, and its span. */
  datatype Match = Match(prefix: string, uri: string, start: nat, end: nat)

  /** `\s*=\s*"([^"]+)"` at `k`: the quoted value and the end of the match. */
  function TailAt(s: string, k: nat): Option<(string, nat)>
    requires k <= |s|
  {
    var e := RunEnd(s, k, Space);
    if e < |s| && s[e] == '=' then
      var q := RunEnd(s, e + 1, Space);
      if q < |s| && s[q] == '"' then
        var v := RunEnd(s, q + 1, NotQuote);
        if q + 1 < v < |s| then Some((s[q + 1..v], v + 1)) else None
      else None
    else None
  }

  /**
   * What the expression matches before `\s*=` at `i`: the prefix it captures
   * ("" for the default namespace) and where the rest must start.
   */
  function LeadAt(pat: Pattern, s: string, i: nat): (r: Option<(string, nat)>)
    requires i <= |s|
    ensures r.Some? ==> i < r.value.1 <= |s|
  {
    match pat
    case Default =>
      if StartsAt(s, i, "xmlns") then Some(("", i + 5)) else None
    case AnyPrefix =>
      if StartsAt(s, i, "xmlns:") then
        var w := RunEnd(s, i + 6, Word);
        if w == i + 6 then None else Some((s[i + 6..w], w))
      else None
    case Prefix(p) =>
      if StartsAt(s, i, "xmlns:" + p) then Some((p, i + 6 + |p|)) else None
  }

  /** The match of `pat` that starts exactly at `i`, if any. */
  function MatchAt(pat: Pattern, s: string, i: nat): (r: Option<Match>)
    requires i <= |s|
    ensures r.Some? ==> r.value.start == i < r.value.end <= |s|
  {
    match LeadAt(pat, s, i)
    case None => None
    case Some((prefix, k)) =>
      match TailAt(s, k)
      case None => None
      case Some((uri, e)) => Some(Match(prefix, uri, i, e))
  }

  // ---------------------------------------------------------------------
  // The text a match covers, stated declaratively.

  /** What precedes `\s*=` in the expression, for a match declaring `prefix`. */
  function Lead(pat: Pattern, prefix: string): string {
    if pat.Default? then "xmlns" else "xmlns:" + prefix
  }

  /** `prefix` is a prefix the expression can capture. */
  predicate Fits(pat: Pattern, prefix: string) {
    match pat
    case Default => prefix == ""
    case AnyPrefix => prefix != "" && AllIn(Word, prefix)
    case Prefix(p) => prefix == p
  }

  /** `t` is a text the expression matches in full, split into its parts. */
  predicate Shape(pat: Pattern, t: string, prefix: string, sp1: string, sp2: string, uri: string) {
    && Fits(pat, prefix)
    && AllIn(Space, sp1) && AllIn(Space, sp2)
    && uri != "" && AllIn(NotQuote, uri)
    && t == Lead(pat, prefix) + TailText(sp1, sp2, uri)
  }

  lemma StartsAtSplit(s: string, i: nat, a: string, b: string)
    requires StartsAt(s, i, a + b)
    ensures StartsAt(s, i, a) && StartsAt(s, i + |a|, b)
  {
    assert s[i..i + |a|] == s[i..i + |a + b|][..|a|];
    assert s[i + |a|..i + |a| + |b|] == s[i..i + |a + b|][|a|..];
  }

  lemma StartsAtJoin(s: string, i: nat, a: string, b: string)
    requires StartsAt(s, i, a) && StartsAt(s, i + |a|, b)
    ensures StartsAt(s, i, a + b)
  {
    assert s[i..i + |a + b|] == s[i..i + |a|] + s[i + |a|..i + |a| + |b|];
  }

  /** A run of `cls` characters followed by a character outside `cls` is the longest run. */
  lemma {:induction false} RunOf(s: string, i: nat, t: string, cls: CharClass)
    requires StartsAt(s, i, t) && AllIn(cls, t)
    requires i + |t| == |s| || !cls.Has(s[i + |t|])
    ensures RunEnd(s, i, cls) == i + |t|
    decreases |t|
  {
    if t != [] {
      assert t == [t[0]] + t[1..];
      StartsAtSplit(s, i, [t[0]], t[1..]);
      CharAt(s, i, t[0]);
      RunOf(s, i + 1, t[1..], cls);
    }
  }

  /** The text `\s*=\s*"([^"]+)"` matches, split into its parts. */
  function TailText(sp1: string, sp2: string, uri: string): string {
    sp1 + "=" + sp2 + "\"" + uri + "\""
  }

  lemma CharAt(s: string, i: nat, c: char)
    requires StartsAt(s, i, [c])
    ensures i < |s| && s[i] == c
  {
    assert s[i..i + 1][0] == c;
  }

  lemma CharStarts(s: string, i: nat)
    requires i < |s|
    ensures StartsAt(s, i, [s[i]])
  {
  }

  lemma {:induction false} RunChars(s: string, i: nat, cls: CharClass)
    requires i <= |s|
    ensures forall j :: i <= j < RunEnd(s, i, cls) ==> cls.Has(s[j])
    decreases |s| - i
  {
    if i < |s| && cls.Has(s[i]) {
      RunChars(s, i + 1, cls);
    }
  }

  /** A run's characters all belong to its class. */
  lemma RunIn(s: string, i: nat, cls: CharClass)
    requires i <= |s|
    ensures AllIn(cls, s[i..RunEnd(s, i, cls)])
  {
    RunChars(s, i, cls);
    var e := RunEnd(s, i, cls);
    assert forall j :: 0 <= j < e - i ==> s[i..e][j] == s[i + j];
  }

  /** The pieces of a tail text found in `s`. */
  lemma TailParts(s: string, k: nat, sp1: string, sp2: string, uri: string)
    requires StartsAt(s, k, TailText(sp1, sp2, uri))
    ensures StartsAt(s, k, sp1)
    ensures k + |sp1| < |s| && s[k + |sp1|] == '='
    ensures StartsAt(s, k + |sp1| + 1, sp2)
    ensures k + |sp1| + 1 + |sp2| < |s| && s[k + |sp1| + 1 + |sp2|] == '"'
    ensures StartsAt(s, k + |sp1| + |sp2| + 2, uri)
    ensures k + |sp1| + |sp2| + 2 + |uri| < |s| && s[k + |sp1| + |sp2| + 2 + |uri|] == '"'
  {
    StartsAtSplit(s, k, sp1 + "=" + sp2 + "\"" + uri, "\"");
    StartsAtSplit(s, k, sp1 + "=" + sp2 + "\"", uri);
    StartsAtSplit(s, k, sp1 + "=" + sp2, "\"");
    StartsAtSplit(s, k, sp1 + "=", sp2);
    StartsAtSplit(s, k, sp1, "=");
    CharAt(s, k + |sp1|, '=');
    CharAt(s, k + |sp1| + 1 + |sp2|, '"');
    CharAt(s, k + |sp1| + |sp2| + 2 + |uri|, '"');
  }

  lemma TailComplete(s: string, k: nat, sp1: string, sp2: string, uri: string)
    requires AllIn(Space, sp1) && AllIn(Space, sp2) && uri != "" && AllIn(NotQuote, uri)
    requires StartsAt(s, k, TailText(sp1, sp2, uri))
    ensures TailAt(s, k) == Some((uri, k + |TailText(sp1, sp2, uri)|))
  {
    TailParts(s, k, sp1, sp2, uri);
    var e := k + |sp1|;
    var q := e + 1 + |sp2|;
    var v := q + 1 + |uri|;
    RunOf(s, k, sp1, Space);
    RunOf(s, e + 1, sp2, Space);
    RunOf(s, q + 1, uri, NotQuote);
    TailOfRuns(s, k, e, q, v);
    assert s[q + 1..v] == uri;
    assert |TailText(sp1, sp2, uri)| == |sp1| + |sp2| + |uri| + 3;
  }

  /** The tail scanner, given where its three runs end. */
  lemma TailOfRuns(s: string, k: nat, e: nat, q: nat, v: nat)
    requires k <= e < q < v < |s|
    requires RunEnd(s, k, Space) == e && s[e] == '='
    requires RunEnd(s, e + 1, Space) == q && s[q] == '"'
    requires RunEnd(s, q + 1, NotQuote) == v && q + 1 < v
    ensures TailAt(s, k) == Some((s[q + 1..v], v + 1))
  {
  }

  /** The pieces of a tail text, found one after another in `s`, make up the tail text. */
  lemma TailJoin(s: string, k: nat, sp1: string, sp2: string, uri: string)
    requires StartsAt(s, k, sp1)
    requires k + |sp1| < |s| && s[k + |sp1|] == '='
    requires StartsAt(s, k + |sp1| + 1, sp2)
    requires k + |sp1| + 1 + |sp2| < |s| && s[k + |sp1| + 1 + |sp2|] == '"'
    requires StartsAt(s, k + |sp1| + |sp2| + 2, uri)
    requires k + |sp1| + |sp2| + 2 + |uri| < |s| && s[k + |sp1| + |sp2| + 2 + |uri|] == '"'
    ensures StartsAt(s, k, TailText(sp1, sp2, uri))
  {
    CharStarts(s, k + |sp1|);
    CharStarts(s, k + |sp1| + 1 + |sp2|);
    CharStarts(s, k + |sp1| + |sp2| + 2 + |uri|);
    StartsAtJoin(s, k, sp1, "=");
    StartsAtJoin(s, k, sp1 + "=", sp2);
    StartsAtJoin(s, k, sp1 + "=" + sp2, "\"");
    StartsAtJoin(s, k, sp1 + "=" + sp2 + "\"", uri);
    StartsAtJoin(s, k, sp1 + "=" + sp2 + "\"" + uri, "\"");
  }

  /** What the tail scanner reads is a tail text: the blanks it skipped, `=`, and the quoted value. */
  lemma TailSound(s: string, k: nat) returns (sp1: string, sp2: string)
    requires k <= |s| && TailAt(s, k).Some?
    ensures var (uri, e) := TailAt(s, k).value;
      AllIn(Space, sp1) && AllIn(Space, sp2) && uri != "" && AllIn(NotQuote, uri) &&
      StartsAt(s, k, TailText(sp1, sp2, uri)) && e == k + |TailText(sp1, sp2, uri)|
  {
    var e := RunEnd(s, k, Space);
    var q := RunEnd(s, e + 1, Space);
    var v := RunEnd(s, q + 1, NotQuote);
    var uri := s[q + 1..v];
    assert TailAt(s, k) == Some((uri, v + 1));
    sp1, sp2 := s[k..e], s[e + 1..q];
    RunIn(s, k, Space);
    RunIn(s, e + 1, Space);
    RunIn(s, q + 1, NotQuote);
    TailJoin(s, k, sp1, sp2, uri);
    assert |TailText(sp1, sp2, uri)| == |sp1| + |sp2| + |uri| + 3;
  }

  lemma LeadSound(pat: Pattern, s: string, i: nat)
    requires i <= |s| && LeadAt(pat, s, i).Some?
    ensures var (prefix, k) := LeadAt(pat, s, i).value;
      Fits(pat, prefix) && StartsAt(s, i, Lead(pat, prefix)) && k == i + |Lead(pat, prefix)|
  {
    if pat.AnyPrefix? {
      var w := RunEnd(s, i + 6, Word);
      RunIn(s, i + 6, Word);
      StartsAtJoin(s, i, "xmlns:", s[i + 6..w]);
    }
  }

  lemma LeadComplete(pat: Pattern, s: string, i: nat, prefix: string)
    requires Fits(pat, prefix) && StartsAt(s, i, Lead(pat, prefix))
    requires i + |Lead(pat, prefix)| < |s| && !IsWordChar(s[i + |Lead(pat, prefix)|])
    ensures LeadAt(pat, s, i) == Some((prefix, i + |Lead(pat, prefix)|))
  {
    if pat.AnyPrefix? {
      StartsAtSplit(s, i, "xmlns:", prefix);
      RunOf(s, i + 6, prefix, Word);
    }
  }

  /** Every match covers a text the expression matches, and declares what that text says. */
  lemma MatchSound(pat: Pattern, s: string, i: nat) returns (sp1: string, sp2: string)
    requires i <= |s| && MatchAt(pat, s, i).Some?
    ensures var m := MatchAt(pat, s, i).value;
      Shape(pat, s[i..m.end], m.prefix, sp1, sp2, m.uri)
  {
    var (prefix, k) := LeadAt(pat, s, i).value;
    var (uri, e) := TailAt(s, k).value;
    assert MatchAt(pat, s, i) == Some(Match(prefix, uri, i, e));
    LeadSound(pat, s, i);
    sp1, sp2 := TailSound(s, k);
    var lead, tail := Lead(pat, prefix), TailText(sp1, sp2, uri);
    StartsAtJoin(s, i, lead, tail);
    assert s[i..e] == lead + tail;
    assert Shape(pat, s[i..e], prefix, sp1, sp2, uri);
  }

  /** Wherever a text the expression matches begins, the matcher finds exactly it. */
  lemma MatchComplete(pat: Pattern, s: string, i: nat, t: string, prefix: string, sp1: string, sp2: string, uri: string)
    requires Shape(pat, t, prefix, sp1, sp2, uri)
    requires StartsAt(s, i, t)
    ensures MatchAt(pat, s, i) == Some(Match(prefix, uri, i, i + |t|))
  {
    var lead := Lead(pat, prefix);
    var tail := TailText(sp1, sp2, uri);
    StartsAtSplit(s, i, lead, tail);
    var k := i + |lead|;
    TailStartsWithNoWord(s, k, sp1, sp2, uri);
    LeadComplete(pat, s, i, prefix);
    TailComplete(s, k, sp1, sp2, uri);
    MatchOfParts(pat, s, i, prefix, k, uri, k + |tail|);
  }

  /** A lead and a tail found one after the other make a match. */
  lemma MatchOfParts(pat: Pattern, s: string, i: nat, prefix: string, k: nat, uri: string, e: nat)
    requires i <= |s| && k <= |s|
    requires LeadAt(pat, s, i) == Some((prefix, k)) && TailAt(s, k) == Some((uri, e))
    ensures MatchAt(pat, s, i) == Some(Match(prefix, uri, i, e))
  {
  }

  /** A tail text begins with a blank or `=`, never with a `\w` character. */
  lemma TailStartsWithNoWord(s: string, k: nat, sp1: string, sp2: string, uri: string)
    requires AllIn(Space, sp1)
    requires StartsAt(s, k, TailText(sp1, sp2, uri))
    ensures k < |s| && !IsWordChar(s[k])
  {
    TailParts(s, k, sp1, sp2, uri);
    if sp1 != [] {
      assert s[k] == sp1[0] by { assert s[k..k + |sp1|][0] == sp1[0]; }
    }
  }

  /** A prefixed declaration never matches the default-namespace expression: `:` is neither `\s` nor `=`. */
  lemma DefaultSkipsPrefixed(s: string, i: nat)
    requires StartsAt(s, i, "xmlns:")
    ensures MatchAt(Default, s, i) == None
  {
    StartsAtSplit(s, i, "xmlns", ":");
    CharAt(s, i + 5, ':');
    assert RunEnd(s, i + 5, Space) == i + 5;
  }

  /** A tail starts with a blank or with `=`, never with a word character. */
  lemma TailHeadNotWord(s: string, k: nat)
    requires k <= |s| && TailAt(s, k).Some?
    ensures k < |s| && !IsWordChar(s[k])
  {
    if RunEnd(s, k, Space) != k {
      RunChars(s, k, Space);
    }
  }

  /** Two expressions that read the same lead at `i` match the same text there. */
  lemma SameLeadSameMatch(pat1: Pattern, pat2: Pattern, s: string, i: nat)
    requires i <= |s| && LeadAt(pat1, s, i) == LeadAt(pat2, s, i)
    ensures MatchAt(pat1, s, i) == MatchAt(pat2, s, i)
  {
  }

  lemma PrefixMatchIsPrefixedMatch(s: string, i: nat, p: string)
    requires i <= |s| && p != "" && AllIn(Word, p) && MatchAt(Prefix(p), s, i).Some?
    ensures MatchAt(Prefix(p), s, i) == MatchAt(AnyPrefix, s, i)
  {
    var k := i + 6 + |p|;
    assert LeadAt(Prefix(p), s, i) == Some((p, k));
    TailHeadNotWord(s, k);
    StartsAtSplit(s, i, "xmlns:", p);
    RunOf(s, i + 6, p, Word);
    assert s[i + 6..k] == p;
    assert LeadAt(AnyPrefix, s, i) == Some((p, k));
    SameLeadSameMatch(Prefix(p), AnyPrefix, s, i);
  }

  lemma PrefixedMatchIsPrefixMatch(s: string, i: nat, p: string)
    requires i <= |s| && MatchAt(AnyPrefix, s, i).Some? && MatchAt(AnyPrefix, s, i).value.prefix == p
    ensures MatchAt(Prefix(p), s, i) == MatchAt(AnyPrefix, s, i)
  {
    var w := RunEnd(s, i + 6, Word);
    assert LeadAt(AnyPrefix, s, i) == Some((s[i + 6..w], w));
    assert p == s[i + 6..w];
    StartsAtJoin(s, i, "xmlns:", p);
    assert LeadAt(Prefix(p), s, i) == Some((p, w));
    SameLeadSameMatch(AnyPrefix, Prefix(p), s, i);
  }

  /**
   * For a `\w+` prefix `p`, the expression for `p` matches exactly where the
   * general prefixed expression matches and captures `p`, and covers the same
   * text: a declaration of a longer prefix such as `pq` is not one of `p`.
   */
  lemma PrefixMatchesOnlyItself(s: string, i: nat, p: string)
    requires i <= |s| && p != "" && AllIn(Word, p)
    ensures MatchAt(Prefix(p), s, i).Some? <==>
      MatchAt(AnyPrefix, s, i).Some? && MatchAt(AnyPrefix, s, i).value.prefix == p
    ensures MatchAt(Prefix(p), s, i).Some? ==> MatchAt(Prefix(p), s, i) == MatchAt(AnyPrefix, s, i)
  {
    if MatchAt(Prefix(p), s, i).Some? {
      PrefixMatchIsPrefixedMatch(s, i, p);
    }
    if MatchAt(AnyPrefix, s, i).Some? && MatchAt(AnyPrefix, s, i).value.prefix == p {
      PrefixedMatchIsPrefixMatch(s, i, p);
    }
  }

  // ---------------------------------------------------------------------
  // Scanning the whole text.

  /** `preg_match` from `i`: the leftmost match at or after `i`. */
  function FirstFrom(pat: Pattern, s: string, i: nat): (r: Option<Match>)
    requires i <= |s|
    ensures r.Some? ==> i <= r.value.start <= |s| && MatchAt(pat, s, r.value.start) == r
    decreases |s| - i
  {
    var m := MatchAt(pat, s, i);
    if m.Some? || i == |s| then m else FirstFrom(pat, s, i + 1)
  }

  /** The match found is the leftmost: nothing matches between `i` and its start, nor anywhere when none is found. */
  lemma {:induction false} FirstIsLeftmost(pat: Pattern, s: string, i: nat)
    requires i <= |s|
    ensures var r := FirstFrom(pat, s, i);
      && (r.Some? ==> forall j :: i <= j < r.value.start ==> MatchAt(pat, s, j).None?)
      && (r.None? ==> forall j :: i <= j <= |s| ==> MatchAt(pat, s, j).None?)
  {
    FirstNoEarlier(pat, s, i);
    var r := FirstFrom(pat, s, i);
    NoMatchBetween(pat, s, i, if r.Some? then r.value.start else |s| + 1);
  }

  /** No match of `pat` starts at any position from `a` up to, not including, `b`. */
  predicate NoMatchFrom(pat: Pattern, s: string, a: nat, b: nat)
    requires b <= |s| + 1
    decreases b - a
  {
    a >= b || (MatchAt(pat, s, a).None? && NoMatchFrom(pat, s, a + 1, b))
  }

  lemma {:induction false} FirstNoEarlier(pat: Pattern, s: string, i: nat)
    requires i <= |s|
    ensures var r := FirstFrom(pat, s, i);
      NoMatchFrom(pat, s, i, if r.Some? then r.value.start else |s| + 1)
    decreases |s| - i
  {
    if MatchAt(pat, s, i).None? && i < |s| {
      FirstNoEarlier(pat, s, i + 1);
      assert FirstFrom(pat, s, i) == FirstFrom(pat, s, i + 1);
    }
  }

  lemma {:induction false} NoMatchBetween(pat: Pattern, s: string, a: nat, b: nat)
    requires b <= |s| + 1 && NoMatchFrom(pat, s, a, b)
    ensures forall j :: a <= j < b ==> MatchAt(pat, s, j).None?
    decreases b - a
  {
    if a < b {
      NoMatchBetween(pat, s, a + 1, b);
    }
  }

  /** `match` covers position `j`. */
  predicate Covers(m: Match, j: int) {
    m.start <= j < m.end
  }

  /** Some match in `ms` covers position `j`. */
  predicate Covered(ms: seq<Match>, j: int)
    decreases |ms|
  {
    ms != [] && (Covers(ms[0], j) || Covered(ms[1..], j))
  }

  lemma {:induction false} NotCoveredBefore(ms: seq<Match>, j: int)
    requires forall k :: 0 <= k < |ms| ==> j < ms[k].start
    ensures !Covered(ms, j)
    decreases |ms|
  {
    if ms != [] {
      NotCoveredBefore(ms[1..], j);
    }
  }

  /** `preg_match_all` from `i`: the leftmost match, then the leftmost match after its end, and so on. */
  function ScanFrom(pat: Pattern, s: string, i: nat): seq<Match>
    requires i <= |s|
    decreases |s| - i
  {
    match FirstFrom(pat, s, i)
    case None => []
    case Some(m) => [m] + ScanFrom(pat, s, m.end)
  }

  /** Every match in `ms` is a genuine match of `pat` at or after `i`. */
  predicate Genuine(pat: Pattern, s: string, i: nat, ms: seq<Match>) {
    forall k :: 0 <= k < |ms| ==> i <= ms[k].start <= |s| && MatchAt(pat, s, ms[k].start) == Some(ms[k])
  }

  /** The matches in `ms` follow each other without overlapping. */
  predicate Ordered(ms: seq<Match>) {
    forall k :: 0 <= k < |ms| - 1 ==> ms[k].end <= ms[k + 1].start
  }

  /** Every position from `i` on where a match could begin lies inside a match of `ms`. */
  predicate Exhaustive(pat: Pattern, s: string, i: nat, ms: seq<Match>) {
    forall j :: i <= j <= |s| && MatchAt(pat, s, j).Some? ==> Covered(ms, j)
  }

  lemma {:induction false} ScanGenuine(pat: Pattern, s: string, i: nat)
    requires i <= |s|
    ensures Genuine(pat, s, i, ScanFrom(pat, s, i))
    decreases |s| - i
  {
    var f := FirstFrom(pat, s, i);
    if f.Some? {
      var m := f.value;
      ScanGenuine(pat, s, m.end);
      var rest := ScanFrom(pat, s, m.end);
      var ms := [m] + rest;
      assert ScanFrom(pat, s, i) == ms;
      forall k | 0 <= k < |ms| ensures i <= ms[k].start <= |s| && MatchAt(pat, s, ms[k].start) == Some(ms[k]) {
        if k > 0 {
          assert ms[k] == rest[k - 1];
        }
      }
    }
  }

  lemma {:induction false} ScanOrdered(pat: Pattern, s: string, i: nat)
    requires i <= |s|
    ensures Ordered(ScanFrom(pat, s, i))
    decreases |s| - i
  {
    var f := FirstFrom(pat, s, i);
    if f.Some? {
      var m := f.value;
      ScanOrdered(pat, s, m.end);
      var rest := ScanFrom(pat, s, m.end);
      assert rest != [] ==> m.end <= rest[0].start by {
        var g := FirstFrom(pat, s, m.end);
        if g.Some? {
          assert rest[0] == g.value;
        }
      }
      var ms := [m] + rest;
      assert ScanFrom(pat, s, i) == ms;
      forall k | 0 <= k < |ms| - 1 ensures ms[k].end <= ms[k + 1].start {
        assert ms[k + 1] == rest[k];
        if k > 0 {
          assert ms[k] == rest[k - 1];
        }
      }
    }
  }

  lemma {:induction false} ScanExhaustive(pat: Pattern, s: string, i: nat)
    requires i <= |s|
    ensures Exhaustive(pat, s, i, ScanFrom(pat, s, i))
    decreases |s| - i
  {
    var f := FirstFrom(pat, s, i);
    FirstIsLeftmost(pat, s, i);
    if f.Some? {
      var m := f.value;
      ScanExhaustive(pat, s, m.end);
      var rest := ScanFrom(pat, s, m.end);
      var ms := [m] + rest;
      assert ms[1..] == rest;
      forall j | i <= j <= |s| && MatchAt(pat, s, j).Some? ensures Covered(ms, j) {
        if j >= m.end {
          assert Covered(rest, j);
        }
      }
    }
  }

  /**
   * The scanned matches are genuine, in order, do not overlap, and every
   * position where a match could begin lies inside one of them: nothing is
   * skipped except what an earlier match consumed.
   */
  lemma ScanSpec(pat: Pattern, s: string, i: nat)
    requires i <= |s|
    ensures var ms := ScanFrom(pat, s, i);
      Genuine(pat, s, i, ms) && Ordered(ms) && Exhaustive(pat, s, i, ms)
  {
    ScanGenuine(pat, s, i);
    ScanOrdered(pat, s, i);
    ScanExhaustive(pat, s, i);
  }

  /** A position with no match just before a match: the scan from there starts with that match. */
  lemma ScanStep(pat: Pattern, s: string, i: nat, m: Match)
    requires i < |s|
    requires MatchAt(pat, s, i) == None && MatchAt(pat, s, i + 1) == Some(m)
    ensures ScanFrom(pat, s, i) == [m] + ScanFrom(pat, s, m.end)
  {
    assert FirstFrom(pat, s, i + 1) == Some(m);
    assert FirstFrom(pat, s, i) == Some(m);
  }

  /** `preg_replace` with an empty replacement, from `i`: the text with every scanned match cut out. */
  function ReplaceFrom(pat: Pattern, s: string, i: nat): (r: string)
    requires i <= |s|
    ensures |r| <= |s| - i
    ensures r == s[i..] <==> ScanFrom(pat, s, i) == []
    decreases |s| - i
  {
    match FirstFrom(pat, s, i)
    case None => s[i..]
    case Some(m) => s[i..m.start] + ReplaceFrom(pat, s, m.end)
  }

  /** The leftmost match in `s` (`preg_match`). */
  function FirstMatch(pat: Pattern, s: string): Option<Match> {
    FirstFrom(pat, s, 0)
  }

  /** All matches in `s` (`preg_match_all`). */
  function AllMatches(pat: Pattern, s: string): seq<Match> {
    ScanFrom(pat, s, 0)
  }

  /** `s` with every match cut out (`preg_replace($regex, '', $s)`). */
  function Replace(pat: Pattern, s: string): string {
    ReplaceFrom(pat, s, 0)
  }

  /** The one-prefix expression cannot match where the text does not have an `x`. */
  lemma MissWithoutX(p: string, s: string, i: nat)
    requires i < |s| && s[i] != 'x'
    ensures MatchAt(Prefix(p), s, i).None?
  {
  }

  /** The search for the one-prefix expression passes over a stretch without an `x`. */
  lemma {:induction false} SkipWithoutX(p: string, s: string, i: nat, j: nat)
    requires i <= j < |s|
    requires forall k :: i <= k < j ==> s[k] != 'x'
    ensures FirstFrom(Prefix(p), s, i) == FirstFrom(Prefix(p), s, j)
    decreases j - i
  {
    if i < j {
      MissWithoutX(p, s, i);
      SkipWithoutX(p, s, i + 1, j);
    }
  }

  /** A text with exactly one match loses just that match's span. */
  lemma ReplaceOne(pat: Pattern, s: string, m: Match)
    requires FirstFrom(pat, s, 0) == Some(m) && FirstFrom(pat, s, m.end).None?
    ensures Replace(pat, s) == s[..m.start] + s[m.end..]
  {
    assert ReplaceFrom(pat, s, m.end) == s[m.end..];
  }

  // ---------------------------------------------------------------------
  // What `preg_replace` keeps, stated position by position.


  /** The characters of `s` from `i` on that no match in `ms` covers, in order. */
  ghost function Uncovered(s: string, ms: seq<Match>, i: nat): string
    requires i <= |s|
    decreases |s| - i
  {
    if i == |s| then ""
    else (if Covered(ms, i) then "" else [s[i]]) + Uncovered(s, ms, i + 1)
  }

  lemma {:induction false} UncoveredPlain(s: string, ms: seq<Match>, i: nat, e: nat)
    requires i <= e <= |s|
    requires forall j :: i <= j < e ==> !Covered(ms, j)
    ensures Uncovered(s, ms, i) == s[i..e] + Uncovered(s, ms, e)
    decreases e - i
  {
    if i < e {
      UncoveredPlain(s, ms, i + 1, e);
      calc {
        Uncovered(s, ms, i);
        [s[i]] + Uncovered(s, ms, i + 1);
        [s[i]] + (s[i + 1..e] + Uncovered(s, ms, e));
        ([s[i]] + s[i + 1..e]) + Uncovered(s, ms, e);
        { assert [s[i]] + s[i + 1..e] == s[i..e]; }
        s[i..e] + Uncovered(s, ms, e);
      }
    }
  }

  lemma {:induction false} UncoveredSkip(s: string, ms: seq<Match>, i: nat, e: nat)
    requires i <= e <= |s|
    requires forall j :: i <= j < e ==> Covered(ms, j)
    ensures Uncovered(s, ms, i) == Uncovered(s, ms, e)
    decreases e - i
  {
    if i < e {
      UncoveredSkip(s, ms, i + 1, e);
    }
  }

  lemma {:induction false} UncoveredAgree(s: string, ms1: seq<Match>, ms2: seq<Match>, i: nat)
    requires i <= |s|
    requires forall j :: i <= j < |s| ==> (Covered(ms1, j) <==> Covered(ms2, j))
    ensures Uncovered(s, ms1, i) == Uncovered(s, ms2, i)
    decreases |s| - i
  {
    if i < |s| {
      UncoveredAgree(s, ms1, ms2, i + 1);
    }
  }

  /**
   * `preg_replace` removes exactly the characters the scanned matches cover
   * and keeps every other character, in order.
   */
  lemma {:induction false} ReplaceKeepsUncovered(pat: Pattern, s: string, i: nat)
    requires i <= |s|
    ensures ReplaceFrom(pat, s, i) == Uncovered(s, ScanFrom(pat, s, i), i)
    decreases |s| - i
  {
    var ms := ScanFrom(pat, s, i);
    match FirstFrom(pat, s, i)
    case None =>
      assert ms == [];
      UncoveredPlain(s, ms, i, |s|);
    case Some(m) =>
      var rest := ScanFrom(pat, s, m.end);
      assert ms == [m] + rest && ms[1..] == rest;
      ReplaceKeepsUncovered(pat, s, m.end);
      ScanSpec(pat, s, m.end);
      forall j | i <= j < m.start ensures !Covered(ms, j) {
        NotCoveredBefore(rest, j);
      }
      UncoveredPlain(s, ms, i, m.start);
      UncoveredSkip(s, ms, m.start, m.end);
      UncoveredAgree(s, ms, rest, m.end);
  }
}
