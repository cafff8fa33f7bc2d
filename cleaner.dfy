/**
 * The `XmlCleaner` object: a stored document, a character encoding and a
 * Tidy configuration, and the operations on them.
 *
 * Every operation that takes an optional `$xml` works in one of two forms.
 * Given a document, it works on that document, returns the result and
 * leaves the object alone (the pass-through form). Without one, it reads
 * the stored document through `getXml`, which fails while nothing is
 * stored; the removals then store their result and return the object
 * itself (the chained form).
 *
 * The XSLT processor and Tidy are engines outside the object: they are
 * parameters here, and nothing is assumed about what they compute.
 */
module Cleaner {
  import opened Outcomes
  import opened Text
  import opened Patterns
  import opened NameSpaceIndex
  import opened Pruner
  import opened Stylesheet

  const MissingXml := "XML MUST be set before it can be used"
  const EmptyPrefix := "Prefix can NOT be empty"
  const UnknownEncoding := "Unknown character characterEncoding, was given "

  /** The encodings `setCharacterEncoding` accepts, compared as strings. */
  const KnownEncodings: seq<string> := [
    "ascii", "latin0", "latin1", "raw", "utf8", "iso2022", "mac",
    "win1252", "ibm858", "utf16", "utf16le", "utf16be", "big5", "shiftjis"
  ]

  const DefaultEncoding := "utf8"

  /** A value of the Tidy configuration array. */
  datatype TidyValue = Flag(on: bool) | Number(n: int) | Words(text: string)

  type TidyConfig = map<string, TidyValue>

  const DefaultTidyConfig: TidyConfig := map[
    "indent" := Flag(true),
    "indent-spaces" := Number(4),
    "output-xml" := Flag(true),
    "input-xml" := Flag(true),
    "wrap" := Words("1000")
  ]

  /** What the XSLT processor makes of a stylesheet and a document. */
  datatype XsltOutcome =
    | Output(text: string)       // `transformToXml` returned this text
    | NoOutput                   // `transformToXml` returned `false`
    | Unparsable(message: string) // the stylesheet or the document could not be parsed

  /** The XSLT processor, applied to a stylesheet and a document. */
  type Xslt = (string, string) -> XsltOutcome

  /** Tidy's `repairString`, applied to a document, a configuration and an encoding. */
  type Tidy = (string, TidyConfig, string) -> string

  /** What a removal returns: the object itself, the resulting text, or PHP's `false`. */
  datatype Returned = Chained | Document(text: string) | NoDocument

  /** The three removals the XSLT processor is asked to perform. */
  datatype Elision = Attributes(prefix: string) | Elements(prefix: string) | Comments

  /** The elision template each removal puts in the stylesheet. */
  function Template(e: Elision): string {
    match e
    case Attributes(p) => AttributeTemplate(p)
    case Elements(p) => ElementTemplate(p)
    case Comments => CommentTemplate
  }

  /** The head of the attribute template, up to the prefix. */
  const AttributeOpen := "<xsl:template match=\"@"

  /** The head of the element template, up to the prefix. */
  const ElementOpen := "<xsl:template match=\"//"

  /** What follows the prefix in both templates. */
  const TemplateClose := ":*\"/>"

  lemma Middle(a: string, p: string, b: string)
    ensures |a| + |p| <= |a + p + b| && (a + p + b)[|a|..|a| + |p|] == p
  {
    assert (a + p + b)[|a|..|a| + |p|] == (a + p)[|a|..];
  }

  /**
   * The templates match `@p:*` and `//p:*` for exactly the prefix given: it
   * stands whole between the fixed head and `:*"/>`, so it can be read back.
   */
  lemma TemplatesNamePrefix(p: string)
    ensures AttributeTemplate(p) == AttributeOpen + p + TemplateClose
    ensures ElementTemplate(p) == ElementOpen + p + TemplateClose
    ensures AttributeTemplate(p)[|AttributeOpen|..|AttributeOpen| + |p|] == p
    ensures ElementTemplate(p)[|ElementOpen|..|ElementOpen| + |p|] == p
  {
    Middle(AttributeOpen, p, TemplateClose);
    Middle(ElementOpen, p, TemplateClose);
  }

  /**
   * The processor's outcome for the stylesheet built for `doc` around
   * `template`: the text, `false`, or the parse error it raises.
   */
  ghost function Transformed(xslt: Xslt, doc: string, template: string): Result<Option<string>> {
    match xslt(XslFor(doc, template), doc)
    case Output(t) => Success(Some(t))
    case NoOutput => Success(None)
    case Unparsable(message) => Failure(XmlException(message))
  }

  /**
   * What a removal makes of a document, once its prefix has passed the
   * emptiness check: a prefix whose `prefix:` does not occur leaves the
   * document as it is; otherwise the processor decides.
   */
  ghost function Removal(xslt: Xslt, e: Elision, doc: string): Result<Option<string>> {
    if !e.Comments? && !Occurs(e.prefix + ":", doc) then Success(Some(doc))
    else Transformed(xslt, doc, Template(e))
  }

  /**
   * When `prefix:` does not occur the processor is never consulted: every
   * processor gives the same answer, the document itself.
   */
  lemma ShortcutSkipsProcessor(xslt: Xslt, other: Xslt, e: Elision, doc: string)
    requires !e.Comments? && !Occurs(e.prefix + ":", doc)
    ensures Removal(xslt, e, doc) == Removal(other, e, doc) == Success(Some(doc))
  {
  }

  /**
   * When the processor is consulted, the stylesheet it is given declares
   * the document's own prefixes in ascending order, each with the URI of
   * its last declaration, and carries the removal's template.
   */
  lemma ProcessorSeesDocumentNameSpaces(xslt: Xslt, e: Elision, doc: string)
    requires e.Comments? || Occurs(e.prefix + ":", doc)
    ensures Removal(xslt, e, doc) == Transformed(xslt, doc, Template(e))
    ensures var bs := SortedEntries(LastWins(AllMatches(AnyPrefix, doc)));
      && XslFor(doc, Template(e)) == XslText(bs, Template(e))
      && KeysOf(bs) == DeclaredPrefixes(doc)
      && Bindings(AllMatches(AnyPrefix, NameSpaceAttributes(bs))) == bs
  {
    ListingIsReadable(doc);
  }

  /** PHP's `(string)` of a removal's text: `false` becomes "". */
  function Stringify(t: Option<string>): string {
    if t.Some? then t.value else ""
  }

  /** The pass-through form's reply for a removal outcome. */
  function PassThrough(o: Result<Option<string>>): Result<Returned> {
    match o
    case Failure(e) => Failure(e)
    case Success(Some(t)) => Success(Document(t))
    case Success(None) => Success(NoDocument)
  }

  /** The chained form's reply for a removal outcome. */
  function ChainedReply(o: Result<Option<string>>): Result<Returned> {
    match o
    case Failure(e) => Failure(e)
    case Success(_) => Success(Chained)
  }

  /** The document the chained form stores after a removal outcome. */
  function Stored(o: Result<Option<string>>, before: string): string {
    match o
    case Failure(_) => before
    case Success(t) => Stringify(t)
  }

  /** The text a pass-through reply hands on, as PHP's `(string)` sees it. */
  function Passed(r: Returned): string {
    match r
    case Document(t) => t
    case _ => ""
  }

  /** The loop that builds `$xmlNS`: an empty first element, then one `xmlns:prefix="uri"` per entry. */
  method DeclarationsOf(entries: seq<(string, string)>) returns (xmlNS: seq<string>)
    ensures xmlNS == DeclarationList(entries)
  {
    xmlNS := [""];
    for k := 0 to |entries|
      invariant xmlNS == DeclarationList(entries[..k])
    {
      assert entries[..k + 1][..k] == entries[..k];
      xmlNS := xmlNS + [Declaration(entries[k])];
    }
    assert entries[..|entries|] == entries;
  }

  class XmlCleaner {
    /** The stored document; PHP's unset `$xml` is the empty string here. */
    var xml: string
    var characterEncoding: string
    var tidyConfig: TidyConfig

    /**
     * The object's invariant: the encoding is one of the known ones. The
     * constructor sets a known one and `setCharacterEncoding` stores nothing
     * else; every method that changes the object keeps it.
     */
    ghost predicate Valid()
      reads this
    {
      characterEncoding in KnownEncodings
    }

    /** A fresh cleaner: no document, `utf8`, and the five default Tidy settings. */
    constructor ()
      ensures Valid()
      ensures xml == "" && characterEncoding == DefaultEncoding && tidyConfig == DefaultTidyConfig
    {
      xml := "";
      characterEncoding := DefaultEncoding;
      tidyConfig := DefaultTidyConfig;
    }

    /** The document an operation works on: its `$xml` argument, or the stored one as `getXml` reads it. */
    function Input(xmlArg: Option<string>): Result<string>
      reads this
    {
      match xmlArg
      case Some(doc) => Success(doc)
      case None => if |xml| == 0 then Failure(RuntimeException(MissingXml)) else Success(xml)
    }

    /** `getXml()`: the stored document, or a RuntimeException while it is empty. */
    method GetXml() returns (r: Result<string>)
      ensures r.Failure? <==> xml == ""
      ensures r.Failure? ==> r.error == RuntimeException(MissingXml)
      ensures r.Success? ==> r.value == xml
    {
      if |xml| == 0 {
        return Failure(RuntimeException(MissingXml));
      }
      return Success(xml);
    }

    /** The document an operation works on: its argument, or else what `getXml` returns. */
    method Load(xmlArg: Option<string>) returns (r: Result<string>)
      ensures r == Input(xmlArg)
    {
      if xmlArg.Some? {
        return Success(xmlArg.value);
      }
      r := GetXml();
    }

    /** Stores a new document; the encoding and the configuration stay as they were. */
    method SetXml(value: string)
      requires Valid()
      modifies this
      ensures xml == value
      ensures characterEncoding == old(characterEncoding) && tidyConfig == old(tidyConfig)
      ensures Valid()
    {
      xml := value;
    }

    /** Replaces the Tidy configuration; the document and the encoding stay as they were. */
    method SetTidyConfig(value: TidyConfig)
      requires Valid()
      modifies this
      ensures tidyConfig == value
      ensures xml == old(xml) && characterEncoding == old(characterEncoding)
      ensures Valid()
    {
      tidyConfig := value;
    }

    /**
     * `setCharacterEncoding($value)`: one of the fourteen known names is
     * stored; any other value raises a DomainException and changes nothing.
     */
    method SetCharacterEncoding(value: string) returns (r: Result<Returned>)
      requires Valid()
      modifies this
      ensures value in KnownEncodings ==> r == Success(Chained) && characterEncoding == value
      ensures value !in KnownEncodings ==>
        r == Failure(DomainException(UnknownEncoding + value)) && characterEncoding == old(characterEncoding)
      ensures xml == old(xml) && tidyConfig == old(tidyConfig)
      ensures Valid()
    {
      if value !in KnownEncodings {
        return Failure(DomainException(UnknownEncoding + value));
      }
      characterEncoding := value;
      return Success(Chained);
    }

    /**
     * The URI of the leftmost default declaration in the given document, or
     * in the stored one when none is given; nothing is stored.
     */
    method GetDefaultNameSpace(xmlArg: Option<string>) returns (r: Result<string>)
      ensures Input(xmlArg).Failure? ==> r == Failure(Input(xmlArg).error)
      ensures Input(xmlArg).Success? ==> r == DefaultNameSpace(Input(xmlArg).value)
    {
      var input := Load(xmlArg);
      if input.Failure? {
        return Failure(input.error);
      }
      var doc := input.value;
      r := DefaultNameSpace(doc);
    }

    /**
     * The namespace listing of the given document, or of the stored one when
     * none is given: keyed and sorted by prefix, or the URIs in scan order.
     */
    method GetXmlNameSpaces(xmlArg: Option<string>, usePrefixKeys: bool) returns (r: Result<NameSpaces>)
      ensures Input(xmlArg).Failure? ==> r == Failure(Input(xmlArg).error)
      ensures Input(xmlArg).Success? ==> r == Success(Listing(Input(xmlArg).value, usePrefixKeys))
    {
      var input := Load(xmlArg);
      if input.Failure? {
        return Failure(input.error);
      }
      var doc := input.value;
      var nameSpaces := XmlNameSpaces(doc, usePrefixKeys);
      r := Success(nameSpaces);
    }

    /**
     * `getTidyXml($xml, $config, $encoding)`: Tidy's repair of the document,
     * with the stored configuration and encoding standing in for the
     * arguments left out; an encoding it supplies itself is a known one.
     */
    method GetTidyXml(tidy: Tidy, xmlArg: Option<string>, config: Option<TidyConfig>, encoding: Option<string>)
      returns (r: Result<string>)
      requires Valid()
      ensures Input(xmlArg).Success? && encoding.None? ==>
        exists known :: known in KnownEncodings && r == Success(tidy(Input(xmlArg).value,
                          if config.Some? then config.value else tidyConfig, known))
      ensures Input(xmlArg).Failure? ==> r == Failure(Input(xmlArg).error)
      ensures Input(xmlArg).Success? ==>
        r == Success(tidy(Input(xmlArg).value,
                          if config.Some? then config.value else tidyConfig,
                          if encoding.Some? then encoding.value else characterEncoding))
    {
      var input := Load(xmlArg);
      if input.Failure? {
        return Failure(input.error);
      }
      var doc := input.value;
      var settings := if config.None? then tidyConfig else config.value;
      var chosen := if encoding.None? then characterEncoding else encoding.value;
      r := Success(tidy(doc, settings, chosen));
    }

    /**
     * `applyXslTemplates($xml, $template)`: the stylesheet declaring the
     * document's sorted prefixes, with the template before the identity
     * copy, handed to the processor together with the document.
     */
    method ApplyXslTemplates(xslt: Xslt, doc: string, template: string) returns (r: Result<Option<string>>)
      ensures r == Transformed(xslt, doc, template)
    {
      var nameSpaces := XmlNameSpaces(doc, true);
      var xmlNS := DeclarationsOf(nameSpaces.entries);
      var xsl := "<xsl:transform " + Implode(" ", xmlNS) + " version=\"1.0\""
        + " xmlns:xsl=\"" + XslNamespace + "\">" + OutputElement
        + template + Eol + Foot;
      assert xsl == XslText(nameSpaces.entries, template);
      match xslt(xsl, doc)
      case Output(t) => r := Success(Some(t));
      case NoOutput => r := Success(None);
      case Unparsable(message) => r := Failure(XmlException(message));
    }

    /**
     * The write-back both forms share: the pass-through form replies with
     * the outcome, the chained form stores it and replies with the object.
     */
    method Finish(o: Result<Option<string>>, wasNull: bool) returns (r: Result<Returned>)
      requires Valid()
      modifies this
      ensures wasNull ==> r == ChainedReply(o) && xml == Stored(o, old(xml))
      ensures !wasNull ==> r == PassThrough(o) && xml == old(xml)
      ensures characterEncoding == old(characterEncoding) && tidyConfig == old(tidyConfig)
      ensures Valid()
    {
      if o.Failure? {
        return Failure(o.error);
      }
      if wasNull {
        SetXml(Stringify(o.value));
        return Success(Chained);
      }
      return PassThrough(o);
    }

    /**
     * The removal of a prefix's attributes or elements: an empty prefix is
     * refused, a document without `prefix:` comes back unchanged, any other
     * goes through the processor, and the outcome is stored or returned.
     */
    method RemoveByPrefix(xslt: Xslt, e: Elision, xmlArg: Option<string>) returns (r: Result<Returned>)
      requires !e.Comments?
      requires Valid()
      modifies this
      ensures e.prefix == "" ==> r == Failure(DomainException(EmptyPrefix)) && xml == old(xml)
      ensures e.prefix != "" && old(Input(xmlArg)).Failure? ==>
        r == Failure(old(Input(xmlArg)).error) && xml == old(xml)
      ensures e.prefix != "" && old(Input(xmlArg)).Success? && xmlArg.None? ==>
        r == ChainedReply(Removal(xslt, e, old(xml))) && xml == Stored(Removal(xslt, e, old(xml)), old(xml))
      ensures e.prefix != "" && xmlArg.Some? ==>
        r == PassThrough(Removal(xslt, e, xmlArg.value)) && xml == old(xml)
      ensures characterEncoding == old(characterEncoding) && tidyConfig == old(tidyConfig)
      ensures Valid()
    {
      if |e.prefix| == 0 {
        return Failure(DomainException(EmptyPrefix));
      }
      var input := Load(xmlArg);
      if input.Failure? {
        return Failure(input.error);
      }
      var doc := input.value;
      var o: Result<Option<string>> := Success(Some(doc));
      if Occurs(e.prefix + ":", doc) {
        o := ApplyXslTemplates(xslt, doc, Template(e));
      }
      r := Finish(o, xmlArg.None?);
    }

    /** `removeAttributesByPrefix($prefix, $xml)`: the template `@prefix:*`. */
    method RemoveAttributesByPrefix(xslt: Xslt, prefix: string, xmlArg: Option<string>) returns (r: Result<Returned>)
      requires Valid()
      modifies this
      ensures prefix == "" ==> r == Failure(DomainException(EmptyPrefix)) && xml == old(xml)
      ensures prefix != "" && old(Input(xmlArg)).Failure? ==>
        r == Failure(old(Input(xmlArg)).error) && xml == old(xml)
      ensures prefix != "" && old(Input(xmlArg)).Success? && xmlArg.None? ==>
        var o := Removal(xslt, Attributes(prefix), old(xml));
        r == ChainedReply(o) && xml == Stored(o, old(xml))
      ensures prefix != "" && xmlArg.Some? ==>
        r == PassThrough(Removal(xslt, Attributes(prefix), xmlArg.value)) && xml == old(xml)
      ensures characterEncoding == old(characterEncoding) && tidyConfig == old(tidyConfig)
      ensures Valid()
    {
      r := RemoveByPrefix(xslt, Attributes(prefix), xmlArg);
    }

    /** `removeElementsByPrefix($prefix, $xml)`: the template `//prefix:*`. */
    method RemoveElementsByPrefix(xslt: Xslt, prefix: string, xmlArg: Option<string>) returns (r: Result<Returned>)
      requires Valid()
      modifies this
      ensures prefix == "" ==> r == Failure(DomainException(EmptyPrefix)) && xml == old(xml)
      ensures prefix != "" && old(Input(xmlArg)).Failure? ==>
        r == Failure(old(Input(xmlArg)).error) && xml == old(xml)
      ensures prefix != "" && old(Input(xmlArg)).Success? && xmlArg.None? ==>
        var o := Removal(xslt, Elements(prefix), old(xml));
        r == ChainedReply(o) && xml == Stored(o, old(xml))
      ensures prefix != "" && xmlArg.Some? ==>
        r == PassThrough(Removal(xslt, Elements(prefix), xmlArg.value)) && xml == old(xml)
      ensures characterEncoding == old(characterEncoding) && tidyConfig == old(tidyConfig)
      ensures Valid()
    {
      r := RemoveByPrefix(xslt, Elements(prefix), xmlArg);
    }

    /** `removeXmlComments($xml)`: the template `comment()`, always applied. */
    method RemoveXmlComments(xslt: Xslt, xmlArg: Option<string>) returns (r: Result<Returned>)
      requires Valid()
      modifies this
      ensures old(Input(xmlArg)).Failure? ==> r == Failure(old(Input(xmlArg)).error) && xml == old(xml)
      ensures old(Input(xmlArg)).Success? && xmlArg.None? ==>
        var o := Removal(xslt, Comments, old(xml));
        r == ChainedReply(o) && xml == Stored(o, old(xml))
      ensures xmlArg.Some? ==> r == PassThrough(Removal(xslt, Comments, xmlArg.value)) && xml == old(xml)
      ensures characterEncoding == old(characterEncoding) && tidyConfig == old(tidyConfig)
      ensures Valid()
    {
      var input := Load(xmlArg);
      if input.Failure? {
        return Failure(input.error);
      }
      var doc := input.value;
      var o := ApplyXslTemplates(xslt, doc, CommentTemplate);
      r := Finish(o, xmlArg.None?);
    }

    /**
     * `removeUnusedNameSpaces($xml)`: the pruned text, stored (chained form)
     * or returned (pass-through form). It never fails once it has a document.
     */
    method RemoveUnusedNameSpaces(xmlArg: Option<string>) returns (r: Result<Returned>)
      requires Valid()
      modifies this
      ensures old(Input(xmlArg)).Failure? ==> r == Failure(old(Input(xmlArg)).error) && xml == old(xml)
      ensures old(Input(xmlArg)).Success? && xmlArg.None? ==> r == Success(Chained) && xml == Pruned(old(xml))
      ensures xmlArg.Some? ==> r == Success(Document(Pruned(xmlArg.value))) && xml == old(xml)
      ensures characterEncoding == old(characterEncoding) && tidyConfig == old(tidyConfig)
      ensures Valid()
    {
      var input := Load(xmlArg);
      if input.Failure? {
        return Failure(input.error);
      }
      var doc := input.value;
      var pruned := PruneUnused(doc);
      if xmlArg.None? {
        SetXml(pruned);
        return Success(Chained);
      }
      return Success(Document(pruned));
    }
  }

  /**
   * The chained form of the usage example: store `svg`, remove comments,
   * prune unused namespaces, tidy with the defaults. Each step reads the
   * stored text through `getXml`, so an empty text at any point fails.
   */
  ghost function ChainedClean(xslt: Xslt, tidy: Tidy, svg: string): Result<string> {
    if svg == "" then Failure(RuntimeException(MissingXml))
    else match Removal(xslt, Comments, svg)
      case Failure(e) => Failure(e)
      case Success(t) =>
        if Stringify(t) == "" then Failure(RuntimeException(MissingXml))
        else if Pruned(Stringify(t)) == "" then Failure(RuntimeException(MissingXml))
        else Success(tidy(Pruned(Stringify(t)), DefaultTidyConfig, DefaultEncoding))
  }

  /**
   * The pass-through form of the usage example: each result, `false` read
   * as "", is handed to the next call, which never consults the stored text.
   */
  ghost function PassedClean(xslt: Xslt, tidy: Tidy, svg: string): Result<string> {
    match Removal(xslt, Comments, svg)
    case Failure(e) => Failure(e)
    case Success(t) => Success(tidy(Pruned(Stringify(t)), DefaultTidyConfig, DefaultEncoding))
  }

  /**
   * The document the chained form leaves stored: `svg` when it is empty or
   * the comment removal fails, "" when the removal leaves nothing, and the
   * pruned text otherwise.
   */
  ghost function ChainedStored(xslt: Xslt, svg: string): string {
    if svg == "" then svg
    else match Removal(xslt, Comments, svg)
      case Failure(_) => svg
      case Success(t) => if Stringify(t) == "" then "" else Pruned(Stringify(t))
  }

  /**
   * When the chained form succeeds, the object keeps the pruned text the
   * comment removal handed on, and the result is Tidy's repair of exactly
   * that stored text.
   */
  lemma ChainedKeepsItsText(xslt: Xslt, tidy: Tidy, svg: string)
    ensures ChainedClean(xslt, tidy, svg).Success? ==>
      && ChainedStored(xslt, svg) == Pruned(Stringify(PassedText(xslt, svg)))
      && ChainedStored(xslt, svg) != ""
      && ChainedClean(xslt, tidy, svg) == Success(tidy(ChainedStored(xslt, svg), DefaultTidyConfig, DefaultEncoding))
  {
  }

  /** The text the comment removal hands on; nothing when it fails. */
  ghost function PassedText(xslt: Xslt, svg: string): Option<string> {
    match Removal(xslt, Comments, svg)
    case Success(t) => t
    case Failure(_) => None
  }

  /**
   * The two forms agree whenever the chained one succeeds; the chained one
   * fails where the other goes on only when some intermediate text is empty.
   */
  lemma FormsAgree(xslt: Xslt, tidy: Tidy, svg: string)
    ensures ChainedClean(xslt, tidy, svg).Success? ==> PassedClean(xslt, tidy, svg) == ChainedClean(xslt, tidy, svg)
    ensures PassedClean(xslt, tidy, svg).Success? && ChainedClean(xslt, tidy, svg).Failure? ==>
      && ChainedClean(xslt, tidy, svg) == Failure(RuntimeException(MissingXml))
      && (svg == "" || Stringify(PassedText(xslt, svg)) == "" || Pruned(Stringify(PassedText(xslt, svg))) == "")
  {
  }

  /**
   * The chained form on the cleaner `xc`: store `svg`, strip its comments
   * and its unused namespace declarations in place, then repair the stored
   * text with Tidy under the stored defaults.
   */
  method CleanChained(xc: XmlCleaner, xslt: Xslt, tidy: Tidy, svg: string) returns (r: Result<string>)
    requires xc.tidyConfig == DefaultTidyConfig && xc.characterEncoding == DefaultEncoding
    modifies xc
    ensures r == ChainedClean(xslt, tidy, svg)
    ensures xc.xml == ChainedStored(xslt, svg)
    ensures xc.tidyConfig == old(xc.tidyConfig) && xc.characterEncoding == old(xc.characterEncoding)
  {
    xc.SetXml(svg);
    var a := xc.RemoveXmlComments(xslt, None);
    if a.Failure? {
      return Failure(a.error);
    }
    var b := xc.RemoveUnusedNameSpaces(None);
    if b.Failure? {
      return Failure(b.error);
    }
    r := xc.GetTidyXml(tidy, None, None, None);
  }

  /**
   * The pass-through form on the cleaner `xc`: strip the comments of `svg`,
   * strip the unused declarations of that result, and repair what is left
   * with Tidy, handing each text to the next call instead of storing it.
   */
  method CleanPassed(xc: XmlCleaner, xslt: Xslt, tidy: Tidy, svg: string) returns (r: Result<string>)
    requires xc.tidyConfig == DefaultTidyConfig && xc.characterEncoding == DefaultEncoding
    modifies xc
    ensures r == PassedClean(xslt, tidy, svg)
    ensures xc.xml == old(xc.xml)
    ensures xc.tidyConfig == old(xc.tidyConfig) && xc.characterEncoding == old(xc.characterEncoding)
  {
    var c := xc.RemoveXmlComments(xslt, Some(svg));
    if c.Failure? {
      return Failure(c.error);
    }
    var d := xc.RemoveUnusedNameSpaces(Some(Passed(c.value)));
    r := xc.GetTidyXml(tidy, Some(Passed(d.value)), None, None);
  }

  /**
   * The usage example: one fresh cleaner, used first in the chained form
   * and then in the pass-through form. Nothing catches an exception, so a
   * failure of the chained statement ends the script and the pass-through
   * statements never run; when they do run they give the same text.
   */
  method CleanBothWays(xslt: Xslt, tidy: Tidy, svg: string)
    returns (chained: Result<string>, passed: Option<Result<string>>)
    ensures chained == ChainedClean(xslt, tidy, svg)
    ensures chained.Failure? ==> passed.None?
    ensures chained.Success? ==> passed == Some(PassedClean(xslt, tidy, svg)) && passed.value == chained
  {
    var xc := new XmlCleaner();
    chained := CleanChained(xc, xslt, tidy, svg);
    if chained.Failure? {
      return chained, None;
    }
    var result := CleanPassed(xc, xslt, tidy, svg);
    FormsAgree(xslt, tidy, svg);
    passed := Some(result);
  }
}
