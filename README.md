# XmlCleaner, modelled in Dafny

`XmlCleaner` is a small PHP helper that tidies XML documents, SVG in
particular. It holds a document, a character encoding and a Tidy
configuration. Its operations are:

- listing the namespaces a document declares (`getXmlNameSpaces`);
- finding the document's default namespace (`getDefaultNameSpace`);
- pruning `xmlns:prefix="uri"` declarations whose prefix is never used (`removeUnusedNameSpaces`);
- removing the attributes or elements of a prefix, or all comments, by generating an XSLT stylesheet and handing it to the XSLT processor (`removeAttributesByPrefix`, `removeElementsByPrefix`, `removeXmlComments`);
- handing the document to Tidy (`getTidyXml`).

Every operation that takes an optional `$xml` falls back on the stored document when it is not given one, and fails while nothing is stored. The reading operations (`getDefaultNameSpace`, `getXmlNameSpaces`, `getTidyXml`) only return their result. The four removals (`removeAttributesByPrefix`, `removeElementsByPrefix`, `removeXmlComments`, `removeUnusedNameSpaces`) work in one of two forms:

- **Pass-through form.** Given a document, a removal returns its result and leaves the object alone.
- **Chained form.** Without a document, a removal works on the stored one, stores its result and returns the object.

The project is split into these modules:

| module | file | what it models |
|---|---|---|
| `Outcomes` | `outcomes.dfy` | `Option`, `Result`, and the three exception kinds the class raises |
| `Text` | `text.dfy` | `strpos(...) !== false` as `Occurs`, and the byte-wise order `ksort` uses on string keys, with its proofs of strict total order and of the one ascending arrangement of a key set |
| `Patterns` | `patterns.dfy` | The three regular expressions the class uses, written as deterministic scanners, plus `preg_match`, `preg_match_all` and `preg_replace(..., '', ...)` as the leftmost, non-overlapping scan PCRE performs |
| `NameSpaceIndex` | `namespace_index.dfy` | `getXmlNameSpaces`: its `foreach` as a loop and `ksort` as a selection loop; also `getDefaultNameSpace` |
| `Pruner` | `pruner.dfy` | The loop of `removeUnusedNameSpaces` |
| `Stylesheet` | `stylesheet.dfy` | The stylesheet text that `applyXslTemplates` builds, and the proof that its namespace attributes read back as the listing they came from |
| `Cleaner` | `cleaner.dfy` | The class itself: fields, setters, both forms of every operation, and the usage example's two call styles |

The two patterns are:

- `xmlns:(\w+)\s*=\s*"([^"]+)"` (`AnyPrefix`), and its instance for one prefix (`Prefix(p)`);
- `xmlns\s*=\s*"([^"]+)"` (`Default`).

Both are deterministic:

- `\w+` can end only where `\s*=` begins.
- `[^"]+` can end only at a quote.

So `MatchAt` decides a match at one position with no backtracking. The model proves this reading sound and complete: `MatchSound` and `MatchComplete` relate it to `Shape`, which is the pattern's own description of the matched text.

The XSLT processor and Tidy are parameters:

- `Xslt` maps a stylesheet and a document to text, to `false`, or to a parse error.
- `Tidy` maps a document, a configuration and an encoding to text.

Nothing is assumed about what either engine computes.

## Model

| member | source | states |
|---|---|---|
| Text.Occurs | src/XmlCleaner.php:191 | The substring test `strpos(...) !== false`: some position of the text starts with the needle (the same test stands at lines 224 and 251). |
| Text.Less | src/XmlCleaner.php:164 | The key comparison `ksort` makes on string keys: byte by byte, a proper prefix before its extensions. |
| Text.LessTransitive | src/XmlCleaner.php:164 | The key order `ksort` uses is transitive. |
| Text.LessTotal | src/XmlCleaner.php:164 | Any two distinct keys are ordered one way or the other. |
| Text.LessIrreflexive | src/XmlCleaner.php:164 | No key sorts before itself. |
| Text.LeastExists | src/XmlCleaner.php:164 | Every non-empty key set has a least key. |
| Text.AscendingUnique | src/XmlCleaner.php:164 | Two strictly ascending key sequences with the same elements are equal, so the sorted order is unique. |
| Patterns.RunEnd | src/XmlCleaner.php:150 | A greedy run such as `\w+` or `\s*` stops inside the text, at its end or at the first character outside the class. |
| Patterns.RunChars | src/XmlCleaner.php:150 | Every character the greedy run passes over is in the class. |
| Patterns.MatchAt | src/XmlCleaner.php:150 | A match found at `i` starts at `i`, is non-empty and ends inside the text. |
| Patterns.MatchSound | src/XmlCleaner.php:150 | Whatever the scanner matches has the pattern's shape: `xmlns`, the prefix part, blanks, `=`, blanks, and a non-empty quote-free value in quotes. |
| Patterns.MatchComplete | src/XmlCleaner.php:150 | Any text of the pattern's shape at `i` is matched there, with exactly that prefix and URI and that length. |
| Patterns.DefaultSkipsPrefixed | src/XmlCleaner.php:63 | The default-namespace pattern never matches where `xmlns:` begins. |
| Patterns.PrefixMatchesOnlyItself | src/XmlCleaner.php:254 | The one-prefix pattern for `p` matches exactly where the general pattern matches and captures `p` itself, never a longer prefix that starts with `p`, and the two matches agree. |
| Patterns.PrefixMatchIsPrefixedMatch | src/XmlCleaner.php:254 | A match of the one-prefix pattern is also a match of the general pattern. |
| Patterns.PrefixedMatchIsPrefixMatch | src/XmlCleaner.php:254 | A general match that captures `p` is also a match of the one-prefix pattern for `p`. |
| Patterns.FirstFrom | src/XmlCleaner.php:64 | `preg_match` finds a match that starts at or after the scan position. |
| Patterns.FirstMatch | src/XmlCleaner.php:64 | `preg_match` over the whole text: the leftmost match, or none. Its properties are those of `FirstFrom` from position 0. |
| Patterns.FirstIsLeftmost | src/XmlCleaner.php:64 | No match starts before the one found, and finding nothing means no match starts anywhere. |
| Patterns.ScanFrom | src/XmlCleaner.php:151 | `preg_match_all` from a position: the leftmost match, then the scan resumed where that match ends, until no match is left. |
| Patterns.AllMatches | src/XmlCleaner.php:151 | `preg_match_all` over the whole text, from position 0. |
| Patterns.ScanGenuine | src/XmlCleaner.php:151 | Every match `preg_match_all` reports is a real match at its position. |
| Patterns.ScanOrdered | src/XmlCleaner.php:151 | The reported matches come left to right without overlapping. |
| Patterns.ScanExhaustive | src/XmlCleaner.php:151 | Every position where a match could begin lies inside a reported match. |
| Patterns.ScanSpec | src/XmlCleaner.php:151 | All three of the scan properties above. |
| Patterns.Replace | src/XmlCleaner.php:255 | `preg_replace` with `''` over the whole text: every match the scan reports is cut out. |
| Patterns.ReplaceFrom | src/XmlCleaner.php:255 | `preg_replace` with `''` never lengthens the text and leaves it unchanged exactly when there is no match. |
| Patterns.ReplaceKeepsUncovered | src/XmlCleaner.php:255 | `preg_replace` with `''` keeps, in order, exactly the characters no reported match covers. |
| NameSpaceIndex.LastWins | src/XmlCleaner.php:156-159 | The keyed array the loop builds: each match writes its URI under its prefix, so a later declaration of a prefix overwrites an earlier one. |
| NameSpaceIndex.LastWinsSpec | src/XmlCleaner.php:156-159 | In the keyed array, a prefix is a key exactly when some match declares it, and its value is the URI of the last such match. |
| NameSpaceIndex.SortedEntries | src/XmlCleaner.php:163-165 | After `ksort`, the keys are the map's keys in ascending order, each with its own value. |
| NameSpaceIndex.LeastKey | src/XmlCleaner.php:164 | The selection step returns the least key of a non-empty set. |
| NameSpaceIndex.KSort | src/XmlCleaner.php:163-165 | The sorting loop produces exactly the sorted entries. |
| NameSpaceIndex.Uris | src/XmlCleaner.php:161 | The unkeyed list has one URI per match, in scan order, duplicates kept. |
| NameSpaceIndex.Collect | src/XmlCleaner.php:152-165 | The `foreach` and `ksort` produce the listing of the matches. With no match, the result is the empty listing in either mode. |
| NameSpaceIndex.ListingOf | src/XmlCleaner.php:152-165 | The listing of a sequence of matches: the last-wins map sorted by key, or the URIs in scan order. |
| NameSpaceIndex.Listing | src/XmlCleaner.php:144-166 | What `getXmlNameSpaces` returns for a document: the listing of its scan for prefixed declarations, keyed or not. |
| NameSpaceIndex.XmlNameSpaces | src/XmlCleaner.php:150-166 | The method returns the listing of the document's scan. |
| NameSpaceIndex.KeyedListing | src/XmlCleaner.php:133-134 | The keyed listing holds exactly the declared prefixes, each with the URI of its last declaration, in strictly ascending order. It is empty exactly when nothing is declared. |
| NameSpaceIndex.ScannedPrefixesAreWords | src/XmlCleaner.php:133-134 | Every listed prefix is a non-empty `\w` run that occurs in a declaration. The default `xmlns="..."`, which has no prefix, is never listed. |
| NameSpaceIndex.DefaultNameSpace | src/XmlCleaner.php:63-69 | The URI captured by the leftmost default declaration, or the DomainException with its fixed message when there is none. |
| NameSpaceIndex.DefaultNameSpaceSpec | src/XmlCleaner.php:57-70 | On success, the default namespace is the non-empty value of a default declaration, and no default declaration starts further left. The call fails with the DomainException exactly when no default declaration occurs. |
| Pruner.DeclaredPrefixes | src/XmlCleaner.php:250 | The prefixes the loop visits: the keys of the document's keyed listing, in ascending order. |
| Pruner.PruneStep | src/XmlCleaner.php:251-255 | One pass of the loop: the text as it is when `prefix:` occurs in it, else the text with every declaration of that prefix cut out. |
| Pruner.PruneAll | src/XmlCleaner.php:250-256 | The loop over a list of prefixes, each step applied to the text the earlier ones left. |
| Pruner.Pruned | src/XmlCleaner.php:250-256 | The loop over the document's declared prefixes in ascending order, starting from the document itself. |
| Pruner.PruneStepSpec | src/XmlCleaner.php:251-256 | If `prefix:` occurs, the step leaves the text alone. Otherwise it keeps exactly the characters that no span of the one-prefix expression covers, and each such span, read from its own start, declares that very prefix, never a longer prefix that starts with it. A span can still begin inside another declaration's quoted URI (see `PruneCanRebindPrefix`). |
| Pruner.PruneStepChanges | src/XmlCleaner.php:251-256 | A step changes the text exactly when `prefix:` is absent and the prefix is declared. |
| Pruner.PruneAllShrinks | src/XmlCleaner.php:250-256 | Pruning never lengthens the text. |
| Pruner.PruneAllKeepsUsed | src/XmlCleaner.php:250-256 | When every prefix passes the substring test, the text is unchanged. |
| Pruner.XmlnsSuffixAlwaysPasses | src/XmlCleaner.php:251-253 | The prefixes `s`, `ns`, `lns`, `mlns` and `xmlns` always pass the substring test once any prefix is declared, because the test also sees the `xmlns:` of the declaration itself; so their own step never prunes them. |
| Pruner.PruneCanRebindPrefix | src/XmlCleaner.php:250-255 | On `xmlns:pq="xmlns:p=" xmlns:p="v"`, which declares `pq` with the URI `xmlns:p=` and never uses `p:`, the step for `p` leaves `xmlns:pq="v"`, which declares `pq` with the URI `v`. |
| Pruner.PruneUnused | src/XmlCleaner.php:250-256 | The loop yields the text with every declared prefix pruned in ascending order. The result is never longer than the input, and equals it when every prefix passes the test. |
| Stylesheet.AttributeTemplate | src/XmlCleaner.php:192 | The template that matches every attribute of a prefix and copies nothing: `@prefix:*` inside an empty `xsl:template`. |
| Stylesheet.ElementTemplate | src/XmlCleaner.php:225 | The template that matches every element of a prefix and copies nothing: `//prefix:*` inside an empty `xsl:template`. |
| Stylesheet.DeclarationList | src/XmlCleaner.php:347-352 | `$xmlNS` is an empty first element followed by one `xmlns:prefix="uri"` per entry. |
| Stylesheet.Declaration | src/XmlCleaner.php:351 | One namespace attribute: `xmlns:`, the prefix, `=`, and the URI in double quotes. |
| Stylesheet.Implode | src/XmlCleaner.php:361 | The parts joined with the glue between neighbours; nothing for no parts, the part itself for one. |
| Stylesheet.XslFor | src/XmlCleaner.php:347-362 | The stylesheet `applyXslTemplates` builds for a document and a template: the stylesheet text for the document's keyed, sorted listing. |
| Stylesheet.XslText | src/XmlCleaner.php:354-362 | The stylesheet text: the transform head carrying the namespace attributes, the XSLT namespace and the output element, then the template, a line break and the identity-copy foot. |
| Stylesheet.ImplodeSpaced | src/XmlCleaner.php:361 | Joining `$xmlNS` with blanks gives each declaration preceded by one blank. |
| Stylesheet.DeclarationMatches | src/XmlCleaner.php:351 | A generated declaration of a readable binding is matched by the prefix pattern, with that prefix and URI. |
| Stylesheet.ScanSpaced | src/XmlCleaner.php:361 | Scanning the blank-separated declarations reads back their bindings, in order. |
| Stylesheet.AttributesReadBack | src/XmlCleaner.php:347-361 | For readable bindings, scanning the stylesheet's namespace attributes gives back exactly those bindings. |
| Stylesheet.ScannedReadable | src/XmlCleaner.php:150 | Every scanned prefix is a non-empty `\w` run and every URI is non-empty and quote-free. |
| Stylesheet.ListingIsReadable | src/XmlCleaner.php:347-361 | The sorted listing of any document is readable, and the stylesheet's namespace attributes read back as that listing. |
| Cleaner.Transformed | src/XmlCleaner.php:363-366 | The processor's answer for the document's stylesheet: a text, `false`, or the exception for a text it cannot parse. |
| Cleaner.Removal | src/XmlCleaner.php:191-194 | A prefix removal gives the document itself when `prefix:` does not occur in it, and otherwise the transform with the removal's template (the same guard stands at lines 224-227 for elements). The comment removal always transforms. |
| Cleaner.TemplatesNamePrefix | src/XmlCleaner.php:192 | The attribute template is `@p:*` (and, at line 225, the element template is `//p:*`); the prefix reads back from between the fixed head and `:*"/>`. |
| Cleaner.ShortcutSkipsProcessor | src/XmlCleaner.php:191-194 | When `prefix:` does not occur, the removal gives the document itself, whatever the XSLT processor (the same guard stands at line 224 for elements). |
| Cleaner.ProcessorSeesDocumentNameSpaces | src/XmlCleaner.php:345-365 | When the processor is consulted, its stylesheet declares the sorted listing of the document: its declared prefixes in ascending order, each with the URI of its last declaration. Those declarations read back as that listing. |
| Cleaner.DeclarationsOf | src/XmlCleaner.php:347-352 | The loop builds exactly `$xmlNS`. |
| Cleaner.XmlCleaner.Valid | src/XmlCleaner.php:383-390 | The object's invariant: the stored encoding is one of the fourteen known names. The constructor sets it, and every method that changes the object keeps it. |
| Cleaner.XmlCleaner.constructor | src/XmlCleaner.php:390-405 | A new cleaner has no document, the encoding `utf8` and the five default Tidy settings. |
| Cleaner.XmlCleaner.Input | src/XmlCleaner.php:59-61 | The document an operation works on: its `$xml` argument, or else the stored document, or the RuntimeException while nothing is stored (the same fallback stands at lines 146-148, 186-189 and 245-248). |
| Cleaner.XmlCleaner.Load | src/XmlCleaner.php:186-189 | The fallback as a step: it returns the argument, or calls `getXml`; its result is `Input` of the argument. |
| Cleaner.XmlCleaner.GetXml | src/XmlCleaner.php:122-129 | It fails with the RuntimeException exactly when the stored document is empty; otherwise it returns the document. |
| Cleaner.XmlCleaner.SetXml | src/XmlCleaner.php:334-338 | It stores the document and changes nothing else. |
| Cleaner.XmlCleaner.SetTidyConfig | src/XmlCleaner.php:324-328 | It stores the configuration and changes nothing else. |
| Cleaner.XmlCleaner.SetCharacterEncoding | src/XmlCleaner.php:292-318 | One of the fourteen names is stored. Any other value raises the DomainException naming it and changes nothing, so the encoding stays a known one. |
| Cleaner.XmlCleaner.GetDefaultNameSpace | src/XmlCleaner.php:57-70 | It gives the default namespace of the argument, or of the stored document; the stored-document error comes first. |
| Cleaner.XmlCleaner.GetXmlNameSpaces | src/XmlCleaner.php:144-166 | It gives the listing of the argument, or of the stored document. |
| Cleaner.XmlCleaner.GetTidyXml | src/XmlCleaner.php:98-117 | It gives Tidy's repair of the document. An omitted configuration or encoding is replaced by the stored one, so an encoding it supplies itself is always a known one. |
| Cleaner.XmlCleaner.ApplyXslTemplates | src/XmlCleaner.php:345-367 | The processor is given the stylesheet built for the document and the template, and its answer becomes text, `false` or an exception. |
| Cleaner.XmlCleaner.Finish | src/XmlCleaner.php:195-199 | In chained form the outcome is stored (`false` as "") and the object returned; in pass-through form it is returned and the state is unchanged. |
| Cleaner.XmlCleaner.RemoveByPrefix | src/XmlCleaner.php:178-200 | The empty prefix fails first. Then a missing document fails. Then come the shortcut or the transform, and the write-back of the chosen form. |
| Cleaner.XmlCleaner.RemoveAttributesByPrefix | src/XmlCleaner.php:178-200 | The same, with the template `@prefix:*`. The encoding and the configuration never change. |
| Cleaner.XmlCleaner.RemoveElementsByPrefix | src/XmlCleaner.php:211-233 | The same, with the template `//prefix:*`. |
| Cleaner.XmlCleaner.RemoveXmlComments | src/XmlCleaner.php:268-283 | The comment template is always applied. A missing document fails; otherwise the write-back follows the chosen form. |
| Cleaner.XmlCleaner.RemoveUnusedNameSpaces | src/XmlCleaner.php:242-262 | Once it has a document it never fails. It stores or returns the pruned text. |
| Cleaner.ChainedClean | docs/examples/example1.php:54-57 | The chained run's result: a RuntimeException when the input is empty; else the comment removal's exception if it raises one; else a RuntimeException when the comment-free text or the pruned text is empty; otherwise Tidy's repair of the pruned text under the default configuration and encoding. |
| Cleaner.PassedClean | docs/examples/example1.php:62-64 | The pass-through run's result: the comment removal's exception if it raises one, and otherwise Tidy's repair of the pruned comment-free text, `false` read as "". |
| Cleaner.FormsAgree | docs/examples/example1.php:54-65 | Whenever the chained form succeeds, the pass-through form gives the same text. It fails where the pass-through form goes on only when the input or an intermediate text is empty. |
| Cleaner.CleanChained | docs/examples/example1.php:54-57 | The chained call sequence gives its specified result, leaves stored the text `ChainedStored` describes, and keeps the configuration and encoding. |
| Cleaner.ChainedStored | docs/examples/example1.php:54-57 | The text the chained form leaves in the object: the input when it is empty or the comment removal fails, "" when the removal leaves nothing, and otherwise the pruned text. |
| Cleaner.ChainedKeepsItsText | docs/examples/example1.php:54-57 | When the chained form succeeds, the object keeps the non-empty pruned text of the comment removal, and the result is Tidy's repair of exactly that text. |
| Cleaner.CleanPassed | docs/examples/example1.php:62-64 | The pass-through call sequence gives its specified result and leaves the stored document, the configuration and the encoding as they were. |
| Cleaner.CleanBothWays | docs/examples/example1.php:42-65 | On one fresh cleaner, the chained statement gives its specified result. When it fails, the uncaught exception ends the script and the pass-through statements give nothing. When it succeeds, they give their specified result, which equals the chained one. |

## Left out

- `getRootElementName` is not modelled. It only asks SimpleXMLElement for the root's name, and XML parsing is outside this model.
- The XSLT processor (`importStylesheet`, `transformToXml`) is an uninterpreted parameter. Which nodes the templates remove is therefore not modelled. Parse failures of the stylesheet or the document appear as one exception kind, `XmlException`.
- Tidy is an uninterpreted parameter. The `false` that `repairString` can return is not modelled.
- PHP's array keying turns a prefix written as a canonical decimal integer (`12`, but not `007`) into an integer key, and `ksort` compares integer keys and numeric strings numerically. The model keys every prefix as a string and orders keys byte by byte. This cannot matter for well-formed namespace declarations, since an XML name never starts with a digit. The scan reads raw text, though, so text such as `xmlns:9="a"` inside a comment or an attribute value is listed too; for such keys PHP puts `9` before `10` and the model puts `10` before `9`.
- `PHP_EOL` is taken to be `"\n"`.
- PHP strings are byte strings; the model reads each byte as one `char`. All three character classes (`\w`, `\s`, `[^"]`) and every literal in the patterns are ASCII, so the scans, the substring tests and the byte-wise key order come out the same.
- Pruner.PruneStep: the one-prefix expression is searched on its own, not in step with the scan of all declarations, so the span it cuts out can begin inside another declaration's quoted URI. `PruneCanRebindPrefix` shows a used prefix `pq` bound to a different URI after the step for the unused prefix `p`. The model keeps this behaviour of the source and makes no claim that the declarations of other prefixes survive a step.
- `\w` is ASCII letters, digits and `_`, and `\s` is space, tab, line feed, vertical tab, form feed and carriage return, as in PCRE without Unicode properties.
- PHP's `(string)` casts of non-string arguments are not modelled; every argument is a string.
- An unset `$xml` field is the empty string here. The only difference is that `getXml` sees `strlen(null)` as `0` either way.
- `setTidyConfig` takes any map from names to flags, numbers or words, rather than an arbitrary PHP array.
- Pruning is not idempotent, and the model claims no such property. The raw substring test also sees `prefix:` inside URIs and inside `xmlns:` itself, so pruning one prefix can unblock another only on a later pass.
- The usage example reads and writes files. Only its two call sequences are modelled, with the document as a parameter.
- Cleaner.FormsAgree: the usage example says both forms give the same result. That holds only when the chained form succeeds. The chained form fails on an empty input and whenever a step leaves an empty text, because each step reads the stored text through `getXml`. The pass-through call sequence, run on its own, goes on in those cases; in the usage script it never gets the chance, because the chained statement's exception is not caught and ends the script (`CleanBothWays` states this).
- The stylesheet read-back covers the namespace attributes only, not the rest of the stylesheet's XML.
- `removeUnusedNameSpaces` deletes only the declaration, not the blank before it. The model follows the code here, so `<a xmlns:b="u"><d/></a>` becomes `<a ><d/></a>`.
