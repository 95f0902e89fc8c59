# epub-reader core in Dafny

A model of `index.js` from epub-reader, the module that reads an EPUB file.
It reads the bibliographic metadata from the package (OPF) document and replaces the table-of-contents pointer with the list of chapters.

The model covers:

- the query function `readXML` builds for each document, with its two prefix tables and its rewriting of `ns$name` selectors (`Query`);
- the fixed namespace table (`Namespaces`);
- the three prefix registrations of `readMetadata` (`Prefixes`): the canonical prefixes, the EPUB 3 `prefix` attribute of `<package>`, and the `xmlns:` attributes of `<metadata>`;
- `nsify`, the Dublin Core field rules, the `<meta>` dispatch loop and the choice of table-of-contents pointer (`Metadata`);
- `resolve`, which is Node's `path.resolve` against `'/' + path.dirname(base)` with the leading slash cut (`Paths`);
- `decodeEntities`, two global `replace` passes with `String.fromCodePoint`, and the `unescape` global of section B.2.1.2 of ECMA-262 (`Entities`);
- the navigation-document and NCX readers (`Toc`);
- the exported entry point, with `findMetadataFilename` (`Epub`).

The loops the source runs with `forEach` and `each` are methods with loop invariants (`Loops`), each proved equal to a function that states the loop's result.
`QueryContext` is a class whose `prefix` method updates its two maps in place.

Three behaviours of index.js that a reader might not expect are modelled as written:

- The front-matter filter `/^[ⅰⅱ]?[.] /` (index.js:221) tests for the Unicode small roman numerals U+2170 and U+2171, so an ASCII `"i. Preface"` is kept (`Toc.NotFrontMatter`).
- Tags are `subject.split(/,/)` (index.js:159) with no trimming, so `"a, b"` gives `["a", " b"]` (`Metadata.TagsNotTrimmed`).
- The record's list fields are written to the singular keys `meta.identifier` and `meta.creator` (index.js:150, 155).

External code appears as parameters of type `Host`:

- `parse` is cheerio's parse plus selector evaluation, giving the elements a selector matches.
- `newDate` is `new Date`.
- `parseJson` is `JSON.parse`.

An archive is a map from entry name to its decoded text.
Exceptions are `Err` values of `Base.Error`.

## Model

| member | source | states |
|---|---|---|
| Host.ReadText | index.js:26-30 | a present entry yields its text; a missing one throws "file not found" naming the file |
| Query.Selector | index.js:43-54 | definition of the selector a call hands to cheerio: `ns$name` templates rewritten, other templates passed through, `(ns, name)` qualified, a line terminator after `$` throws; properties in `QualifiedTemplate` and `RewrittenIffQualified` |
| Query.Lookup | index.js:47 | `rprefix[ns] \|\| ns`: a truthy entry is used, a missing or empty one falls back to the key itself |
| Query.QualifiedTemplate | index.js:43-54 | a `ns$name` template and the two-argument call `(ns, name)` both select `alias\:name`, where alias is the document's alias for `ns` or `ns` itself |
| Query.RewrittenIffQualified | index.js:43-50 | a template is changed exactly when it starts with `word$`; every other selector reaches cheerio unchanged |
| Query.QueryContext.constructor | index.js:63-64 | both prefix tables start empty |
| Query.QueryContext.Prefix | index.js:59-62 | `prefix(from, to)` sets `fprefix[from]` and `rprefix[to]` and changes nothing else |
| Query.PrefixOverwrite | index.js:59-62 | after `prefix(a, x)` then `prefix(b, x)` the tables are no longer inverse: `fprefix` holds `a` and `b`, `rprefix` only `x -> b` |
| Query.ReadXml | index.js:40-66 | a missing file throws; otherwise the context holds the parsed document and empty tables |
| Prefixes.Registered | index.js:59-62 | definition of the tables after `prefix` is called on each pair in turn; properties in `RegisteredSnoc`, `RegisteredLookup` and `RegisterAll` |
| Prefixes.PrefixPairs | index.js:140-141 | definition of the `name: URI` pairs the global `\S+:\s*\S+` match and the `exec` read from the whitespace-separated runs; properties in `DeclarationRoundTrip`, `SingleRun` and `GreedyColonQuirk` |
| Prefixes.PrefixAttrPairs | index.js:139-143 | definition of the registrations of the `prefix` attribute: none when absent or empty, a TypeError when no token matches; properties in `PrefixAttrWellFormed` and `BlankPrefixAttrThrows` |
| Prefixes.XmlnsEntry | index.js:146-148 | definition of one `<metadata>` attribute's registration: a TypeError for a name not matching `^xmlns:(.*)$`, nothing for `xmlns:`, else `X -> defaultns[mdattr[X]] \|\| X`; properties in `XmlnsSelfMapped` and `XmlnsThrowsIff` |
| Prefixes.XmlnsPairs | index.js:144-149 | definition of the registrations of all `<metadata>` attributes, or the first error; properties in `XmlnsPairsErrExtends`, `XmlnsThrowsIff` and `RegisterXmlns` |
| Prefixes.RegisteredSnoc | index.js:59-62 | registering one more pair applies `prefix` once more to the tables so far |
| Prefixes.RegisteredLookup | index.js:59-62 | after a run of registrations each table holds, per key, the last pair registered for it (or its old entry when none was) |
| Prefixes.RegisterAll | index.js:136-143 | the `forEach` of `prefix` calls leaves the tables equal to the registrations applied in order |
| Prefixes.DefaultsIdentity | index.js:136-138 | after the self-registration both tables are the identity on exactly the eight canonical prefixes |
| Prefixes.SelfPairs | index.js:136-138 | registering self-pairs on empty tables yields identity tables over the registered names |
| Prefixes.DeclarationRoundTrip | index.js:139-143 | the tokenizer reads back every `name: URI` pair of a well-formed EPUB 3 prefix declaration, in order |
| Prefixes.PrefixAttrWellFormed | index.js:139-143 | a well-formed non-empty `prefix` attribute registers `name -> defaultns[URI] \|\| name` for each pair |
| Prefixes.DeclaredAliasSelected | index.js:139-143 | a declared alias for a known URI becomes what `canonical$name` selectors are rewritten to |
| Prefixes.BlankPrefixAttrThrows | index.js:140 | every non-empty `prefix` attribute without a colon has no `\S+:\s*\S+` token, so `match` returns null and the `.map` on it throws |
| Prefixes.SingleRun | index.js:140-142 | a single run containing colons declares everything before its last colon, so the greedy `\S+` takes the name |
| Prefixes.GreedyColonQuirk | index.js:140-142 | `foo:http://x` declares `foo:http`, not `foo` |
| Prefixes.XmlnsPairsErrExtends | index.js:145-146 | the first `<metadata>` attribute that throws aborts the registration with that error |
| Prefixes.XmlnsThrowsIff | index.js:144-147 | the `xmlns` registration throws exactly when some attribute of `<metadata>` does not begin with `xmlns:` |
| Prefixes.XmlnsSelfMapped | index.js:148 | `xmlns:X` looks up the attribute named `X`; with none, `X` registers as itself whatever its URI |
| Prefixes.RegisterXmlns | index.js:144-149 | the loop succeeds exactly when the attributes all register, throws their first error otherwise, and leaves the tables with every `xmlns:` pair applied in order |
| Paths.Dirname | index.js:196 | definition of Node's POSIX `path.dirname`; properties in `DirnameTopLevel` and `DirnameOfPath` |
| Paths.Resolve | index.js:195-197 | definition of `resolve`: split the joined path on `/`, drop empty and `.` segments, pop on `..` (never above the root), join, no leading slash; properties in the `Resolve…` lemmas |
| Paths.DirnameTopLevel | index.js:196 | the directory of a top-level file is `.` |
| Paths.DirnameOfPath | index.js:196 | the directory of `dir/name` is `dir` |
| Paths.WalkSkip | index.js:196 | empty and `.` segments are dropped |
| Paths.ResolveNormal | index.js:195-197 | a resolved path never starts with `/`, and none of its segments is empty, `.` or `..` |
| Paths.ResolveTopEmpty | index.js:195-197 | resolving the empty path against a top-level file gives the archive root |
| Paths.ResolveAbsolute | index.js:195-197 | an absolute href ignores the base |
| Paths.ResolveClamps | index.js:195-197 | a `..` above the archive root is dropped |
| Paths.ResolveNormalPath | index.js:195-197 | a path that is already normal resolves to itself from the archive root |
| Paths.ResolveIdempotent | index.js:195-197 | resolving a resolved path again from the root changes nothing |
| Paths.ResolveInDirectory | index.js:195-197 | for any normal directory path `d`, any file name in it and any normal relative href `h`, `resolve(d/name, h)` is `d/h` |
| Paths.ResolveParent | index.js:195-197 | `../x` from `dir/file` is `x`, as in `resolve("OEBPS/nav.xhtml", "../text/ch1.xhtml") == "text/ch1.xhtml"` |
| Entities.DecodeRefs | index.js:211-212 | one global `replace` pass, left to right, each reference replaced by its character, the first refused code point throwing; its own ensures: never lengthens the text; further properties in `RefLength…`, `RefDecodes`, `DecodeRefsPlain`, `DecodeRefsFront` |
| Entities.FromCodePoint | index.js:211-212 | a code point becomes its character; above 0x10FFFF it throws a RangeError; a surrogate is not representable |
| Entities.RefLength | index.js:211-212 | a match is the opener (`&#x` or `&#`), a maximal non-empty digit run, then `;` |
| Entities.RefLengthOf | index.js:211-212 | conversely, the opener, any non-empty run of that pass's digits and `;` is a match of exactly that length |
| Entities.RefDecodes | index.js:211-212 | any such reference whose number is a code point decodes to that character, and the pass goes on after the `;` |
| Entities.DecodeEntities | index.js:210-213 | decoding never lengthens the text |
| Entities.DecodeRefsPlain | index.js:211-212 | a pass leaves text without `&` unchanged |
| Entities.DecodeEntitiesPlain | index.js:210-213 | text without `&` is unchanged |
| Entities.HexPassNeedsX | index.js:211 | the hexadecimal pass only decodes after a lower-case `x` |
| Entities.UpperCaseXKept | index.js:210-213 | `&#X41;` is decoded by neither pass |
| Entities.DecodeRefsFront | index.js:211-212 | a leading reference decodes to its character and the pass continues after its `;` |
| Entities.Decimal | index.js:212 | the decimal digits produced for a number parse back to it |
| Entities.DecimalRoundTrip | index.js:210-213 | writing every character as a decimal reference and decoding gives the text back |
| Entities.DecimalPassDecodes | index.js:212 | the decimal pass alone decodes such text |
| Entities.DoubleDecoding | index.js:210-213 | the passes compose: `&#x26;#65;` decodes to `A` |
| Entities.Unescape | index.js:219 | unescaping never lengthens the text |
| Entities.UnescapePlain | index.js:219 | text without `%` is unchanged by `unescape` |
| Entities.UnescapeRoundTrip | index.js:219 | `%XX`-encoding any Latin-1 text and unescaping gives it back |
| Loops.Kept | index.js:218-224 | definition of a `forEach` that pushes at most one value per element and stops at the first throw; properties in `KeptErrExtends`, `KeptAppend`, `KeptSingle`, `PushKept` |
| Loops.Each | index.js:231-235 | definition of a `forEach` that pushes one value per element and stops at the first throw; properties in `EachErrExtends`, `EachIndexwise`, `EachOkIff`, `PushEach` |
| Loops.Fold | index.js:161-184 | definition of the `each` loop updating one record, stopping at the first throw; properties in `FoldErrExtends`, `FoldSnoc`, `FoldAppend`, `FoldKeeps`, `FoldAll` |
| Loops.KeptErrExtends | index.js:218-224 | the first entry that throws ends the navigation loop with its error |
| Loops.KeptAppend | index.js:218-224 | the chapters of two runs of links are the chapters of each, in order |
| Loops.KeptSingle | index.js:218-224 | one link contributes its chapter, nothing, or its error |
| Loops.PushKept | index.js:216-225 | the `forEach`/`push` loop returns exactly the kept entries, in order, or the first error |
| Loops.EachErrExtends | index.js:231-235 | the first `navPoint` that throws ends the NCX loop with its error |
| Loops.EachIndexwise | index.js:231-235 | a successful NCX loop has one chapter per `navPoint`, each that point's own |
| Loops.EachOkIff | index.js:231-235 | the NCX loop succeeds exactly when every `navPoint` does |
| Loops.PushEach | index.js:229-236 | the `forEach`/`push` loop returns one chapter per point, in order, or the first error |
| Loops.FoldErrExtends | index.js:161-184 | the first `<meta>` that throws ends the loop with its error |
| Loops.FoldSnoc | index.js:161-184 | one more `<meta>` applies its update to the record so far |
| Loops.FoldKeeps | index.js:161-184 | a property every update preserves holds after the loop |
| Loops.FoldAppend | index.js:161-184 | the loop over two runs of `<meta>` is the loop over the second started from the first's record, or the first's error |
| Loops.FoldAll | index.js:161-184 | the `each` loop returns the record after every update in order, or the first error |
| Toc.LinkTarget | index.js:219 | definition of a link's archive path: a TypeError for a missing href, else fragment cut, `unescape`, `resolve` against the table of contents; properties in `FragmentCutBeforeUnescape`, `NoFragment`, `EscapedHashKept` |
| Toc.XhtmlEntry | index.js:218-224 | definition of one navigation link: target, decoded text, front-matter test, number strip; properties in `FrontMatterDropped`, `NotFrontMatter`, `TestedBeforeStrip`, `XhtmlEntryPlain` |
| Toc.NcxEntry | index.js:231-235 | definition of one `navPoint`: label decoded (a TypeError with none), then target; properties in `NcxKeepsEvery` |
| Toc.IsFrontMatter | index.js:221 | definition of `/^[ⅰⅱ]?[.] /`; properties in `FrontMatterDropped` and `NotFrontMatter` |
| Toc.StripNumber | index.js:222 | definition of `replace(/^\d+[.] /, '')`; properties in `StripNumberOnce`, `StripNumberKeeps`, `ChapterThree` |
| Toc.XhtmlToc | index.js:215-226 | definition of `readXHTMLTOC` as one expression; properties in `XhtmlInOrder` and `ReadXhtmlToc` |
| Toc.NcxToc | index.js:228-237 | definition of `readNCXTOC` as one expression; properties in `NcxKeepsEvery` and `ReadNcxToc` |
| Toc.StripFragment | index.js:219 | cutting the fragment never lengthens the href |
| Toc.FragmentCutBeforeUnescape | index.js:219 | everything from the first `#` is cut |
| Toc.NoFragment | index.js:219 | an href without `#` is kept whole |
| Toc.EscapedHashKept | index.js:219 | an escaped `%23` survives the cut and becomes `#` only after it |
| Toc.XhtmlInOrder | index.js:218-224 | navigation chapters keep document order, and one link gives its chapter, nothing, or its error |
| Toc.NcxKeepsEvery | index.js:231-235 | the NCX reader keeps every `navPoint`, in order, with no filtering |
| Toc.SelectorPassThrough | index.js:50 | a selector without `$` reaches cheerio unchanged |
| Toc.ReadXhtmlToc | index.js:215-226 | `readXHTMLTOC` yields the chapters of the `nav[epub:type="toc"] li a` links, or the first error |
| Toc.ReadNcxToc | index.js:228-237 | `readNCXTOC` yields a chapter for every `navPoint`, or the first error |
| Toc.FrontMatterDropped | index.js:220-221 | a link whose decoded text opens with `. `, `ⅰ. ` or `ⅱ. ` is dropped |
| Toc.NotFrontMatter | index.js:221 | any other first character keeps the link, including an ASCII `i` |
| Toc.TestedBeforeStrip | index.js:220-222 | the front-matter test sees the text before the number is stripped, so `1. . Notes` is kept as `. Notes` |
| Toc.StripNumberOnce | index.js:222 | exactly one leading `digits. ` is removed |
| Toc.StripNumberKeeps | index.js:222 | a title that does not open with a digit is kept |
| Toc.ChapterThree | index.js:222 | `3. Chapter Three` becomes `Chapter Three` |
| Toc.XhtmlEntryPlain | index.js:218-223 | a plain link becomes a chapter with the resolved target and the title without its number |
| Metadata.Nsify | index.js:96-102 | definition of `nsify`; properties in the `Nsify…` lemmas |
| Metadata.DcMetadata | index.js:150-160 | definition of the record after the Dublin Core assignments; properties in `DcFieldRules`, `MissingDateAbsent`, `TagsPartition` |
| Metadata.PropertyOf | index.js:163-164 | definition of `nsify(property) \|\| nsify(name)`; properties in `PropertyWins` and `NameFallback` |
| Metadata.Dispatch | index.js:165-183 | definition of the `if … else if` chain on the property; properties in `DispatchExact` and `OtherPropertiesIgnored` |
| Metadata.Written | index.js:165-180 | definition of the value each branch assigns; its own ensures: the value has the field's type; further properties in `ApplyMetaOnly` and `LastMember` |
| Metadata.ApplyMeta | index.js:162-183 | definition of one `each` callback; properties in `ApplyMetaOnly`, `PutOnly`, `OtherPropertiesIgnored` |
| Metadata.PackageTables | index.js:136-149 | definition of the tables after the three registrations, a TypeError without `<metadata>`; properties in `RegisterPrefixes` and `NoMetadataElementThrows` |
| Metadata.DocumentMetadata | index.js:133-192 | definition of `readMetadata` on a parsed document; properties in `DocumentMetadataShape` and `ReadDocument` |
| Metadata.MetadataOf | index.js:132-193 | definition of `readMetadata(zip, metadataFilename)`; properties in `ReadMetadata` |
| Metadata.NsifyUnchanged | index.js:97 | an undefined, empty or colon-free name comes back unchanged |
| Metadata.NsifySplit | index.js:98-101 | a name is split at its first colon only; the prefix is looked up in `fprefix`, the rest is kept |
| Metadata.NsifyEmptyLocal | index.js:99 | a trailing colon is dropped and nothing is looked up |
| Metadata.NsifyLeadingColon | index.js:98 | a name that opens with a colon throws |
| Metadata.NsifyCalibre | index.js:98-101 | `calibre:user_metadata:#words` becomes `calibre$user_metadata:#words` |
| Metadata.TagsPartition | index.js:159-160 | the tags joined by commas give back the subject; no tag holds a comma; no tags exactly for an empty subject |
| Metadata.TagsNotTrimmed | index.js:159 | `"a, b"` gives `["a", " b"]` |
| Metadata.DcFieldRules | index.js:150-158 | scalar fields take the first element's non-empty text; `identifier` and `creator` keep every element in order; the date is kept exactly when it parses |
| Metadata.MissingDateAbsent | index.js:157-158 | with no `dc:date` the date is absent |
| Metadata.DispatchExact | index.js:164-183 | a property selects a field exactly when it equals that field's name; any other property selects none |
| Metadata.PutOnly | index.js:164-181 | each branch writes its own field and nothing else |
| Metadata.LastMember | index.js:166-176 | the `#value#` member of a parsed object is found exactly when the object has one, and its value is that of the last duplicate |
| Metadata.PropertyWins | index.js:162-163 | a truthy normalised `property` is used and `name` is never looked at |
| Metadata.NameFallback | index.js:162-163 | without `property`, the normalised `name` decides |
| Metadata.ApplyMetaOnly | index.js:161-184 | one `<meta>` writes only the field its property names, with that branch's value |
| Metadata.OtherPropertiesIgnored | index.js:181-183 | any other property changes nothing |
| Metadata.NamingStepWrites | index.js:161-184 | the `<meta>` just applied decides the field it names |
| Metadata.LastMetaWins | index.js:161-184 | in any run of `<meta>` elements, the last one naming a field decides its value, whatever comes before it and whatever later elements naming other fields do |
| Metadata.UnnamedFieldKept | index.js:161-184 | a field no `<meta>` names keeps its value, and the Dublin Core fields survive the loop |
| Metadata.TocPointer | index.js:185-191 | a truthy nav href wins; an NCX href is used only without one; with neither the pointer is unset; the path is resolved against the package document |
| Metadata.NoMetadataElementThrows | index.js:144-145 | a package without `<metadata>` throws |
| Metadata.DocumentMetadataShape | index.js:132-193 | the result is the `<meta>` loop run over the Dublin Core record, plus the pointer, and keeps the Dublin Core fields |
| Metadata.SelectDc | index.js:150-160 | `` $`dc$name` `` selects `dc` elements under the document's alias for `dc` |
| Metadata.DcScalar | index.js:151-154 | a scalar field is the first element's text, absent when empty |
| Metadata.DcList | index.js:150 | a list field is every element's text |
| Metadata.DcDate | index.js:157-158 | the date, deleted when it does not parse |
| Metadata.DcTags | index.js:159-160 | the tags of the first subject |
| Metadata.ReadDcFields | index.js:150-160 | the assignments build the Dublin Core record |
| Metadata.RegisterPrefixes | index.js:136-149 | the three registrations give the package's tables, or the error they throw |
| Metadata.ReadTocPointer | index.js:185-191 | the pointer chosen by the preference rule |
| Metadata.ReadDocument | index.js:133-192 | readMetadata on a loaded document |
| Metadata.ReadMetadata | index.js:132-193 | `readMetadata` returns the record the field rules define, or the first error |
| Epub.ContentPointer | index.js:127-130 | definition of `findMetadataFilename` with the falsy check of its caller (index.js:248); properties in `FindMetadataFilename`, `MissingContainerThrows`, `NoRootfileThrows` |
| Epub.WithChapters | index.js:250-256 | definition of the `meta.toc.type` dispatch; properties in `EpubChapters` and `NoTocThrows` |
| Epub.EpubOf | index.js:239-258 | definition of what the exported function resolves to; properties in `ReadEpub`, `EpubChapters`, `MimetypeIgnored` |
| Epub.PointerOf | index.js:248 | a content pointer is never empty |
| Epub.MimetypeWarning | index.js:241-246 | a warning is logged exactly when the `mimetype` entry is missing or not `application/epub+zip` |
| Epub.FindMetadataFilename | index.js:127-130 | the `full-path` of the package rootfile in META-INF/container.xml |
| Epub.ReadEpub | index.js:239-258 | the exported function's result, and whether it logs a mimetype warning, which never changes the result |
| Epub.MissingContainerThrows | index.js:128 | without META-INF/container.xml the reader throws "file not found" |
| Epub.NoRootfileThrows | index.js:248 | without a package rootfile, or with an empty `full-path`, the reader throws |
| Epub.NoTocThrows | index.js:250 | with neither a navigation document nor an NCX file, reading `meta.toc.type` throws the TypeError of reading `type` of undefined |
| Epub.MetadataLeavesPointer | index.js:185-191 | readMetadata leaves a pointer or nothing in `toc` |
| Epub.EpubChapters | index.js:249-257 | a successful read replaces the pointer by the chapters of the file it names, read as its kind, and keeps every other field |
| Epub.MimetypeIgnored | index.js:241-246 | changing the `mimetype` entry does not change the result, whether the archive is read or rejected, as long as neither the content pointer nor the table of contents names that entry |

## Left out

- Zip access is a map from entry name to text. AdmZip, the buffer's `toString()` decoding, the `zip` field of `Chapter` and `Chapter.get()` are not part of this model.
- cheerio is opaque. A parsed document is a function from selector text to the matched elements, and each element carries its attributes, `.text()`, the NCX `navLabel text` HTML and the `content` `src`. The model relies on cheerio's selector semantics (nested `navPoint`s, descendant `find`) through these fields.
- `new Date` and `JSON.parse` are opaque host functions; `MissingDateAbsent` assumes that `new Date("")` does not parse.
- Object keys are own properties only. A key that JavaScript finds on `Object.prototype` (such as `constructor`) in `defaultns`, `fprefix` or `rprefix` is treated as missing.
- Entities.FromCodePoint: a lone surrogate (U+D800 to U+DFFF) is an `Unrepresentable` error, because a Dafny `char` cannot hold one; JavaScript returns a one-unit string.
- Entities.Unescape: it works on Dafny characters, not UTF-16 code units, so a character above U+FFFF counts as one unit and `%uXXXX` cannot produce a surrogate.
- Entities.DecodeEntitiesPlain: stated for text without `&`, which is stronger than the code's condition of text without `&#`.
- Prefixes.XmlnsThrowsIff: stated for attribute names without line terminators, which XML names never hold.
- The generic XML translator (`translateXML`, `translateTag`, `translateAttrs`, `nsName`, `flatMap`, `xmlOpts`) is not part of this model. Nothing the entry point calls reaches it.
- `unique-identifier` is read from `<package>` and never used, so the model does not read it.
- async/await is modelled as sequential calls. The `console.error` and `console.log` calls are out; the mimetype warning is returned as a flag instead.
- An output key holding `undefined` and an absent key are both `None`. For example `modified` is always set once a matching `<meta>` exists, even to an invalid date, while `date` is deleted.
- The query function's third form, `$(element)`, is not modelled; the element's fields are used directly.
