/** `readMetadata(zip, metadataFilename)` (index.js:132-193): the package
    document's Dublin Core fields, the calibre and EPUB 3 `<meta>` fields,
    and the pointer to the table of contents; and `nsify` (index.js:96-102),
    which turns a `prefix:local` property name into the `canonical$local`
    form the `<meta>` dispatch compares against. */
module Metadata {
  import opened Base
  import opened Host
  import opened Namespaces
  import opened Query
  import opened Prefixes
  import opened Paths
  import opened Loops
  import opened Toc

  // ---------------------------------------------------------------------
  // nsify (index.js:96-102)

  /** The index of the first `:` in `s`, or `|s|`. */
  function FirstColon(s: string): (j: nat)
    ensures j <= |s|
  {
    if s == [] || s[0] == ':' then 0 else 1 + FirstColon(s[1..])
  }

  /** `nsify(name, prefixes)`. An undefined or empty name comes back as it
      is. `/^([^:]+)(?::(.*))?$/` splits at the first colon; it fails (and
      the destructuring throws) when the name opens with `:` or when a line
      terminator follows the colon. A name without a colon, or with nothing
      after it, comes back as its part before the colon; otherwise that part
      is replaced by its entry in `prefixes` when the entry is truthy, and
      joined to the rest by `$`. */
  function Nsify(name: Option<string>, prefixes: map<string, string>): Result<Option<string>> {
    if name.None? || name.value == "" then Ok(name)
    else
      var s := name.value;
      var j := FirstColon(s);
      if j == 0 then Err(TypeError("destructuring a failed name match"))
      else if j == |s| then Ok(name)
      else if !NoLineTerminator(s[j + 1..]) then Err(TypeError("destructuring a failed name match"))
      else if j + 1 == |s| then Ok(Some(s[..j]))
      else Ok(Some(Lookup(prefixes, s[..j]) + "$" + s[j + 1..]))
  }

  predicate ColonFree(s: string) {
    Free(s, ':')
  }

  lemma {:induction false} FirstColonAfter(p: string, rest: string)
    requires ColonFree(p)
    ensures FirstColon(p + ":" + rest) == |p|
    decreases |p|
  {
    if p != [] {
      assert (p + ":" + rest)[1..] == p[1..] + ":" + rest;
      FirstColonAfter(p[1..], rest);
    }
  }

  lemma {:induction false} FirstColonNone(s: string)
    requires ColonFree(s)
    ensures FirstColon(s) == |s|
    decreases |s|
  {
    if s != [] {
      FirstColonNone(s[1..]);
    }
  }

  /** Undefined, empty and colon-free names come back unchanged. */
  lemma NsifyUnchanged(name: Option<string>, prefixes: map<string, string>)
    requires name.None? || ColonFree(name.value)
    ensures Nsify(name, prefixes) == Ok(name)
  {
    if name.Some? {
      FirstColonNone(name.value);
    }
  }

  /** A qualified name is split at its first colon only: the part before it
      is looked up, and everything after it, colons included, is kept. */
  lemma NsifySplit(prefix: string, local: string, prefixes: map<string, string>)
    requires prefix != [] && ColonFree(prefix)
    requires local != [] && NoLineTerminator(local)
    ensures Nsify(Some(prefix + ":" + local), prefixes) == Ok(Some(Lookup(prefixes, prefix) + "$" + local))
  {
    var s := prefix + ":" + local;
    FirstColonAfter(prefix, local);
    assert s[..|prefix|] == prefix;
    assert s[|prefix| + 1..] == local;
  }

  /** A trailing colon is dropped and nothing is looked up. */
  lemma NsifyEmptyLocal(prefix: string, prefixes: map<string, string>)
    requires prefix != [] && ColonFree(prefix)
    ensures Nsify(Some(prefix + ":"), prefixes) == Ok(Some(prefix))
  {
    var s := prefix + ":";
    assert s == prefix + ":" + "";
    FirstColonAfter(prefix, "");
    assert s[..|prefix|] == prefix;
  }

  /** A name that opens with a colon throws. */
  lemma NsifyLeadingColon(name: string, prefixes: map<string, string>)
    requires name != [] && name[0] == ':'
    ensures Nsify(Some(name), prefixes).Err?
  {
  }

  /** `calibre:user_metadata:#words` becomes `calibre$user_metadata:#words`
      once `calibre` maps to itself. */
  lemma NsifyCalibre(prefix: string, local: string, prefixes: map<string, string>)
    requires prefix == "calibre" && local == "user_metadata:#words"
    requires prefix in prefixes && prefixes[prefix] == prefix
    ensures Nsify(Some(prefix + ":" + local), prefixes) == Ok(Some(prefix + "$" + local))
  {
    NsifySplit(prefix, local, prefixes);
  }

  // ---------------------------------------------------------------------
  // The record readMetadata builds

  datatype TocKind = Xhtml | Ncx

  /** `meta.toc`: unset, the pointer `readMetadata` leaves, or the chapters
      the entry point puts in its place. */
  datatype TocField = Unset | Pointer(kind: TocKind, filename: string) | Chapters(chapters: seq<Chapter>)

  /** The `meta` object, one field per output key. An absent key and a key
      holding `undefined` are both None. */
  datatype Metadata = Metadata(
    identifier: seq<string>,
    language: Option<string>,
    title: Option<string>,
    source: Option<string>,
    publisher: Option<string>,
    creator: seq<string>,
    description: Option<string>,
    date: Option<JsDate>,
    tags: seq<string>,
    modified: Option<JsDate>,
    updated: Option<JsDate>,
    words: Option<Json>,
    authorurl: Option<Json>,
    status: Option<Json>,
    fandom: Option<Json>,
    timestamp: Option<JsDate>,
    title_sort: Option<string>,
    toc: TocField)

  // ---------------------------------------------------------------------
  // Dublin Core fields (index.js:150-160)

  /** `` $`dc$name` ``: the `dc` elements of that name, under the document's
      alias for `dc`. */
  function DcSelect(dom: Dom, rprefix: map<string, string>, name: string): seq<Element> {
    dom.select(Lookup(rprefix, "dc") + "\\:" + name)
  }

  /** `subject.split(/,/)`, with a lone empty string turned into no tags. */
  function Tags(subject: string): seq<string> {
    var parts := Split(subject, ',');
    if parts == [""] then [] else parts
  }

  /** `new Date(text)`, dropped when it does not parse. */
  function ValidDate(d: JsDate): Option<JsDate> {
    if d == InvalidDate then None else Some(d)
  }

  /** The record after the Dublin Core assignments: scalar fields from the
      first element's text (empty text gives none), list fields from every
      element, the date only when it parses, the tags from the first subject. */
  function DcMetadata(dom: Dom, rprefix: map<string, string>, host: Host): Metadata {
    Metadata(
      identifier := Texts(DcSelect(dom, rprefix, "identifier")),
      language := Truthy(FirstText(DcSelect(dom, rprefix, "language"))),
      title := Truthy(FirstText(DcSelect(dom, rprefix, "title"))),
      source := Truthy(FirstText(DcSelect(dom, rprefix, "source"))),
      publisher := Truthy(FirstText(DcSelect(dom, rprefix, "publisher"))),
      creator := Texts(DcSelect(dom, rprefix, "creator")),
      description := Truthy(FirstText(DcSelect(dom, rprefix, "description"))),
      date := ValidDate(host.newDate(Some(JString(FirstText(DcSelect(dom, rprefix, "date")))))),
      tags := Tags(FirstText(DcSelect(dom, rprefix, "subject"))),
      modified := None, updated := None, words := None, authorurl := None,
      status := None, fandom := None, timestamp := None, title_sort := None,
      toc := Unset)
  }

  /** Joining the tags with commas gives the subject back; no tag holds a
      comma; and there are no tags exactly when the subject is empty. */
  lemma TagsPartition(subject: string)
    ensures Join(Tags(subject), ',') == subject
    ensures forall i :: 0 <= i < |Tags(subject)| ==> Free(Tags(subject)[i], ',')
    ensures Tags(subject) == [] <==> subject == ""
  {
    JoinSplit(subject, ',');
    SplitPartsFree(subject, ',');
    if Split(subject, ',') == [""] {
      assert Join([""], ',') == "";
    }
  }

  /** `"a, b"` splits into `"a"` and `" b"`: the space is not trimmed. */
  lemma TagsNotTrimmed(subject: string)
    requires subject == "a, b"
    ensures Tags(subject) == ["a", " b"]
  {
    assert subject == "a" + [','] + " b";
    SplitConcat("a", " b", ',');
    SplitFree("a", ',');
    SplitFree(" b", ',');
  }

  /** The scalar fields take the first element's text, and only when it is
      not empty; the list fields keep every element's text in order; the
      date is kept exactly when it parses. */
  lemma DcFieldRules(dom: Dom, rprefix: map<string, string>, host: Host, name: string)
    requires name in ["language", "title", "source", "publisher", "description"]
    ensures var m := DcMetadata(dom, rprefix, host);
            var es := DcSelect(dom, rprefix, name);
            var field := if name == "language" then m.language else if name == "title" then m.title
                         else if name == "source" then m.source else if name == "publisher" then m.publisher
                         else m.description;
            (field.Some? <==> es != [] && es[0].text != "")
            && (field.Some? ==> field.value == es[0].text)
    ensures var m := DcMetadata(dom, rprefix, host);
            var ids := DcSelect(dom, rprefix, "identifier");
            |m.identifier| == |ids| && forall i :: 0 <= i < |ids| ==> m.identifier[i] == ids[i].text
    ensures var m := DcMetadata(dom, rprefix, host);
            var cs := DcSelect(dom, rprefix, "creator");
            |m.creator| == |cs| && forall i :: 0 <= i < |cs| ==> m.creator[i] == cs[i].text
    ensures var m := DcMetadata(dom, rprefix, host);
            var d := host.newDate(Some(JString(FirstText(DcSelect(dom, rprefix, "date")))));
            (m.date.Some? <==> d != InvalidDate) && (m.date.Some? ==> m.date.value == d)
  {
  }

  /** Without a `dc:date` the date is `new Date("")`, which does not parse,
      so the field is absent. */
  lemma MissingDateAbsent(dom: Dom, rprefix: map<string, string>, host: Host)
    requires DcSelect(dom, rprefix, "date") == []
    requires host.newDate(Some(JString(""))) == InvalidDate
    ensures DcMetadata(dom, rprefix, host).date == None
  {
  }

  // ---------------------------------------------------------------------
  // The <meta> loop (index.js:161-184)

  /** The eight properties the loop acts on. */
  datatype MetaField = Modified | Updated | Words | AuthorUrl | Status | Fandom | Timestamp | TitleSort

  /** The exact property string that selects each field. */
  function PropertyName(f: MetaField): string {
    match f
    case Modified => "dcterms$modified"
    case Updated => "calibre$user_metadata:#updated"
    case Words => "calibre$user_metadata:#words"
    case AuthorUrl => "calibre$user_metadata:#authorurl"
    case Status => "calibre$user_metadata:#status"
    case Fandom => "calibre$user_metadata:#fandom"
    case Timestamp => "calibre$timestamp"
    case TitleSort => "calibre$title_sort"
  }

  /** The `if … else if` chain on `property`. */
  function Dispatch(property: Option<string>): Option<MetaField> {
    if property.None? then None
    else
      var p := property.value;
      if p == "dcterms$modified" then Some(Modified)
      else if p == "calibre$user_metadata:#updated" then Some(Updated)
      else if p == "calibre$user_metadata:#words" then Some(Words)
      else if p == "calibre$user_metadata:#authorurl" then Some(AuthorUrl)
      else if p == "calibre$user_metadata:#status" then Some(Status)
      else if p == "calibre$user_metadata:#fandom" then Some(Fandom)
      else if p == "calibre$timestamp" then Some(Timestamp)
      else if p == "calibre$title_sort" then Some(TitleSort)
      else None
  }

  /** Dispatch is exact: a property selects a field exactly when it is that
      field's name, and any other property selects nothing. */
  lemma DispatchExact(property: Option<string>, f: MetaField)
    ensures Dispatch(property) == Some(f) <==> property == Some(PropertyName(f))
  {
  }

  /** The value a `<meta>` writes: a date, a JSON value, or a string. */
  datatype MetaValue = DateValue(d: Option<JsDate>) | JsonValue(j: Option<Json>) | TextValue(t: Option<string>)

  predicate Fits(f: MetaField, v: MetaValue) {
    match f
    case Modified | Updated | Timestamp => v.DateValue?
    case Words | AuthorUrl | Status | Fandom => v.JsonValue?
    case TitleSort => v.TextValue?
  }

  /** A field's current value. */
  function Field(m: Metadata, f: MetaField): (v: MetaValue)
    ensures Fits(f, v)
  {
    match f
    case Modified => DateValue(m.modified)
    case Updated => DateValue(m.updated)
    case Timestamp => DateValue(m.timestamp)
    case Words => JsonValue(m.words)
    case AuthorUrl => JsonValue(m.authorurl)
    case Status => JsonValue(m.status)
    case Fandom => JsonValue(m.fandom)
    case TitleSort => TextValue(m.title_sort)
  }

  /** `meta.<field> = value` */
  function Put(m: Metadata, f: MetaField, v: MetaValue): Metadata
    requires Fits(f, v)
  {
    match f
    case Modified => m.(modified := v.d)
    case Updated => m.(updated := v.d)
    case Timestamp => m.(timestamp := v.d)
    case Words => m.(words := v.j)
    case AuthorUrl => m.(authorurl := v.j)
    case Status => m.(status := v.j)
    case Fandom => m.(fandom := v.j)
    case TitleSort => m.(title_sort := v.t)
  }

  /** The fields no `<meta>` can write. */
  predicate SameOutsideMeta(a: Metadata, b: Metadata) {
    a.identifier == b.identifier && a.language == b.language && a.title == b.title
    && a.source == b.source && a.publisher == b.publisher && a.creator == b.creator
    && a.description == b.description && a.date == b.date && a.tags == b.tags && a.toc == b.toc
  }

  /** An assignment writes its field and nothing else. */
  lemma PutOnly(m: Metadata, f: MetaField, v: MetaValue, g: MetaField)
    requires Fits(f, v)
    ensures Field(Put(m, f, v), g) == (if g == f then v else Field(m, g))
    ensures SameOutsideMeta(Put(m, f, v), m)
  {
  }

  /** The last member named `key` of a parsed object: `JSON.parse` keeps the
      last of duplicate keys. */
  function LastMember(members: seq<(string, Json)>, key: string): (r: Option<Json>)
    ensures r.Some? <==> exists i :: 0 <= i < |members| && members[i].0 == key
    ensures r.Some? ==> exists i :: 0 <= i < |members| && members[i] == (key, r.value)
                                    && forall j :: i < j < |members| ==> members[j].0 != key
    decreases |members|
  {
    if members == [] then None
    else if members[|members| - 1].0 == key then Some(members[|members| - 1].1)
    else LastMember(members[..|members| - 1], key)
  }

  /** `value['#value#']`: null throws; an object yields its member (or
      undefined); any other value has no such property. */
  function HashValue(j: Json): Result<Option<Json>> {
    match j
    case JNull => Err(TypeError("property of null"))
    case JObject(members) => Ok(LastMember(members, "#value#"))
    case _ => Ok(None)
  }

  /** `JSON.parse($mm.attr('content'))['#value#']`. A missing attribute is
      parsed as the text "undefined", which is not JSON. */
  function ContentValue(host: Host, e: Element): Result<Option<Json>> {
    var content := Attr(e, "content");
    var parsed := host.parseJson(if content.Some? then content.value else "undefined");
    if parsed.None? then Err(SyntaxError) else HashValue(parsed.value)
  }

  /** `new Date(x)` on an attribute that may be missing. */
  function DateOf(host: Host, s: Option<string>): JsDate {
    host.newDate(if s.Some? then Some(JString(s.value)) else None)
  }

  /** The value the branch for `f` assigns. */
  function Written(host: Host, e: Element, f: MetaField): (r: Result<MetaValue>)
    ensures r.Ok? ==> Fits(f, r.value)
  {
    match f
    case Modified => Ok(DateValue(Some(host.newDate(Some(JString(e.text))))))
    case Updated =>
      var v :- ContentValue(host, e);
      Ok(DateValue(Some(host.newDate(v))))
    case Words | AuthorUrl | Status | Fandom =>
      var v :- ContentValue(host, e);
      Ok(JsonValue(v))
    case Timestamp => Ok(DateValue(Some(DateOf(host, Attr(e, "content")))))
    case TitleSort => Ok(TextValue(Attr(e, "content")))
  }

  /** `nsify(property) || nsify(name)`: the `name` attribute is consulted
      only when the `property` one gives nothing truthy. */
  function PropertyOf(e: Element, fprefix: map<string, string>): Result<Option<string>> {
    var p :- Nsify(Attr(e, "property"), fprefix);
    if p.Some? && p.value != "" then Ok(p) else Nsify(Attr(e, "name"), fprefix)
  }

  /** One pass of the `each` callback. */
  function ApplyMeta(m: Metadata, e: Element, fprefix: map<string, string>, host: Host): Result<Metadata> {
    var property :- PropertyOf(e, fprefix);
    var field := Dispatch(property);
    if field.None? then Ok(m)
    else
      var v :- Written(host, e, field.value);
      Ok(Put(m, field.value, v))
  }

  function MetaStep(fprefix: map<string, string>, host: Host): (Metadata, Element) -> Result<Metadata> {
    (m, e) => ApplyMeta(m, e, fprefix, host)
  }

  /** The `property` attribute wins: when it gives a truthy name, the `name`
      attribute is not looked at, not even to throw. */
  lemma PropertyWins(e: Element, fprefix: map<string, string>, p: string)
    requires Nsify(Attr(e, "property"), fprefix) == Ok(Some(p)) && p != ""
    ensures PropertyOf(e, fprefix) == Ok(Some(p))
  {
  }

  /** Without a `property` attribute the `name` attribute decides. */
  lemma NameFallback(e: Element, fprefix: map<string, string>)
    requires Attr(e, "property").None?
    ensures PropertyOf(e, fprefix) == Nsify(Attr(e, "name"), fprefix)
  {
  }

  /** One `<meta>` writes at most the field its property names, and the
      value of that branch; everything else stays. */
  lemma ApplyMetaOnly(m: Metadata, e: Element, fprefix: map<string, string>, host: Host, g: MetaField)
    requires ApplyMeta(m, e, fprefix, host).Ok?
    ensures SameOutsideMeta(ApplyMeta(m, e, fprefix, host).value, m)
    ensures Dispatch(PropertyOf(e, fprefix).value) != Some(g) ==>
              Field(ApplyMeta(m, e, fprefix, host).value, g) == Field(m, g)
    ensures Dispatch(PropertyOf(e, fprefix).value) == Some(g) ==>
              Field(ApplyMeta(m, e, fprefix, host).value, g) == Written(host, e, g).value
  {
    var property := PropertyOf(e, fprefix).value;
    if Dispatch(property).Some? {
      PutOnly(m, Dispatch(property).value, Written(host, e, Dispatch(property).value).value, g);
    }
  }

  /** A `<meta>` with any property other than the eight changes nothing. */
  lemma OtherPropertiesIgnored(m: Metadata, e: Element, fprefix: map<string, string>, host: Host)
    requires PropertyOf(e, fprefix).Ok? && Dispatch(PropertyOf(e, fprefix).value).None?
    ensures ApplyMeta(m, e, fprefix, host) == Ok(m)
  {
  }

  /** No element of `es` names the field `f`. */
  predicate NoneNames(es: seq<Element>, fprefix: map<string, string>, f: MetaField) {
    forall i :: 0 <= i < |es| && PropertyOf(es[i], fprefix).Ok? ==> Dispatch(PropertyOf(es[i], fprefix).value) != Some(f)
  }

  /** The step at a `<meta>` naming `f` writes that element's value. */
  lemma NamingStepWrites(m: Metadata, es: seq<Element>, e: Element, fprefix: map<string, string>, host: Host, f: MetaField)
    requires Fold(MetaStep(fprefix, host), m, es + [e]).Ok?
    requires PropertyOf(e, fprefix).Ok? && Dispatch(PropertyOf(e, fprefix).value) == Some(f)
    ensures Written(host, e, f) == Ok(Field(Fold(MetaStep(fprefix, host), m, es + [e]).value, f))
  {
    var step := MetaStep(fprefix, host);
    FoldSnoc(step, m, es, e);
    var prev := Fold(step, m, es).value;
    assert step(prev, e) == ApplyMeta(prev, e, fprefix, host);
    ApplyMetaOnly(prev, e, fprefix, host, f);
  }

  /** Last wins: after the loop, a field holds the value written by the last
      `<meta>` that names it, whatever the earlier ones wrote and whatever
      the later ones write to other fields. */
  lemma LastMetaWins(m: Metadata, before: seq<Element>, e: Element, after: seq<Element>,
                     fprefix: map<string, string>, host: Host, f: MetaField)
    requires Fold(MetaStep(fprefix, host), m, before + [e] + after).Ok?
    requires PropertyOf(e, fprefix).Ok? && Dispatch(PropertyOf(e, fprefix).value) == Some(f)
    requires NoneNames(after, fprefix, f)
    ensures Written(host, e, f) == Ok(Field(Fold(MetaStep(fprefix, host), m, before + [e] + after).value, f))
  {
    var step := MetaStep(fprefix, host);
    var mid := Fold(step, m, before + [e]);
    var whole := Fold(step, m, before + [e] + after);
    FoldAppend(step, m, before + [e], after);
    assert mid.Ok? && whole == Fold(step, mid.value, after);
    NamingStepWrites(m, before, e, fprefix, host, f);
    UnnamedFieldKept(mid.value, after, fprefix, host, f);
    assert Field(whole.value, f) == Field(mid.value, f);
  }

  /** A field no `<meta>` names keeps the value it had before the loop, and
      the loop never touches the Dublin Core fields or the pointer. */
  lemma UnnamedFieldKept(m: Metadata, es: seq<Element>, fprefix: map<string, string>, host: Host, f: MetaField)
    requires NoneNames(es, fprefix, f)
    ensures Fold(MetaStep(fprefix, host), m, es).Ok? ==>
              Field(Fold(MetaStep(fprefix, host), m, es).value, f) == Field(m, f)
              && SameOutsideMeta(Fold(MetaStep(fprefix, host), m, es).value, m)
  {
    var step := MetaStep(fprefix, host);
    var P := (t: Metadata) => Field(t, f) == Field(m, f) && SameOutsideMeta(t, m);
    forall t, i | 0 <= i < |es| && P(t) && step(t, es[i]).Ok?
      ensures P(step(t, es[i]).value)
    {
      assert step(t, es[i]) == ApplyMeta(t, es[i], fprefix, host);
      ApplyMetaOnly(t, es[i], fprefix, host, f);
    }
    FoldKeeps(step, m, es, P);
  }

  // ---------------------------------------------------------------------
  // The pointer to the table of contents (index.js:185-191)

  const NavItem := "item[properties=\"nav\"]"
  const NcxItem := "item[media-type=\"application/x-dtbncx+xml\"]"

  /** The navigation document wins when its `href` is truthy; the NCX file is
      used only otherwise; with neither the pointer stays unset. */
  function TocPointer(navHref: Option<string>, ncxHref: Option<string>, filename: string): (t: TocField)
    ensures t.Pointer? && t.kind == Xhtml <==> navHref.Some? && navHref.value != ""
    ensures t.Pointer? && t.kind == Ncx <==> (navHref.None? || navHref.value == "") && ncxHref.Some? && ncxHref.value != ""
    ensures t.Pointer? && t.kind == Xhtml ==> t.filename == Resolve(filename, navHref.value)
    ensures t.Pointer? && t.kind == Ncx ==> t.filename == Resolve(filename, ncxHref.value)
    ensures t.Unset? || t.Pointer?
  {
    if navHref.Some? && navHref.value != "" then Pointer(Xhtml, Resolve(filename, navHref.value))
    else if ncxHref.Some? && ncxHref.value != "" then Pointer(Ncx, Resolve(filename, ncxHref.value))
    else Unset
  }

  function TocPointerOf(dom: Dom, filename: string): TocField {
    TocPointer(FirstAttr(dom.select(NavItem), "href"), FirstAttr(dom.select(NcxItem), "href"), filename)
  }

  // ---------------------------------------------------------------------
  // readMetadata as a whole

  /** The prefix tables after the three registrations (index.js:136-149):
      the canonical prefixes, the `prefix` attribute of `<package>`, and the
      `xmlns:` attributes of the first `<metadata>`; with no `<metadata>`,
      `Object.keys(undefined)` throws. */
  function PackageTables(dom: Dom): Result<Tables> {
    var declared :- PrefixAttrPairs(FirstAttr(dom.select("package"), "prefix"));
    var mds := dom.select("metadata");
    if mds == [] then Err(TypeError("keys of undefined"))
    else
      var xmlns :- XmlnsPairs(mds[0], mds[0].attrs);
      Ok(Registered(Registered(Registered(Tables(map[], map[]), DefaultPairs), declared), xmlns))
  }

  /** readMetadata on a loaded package document. */
  function DocumentMetadata(dom: Dom, filename: string, host: Host): Result<Metadata> {
    var t :- PackageTables(dom);
    var m :- Fold(MetaStep(t.fprefix, host), DcMetadata(dom, t.rprefix, host), dom.select("meta"));
    Ok(m.(toc := TocPointerOf(dom, filename)))
  }

  /** `readMetadata(zip, metadataFilename)` */
  function MetadataOf(zip: Archive, host: Host, filename: string): Result<Metadata> {
    var text :- ReadText(zip, filename);
    DocumentMetadata(host.parse(text), filename, host)
  }

  /** A package document without a `<metadata>` element throws. */
  lemma NoMetadataElementThrows(dom: Dom, filename: string, host: Host)
    requires PrefixAttrPairs(FirstAttr(dom.select("package"), "prefix")).Ok?
    requires dom.select("metadata") == []
    ensures DocumentMetadata(dom, filename, host) == Err(TypeError("keys of undefined"))
  {
  }

  /** The pointer is the only thing read after the `<meta>` loop, and the
      Dublin Core fields survive the loop. */
  lemma DocumentMetadataShape(dom: Dom, filename: string, host: Host)
    requires DocumentMetadata(dom, filename, host).Ok?
    ensures var m := DocumentMetadata(dom, filename, host).value;
            var t := PackageTables(dom).value;
            m.toc == TocPointerOf(dom, filename)
            && m.(toc := Unset) == Fold(MetaStep(t.fprefix, host), DcMetadata(dom, t.rprefix, host), dom.select("meta")).value.(toc := Unset)
            && SameOutsideMeta(m.(toc := Unset), DcMetadata(dom, t.rprefix, host))
  {
    var t := PackageTables(dom).value;
    var m0 := DcMetadata(dom, t.rprefix, host);
    var step := MetaStep(t.fprefix, host);
    var P := (x: Metadata) => SameOutsideMeta(x, m0);
    forall x, i | 0 <= i < |dom.select("meta")| && P(x) && step(x, dom.select("meta")[i]).Ok?
      ensures P(step(x, dom.select("meta")[i]).value)
    {
      var e := dom.select("meta")[i];
      assert step(x, e) == ApplyMeta(x, e, t.fprefix, host);
      ApplyMetaOnly(x, e, t.fprefix, host, Modified);
    }
    FoldKeeps(step, m0, dom.select("meta"), P);
  }

  // ---------------------------------------------------------------------
  // The imperative reader

  lemma PackageSelectorsPlain()
    ensures Free("package", '$') && Free("metadata", '$') && Free("meta", '$')
  {
  }

  lemma ItemSelectorsPlain()
    ensures Free(NavItem, '$') && Free(NcxItem, '$')
  {
  }

  /** `` $`dc$name` `` through the query function. */
  method SelectDc(ctx: QueryContext, name: string) returns (es: seq<Element>)
    requires name != [] && NoLineTerminator(name)
    ensures es == DcSelect(ctx.dom, ctx.rprefix, name)
  {
    QualifiedTemplate(ctx.rprefix, "dc", name);
    var selected := ctx.Select(Template("dc" + "$" + name));
    es := selected.value;
  }

  lemma DcNamesPlain()
    ensures NoLineTerminator("identifier") && NoLineTerminator("language") && NoLineTerminator("title")
    ensures NoLineTerminator("source") && NoLineTerminator("publisher") && NoLineTerminator("creator")
    ensures NoLineTerminator("description") && NoLineTerminator("date") && NoLineTerminator("subject")
  {
  }

  /** `$`dc$name`.first().text() || undefined` */
  method DcScalar(ctx: QueryContext, name: string) returns (v: Option<string>)
    requires name != [] && NoLineTerminator(name)
    ensures v == Truthy(FirstText(DcSelect(ctx.dom, ctx.rprefix, name)))
  {
    var es := SelectDc(ctx, name);
    v := Truthy(FirstText(es));
  }

  /** `$`dc$name`.map((ii, e) => $(e).text()).get()` */
  method DcList(ctx: QueryContext, name: string) returns (v: seq<string>)
    requires name != [] && NoLineTerminator(name)
    ensures v == Texts(DcSelect(ctx.dom, ctx.rprefix, name))
  {
    var es := SelectDc(ctx, name);
    v := Texts(es);
  }

  /** `new Date($`dc$date`.first().text())`, deleted when it does not parse. */
  method DcDate(ctx: QueryContext, host: Host, name: string) returns (v: Option<JsDate>)
    requires name != [] && NoLineTerminator(name)
    ensures v == ValidDate(host.newDate(Some(JString(FirstText(DcSelect(ctx.dom, ctx.rprefix, name))))))
  {
    var es := SelectDc(ctx, name);
    var parsed := host.newDate(Some(JString(FirstText(es))));
    v := Some(parsed);
    if parsed == InvalidDate {
      v := None;
    }
  }

  /** `$`dc$subject`.first().text().split(/,/)`, no tags for an empty subject. */
  method DcTags(ctx: QueryContext, name: string) returns (tags: seq<string>)
    requires name != [] && NoLineTerminator(name)
    ensures tags == Tags(FirstText(DcSelect(ctx.dom, ctx.rprefix, name)))
  {
    var es := SelectDc(ctx, name);
    tags := Split(FirstText(es), ',');
    if |tags| == 1 && tags[0] == "" {
      assert tags == [""];
      tags := [];
    }
  }

  /** The Dublin Core assignments (index.js:150-160), one after the other. */
  method ReadDcFields(ctx: QueryContext, host: Host) returns (m: Metadata)
    ensures m == DcMetadata(ctx.dom, ctx.rprefix, host)
  {
    DcNamesPlain();
    var identifier := DcList(ctx, "identifier");
    var language := DcScalar(ctx, "language");
    var title := DcScalar(ctx, "title");
    var source := DcScalar(ctx, "source");
    var publisher := DcScalar(ctx, "publisher");
    var creator := DcList(ctx, "creator");
    var description := DcScalar(ctx, "description");
    var date := DcDate(ctx, host, "date");
    var tags := DcTags(ctx, "subject");
    m := Metadata(
      identifier := identifier, language := language, title := title, source := source,
      publisher := publisher, creator := creator, description := description, date := date,
      tags := tags,
      modified := None, updated := None, words := None, authorurl := None,
      status := None, fandom := None, timestamp := None, title_sort := None,
      toc := Unset);
  }

  /** PackageTables once the `prefix` attribute is parsed. */
  lemma PackageTablesAt(dom: Dom, declared: Result<seq<(string, string)>>)
    requires declared == PrefixAttrPairs(FirstAttr(dom.select("package"), "prefix"))
    ensures declared.Err? ==> PackageTables(dom) == Err(declared.error)
    ensures declared.Ok? && dom.select("metadata") == [] ==> PackageTables(dom) == Err(TypeError("keys of undefined"))
    ensures declared.Ok? && dom.select("metadata") != [] ==>
              var md := dom.select("metadata")[0];
              var xmlns := XmlnsPairs(md, md.attrs);
              PackageTables(dom)
                == if xmlns.Err? then Err(xmlns.error)
                   else Ok(Registered(Registered(Registered(Tables(map[], map[]), DefaultPairs), declared.value), xmlns.value))
  {
  }

  /** The three registrations (index.js:136-149), on fresh tables. */
  method RegisterPrefixes(ctx: QueryContext) returns (r: Result<()>)
    requires ctx.fprefix == map[] && ctx.rprefix == map[]
    modifies ctx
    ensures r.Ok? <==> PackageTables(ctx.dom).Ok?
    ensures r.Err? ==> r.error == PackageTables(ctx.dom).error
    ensures r.Ok? ==> Tables(ctx.fprefix, ctx.rprefix) == PackageTables(ctx.dom).value
  {
    PackageSelectorsPlain();
    RegisterAll(ctx, DefaultPairs);
    SelectorPassThrough(ctx.rprefix, "package");
    var package := ctx.Select(Template("package")).value;
    var declared := PrefixAttrPairs(FirstAttr(package, "prefix"));
    PackageTablesAt(ctx.dom, declared);
    if declared.Err? {
      return Err(declared.error);
    }
    RegisterAll(ctx, declared.value);
    SelectorPassThrough(ctx.rprefix, "metadata");
    var mds := ctx.Select(Template("metadata")).value;
    if mds == [] {
      return Err(TypeError("keys of undefined"));
    }
    r := RegisterXmlns(ctx, mds[0]);
  }

  /** The `if (navFilename) … else if (ncxFilename) …` choice (index.js:185-191). */
  method ReadTocPointer(ctx: QueryContext, filename: string) returns (t: TocField)
    ensures t == TocPointerOf(ctx.dom, filename)
  {
    ItemSelectorsPlain();
    SelectorPassThrough(ctx.rprefix, NavItem);
    SelectorPassThrough(ctx.rprefix, NcxItem);
    var navHref := FirstAttr(ctx.Select(Template(NavItem)).value, "href");
    var ncxHref := FirstAttr(ctx.Select(Template(NcxItem)).value, "href");
    t := Unset;
    if navHref.Some? && navHref.value != "" {
      t := Pointer(Xhtml, Resolve(filename, navHref.value));
    } else if ncxHref.Some? && ncxHref.value != "" {
      t := Pointer(Ncx, Resolve(filename, ncxHref.value));
    }
  }

  /** DocumentMetadata once its tables and its `<meta>` loop are known. */
  lemma DocumentMetadataAt(dom: Dom, filename: string, host: Host, t: Tables, looped: Result<Metadata>)
    requires PackageTables(dom) == Ok(t)
    requires looped == Fold(MetaStep(t.fprefix, host), DcMetadata(dom, t.rprefix, host), dom.select("meta"))
    ensures looped.Err? ==> DocumentMetadata(dom, filename, host) == Err(looped.error)
    ensures looped.Ok? ==> DocumentMetadata(dom, filename, host) == Ok(looped.value.(toc := TocPointerOf(dom, filename)))
  {
  }

  /** The part of readMetadata after the prefixes are registered: the
      Dublin Core fields, the `<meta>` loop and the table-of-contents
      pointer. */
  method ReadRegistered(ctx: QueryContext, host: Host, filename: string) returns (r: Result<Metadata>)
    requires PackageTables(ctx.dom) == Ok(Tables(ctx.fprefix, ctx.rprefix))
    ensures r == DocumentMetadata(ctx.dom, filename, host)
  {
    var meta := ReadDcFields(ctx, host);
    PackageSelectorsPlain();
    SelectorPassThrough(ctx.rprefix, "meta");
    var metas := ctx.Select(Template("meta")).value;
    var looped := FoldAll(MetaStep(ctx.fprefix, host), meta, metas);
    DocumentMetadataAt(ctx.dom, filename, host, Tables(ctx.fprefix, ctx.rprefix), looped);
    if looped.Err? {
      return Err(looped.error);
    }
    var toc := ReadTocPointer(ctx, filename);
    r := Ok(looped.value.(toc := toc));
  }

  /** readMetadata once the package document is loaded. */
  method ReadDocument(ctx: QueryContext, host: Host, filename: string) returns (r: Result<Metadata>)
    requires ctx.fprefix == map[] && ctx.rprefix == map[]
    modifies ctx
    ensures r == DocumentMetadata(ctx.dom, filename, host)
  {
    var registered := RegisterPrefixes(ctx);
    if registered.Err? {
      return Err(registered.error);
    }
    r := ReadRegistered(ctx, host, filename);
  }

  /** `readMetadata(zip, metadataFilename)` */
  method ReadMetadata(zip: Archive, host: Host, filename: string) returns (r: Result<Metadata>)
    ensures r == MetadataOf(zip, host, filename)
  {
    var ctx :- ReadXml(zip, host, filename);
    r := ReadDocument(ctx, host, filename);
  }
}
