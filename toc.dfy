/** The two table-of-contents readers: `readXHTMLTOC` (index.js:215-226)
    over the `<a>` links of an EPUB 3 navigation document, and `readNCXTOC`
    (index.js:228-237) over the `navPoint`s of a DAISY NCX file. Each
    pushes one chapter per kept entry, in document order. */
module Toc {
  import opened Base
  import opened Host
  import opened Query
  import opened Paths
  import opened Entities
  import opened Loops

  /** A chapter: its archive path and its title. */
  datatype Chapter = Chapter(file: string, name: string)

  /** The rest of `s` from its first line terminator on, or nothing. */
  function FromLineEnd(s: string): (r: string)
    ensures |r| <= |s|
  {
    if s == [] || IsLineTerminator(s[0]) then s else FromLineEnd(s[1..])
  }

  /** `href.replace(/#.*\/, '')`: from the first `#` up to the next line
      terminator is cut. */
  function StripFragment(href: string): (r: string)
    ensures |r| <= |href|
  {
    if href == [] then []
    else if href[0] == '#' then FromLineEnd(href[1..])
    else [href[0]] + StripFragment(href[1..])
  }

  /** `/^[ⅰⅱ]?[.] /`: `. `, or `. ` after the small roman numeral one or two
      (U+2170, U+2171). */
  predicate IsFrontMatter(name: string) {
    (|name| >= 2 && name[0] == '.' && name[1] == ' ')
    || (|name| >= 3 && (name[0] == '\U{2170}' || name[0] == '\U{2171}') && name[1] == '.' && name[2] == ' ')
  }

  /** The length of the run of ASCII digits that starts `s`. */
  function DigitsAt(s: string): (n: nat)
    ensures n <= |s|
    ensures forall k :: 0 <= k < n ==> IsDigit(s[k])
    ensures n == |s| || !IsDigit(s[n])
  {
    if s == [] || !IsDigit(s[0]) then 0 else 1 + DigitsAt(s[1..])
  }

  /** `name.replace(/^\d+[.] /, '')`: one leading chapter number is removed. */
  function StripNumber(name: string): string {
    var n := DigitsAt(name);
    if n >= 1 && n + 1 < |name| && name[n] == '.' && name[n + 1] == ' ' then name[n + 2..] else name
  }

  /** The archive path a link target names: fragment cut, then unescaped,
      then resolved against the table of contents' own path. */
  function LinkTarget(filename: string, href: Option<string>): Result<string> {
    if href.None? then Err(TypeError("replace of undefined"))
    else
      var path :- Unescape(StripFragment(href.value));
      Ok(Resolve(filename, path))
  }

  /** One `<a>` of the navigation document: the chapter it contributes, or
      None when its decoded text marks front matter. */
  function XhtmlEntry(filename: string, item: Element): Result<Option<Chapter>> {
    var file :- LinkTarget(filename, Attr(item, "href"));
    var name :- DecodeEntities(item.text);
    if IsFrontMatter(name) then Ok(None)
    else Ok(Some(Chapter(file, StripNumber(name))))
  }

  function XhtmlEntries(filename: string): Element -> Result<Option<Chapter>> {
    item => XhtmlEntry(filename, item)
  }

  /** The chapters of the navigation links, or the first link's exception. */
  function XhtmlChapters(filename: string, items: seq<Element>): Result<seq<Chapter>> {
    Kept(XhtmlEntries(filename), items)
  }

  /** One `navPoint`: its label is decoded first, then its `content` target
      is resolved; nothing is filtered or stripped. */
  function NcxEntry(filename: string, item: Element): Result<Chapter> {
    if item.labelHtml.None? then Err(TypeError("replace of null"))
    else
      var name :- DecodeEntities(item.labelHtml.value);
      var file :- LinkTarget(filename, item.contentSrc);
      Ok(Chapter(file, name))
  }

  function NcxEntries(filename: string): Element -> Result<Chapter> {
    item => NcxEntry(filename, item)
  }

  function NcxChapters(filename: string, items: seq<Element>): Result<seq<Chapter>> {
    Each(NcxEntries(filename), items)
  }

  /** The navigation reader keeps document order: the chapters of two runs
      of links are those of the first run followed by those of the second,
      and a single link contributes its own entry. */
  lemma XhtmlInOrder(filename: string, a: seq<Element>, b: seq<Element>, item: Element)
    ensures XhtmlChapters(filename, a).Ok? && XhtmlChapters(filename, b).Ok? ==>
              XhtmlChapters(filename, a + b) == Ok(XhtmlChapters(filename, a).value + XhtmlChapters(filename, b).value)
    ensures XhtmlChapters(filename, [item]).Ok? <==> XhtmlEntry(filename, item).Ok?
    ensures XhtmlEntry(filename, item).Ok? ==>
              XhtmlChapters(filename, [item]).value
              == (if XhtmlEntry(filename, item).value.Some? then [XhtmlEntry(filename, item).value.value] else [])
  {
    var f := XhtmlEntries(filename);
    assert f(item) == XhtmlEntry(filename, item);
    KeptSingle(f, item);
    if Kept(f, a).Ok? && Kept(f, b).Ok? {
      KeptAppend(f, a, b);
    }
  }

  /** The NCX reader keeps every `navPoint`: one chapter each, in document
      order, and it throws exactly when one of them does. */
  lemma NcxKeepsEvery(filename: string, items: seq<Element>)
    ensures NcxChapters(filename, items).Ok? <==> forall i :: 0 <= i < |items| ==> NcxEntry(filename, items[i]).Ok?
    ensures NcxChapters(filename, items).Ok? ==>
              |NcxChapters(filename, items).value| == |items|
              && forall i :: 0 <= i < |items| ==> NcxChapters(filename, items).value[i] == NcxEntry(filename, items[i]).value
  {
    var f := NcxEntries(filename);
    assert forall e :: f(e) == NcxEntry(filename, e);
    EachOkIff(f, items);
    if Each(f, items).Ok? {
      EachIndexwise(f, items);
    }
  }

  /** The selectors the two readers pass to their query function. Neither
      starts with `word$`, so both reach cheerio as written. */
  const NavLinks := "nav[epub\\:type=\"toc\"] li a"
  const NavPoints := "navPoint"

  /** `readXHTMLTOC(zip, filename)` as one expression. */
  function XhtmlToc(zip: Archive, host: Host, filename: string): Result<seq<Chapter>> {
    var text :- ReadText(zip, filename);
    XhtmlChapters(filename, host.parse(text).select(NavLinks))
  }

  /** `readNCXTOC(zip, filename)` as one expression. */
  function NcxToc(zip: Archive, host: Host, filename: string): Result<seq<Chapter>> {
    var text :- ReadText(zip, filename);
    NcxChapters(filename, host.parse(text).select(NavPoints))
  }

  lemma NavLinksPlain()
    ensures Free(NavLinks, '$')
  {
  }

  /** A selector without `$` reaches cheerio as written. */
  lemma SelectorPassThrough(rprefix: map<string, string>, sel: string)
    requires Free(sel, '$')
    ensures Selector(rprefix, Template(sel)) == Ok(sel)
  {
    RewrittenIffQualified(rprefix, sel);
  }

  /** `readXHTMLTOC(zip, filename)`: load the navigation document, select its
      table-of-contents links, and push a chapter for each kept one. */
  method ReadXhtmlToc(zip: Archive, host: Host, filename: string) returns (r: Result<seq<Chapter>>)
    ensures r == XhtmlToc(zip, host, filename)
  {
    var ctx :- ReadXml(zip, host, filename);
    NavLinksPlain();
    SelectorPassThrough(ctx.rprefix, NavLinks);
    var selected := ctx.Select(Template(NavLinks));
    r := PushKept(XhtmlEntries(filename), selected.value);
  }

  /** `readNCXTOC(zip, filename)`: load the NCX file and push a chapter for
      every `navPoint`. */
  method ReadNcxToc(zip: Archive, host: Host, filename: string) returns (r: Result<seq<Chapter>>)
    ensures r == NcxToc(zip, host, filename)
  {
    var ctx :- ReadXml(zip, host, filename);
    SelectorPassThrough(ctx.rprefix, NavPoints);
    var selected := ctx.Select(Template(NavPoints));
    r := PushEach(NcxEntries(filename), selected.value);
  }

  /** A link whose decoded text opens with `. `, `ⅰ. ` or `ⅱ. ` is dropped;
      the test sees the text after entity decoding. */
  lemma FrontMatterDropped(filename: string, item: Element, mark: string, rest: string)
    requires mark == ". " || mark == "\U{2170}. " || mark == "\U{2171}. "
    requires Attr(item, "href").Some? && Unescape(StripFragment(Attr(item, "href").value)).Ok?
    requires DecodeEntities(item.text) == Ok(mark + rest)
    ensures XhtmlEntry(filename, item) == Ok(None)
  {
    var name := mark + rest;
    assert name[0] == mark[0] && name[1] == mark[1];
    if |mark| == 3 {
      assert name[2] == mark[2];
    }
  }

  /** The front-matter test comes before the number is stripped: `1. . Notes`
      is kept, as `. Notes`. */
  lemma TestedBeforeStrip(filename: string, item: Element, href: string, ds: string, rest: string)
    requires Attr(item, "href") == Some(href) && Free(href, '#') && Free(href, '%')
    requires ds != [] && forall k :: 0 <= k < |ds| ==> IsDigit(ds[k])
    requires item.text == ds + ". " + (". " + rest) && Free(item.text, '&')
    ensures XhtmlEntry(filename, item) == Ok(Some(Chapter(Resolve(filename, href), ". " + rest)))
  {
    NotFrontMatter(item.text);
    StripNumberOnce(ds, ". " + rest);
    XhtmlEntryPlain(filename, item, href);
  }

  /** Any other first character keeps the link; ASCII `i. Preface` is kept. */
  lemma NotFrontMatter(name: string)
    requires name != [] && name[0] != '.' && name[0] != '\U{2170}' && name[0] != '\U{2171}'
    ensures !IsFrontMatter(name)
  {
  }

  /** One leading `digits. ` is removed, and only one. */
  lemma StripNumberOnce(ds: string, title: string)
    requires ds != [] && forall k :: 0 <= k < |ds| ==> IsDigit(ds[k])
    ensures StripNumber(ds + ". " + title) == title
  {
    var name := ds + ". " + title;
    assert DigitsAt(name) == |ds| by {
      DigitsOf(ds, ". " + title);
      assert name == ds + (". " + title);
    }
    assert name[|ds| + 2..] == title;
  }

  lemma {:induction false} DigitsOf(ds: string, tail: string)
    requires forall k :: 0 <= k < |ds| ==> IsDigit(ds[k])
    requires tail != [] && !IsDigit(tail[0])
    ensures DigitsAt(ds + tail) == |ds|
    decreases |ds|
  {
    if ds != [] {
      assert (ds + tail)[1..] == ds[1..] + tail;
      DigitsOf(ds[1..], tail);
    } else {
      assert ds + tail == tail;
    }
  }

  /** A title that does not open with a digit is left alone. */
  lemma StripNumberKeeps(name: string)
    requires name == [] || !IsDigit(name[0])
    ensures StripNumber(name) == name
  {
  }

  /** `"3. Chapter Three"` becomes `"Chapter Three"`. */
  lemma ChapterThree(name: string)
    requires name == "3. Chapter Three"
    ensures StripNumber(name) == "Chapter Three"
  {
    assert name == "3" + ". " + "Chapter Three";
    StripNumberOnce("3", "Chapter Three");
  }

  /** A kept link of plain text: its title is the text without its number,
      and its file is the resolved target. */
  lemma XhtmlEntryPlain(filename: string, item: Element, href: string)
    requires Attr(item, "href") == Some(href) && Free(href, '#') && Free(href, '%')
    requires Free(item.text, '&') && !IsFrontMatter(item.text)
    ensures XhtmlEntry(filename, item) == Ok(Some(Chapter(Resolve(filename, href), StripNumber(item.text))))
  {
    NoFragment(href);
    UnescapePlain(href);
    DecodeEntitiesPlain(item.text);
  }

  /** The fragment goes before `unescape`, so `#` cuts the target while an
      escaped `%23` survives into the path as `#`. */
  lemma {:induction false} FragmentCutBeforeUnescape(path: string, fragment: string)
    requires Free(path, '#') && NoLineTerminator(fragment)
    ensures StripFragment(path + "#" + fragment) == path
    decreases |path|
  {
    var href := path + "#" + fragment;
    if path == [] {
      assert href[1..] == fragment;
      NoLineEnd(fragment);
    } else {
      assert href[1..] == path[1..] + "#" + fragment;
      FragmentCutBeforeUnescape(path[1..], fragment);
      assert [path[0]] + path[1..] == path;
    }
  }

  lemma {:induction false} NoLineEnd(s: string)
    requires NoLineTerminator(s)
    ensures FromLineEnd(s) == []
    decreases |s|
  {
    if s != [] {
      NoLineEnd(s[1..]);
    }
  }

  /** A target without `#` is not cut. */
  lemma {:induction false} NoFragment(href: string)
    requires Free(href, '#')
    ensures StripFragment(href) == href
    decreases |href|
  {
    if href != [] {
      NoFragment(href[1..]);
      assert [href[0]] + href[1..] == href;
    }
  }

  /** `%23` in the path part decodes to `#`. */
  lemma {:induction false} EscapedHashKept(a: string, b: string)
    requires Free(a, '%') && Free(b, '%')
    ensures Unescape(a + "%23" + b) == Ok(a + "#" + b)
    decreases |a|
  {
    Assoc(a, "%23", b);
    Assoc(a, "#", b);
    if a == [] {
      EscapedHashFront(b);
      EmptyAppend("%23" + b);
      EmptyAppend("#" + b);
    } else {
      EscapedHashKept(a[1..], b);
      HeadTail(a, "%23" + b);
      HeadTail(a, "#" + b);
      Assoc(a[1..], "%23", b);
      Assoc(a[1..], "#", b);
      UnescapeKeeps(a + ("%23" + b));
      Uncons(a + ("#" + b));
    }
  }

  lemma EscapedHashFront(b: string)
    requires Free(b, '%')
    ensures Unescape("%23" + b) == Ok("#" + b)
  {
    var s := "%23" + b;
    assert s[0] == '%' && s[1] != 'u' && s[1..3] == ['2', '3'];
    NumberValueTwo('2', '3', 16);
    assert s[3..] == b;
    UnescapePlain(b);
  }

  /** One step of `unescape` at a character other than `%`. */
  lemma UnescapeKeeps(s: string)
    requires s != [] && s[0] != '%'
    ensures Unescape(s) ==
              if Unescape(s[1..]).Ok? then Ok([s[0]] + Unescape(s[1..]).value) else Unescape(s[1..])
  {
  }
}
