/** What index.js receives from its libraries and the JavaScript runtime,
    kept abstract: the zip archive, cheerio's parse-and-select, `new Date`
    and `JSON.parse`. */
module Host {
  import opened Base

  /** A JSON value as `JSON.parse` builds it; numbers keep their source text. */
  datatype Json =
    | JNull
    | JBool(b: bool)
    | JNumber(text: string)
    | JString(s: string)
    | JArray(items: seq<Json>)
    | JObject(members: seq<(string, Json)>)

  /** A `Date`; `InvalidDate` is the one `isNaN` reports. */
  datatype JsDate = Time(ms: int) | InvalidDate

  /** One element selected by cheerio: its attributes in document order, its
      `.text()`, and, for an NCX `navPoint`, what
      `find('navLabel').find('text').html()` and `find('content').attr('src')`
      yield on it (None where cheerio answers null or undefined). */
  datatype Element = Element(
    attrs: seq<(string, string)>,
    text: string,
    labelHtml: Option<string>,
    contentSrc: Option<string>)

  /** A document loaded by `cheerio.load(text, {xmlMode: true})`: its selector
      engine, from selector text to the matching elements in document order. */
  datatype Dom = Dom(select: string -> seq<Element>)

  /** The library calls the reader makes and cannot see into. `newDate(None)`
      is `new Date(undefined)`; `parseJson` answers None where `JSON.parse`
      throws. */
  datatype Host = Host(
    parse: string -> Dom,
    newDate: Option<Json> -> JsDate,
    parseJson: string -> Option<Json>)

  /** The zip archive: entry name to entry text. */
  type Archive = map<string, string>

  /** `$el.attr(name)`: the first attribute of that name, or undefined. */
  function Attr(e: Element, name: string): (r: Option<string>)
    ensures r.Some? <==> exists i :: 0 <= i < |e.attrs| && e.attrs[i].0 == name
    ensures r.Some? ==> exists i :: 0 <= i < |e.attrs| && e.attrs[i] == (name, r.value)
                                    && forall j :: 0 <= j < i ==> e.attrs[j].0 != name
    decreases |e.attrs|
  {
    if e.attrs == [] then None
    else if e.attrs[0].0 == name then Some(e.attrs[0].1)
    else
      var r := Attr(e.(attrs := e.attrs[1..]), name);
      assert forall i :: 1 <= i < |e.attrs| ==> e.attrs[i] == e.attrs[1..][i - 1];
      r
  }

  /** `$sel.attr(name)` on a selection: the first element's attribute. */
  function FirstAttr(es: seq<Element>, name: string): Option<string>
  {
    if es == [] then None else Attr(es[0], name)
  }

  /** `$sel.first().text()`: empty for an empty selection. */
  function FirstText(es: seq<Element>): string
  {
    if es == [] then "" else es[0].text
  }

  /** `$sel.get().map(_ => $(_).text())` */
  function Texts(es: seq<Element>): seq<string>
  {
    seq(|es|, i requires 0 <= i < |es| => es[i].text)
  }

  /** `readText(zip, file)` (index.js:26-30): a missing entry throws. */
  function ReadText(zip: Archive, file: string): (r: Result<string>)
    ensures r.Ok? <==> file in zip
    ensures r.Ok? ==> r.value == zip[file]
    ensures r.Err? ==> r.error == FileNotFound(file)
  {
    if file in zip then Ok(zip[file]) else Err(FileNotFound(file))
  }
}
