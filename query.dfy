/** `readXML` (index.js:40-66): a loaded document wrapped in a query
    function that carries its own prefix table and rewrites `ns$name`
    selectors into cheerio's escaped `alias\:name` form. */
module Query {
  import opened Base
  import opened Host

  /** The two ways index.js calls the query function: as a template tag
      (`` $`dc$title` ``, seen through `String.raw`) and as `$(ns, name)`. */
  datatype Call = Template(raw: string) | Pair(ns: string, name: string)

  /** `m[k] || k`: an absent or empty entry falls back to the key itself. */
  function Lookup(m: map<string, string>, k: string): (r: string)
    ensures k in m && m[k] != "" ==> r == m[k]
    ensures !(k in m && m[k] != "") ==> r == k
  {
    if k in m && m[k] != "" then m[k] else k
  }

  /** The length of the run of `\w` characters that starts `s`. */
  function WordLength(s: string): (n: nat)
    ensures n <= |s|
    ensures forall i :: 0 <= i < n ==> IsWordChar(s[i])
    ensures n == |s| || !IsWordChar(s[n])
  {
    if s == [] || !IsWordChar(s[0]) then 0 else 1 + WordLength(s[1..])
  }

  /** `/^(\w+)[$]/.test(raw)` */
  predicate Qualified(raw: string) {
    var n := WordLength(raw);
    0 < n < |raw| && raw[n] == '$'
  }

  /** The selector text the query function hands to cheerio
      (index.js:43-54). A qualified template becomes `alias\:name` with the
      alias looked up in `rprefix`; the second `exec` has `(.*)$` without the
      `s` flag, so a line terminator after the `$` makes it return null and
      the destructuring throw. Any other template passes through as written. */
  function Selector(rprefix: map<string, string>, call: Call): Result<string> {
    match call
    case Pair(ns, name) => Ok(Lookup(rprefix, ns) + "\\:" + name)
    case Template(raw) =>
      if Qualified(raw) then
        var n := WordLength(raw);
        var name := raw[n + 1..];
        if NoLineTerminator(name) then Ok(Lookup(rprefix, raw[..n]) + "\\:" + name)
        else Err(TypeError("destructuring a failed selector match"))
      else Ok(raw)
  }

  /** A qualified template and the two-argument call select the same thing:
      the document's alias for `ns` (or `ns` itself) escaped before `name`. */
  lemma QualifiedTemplate(rprefix: map<string, string>, ns: string, name: string)
    requires ns != [] && forall i :: 0 <= i < |ns| ==> IsWordChar(ns[i])
    requires NoLineTerminator(name)
    ensures Selector(rprefix, Template(ns + "$" + name)) == Ok(Lookup(rprefix, ns) + "\\:" + name)
    ensures Selector(rprefix, Template(ns + "$" + name)) == Selector(rprefix, Pair(ns, name))
  {
    var raw := ns + "$" + name;
    var n := WordLength(raw);
    assert raw[|ns|] == '$';
    assert forall i :: 0 <= i < |ns| ==> raw[i] == ns[i];
    assert n == |ns|;
    assert raw[..n] == ns;
    assert raw[n + 1..] == name;
  }

  /** A template is rewritten exactly when it starts with `word$`; every other
      selector reaches cheerio unchanged. */
  lemma {:induction false} RewrittenIffQualified(rprefix: map<string, string>, raw: string)
    ensures !Qualified(raw) ==> Selector(rprefix, Template(raw)) == Ok(raw)
    ensures Qualified(raw) ==> Selector(rprefix, Template(raw)) != Ok(raw)
  {
    if Qualified(raw) {
      var n := WordLength(raw);
      var name := raw[n + 1..];
      if NoLineTerminator(name) {
        var alias := Lookup(rprefix, raw[..n]);
        var out := alias + "\\:" + name;
        if |out| == |raw| {
          assert |alias| < n;
          assert IsWordChar(raw[|alias|]);
          assert out[|alias|] != raw[|alias|];
        }
      }
    }
  }

  /** The query function of one loaded document and its prefix table:
      `fprefix` maps a document alias to a canonical prefix, `rprefix` a
      canonical prefix to the document's alias. */
  class QueryContext {
    const dom: Dom
    var fprefix: map<string, string>
    var rprefix: map<string, string>

    /** Both tables start empty (index.js:63-64). */
    constructor (dom: Dom)
      ensures this.dom == dom
      ensures fprefix == map[] && rprefix == map[]
    {
      this.dom := dom;
      fprefix := map[];
      rprefix := map[];
    }

    /** `self.prefix(from, to)` (index.js:59-62): one entry in each table is
        set and nothing else changes; earlier entries are overwritten, so the
        two tables need not stay inverse to each other. */
    method Prefix(from: string, to: string)
      modifies this
      ensures fprefix == old(fprefix)[from := to]
      ensures rprefix == old(rprefix)[to := from]
    {
      fprefix := fprefix[from := to];
      rprefix := rprefix[to := from];
    }

    /** Calling the query function: the rewritten selector, evaluated by cheerio. */
    function Select(call: Call): Result<seq<Element>>
      reads this
    {
      var selector :- Selector(rprefix, call);
      Ok(dom.select(selector))
    }
  }

  /** `readXML(zip, file)` (index.js:40-66): a missing entry throws; otherwise
      the text is loaded and wrapped with empty prefix tables. */
  method ReadXml(zip: Archive, host: Host, file: string) returns (r: Result<QueryContext>)
    ensures r.Ok? <==> file in zip
    ensures r.Err? ==> r.error == FileNotFound(file)
    ensures r.Ok? ==> fresh(r.value) && r.value.dom == host.parse(zip[file])
    ensures r.Ok? ==> r.value.fprefix == map[] && r.value.rprefix == map[]
  {
    var text :- ReadText(zip, file);
    var ctx := new QueryContext(host.parse(text));
    r := Ok(ctx);
  }

  /** Two registrations under one canonical prefix leave the tables
      disagreeing: the first alias still maps forward, the reverse entry now
      names the second. */
  method PrefixOverwrite(dom: Dom) returns (ctx: QueryContext)
    ensures ctx.fprefix == map["a" := "x", "b" := "x"]
    ensures ctx.rprefix == map["x" := "b"]
  {
    ctx := new QueryContext(dom);
    ctx.Prefix("a", "x");
    ctx.Prefix("b", "x");
  }
}
