/** The fixed namespace table `defaultns` (index.js:6-24): well-known
    namespace URIs and the canonical prefix the reader gives each. */
module Namespaces {
  import opened Base

  const DC := "http://purl.org/dc/elements/1.1/"
  const DCTERMS := "http://purl.org/dc/terms/"
  const CALIBRE := "https://calibre-ebook.com"
  const CONTAINER := "urn:oasis:names:tc:opendocument:xmlns:container"
  const FOAF := "http://xmlns.com/foaf/spec/"
  const OPF := "http://www.idpf.org/2007/opf"
  const MARC := "https://www.loc.gov/marc/relators/relacode.html"
  const XMLNS := "http://www.w3.org/2000/xmlns/"

  /** `defaultns` as a lookup table. */
  const DefaultNs: map<string, string> :=
    map[OPF := "opf", DC := "dc", DCTERMS := "dcterms", CALIBRE := "calibre",
        CONTAINER := "oasis", FOAF := "foaf", XMLNS := "xmlns", MARC := "marc"]

  /** The canonical prefixes, in `Object.keys(defaultns)` order. */
  const Canonicals: seq<string> := ["opf", "dc", "dcterms", "calibre", "oasis", "foaf", "xmlns", "marc"]

  /** `defaultns[uri] || fallback`, where an undefined `uri` looks up the key
      "undefined", which the table does not hold. */
  function Canonical(uri: Option<string>, fallback: string): (r: string)
    ensures uri.Some? && uri.value in DefaultNs ==> r == DefaultNs[uri.value]
    ensures (uri.None? || uri.value !in DefaultNs) ==> r == fallback
  {
    if uri.Some? && uri.value in DefaultNs then DefaultNs[uri.value] else fallback
  }
}
