/** Prefix registration in `readMetadata` (index.js:136-149): the canonical
    prefixes register themselves, then the package's `prefix` attribute
    (`name: URI` pairs, the EPUB 3 vocabulary-prefix mechanism), then the
    `xmlns:X` attributes of `<metadata>`. */
module Prefixes {
  import opened Base
  import opened Host
  import opened Namespaces
  import opened Query

  /** The two tables of a `QueryContext`. */
  datatype Tables = Tables(fprefix: map<string, string>, rprefix: map<string, string>)

  /** The tables after `prefix(from, to)` has been called on each pair in turn. */
  function Registered(t: Tables, pairs: seq<(string, string)>): Tables
    decreases |pairs|
  {
    if pairs == [] then t
    else
      var prev := Registered(t, pairs[..|pairs| - 1]);
      var (from, to) := pairs[|pairs| - 1];
      Tables(prev.fprefix[from := to], prev.rprefix[to := from])
  }

  lemma RegisteredSnoc(t: Tables, pairs: seq<(string, string)>, p: (string, string))
    ensures Registered(t, pairs + [p])
            == Tables(Registered(t, pairs).fprefix[p.0 := p.1], Registered(t, pairs).rprefix[p.1 := p.0])
  {
    assert (pairs + [p])[..|pairs|] == pairs;
  }

  /** The target of the last pair registered from `k`. */
  function LastTo(pairs: seq<(string, string)>, k: string): (r: Option<string>)
    ensures r.Some? ==> exists i :: 0 <= i < |pairs| && pairs[i] == (k, r.value)
    ensures r.None? <==> forall i :: 0 <= i < |pairs| ==> pairs[i].0 != k
    decreases |pairs|
  {
    if pairs == [] then None
    else if pairs[|pairs| - 1].0 == k then Some(pairs[|pairs| - 1].1)
    else LastTo(pairs[..|pairs| - 1], k)
  }

  /** The source of the last pair registered to `v`. */
  function LastFrom(pairs: seq<(string, string)>, v: string): (r: Option<string>)
    ensures r.Some? ==> exists i :: 0 <= i < |pairs| && pairs[i] == (r.value, v)
    ensures r.None? <==> forall i :: 0 <= i < |pairs| ==> pairs[i].1 != v
    decreases |pairs|
  {
    if pairs == [] then None
    else if pairs[|pairs| - 1].1 == v then Some(pairs[|pairs| - 1].0)
    else LastFrom(pairs[..|pairs| - 1], v)
  }

  /** Registration is last-wins in both tables, and an alias or prefix that no
      pair mentions keeps its earlier entry. */
  lemma {:induction false} RegisteredLookup(t: Tables, pairs: seq<(string, string)>, k: string)
    ensures Get(Registered(t, pairs).fprefix, k)
            == (if LastTo(pairs, k).Some? then LastTo(pairs, k) else Get(t.fprefix, k))
    ensures Get(Registered(t, pairs).rprefix, k)
            == (if LastFrom(pairs, k).Some? then LastFrom(pairs, k) else Get(t.rprefix, k))
    decreases |pairs|
  {
    if pairs != [] {
      RegisteredLookup(t, pairs[..|pairs| - 1], k);
    }
  }

  /** `prefix(from, to)` on each pair of `pairs`, in order. */
  method RegisterAll(ctx: QueryContext, pairs: seq<(string, string)>)
    modifies ctx
    ensures Tables(ctx.fprefix, ctx.rprefix) == Registered(old(Tables(ctx.fprefix, ctx.rprefix)), pairs)
  {
    ghost var t0 := Tables(ctx.fprefix, ctx.rprefix);
    var i := 0;
    while i < |pairs|
      invariant 0 <= i <= |pairs|
      invariant Tables(ctx.fprefix, ctx.rprefix) == Registered(t0, pairs[..i])
    {
      ctx.Prefix(pairs[i].0, pairs[i].1);
      assert pairs[..i + 1][..i] == pairs[..i];
      i := i + 1;
    }
    assert pairs[..|pairs|] == pairs;
  }

  // ---------------------------------------------------------------------
  // The canonical prefixes (index.js:136-138)

  /** `prefix(c, c)` for each canonical prefix, in `Object.keys` order. */
  const DefaultPairs: seq<(string, string)> :=
    seq(|Canonicals|, i requires 0 <= i < |Canonicals| => (Canonicals[i], Canonicals[i]))

  /** After the canonical prefixes register themselves on fresh tables, both
      tables hold exactly the canonical prefixes, each mapped to itself. */
  lemma DefaultsIdentity()
    ensures forall k :: k in Registered(Tables(map[], map[]), DefaultPairs).fprefix <==> k in Canonicals
    ensures forall k :: k in Registered(Tables(map[], map[]), DefaultPairs).rprefix <==> k in Canonicals
    ensures forall k :: k in Registered(Tables(map[], map[]), DefaultPairs).fprefix ==>
              Registered(Tables(map[], map[]), DefaultPairs).fprefix[k] == k
    ensures forall k :: k in Registered(Tables(map[], map[]), DefaultPairs).rprefix ==>
              Registered(Tables(map[], map[]), DefaultPairs).rprefix[k] == k
  {
    SelfPairs(Tables(map[], map[]), DefaultPairs);
    forall k ensures k in Froms(DefaultPairs) <==> k in Canonicals {
      FromsMembership(DefaultPairs, k);
      if k in Canonicals {
        var i :| 0 <= i < |Canonicals| && Canonicals[i] == k;
        assert DefaultPairs[i].0 == k;
      }
    }
  }

  /** The sources of all pairs. */
  function Froms(pairs: seq<(string, string)>): set<string>
    decreases |pairs|
  {
    if pairs == [] then {} else Froms(pairs[..|pairs| - 1]) + {pairs[|pairs| - 1].0}
  }

  lemma {:induction false} FromsMembership(pairs: seq<(string, string)>, k: string)
    ensures k in Froms(pairs) <==> exists i :: 0 <= i < |pairs| && pairs[i].0 == k
    decreases |pairs|
  {
    if pairs != [] {
      var init := pairs[..|pairs| - 1];
      FromsMembership(init, k);
      if k in Froms(init) {
        var i :| 0 <= i < |init| && init[i].0 == k;
        assert pairs[i].0 == k;
      }
      if exists i :: 0 <= i < |pairs| && pairs[i].0 == k {
        var i :| 0 <= i < |pairs| && pairs[i].0 == k;
        if i < |init| {
          assert init[i].0 == k;
        }
      }
    }
  }

  /** Registering self-pairs on fresh tables gives two identity tables over
      the registered names. */
  lemma {:induction false} SelfPairs(t: Tables, pairs: seq<(string, string)>)
    requires t.fprefix == map[] && t.rprefix == map[]
    requires forall i :: 0 <= i < |pairs| ==> pairs[i].0 == pairs[i].1
    ensures Registered(t, pairs).fprefix.Keys == Froms(pairs)
    ensures Registered(t, pairs).rprefix.Keys == Froms(pairs)
    ensures forall k :: k in Registered(t, pairs).fprefix ==> Registered(t, pairs).fprefix[k] == k
    ensures forall k :: k in Registered(t, pairs).rprefix ==> Registered(t, pairs).rprefix[k] == k
    decreases |pairs|
  {
    if pairs != [] {
      SelfPairs(t, pairs[..|pairs| - 1]);
    }
  }

  // ---------------------------------------------------------------------
  // The package `prefix` attribute (index.js:139-143)

  /** The length of the run of non-`\s` characters that starts `s`. */
  function RunLength(s: string): (n: nat)
    ensures n <= |s|
    ensures forall i :: 0 <= i < n ==> !IsSpace(s[i])
    ensures n == |s| || IsSpace(s[n])
  {
    if s == [] || IsSpace(s[0]) then 0 else 1 + RunLength(s[1..])
  }

  predicate SpaceFree(s: string) {
    forall i :: 0 <= i < |s| ==> !IsSpace(s[i])
  }

  /** The maximal runs of non-`\s` characters, in order. */
  function Words(s: string): (ws: seq<string>)
    ensures forall k :: 0 <= k < |ws| ==> ws[k] != [] && SpaceFree(ws[k])
    decreases |s|
  {
    if s == [] then []
    else if IsSpace(s[0]) then Words(s[1..])
    else
      var n := RunLength(s);
      [s[..n]] + Words(s[n..])
  }

  /** The last colon of `w` with at least one character before it, or -1. */
  function LastColon(w: string): (j: int)
    ensures j == -1 || (1 <= j < |w| && w[j] == ':')
    ensures j == -1 ==> forall i :: 1 <= i < |w| ==> w[i] != ':'
    ensures j != -1 ==> forall i :: j < i < |w| ==> w[i] != ':'
    decreases |w|
  {
    if |w| <= 1 then -1
    else if w[|w| - 1] == ':' then |w| - 1
    else LastColon(w[..|w| - 1])
  }

  /** The `(name, URI)` pairs that `prefixStr.match(/\S+:\s*\S+/g)` followed by
      `/^(\S+):\s*(.*)/.exec` extracts, read off the whitespace-separated runs.
      A match starts at the beginning of a run that has a colon after its first
      character; greedy `\S+` makes the name end at the run's last such colon.
      When that colon ends the run, `\s*\S+` takes the whole next run as the
      URI; when there is no next run, the match falls back to an earlier colon
      of the same run (if any) and the `exec` then finds an empty URI. */
  function PrefixPairs(ws: seq<string>): seq<(string, string)>
    decreases |ws|
  {
    if ws == [] then []
    else
      var w := ws[0];
      var j := LastColon(w);
      if j == -1 then PrefixPairs(ws[1..])
      else if j < |w| - 1 then [(w[..j], w[j + 1..])] + PrefixPairs(ws[1..])
      else if |ws| >= 2 then [(w[..j], ws[1])] + PrefixPairs(ws[2..])
      else if LastColon(w[..j]) != -1 then [(w[..j], "")]
      else []
  }

  /** Each `name: URI` pair registers `name -> defaultns[URI] || name`. */
  function Canonicalized(decls: seq<(string, string)>): (pairs: seq<(string, string)>)
    ensures |pairs| == |decls|
    ensures forall i :: 0 <= i < |decls| ==>
              pairs[i] == (decls[i].0, Canonical(Some(decls[i].1), decls[i].0))
  {
    seq(|decls|, i requires 0 <= i < |decls| => (decls[i].0, Canonical(Some(decls[i].1), decls[i].0)))
  }

  /** The registrations the `prefix` attribute asks for. An absent or empty
      attribute asks for none; a non-empty one without a single
      `\S+:\s*\S+` token makes `match` return null and `.map` throw. */
  function PrefixAttrPairs(attr: Option<string>): Result<seq<(string, string)>> {
    if attr.None? || attr.value == "" then Ok([])
    else
      var decls := PrefixPairs(Words(attr.value));
      if decls == [] then Err(TypeError("prefix attribute without a name: URI token"))
      else Ok(Canonicalized(decls))
  }

  /** The attribute as EPUB 3 writes it: `name: URI` pairs separated by spaces. */
  function Declaration(decls: seq<(string, string)>): string
    decreases |decls|
  {
    if decls == [] then ""
    else if |decls| == 1 then decls[0].0 + ": " + decls[0].1
    else decls[0].0 + ": " + decls[0].1 + " " + Declaration(decls[1..])
  }

  predicate WellFormedDecl(d: (string, string)) {
    d.0 != [] && SpaceFree(d.0) && (forall i :: 0 <= i < |d.0| ==> d.0[i] != ':')
    && d.1 != [] && SpaceFree(d.1)
  }

  lemma {:induction false} WordsCons(w: string, rest: string)
    requires w != [] && SpaceFree(w)
    requires rest == [] || IsSpace(rest[0])
    ensures Words(w + rest) == [w] + Words(rest)
  {
    var s := w + rest;
    assert forall i :: 0 <= i < |w| ==> s[i] == w[i];
    assert rest != [] ==> s[|w|] == rest[0];
    assert RunLength(s) == |w|;
    assert s[..|w|] == w;
    assert s[|w|..] == rest;
  }

  /** A declaration is its first name and colon, a space, its first URI,
      and the rest after one more space. */
  lemma DeclarationShape(decls: seq<(string, string)>)
    requires decls != []
    ensures var tail := if |decls| == 1 then "" else " " + Declaration(decls[1..]);
            Declaration(decls) == (decls[0].0 + ":") + (" " + (decls[0].1 + tail))
  {
    var n, u := decls[0].0, decls[0].1;
    if |decls| == 1 {
      assert Declaration(decls) == (n + ": ") + u;
      EmptyAppend(u);
      DeclarationHead(n, u, "");
    } else {
      var rest := Declaration(decls[1..]);
      assert Declaration(decls) == (((n + ": ") + u) + " ") + rest;
      Assoc((n + ": ") + u, " ", rest);
      DeclarationHead(n, u, " " + rest);
    }
  }

  lemma DeclarationHead(n: string, u: string, tail: string)
    ensures ((n + ": ") + u) + tail == (n + ":") + (" " + (u + tail))
  {
    calc {
      ((n + ": ") + u) + tail;
      { Assoc(n + ": ", u, tail); }
      (n + ": ") + (u + tail);
      { assert ": " == ":" + " "; Assoc(n, ":", " "); }
      ((n + ":") + " ") + (u + tail);
      { Assoc(n + ":", " ", u + tail); }
      (n + ":") + (" " + (u + tail));
    }
  }

  /** Leading white space is skipped. */
  lemma WordsSpace(s: string)
    ensures Words(" " + s) == Words(s)
  {
    ConsParts(' ', s);
  }

  lemma SpaceFreeColon(n: string)
    requires SpaceFree(n)
    ensures SpaceFree(n + ":")
  {
  }

  lemma PairCons<T>(a: T, b: T, rest: seq<T>)
    ensures [a] + ([b] + rest) == [a, b] + rest
  {
  }

  /** The words of a well-formed declaration: each name with its colon, then its URI. */
  lemma {:induction false} DeclarationWords(decls: seq<(string, string)>)
    requires decls != []
    requires forall i :: 0 <= i < |decls| ==> WellFormedDecl(decls[i])
    ensures Words(Declaration(decls)) == [decls[0].0 + ":", decls[0].1]
              + (if |decls| == 1 then [] else Words(Declaration(decls[1..])))
    decreases |decls|
  {
    var (n, u) := decls[0];
    assert WellFormedDecl(decls[0]);
    var tail := if |decls| == 1 then "" else " " + Declaration(decls[1..]);
    var later := if |decls| == 1 then [] else Words(Declaration(decls[1..]));
    DeclarationShape(decls);
    SpaceFreeColon(n);
    WordsCons(n + ":", " " + (u + tail));
    WordsSpace(u + tail);
    WordsCons(u, tail);
    if |decls| > 1 {
      WordsSpace(Declaration(decls[1..]));
    }
    assert Words(tail) == later;
    PairCons(n + ":", u, later);
  }

  /** Reading a well-formed declaration back gives its pairs: the tokenizer
      inverts `Declaration`. */
  lemma {:induction false} DeclarationRoundTrip(decls: seq<(string, string)>)
    requires forall i :: 0 <= i < |decls| ==> WellFormedDecl(decls[i])
    ensures PrefixPairs(Words(Declaration(decls))) == decls
    decreases |decls|
  {
    if decls != [] {
      var (n, u) := decls[0];
      DeclarationWords(decls);
      var w := n + ":";
      assert forall i :: 1 <= i < |w| - 1 ==> w[i] == n[i];
      assert LastColon(w) == |n|;
      assert w[..|n|] == n;
      var ws := Words(Declaration(decls));
      if |decls| > 1 {
        DeclarationRoundTrip(decls[1..]);
        assert ws[2..] == Words(Declaration(decls[1..]));
        assert decls == [decls[0]] + decls[1..];
      } else {
        assert ws[2..] == [];
      }
    }
  }

  lemma {:induction false} DeclarationNonEmpty(decls: seq<(string, string)>)
    requires decls != []
    ensures Declaration(decls) != ""
  {
    var d := Declaration(decls);
    if |decls| == 1 {
      assert |d| == |decls[0].0| + 2 + |decls[0].1|;
    } else {
      assert |d| >= |decls[0].0| + 2;
    }
  }

  lemma {:induction false} PrefixAttrOf(decls: seq<(string, string)>, s: string)
    requires decls != [] && s != ""
    requires PrefixPairs(Words(s)) == decls
    ensures PrefixAttrPairs(Some(s)) == Ok(Canonicalized(decls))
  {
  }

  /** A well-formed, non-empty `prefix` attribute registers each of its names,
      mapped to the canonical prefix of its URI when the URI is a known one. */
  lemma {:induction false} PrefixAttrWellFormed(decls: seq<(string, string)>)
    requires decls != []
    requires forall i :: 0 <= i < |decls| ==> WellFormedDecl(decls[i])
    ensures PrefixAttrPairs(Some(Declaration(decls))) == Ok(Canonicalized(decls))
  {
    DeclarationRoundTrip(decls);
    DeclarationNonEmpty(decls);
    PrefixAttrOf(decls, Declaration(decls));
  }

  /** After registering a declared alias for a known URI, `rprefix` sends the
      canonical prefix to the document's alias, so `dc$title` selects
      `alias\:title`. */
  lemma DeclaredAliasSelected(t: Tables, alias: string, uri: string, name: string)
    requires WellFormedDecl((alias, uri)) && uri in DefaultNs
    requires forall i :: 0 <= i < |DefaultNs[uri]| ==> IsWordChar(DefaultNs[uri][i]) && DefaultNs[uri] != []
    requires NoLineTerminator(name)
    ensures PrefixAttrPairs(Some(alias + ": " + uri)) == Ok([(alias, DefaultNs[uri])])
    ensures Selector(Registered(t, [(alias, DefaultNs[uri])]).rprefix, Template(DefaultNs[uri] + "$" + name))
            == Ok(alias + "\\:" + name)
  {
    PrefixAttrWellFormed([(alias, uri)]);
    assert Declaration([(alias, uri)]) == alias + ": " + uri;
    assert Canonicalized([(alias, uri)]) == [(alias, DefaultNs[uri])];
    QualifiedTemplate(Registered(t, [(alias, DefaultNs[uri])]).rprefix, DefaultNs[uri], name);
  }

  /** A non-empty attribute without a colon (one made only of spaces, say)
      has no `name: URI` token and throws. */
  lemma BlankPrefixAttrThrows(s: string)
    requires s != "" && Free(s, ':')
    ensures PrefixAttrPairs(Some(s)) == Err(TypeError("prefix attribute without a name: URI token"))
  {
    WordsFree(s);
    NoColonNoPairs(Words(s));
  }

  /** The runs of a colon-free string are colon-free. */
  lemma {:induction false} WordsFree(s: string)
    requires Free(s, ':')
    ensures forall k :: 0 <= k < |Words(s)| ==> Free(Words(s)[k], ':')
    decreases |s|
  {
    if s != [] {
      if IsSpace(s[0]) {
        WordsFree(s[1..]);
      } else {
        var n := RunLength(s);
        WordsFree(s[n..]);
      }
    }
  }

  /** Runs without a colon declare nothing. */
  lemma {:induction false} NoColonNoPairs(ws: seq<string>)
    requires forall k :: 0 <= k < |ws| ==> Free(ws[k], ':')
    ensures PrefixPairs(ws) == []
    decreases |ws|
  {
    if ws != [] {
      assert LastColon(ws[0]) == -1;
      NoColonNoPairs(ws[1..]);
    }
  }

  /** A single run with a colon inside it declares everything before its
      last colon as the name and everything after as the URI. */
  lemma {:induction false} SingleRun(w: string)
    requires w != [] && SpaceFree(w)
    requires 1 <= LastColon(w) < |w| - 1
    ensures PrefixAttrPairs(Some(w))
            == Ok(Canonicalized([(w[..LastColon(w)], w[LastColon(w) + 1..])]))
  {
    WordsCons(w, "");
    assert w + "" == w;
    PrefixAttrOf([(w[..LastColon(w)], w[LastColon(w) + 1..])], w);
  }

  /** The last colon of `name:uri` is the one after `name` when `uri` has none. */
  lemma {:induction false} LastColonOf(name: string, uri: string)
    requires name != [] && Free(uri, ':')
    ensures LastColon(name + ":" + uri) == |name|
    decreases |uri|
  {
    var w := name + ":" + uri;
    if uri != [] {
      var shorter := uri[..|uri| - 1];
      assert w[|w| - 1] == uri[|uri| - 1];
      assert w[..|w| - 1] == name + ":" + shorter;
      LastColonOf(name, shorter);
    }
  }

  lemma ColonParts(name: string, uri: string)
    ensures (name + ":" + uri)[..|name|] == name
    ensures (name + ":" + uri)[|name| + 1..] == uri
  {
  }

  lemma SpaceFreeJoin(name: string, uri: string)
    requires SpaceFree(name) && SpaceFree(uri)
    ensures SpaceFree(name + ":" + uri)
  {
  }

  lemma QuirkParts(name: string, uri: string)
    requires name == "foo:http" && uri == "//x"
    ensures SpaceFree(name) && SpaceFree(uri) && Free(uri, ':')
    ensures uri !in DefaultNs
  {
  }

  /** Without a space after the colon, greedy `\S+` puts the name's end at the
      URI's last colon: `foo:http://x` declares the name `foo:http` for the
      unknown URI `//x`, so it maps to itself. */
  lemma GreedyColonQuirk(s: string)
    requires s == "foo:http://x"
    ensures PrefixAttrPairs(Some(s)) == Ok([("foo:http", "foo:http")])
  {
    var name, uri := "foo:http", "//x";
    assert s == name + ":" + uri;
    QuirkParts(name, uri);
    SpaceFreeJoin(name, uri);
    LastColonOf(name, uri);
    SingleRun(s);
    ColonParts(name, uri);
    assert LastColon(s) == |name|;
    assert s[..LastColon(s)] == name && s[LastColon(s) + 1..] == uri;
    var pairs := Canonicalized([(name, uri)]);
    assert |pairs| == 1 && pairs[0] == (name, name);
    assert pairs == [(name, name)];
  }

  // ---------------------------------------------------------------------
  // `xmlns:X` attributes of <metadata> (index.js:144-149)

  /** One attribute of `<metadata>`: `/^xmlns:(.*)$/.exec(md)` returns null for
      any other name, and destructuring null throws; `xmlns:` alone is
      skipped; otherwise `X` registers `defaultns[mdattr[X]] || X`, looking up
      the attribute named `X`, not `xmlns:X`. */
  function XmlnsEntry(md: Element, attr: (string, string)): Result<Option<(string, string)>> {
    var name := attr.0;
    if |name| >= 6 && name[..6] == "xmlns:" && NoLineTerminator(name[6..]) then
      var ns := name[6..];
      if ns == "" then Ok(None)
      else Ok(Some((ns, Canonical(Attr(md, ns), ns))))
    else Err(TypeError("destructuring a failed xmlns match"))
  }

  /** The registrations the first `attrs` of `<metadata>` ask for, or the
      first attribute that throws. */
  function XmlnsPairs(md: Element, attrs: seq<(string, string)>): Result<seq<(string, string)>>
    decreases |attrs|
  {
    if attrs == [] then Ok([])
    else
      var init :- XmlnsPairs(md, attrs[..|attrs| - 1]);
      var entry :- XmlnsEntry(md, attrs[|attrs| - 1]);
      Ok(init + (if entry.Some? then [entry.value] else []))
  }

  /** Once a prefix of the attributes throws, the whole list throws the same. */
  lemma {:induction false} XmlnsPairsErrExtends(md: Element, attrs: seq<(string, string)>, k: nat)
    requires k <= |attrs|
    requires XmlnsPairs(md, attrs[..k]).Err?
    ensures XmlnsPairs(md, attrs) == XmlnsPairs(md, attrs[..k])
    decreases |attrs| - k
  {
    if k < |attrs| {
      assert attrs[..k + 1][..k] == attrs[..k];
      XmlnsPairsErrExtends(md, attrs, k + 1);
    } else {
      assert attrs[..k] == attrs;
    }
  }

  /** `<metadata>` throws exactly when one of its attributes is not `xmlns:…`. */
  lemma {:induction false} XmlnsThrowsIff(md: Element, attrs: seq<(string, string)>)
    requires forall i :: 0 <= i < |attrs| ==> NoLineTerminator(attrs[i].0)
    ensures XmlnsPairs(md, attrs).Err? <==>
              exists i :: 0 <= i < |attrs| && !(|attrs[i].0| >= 6 && attrs[i].0[..6] == "xmlns:")
    decreases |attrs|
  {
    if attrs != [] {
      var init := attrs[..|attrs| - 1];
      XmlnsThrowsIff(md, init);
      var last := attrs[|attrs| - 1];
      assert NoLineTerminator(last.0);
      if |last.0| >= 6 {
        assert forall i :: 0 <= i < |last.0[6..]| ==> last.0[6..][i] == last.0[6 + i];
      }
      if exists i :: 0 <= i < |init| && !(|init[i].0| >= 6 && init[i].0[..6] == "xmlns:") {
        var i :| 0 <= i < |init| && !(|init[i].0| >= 6 && init[i].0[..6] == "xmlns:");
        assert attrs[i] == init[i];
      }
      if exists i :: 0 <= i < |attrs| && !(|attrs[i].0| >= 6 && attrs[i].0[..6] == "xmlns:") {
        var i :| 0 <= i < |attrs| && !(|attrs[i].0| >= 6 && attrs[i].0[..6] == "xmlns:");
        if i < |init| {
          assert init[i] == attrs[i];
        }
      }
    }
  }

  /** In practice `X` maps to itself: with no attribute literally named `X`,
      `xmlns:X` registers `X -> X`, whatever namespace URI it declares. */
  lemma XmlnsSelfMapped(md: Element, ns: string, uri: string)
    requires ns != [] && NoLineTerminator(ns)
    requires Attr(md, ns).None?
    ensures XmlnsEntry(md, ("xmlns:" + ns, uri)) == Ok(Some((ns, ns)))
  {
    var name := "xmlns:" + ns;
    assert name[..6] == "xmlns:";
    assert name[6..] == ns;
  }

  /** `forEach` over the attributes of `<metadata>`, registering as it goes
      and throwing at the first attribute that is not `xmlns:…`. */
  method RegisterXmlns(ctx: QueryContext, md: Element) returns (r: Result<()>)
    modifies ctx
    ensures r.Ok? <==> XmlnsPairs(md, md.attrs).Ok?
    ensures r.Err? ==> r.error == XmlnsPairs(md, md.attrs).error
    ensures r.Ok? ==> Tables(ctx.fprefix, ctx.rprefix)
                        == Registered(old(Tables(ctx.fprefix, ctx.rprefix)), XmlnsPairs(md, md.attrs).value)
  {
    ghost var t0 := Tables(ctx.fprefix, ctx.rprefix);
    var attrs := md.attrs;
    var i := 0;
    while i < |attrs|
      invariant 0 <= i <= |attrs|
      invariant XmlnsPairs(md, attrs[..i]).Ok?
      invariant Tables(ctx.fprefix, ctx.rprefix) == Registered(t0, XmlnsPairs(md, attrs[..i]).value)
    {
      XmlnsPairsStep(md, attrs, i);
      var entry := XmlnsEntry(md, attrs[i]);
      if entry.Err? {
        XmlnsPairsErrExtends(md, attrs, i + 1);
        return Err(entry.error);
      }
      if entry.value.Some? {
        ctx.Prefix(entry.value.value.0, entry.value.value.1);
        RegisteredSnoc(t0, XmlnsPairs(md, attrs[..i]).value, entry.value.value);
      } else {
        EmptyAppend(XmlnsPairs(md, attrs[..i]).value);
      }
      i := i + 1;
    }
    assert attrs[..|attrs|] == attrs;
    r := Ok(());
  }

  /** One more attribute of the `forEach`. */
  lemma XmlnsPairsStep(md: Element, attrs: seq<(string, string)>, i: nat)
    requires i < |attrs| && XmlnsPairs(md, attrs[..i]).Ok?
    ensures XmlnsEntry(md, attrs[i]).Err? ==> XmlnsPairs(md, attrs[..i + 1]) == Err(XmlnsEntry(md, attrs[i]).error)
    ensures XmlnsEntry(md, attrs[i]).Ok? ==>
              var entry := XmlnsEntry(md, attrs[i]).value;
              XmlnsPairs(md, attrs[..i + 1])
                == Ok(XmlnsPairs(md, attrs[..i]).value + (if entry.Some? then [entry.value] else []))
  {
    assert attrs[..i + 1][..i] == attrs[..i];
  }
}
