/** `resolve(baseFile, file)` (index.js:195-197): an archive-relative path,
    computed as POSIX `path.resolve('/' + path.dirname(baseFile), file)`
    with the leading `/` cut off. Resolution is a walk over the `/`-separated
    segments with a stack: empty and `.` segments are dropped, `..` pops
    (and is dropped at the root), anything else is pushed — the dot-segment
    removal of section 5.2.4 of RFC 3986 on an absolute path. */
module Paths {
  import opened Base

  /** Node's `path.posix.dirname`: the index of the slash that ends the
      directory part, scanning down from `i` to 1 past any trailing slashes;
      -1 when there is none. */
  function DirEnd(p: string, i: int, matchedSlash: bool): (e: int)
    requires i < |p|
    ensures e == -1 || (1 <= e <= i && p[e] == '/')
    decreases i
  {
    if i < 1 then -1
    else if p[i] == '/' then (if !matchedSlash then i else DirEnd(p, i - 1, true))
    else DirEnd(p, i - 1, false)
  }

  /** `path.dirname(p)` */
  function Dirname(p: string): string {
    if |p| == 0 then "."
    else
      var hasRoot := p[0] == '/';
      var end := DirEnd(p, |p| - 1, true);
      if end == -1 then (if hasRoot then "/" else ".")
      else if hasRoot && end == 1 then "//"
      else p[..end]
  }

  /** A file at the top of the archive lives in `.`. */
  lemma DirnameTopLevel(name: string)
    requires Free(name, '/')
    ensures Dirname(name) == "."
  {
    if |name| > 0 {
      DirEndNoSlash(name, |name| - 1, true);
    }
  }

  lemma {:induction false} DirEndNoSlash(p: string, i: int, matched: bool)
    requires i < |p| && Free(p, '/')
    ensures DirEnd(p, i, matched) == -1
    decreases i
  {
    if i >= 1 {
      DirEndNoSlash(p, i - 1, false);
    }
  }

  /** The directory of `dir/name` is `dir`. */
  lemma DirnameOfPath(dir: string, name: string)
    requires dir != [] && dir != "/"
    requires name != [] && Free(name, '/')
    ensures Dirname(dir + "/" + name) == dir
  {
    var p := dir + "/" + name;
    DirEndSkipsName(p, |dir|, |p| - 1);
  }

  lemma {:induction false} DirEndSkipsName(p: string, d: nat, i: int)
    requires 1 <= d < i < |p| && p[d] == '/'
    requires forall k :: d < k < |p| ==> p[k] != '/'
    ensures DirEnd(p, i, true) == d
    ensures DirEnd(p, i, false) == d
    decreases i
  {
    if i - 1 > d {
      DirEndSkipsName(p, d, i - 1);
    }
  }

  /** The path Node's `resolve` hands to its normaliser: `file` alone when it
      is absolute, otherwise `from/file`; an empty `file` is skipped. */
  function ResolvedPath(baseFile: string, file: string): string {
    var from := "/" + Dirname(baseFile);
    if file == "" then from + "/"
    else if file[0] == '/' then file + "/"
    else from + "/" + file + "/"
  }

  /** A segment that survives normalisation. */
  predicate Proper(seg: string) {
    seg != "" && seg != "." && seg != ".." && Free(seg, '/')
  }

  /** One segment against the stack of directories walked so far. */
  function Step(stack: seq<string>, seg: string): seq<string> {
    if seg == "" || seg == "." then stack
    else if seg == ".." then (if stack == [] then [] else stack[..|stack| - 1])
    else stack + [seg]
  }

  /** The segments, walked left to right from `stack`. */
  function Walk(stack: seq<string>, segs: seq<string>): seq<string>
    decreases |segs|
  {
    if segs == [] then stack else Walk(Step(stack, segs[0]), segs[1..])
  }

  /** `resolve(baseFile, file)` */
  function Resolve(baseFile: string, file: string): string {
    Join(Walk([], Split(ResolvedPath(baseFile, file), '/')), '/')
  }

  predicate AllProper(segs: seq<string>) {
    forall k :: 0 <= k < |segs| ==> Proper(segs[k])
  }

  /** Walking segments free of `/` keeps a stack of proper segments. */
  lemma {:induction false} WalkProper(stack: seq<string>, segs: seq<string>)
    requires AllProper(stack)
    requires forall k :: 0 <= k < |segs| ==> Free(segs[k], '/')
    ensures AllProper(Walk(stack, segs))
    decreases |segs|
  {
    if segs != [] {
      WalkProper(Step(stack, segs[0]), segs[1..]);
    }
  }

  /** Proper segments are pushed one by one. */
  lemma {:induction false} WalkPushes(stack: seq<string>, segs: seq<string>)
    requires AllProper(segs)
    ensures Walk(stack, segs) == stack + segs
    decreases |segs|
  {
    if segs != [] {
      WalkPushes(stack + [segs[0]], segs[1..]);
      assert stack + [segs[0]] + segs[1..] == stack + segs;
    }
  }

  /** The result of `resolve` never starts with `/`, and when it is not empty
      its segments are all proper: no empty, `.` or `..` segment remains. */
  lemma ResolveNormal(baseFile: string, file: string)
    ensures Resolve(baseFile, file) == "" || Resolve(baseFile, file)[0] != '/'
    ensures Resolve(baseFile, file) != "" ==> AllProper(Split(Resolve(baseFile, file), '/'))
  {
    var segs := Split(ResolvedPath(baseFile, file), '/');
    SplitPartsFree(ResolvedPath(baseFile, file), '/');
    WalkProper([], segs);
    var stack := Walk([], segs);
    if stack != [] {
      SplitJoin(stack, '/');
      JoinStartsWith(stack);
    }
  }

  lemma {:induction false} JoinStartsWith(stack: seq<string>)
    requires stack != [] && AllProper(stack)
    ensures Join(stack, '/') != "" && Join(stack, '/')[0] == stack[0][0]
  {
    if |stack| > 1 {
      assert Join(stack, '/') == stack[0] + ['/'] + Join(stack[1..], '/');
    }
  }

  /** A separator-free first segment splits off on its own. */
  lemma SplitSegment(seg: string, rest: string)
    requires Free(seg, '/')
    ensures Split(seg + "/" + rest, '/') == [seg] + Split(rest, '/')
  {
    SplitConcat(seg, rest, '/');
    SplitFree(seg, '/');
  }

  /** `/rest/` splits into an empty segment, the segments of `rest`, and an
      empty segment. */
  lemma SplitRooted(rest: string)
    ensures Split("/" + rest + "/", '/') == [""] + Split(rest, '/') + [""]
  {
    assert "/" + rest + "/" == "" + "/" + (rest + "/" + "");
    SplitSegment("", rest + "/" + "");
    SplitConcat(rest, "", '/');
    assert Split("", '/') == [""];
  }

  /** Empty and `.` segments leave the stack alone. */
  lemma WalkSkip(stack: seq<string>, seg: string, segs: seq<string>)
    requires seg == "" || seg == "."
    ensures Walk(stack, [seg] + segs) == Walk(stack, segs)
  {
    assert ([seg] + segs)[1..] == segs;
  }

  /** What a relative `file` walks through from a top-level base: the root,
      `.`, then `file`'s own segments. */
  lemma TopSegments(top: string, file: string)
    requires Free(top, '/')
    requires file != "" && file[0] != '/'
    ensures Split(ResolvedPath(top, file), '/') == [""] + (["."] + (Split(file, '/') + [""]))
  {
    DirnameTopLevel(top);
    assert ResolvedPath(top, file) == "/" + ("." + "/" + file) + "/";
    SplitRooted("." + "/" + file);
    SplitSegment(".", file);
  }

  /** An empty `file` names the base's directory, which for a top-level base
      is the root: the empty path. */
  lemma ResolveTopEmpty(top: string)
    requires Free(top, '/')
    ensures Resolve(top, "") == ""
  {
    DirnameTopLevel(top);
    assert ResolvedPath(top, "") == "/" + "." + "/";
    SplitRooted(".");
    SplitFree(".", '/');
    WalkSkip([], "", ["."] + [""]);
    WalkSkip([], ".", [""]);
    assert Walk([], [""]) == [];
  }

  /** An absolute `file` ignores the base: it resolves as from the archive root. */
  lemma ResolveAbsolute(baseFile: string, top: string, file: string)
    requires file != "" && file[0] == '/'
    requires Free(top, '/')
    ensures Resolve(baseFile, file) == Resolve(top, file[1..])
  {
    var rest := file[1..];
    assert ResolvedPath(baseFile, file) == "/" + rest + "/";
    SplitRooted(rest);
    var segs := Split(rest, '/') + [""];
    assert [""] + Split(rest, '/') + [""] == [""] + segs;
    WalkSkip([], "", segs);
    assert Resolve(baseFile, file) == Join(Walk([], segs), '/');
    if rest == "" {
      ResolveTopEmpty(top);
      assert segs == [""] + [""];
      WalkSkip([], "", [""]);
      assert Walk([], [""]) == [];
    } else if rest[0] == '/' {
      assert ResolvedPath(top, rest) == "/" + rest[1..] + "/";
      SplitRooted(rest[1..]);
      assert rest == "" + "/" + rest[1..];
      SplitSegment("", rest[1..]);
      assert segs == [""] + Split(rest[1..], '/') + [""];
    } else {
      TopSegments(top, rest);
      WalkSkip([], "", ["."] + segs);
      WalkSkip([], ".", segs);
    }
  }

  /** A `..` that would climb above the archive root is dropped. */
  lemma ResolveClamps(top: string, file: string)
    requires Free(top, '/')
    requires file != "" && file[0] != '/'
    ensures Resolve(top, "../" + file) == Resolve(top, file)
  {
    var climbing := "../" + file;
    TopSegments(top, climbing);
    TopSegments(top, file);
    assert climbing == ".." + "/" + file;
    SplitSegment("..", file);
    var tail := Split(file, '/') + [""];
    assert Split(climbing, '/') + [""] == [".."] + tail;
    WalkSkip([], "", ["."] + ([".."] + tail));
    WalkSkip([], ".", [".."] + tail);
    WalkSkip([], "", ["."] + tail);
    WalkSkip([], ".", tail);
    assert ([".."] + tail)[1..] == tail;
    assert Walk([], [".."] + tail) == Walk([], tail);
  }

  /** Walking a clean path and a trailing empty segment pushes the path. */
  lemma {:induction false} WalkTrailing(stack: seq<string>, segs: seq<string>)
    requires AllProper(segs)
    ensures Walk(stack, segs + [""]) == stack + segs
  {
    WalkAppend(stack, segs, [""]);
    WalkPushes(stack, segs);
  }

  lemma {:induction false} WalkAppend(stack: seq<string>, a: seq<string>, b: seq<string>)
    ensures Walk(stack, a + b) == Walk(Walk(stack, a), b)
    decreases |a|
  {
    if a != [] {
      assert (a + b)[0] == a[0] && (a + b)[1..] == a[1..] + b;
      WalkAppend(Step(stack, a[0]), a[1..], b);
    } else {
      assert a + b == b;
    }
  }

  /** Resolving a normal relative path against a top-level file gives the
      path back. */
  lemma ResolveNormalPath(top: string, segs: seq<string>)
    requires Free(top, '/')
    requires segs != [] && AllProper(segs)
    ensures Resolve(top, Join(segs, '/')) == Join(segs, '/')
  {
    var p := Join(segs, '/');
    JoinStartsWith(segs);
    TopSegments(top, p);
    SplitJoin(segs, '/');
    WalkSkip([], "", ["."] + (segs + [""]));
    WalkSkip([], ".", segs + [""]);
    WalkTrailing([], segs);
    assert Walk([], Split(ResolvedPath(top, p), '/')) == segs;
  }

  /** `resolve` is idempotent for top-level bases: resolving its own result
      again changes nothing. */
  lemma ResolveIdempotent(top: string, baseFile: string, file: string)
    requires Free(top, '/')
    ensures Resolve(top, Resolve(baseFile, file)) == Resolve(baseFile, file)
  {
    var r := Resolve(baseFile, file);
    ResolveNormal(baseFile, file);
    if r == "" {
      ResolveTopEmpty(top);
    } else {
      JoinSplit(r, '/');
      ResolveNormalPath(top, Split(r, '/'));
    }
  }

  /** A link inside a directory resolves to that directory followed by the
      link: from `OEBPS/text/nav.xhtml`, `ch1.xhtml` is
      `OEBPS/text/ch1.xhtml`. */
  lemma ResolveInDirectory(ds: seq<string>, name: string, segs: seq<string>)
    requires ds != [] && AllProper(ds)
    requires name != [] && Free(name, '/')
    requires segs != [] && AllProper(segs)
    ensures Resolve(Join(ds, '/') + "/" + name, Join(segs, '/')) == Join(ds, '/') + "/" + Join(segs, '/')
  {
    var base, p := Join(ds, '/') + "/" + name, Join(segs, '/');
    var full := ds + segs;
    InDirectorySegments(ds, name, segs);
    var parts := Split(ResolvedPath(base, p), '/');
    assert AllProper(full);
    WalkSkip([], "", full + [""]);
    WalkTrailing([], full);
    assert Walk([], parts) == full;
    assert Resolve(base, p) == Join(full, '/');
    JoinAppend(ds, segs, '/');
  }

  lemma InDirectorySegments(ds: seq<string>, name: string, segs: seq<string>)
    requires ds != [] && AllProper(ds)
    requires name != [] && Free(name, '/')
    requires segs != [] && AllProper(segs)
    ensures Split(ResolvedPath(Join(ds, '/') + "/" + name, Join(segs, '/')), '/') == [""] + ((ds + segs) + [""])
  {
    var dir := Join(ds, '/');
    var p := Join(segs, '/');
    JoinStartsWith(ds);
    DirnameOfPath(dir, name);
    JoinStartsWith(segs);
    assert ResolvedPath(dir + "/" + name, p) == ("/" + dir) + "/" + p + "/";
    Assoc("/", dir, "/");
    Assoc("/", dir + "/", p);
    SplitRooted(dir + "/" + p);
    JoinAppend(ds, segs, '/');
    assert AllProper(ds + segs);
    SplitJoin(ds + segs, '/');
    Assoc([""], ds + segs, [""]);
  }

  /** A directory pushed and then left with `..` leaves no trace. */
  lemma WalkUpCancels(dir: string, tail: seq<string>)
    requires Proper(dir)
    ensures Walk([], [dir] + ([".."] + tail)) == Walk([], tail)
  {
    assert ([dir] + ([".."] + tail))[1..] == [".."] + tail;
    assert ([".."] + tail)[1..] == tail;
    assert Step([], dir) == [dir];
    assert Step([dir], "..") == [];
  }

  /** A `..` link inside a top-level directory climbs back to the archive
      root: from `OEBPS/nav.xhtml`, `../text/ch1.xhtml` is `text/ch1.xhtml`. */
  lemma ResolveParent(dir: string, name: string, segs: seq<string>)
    requires Proper(dir)
    requires name != [] && Free(name, '/')
    requires segs != [] && AllProper(segs)
    ensures Resolve(dir + "/" + name, "../" + Join(segs, '/')) == Join(segs, '/')
  {
    var p := Join(segs, '/');
    var tail := segs + [""];
    ParentSegments(dir, name, segs);
    WalkSkip([], "", [dir] + ([".."] + tail));
    WalkUpCancels(dir, tail);
    WalkTrailing([], segs);
    assert Walk([], Split(ResolvedPath(dir + "/" + name, "../" + p), '/')) == segs;
  }

  lemma ParentSegments(dir: string, name: string, segs: seq<string>)
    requires Proper(dir)
    requires name != [] && Free(name, '/')
    requires segs != [] && AllProper(segs)
    ensures Split(ResolvedPath(dir + "/" + name, "../" + Join(segs, '/')), '/')
         == [""] + ([dir] + ([".."] + (segs + [""])))
  {
    var p := Join(segs, '/');
    var file := "../" + p;
    DirnameOfPath(dir, name);
    assert file[0] == '.';
    var inner := (dir + "/") + file;
    assert ResolvedPath(dir + "/" + name, file) == ("/" + dir) + "/" + file + "/";
    Assoc("/", dir, "/");
    Assoc("/", dir + "/", file);
    SplitRooted(inner);
    SplitSegment(dir, file);
    assert "../" == ".." + "/";
    SplitSegment("..", p);
    SplitJoin(segs, '/');
    Assoc([""], [dir] + ([".."] + segs), [""]);
    Assoc([dir], [".."] + segs, [""]);
    Assoc([".."], segs, [""]);
  }
}
