/** Shared vocabulary: optional values, the exceptions the reader can raise,
    the character classes of JavaScript regular expressions, and the
    `String.prototype.split` / `Array.prototype.join` pair on one separator. */
module Base {

  datatype Option<+T> = None | Some(value: T)

  /** The exceptions index.js can throw, as the caller of the reader sees them. */
  datatype Error =
    | TypeError(what: string)     // property access on null/undefined, destructuring a failed match
    | SyntaxError                 // JSON.parse of malformed text
    | RangeError                  // String.fromCodePoint above 0x10FFFF
    | Unrepresentable             // a lone UTF-16 surrogate, which `char` cannot hold
    | FileNotFound(file: string)  // readText on a missing zip entry
    | NoContentPointer            // no package document named in META-INF/container.xml

  datatype Result<+T> = Ok(value: T) | Err(error: Error) {
    predicate IsFailure() { Err? }

    function PropagateFailure<U>(): Result<U>
      requires Err?
    {
      Err(error)
    }

    function Extract(): T
      requires Ok?
    {
      value
    }
  }

  /** A map lookup that may miss. */
  function Get<K, V>(m: map<K, V>, k: K): (r: Option<V>)
    ensures r.Some? <==> k in m
    ensures r.Some? ==> r.value == m[k]
  {
    if k in m then Some(m[k]) else None
  }

  /** `x || undefined` on a string: the empty string is falsy. */
  function Truthy(s: string): (r: Option<string>)
    ensures r == None <==> s == ""
    ensures r.Some? ==> r.value == s
  {
    if s == "" then None else Some(s)
  }

  /** `\w` */
  predicate IsWordChar(c: char) {
    ('a' <= c <= 'z') || ('A' <= c <= 'Z') || ('0' <= c <= '9') || c == '_'
  }

  /** `\d` and `[0-9]` */
  predicate IsDigit(c: char) {
    '0' <= c <= '9'
  }

  /** `[A-Fa-f0-9]` */
  predicate IsHexDigit(c: char) {
    ('0' <= c <= '9') || ('a' <= c <= 'f') || ('A' <= c <= 'F')
  }

  /** The characters `.` refuses to match without the `s` flag. */
  predicate IsLineTerminator(c: char) {
    c == '\n' || c == '\r' || c == '\U{2028}' || c == '\U{2029}'
  }

  /** `\s`: the ECMAScript WhiteSpace and LineTerminator code points. */
  predicate IsSpace(c: char) {
    c == ' ' || c == '\t' || c == '\U{000B}' || c == '\U{000C}' || c == '\U{00A0}' || c == '\U{FEFF}'
    || c == '\U{1680}' || ('\U{2000}' <= c <= '\U{200A}') || c == '\U{202F}' || c == '\U{205F}'
    || c == '\U{3000}' || IsLineTerminator(c)
  }

  predicate NoLineTerminator(s: string) {
    forall i :: 0 <= i < |s| ==> !IsLineTerminator(s[i])
  }

  function DigitValue(c: char): (d: nat)
    requires IsHexDigit(c)
    ensures d < 16
    ensures IsDigit(c) ==> d < 10
  {
    if '0' <= c <= '9' then (c as int) - ('0' as int)
    else if 'a' <= c <= 'f' then (c as int) - ('a' as int) + 10
    else (c as int) - ('A' as int) + 10
  }

  /** `parseInt(digits, base)` on a non-empty run of valid digits. */
  function NumberValue(digits: string, base: nat): nat
    requires base == 10 || base == 16
    requires forall i :: 0 <= i < |digits| ==> IsHexDigit(digits[i])
  {
    if digits == [] then 0
    else NumberValue(digits[..|digits| - 1], base) * base + DigitValue(digits[|digits| - 1])
  }

  /** `s.split(sep)` for a one-character separator: never empty, `"".split(",") == [""]`. */
  function Split(s: string, sep: char): (parts: seq<string>)
    ensures |parts| >= 1
    decreases |s|
  {
    if s == [] then [""]
    else if s[0] == sep then [""] + Split(s[1..], sep)
    else
      var rest := Split(s[1..], sep);
      [[s[0]] + rest[0]] + rest[1..]
  }

  /** `parts.join(sep)` */
  function Join(parts: seq<string>, sep: char): string {
    if parts == [] then ""
    else if |parts| == 1 then parts[0]
    else parts[0] + [sep] + Join(parts[1..], sep)
  }

  predicate Free(s: string, sep: char) {
    forall i :: 0 <= i < |s| ==> s[i] != sep
  }

  /** No piece of a split holds the separator. */
  lemma {:induction false} SplitPartsFree(s: string, sep: char)
    ensures forall k :: 0 <= k < |Split(s, sep)| ==> Free(Split(s, sep)[k], sep)
    decreases |s|
  {
    if s != [] {
      SplitPartsFree(s[1..], sep);
    }
  }

  /** Joining the pieces of a split gives back the string. */
  lemma {:induction false} JoinSplit(s: string, sep: char)
    ensures Join(Split(s, sep), sep) == s
    decreases |s|
  {
    if s != [] {
      var c := s[0];
      Uncons(s);
      SplitCons(c, s[1..], sep);
      JoinSplit(s[1..], sep);
      var rest := Split(s[1..], sep);
      if c == sep {
        ConsParts("", rest);
        assert Join([""] + rest, sep) == "" + [sep] + Join(rest, sep);
        EmptyAppend([sep] + s[1..]);
      } else if |rest| == 1 {
        assert Split(s, sep) == [[c] + rest[0]];
      } else {
        var first := [c] + rest[0];
        ConsParts(first, rest[1..]);
        assert Join([first] + rest[1..], sep) == first + [sep] + Join(rest[1..], sep);
        assert Join(rest, sep) == rest[0] + [sep] + Join(rest[1..], sep);
        Assoc([c], rest[0] + [sep], Join(rest[1..], sep));
        Assoc([c], rest[0], [sep]);
      }
    }
  }

  /** Splitting a join of separator-free pieces gives back the pieces. */
  lemma {:induction false} SplitJoin(parts: seq<string>, sep: char)
    requires |parts| >= 1
    requires forall k :: 0 <= k < |parts| ==> Free(parts[k], sep)
    ensures Split(Join(parts, sep), sep) == parts
    decreases |parts|, |parts[0]|
  {
    if |parts| == 1 {
      SplitFree(parts[0], sep);
    } else {
      var p := parts[0];
      var back := Join(parts[1..], sep);
      assert Join(parts, sep) == p + [sep] + back;
      if p == [] {
        SplitJoin(parts[1..], sep);
        EmptyAppend([sep] + back);
        SplitCons(sep, back, sep);
        Uncons(parts);
      } else {
        var shorter := [p[1..]] + parts[1..];
        ConsParts(p[1..], parts[1..]);
        assert Join(shorter, sep) == p[1..] + [sep] + back;
        SplitJoin(shorter, sep);
        ConsAppend(p, sep, back);
        SplitCons(p[0], Join(shorter, sep), sep);
        Uncons(p);
        Uncons(parts);
      }
    }
  }

  /** Joining two non-empty lists puts one separator between their joins. */
  lemma {:induction false} JoinAppend(a: seq<string>, b: seq<string>, sep: char)
    requires a != [] && b != []
    ensures Join(a + b, sep) == Join(a, sep) + [sep] + Join(b, sep)
    decreases |a|
  {
    HeadTail(a, b);
    if |a| > 1 {
      JoinAppend(a[1..], b, sep);
      var rest := Join(a[1..], sep);
      Assoc(a[0] + [sep], rest + [sep], Join(b, sep));
      Assoc(a[0] + [sep], rest, [sep]);
    }
  }

  lemma {:induction false} SplitFree(s: string, sep: char)
    requires Free(s, sep)
    ensures Split(s, sep) == [s]
    decreases |s|
  {
    if s != [] {
      SplitFree(s[1..], sep);
      assert [s[0]] + s[1..] == s;
    }
  }

  /** One step of a split. */
  lemma SplitCons(c: char, t: string, sep: char)
    ensures Split([c] + t, sep) ==
              if c == sep then [""] + Split(t, sep)
              else [[c] + Split(t, sep)[0]] + Split(t, sep)[1..]
  {
    assert ([c] + t)[0] == c && ([c] + t)[1..] == t;
  }

  // Small facts about sequence concatenation, each proved on its own so
  // that the proofs using them stay cheap.

  lemma ConsAppend(a: string, sep: char, b: string)
    requires a != []
    ensures a + [sep] + b == [a[0]] + (a[1..] + [sep] + b)
  {
  }

  lemma Assoc<T>(x: seq<T>, y: seq<T>, z: seq<T>)
    ensures x + (y + z) == (x + y) + z
  {
  }

  lemma Uncons<T>(a: seq<T>)
    requires a != []
    ensures a == [a[0]] + a[1..]
  {
  }

  lemma ConsParts<T>(c: T, t: seq<T>)
    ensures ([c] + t)[0] == c && ([c] + t)[1..] == t
  {
  }

  lemma HeadTail<T>(rest: seq<T>, back: seq<T>)
    requires rest != []
    ensures (rest + back)[0] == rest[0] && (rest + back)[1..] == rest[1..] + back
  {
  }

  lemma AppendParts<T>(x: seq<T>, y: seq<T>)
    ensures (x + y)[..|x|] == x && (x + y)[|x|..] == y
  {
  }

  lemma AppendInside<T>(x: seq<T>, y: seq<T>, i: int, j: int)
    requires 0 <= i <= j <= |x|
    ensures (x + y)[i..j] == x[i..j]
  {
  }

  lemma AppendFrom<T>(x: seq<T>, y: seq<T>, i: int)
    requires 0 <= i <= |x|
    ensures (x + y)[i..] == x[i..] + y
  {
  }

  lemma EmptyAppend<T>(x: seq<T>)
    ensures [] + x == x && x + [] == x
  {
  }

  /** Splitting distributes over a separator between two strings. */
  lemma {:induction false} SplitConcat(a: string, b: string, sep: char)
    ensures Split(a + [sep] + b, sep) == Split(a, sep) + Split(b, sep)
    decreases |a|
  {
    if a == [] {
      assert a + [sep] + b == [sep] + b;
      SplitCons(sep, b, sep);
    } else {
      var c := a[0];
      var tail := a[1..] + [sep] + b;
      ConsAppend(a, sep, b);
      Uncons(a);
      SplitCons(c, tail, sep);
      SplitCons(c, a[1..], sep);
      SplitConcat(a[1..], b, sep);
      var rest := Split(a[1..], sep);
      var back := Split(b, sep);
      if c != sep {
        HeadTail(rest, back);
        Assoc([[c] + rest[0]], rest[1..], back);
      } else {
        Assoc([""], rest, back);
      }
    }
  }
}
