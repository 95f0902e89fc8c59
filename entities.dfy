/** Text decoding in the table-of-contents readers: `decodeEntities`
    (index.js:210-213), which expands numeric character references in two
    passes, and the global `unescape` applied to link targets
    (index.js:219, 233), as section B.2.1.2 of ECMA-262 defines it. */
module Entities {
  import opened Base

  /** `String.fromCodePoint(n)` for a non-negative integer: above 0x10FFFF it
      throws. A surrogate code point would make a lone UTF-16 code unit,
      which a `char` cannot hold. */
  function FromCodePoint(n: nat): (r: Result<char>)
    ensures r.Ok? <==> n <= 0x10FFFF && !(0xD800 <= n <= 0xDFFF)
    ensures r.Ok? ==> r.value as int == n
    ensures n > 0x10FFFF ==> r == Err(RangeError)
  {
    if n > 0x10FFFF then Err(RangeError)
    else if 0xD800 <= n <= 0xDFFF then Err(Unrepresentable)
    else Ok(n as char)
  }

  /** `[A-Fa-f0-9]` for the hexadecimal pass, `[0-9]` for the decimal one. */
  predicate IsRefDigit(c: char, hex: bool) {
    if hex then IsHexDigit(c) else IsDigit(c)
  }

  /** The length of the run of reference digits that starts `s`. */
  function DigitRun(s: string, hex: bool): (n: nat)
    ensures n <= |s|
    ensures forall i :: 0 <= i < n ==> IsRefDigit(s[i], hex)
    ensures n == |s| || !IsRefDigit(s[n], hex)
  {
    if s == [] || !IsRefDigit(s[0], hex) then 0 else 1 + DigitRun(s[1..], hex)
  }

  /** The text that opens a reference: `&#x` or `&#`. */
  function Opener(hex: bool): string {
    if hex then "&#x" else "&#"
  }

  /** The length of the reference that starts `s`, or 0 when `s` does not
      start with one: the opener, a maximal digit run, and `;`. */
  function RefLength(s: string, hex: bool): (n: nat)
    ensures n == 0 || (|Opener(hex)| + 2 <= n <= |s| && s[n - 1] == ';')
    ensures n > 0 ==> s[..|Opener(hex)|] == Opener(hex)
    ensures n > 0 ==> forall i :: |Opener(hex)| <= i < n - 1 ==> IsRefDigit(s[i], hex) && IsHexDigit(s[i])
  {
    var p := |Opener(hex)|;
    if |s| >= p && s[..p] == Opener(hex) then
      var d := DigitRun(s[p..], hex);
      if d >= 1 && p + d < |s| && s[p + d] == ';' then p + d + 1 else 0
    else 0
  }

  /** One global `replace` pass: every reference, left to right, becomes its
      character; the first one `fromCodePoint` refuses throws. Decoding never
      lengthens the text. */
  function DecodeRefs(s: string, hex: bool): (r: Result<string>)
    ensures r.Ok? ==> |r.value| <= |s|
    decreases |s|
  {
    if s == [] then Ok([])
    else
      var n := RefLength(s, hex);
      var p := |Opener(hex)|;
      if n > 0 then
        var c :- FromCodePoint(NumberValue(s[p..n - 1], if hex then 16 else 10));
        var rest :- DecodeRefs(s[n..], hex);
        Ok([c] + rest)
      else
        var rest :- DecodeRefs(s[1..], hex);
        Ok([s[0]] + rest)
  }

  /** `decodeEntities(html)`: hexadecimal references first, then decimal ones
      in what the first pass produced. */
  function DecodeEntities(html: string): (r: Result<string>)
    ensures r.Ok? ==> |r.value| <= |html|
  {
    var once :- DecodeRefs(html, true);
    DecodeRefs(once, false)
  }

  /** No reference starts at a character other than `&`. */
  lemma NoRefWithoutAmp(s: string, hex: bool)
    requires s != [] && s[0] != '&'
    ensures RefLength(s, hex) == 0
  {
    if |s| >= |Opener(hex)| {
      assert s[..|Opener(hex)|][0] == s[0];
    }
  }

  /** A pass leaves text without `&` alone. */
  lemma {:induction false} DecodeRefsPlain(s: string, hex: bool)
    requires Free(s, '&')
    ensures DecodeRefs(s, hex) == Ok(s)
    decreases |s|
  {
    if s != [] {
      NoRefWithoutAmp(s, hex);
      assert Free(s[1..], '&');
      DecodeRefsPlain(s[1..], hex);
      assert [s[0]] + s[1..] == s;
    }
  }

  /** Text without `&` comes out of `decodeEntities` unchanged. */
  lemma DecodeEntitiesPlain(html: string)
    requires Free(html, '&')
    ensures DecodeEntities(html) == Ok(html)
  {
    DecodeRefsPlain(html, true);
    DecodeRefsPlain(html, false);
  }

  /** The hexadecimal pass only looks at a lower-case `x`: text without one
      passes through it unchanged (so `&#X41;` is never decoded as hex). */
  lemma {:induction false} HexPassNeedsX(s: string)
    requires Free(s, 'x')
    ensures DecodeRefs(s, true) == Ok(s)
    decreases |s|
  {
    if s != [] {
      if |s| >= 3 {
        assert s[..3][2] == s[2];
      }
      assert RefLength(s, true) == 0;
      HexPassNeedsX(s[1..]);
      assert [s[0]] + s[1..] == s;
    }
  }

  /** `&#X41;` is no reference to either pass: the hexadecimal one wants a
      lower-case `x`, the decimal one a digit after `&#`. */
  lemma UpperCaseXKept(s: string)
    requires s == "&#X41;"
    ensures DecodeEntities(s) == Ok(s)
  {
    HexPassNeedsX(s);
    UpperCaseXNoDecimal(s);
    DecodeRefsPlain(s[1..], false);
    DecodeRefsSkip(s, false);
    Uncons(s);
  }

  lemma UpperCaseXNoDecimal(s: string)
    requires s == "&#X41;"
    ensures RefLength(s, false) == 0
  {
    assert s[..2] == "&#";
    assert DigitRun(s[2..], false) == 0;
  }

  /** One step of a pass where no reference starts. */
  lemma DecodeRefsSkip(s: string, hex: bool)
    requires s != [] && RefLength(s, hex) == 0
    ensures DecodeRefs(s, hex) ==
              if DecodeRefs(s[1..], hex).Ok?
              then Ok([s[0]] + DecodeRefs(s[1..], hex).value)
              else DecodeRefs(s[1..], hex)
  {
  }

  /** A complete reference keeps its length whatever follows it. */
  lemma RefLengthExtends(ref: string, rest: string, hex: bool)
    requires ref != [] && RefLength(ref, hex) == |ref|
    ensures RefLength(ref + rest, hex) == |ref|
  {
    var s := ref + rest;
    var p := |Opener(hex)|;
    assert p + 2 <= |ref|;
    AppendInside(ref, rest, 0, p);
    var digits := ref[p..];
    AppendFrom(ref, rest, p);
    var d := DigitRun(digits, hex);
    assert p + d + 1 == |ref|;
    DigitRunPrefix(digits, digits + rest, hex);
    assert s[p + d] == ref[p + d];
  }

  /** Every well-formed reference is recognised: the opener, a non-empty
      run of reference digits and `;`, whatever follows. */
  lemma RefLengthOf(ds: string, rest: string, hex: bool)
    requires ds != [] && forall i :: 0 <= i < |ds| ==> IsRefDigit(ds[i], hex)
    ensures RefLength(Opener(hex) + ds + ";" + rest, hex) == |Opener(hex)| + |ds| + 1
  {
    var o, tail := Opener(hex), ";" + rest;
    var s := Opener(hex) + ds + ";" + rest;
    Assoc(o + ds, ";", rest);
    Assoc(o, ds, tail);
    AppendParts(o, ds + tail);
    DigitRunAll(ds, tail, hex);
    assert s[|o| + |ds|] == (ds + tail)[|ds|] == ';';
  }

  /** So every reference whose code point `fromCodePoint` accepts decodes to
      that character, and the pass goes on after its `;`. */
  lemma RefDecodes(ds: string, rest: string, hex: bool, c: char)
    requires ds != [] && forall i :: 0 <= i < |ds| ==> IsRefDigit(ds[i], hex) && IsHexDigit(ds[i])
    requires FromCodePoint(NumberValue(ds, if hex then 16 else 10)) == Ok(c)
    ensures DecodeRefs(Opener(hex) + ds + ";" + rest, hex).Ok? <==> DecodeRefs(rest, hex).Ok?
    ensures DecodeRefs(rest, hex).Ok? ==> DecodeRefs(Opener(hex) + ds + ";" + rest, hex) == Ok([c] + DecodeRefs(rest, hex).value)
  {
    var o := Opener(hex);
    var ref := o + ds + ";";
    RefLengthOf(ds, "", hex);
    EmptyAppend(ref);
    AppendParts(o + ds, ";");
    AppendParts(o, ds);
    assert ref[|o|..|ref| - 1] == ds;
    DecodeRefsFront(ref, rest, hex, c);
  }

  /** One step of a pass at a reference. */
  lemma DecodeRefsAt(s: string, hex: bool, c: char)
    requires RefLength(s, hex) > 0
    requires FromCodePoint(NumberValue(s[|Opener(hex)|..RefLength(s, hex) - 1], if hex then 16 else 10)) == Ok(c)
    ensures DecodeRefs(s, hex) ==
              if DecodeRefs(s[RefLength(s, hex)..], hex).Ok?
              then Ok([c] + DecodeRefs(s[RefLength(s, hex)..], hex).value)
              else DecodeRefs(s[RefLength(s, hex)..], hex)
  {
  }

  /** A reference at the front decodes to its character, and the pass goes
      on after its `;`. */
  lemma DecodeRefsFront(ref: string, rest: string, hex: bool, c: char)
    requires ref != [] && RefLength(ref, hex) == |ref|
    requires FromCodePoint(NumberValue(ref[|Opener(hex)|..|ref| - 1], if hex then 16 else 10)) == Ok(c)
    ensures DecodeRefs(ref + rest, hex).Ok? <==> DecodeRefs(rest, hex).Ok?
    ensures DecodeRefs(rest, hex).Ok? ==> DecodeRefs(ref + rest, hex) == Ok([c] + DecodeRefs(rest, hex).value)
  {
    var s := ref + rest;
    var p := |Opener(hex)|;
    RefLengthExtends(ref, rest, hex);
    assert p + 2 <= |ref|;
    AppendInside(ref, rest, p, |ref| - 1);
    AppendParts(ref, rest);
    DecodeRefsAt(s, hex, c);
  }

  /** The digit run is read off the prefix that ends it. */
  lemma {:induction false} DigitRunPrefix(a: string, b: string, hex: bool)
    requires DigitRun(a, hex) < |a| && |a| <= |b|
    requires forall i :: 0 <= i < |a| ==> a[i] == b[i]
    ensures DigitRun(b, hex) == DigitRun(a, hex)
    decreases |a|
  {
    if IsRefDigit(a[0], hex) {
      DigitRunPrefix(a[1..], b[1..], hex);
    }
  }

  // ----- decimal references: an encoder the decoder inverts -----

  function DigitChar(d: nat): (c: char)
    requires d < 16
    ensures IsHexDigit(c) && DigitValue(c) == d
    ensures d < 10 ==> IsDigit(c)
  {
    if d < 10 then ('0' as int + d) as char else ('a' as int + d - 10) as char
  }

  /** The decimal digits of `n`, most significant first, without leading zeros. */
  function Decimal(n: nat): (ds: string)
    ensures ds != []
    ensures forall i :: 0 <= i < |ds| ==> IsDigit(ds[i]) && IsHexDigit(ds[i])
    ensures NumberValue(ds, 10) == n
  {
    if n < 10 then
      var ds := [DigitChar(n)];
      assert ds[..0] == [];
      ds
    else
      var ds := Decimal(n / 10) + [DigitChar(n % 10)];
      assert ds[..|ds| - 1] == Decimal(n / 10);
      ds
  }

  /** `&#n;` for the code point of `c`. */
  function DecimalRef(c: char): string {
    "&#" + Decimal(c as int) + ";"
  }

  /** Every character written as a decimal reference. */
  function EncodeDecimal(s: string): (e: string)
    ensures Free(e, 'x')
  {
    if s == [] then [] else DecimalRef(s[0]) + EncodeDecimal(s[1..])
  }

  lemma DecimalRefShape(c: char)
    ensures RefLength(DecimalRef(c), false) == |DecimalRef(c)|
    ensures NumberValue(DecimalRef(c)[2..|DecimalRef(c)| - 1], 10) == c as int
  {
    var r := DecimalRef(c);
    var ds := Decimal(c as int);
    assert r[..2] == "&#";
    assert r[2..] == ds + ";";
    assert DigitRun(ds + ";", false) == |ds| by {
      DigitRunAll(ds, ";", false);
    }
    assert r[2..|r| - 1] == ds;
  }

  lemma {:induction false} DigitRunAll(ds: string, tail: string, hex: bool)
    requires forall i :: 0 <= i < |ds| ==> IsRefDigit(ds[i], hex)
    requires tail != [] && !IsRefDigit(tail[0], hex)
    ensures DigitRun(ds + tail, hex) == |ds|
    decreases |ds|
  {
    if ds != [] {
      assert (ds + tail)[1..] == ds[1..] + tail;
      DigitRunAll(ds[1..], tail, hex);
    } else {
      assert ds + tail == tail;
    }
  }

  /** `decodeEntities` inverts writing every character as a decimal
      reference. */
  lemma {:induction false} DecimalRoundTrip(s: string)
    ensures DecodeEntities(EncodeDecimal(s)) == Ok(s)
  {
    HexPassNeedsX(EncodeDecimal(s));
    DecimalPassDecodes(s);
  }

  lemma {:induction false} DecimalPassDecodes(s: string)
    ensures DecodeRefs(EncodeDecimal(s), false) == Ok(s)
    decreases |s|
  {
    if s != [] {
      DecimalPassDecodes(s[1..]);
      DecimalRefShape(s[0]);
      DecodeRefsFront(DecimalRef(s[0]), EncodeDecimal(s[1..]), false, s[0]);
      assert [s[0]] + s[1..] == s;
    }
  }

  /** Two digits in a base. */
  lemma NumberValueTwo(a: char, b: char, base: nat)
    requires base == 10 || base == 16
    requires IsHexDigit(a) && IsHexDigit(b)
    ensures NumberValue([a, b], base) == DigitValue(a) * base + DigitValue(b)
  {
    assert [a, b][..1] == [a];
    assert [a][..0] == [];
    assert NumberValue([a], base) == DigitValue(a);
    assert NumberValue([a, b], base) == NumberValue([a], base) * base + DigitValue(b);
  }

  /** `&#x26;` is a hexadecimal reference to `&`. */
  lemma AmpersandRef(amp: string)
    requires amp == "&#x26;"
    ensures RefLength(amp, true) == |amp|
    ensures NumberValue(amp[3..|amp| - 1], 16) == '&' as int
  {
    assert amp[3..] == ['2', '6'] + ";";
    DigitRunAll(['2', '6'], ";", true);
    assert amp[3..|amp| - 1] == ['2', '6'];
    NumberValueTwo('2', '6', 16);
  }

  /** `&#65;` is a decimal reference to `A`. */
  lemma LetterARef(dec: string)
    requires dec == "&#65;"
    ensures RefLength(dec, false) == |dec|
    ensures NumberValue(dec[2..|dec| - 1], 10) == 'A' as int
  {
    assert dec[2..] == ['6', '5'] + ";";
    DigitRunAll(['6', '5'], ";", false);
    assert dec[2..|dec| - 1] == ['6', '5'];
    NumberValueTwo('6', '5', 10);
  }

  /** The two passes compose: a hexadecimal reference that decodes to `&`
      can open a decimal one, so `&#x26;#65;` comes out as `A`. */
  lemma DoubleDecoding(amp: string, tail: string, dec: string)
    requires amp == "&#x26;" && tail == "#65;" && dec == "&#65;"
    ensures DecodeEntities(amp + tail) == Ok("A")
  {
    AmpersandRef(amp);
    DecodeRefsPlain(tail, true);
    DecodeRefsFront(amp, tail, true, '&');
    assert ['&'] + tail == dec;
    LetterARef(dec);
    assert DecodeRefs(amp + tail, true) == Ok(dec);
    var empty: string := [];
    assert FromCodePoint('A' as int) == Ok('A');
    DecodeRefsFront(dec, empty, false, 'A');
    assert dec + empty == dec;
    assert DecodeRefs(empty, false) == Ok(empty);
    assert ['A'] + empty == "A";
  }

  // ----- unescape -----

  predicate AllHex(s: string) {
    forall i :: 0 <= i < |s| ==> IsHexDigit(s[i])
  }

  lemma {:induction false} NumberValueBound(ds: string)
    requires AllHex(ds)
    ensures NumberValue(ds, 16) < Power16(|ds|)
    decreases |ds|
  {
    if ds != [] {
      NumberValueBound(ds[..|ds| - 1]);
    }
  }

  function Power16(k: nat): (r: nat)
    ensures r >= 1
  {
    if k == 0 then 1 else 16 * Power16(k - 1)
  }

  /** `unescape(s)`: `%uXXXX` and `%XX` become the character with that
      code; any other `%` stays as it is. */
  function Unescape(s: string): (r: Result<string>)
    ensures r.Ok? ==> |r.value| <= |s|
    decreases |s|
  {
    if s == [] then Ok([])
    else if s[0] == '%' && |s| >= 6 && s[1] == 'u' && AllHex(s[2..6]) then
      var c :- FromCodePoint(NumberValue(s[2..6], 16));
      var rest :- Unescape(s[6..]);
      Ok([c] + rest)
    else if s[0] == '%' && |s| >= 3 && AllHex(s[1..3]) then
      NumberValueBound(s[1..3]);
      var rest :- Unescape(s[3..]);
      Ok([NumberValue(s[1..3], 16) as char] + rest)
    else
      var rest :- Unescape(s[1..]);
      Ok([s[0]] + rest)
  }

  /** Text without `%` is not changed by `unescape`. */
  lemma {:induction false} UnescapePlain(s: string)
    requires Free(s, '%')
    ensures Unescape(s) == Ok(s)
    decreases |s|
  {
    if s != [] {
      UnescapePlain(s[1..]);
      assert [s[0]] + s[1..] == s;
    }
  }

  /** `%XX` for a character below 256, with lower-case hex digits. */
  function PercentByte(c: char): string
    requires c as int < 256
  {
    ['%', DigitChar(c as int / 16), DigitChar(c as int % 16)]
  }

  predicate Latin1(s: string) {
    forall i :: 0 <= i < |s| ==> s[i] as int < 256
  }

  function PercentEncode(s: string): string
    requires Latin1(s)
  {
    if s == [] then [] else PercentByte(s[0]) + PercentEncode(s[1..])
  }

  /** `unescape` inverts writing every Latin-1 character as `%XX`. */
  lemma {:induction false} UnescapeRoundTrip(s: string)
    requires Latin1(s)
    ensures Unescape(PercentEncode(s)) == Ok(s)
    decreases |s|
  {
    if s != [] {
      UnescapeRoundTrip(s[1..]);
      var b := PercentByte(s[0]);
      var e := b + PercentEncode(s[1..]);
      assert e[..3] == b;
      assert e[1] != 'u';
      assert e[1..3] == b[1..3];
      assert NumberValue(b[1..3], 16) == s[0] as int by {
        assert b[1..3] == [b[1], b[2]];
        NumberValueTwo(b[1], b[2], 16);
      }
      assert e[3..] == PercentEncode(s[1..]);
      assert [s[0]] + s[1..] == s;
    }
  }
}
