/**
  The handful of Python built-ins the door-lock program leans on, stated
  over Dafny sequences: `int(s, 2)`, `hex(v)`, `str.upper()` (ASCII only)
  and `str.split(sep)` for a one-character separator, together with the
  reference notions (`Join`, `HexValue`) their contracts are stated against.
 */
module PyBuiltins {

  /** A character that `int(s, 2)` reads as a binary digit. */
  type BitChar = c: char | c == '0' || c == '1' witness '0'

  /** The value of a binary numeral, most significant digit first, as `int(s, 2)`. */
  function BinValue(bits: seq<BitChar>): nat
  {
    if |bits| == 0 then 0
    else 2 * BinValue(bits[..|bits| - 1]) + (if bits[|bits| - 1] == '1' then 1 else 0)
  }

  function Pow16(n: nat): (p: nat)
    ensures p >= 1
  {
    if n == 0 then 1 else 16 * Pow16(n - 1)
  }

  // ---------------------------------------------------------------------------
  // hex() and str.upper()
  // ---------------------------------------------------------------------------

  /** The lower-case digit `hex()` prints for a value below 16. */
  function LowerDigit(d: nat): char
    requires d < 16
  {
    if d < 10 then (48 + d) as char else (87 + d) as char
  }

  /** The digits `hex(v)` prints after its "0x": lower case, no leading zero, "0" for zero. */
  function LowerHexDigits(v: nat): string
    decreases v
  {
    if v < 16 then [LowerDigit(v)] else LowerHexDigits(v / 16) + [LowerDigit(v % 16)]
  }

  /** Python's `hex(v)` for a non-negative `v`. */
  function Hex(v: nat): string
  {
    "0x" + LowerHexDigits(v)
  }

  /** `str.upper()` on one ASCII character. */
  function UpperChar(c: char): char
  {
    if 'a' <= c <= 'z' then (c as int - 32) as char else c
  }

  /** `str.upper()`, character by character (ASCII letters only). */
  function Upper(s: string): string
  {
    seq(|s|, i requires 0 <= i < |s| => UpperChar(s[i]))
  }

  lemma UpperConcat(a: string, b: string)
    ensures Upper(a + b) == Upper(a) + Upper(b)
  {
  }

  // ---------------------------------------------------------------------------
  // Reference reading of an upper-case hexadecimal string
  // ---------------------------------------------------------------------------

  predicate IsUpperHexDigit(c: char)
  {
    '0' <= c <= '9' || 'A' <= c <= 'F'
  }

  predicate AllUpperHex(s: string)
  {
    forall i :: 0 <= i < |s| ==> IsUpperHexDigit(s[i])
  }

  function DigitValue(c: char): nat
    requires IsUpperHexDigit(c)
  {
    if c <= '9' then c as int - 48 else c as int - 55
  }

  /** The number an upper-case hexadecimal string denotes ("" denotes 0). */
  function HexValue(s: string): nat
    requires AllUpperHex(s)
  {
    if |s| == 0 then 0 else 16 * HexValue(s[..|s| - 1]) + DigitValue(s[|s| - 1])
  }

  lemma UpperLowerDigit(d: nat)
    requires d < 16
    ensures IsUpperHexDigit(UpperChar(LowerDigit(d)))
    ensures DigitValue(UpperChar(LowerDigit(d))) == d
  {
  }

  /** A hexadecimal string of n digits denotes less than 16^n. */
  lemma {:induction false} HexValueBound(s: string)
    requires AllUpperHex(s)
    ensures HexValue(s) < Pow16(|s|)
  {
    if |s| > 0 {
      HexValueBound(s[..|s| - 1]);
    }
  }

  /** Peeling off the leading digit: its weight is 16 to the number of digits after it. */
  lemma {:induction false} HexValueLeading(s: string)
    requires |s| >= 1 && AllUpperHex(s)
    ensures HexValue(s) == DigitValue(s[0]) * Pow16(|s| - 1) + HexValue(s[1..])
  {
    if |s| > 1 {
      var p := s[..|s| - 1];
      var t := s[1..];
      HexValueLeading(p);
      assert t[..|t| - 1] == p[1..];
      assert t[|t| - 1] == s[|s| - 1];
      LeadingWeight(HexValue(s), HexValue(p), HexValue(t), HexValue(p[1..]),
        DigitValue(s[0]), Pow16(|p| - 1), DigitValue(s[|s| - 1]));
    }
  }

  lemma LeadingWeight(hs: int, hp: int, ht: int, hpt: int, d: int, w: int, last: int)
    requires hs == 16 * hp + last && hp == d * w + hpt && ht == 16 * hpt + last
    ensures hs == d * (16 * w) + ht
  {
  }

  /**
    `hex(v).upper()` without its prefix is the shortest upper-case
    hexadecimal numeral for v: it denotes v, it has exactly as many digits
    as v needs, and it is a single digit exactly when v is below 16.
   */
  lemma {:induction false} UpperHexDigits(v: nat)
    ensures var u := Upper(LowerHexDigits(v));
      && |u| >= 1
      && AllUpperHex(u)
      && HexValue(u) == v
      && v < Pow16(|u|)
      && (|u| == 1 <==> v < 16)
      && (|u| > 1 ==> Pow16(|u| - 1) <= v)
    decreases v
  {
    if v < 16 {
      UpperLowerDigit(v);
      assert Upper(LowerHexDigits(v)) == [UpperChar(LowerDigit(v))];
    } else {
      UpperHexDigits(v / 16);
      var a := Upper(LowerHexDigits(v / 16));
      var c := UpperChar(LowerDigit(v % 16));
      UpperConcat(LowerHexDigits(v / 16), [LowerDigit(v % 16)]);
      UpperLowerDigit(v % 16);
      var u := Upper(LowerHexDigits(v));
      assert u == a + [c];
      assert u[..|u| - 1] == a;
      assert HexValue(u) == 16 * HexValue(a) + DigitValue(c);
      assert Pow16(|u|) == 16 * Pow16(|a|);
      if |a| > 1 {
        assert Pow16(|u| - 1) == 16 * Pow16(|a| - 1);
      }
    }
  }

  /** Euclidean division has one remainder: if v = q*m + r with 0 <= r < m, v % m is r. */
  lemma ModOfDecomposition(v: nat, q: nat, m: nat, r: nat)
    requires m >= 1 && r < m && v == q * m + r
    ensures v % m == r
  {
    var q' := v / m;
    assert v == q' * m + v % m;
    if q' < q {
      MulDistributes(q, q', m);
      MulAtLeast(q - q', m);
      assert false;
    } else if q' > q {
      MulDistributes(q', q, m);
      MulAtLeast(q' - q, m);
      assert false;
    }
  }

  lemma MulDistributes(a: int, b: int, m: int)
    ensures a * m - b * m == (a - b) * m
  {
  }

  lemma {:induction false} MulAtLeast(k: nat, m: nat)
    requires k >= 1
    ensures k * m >= m
  {
    if k > 1 {
      MulAtLeast(k - 1, m);
      assert k * m == (k - 1) * m + m;
    }
  }

  // ---------------------------------------------------------------------------
  // str.split(sep) and its inverse sep.join(parts)
  // ---------------------------------------------------------------------------

  /** `sep.join(parts)` for a non-empty list. */
  function Join(parts: seq<string>, sep: char): string
    requires |parts| >= 1
    decreases |parts|
  {
    if |parts| == 1 then parts[0] else parts[0] + [sep] + Join(parts[1..], sep)
  }

  predicate NoSeparator(parts: seq<string>, sep: char)
  {
    forall i :: 0 <= i < |parts| ==> sep !in parts[i]
  }

  /**
    `s.split(sep)`: every maximal run between separators, empty ones
    included, so "" gives [""] and a trailing separator gives a final "".
    The pieces hold no separator and joining them back gives s.
   */
  function Split(s: string, sep: char): (parts: seq<string>)
    ensures |parts| >= 1
    ensures NoSeparator(parts, sep)
    ensures Join(parts, sep) == s
    decreases |s|
  {
    if |s| == 0 then [""]
    else
      var rest := Split(s[1..], sep);
      if s[0] == sep then
        assert ([""] + rest)[1..] == rest;
        [""] + rest
      else
        var parts := [[s[0]] + rest[0]] + rest[1..];
        assert parts[1..] == rest[1..];
        assert s == [s[0]] + s[1..];
        parts
  }

  lemma {:induction false} SplitPiece(p: string, t: string, sep: char)
    requires sep !in p
    ensures Split(p + t, sep) == [p + Split(t, sep)[0]] + Split(t, sep)[1..]
    decreases |p|
  {
    if |p| > 0 {
      var tail := Split(t, sep);
      SplitPiece(p[1..], t, sep);
      assert (p + t)[0] == p[0] && p[0] != sep;
      assert (p + t)[1..] == p[1..] + t;
      var rest := Split(p[1..] + t, sep);
      assert rest == [p[1..] + tail[0]] + tail[1..];
      assert Split(p + t, sep) == [[p[0]] + rest[0]] + rest[1..];
      assert [p[0]] + (p[1..] + tail[0]) == p + tail[0];
    } else {
      var rest := Split(t, sep);
      assert p + t == t;
      assert p + rest[0] == rest[0];
      assert rest == [rest[0]] + rest[1..];
    }
  }

  /** Splitting undoes joining pieces that hold no separator. */
  lemma {:induction false} SplitJoin(parts: seq<string>, sep: char)
    requires |parts| >= 1 && NoSeparator(parts, sep)
    ensures Split(Join(parts, sep), sep) == parts
    decreases |parts|
  {
    if |parts| == 1 {
      SplitPiece(parts[0], "", sep);
      assert parts[0] + "" == parts[0];
      assert Split("", sep) == [""];
      assert parts == [parts[0]];
    } else {
      var tail := parts[1..];
      SplitJoin(tail, sep);
      var j := Join(tail, sep);
      assert parts[0] + [sep] + j == parts[0] + ([sep] + j);
      SplitPiece(parts[0], [sep] + j, sep);
      assert ([sep] + j)[1..] == j;
      assert Split([sep] + j, sep) == [""] + tail;
      assert ([""] + tail)[1..] == tail;
      assert parts[0] + "" == parts[0];
      assert parts == [parts[0]] + tail;
    }
  }

  lemma JoinAppendEmpty(parts: seq<string>, sep: char)
    requires |parts| >= 1
    ensures Join(parts + [""], sep) == Join(parts, sep) + [sep]
    decreases |parts|
  {
    if |parts| > 1 {
      JoinAppendEmpty(parts[1..], sep);
      assert (parts + [""])[1..] == parts[1..] + [""];
    }
  }

  /** A trailing separator contributes exactly one final empty piece. */
  lemma {:induction false} SplitTrailingSeparator(s: string, sep: char)
    ensures Split(s + [sep], sep) == Split(s, sep) + [""]
  {
    var parts := Split(s, sep);
    JoinAppendEmpty(parts, sep);
    SplitJoin(parts + [""], sep);
  }

  /** A text ending in the separator splits into pieces that include "". */
  lemma TrailingSeparatorGivesEmptyPiece(text: string, sep: char)
    requires |text| > 0 && text[|text| - 1] == sep
    ensures "" in Split(text, sep)
  {
    var head := text[..|text| - 1];
    assert text == head + [sep];
    SplitTrailingSeparator(head, sep);
    var lines := Split(head, sep) + [""];
    assert lines[|lines| - 1] == "";
  }

  // ---------------------------------------------------------------------------
  // Reading a file in text mode
  // ---------------------------------------------------------------------------

  /**
    What `open(name, 'r').read()` returns for a file holding `raw`: with
    universal newlines every "\r\n" and every lone "\r" reads as "\n".
    The result holds no "\r", and text without "\r" reads back unchanged.
   */
  function TextModeRead(raw: string): (text: string)
    ensures '\r' !in text
    ensures '\r' !in raw ==> text == raw
    ensures |raw| > 0 && raw[|raw| - 1] == '\n' ==> |text| > 0 && text[|text| - 1] == '\n'
    decreases |raw|
  {
    if |raw| == 0 then ""
    else if raw[0] == '\r' then
      if |raw| >= 2 && raw[1] == '\n' then "\n" + TextModeRead(raw[2..])
      else "\n" + TextModeRead(raw[1..])
    else
      assert '\r' !in raw ==> '\r' !in raw[1..];
      [raw[0]] + TextModeRead(raw[1..])
  }

  /** A prefix without "\r" passes through the text-mode read unchanged. */
  lemma {:induction false} TextModeReadPlain(p: string, t: string)
    requires '\r' !in p
    ensures TextModeRead(p + t) == p + TextModeRead(t)
    decreases |p|
  {
    if |p| > 0 {
      var r := p + t;
      assert r[0] == p[0] && r[0] != '\r';
      assert r[1..] == p[1..] + t;
      assert TextModeRead(r) == [r[0]] + TextModeRead(r[1..]);
      TextModeReadPlain(p[1..], t);
      assert [p[0]] + (p[1..] + TextModeRead(t)) == p + TextModeRead(t);
    } else {
      assert p + t == t;
    }
  }

  /**
    The translation itself: the first "\r\n" of the file is read as one
    "\n", and reading carries on after it.
   */
  lemma TextModeReadCrlf(p: string, t: string)
    requires '\r' !in p
    ensures TextModeRead(p + "\r\n" + t) == p + "\n" + TextModeRead(t)
  {
    var r := "\r\n" + t;
    assert p + "\r\n" + t == p + r;
    TextModeReadPlain(p, r);
    assert r[0] == '\r' && r[1] == '\n' && r[2..] == t;
  }

  /**
    A "\r" not followed by "\n" is read as one "\n" as well, and reading
    carries on with the character after it.
   */
  lemma TextModeReadLoneCr(p: string, t: string)
    requires '\r' !in p
    requires |t| == 0 || t[0] != '\n'
    ensures TextModeRead(p + "\r" + t) == p + "\n" + TextModeRead(t)
  {
    var r := "\r" + t;
    assert p + "\r" + t == p + r;
    var rest := TextModeRead(t);
    TextModeReadPlain(p, r);
    LoneCrReadsAsNewline(t);
    assert p + ("\n" + rest) == p + "\n" + rest;
  }

  lemma LoneCrReadsAsNewline(t: string)
    requires |t| == 0 || t[0] != '\n'
    ensures TextModeRead("\r" + t) == "\n" + TextModeRead(t)
  {
    var r := "\r" + t;
    assert r[0] == '\r';
    assert !(|r| >= 2 && r[1] == '\n');
    assert r[1..] == t;
  }

  /** A character missing from a joined text is missing from every piece. */
  lemma {:induction false} JoinedPieceInText(parts: seq<string>, sep: char, i: nat, c: char)
    requires |parts| >= 1 && i < |parts| && c !in Join(parts, sep)
    ensures c !in parts[i]
    decreases |parts|
  {
    if |parts| > 1 {
      assert Join(parts, sep) == parts[0] + ([sep] + Join(parts[1..], sep));
      if i > 0 {
        JoinedPieceInText(parts[1..], sep, i - 1, c);
      }
    }
  }
}
