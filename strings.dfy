/**
 * The text functions of `apoc.text`: null guards, `join`, padding, code units
 * and their hexadecimal form. Levenshtein matching and `toCypher` have modules
 * of their own.
 */
module Strings {
  import opened Lang

  // ---------------------------------------------------------------------------
  // Null guards around the regular-expression functions

  /**
   * `regreplace` (and `replace`, which calls it): `null` when any argument is
   * `null`, otherwise `String.replaceAll`, which is given as `replaceAll`.
   */
  function RegReplace(text: Option<JString>, regex: Option<JString>, replacement: Option<JString>,
                      replaceAll: (JString, JString, JString) -> JString): (r: Option<JString>)
    ensures r.None? <==> text.None? || regex.None? || replacement.None?
    ensures r.Some? ==> r.value == replaceAll(text.value, regex.value, replacement.value)
  {
    if text.None? || regex.None? || replacement.None? then None
    else Some(replaceAll(text.value, regex.value, replacement.value))
  }

  /**
   * `split`: `null` when any argument is `null`, otherwise `String.split` with the
   * limit narrowed by `Long.intValue`; `splitter` stands for `String.split`.
   */
  function Split(text: Option<JString>, regex: Option<JString>, limit: Option<Long>,
                 splitter: (JString, JString, int) -> seq<JString>): (r: Option<seq<JString>>)
    ensures r.None? <==> text.None? || regex.None? || limit.None?
    ensures r.Some? ==> r.value == splitter(text.value, regex.value, ToInt32(limit.value))
  {
    if text.None? || regex.None? || limit.None? then None
    else Some(splitter(text.value, regex.value, ToInt32(limit.value)))
  }

  // ---------------------------------------------------------------------------
  // join

  /** How `String.join` renders one element: a `null` element prints as "null". */
  function Render(t: Option<JString>): JString
  {
    if t.Some? then t.value else Lit("null")
  }

  function RenderAll(texts: seq<Option<JString>>): (r: seq<JString>)
    ensures |r| == |texts|
    ensures forall i :: 0 <= i < |texts| ==> r[i] == Render(texts[i])
  {
    seq(|texts|, i requires 0 <= i < |texts| => Render(texts[i]))
  }

  /** `apoc.text.join(texts, delimiter)`. */
  function JoinTexts(texts: Option<seq<Option<JString>>>, delimiter: Option<JString>): (r: Option<JString>)
    ensures r.None? <==> texts.None? || delimiter.None?
  {
    if texts.None? || delimiter.None? then None
    else Some(Join(RenderAll(texts.value), delimiter.value))
  }

  /**
   * The joined text is element 0, the delimiter, element 1, ..., the last element:
   * every element appears in order at its offset, exactly the delimiter stands
   * between neighbours, and nothing comes before the first or after the last.
   */
  lemma JoinTextsLayout(texts: seq<Option<JString>>, delimiter: JString, i: nat)
    requires i < |texts|
    ensures var r := JoinTexts(Some(texts), Some(delimiter)).value;
            var xs := RenderAll(texts);
            var o := Offset(xs, delimiter, i);
            && o + |Render(texts[i])| <= |r|
            && r[o..o + |Render(texts[i])|] == Render(texts[i])
            && (i == 0 ==> o == 0)
            && (i + 1 < |texts| ==> Offset(xs, delimiter, i + 1) == o + |Render(texts[i])| + |delimiter| &&
                                    Offset(xs, delimiter, i + 1) <= |r| &&
                                    r[o + |Render(texts[i])|..Offset(xs, delimiter, i + 1)] == delimiter)
            && (i + 1 == |texts| ==> o + |Render(texts[i])| == |r|)
  {
    var xs := RenderAll(texts);
    JoinElement(xs, delimiter, i);
    if i + 1 < |texts| {
      JoinDelimiter(xs, delimiter, i);
    } else {
      JoinLength(xs, delimiter);
    }
  }

  /** The test case of the source: `join(["Hello", null], " ")` is "Hello null". */
  lemma JoinWithNullElement()
    ensures JoinTexts(Some([Some(Lit("Hello")), None]), Some(Lit(" "))) == Some(Lit("Hello null"))
  {
    var xs := RenderAll([Some(Lit("Hello")), None]);
    assert xs == [Lit("Hello"), Lit("null")];
    assert Join(xs, Lit(" ")) == Lit("Hello") + Lit(" ") + Join(xs[1..], Lit(" "));
    assert Lit("Hello") + Lit(" ") + Lit("null") == Lit("Hello null");
  }

  // ---------------------------------------------------------------------------
  // lpad and rpad

  /** `Arrays.fill(new char[n], c)`. */
  method FilledChars(n: nat, c: Char16) returns (chars: array<Char16>)
    ensures fresh(chars)
    ensures chars.Length == n
    ensures forall i :: 0 <= i < n ==> chars[i] == c
  {
    chars := new Char16[n];
    var i := 0;
    while i < n
      invariant 0 <= i <= n
      invariant forall j :: 0 <= j < i ==> chars[j] == c
    {
      chars[i] := c;
      i := i + 1;
    }
  }

  /**
   * `apoc.text.lpad(text, count, delim)`. The `long` count is narrowed by `(int)`;
   * a negative capacity or array size throws `NegativeArraySizeException`, and an
   * empty `delim` throws on `charAt(0)` once padding is needed.
   */
  method LPad(text: JString, count: Long, delim: JString) returns (r: Result<JString>)
    requires |text| <= INT_MAX
    ensures |text| >= count ==> r == Ok(text)
    ensures |text| < count && ToInt32(count) < |text| ==> r == Err(NegativeArraySize)
    ensures |text| < count && |text| <= ToInt32(count) && delim == [] ==> r == Err(StringIndexOutOfBounds)
    ensures |text| < count && |text| <= ToInt32(count) && delim != [] ==>
      && r.Ok?
      && |r.value| == ToInt32(count)
      && r.value[ToInt32(count) - |text|..] == text
      && forall i :: 0 <= i < ToInt32(count) - |text| ==> r.value[i] == delim[0]
  {
    var len := |text|;
    if len >= count {
      return Ok(text);
    }
    var capacity := ToInt32(count);
    if capacity < 0 || capacity - len < 0 {
      return Err(NegativeArraySize);
    }
    if |delim| == 0 {
      return Err(StringIndexOutOfBounds);
    }
    var chars := FilledChars(capacity - len, delim[0]);
    var sb: JString := [];
    sb := sb + chars[..];
    sb := sb + text;
    return Ok(sb);
  }

  /**
   * `apoc.text.rpad(text, count, delim)`. The array size `(int)count - len` is
   * computed in 32-bit arithmetic and may wrap.
   */
  method RPad(text: JString, count: Long, delim: JString) returns (r: Result<JString>)
    requires |text| <= INT_MAX
    ensures |text| >= count ==> r == Ok(text)
    ensures |text| < count && ToInt32(ToInt32(count) - |text|) < 0 ==> r == Err(NegativeArraySize)
    ensures |text| < count && ToInt32(ToInt32(count) - |text|) >= 0 && delim == [] ==> r == Err(StringIndexOutOfBounds)
    ensures |text| < count && ToInt32(ToInt32(count) - |text|) >= 0 && delim != [] ==>
      && r.Ok?
      && |r.value| == |text| + ToInt32(ToInt32(count) - |text|)
      && r.value[..|text|] == text
      && forall i :: |text| <= i < |r.value| ==> r.value[i] == delim[0]
  {
    var len := |text|;
    if len >= count {
      return Ok(text);
    }
    var size := ToInt32(ToInt32(count) - len);
    if size < 0 {
      return Err(NegativeArraySize);
    }
    if |delim| == 0 {
      return Err(StringIndexOutOfBounds);
    }
    var sb: JString := text;
    var chars := FilledChars(size, delim[0]);
    sb := sb + chars[..];
    return Ok(sb);
  }

  /** For every count a Java `int` can hold, `lpad` pads to exactly `count` characters. */
  method LPadToWidth(text: JString, count: Long, delim: JString) returns (r: Result<JString>)
    requires |text| <= INT_MAX && count <= INT_MAX && delim != []
    ensures r.Ok?
    ensures |r.value| == if |text| >= count then |text| else count
    ensures r.value[|r.value| - |text|..] == text
    ensures forall i :: 0 <= i < |r.value| - |text| ==> r.value[i] == delim[0]
  {
    r := LPad(text, count, delim);
  }

  /** For every count a Java `int` can hold, `rpad` pads to exactly `count` characters. */
  method RPadToWidth(text: JString, count: Long, delim: JString) returns (r: Result<JString>)
    requires |text| <= INT_MAX && count <= INT_MAX && delim != []
    ensures r.Ok?
    ensures |r.value| == if |text| >= count then |text| else count
    ensures r.value[..|text|] == text
    ensures forall i :: |text| <= i < |r.value| ==> r.value[i] == delim[0]
  {
    r := RPad(text, count, delim);
  }

  // ---------------------------------------------------------------------------
  // Code units

  /** `apoc.text.charAt(text, index)`: the code unit at `index`, or `null`. */
  function CharAt(text: Option<JString>, index: Option<Long>): (r: Option<Long>)
    ensures r.None? <==> index.None? || text.None? || |text.value| == 0 || index.value < 0 || index.value >= |text.value|
    ensures r.Some? ==> r.value == text.value[index.value]
  {
    if index.None? || text.None? || |text.value| == 0 || index.value < 0 || index.value >= |text.value| then None
    else Some(text.value[index.value])
  }

  /** `apoc.text.code(codepoint)`: the one-character string of a code unit, or `null`. */
  function Code(codepoint: Option<Long>): (r: Option<JString>)
    ensures r.None? <==> codepoint.None? || codepoint.value < 0 || codepoint.value > 0xFFFF
    ensures r.Some? ==> |r.value| == 1 && CharAt(r, Some(0)) == Some(codepoint.value)
  {
    if codepoint.None? || codepoint.value < 0 || codepoint.value > 0xFFFF then None
    else Some([codepoint.value])
  }

  // ---------------------------------------------------------------------------
  // Hexadecimal

  function HexDigit(d: nat): (c: Char16)
    requires d < 16
  {
    if d < 10 then '0' as int + d else 'A' as int + d - 10
  }

  /** An upper-case hexadecimal digit. */
  predicate IsHexDigit(c: Char16)
  {
    '0' as int <= c <= '9' as int || 'A' as int <= c <= 'F' as int
  }

  function HexDigitValue(c: Char16): nat
  {
    if '0' as int <= c <= '9' as int then c - '0' as int
    else if 'A' as int <= c <= 'F' as int then c - 'A' as int + 10
    else 0
  }

  /** The hexadecimal digits of `n`, most significant first, no leading zero. */
  function HexDigits(n: nat): (r: JString)
    ensures |r| >= 1
    ensures forall i :: 0 <= i < |r| ==> IsHexDigit(r[i])
  {
    if n < 16 then [HexDigit(n)] else HexDigits(n / 16) + [HexDigit(n % 16)]
  }

  function Zeros(n: nat): (r: JString)
    ensures |r| == n
    ensures forall i :: 0 <= i < n ==> r[i] == '0' as int
  {
    seq(n, _ => '0' as int)
  }

  /** `String.format("%0<width>X", n)` for a non-negative `n`: at least `width` digits. */
  function PadHex(n: nat, width: nat): (r: JString)
  {
    var ds := HexDigits(n);
    if |ds| >= width then ds else Zeros(width - |ds|) + ds
  }

  /** Reads hexadecimal digits back as a number. */
  function ParseHex(s: JString): nat
  {
    if s == [] then 0 else ParseHex(s[..|s| - 1]) * 16 + HexDigitValue(s[|s| - 1])
  }

  function Pow16(k: nat): (r: nat)
    ensures r >= 1
  {
    if k == 0 then 1 else 16 * Pow16(k - 1)
  }

  lemma Pow16Values()
    ensures Pow16(4) == 0x1_0000
    ensures Pow16(8) == 0x1_0000_0000
    ensures Pow16(16) == 0x1_0000_0000_0000_0000
  {
    assert Pow16(2) == 0x100;
    assert Pow16(4) == 0x1_0000;
    assert Pow16(6) == 0x100_0000;
    assert Pow16(8) == 0x1_0000_0000;
    assert Pow16(10) == 0x100_0000_0000;
    assert Pow16(12) == 0x1_0000_0000_0000;
    assert Pow16(14) == 0x100_0000_0000_0000;
  }

  lemma {:induction false} ParseHexDigits(n: nat)
    ensures ParseHex(HexDigits(n)) == n
  {
    if n >= 16 {
      var r := HexDigits(n);
      assert r[..|r| - 1] == HexDigits(n / 16);
      ParseHexDigits(n / 16);
    }
  }

  /** A number below `16^w` has at most `w` hexadecimal digits. */
  lemma {:induction false} HexDigitsLength(n: nat, w: nat)
    requires 1 <= w && n < Pow16(w)
    ensures |HexDigits(n)| <= w
  {
    if n >= 16 {
      assert n / 16 < Pow16(w - 1);
      HexDigitsLength(n / 16, w - 1);
    }
  }

  /** Leading zeros do not change the value. */
  lemma {:induction false} ParseHexZeros(k: nat, s: JString)
    ensures ParseHex(Zeros(k) + s) == ParseHex(s)
    decreases |s|, k
  {
    if s == [] {
      assert Zeros(k) + s == Zeros(k);
      if k > 0 {
        assert Zeros(k)[..k - 1] == Zeros(k - 1);
        ParseHexZeros(k - 1, []);
        assert Zeros(k - 1) + [] == Zeros(k - 1);
      }
    } else {
      var t := Zeros(k) + s;
      assert t[..|t| - 1] == Zeros(k) + s[..|s| - 1];
      ParseHexZeros(k, s[..|s| - 1]);
    }
  }

  /** The padded form has exactly `width` digits when `n` fits, and reads back as `n`. */
  lemma PadHexSpec(n: nat, width: nat)
    requires 1 <= width && n < Pow16(width)
    ensures |PadHex(n, width)| == width
    ensures forall i :: 0 <= i < width ==> IsHexDigit(PadHex(n, width)[i])
    ensures ParseHex(PadHex(n, width)) == n
  {
    HexDigitsLength(n, width);
    ParseHexDigits(n);
    var ds := HexDigits(n);
    if |ds| < width {
      ParseHexZeros(width - |ds|, ds);
    }
  }

  /**
   * `apoc.text.hexValue(value)`: 16 digits above 0xFFFFFFFF, otherwise the value
   * narrowed to an `int` and printed as an unsigned 32-bit number with at least 8
   * (above 0xFFFF) or 4 digits.
   */
  function HexValue(value: Option<Long>): (r: Option<JString>)
    ensures r.None? <==> value.None?
  {
    if value.None? then None
    else if value.value > 0xFFFF_FFFF then Some(PadHex(value.value, 16))
    else if value.value > 0xFFFF then Some(PadHex(value.value % 0x1_0000_0000, 8))
    else Some(PadHex(value.value % 0x1_0000_0000, 4))
  }

  /** A non-negative value prints as 4, 8 or 16 upper-case digits that read back as the value. */
  lemma HexValueOfNonNegative(v: Long)
    requires v >= 0
    ensures var r := HexValue(Some(v)).value;
            && |r| == (if v <= 0xFFFF then 4 else if v <= 0xFFFF_FFFF then 8 else 16)
            && (forall i :: 0 <= i < |r| ==> IsHexDigit(r[i]))
            && ParseHex(r) == v
  {
    Pow16Values();
    if v <= 0xFFFF {
      assert v % 0x1_0000_0000 == v;
      assert HexValue(Some(v)) == Some(PadHex(v, 4));
      PadHexSpec(v, 4);
    } else if v <= 0xFFFF_FFFF {
      assert v % 0x1_0000_0000 == v;
      assert HexValue(Some(v)) == Some(PadHex(v, 8));
      PadHexSpec(v, 8);
    } else {
      assert HexValue(Some(v)) == Some(PadHex(v, 16));
      PadHexSpec(v, 16);
    }
  }

  /** A negative value prints as its low 32 bits, unsigned, with 4 to 8 digits. */
  lemma HexValueOfNegative(v: Long)
    requires v < 0
    ensures var r := HexValue(Some(v)).value;
            && 4 <= |r| <= 8
            && ParseHex(r) == v % 0x1_0000_0000
  {
    var u := v % 0x1_0000_0000;
    Pow16Values();
    HexDigitsLength(u, 8);
    ParseHexDigits(u);
    var ds := HexDigits(u);
    if |ds| < 4 {
      ParseHexZeros(4 - |ds|, ds);
    }
  }

  /** `apoc.text.hexCharAt(text, index)`. */
  function HexCharAt(text: Option<JString>, index: Option<Long>): (r: Option<JString>)
    ensures r.None? <==> CharAt(text, index).None?
    ensures r.Some? ==> |r.value| == 4
  {
    if CharAt(text, index).Some? then
      HexValueOfNonNegative(CharAt(text, index).value);
      HexValue(CharAt(text, index))
    else None
  }

  /** `hexCharAt` is `null` exactly when `charAt` is, and otherwise 4 digits that read back as the code unit. */
  lemma HexCharAtSpec(text: Option<JString>, index: Option<Long>)
    ensures HexCharAt(text, index).None? <==> CharAt(text, index).None?
    ensures CharAt(text, index).Some? ==>
      |HexCharAt(text, index).value| == 4 && ParseHex(HexCharAt(text, index).value) == CharAt(text, index).value
  {
    if CharAt(text, index).Some? {
      HexValueOfNonNegative(CharAt(text, index).value);
    }
  }
}
