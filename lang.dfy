/**
 * The Java-level vocabulary shared by the whole model: UTF-16 strings, the
 * fixed-width integer types and their casts, Java's `null` (as `Option`) and
 * Java exceptions (as `Result`), and `String.join`.
 */
module Lang {

  /** One UTF-16 code unit, the element type of a Java `String`. */
  type Char16 = c: int | 0 <= c < 0x1_0000

  /** A Java `String`: a sequence of UTF-16 code units (surrogates included). */
  type JString = seq<Char16>

  const INT_MIN: int := -0x8000_0000
  const INT_MAX: int := 0x7FFF_FFFF
  const LONG_MIN: int := -0x8000_0000_0000_0000
  const LONG_MAX: int := 0x7FFF_FFFF_FFFF_FFFF

  /** A Java `long`. */
  type Long = x: int | -0x8000_0000_0000_0000 <= x <= 0x7FFF_FFFF_FFFF_FFFF

  /** A string literal of the model as a Java string; every literal used is ASCII. */
  function Lit(s: string): (r: JString)
    ensures |r| == |s|
  {
    seq(|s|, i requires 0 <= i < |s| => if s[i] as int < 0x1_0000 then s[i] as int else 0xFFFD)
  }

  /** Literals concatenate as their conversions do. */
  lemma LitConcat(s: string, t: string)
    ensures Lit(s + t) == Lit(s) + Lit(t)
  {
  }

  /** Java's reference that may be `null`. */
  datatype Option<+T> = None | Some(value: T)

  /** The Java exceptions the modelled code can raise. */
  datatype JavaError =
    | NullPointer
    | IllegalArgument(message: JString)
    | StringIndexOutOfBounds
    | NegativeArraySize
    | Arithmetic
    | ClassCast
    | StackOverflow
    | Runtime(message: JString)

  /** A Java computation that returns a value or throws. */
  datatype Result<+T> = Ok(value: T) | Err(error: JavaError)

  /** The narrowing cast `(int) x` of a Java `long`: keeps the low 32 bits, two's complement. */
  function ToInt32(x: int): (r: int)
    ensures INT_MIN <= r <= INT_MAX
    ensures (r - x) % 0x1_0000_0000 == 0
    ensures INT_MIN <= x <= INT_MAX ==> r == x
  {
    (x + 0x8000_0000) % 0x1_0000_0000 - 0x8000_0000
  }

  /** Java's `/` on integers, which truncates toward zero. */
  function JavaDiv(a: int, b: int): (q: int)
    requires b != 0
    ensures a >= 0 && b > 0 ==> q == a / b
    ensures (a >= 0) == (b > 0) || a == 0 ==> q >= 0
    ensures (a >= 0) != (b > 0) ==> q <= 0
    ensures Abs(q) == Abs(a) / Abs(b)
  {
    var n := if a < 0 then -a else a;
    var m := if b < 0 then -b else b;
    if (a < 0) != (b < 0) then -(n / m) else n / m
  }

  /** The magnitude of an integer. */
  function Abs(x: int): nat
  {
    if x < 0 then -x else x
  }

  /** Java rounds a negative quotient toward zero: `-7 / 2` is `-3`, where Dafny's `/` gives `-4`. */
  lemma JavaDivTruncates()
    ensures JavaDiv(-7, 2) == -3 && JavaDiv(7, -2) == -3 && JavaDiv(-7, -2) == 3
    ensures -7 / 2 == -4
  {
  }

  /** `String.join(delimiter, elements)`: elements in order, delimiter between neighbours. */
  function Join(xs: seq<JString>, d: JString): JString
  {
    if |xs| == 0 then []
    else if |xs| == 1 then xs[0]
    else xs[0] + d + Join(xs[1..], d)
  }

  /** Where element `i` of `xs` starts in `Join(xs, d)`. */
  function Offset(xs: seq<JString>, d: JString, i: nat): nat
    requires i < |xs|
  {
    if i == 0 then 0 else |xs[0]| + |d| + Offset(xs[1..], d, i - 1)
  }

  /** Consecutive elements are one element and one delimiter apart. */
  lemma {:induction false} OffsetStep(xs: seq<JString>, d: JString, i: nat)
    requires i + 1 < |xs|
    ensures Offset(xs, d, i + 1) == Offset(xs, d, i) + |xs[i]| + |d|
  {
    if i > 0 {
      OffsetStep(xs[1..], d, i - 1);
    }
  }

  /** The last element ends the joined string: there is no trailing delimiter. */
  lemma {:induction false} JoinLength(xs: seq<JString>, d: JString)
    requires |xs| > 0
    ensures |Join(xs, d)| == Offset(xs, d, |xs| - 1) + |xs[|xs| - 1]|
  {
    if |xs| > 1 {
      var t := xs[1..];
      JoinLength(t, d);
      assert t[|t| - 1] == xs[|xs| - 1];
      assert Offset(xs, d, |xs| - 1) == |xs[0]| + |d| + Offset(t, d, |t| - 1);
      assert |Join(xs, d)| == |xs[0]| + |d| + |Join(t, d)|;
    }
  }

  /** Element `i` of `xs` appears in `Join(xs, d)` at `Offset(xs, d, i)`. */
  lemma {:induction false} JoinElement(xs: seq<JString>, d: JString, i: nat)
    requires i < |xs|
    ensures Offset(xs, d, i) + |xs[i]| <= |Join(xs, d)|
    ensures Join(xs, d)[Offset(xs, d, i)..Offset(xs, d, i) + |xs[i]|] == xs[i]
  {
    var j := Join(xs, d);
    if |xs| == 1 {
    } else if i == 0 {
      assert j == xs[0] + (d + Join(xs[1..], d));
    } else {
      JoinElement(xs[1..], d, i - 1);
      var k := |xs[0]| + |d|;
      assert j == (xs[0] + d) + Join(xs[1..], d);
      var o := Offset(xs[1..], d, i - 1);
      assert j[k + o..k + o + |xs[i]|] == Join(xs[1..], d)[o..o + |xs[i]|];
    }
  }

  /** Between element `i` and element `i + 1` stands exactly the delimiter. */
  lemma {:induction false} JoinDelimiter(xs: seq<JString>, d: JString, i: nat)
    requires i + 1 < |xs|
    ensures Offset(xs, d, i + 1) == Offset(xs, d, i) + |xs[i]| + |d|
    ensures Offset(xs, d, i + 1) <= |Join(xs, d)|
    ensures Join(xs, d)[Offset(xs, d, i) + |xs[i]|..Offset(xs, d, i + 1)] == d
  {
    var j := Join(xs, d);
    OffsetStep(xs, d, i);
    JoinElement(xs, d, i + 1);
    if i == 0 {
      assert j == xs[0] + d + Join(xs[1..], d);
      assert j[|xs[0]|..|xs[0]| + |d|] == d;
    } else {
      JoinDelimiter(xs[1..], d, i - 1);
      var k := |xs[0]| + |d|;
      assert j == (xs[0] + d) + Join(xs[1..], d);
      var a := Offset(xs[1..], d, i - 1) + |xs[i]|;
      var b := Offset(xs[1..], d, i);
      assert j[k + a..k + b] == Join(xs[1..], d)[a..b];
    }
  }

  /** Appending one element appends the delimiter and the element. */
  lemma {:induction false} JoinSnoc(xs: seq<JString>, x: JString, d: JString)
    ensures Join(xs + [x], d) == if xs == [] then x else Join(xs, d) + d + x
  {
    if |xs| > 1 {
      assert (xs + [x])[1..] == xs[1..] + [x];
      JoinSnoc(xs[1..], x, d);
    } else if |xs| == 1 {
      assert (xs + [x])[1..] == [x];
    }
  }

  /** The decimal digits of a natural number, most significant first. */
  function Digits(n: nat): (r: JString)
    ensures |r| >= 1
    ensures forall i :: 0 <= i < |r| ==> '0' as int <= r[i] <= '9' as int
  {
    if n < 10 then ['0' as int + n] else Digits(n / 10) + ['0' as int + n % 10]
  }

  /** `Long.toString(n)`. */
  function DecimalString(n: int): JString
  {
    if n < 0 then ['-' as int] + Digits(-n) else Digits(n)
  }

  /** Reads a sequence of decimal digits back as a number. */
  function ParseDigits(s: JString): nat
  {
    if s == [] then 0
    else ParseDigits(s[..|s| - 1]) * 10 + (if '0' as int <= s[|s| - 1] <= '9' as int then s[|s| - 1] - '0' as int else 0)
  }

  lemma {:induction false} ParseDigitsOfDigits(n: nat)
    ensures ParseDigits(Digits(n)) == n
  {
    var r := Digits(n);
    if n >= 10 {
      assert r[..|r| - 1] == Digits(n / 10);
      ParseDigitsOfDigits(n / 10);
    }
  }

  /** Reads the output of `Long.toString` back. */
  function ParseDecimal(s: JString): int
  {
    if s != [] && s[0] == '-' as int then 0 - (ParseDigits(s[1..]) as int) else ParseDigits(s)
  }

  /** `Long.toString` round-trips, so different numbers never print alike. */
  lemma DecimalRoundTrip(n: int)
    ensures ParseDecimal(DecimalString(n)) == n
  {
    if n < 0 {
      ParseNegative(-n);
    } else {
      ParseNonNegative(n);
    }
  }

  /** A minus sign and the digits of `m` read back as `-m`. */
  lemma ParseNegative(m: nat)
    ensures ParseDecimal(['-' as int] + Digits(m)) == -(m as int)
  {
    var s := ['-' as int] + Digits(m);
    assert s[0] == '-' as int && s[1..] == Digits(m);
    ParseDigitsOfDigits(m);
  }

  /** The digits of `m`, which never start with a minus sign, read back as `m`. */
  lemma ParseNonNegative(m: nat)
    ensures ParseDecimal(Digits(m)) == m
  {
    var s := Digits(m);
    assert '0' as int <= s[0] <= '9' as int;
    ParseDigitsOfDigits(m);
  }
}
