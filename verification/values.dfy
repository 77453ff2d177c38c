/** Failure-compatible wrappers used throughout the model. */
module Wrappers {

  datatype Option<+T> = None | Some(value: T)

  datatype Result<+T, +E> = Success(value: T) | Failure(error: E)
}

/**
  The untyped values a filter criterion carries and a record field holds,
  together with the three Java conversions the filter engine relies on:
  `Object.toString()`, `Integer.parseInt` and `String.toLowerCase()`.
 */
module Values {
  import opened Wrappers

  /** The exceptions the filter engine can raise, named after the Java ones. */
  datatype Error =
    | NullPointer                    // toString() on a null value or key
    | UnknownAttribute(key: string)  // Root.get on a name that is no attribute of the entity
    | NumberFormat(text: string)     // Integer.parseInt on text that is not a 32-bit decimal
    | NoSuchElement                  // Optional.orElseThrow on an empty reduction

  /** An untyped value: `null`, a boolean, an integer, a string or a collection. */
  datatype Value =
    | Null
    | BoolV(b: bool)
    | IntV(n: int)
    | StrV(s: string)
    | ListV(items: seq<Value>)

  /** An abstract record: attribute name to value. */
  type Record = map<string, Value>

  /** The value a record holds for an attribute; an absent attribute reads as null. */
  function Field(rec: Record, key: string): Value
  {
    if key in rec then rec[key] else Null
  }

  // ---------------------------------------------------------------- integers

  const IntMin: int := -0x8000_0000
  const IntMax: int := 0x7fff_ffff

  /** True iff `n` fits a Java `int`. */
  predicate IsInt32(n: int)
  {
    IntMin <= n <= IntMax
  }

  predicate IsDigit(c: char)
  {
    '0' <= c <= '9'
  }

  predicate AllDigits(s: string)
  {
    forall i :: 0 <= i < |s| ==> IsDigit(s[i])
  }

  function DigitChar(d: nat): (c: char)
    requires d < 10
    ensures IsDigit(c)
  {
    (('0' as int) + d) as char
  }

  function DigitOf(c: char): (d: nat)
    requires IsDigit(c)
    ensures d < 10
  {
    (c as int) - ('0' as int)
  }

  /** Decimal digits of a natural number, most significant first, no leading zeros. */
  function NatToText(n: nat): (s: string)
    ensures |s| > 0 && AllDigits(s)
    decreases n
  {
    if n < 10 then [DigitChar(n)] else NatToText(n / 10) + [DigitChar(n % 10)]
  }

  /** The number a string of decimal digits denotes. */
  function DigitsValue(s: string): nat
    requires AllDigits(s)
    decreases |s|
  {
    if |s| == 0 then 0 else DigitsValue(s[..|s| - 1]) * 10 + DigitOf(s[|s| - 1])
  }

  /** `Integer.toString`: an optional minus sign followed by the digits. */
  function IntToText(n: int): string
  {
    if n < 0 then "-" + NatToText(-n) else NatToText(n)
  }

  /**
    `Integer.parseInt`: an optional sign and at least one decimal digit,
    denoting a number in the range of a Java `int`; anything else raises
    NumberFormatException.
   */
  function ParseInt(s: string): (r: Result<int, Error>)
    ensures r.Success? ==> IsInt32(r.value)
    ensures r.Failure? ==> r.error == NumberFormat(s)
    ensures |s| == 0 || s == "-" || s == "+" ==> r.Failure?
    ensures r.Success? ==> DecimalText(s)
  {
    var signed := |s| > 0 && (s[0] == '-' || s[0] == '+');
    var digits := if signed then s[1..] else s;
    if |digits| == 0 || !AllDigits(digits) then
      Failure(NumberFormat(s))
    else
      var m: int := if signed && s[0] == '-' then 0 - (DigitsValue(digits) as int) else DigitsValue(digits);
      if IsInt32(m) then Success(m) else Failure(NumberFormat(s))
  }

  /** An optional sign followed by at least one ASCII digit. */
  predicate DecimalText(s: string)
  {
    if |s| > 0 && (s[0] == '-' || s[0] == '+') then |s| > 1 && AllDigits(s[1..])
    else |s| > 0 && AllDigits(s)
  }

  /**
    On a digit string `d`, unsigned or after `+` or `-`, `parseInt` gives the signed value of
    the digits when it fits an `int` and raises NumberFormatException otherwise.
   */
  lemma ParseIntOfDigits(d: string)
    requires |d| > 0 && AllDigits(d)
    ensures ParseInt(d) == if IsInt32(DigitsValue(d)) then Success(DigitsValue(d)) else Failure(NumberFormat(d))
    ensures ParseInt("+" + d) == if IsInt32(DigitsValue(d)) then Success(DigitsValue(d)) else Failure(NumberFormat("+" + d))
    ensures ParseInt("-" + d) == if IsInt32(0 - DigitsValue(d)) then Success(0 - DigitsValue(d)) else Failure(NumberFormat("-" + d))
  {
    ParseIntOfUnsigned(d);
    assert ("+" + d)[0] == '+' && ("+" + d)[1..] == d;
    ParseIntOfSigned("+" + d);
    assert ("-" + d)[0] == '-' && ("-" + d)[1..] == d;
    ParseIntOfSigned("-" + d);
  }

  /** An unsigned digit string parses to its decimal value when that fits an `int`. */
  lemma ParseIntOfUnsigned(s: string)
    requires |s| > 0 && AllDigits(s)
    ensures ParseInt(s) == if IsInt32(DigitsValue(s)) then Success(DigitsValue(s)) else Failure(NumberFormat(s))
  {
    assert IsDigit(s[0]);
  }

  /** A sign followed by digits parses to the signed decimal value when that fits an `int`. */
  lemma ParseIntOfSigned(s: string)
    requires |s| > 1 && (s[0] == '-' || s[0] == '+') && AllDigits(s[1..])
    ensures var m: int := if s[0] == '-' then 0 - (DigitsValue(s[1..]) as int) else DigitsValue(s[1..]);
            ParseInt(s) == if IsInt32(m) then Success(m) else Failure(NumberFormat(s))
  {
  }

  /** A leading plus sign and leading zeros are accepted; letters are not. */
  lemma ParseIntExamples()
    ensures ParseInt("+16") == Success(16)
    ensures ParseInt("016") == Success(16)
    ensures ParseInt("abc") == Failure(NumberFormat("abc"))
  {
    assert DigitsValue("16") == 16 by {
      assert "16"[..1] == "1" && "1"[..0] == "";
    }
    assert DigitsValue("016") == 16 by {
      assert "016"[..2] == "01" && "01"[..1] == "0" && "0"[..0] == "";
    }
    ParseIntOfDigits("16");
    ParseIntOfDigits("016");
    assert !IsDigit("abc"[0]);
  }

  lemma {:induction false} NatToTextRoundTrip(n: nat)
    ensures DigitsValue(NatToText(n)) == n
    decreases n
  {
    if n >= 10 {
      var s := NatToText(n);
      var prefix := NatToText(n / 10);
      assert s == prefix + [DigitChar(n % 10)];
      assert s[..|s| - 1] == prefix;
      NatToTextRoundTrip(n / 10);
    }
  }

  /** Parsing the text `Integer.toString` prints gives the integer back. */
  lemma ParseIntRoundTrip(n: int)
    requires IsInt32(n)
    ensures ParseInt(IntToText(n)) == Success(n)
  {
    if n < 0 {
      var s := IntToText(n);
      assert s[1..] == NatToText(-n);
      NatToTextRoundTrip(-n);
    } else {
      var s := NatToText(n);
      assert s[0] != '-' && s[0] != '+' by { assert IsDigit(s[0]); }
      NatToTextRoundTrip(n);
    }
  }

  /** The decimal text of a number beyond the `int` range does not parse, with or without a sign. */
  lemma ParseIntOverflow(n: nat)
    requires n > IntMax
    ensures ParseInt(NatToText(n)) == Failure(NumberFormat(NatToText(n)))
    ensures n > -IntMin ==> ParseInt("-" + NatToText(n)) == Failure(NumberFormat("-" + NatToText(n)))
  {
    NatToTextRoundTrip(n);
    ParseIntOfDigits(NatToText(n));
  }

  // ---------------------------------------------------------------- toString

  /** Elements joined with ", ", as `AbstractCollection.toString` prints them. */
  function JoinComma(parts: seq<string>): string
    decreases |parts|
  {
    if |parts| == 0 then ""
    else if |parts| == 1 then parts[0]
    else parts[0] + ", " + JoinComma(parts[1..])
  }

  /** `String.valueOf`: the text Java prints for a value, "null" for null. */
  function Show(v: Value): string
    decreases v
  {
    match v
    case Null => "null"
    case BoolV(b) => if b then "true" else "false"
    case IntV(n) => IntToText(n)
    case StrV(s) => s
    case ListV(items) =>
      "[" + JoinComma(seq(|items|, i requires 0 <= i < |items| => Show(items[i]))) + "]"
  }

  /** `value.toString()`: the printed text, or NullPointerException for null. */
  function ToText(v: Value): (r: Result<string, Error>)
    ensures r.Failure? <==> v == Null
    ensures r.Failure? ==> r.error == NullPointer
    ensures v.StrV? ==> r == Success(v.s)
  {
    if v == Null then Failure(NullPointer) else Success(Show(v))
  }

  // ---------------------------------------------------------------- case

  /** Lower-case mapping of one character (ASCII letters only). */
  function LowerChar(c: char): char
  {
    if 'A' <= c <= 'Z' then ((c as int) + 32) as char else c
  }

  /** `toLowerCase()` / SQL `LOWER`, restricted to the ASCII letters. */
  function Lower(s: string): (r: string)
    ensures |r| == |s|
    ensures forall i :: 0 <= i < |s| ==> r[i] == LowerChar(s[i])
  {
    seq(|s|, i requires 0 <= i < |s| => LowerChar(s[i]))
  }
}
