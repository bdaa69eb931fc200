/**
 * Digit tables and text conversions for the supported radices (binary,
 * octal, decimal, hexadecimal and base 64), and the conversions between a
 * native unsigned integer of a given bit width and its digits.
 *
 * A character is modelled by its code; the tables are indexed by codes
 * 0..255, laid out in sixteen rows of sixteen codes as in the source.
 */
module RadixCodec {
  import opened Arith

  datatype Radix = Base2 | Base8 | Base10 | Base16 | Base64
  {
    function Value(): nat
    {
      match this
      case Base2 => 2
      case Base8 => 8
      case Base10 => 10
      case Base16 => 16
      case Base64 => 64
    }
  }

  // ---------------------------------------------------------------------
  // Parsing one character

  function BinaryTable(): seq<seq<nat>>
  {
    [
      [0, 0, 0, 0, 0, 0, 0, 0, 0, 0, 0, 0, 0, 0, 0, 0],
      [0, 0, 0, 0, 0, 0, 0, 0, 0, 0, 0, 0, 0, 0, 0, 0],
      [0, 0, 0, 0, 0, 0, 0, 0, 0, 0, 0, 0, 0, 0, 0, 0],
      [0, 1, 0, 0, 0, 0, 0, 0, 0, 0, 0, 0, 0, 0, 0, 0],
      [0, 0, 0, 0, 0, 0, 0, 0, 0, 0, 0, 0, 0, 0, 0, 0],
      [0, 0, 0, 0, 0, 0, 0, 0, 0, 0, 0, 0, 0, 0, 0, 0],
      [0, 0, 0, 0, 0, 0, 0, 0, 0, 0, 0, 0, 0, 0, 0, 0],
      [0, 0, 0, 0, 0, 0, 0, 0, 0, 0, 0, 0, 0, 0, 0, 0],
      [0, 0, 0, 0, 0, 0, 0, 0, 0, 0, 0, 0, 0, 0, 0, 0],
      [0, 0, 0, 0, 0, 0, 0, 0, 0, 0, 0, 0, 0, 0, 0, 0],
      [0, 0, 0, 0, 0, 0, 0, 0, 0, 0, 0, 0, 0, 0, 0, 0],
      [0, 0, 0, 0, 0, 0, 0, 0, 0, 0, 0, 0, 0, 0, 0, 0],
      [0, 0, 0, 0, 0, 0, 0, 0, 0, 0, 0, 0, 0, 0, 0, 0],
      [0, 0, 0, 0, 0, 0, 0, 0, 0, 0, 0, 0, 0, 0, 0, 0],
      [0, 0, 0, 0, 0, 0, 0, 0, 0, 0, 0, 0, 0, 0, 0, 0],
      [0, 0, 0, 0, 0, 0, 0, 0, 0, 0, 0, 0, 0, 0, 0, 0]
    ]
  }

  function OctalTable(): seq<seq<nat>>
  {
    [
      [0, 0, 0, 0, 0, 0, 0, 0, 0, 0, 0, 0, 0, 0, 0, 0],
      [0, 0, 0, 0, 0, 0, 0, 0, 0, 0, 0, 0, 0, 0, 0, 0],
      [0, 0, 0, 0, 0, 0, 0, 0, 0, 0, 0, 0, 0, 0, 0, 0],
      [0, 1, 2, 3, 4, 5, 6, 7, 0, 0, 0, 0, 0, 0, 0, 0],
      [0, 0, 0, 0, 0, 0, 0, 0, 0, 0, 0, 0, 0, 0, 0, 0],
      [0, 0, 0, 0, 0, 0, 0, 0, 0, 0, 0, 0, 0, 0, 0, 0],
      [0, 0, 0, 0, 0, 0, 0, 0, 0, 0, 0, 0, 0, 0, 0, 0],
      [0, 0, 0, 0, 0, 0, 0, 0, 0, 0, 0, 0, 0, 0, 0, 0],
      [0, 0, 0, 0, 0, 0, 0, 0, 0, 0, 0, 0, 0, 0, 0, 0],
      [0, 0, 0, 0, 0, 0, 0, 0, 0, 0, 0, 0, 0, 0, 0, 0],
      [0, 0, 0, 0, 0, 0, 0, 0, 0, 0, 0, 0, 0, 0, 0, 0],
      [0, 0, 0, 0, 0, 0, 0, 0, 0, 0, 0, 0, 0, 0, 0, 0],
      [0, 0, 0, 0, 0, 0, 0, 0, 0, 0, 0, 0, 0, 0, 0, 0],
      [0, 0, 0, 0, 0, 0, 0, 0, 0, 0, 0, 0, 0, 0, 0, 0],
      [0, 0, 0, 0, 0, 0, 0, 0, 0, 0, 0, 0, 0, 0, 0, 0],
      [0, 0, 0, 0, 0, 0, 0, 0, 0, 0, 0, 0, 0, 0, 0, 0]
    ]
  }

  function DecimalTable(): seq<seq<nat>>
  {
    [
      [0, 0, 0, 0, 0, 0, 0, 0, 0, 0, 0, 0, 0, 0, 0, 0],
      [0, 0, 0, 0, 0, 0, 0, 0, 0, 0, 0, 0, 0, 0, 0, 0],
      [0, 0, 0, 0, 0, 0, 0, 0, 0, 0, 0, 0, 0, 0, 0, 0],
      [0, 1, 2, 3, 4, 5, 6, 7, 8, 9, 0, 0, 0, 0, 0, 0],
      [0, 0, 0, 0, 0, 0, 0, 0, 0, 0, 0, 0, 0, 0, 0, 0],
      [0, 0, 0, 0, 0, 0, 0, 0, 0, 0, 0, 0, 0, 0, 0, 0],
      [0, 0, 0, 0, 0, 0, 0, 0, 0, 0, 0, 0, 0, 0, 0, 0],
      [0, 0, 0, 0, 0, 0, 0, 0, 0, 0, 0, 0, 0, 0, 0, 0],
      [0, 0, 0, 0, 0, 0, 0, 0, 0, 0, 0, 0, 0, 0, 0, 0],
      [0, 0, 0, 0, 0, 0, 0, 0, 0, 0, 0, 0, 0, 0, 0, 0],
      [0, 0, 0, 0, 0, 0, 0, 0, 0, 0, 0, 0, 0, 0, 0, 0],
      [0, 0, 0, 0, 0, 0, 0, 0, 0, 0, 0, 0, 0, 0, 0, 0],
      [0, 0, 0, 0, 0, 0, 0, 0, 0, 0, 0, 0, 0, 0, 0, 0],
      [0, 0, 0, 0, 0, 0, 0, 0, 0, 0, 0, 0, 0, 0, 0, 0],
      [0, 0, 0, 0, 0, 0, 0, 0, 0, 0, 0, 0, 0, 0, 0, 0],
      [0, 0, 0, 0, 0, 0, 0, 0, 0, 0, 0, 0, 0, 0, 0, 0]
    ]
  }

  function HexTable(): seq<seq<nat>>
  {
    [
      [0, 0, 0, 0, 0, 0, 0, 0, 0, 0, 0, 0, 0, 0, 0, 0],
      [0, 0, 0, 0, 0, 0, 0, 0, 0, 0, 0, 0, 0, 0, 0, 0],
      [0, 0, 0, 0, 0, 0, 0, 0, 0, 0, 0, 0, 0, 0, 0, 0],
      [0, 1, 2, 3, 4, 5, 6, 7, 8, 9, 0, 0, 0, 0, 0, 0],
      [0, 10, 11, 12, 13, 14, 15, 0, 0, 0, 0, 0, 0, 0, 0, 0],
      [0, 0, 0, 0, 0, 0, 0, 0, 0, 0, 0, 0, 0, 0, 0, 0],
      [0, 10, 11, 12, 13, 14, 15, 0, 0, 0, 0, 0, 0, 0, 0, 0],
      [0, 0, 0, 0, 0, 0, 0, 0, 0, 0, 0, 0, 0, 0, 0, 0],
      [0, 0, 0, 0, 0, 0, 0, 0, 0, 0, 0, 0, 0, 0, 0, 0],
      [0, 0, 0, 0, 0, 0, 0, 0, 0, 0, 0, 0, 0, 0, 0, 0],
      [0, 0, 0, 0, 0, 0, 0, 0, 0, 0, 0, 0, 0, 0, 0, 0],
      [0, 0, 0, 0, 0, 0, 0, 0, 0, 0, 0, 0, 0, 0, 0, 0],
      [0, 0, 0, 0, 0, 0, 0, 0, 0, 0, 0, 0, 0, 0, 0, 0],
      [0, 0, 0, 0, 0, 0, 0, 0, 0, 0, 0, 0, 0, 0, 0, 0],
      [0, 0, 0, 0, 0, 0, 0, 0, 0, 0, 0, 0, 0, 0, 0, 0],
      [0, 0, 0, 0, 0, 0, 0, 0, 0, 0, 0, 0, 0, 0, 0, 0]
    ]
  }

  function Base64Table(): seq<seq<nat>>
  {
    [
      [0, 0, 0, 0, 0, 0, 0, 0, 0, 0, 0, 0, 0, 0, 0, 0],
      [0, 0, 0, 0, 0, 0, 0, 0, 0, 0, 0, 0, 0, 0, 0, 0],
      [0, 0, 0, 0, 0, 0, 0, 0, 0, 0, 0, 62, 0, 0, 0, 63],
      [52, 53, 54, 55, 56, 57, 58, 59, 60, 61, 0, 0, 0, 0, 0, 0],
      [0, 0, 1, 2, 3, 4, 5, 6, 7, 8, 9, 10, 11, 12, 13, 14],
      [15, 16, 17, 18, 19, 20, 21, 22, 23, 24, 25, 26, 0, 0, 0, 0],
      [0, 26, 27, 28, 29, 30, 31, 32, 33, 34, 35, 36, 37, 38, 39, 40],
      [41, 42, 43, 44, 45, 46, 47, 48, 49, 50, 51, 0, 0, 0, 0, 0],
      [0, 0, 0, 0, 0, 0, 0, 0, 0, 0, 0, 0, 0, 0, 0, 0],
      [0, 0, 0, 0, 0, 0, 0, 0, 0, 0, 0, 0, 0, 0, 0, 0],
      [0, 0, 0, 0, 0, 0, 0, 0, 0, 0, 0, 0, 0, 0, 0, 0],
      [0, 0, 0, 0, 0, 0, 0, 0, 0, 0, 0, 0, 0, 0, 0, 0],
      [0, 0, 0, 0, 0, 0, 0, 0, 0, 0, 0, 0, 0, 0, 0, 0],
      [0, 0, 0, 0, 0, 0, 0, 0, 0, 0, 0, 0, 0, 0, 0, 0],
      [0, 0, 0, 0, 0, 0, 0, 0, 0, 0, 0, 0, 0, 0, 0, 0],
      [0, 0, 0, 0, 0, 0, 0, 0, 0, 0, 0, 0, 0, 0, 0, 0]
    ]
  }

  /** The table entry for character code c, in row c / 16 and column c % 16. */
  function Entry(table: seq<seq<nat>>, c: char): nat
    requires c as int < 256
    requires |table| == 16 && forall i :: 0 <= i < 16 ==> |table[i]| == 16
  {
    table[c as int / 16][c as int % 16]
  }

  function ParseBinaryDigit(c: char): (d: nat)
    requires c as int < 256
    ensures d < 2
  {
    Entry(BinaryTable(), c)
  }

  function ParseOctalDigit(c: char): (d: nat)
    requires c as int < 256
    ensures d < 8
  {
    Entry(OctalTable(), c)
  }

  function ParseDecimalDigit(c: char): (d: nat)
    requires c as int < 256
    ensures d < 10
  {
    Entry(DecimalTable(), c)
  }

  function ParseHexDigit(c: char): (d: nat)
    requires c as int < 256
    ensures d < 16
  {
    Entry(HexTable(), c)
  }

  function ParseBase64Digit(c: char): (d: nat)
    requires c as int < 256
    ensures d < 64
  {
    Entry(Base64Table(), c)
  }

  /** The digit a character denotes in radix r; always a digit of r. */
  function ParseDigit(r: Radix, c: char): (d: nat)
    requires c as int < 256
    ensures d < r.Value()
  {
    match r
    case Base2 => ParseBinaryDigit(c)
    case Base8 => ParseOctalDigit(c)
    case Base10 => ParseDecimalDigit(c)
    case Base16 => ParseHexDigit(c)
    case Base64 => ParseBase64Digit(c)
  }

  /**
   * What the tables are meant to hold, described by character ranges:
   * the usual digits, both cases of the hexadecimal letters, the RFC 4648
   * base-64 alphabet, and 0 for every other character -- except that the
   * base-64 table also maps '[' (code 91) to 26, the value of 'a'.
   */
  function DigitValue(r: Radix, c: char): nat
  {
    match r
    case Base2 => if '0' <= c <= '1' then c as int - '0' as int else 0
    case Base8 => if '0' <= c <= '7' then c as int - '0' as int else 0
    case Base10 => if '0' <= c <= '9' then c as int - '0' as int else 0
    case Base16 =>
      if '0' <= c <= '9' then c as int - '0' as int
      else if 'A' <= c <= 'F' then c as int - 'A' as int + 10
      else if 'a' <= c <= 'f' then c as int - 'a' as int + 10
      else 0
    case Base64 =>
      if 'A' <= c <= 'Z' then c as int - 'A' as int
      else if 'a' <= c <= 'z' then c as int - 'a' as int + 26
      else if '0' <= c <= '9' then c as int - '0' as int + 52
      else if c == '+' then 62
      else if c == '/' then 63
      else if c == '[' then 26
      else 0
  }

  /** Every entry of every parse table agrees with the range description. */
  lemma ParseDigitIsDigitValue(r: Radix, c: char)
    requires c as int < 256
    ensures ParseDigit(r, c) == DigitValue(r, c)
  {
    match r
    case Base2 => BinaryTableValues(c);
    case Base8 => OctalTableValues(c);
    case Base10 => DecimalTableValues(c);
    case Base16 => HexTableValues(c);
    case Base64 =>
      if c as int < 64 {
        Base64TableLow(c);
      } else if c as int < 128 {
        Base64TableMiddle(c);
      } else {
        Base64TableHigh(c);
      }
  }

  lemma BinaryTableValues(c: char)
    requires c as int < 256
    ensures ParseBinaryDigit(c) == DigitValue(Base2, c)
  {
  }

  lemma OctalTableValues(c: char)
    requires c as int < 256
    ensures ParseOctalDigit(c) == DigitValue(Base8, c)
  {
  }

  lemma DecimalTableValues(c: char)
    requires c as int < 256
    ensures ParseDecimalDigit(c) == DigitValue(Base10, c)
  {
  }

  lemma HexTableValues(c: char)
    requires c as int < 256
    ensures ParseHexDigit(c) == DigitValue(Base16, c)
  {
    if c as int < 128 {
      HexTableLow(c);
    } else {
      HexTableHigh(c);
    }
  }

  lemma HexTableLow(c: char)
    requires c as int < 128
    ensures ParseHexDigit(c) == DigitValue(Base16, c)
  {
    if c as int < 64 {
      HexTableDigits(c);
    } else {
      HexTableLetters(c);
    }
  }

  lemma HexTableDigits(c: char)
    requires c as int < 64
    ensures ParseHexDigit(c) == DigitValue(Base16, c)
  {
  }

  lemma HexTableLetters(c: char)
    requires 64 <= c as int < 128
    ensures ParseHexDigit(c) == DigitValue(Base16, c)
  {
  }

  lemma HexTableHigh(c: char)
    requires 128 <= c as int < 256
    ensures ParseHexDigit(c) == DigitValue(Base16, c)
  {
  }

  lemma Base64TableLow(c: char)
    requires c as int < 64
    ensures ParseBase64Digit(c) == DigitValue(Base64, c)
  {
  }

  lemma Base64TableMiddle(c: char)
    requires 64 <= c as int < 128
    ensures ParseBase64Digit(c) == DigitValue(Base64, c)
  {
    if c as int < 96 {
      Base64TableUpper(c);
    } else {
      Base64TableLower(c);
    }
  }

  lemma Base64TableUpper(c: char)
    requires 64 <= c as int < 96
    ensures ParseBase64Digit(c) == DigitValue(Base64, c)
  {
  }

  lemma Base64TableLower(c: char)
    requires 96 <= c as int < 128
    ensures ParseBase64Digit(c) == DigitValue(Base64, c)
  {
  }

  lemma Base64TableHigh(c: char)
    requires 128 <= c as int < 256
    ensures ParseBase64Digit(c) == DigitValue(Base64, c)
  {
  }

  // ---------------------------------------------------------------------
  // Composing one character

  /** The digit characters of radix r, digit 0 first; upper case for 16. */
  function Alphabet(r: Radix): (s: string)
    ensures |s| == r.Value()
  {
    match r
    case Base2 => "01"
    case Base8 => "01234567"
    case Base10 => "0123456789"
    case Base16 => "0123456789ABCDEF"
    case Base64 =>
      "ABCDEFGHIJKLMNOP"
      + "QRSTUVWXYZabcdef"
      + "ghijklmnopqrstuv"
      + "wxyz0123456789+/"
  }

  /** There is no composition table for base 2. */
  predicate HasComposeTable(r: Radix)
  {
    r != Base2
  }

  /** The character for digit d; an ASCII character. */
  function ComposeDigit(r: Radix, d: nat): (c: char)
    requires HasComposeTable(r) && d < r.Value()
    ensures c as int < 128
  {
    AlphabetValues(r, d);
    Alphabet(r)[d]
  }

  /** Each alphabet character is ASCII and its range value is its position. */
  lemma AlphabetValues(r: Radix, d: nat)
    requires d < r.Value()
    ensures Alphabet(r)[d] as int < 128 && DigitValue(r, Alphabet(r)[d]) == d
  {
    if r == Base64 {
      if d < 16 {
        Base64AlphabetQuarter0(d);
      } else if d < 32 {
        Base64AlphabetQuarter1(d);
      } else if d < 48 {
        Base64AlphabetQuarter2(d);
      } else {
        Base64AlphabetQuarter3(d);
      }
    }
  }

  lemma Base64AlphabetQuarter0(d: nat)
    requires d < 16
    ensures Alphabet(Base64)[d] as int < 128 && DigitValue(Base64, Alphabet(Base64)[d]) == d
  {
  }

  lemma Base64AlphabetQuarter1(d: nat)
    requires 16 <= d < 32
    ensures Alphabet(Base64)[d] as int < 128 && DigitValue(Base64, Alphabet(Base64)[d]) == d
  {
  }

  lemma Base64AlphabetQuarter2(d: nat)
    requires 32 <= d < 48
    ensures Alphabet(Base64)[d] as int < 128 && DigitValue(Base64, Alphabet(Base64)[d]) == d
  {
  }

  lemma Base64AlphabetQuarter3(d: nat)
    requires 48 <= d < 64
    ensures Alphabet(Base64)[d] as int < 128 && DigitValue(Base64, Alphabet(Base64)[d]) == d
  {
  }

  /** Parsing the character composed for a digit gives the digit back. */
  lemma ParseComposeDigit(r: Radix, d: nat)
    requires HasComposeTable(r) && d < r.Value()
    ensures ParseDigit(r, ComposeDigit(r, d)) == d
  {
    AlphabetValues(r, d);
    ParseDigitIsDigitValue(r, ComposeDigit(r, d));
  }

  /** Composing the digit parsed from an alphabet character gives it back. */
  lemma ComposeParseDigit(r: Radix, c: char)
    requires HasComposeTable(r) && c as int < 256 && c in Alphabet(r)
    ensures ComposeDigit(r, ParseDigit(r, c)) == c
  {
    var i :| 0 <= i < |Alphabet(r)| && Alphabet(r)[i] == c;
    ParseComposeDigit(r, i);
  }

  /** Lower-case hexadecimal letters parse like their upper-case forms. */
  lemma HexIgnoresCase(c: char)
    requires 'a' <= c <= 'f'
    ensures ParseDigit(Base16, c) == ParseDigit(Base16, (c as int - 32) as char)
  {
    ParseDigitIsDigitValue(Base16, c);
    ParseDigitIsDigitValue(Base16, (c as int - 32) as char);
  }

  // ---------------------------------------------------------------------
  // Whole texts

  predicate IsByteText(text: seq<char>)
  {
    forall i :: 0 <= i < |text| ==> text[i] as int < 256
  }

  predicate IsDigits(ds: seq<nat>, radix: nat)
  {
    forall i :: 0 <= i < |ds| ==> ds[i] < radix
  }

  /** The digits of a text, character by character. */
  function ParsedText(r: Radix, text: seq<char>): (ds: seq<nat>)
    requires IsByteText(text)
    ensures |ds| == |text| && IsDigits(ds, r.Value())
  {
    seq(|text|, i requires 0 <= i < |text| => ParseDigit(r, text[i]))
  }

  /** The text of some digits, digit by digit. */
  function ComposedText(r: Radix, ds: seq<nat>): (text: seq<char>)
    requires HasComposeTable(r) && IsDigits(ds, r.Value())
    ensures |text| == |ds| && IsByteText(text)
  {
    seq(|ds|, i requires 0 <= i < |ds| => ComposeDigit(r, ds[i]))
  }

  /** Composing and then parsing a digit sequence gives it back. */
  lemma ParseComposedText(r: Radix, ds: seq<nat>)
    requires HasComposeTable(r) && IsDigits(ds, r.Value())
    ensures ParsedText(r, ComposedText(r, ds)) == ds
  {
    var back := ParsedText(r, ComposedText(r, ds));
    forall i | 0 <= i < |ds|
      ensures back[i] == ds[i]
    {
      ParseComposeDigit(r, ds[i]);
    }
  }

  /**
   * Parses a NUL-terminated character array of length |text|: the result
   * has one digit for each character before the final one.
   */
  method ParseDigits(r: Radix, text: seq<char>) returns (digits: seq<nat>)
    requires 1 <= |text| && IsByteText(text[..|text| - 1])
    ensures digits == ParsedText(r, text[..|text| - 1])
  {
    var n := |text| - 1;
    var a := new nat[n];
    for i := 0 to n
      invariant forall k :: 0 <= k < i ==> a[k] == ParseDigit(r, text[k])
    {
      a[i] := ParseDigit(r, text[i]);
    }
    digits := a[..];
  }

  /** Composes one character per digit; the text has the digits' length. */
  method ComposeDigits(r: Radix, digits: seq<nat>) returns (text: seq<char>)
    requires HasComposeTable(r) && IsDigits(digits, r.Value())
    ensures text == ComposedText(r, digits)
  {
    var a := new char[|digits|];
    for i := 0 to |digits|
      invariant forall k :: 0 <= k < i ==> a[k] == ComposeDigit(r, digits[k])
    {
      a[i] := ComposeDigit(r, digits[i]);
    }
    text := a[..];
  }

  // ---------------------------------------------------------------------
  // Native integers and their digits

  /** The value of the digits ds in the given radix, most significant first. */
  function Horner(ds: seq<nat>, radix: nat): nat
  {
    if |ds| == 0 then 0 else Horner(ds[..|ds| - 1], radix) * radix + ds[|ds| - 1]
  }

  /** The digits of v, least significant first, without leading zeros. */
  function DigitsOf(v: nat, radix: nat): (ds: seq<nat>)
    requires 2 <= radix
    ensures IsDigits(ds, radix)
    ensures v == 0 <==> |ds| == 0
    ensures |ds| > 0 ==> ds[|ds| - 1] != 0
    decreases v
  {
    if v == 0 then [] else DivShrinks(v, radix); [v % radix] + DigitsOf(v / radix, radix)
  }

  function Reverse(s: seq<nat>): (r: seq<nat>)
    ensures |r| == |s|
  {
    seq(|s|, i requires 0 <= i < |s| => s[|s| - 1 - i])
  }

  lemma ReversePrepend(d: nat, s: seq<nat>)
    ensures Reverse([d] + s) == Reverse(s) + [d]
  {
  }

  lemma HornerAppend(front: seq<nat>, d: nat, radix: nat)
    ensures Horner(front + [d], radix) == Horner(front, radix) * radix + d
  {
    assert (front + [d])[..|front|] == front;
  }

  lemma HornerStep(front: seq<nat>, d: nat, q: nat, v: nat, radix: nat)
    requires Horner(front, radix) == q && v == q * radix + d
    ensures Horner(front + [d], radix) == v
  {
    HornerAppend(front, d, radix);
  }

  /** The digits of v, read most significant first, denote v. */
  lemma {:induction false} HornerOfDigits(v: nat, radix: nat)
    requires 2 <= radix
    ensures Horner(Reverse(DigitsOf(v, radix)), radix) == v
    decreases v
  {
    if v > 0 {
      DivShrinks(v, radix);
      var q, d := v / radix, v % radix;
      var tail := DigitsOf(q, radix);
      assert DigitsOf(v, radix) == [d] + tail;
      ReversePrepend(d, tail);
      HornerOfDigits(q, radix);
      DivMod(v, radix);
      HornerStep(Reverse(tail), d, q, v, radix);
    }
  }

  lemma ReverseAppend(s: seq<nat>, d: nat)
    ensures Reverse(s + [d]) == [d] + Reverse(s)
  {
  }

  /** A digit sequence without leading zero is the digit sequence of its value. */
  lemma {:induction false} DigitsOfHorner(ds: seq<nat>, radix: nat)
    requires 2 <= radix && IsDigits(ds, radix)
    requires |ds| > 0 ==> ds[0] != 0
    ensures DigitsOf(Horner(ds, radix), radix) == Reverse(ds)
    decreases |ds|
  {
    if |ds| > 0 {
      var n := |ds|;
      var front, d := ds[..n - 1], ds[n - 1];
      assert ds == front + [d];
      var h := Horner(front, radix);
      DigitsOfHorner(front, radix);
      var v := h * radix + d;
      HornerAppend(front, d, radix);
      ModUnique(v, h, d, radix);
      if n > 1 {
        HornerPositive(front, radix);
        MulLe(1, h, radix);
      }
      assert v != 0;
      ReverseAppend(front, d);
    }
  }

  lemma {:induction false} HornerPositive(ds: seq<nat>, radix: nat)
    requires 1 <= radix && |ds| > 0 && ds[0] != 0
    ensures 1 <= Horner(ds, radix)
    decreases |ds|
  {
    if |ds| > 1 {
      HornerPositive(ds[..|ds| - 1], radix);
      MulLe(1, Horner(ds[..|ds| - 1], radix), radix);
    }
  }

  /** The digits x followed by y: x is shifted up by |y| places. */
  lemma {:induction false} HornerConcat(x: seq<nat>, y: seq<nat>, radix: nat)
    ensures Horner(x + y, radix) == Horner(x, radix) * Pow(radix, |y|) + Horner(y, radix)
    decreases |y|
  {
    if |y| == 0 {
      assert x + y == x;
    } else {
      var n := |y|;
      var front, d := y[..n - 1], y[n - 1];
      assert x + y == (x + front) + [d];
      assert y == front + [d];
      HornerAppend(x + front, d, radix);
      HornerAppend(front, d, radix);
      HornerConcat(x, front, radix);
      var hx, hf, p := Horner(x, radix), Horner(front, radix), Pow(radix, n - 1);
      assert (hx * p + hf) * radix + d == hx * (p * radix) + (hf * radix + d) by {
        MulDistributes(hx * p, hf, radix);
        MulAssociates(hx, p, radix);
      }
      PowStep(radix, n);
    }
  }

  /** k digits of the radix denote a value below radix^k. */
  lemma {:induction false} HornerBound(ds: seq<nat>, radix: nat)
    requires IsDigits(ds, radix)
    ensures Horner(ds, radix) < Pow(radix, |ds|)
    decreases |ds|
  {
    if |ds| > 0 {
      var n := |ds|;
      var front := ds[..n - 1];
      assert IsDigits(front, radix) by {
        forall i | 0 <= i < |front| ensures front[i] < radix {
          assert front[i] == ds[i];
        }
      }
      HornerBound(front, radix);
      var h := Horner(front, radix);
      MulLe(h + 1, Pow(radix, n - 1), radix);
      MulDistributes(h, 1, radix);
      PowStep(radix, n);
    }
  }

  /** A value below radix^k has at most k digits. */
  lemma {:induction false} DigitsOfLength(v: nat, radix: nat, k: nat)
    requires 2 <= radix && v < Pow(radix, k)
    ensures |DigitsOf(v, radix)| <= k
    decreases v
  {
    if v > 0 {
      DivShrinks(v, radix);
      assert k > 0;
      var p := Pow(radix, k - 1);
      if p <= v / radix {
        ScaleBracket(radix, v, p, v / radix + 1);
      }
      DigitsOfLength(v / radix, radix, k - 1);
    }
  }

  /**
   * The number of digits a buffer for a bits-wide integer holds: bits for
   * base 2, 1 + bits / 3, 1 + bits / 4 and 1 + bits / 6 for bases 8, 16
   * and 64, and 1 + floor(bits * log10 2) for base 10. The count n is
   * enough for every bits-wide value (2^bits <= r^n) and wastes at most one
   * digit (r^(n-1) <= 2^bits).
   */
  function RequiredDigits(r: Radix, bits: nat): (n: nat)
    ensures Pow(2, bits) <= Pow(r.Value(), n)
    ensures 1 <= n ==> Pow(r.Value(), n - 1) <= Pow(2, bits)
  {
    match r
    case Base2 => BinaryDigits(bits); bits
    case Base8 => OctalDigits(bits); 1 + bits / 3
    case Base10 => DecimalDigits(bits); 1 + FloorLog(10, Pow(2, bits))
    case Base16 => HexDigits(bits); 1 + bits / 4
    case Base64 => Base64Digits(bits); 1 + bits / 6
  }

  /** Base 2: the lower buffer bound for bits digits, 2^(bits-1) <= 2^bits. */
  lemma BinaryDigits(bits: nat)
    ensures 1 <= bits ==> Pow(2, bits - 1) <= Pow(2, bits)
  {
    if 1 <= bits {
      PowMonotone(2, bits - 1, bits);
    }
  }

  /** Base 8: the buffer bounds for 1 + bits / 3 digits. */
  lemma OctalDigits(bits: nat)
    ensures Pow(2, bits) <= Pow(8, 1 + bits / 3) && Pow(8, bits / 3) <= Pow(2, bits)
  {
    SmallPowers();
    PowerOfTwoRadixAbove(3, 8, bits);
    PowerOfTwoRadixBelow(3, 8, bits);
  }

  /** Base 10: the buffer bounds for 1 + floor(log10(2^bits)) digits. */
  lemma DecimalDigits(bits: nat)
    ensures Pow(2, bits) < Pow(10, 1 + FloorLog(10, Pow(2, bits)))
    ensures Pow(10, FloorLog(10, Pow(2, bits))) <= Pow(2, bits)
  {
    FloorLogBounds(10, Pow(2, bits));
  }

  /** Base 16: the buffer bounds for 1 + bits / 4 digits. */
  lemma HexDigits(bits: nat)
    ensures Pow(2, bits) <= Pow(16, 1 + bits / 4) && Pow(16, bits / 4) <= Pow(2, bits)
  {
    SmallPowers();
    PowerOfTwoRadixAbove(4, 16, bits);
    PowerOfTwoRadixBelow(4, 16, bits);
  }

  /** Base 64: the buffer bounds for 1 + bits / 6 digits. */
  lemma Base64Digits(bits: nat)
    ensures Pow(2, bits) <= Pow(64, 1 + bits / 6) && Pow(64, bits / 6) <= Pow(2, bits)
  {
    SmallPowers();
    PowerOfTwoRadixAbove(6, 64, bits);
    PowerOfTwoRadixBelow(6, 64, bits);
  }

  /** For a radix 2^s the estimate 1 + bits / s is enough: 2^bits <= radix^(1 + bits / s). */
  lemma PowerOfTwoRadixAbove(s: nat, radix: nat, bits: nat)
    requires 1 <= s && radix == Pow(2, s)
    ensures Pow(2, bits) <= Pow(radix, 1 + bits / s)
  {
    var q := bits / s;
    var k := s * q;
    assert bits <= s + k by {
      DivBracket(bits, s);
    }
    assert Pow(2, s + k) == Pow(radix, 1 + q) by {
      PowMul(2, s, q);
      PowAdd(2, s, k);
    }
    PowMonotone(2, bits, s + k);
  }

  /** ... and wastes at most one digit: radix^(bits / s) <= 2^bits. */
  lemma PowerOfTwoRadixBelow(s: nat, radix: nat, bits: nat)
    requires 1 <= s && radix == Pow(2, s)
    ensures Pow(radix, bits / s) <= Pow(2, bits)
  {
    var q := bits / s;
    DivBracket(bits, s);
    PowMul(2, s, q);
    PowMonotone(2, s * q, bits);
  }

  /** Every bits-wide value's digits fit in the buffer. */
  lemma DigitsFit(r: Radix, v: nat, bits: nat)
    requires v < Pow(2, bits)
    ensures |DigitsOf(v, r.Value())| <= RequiredDigits(r, bits)
  {
    DigitsOfLength(v, r.Value(), RequiredDigits(r, bits));
  }

  /** Reducing modulo m after every step gives the value modulo m. */
  lemma HornerModStep(front: seq<nat>, d: nat, radix: nat, m: nat)
    requires 0 < m
    ensures (Horner(front, radix) % m * radix + d) % m == Horner(front + [d], radix) % m
  {
    var h := Horner(front, radix);
    HornerAppend(front, d, radix);
    ModMulMod(h, radix, m);
    ModAddMod(h * radix, d, m);
    ModAddMod((h % m) * radix, d, m);
  }

  /**
   * Native from_digits: the running value is multiplied by the radix and
   * the next digit added, in a bits-wide unsigned integer, so the result
   * is the value of the digits modulo 2^bits. It uses no table, so the
   * radix is any number, not only one with a Radix.
   */
  method FromDigits(radix: nat, digits: seq<nat>, bits: nat) returns (value: nat)
    ensures value == Horner(digits, radix) % Pow(2, bits)
  {
    var m := Pow(2, bits);
    PowPositive(2, bits);
    value := 0;
    for i := 0 to |digits|
      invariant value == Horner(digits[..i], radix) % m
    {
      HornerModStep(digits[..i], digits[i], radix, m);
      assert digits[..i + 1] == digits[..i] + [digits[i]];
      value := (value * radix + digits[i]) % m;
    }
    assert digits[..|digits|] == digits;
  }

  /** One step of peeling the least significant digit off a suffix. */
  lemma DigitsSuffixStep(ds: seq<nat>, i: nat, n: nat, radix: nat)
    requires 2 <= radix && 0 < n && i <= |ds| && ds[i..] == DigitsOf(n, radix)
    ensures i < |ds| && ds[i] == n % radix && ds[i + 1..] == DigitsOf(n / radix, radix)
    ensures n / radix < n
  {
    DivShrinks(n, radix);
    assert ds[i + 1..] == ds[i..][1..];
  }

  /**
   * A to_digits buffer of the given size after its first i digits are
   * written: the characters of ds[..i], then NUL characters.
   */
  function PartialText(r: Radix, ds: seq<nat>, i: nat, size: nat): (text: seq<char>)
    requires HasComposeTable(r) && IsDigits(ds, r.Value()) && i <= |ds|
    ensures |text| == size
  {
    seq(size, k requires 0 <= k < size => if k < i then ComposeDigit(r, ds[k]) else 0 as char)
  }

  lemma PartialTextStep(r: Radix, ds: seq<nat>, i: nat, size: nat)
    requires HasComposeTable(r) && IsDigits(ds, r.Value()) && i < |ds| && i < size
    ensures PartialText(r, ds, i, size)[i := ComposeDigit(r, ds[i])] == PartialText(r, ds, i + 1, size)
  {
  }

  /**
   * Native to_digits into a buffer of size characters: the characters of
   * v's digits, least significant first, followed by NUL characters. The
   * buffer size is a template parameter whose default is
   * RequiredDigits(r, bits), which DigitsFit shows is always large enough;
   * a smaller buffer that v's digits overflow is not a valid call.
   */
  method ToDigits(r: Radix, v: nat, size: nat) returns (text: seq<char>)
    requires HasComposeTable(r) && |DigitsOf(v, r.Value())| <= size
    ensures |text| == size
    ensures var ds := DigitsOf(v, r.Value());
      (forall i :: 0 <= i < |ds| ==> text[i] == ComposeDigit(r, ds[i])) &&
      (forall i :: |ds| <= i < size ==> text[i] == 0 as char)
  {
    var radix := r.Value();
    var ds := DigitsOf(v, radix);
    var a := new char[size](_ => 0 as char);
    var n: nat := v;
    var i := 0;
    assert a[..] == PartialText(r, ds, 0, size);
    while n > 0
      invariant i <= |ds| && ds[i..] == DigitsOf(n, radix)
      invariant a[..] == PartialText(r, ds, i, size)
      decreases n
    {
      DigitsSuffixStep(ds, i, n, radix);
      var digit := n % radix;
      assert digit == ds[i] && digit < radix;
      PartialTextStep(r, ds, i, size);
      a[i] := ComposeDigit(r, digit);
      i := i + 1;
      DivShrinks(n, radix);
      n := n / radix;
    }
    assert i == |ds|;
    text := a[..];
  }

  /**
   * The text of v, most significant digit first, parses back to v's
   * digits, and composing from_digits with parsing recovers v.
   */
  lemma TextRoundTrip(r: Radix, v: nat, bits: nat)
    requires HasComposeTable(r) && v < Pow(2, bits)
    ensures var ds := Reverse(DigitsOf(v, r.Value()));
      IsDigits(ds, r.Value()) &&
      ParsedText(r, ComposedText(r, ds)) == ds &&
      Horner(ds, r.Value()) % Pow(2, bits) == v
  {
    var ds := Reverse(DigitsOf(v, r.Value()));
    ParseComposedText(r, ds);
    HornerOfDigits(v, r.Value());
    ModUnique(v, 0, v, Pow(2, bits));
  }

  // ---------------------------------------------------------------------
  // The static checks on whole texts and native values

  /** Buffer sizes for `int`, whose value bits number 31. */
  lemma RequiredDigitsOfInt()
    ensures RequiredDigits(Base8, 31) == 11 && RequiredDigits(Base10, 31) == 10
    ensures RequiredDigits(Base16, 31) == 8 && RequiredDigits(Base64, 31) == 6
  {
    assert Pow(2, 16) == 65536;
    PowAdd(2, 16, 15);
    assert Pow(2, 15) == 32768;
    assert Pow(10, 10) == 10000000000;
    FloorLogUnique(10, Pow(2, 31), 9);
  }

  /** Every parsed digit is the range value of its character. */
  lemma ParsedTextValues(r: Radix, text: seq<char>)
    requires IsByteText(text)
    ensures forall i :: 0 <= i < |text| ==> ParsedText(r, text)[i] == DigitValue(r, text[i])
  {
    forall i | 0 <= i < |text|
      ensures ParsedText(r, text)[i] == DigitValue(r, text[i])
    {
      ParseDigitIsDigitValue(r, text[i]);
    }
  }

  lemma DecimalText()
    ensures ParsedText(Base10, "1234567890") == [1, 2, 3, 4, 5, 6, 7, 8, 9, 0]
  {
    ParsedTextValues(Base10, "1234567890");
  }

  lemma OctalText()
    ensures ParsedText(Base8, "147625") == [1, 4, 7, 6, 2, 5]
  {
    ParsedTextValues(Base8, "147625");
  }

  lemma HexText()
    ensures ParsedText(Base16, "FFED56") == [15, 15, 14, 13, 5, 6]
  {
    ParsedTextValues(Base16, "FFED56");
  }

  lemma Base64Text()
    ensures ParsedText(Base64, "y5I") == [50, 57, 8]
  {
    ParsedTextValues(Base64, "y5I");
  }

  /** parse_digits on "1234567890" gives its ten digits. */
  method ParseExample() returns (digits: seq<nat>)
    ensures digits == [1, 2, 3, 4, 5, 6, 7, 8, 9, 0]
  {
    var text := "1234567890\0";
    assert text[..|text| - 1] == "1234567890";
    DecimalText();
    digits := ParseDigits(Base10, text);
  }

  /** compose_digits on those digits gives the text back. */
  method ComposeExample() returns (text: seq<char>)
    ensures text == "1234567890"
  {
    text := ComposeDigits(Base10, [1, 2, 3, 4, 5, 6, 7, 8, 9, 0]);
  }

  lemma DecimalValue(ds: seq<nat>)
    requires ds == [1, 2, 3, 4, 5, 6, 7, 8, 9, 0]
    ensures Horner(ds, 10) == 1234567890
  {
    var hi, lo := ds[..5], ds[5..];
    assert ds == hi + lo;
    DecimalHigh(hi);
    DecimalLow(lo);
    HornerConcat(hi, lo, 10);
    assert Pow(10, 5) == 100000;
  }

  lemma DecimalHigh(ds: seq<nat>)
    requires ds == [1, 2, 3, 4, 5]
    ensures Horner(ds, 10) == 12345
  {
    assert Reverse(DigitsOf(12345, 10)) == ds;
    HornerOfDigits(12345, 10);
  }

  lemma DecimalLow(ds: seq<nat>)
    requires ds == [6, 7, 8, 9, 0]
    ensures Horner(ds, 10) == 67890
  {
    assert Reverse(DigitsOf(67890, 10)) == ds;
    HornerOfDigits(67890, 10);
  }

  lemma OctalValue(ds: seq<nat>)
    requires ds == [1, 4, 7, 6, 2, 5]
    ensures Horner(ds, 8) == 53141
  {
    assert Reverse(DigitsOf(53141, 8)) == ds;
    HornerOfDigits(53141, 8);
  }

  lemma HexValue(ds: seq<nat>)
    requires ds == [15, 15, 14, 13, 5, 6]
    ensures Horner(ds, 16) == 16772438
  {
    assert Reverse(DigitsOf(16772438, 16)) == ds;
    HornerOfDigits(16772438, 16);
  }

  lemma Base64Value(ds: seq<nat>)
    requires ds == [50, 57, 8]
    ensures Horner(ds, 64) == 208456
  {
    assert Reverse(DigitsOf(208456, 64)) == ds;
    HornerOfDigits(208456, 64);
  }

  /** A value below 2^32 is its own remainder modulo 2^32. */
  lemma Below32(v: nat)
    requires v < 4294967296
    ensures v % Pow(2, 32) == v
  {
    assert Pow(2, 8) == 256;
    PowMul(2, 8, 4);
    assert Pow(256, 4) == 4294967296;
  }

  /**
   * from_digits of parsed texts into a 32-bit unsigned integer:
   * "1234567890", octal "147625", hexadecimal "FFED56" and base-64 "y5I".
   */
  method FromDecimalExample() returns (value: nat)
    ensures value == 1234567890
  {
    var digits := ParseExample();
    DecimalValue(digits);
    Below32(1234567890);
    value := FromDigits(10, digits, 32);
  }

  method FromOctalExample() returns (value: nat)
    ensures value == 53141
  {
    var text := "147625\0";
    assert text[..|text| - 1] == "147625";
    OctalText();
    var digits := ParseDigits(Base8, text);
    OctalValue(digits);
    Below32(53141);
    value := FromDigits(8, digits, 32);
  }

  method FromHexExample() returns (value: nat)
    ensures value == 16772438
  {
    var text := "FFED56\0";
    assert text[..|text| - 1] == "FFED56";
    HexText();
    var digits := ParseDigits(Base16, text);
    HexValue(digits);
    Below32(16772438);
    value := FromDigits(16, digits, 32);
  }

  method FromBase64Example() returns (value: nat)
    ensures value == 208456
  {
    var text := "y5I\0";
    assert text[..|text| - 1] == "y5I";
    Base64Text();
    var digits := ParseDigits(Base64, text);
    Base64Value(digits);
    Below32(208456);
    value := FromDigits(64, digits, 32);
  }

  lemma OctalDigitsOf()
    ensures DigitsOf(53141, 8) == [5, 2, 6, 7, 4, 1]
  {
    ghost var ds := [1, 4, 7, 6, 2, 5];
    assert DigitsOf(53141, 8) == Reverse(ds) by {
      OctalValue(ds);
      DigitsOfHorner(ds, 8);
    }
    assert Reverse(ds) == [5, 2, 6, 7, 4, 1];
  }

  /**
   * to_digits of the same value in the buffer sized for `int`, whose length
   * RequiredDigitsOfInt gives.
   */
  method ToOctalExample() returns (text: seq<char>)
    ensures text == "526741\0\0\0\0\0"
  {
    OctalDigitsOf();
    text := ToDigits(Base8, 53141, 11);
  }

  lemma DecimalDigitsOf()
    ensures DigitsOf(1234567890, 10) == [0, 9, 8, 7, 6, 5, 4, 3, 2, 1]
  {
    ghost var ds := [1, 2, 3, 4, 5, 6, 7, 8, 9, 0];
    assert DigitsOf(1234567890, 10) == Reverse(ds) by {
      DecimalValue(ds);
      DigitsOfHorner(ds, 10);
    }
    assert Reverse(ds) == [0, 9, 8, 7, 6, 5, 4, 3, 2, 1];
  }

  /**
   * to_digits of the same value in the buffer sized for `int`, whose length
   * RequiredDigitsOfInt gives.
   */
  method ToDecimalExample() returns (text: seq<char>)
    ensures text == "0987654321"
  {
    DecimalDigitsOf();
    text := ToDigits(Base10, 1234567890, 10);
  }

  lemma HexDigitsOf()
    ensures DigitsOf(16772438, 16) == [6, 5, 13, 14, 15, 15]
  {
    ghost var ds := [15, 15, 14, 13, 5, 6];
    assert DigitsOf(16772438, 16) == Reverse(ds) by {
      HexValue(ds);
      DigitsOfHorner(ds, 16);
    }
    assert Reverse(ds) == [6, 5, 13, 14, 15, 15];
  }

  /**
   * to_digits of the same value in the buffer sized for `int`, whose length
   * RequiredDigitsOfInt gives.
   */
  method ToHexExample() returns (text: seq<char>)
    ensures text == "65DEFF\0\0"
  {
    HexDigitsOf();
    text := ToDigits(Base16, 16772438, 8);
  }

  lemma Base64DigitsOf()
    ensures DigitsOf(208456, 64) == [8, 57, 50]
  {
    ghost var ds := [50, 57, 8];
    assert DigitsOf(208456, 64) == Reverse(ds) by {
      Base64Value(ds);
      DigitsOfHorner(ds, 64);
    }
    assert Reverse(ds) == [8, 57, 50];
  }

  /**
   * to_digits of the same value in the buffer sized for `int`, whose length
   * RequiredDigitsOfInt gives.
   */
  method ToBase64Example() returns (text: seq<char>)
    ensures text == "I5y\0\0\0"
  {
    Base64DigitsOf();
    text := ToDigits(Base64, 208456, 6);
  }
}
