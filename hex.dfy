/**
 * Base16 as the `hex` crate implements it (section 8 of RFC 4648): encoding
 * writes two lower-case digits per byte, high nibble first; decoding accepts
 * either case, rejects an odd number of digits before looking at any digit,
 * and otherwise reports the first character that is not a digit.
 */
module Hex {
  import opened Bytes
  import opened Wrappers
  import Text

  predicate IsLowerHexDigit(c: char)
  {
    '0' <= c <= '9' || 'a' <= c <= 'f'
  }

  function HexDigit(v: nat): (c: char)
    requires v < 16
    ensures IsLowerHexDigit(c)
  {
    if v < 10 then ('0' as int + v) as char else ('a' as int + v - 10) as char
  }

  /** `hex::encode`. */
  function Encode(b: seq<byte>): (s: string)
    ensures |s| == 2 * |b|
    ensures forall i :: 0 <= i < |s| ==> IsLowerHexDigit(s[i])
  {
    if b == [] then [] else [HexDigit(b[0] / 16), HexDigit(b[0] % 16)] + Encode(b[1..])
  }

  /** The value of one hexadecimal digit of either case. */
  function DigitValue(c: char): (r: Option<nat>)
    ensures r.Some? ==> r.value < 16
    ensures r.Some? <==> IsLowerHexDigit(c) || 'A' <= c <= 'F'
  {
    if '0' <= c <= '9' then Some(c as int - '0' as int)
    else if 'a' <= c <= 'f' then Some(c as int - 'a' as int + 10)
    else if 'A' <= c <= 'F' then Some(c as int - 'A' as int + 10)
    else None
  }

  /** `hex::FromHexError`, for the two cases a `&str` input can produce. */
  datatype DecodeError = OddLength | InvalidHexCharacter(c: char, index: nat)

  /** The number a string of lower-case hexadecimal digits denotes, most significant first. */
  function HexValue(s: string): nat
    requires forall i :: 0 <= i < |s| ==> IsLowerHexDigit(s[i])
  {
    if s == [] then 0 else 16 * HexValue(s[..|s| - 1]) + DigitValue(s[|s| - 1]).value
  }

  /** A natural number in lower-case hexadecimal, without leading zeros. */
  function HexNumeral(n: nat): (r: string)
    ensures 1 <= |r| && (r[0] == '0' ==> n == 0)
    ensures forall i :: 0 <= i < |r| ==> IsLowerHexDigit(r[i])
    ensures HexValue(r) == n
  {
    if n < 16 then
      DigitValueOfHexDigit(n);
      [HexDigit(n)]
    else
      var r := HexNumeral(n / 16) + [HexDigit(n % 16)];
      DigitValueOfHexDigit(n % 16);
      assert r[..|r| - 1] == HexNumeral(n / 16);
      r
  }

  /** Characters that Rust's `char::escape_debug` writes as themselves (ASCII only). */
  predicate WrittenAsIs(c: char)
  {
    (' ' <= c <= '~' || c as int >= 128) && c != '\'' && c != '\\'
  }

  /**
   * `char::escape_debug`, as `{:?}` writes a `char` between its quotes:
   * the usual backslash escapes, `\u{..}` for the other ASCII controls,
   * and every other character as itself.
   */
  function DebugChar(c: char): (r: string)
    ensures r == [c] <==> WrittenAsIs(c)
    ensures !WrittenAsIs(c) ==> |r| >= 2 && r[0] == '\\'
    ensures c as int < 128 ==> forall i :: 0 <= i < |r| ==> ' ' <= r[i] <= '~'
  {
    if c == '\t' then "\\t"
    else if c == '\r' then "\\r"
    else if c == '\n' then "\\n"
    else if c == '\0' then "\\0"
    else if c == '\'' then "\\'"
    else if c == '\\' then "\\\\"
    else if c < ' ' || c as int == 0x7f then "\\u{" + HexNumeral(c as int) + "}"
    else [c]
  }

  /** Reads back the code point of a character written by `DebugChar`. */
  function UndebugChar(r: string): Option<int>
  {
    if |r| == 1 then Some(r[0] as int)
    else if |r| == 2 && r[0] == '\\' then
      if r[1] == 't' then Some('\t' as int)
      else if r[1] == 'r' then Some('\r' as int)
      else if r[1] == 'n' then Some('\n' as int)
      else if r[1] == '0' then Some(0)
      else if r[1] == '\'' || r[1] == '\\' then Some(r[1] as int)
      else None
    else if |r| >= 5 && r[..3] == "\\u{" && r[|r| - 1] == '}'
      && forall i :: 3 <= i < |r| - 1 ==> IsLowerHexDigit(r[i])
    then Some(HexValue(r[3..|r| - 1]))
    else None
  }

  /** Round trip: the escaped form gives the character back. */
  lemma UndebugDebugChar(c: char)
    ensures UndebugChar(DebugChar(c)) == Some(c as int)
  {
    var r := DebugChar(c);
    if (c < ' ' || c as int == 0x7f) && c != '\t' && c != '\r' && c != '\n' && c != '\0' {
      var h := HexNumeral(c as int);
      assert r == "\\u{" + h + "}";
      assert r[..3] == "\\u{" && r[3..|r| - 1] == h;
    }
  }

  /** Distinct characters are written differently, so the report names the character. */
  lemma DebugCharInjective(a: char, b: char)
    ensures DebugChar(a) == DebugChar(b) <==> a == b
  {
    UndebugDebugChar(a);
    UndebugDebugChar(b);
  }

  /** The `Display` text of a decoding error: `Invalid character {:?} at position {}`. */
  function DescribeError(e: DecodeError): (r: string)
    ensures e.OddLength? ==> r == "Odd number of digits"
    ensures e.InvalidHexCharacter? ==>
      var q := "Invalid character '" + DebugChar(e.c) + "'";
      |r| > |q| && r[..|q|] == q && r[|q|..] == " at position " + Text.DecimalString(e.index)
  {
    match e
    case OddLength => "Odd number of digits"
    case InvalidHexCharacter(c, index) =>
      "Invalid character '" + DebugChar(c) + "' at position " + Text.DecimalString(index)
  }

  /** A line feed is reported escaped, as Rust's `Debug` writes it. */
  lemma DescribeNewline()
    ensures DescribeError(InvalidHexCharacter('\n', 0)) == "Invalid character '\\n' at position 0"
  {
    assert Text.DecimalString(0) == "0";
  }

  /** Decodes the digit pairs of `s`, whose first digit sits at `offset` in the whole input. */
  function DecodePairs(s: string, offset: nat): (r: Result<seq<byte>, DecodeError>)
    requires |s| % 2 == 0
    ensures r.Ok? ==> |r.value| == |s| / 2
    ensures r.Err? ==> r.error.InvalidHexCharacter? && offset <= r.error.index < offset + |s|
    decreases |s|
  {
    if s == [] then Ok([])
    else
      match DigitValue(s[0])
      case None => Err(InvalidHexCharacter(s[0], offset))
      case Some(hi) =>
        match DigitValue(s[1])
        case None => Err(InvalidHexCharacter(s[1], offset + 1))
        case Some(lo) =>
          match DecodePairs(s[2..], offset + 2)
          case Err(e) => Err(e)
          case Ok(rest) => Ok([hi * 16 + lo] + rest)
  }

  /** `hex::decode`. */
  function Decode(s: string): (r: Result<seq<byte>, DecodeError>)
    ensures |s| % 2 != 0 <==> r == Err(OddLength)
    ensures r.Ok? <==> |s| % 2 == 0 && forall i :: 0 <= i < |s| ==> DigitValue(s[i]).Some?
    ensures r.Ok? ==> 2 * |r.value| == |s|
    ensures r.Ok? ==> forall k :: 0 <= k < |r.value| ==>
      DigitValue(s[2 * k]) == Some(r.value[k] / 16) && DigitValue(s[2 * k + 1]) == Some(r.value[k] % 16)
    ensures r.Err? && r.error.InvalidHexCharacter? ==>
      var i := r.error.index;
      i < |s| && r.error.c == s[i] && DigitValue(s[i]).None?
      && forall j :: 0 <= j < i ==> DigitValue(s[j]).Some?
  {
    if |s| % 2 != 0 then Err(OddLength)
    else
      DecodePairsOkIff(s, 0);
      DecodePairsValues(s, 0);
      DecodePairsFirstError(s, 0);
      DecodePairs(s, 0)
  }

  /** Decoding succeeds exactly on even-length strings of hexadecimal digits. */
  lemma {:induction false} DecodePairsOkIff(s: string, offset: nat)
    requires |s| % 2 == 0
    ensures DecodePairs(s, offset).Ok? <==> forall i :: 0 <= i < |s| ==> DigitValue(s[i]).Some?
    decreases |s|
  {
    if s != [] {
      DecodePairsOkIff(s[2..], offset + 2);
      assert forall i :: 2 <= i < |s| ==> s[i] == s[2..][i - 2];
    }
  }

  /** Each decoded byte is the value of its two digits, high nibble first. */
  lemma {:induction false} DecodePairsValues(s: string, offset: nat)
    requires |s| % 2 == 0
    ensures var r := DecodePairs(s, offset);
      r.Ok? ==> forall k :: 0 <= k < |r.value| ==>
        DigitValue(s[2 * k]) == Some(r.value[k] / 16) && DigitValue(s[2 * k + 1]) == Some(r.value[k] % 16)
    decreases |s|
  {
    var r := DecodePairs(s, offset);
    if s != [] && r.Ok? {
      var hi, lo := DigitValue(s[0]).value, DigitValue(s[1]).value;
      var rest := DecodePairs(s[2..], offset + 2);
      DecodePairsValues(s[2..], offset + 2);
      assert r.value == [hi * 16 + lo] + rest.value;
      forall k | 0 <= k < |r.value|
        ensures DigitValue(s[2 * k]) == Some(r.value[k] / 16) && DigitValue(s[2 * k + 1]) == Some(r.value[k] % 16)
      {
        if k > 0 {
          assert r.value[k] == rest.value[k - 1];
          assert s[2 * k] == s[2..][2 * (k - 1)] && s[2 * k + 1] == s[2..][2 * (k - 1) + 1];
        }
      }
    }
  }

  /** A failure names the first character, counted from `offset`, that is not a digit. */
  lemma {:induction false} DecodePairsFirstError(s: string, offset: nat)
    requires |s| % 2 == 0
    ensures var r := DecodePairs(s, offset);
      r.Err? ==>
        var i := r.error.index - offset;
        0 <= i < |s| && r.error.c == s[i] && DigitValue(s[i]).None?
        && forall j :: 0 <= j < i ==> DigitValue(s[j]).Some?
    decreases |s|
  {
    var r := DecodePairs(s, offset);
    if s != [] && r.Err? && DigitValue(s[0]).Some? && DigitValue(s[1]).Some? {
      DecodePairsFirstError(s[2..], offset + 2);
      var i := r.error.index - offset;
      assert s[i] == s[2..][i - 2];
      forall j | 0 <= j < i
        ensures DigitValue(s[j]).Some?
      {
        if j >= 2 { assert s[j] == s[2..][j - 2]; }
      }
    }
  }

  lemma DigitValueOfHexDigit(v: nat)
    requires v < 16
    ensures DigitValue(HexDigit(v)) == Some(v)
  {
  }

  lemma {:induction false} DecodePairsOfEncode(b: seq<byte>, offset: nat)
    ensures DecodePairs(Encode(b), offset) == Ok(b)
  {
    if b != [] {
      var s := Encode(b);
      var hi, lo := b[0] / 16, b[0] % 16;
      assert s[0] == HexDigit(hi) && s[1] == HexDigit(lo);
      DigitValueOfHexDigit(hi);
      DigitValueOfHexDigit(lo);
      assert s[2..] == Encode(b[1..]);
      DecodePairsOfEncode(b[1..], offset + 2);
      assert hi * 16 + lo == b[0];
      assert [b[0]] + b[1..] == b;
    }
  }

  /** Round trip: decoding the encoding of any byte string gives it back. */
  lemma DecodeEncode(b: seq<byte>)
    ensures Decode(Encode(b)) == Ok(b)
  {
    DecodePairsOfEncode(b, 0);
  }

  /** Encoding is injective, so distinct byte strings have distinct hex forms. */
  lemma EncodeInjective(a: seq<byte>, b: seq<byte>)
    ensures Encode(a) == Encode(b) <==> a == b
  {
    if Encode(a) == Encode(b) {
      DecodeEncode(a);
      DecodeEncode(b);
    }
  }
}
