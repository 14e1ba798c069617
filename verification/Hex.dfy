/** Hexadecimal text: src/ml-dsa.js, src/jws.js, src/webhook.js and src/fips/index.js hold the same pair. */
module Hex {
  import opened Octet

  const DIGITS := "0123456789abcdef"

  predicate IsHexDigit(c: char) {
    '0' <= c <= '9' || 'a' <= c <= 'f' || 'A' <= c <= 'F'
  }

  predicate IsHex(s: string) {
    |s| % 2 == 0 && forall i :: 0 <= i < |s| ==> IsHexDigit(s[i])
  }

  function Digit(n: int): (c: char)
    requires 0 <= n < 16
    ensures IsHexDigit(c) && DigitValue(c) == n && Lower(c) == c
  {
    DIGITS[n]
  }

  function DigitValue(c: char): (n: int)
    requires IsHexDigit(c)
    ensures 0 <= n < 16
  {
    if c <= '9' then c as int - '0' as int
    else if c <= 'F' then c as int - 'A' as int + 10
    else c as int - 'a' as int + 10
  }

  function Lower(c: char): char {
    if 'A' <= c <= 'Z' then (c as int + 32) as char else c
  }

  function LowerAll(s: string): (r: string)
    ensures |r| == |s| && forall i :: 0 <= i < |s| ==> r[i] == Lower(s[i])
  {
    seq(|s|, i requires 0 <= i < |s| => Lower(s[i]))
  }

  /** The case of a digit is all its value forgets. */
  lemma DigitOfValue(c: char)
    requires IsHexDigit(c)
    ensures Digit(DigitValue(c)) == Lower(c)
    ensures IsHexDigit(Lower(c)) && DigitValue(Lower(c)) == DigitValue(c)
  {
    if c <= '9' {
      assert DIGITS[c as int - '0' as int] == c;
    } else if c <= 'F' {
      assert DIGITS[c as int - 'A' as int + 10] == Lower(c);
    } else {
      assert DIGITS[c as int - 'a' as int + 10] == c;
    }
  }

  function HighDigit(b: byte): char { Digit(b / 16) }

  function LowDigit(b: byte): char { Digit(b % 16) }

  function FromDigits(high: char, low: char): byte
    requires IsHexDigit(high) && IsHexDigit(low)
  {
    DigitValue(high) * 16 + DigitValue(low)
  }

  lemma DigitsOfByte(b: byte)
    ensures FromDigits(HighDigit(b), LowDigit(b)) == b
  {
  }

  lemma ByteOfDigits(high: char, low: char)
    requires IsHexDigit(high) && IsHexDigit(low)
    ensures HighDigit(FromDigits(high, low)) == Lower(high)
    ensures LowDigit(FromDigits(high, low)) == Lower(low)
  {
    hide Digit, DigitValue, Lower, IsHexDigit;
    DigitOfValue(high);
    DigitOfValue(low);
    var h, l := DigitValue(high), DigitValue(low);
    assert (h * 16 + l) / 16 == h && (h * 16 + l) % 16 == l;
  }

  lemma LowerAllSplit(s: string)
    requires |s| >= 2
    ensures LowerAll(s) == [Lower(s[0]), Lower(s[1])] + LowerAll(s[2..])
  {
  }

  lemma HexStep(s: string)
    requires |s| >= 2
    ensures IsHex(s) <==> IsHexDigit(s[0]) && IsHexDigit(s[1]) && IsHex(s[2..])
  {
    hide IsHexDigit;
    assert forall i :: 2 <= i < |s| ==> s[i] == s[2..][i - 2];
    assert |s[2..]| % 2 == |s| % 2;
  }

  /** Two digits a byte, high digit first. */
  function Print(bytes: Octets): (s: string)
    ensures |s| == 2 * |bytes|
  {
    if bytes == [] then "" else [HighDigit(bytes[0]), LowDigit(bytes[0])] + Print(bytes[1..])
  }

  function Parse(s: string): (r: Option<Octets>)
    ensures r.Some? <==> IsHex(s)
    ensures r.Some? ==> 2 * |r.value| == |s|
  {
    if s == "" then Some([])
    else if |s| == 1 then None
    else
      var rest := Parse(s[2..]);
      HexStep(s);
      if !IsHexDigit(s[0]) || !IsHexDigit(s[1]) || rest.None? then None
      else Some([FromDigits(s[0], s[1])] + rest.value)
  }

  lemma {:induction false} ParseAt(s: string, i: nat)
    requires IsHex(s) && 2 * i < |s|
    ensures Parse(s).value[i] == FromDigits(s[2 * i], s[2 * i + 1])
  {
    if i > 0 { ParseAt(s[2..], i - 1); }
  }

  lemma {:induction false} PrintSnoc(bytes: Octets, b: byte)
    ensures Print(bytes + [b]) == Print(bytes) + [HighDigit(b), LowDigit(b)]
  {
    if bytes != [] {
      assert (bytes + [b])[1..] == bytes[1..] + [b];
      PrintSnoc(bytes[1..], b);
    }
  }

  lemma {:induction false} ParsePrint(bytes: Octets)
    ensures Parse(Print(bytes)) == Some(bytes)
  {
    if bytes != [] {
      ParsePrint(bytes[1..]);
      DigitsOfByte(bytes[0]);
      var s := Print(bytes);
      assert s[0] == HighDigit(bytes[0]) && s[1] == LowDigit(bytes[0]) && s[2..] == Print(bytes[1..]);
      assert bytes == [bytes[0]] + bytes[1..];
    }
  }

  lemma {:induction false} PrintParse(s: string)
    requires IsHex(s)
    ensures Print(Parse(s).value) == LowerAll(s)
  {
    if s != "" {
      var rest := s[2..];
      PrintParse(rest);
      ByteOfDigits(s[0], s[1]);
      var b := Parse(s).value;
      assert b[0] == FromDigits(s[0], s[1]) && b[1..] == Parse(rest).value;
      assert Print(b) == [Lower(s[0]), Lower(s[1])] + LowerAll(rest);
      LowerAllSplit(s);
    }
  }

  /** Two hex strings decode alike exactly when they differ in letter case alone. */
  lemma SameBytesIffSameLetters(s: string, t: string)
    requires IsHex(s) && IsHex(t)
    ensures Parse(s) == Parse(t) <==> LowerAll(s) == LowerAll(t)
  {
    PrintParse(s);
    PrintParse(t);
    if LowerAll(s) == LowerAll(t) {
      ParsePrint(Parse(s).value);
      ParsePrint(Parse(t).value);
    }
  }

  /** Every byte is two digits in the order of their values, high digit first. */
  lemma {:induction false} PrintAt(bytes: Octets, i: nat)
    requires i < |bytes|
    ensures Print(bytes)[2 * i] == "0123456789abcdef"[bytes[i] / 16]
    ensures Print(bytes)[2 * i + 1] == "0123456789abcdef"[bytes[i] % 16]
  {
    if i > 0 { PrintAt(bytes[1..], i - 1); }
  }

  /** What is hex text: pairs of these digits. */
  lemma ParsesIff(s: string)
    ensures Parse(s).Some? <==> |s| % 2 == 0 && forall i :: 0 <= i < |s| ==> s[i] in "0123456789abcdefABCDEF"
  {
    forall c: char ensures IsHexDigit(c) <==> c in "0123456789abcdefABCDEF" { DigitLetters(c); }
  }

  lemma DigitLetters(c: char)
    ensures IsHexDigit(c) <==> c in "0123456789abcdefABCDEF"
  {
    var all := "0123456789abcdefABCDEF";
    if '0' <= c <= '9' { assert all[c as int - '0' as int] == c; }
    if 'a' <= c <= 'f' { assert all[c as int - 'a' as int + 10] == c; }
    if 'A' <= c <= 'F' { assert all[c as int - 'A' as int + 16] == c; }
  }

  method BytesToHex(bytes: array<byte>) returns (s: string)
    ensures s == Print(bytes[..])
  {
    s := "";
    for i := 0 to bytes.Length
      invariant s == Print(bytes[..i])
    {
      PrintSnoc(bytes[..i], bytes[i]);
      assert bytes[..i + 1] == bytes[..i] + [bytes[i]];
      s := s + [HighDigit(bytes[i]), LowDigit(bytes[i])];
    }
    assert bytes[..bytes.Length] == bytes[..];
  }

  method HexToBytes(hex: string) returns (bytes: array?<byte>)
    ensures (if bytes == null then None else Some(bytes[..])) == Parse(hex)
    ensures bytes != null ==> fresh(bytes)
  {
    if |hex| % 2 != 0 || exists i :: 0 <= i < |hex| && !IsHexDigit(hex[i]) { return null; }
    var out := new byte[|hex| / 2];
    for i := 0 to out.Length
      invariant forall j :: 0 <= j < i ==> out[j] == FromDigits(hex[2 * j], hex[2 * j + 1])
    {
      out[i] := FromDigits(hex[2 * i], hex[2 * i + 1]);
    }
    bytes := out;
    forall i | 0 <= i < out.Length ensures out[i] == Parse(hex).value[i] {
      ParseAt(hex, i);
    }
    assert bytes[..] == Parse(hex).value;
  }
}
