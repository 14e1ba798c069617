/**
 * base64url as src/jws.js writes and reads it (RFC 4648, section 5, without
 * padding): the Buffer path, the btoa and atob path, and the strict reader.
 */
module Base64Url {
  import opened Octet

  type sextet = x: int | 0 <= x < 64

  predicate InUrlAlphabet(c: char) {
    'A' <= c <= 'Z' || 'a' <= c <= 'z' || '0' <= c <= '9' || c == '-' || c == '_'
  }

  predicate InStdAlphabet(c: char) {
    'A' <= c <= 'Z' || 'a' <= c <= 'z' || '0' <= c <= '9' || c == '+' || c == '/'
  }

  function UrlSymbol(n: sextet): (c: char)
    ensures InUrlAlphabet(c) && UrlValue(c) == n
  {
    if n < 26 then (n as int + 65) as char
    else if n < 52 then (n as int + 71) as char
    else if n < 62 then (n as int - 4) as char
    else if n == 62 then '-'
    else '_'
  }

  function UrlValue(c: char): sextet
    requires InUrlAlphabet(c)
  {
    if c == '-' then 62
    else if c == '_' then 63
    else if c <= '9' then c as int - '0' as int + 52
    else if c <= 'Z' then c as int - 'A' as int
    else c as int - 'a' as int + 26
  }

  lemma ValueSymbol(c: char)
    requires InUrlAlphabet(c)
    ensures UrlSymbol(UrlValue(c)) == c
  {
  }

  function Sextet1(a: byte): sextet { a / 4 }
  function Sextet2(a: byte, b: byte): sextet { a % 4 * 16 + b / 16 }
  function Sextet3(b: byte, c: byte): sextet { b % 16 * 4 + c / 64 }
  function Sextet4(c: byte): sextet { c % 64 }

  function Octet1(p: sextet, q: sextet): byte { p as int * 4 + q / 16 }
  function Octet2(q: sextet, r: sextet): byte { q as int % 16 * 16 + r / 4 }
  function Octet3(r: sextet, s: sextet): byte { r as int % 4 * 64 + s }

  /** Four sextets and three octets carry the same 24 bits. */
  lemma OctetsOfSextets(a: byte, b: byte, c: byte)
    ensures Octet1(Sextet1(a), Sextet2(a, b)) == a
    ensures Octet2(Sextet2(a, b), Sextet3(b, c)) == b
    ensures Octet3(Sextet3(b, c), Sextet4(c)) == c
  {
  }

  lemma SextetsOfOctets(p: sextet, q: sextet, r: sextet, s: sextet)
    ensures Sextet1(Octet1(p, q)) == p
    ensures Sextet2(Octet1(p, q), Octet2(q, r)) == q
    ensures Sextet3(Octet2(q, r), Octet3(r, s)) == r
    ensures Sextet4(Octet3(r, s)) == s
  {
  }

  /** Three octets are four sextets; one or two left over are two or three, filled with zero bits. */
  function Sextets(b: Octets): seq<sextet> {
    if b == [] then []
    else if |b| == 1 then [Sextet1(b[0]), Sextet2(b[0], 0)]
    else if |b| == 2 then [Sextet1(b[0]), Sextet2(b[0], b[1]), Sextet3(b[1], 0)]
    else [Sextet1(b[0]), Sextet2(b[0], b[1]), Sextet3(b[1], b[2]), Sextet4(b[2])] + Sextets(b[3..])
  }

  /** Bits that do not fill an octet are dropped. */
  function FromSextets(v: seq<sextet>): Octets {
    if |v| <= 1 then []
    else if |v| == 2 then [Octet1(v[0], v[1])]
    else if |v| == 3 then [Octet1(v[0], v[1]), Octet2(v[1], v[2])]
    else [Octet1(v[0], v[1]), Octet2(v[1], v[2]), Octet3(v[2], v[3])] + FromSextets(v[4..])
  }

  lemma FromSextetsCons(p: sextet, q: sextet, r: sextet, s: sextet, rest: seq<sextet>)
    ensures FromSextets([p, q, r, s] + rest) == [Octet1(p, q), Octet2(q, r), Octet3(r, s)] + FromSextets(rest)
  {
    var v := [p, q, r, s] + rest;
    assert v[0] == p && v[1] == q && v[2] == r && v[3] == s && v[4..] == rest;
  }

  lemma FromSextetsLast(p: sextet, q: sextet, r: sextet)
    ensures FromSextets([p, q]) == [Octet1(p, q)]
    ensures FromSextets([p, q, r]) == [Octet1(p, q), Octet2(q, r)]
  {
  }

  lemma TailUndone(b: Octets)
    requires |b| < 3
    ensures FromSextets(Sextets(b)) == b
  {
    hide Octet1, Octet2, Octet3, Sextet1, Sextet2, Sextet3, Sextet4;
    if |b| == 2 {
      OctetsOfSextets(b[0], b[1], 0);
      FromSextetsLast(Sextet1(b[0]), Sextet2(b[0], b[1]), Sextet3(b[1], 0));
    } else if |b| == 1 {
      OctetsOfSextets(b[0], 0, 0);
      FromSextetsLast(Sextet1(b[0]), Sextet2(b[0], 0), 0);
    }
  }

  lemma {:induction false} FromSextetsUndoes(b: Octets)
    ensures FromSextets(Sextets(b)) == b
  {
    if |b| < 3 {
      TailUndone(b);
    } else {
      FromSextetsUndoes(b[3..]);
      var p, q, r, s := Sextet1(b[0]), Sextet2(b[0], b[1]), Sextet3(b[1], b[2]), Sextet4(b[2]);
      OctetsOfSextets(b[0], b[1], b[2]);
      FromSextetsCons(p, q, r, s, Sextets(b[3..]));
      assert b == [b[0], b[1], b[2]] + b[3..];
    }
  }

  /** No sextet was wasted and the bits that were dropped were zero. */
  predicate Canonical(v: seq<sextet>) {
    if |v| % 4 == 0 then true
    else if |v| % 4 == 1 then false
    else if |v| % 4 == 2 then v[|v| - 1] % 16 == 0
    else v[|v| - 1] % 4 == 0
  }

  lemma CanonicalTail(v: seq<sextet>)
    requires |v| >= 4
    ensures Canonical(v) <==> Canonical(v[4..])
  {
    assert |v[4..]| % 4 == |v| % 4;
  }

  lemma {:induction false} SextetsUndoesIff(v: seq<sextet>)
    ensures Sextets(FromSextets(v)) == v <==> Canonical(v)
  {
    if |v| < 4 {
      TailUndoneIff(v);
    } else {
      hide Octet1, Octet2, Octet3, Sextet1, Sextet2, Sextet3, Sextet4, Canonical;
      var rest := v[4..];
      SextetsUndoesIff(rest);
      CanonicalTail(v);
      SextetsOfOctets(v[0], v[1], v[2], v[3]);
      FromSextetsCons(v[0], v[1], v[2], v[3], rest);
      var head := [v[0], v[1], v[2], v[3]];
      assert v == head + rest;
      SextetsCons(Octet1(v[0], v[1]), Octet2(v[1], v[2]), Octet3(v[2], v[3]), FromSextets(rest));
      var again := Sextets(FromSextets(v));
      assert again == head + Sextets(FromSextets(rest));
      assert again[4..] == Sextets(FromSextets(rest));
    }
  }

  lemma SextetsCons(a: byte, b: byte, c: byte, rest: Octets)
    ensures Sextets([a, b, c] + rest) == [Sextet1(a), Sextet2(a, b), Sextet3(b, c), Sextet4(c)] + Sextets(rest)
  {
    hide Sextet1, Sextet2, Sextet3, Sextet4;
    var v := [a, b, c] + rest;
    assert v[0] == a && v[1] == b && v[2] == c && v[3..] == rest;
  }

  lemma LastOfTwo(p: sextet, q: sextet)
    ensures Sextet2(Octet1(p, q), 0) == q <==> q % 16 == 0
  {
    var b, high: int := Octet1(p, q), q as int / 16;
    assert b as int == p as int * 4 + high && 0 <= high < 4;
    assert b as int % 4 == high;
    assert q as int == high * 16 + q as int % 16;
  }

  lemma LastOfThree(q: sextet, r: sextet)
    ensures Sextet3(Octet2(q, r), 0) == r <==> r % 4 == 0
  {
    var b, high: int := Octet2(q, r), r as int / 4;
    assert b as int == q as int % 16 * 16 + high && 0 <= high < 16;
    assert b as int % 16 == high;
    assert r as int == high * 4 + r as int % 4;
  }

  lemma SextetsShort(a: byte, b: byte)
    ensures Sextets([]) == [] && FromSextets([]) == []
    ensures Sextets([a]) == [Sextet1(a), Sextet2(a, 0)]
    ensures Sextets([a, b]) == [Sextet1(a), Sextet2(a, b), Sextet3(b, 0)]
  {
    hide Sextet1, Sextet2, Sextet3;
  }

  lemma TwoUndoneIff(p: sextet, q: sextet)
    ensures Sextets(FromSextets([p, q])) == [p, q] <==> q % 16 == 0
  {
    hide Sextets, FromSextets, Octet1, Octet2, Octet3, Sextet1, Sextet2, Sextet3, Sextet4;
    FromSextetsLast(p, q, 0);
    SextetsShort(Octet1(p, q), 0);
    SextetsOfOctets(p, q, 0, 0);
    LastOfTwo(p, q);
  }

  lemma ThreeUndoneIff(p: sextet, q: sextet, r: sextet)
    ensures Sextets(FromSextets([p, q, r])) == [p, q, r] <==> r % 4 == 0
  {
    hide Sextets, FromSextets, Octet1, Octet2, Octet3, Sextet1, Sextet2, Sextet3, Sextet4;
    FromSextetsLast(p, q, r);
    SextetsShort(Octet1(p, q), Octet2(q, r));
    SextetsOfOctets(p, q, r, 0);
    LastOfThree(q, r);
  }

  lemma TailUndoneIff(v: seq<sextet>)
    requires |v| < 4
    ensures Sextets(FromSextets(v)) == v <==> Canonical(v)
  {
    hide Sextets, FromSextets;
    if |v| == 3 {
      ThreeUndoneIff(v[0], v[1], v[2]);
      assert v == [v[0], v[1], v[2]];
    } else if |v| == 2 {
      TwoUndoneIff(v[0], v[1]);
      assert v == [v[0], v[1]];
    } else {
      NoneUndone(v);
    }
  }

  lemma NoneUndone(v: seq<sextet>)
    requires |v| <= 1
    ensures Sextets(FromSextets(v)) == []
  {
    hide Sextet1, Sextet2, Sextet3, Sextet4, Octet1, Octet2, Octet3;
  }

  // ── Text ─────────────────────────────────────────────────────────────────

  predicate UrlText(s: string) { forall i :: 0 <= i < |s| ==> InUrlAlphabet(s[i]) }

  predicate StdText(s: string) { forall i :: 0 <= i < |s| ==> InStdAlphabet(s[i]) }

  /** `s.replace(/x/g, y)` for single characters. */
  function ReplaceAll(s: string, x: char, y: char): (r: string)
    ensures |r| == |s| && forall i :: 0 <= i < |s| ==> r[i] == if s[i] == x then y else s[i]
  {
    seq(|s|, i requires 0 <= i < |s| => if s[i] == x then y else s[i])
  }

  function UrlSymbols(v: seq<sextet>): (s: string)
    ensures |s| == |v| && forall i :: 0 <= i < |v| ==> s[i] == UrlSymbol(v[i])
    ensures UrlText(s)
  {
    seq(|v|, i requires 0 <= i < |v| => UrlSymbol(v[i]))
  }

  function UrlValues(s: string): (v: seq<sextet>)
    requires UrlText(s)
    ensures |v| == |s| && forall i :: 0 <= i < |s| ==> v[i] == UrlValue(s[i])
  {
    seq(|s|, i requires 0 <= i < |s| => UrlValue(s[i]))
  }

  lemma ValuesOfSymbols(v: seq<sextet>)
    ensures UrlValues(UrlSymbols(v)) == v
  {
  }

  lemma SymbolsOfValues(s: string)
    requires UrlText(s)
    ensures UrlSymbols(UrlValues(s)) == s
  {
    forall i | 0 <= i < |s| ensures UrlSymbols(UrlValues(s))[i] == s[i] { ValueSymbol(s[i]); }
  }

  /** RFC 4648, section 5: the one spelling of a byte string. */
  function Encode(b: Octets): (s: string)
    ensures UrlText(s)
  {
    UrlSymbols(Sextets(b))
  }

  function Decode(s: string): Octets
    requires UrlText(s)
  {
    FromSextets(UrlValues(s))
  }

  lemma DecodeEncode(b: Octets)
    ensures Decode(Encode(b)) == b
  {
    ValuesOfSymbols(Sextets(b));
    FromSextetsUndoes(b);
  }

  /** Re-encoding gives the text back exactly when the text is canonical. */
  lemma EncodeDecodeIff(s: string)
    requires UrlText(s)
    ensures Encode(Decode(s)) == s <==> Canonical(UrlValues(s))
  {
    var v := UrlValues(s);
    SextetsUndoesIff(v);
    SymbolsOfValues(s);
    ValuesOfSymbols(Sextets(FromSextets(v)));
  }

  lemma EncodeInjective(a: Octets, b: Octets)
    requires Encode(a) == Encode(b)
    ensures a == b
  {
    DecodeEncode(a);
    DecodeEncode(b);
  }

  lemma EncodeEmptyIff(b: Octets)
    ensures Encode(b) == "" <==> b == []
  {
  }

  // ── The alphabet and the bits ────────────────────────────────────────────

  lemma UpperLetter(n: nat)
    requires n < 26
    ensures "ABCDEFGHIJKLMNOPQRSTUVWXYZ"[n] == (n + 65) as char
  {
  }

  lemma LowerLetter(n: nat)
    requires n < 26
    ensures "abcdefghijklmnopqrstuvwxyz"[n] == (n + 97) as char
  {
  }

  lemma OtherLetter(n: nat)
    requires n < 12
    ensures "0123456789-_"[n] == if n < 10 then (n + 48) as char else if n == 10 then '-' else '_'
  {
  }

  lemma AlphabetParts()
    ensures "ABCDEFGHIJKLMNOPQRSTUVWXYZabcdefghijklmnopqrstuvwxyz0123456789-_"
            == "ABCDEFGHIJKLMNOPQRSTUVWXYZ" + "abcdefghijklmnopqrstuvwxyz" + "0123456789-_"
  {
  }

  lemma IndexThrough(all: string, a: string, b: string, c: string, n: nat)
    requires all == a + b + c && n < |all|
    ensures all[n] == if n < |a| then a[n] else if n < |a| + |b| then b[n - |a|] else c[n - |a| - |b|]
  {
  }

  lemma SymbolIs(n: sextet)
    ensures UrlSymbol(n) == "ABCDEFGHIJKLMNOPQRSTUVWXYZabcdefghijklmnopqrstuvwxyz0123456789-_"[n]
  {
    var a, b, c := "ABCDEFGHIJKLMNOPQRSTUVWXYZ", "abcdefghijklmnopqrstuvwxyz", "0123456789-_";
    AlphabetParts();
    IndexThrough("ABCDEFGHIJKLMNOPQRSTUVWXYZabcdefghijklmnopqrstuvwxyz0123456789-_", a, b, c, n);
    if n < 26 {
      UpperLetter(n);
    } else if n < 52 {
      LowerLetter(n - 26);
    } else {
      OtherLetter(n - 52);
    }
  }

  /** A character of the alphabet stands at the place its value says. */
  lemma ValueIs(c: char)
    requires InUrlAlphabet(c)
    ensures "ABCDEFGHIJKLMNOPQRSTUVWXYZabcdefghijklmnopqrstuvwxyz0123456789-_"[UrlValue(c)] == c
  {
    ValueSymbol(c);
    SymbolIs(UrlValue(c));
  }

  lemma InWhole(all: string, c: char)
    requires |all| == 64 && forall n: sextet :: UrlSymbol(n) == all[n]
    ensures InUrlAlphabet(c) <==> c in all
  {
    if InUrlAlphabet(c) {
      ValueSymbol(c);
      assert all[UrlValue(c)] == c;
    }
    if c in all {
      var i :| 0 <= i < |all| && all[i] == c;
      assert UrlSymbol(i) == c;
    }
  }

  lemma AlphabetIs(c: char)
    ensures InUrlAlphabet(c) <==> c in "ABCDEFGHIJKLMNOPQRSTUVWXYZabcdefghijklmnopqrstuvwxyz0123456789-_"
  {
    hide UrlSymbol, InUrlAlphabet;
    forall n: sextet
      ensures UrlSymbol(n) == "ABCDEFGHIJKLMNOPQRSTUVWXYZabcdefghijklmnopqrstuvwxyz0123456789-_"[n]
    {
      SymbolIs(n);
    }
    InWhole("ABCDEFGHIJKLMNOPQRSTUVWXYZabcdefghijklmnopqrstuvwxyz0123456789-_", c);
  }

  function Byte(b: Octets, i: nat): int { if i < |b| then b[i] else 0 }

  lemma {:induction false} SextetAt(b: Octets, j: nat)
    ensures |Sextets(b)| == (4 * |b| + 2) / 3
    ensures j < |Sextets(b)| ==>
              var (x, y, z) := (Byte(b, j / 4 * 3), Byte(b, j / 4 * 3 + 1), Byte(b, j / 4 * 3 + 2));
              Sextets(b)[j] as int == (if j % 4 == 0 then x / 4 else if j % 4 == 1 then x % 4 * 16 + y / 16
                                       else if j % 4 == 2 then y % 16 * 4 + z / 64 else z % 64)
  {
    if |b| >= 3 {
      hide Sextets, Sextet1, Sextet2, Sextet3, Sextet4;
      SextetsStep(b);
      SextetAt(b[3..], if j >= 4 then j - 4 else 0);
      if j >= 4 { NextGroup(b, j); }
    }
  }

  lemma SextetsStep(b: Octets)
    requires |b| >= 3
    ensures var v, rest := Sextets(b), Sextets(b[3..]);
            && |v| == 4 + |rest|
            && v[0] as int == b[0] as int / 4 && v[1] as int == b[0] as int % 4 * 16 + b[1] as int / 16
            && v[2] as int == b[1] as int % 16 * 4 + b[2] as int / 64 && v[3] as int == b[2] as int % 64
            && forall k :: 4 <= k < |v| ==> v[k] == rest[k - 4]
  {
  }

  lemma NextGroup(b: Octets, j: nat)
    requires |b| >= 3 && j >= 4
    ensures (j - 4) % 4 == j % 4 && (j - 4) / 4 * 3 + 3 == j / 4 * 3
    ensures forall k: nat :: Byte(b[3..], k) == Byte(b, k + 3)
  {
  }

  /**
   * Character j is the letter for bits 6j to 6j + 5 of the bytes, which zeros
   * follow; there are as many characters as bits need.
   */
  lemma EncodeAt(b: Octets, j: nat)
    ensures |Encode(b)| == (4 * |b| + 2) / 3
    ensures j < |Encode(b)| ==>
              var (x, y, z) := (Byte(b, j / 4 * 3), Byte(b, j / 4 * 3 + 1), Byte(b, j / 4 * 3 + 2));
              var n := if j % 4 == 0 then x / 4 else if j % 4 == 1 then x % 4 * 16 + y / 16
                       else if j % 4 == 2 then y % 16 * 4 + z / 64 else z % 64;
              && 0 <= n < 64
              && Encode(b)[j] == "ABCDEFGHIJKLMNOPQRSTUVWXYZabcdefghijklmnopqrstuvwxyz0123456789-_"[n]
  {
    hide UrlSymbol;
    SextetAt(b, j);
    if j < |Encode(b)| { SymbolIs(Sextets(b)[j]); }
  }

  lemma NextFour(v: seq<sextet>, k: nat)
    requires |v| >= 4 && k >= 3
    ensures (k - 3) % 3 == k % 3 && (k - 3) / 3 * 4 + 4 == k / 3 * 4
    ensures forall i :: 0 <= i < |v| - 4 ==> v[4..][i] == v[i + 4]
  {
  }

  /** Reading drops the bits that do not fill a byte: byte k is bits 8k to 8k + 7 of the characters' values. */
  lemma {:induction false} OctetAt(v: seq<sextet>, k: nat)
    ensures |FromSextets(v)| == 3 * |v| / 4
    ensures k < |FromSextets(v)| ==>
              var g := k / 3 * 4;
              && g + k % 3 + 1 < |v|
              && FromSextets(v)[k] == (if k % 3 == 0 then v[g] as int * 4 + v[g + 1] as int / 16
                                       else if k % 3 == 1 then v[g + 1] as int % 16 * 16 + v[g + 2] as int / 4
                                       else v[g + 2] as int % 4 * 64 + v[g + 3] as int)
  {
    if |v| >= 4 {
      hide FromSextets, Octet1, Octet2, Octet3;
      OctetsStep(v);
      OctetAt(v[4..], if k >= 3 then k - 3 else 0);
      if k >= 3 { NextFour(v, k); }
    }
  }

  lemma OctetsStep(v: seq<sextet>)
    requires |v| >= 4
    ensures var b, rest := FromSextets(v), FromSextets(v[4..]);
            && |b| == 3 + |rest|
            && b[0] as int == v[0] as int * 4 + v[1] as int / 16
            && b[1] as int == v[1] as int % 16 * 16 + v[2] as int / 4
            && b[2] as int == v[2] as int % 4 * 64 + v[3] as int
            && forall k :: 3 <= k < |b| ==> b[k] == rest[k - 3]
  {
  }

  /** What atob refuses: anything with a character that is no letter of its alphabet, white space or padding. */
  lemma BrowserRefuses(s: string, i: nat)
    requires i < |s| && s[i] !in "ABCDEFGHIJKLMNOPQRSTUVWXYZabcdefghijklmnopqrstuvwxyz0123456789-_+/= \t\n\r" && s[i] as int != 12
    ensures BrowserDecode(s).None?
  {
    var c := s[i];
    StrangeCharacter(c);
    NotDecoded(s, i);
  }

  lemma NotDecoded(s: string, i: nat)
    requires i < |s| && !InUrlAlphabet(s[i]) && !InStdAlphabet(s[i]) && s[i] != '=' && !IsAsciiSpace(s[i])
    ensures BrowserDecode(s).None?
  {
    hide InUrlAlphabet, InStdAlphabet, IsAsciiSpace, FromSextets, DropPad, DropSpaces;
    assert s[i] != '-' && s[i] != '_' by { DashesAreLetters(); }
    var c := s[i];
    var padded := ReplaceAll(ReplaceAll(s, '-', '+'), '_', '/');
    var t := padded + Pad((4 - |padded| % 4) % 4);
    assert t[i] == c;
    KeptBySpaces(t, i);
    var u := DropSpaces(t);
    var k :| 0 <= k < |u| && u[k] == c;
    KeptByPad(u, k);
  }

  lemma DashesAreLetters()
    ensures InUrlAlphabet('-') && InUrlAlphabet('_')
  {
  }

  lemma StrangeCharacter(c: char)
    requires c !in "ABCDEFGHIJKLMNOPQRSTUVWXYZabcdefghijklmnopqrstuvwxyz0123456789-_+/= \t\n\r" && c as int != 12
    ensures !InUrlAlphabet(c) && !InStdAlphabet(c) && c != '=' && !IsAsciiSpace(c)
  {
    var url, more := "ABCDEFGHIJKLMNOPQRSTUVWXYZabcdefghijklmnopqrstuvwxyz0123456789-_", "+/= \t\n\r";
    assert "ABCDEFGHIJKLMNOPQRSTUVWXYZabcdefghijklmnopqrstuvwxyz0123456789-_+/= \t\n\r" == url + more;
    assert c !in url && c !in more;
    AlphabetIs(c);
    assert more == ['+', '/', '=', ' ', '\t', '\n', '\r'];
  }

  lemma {:induction false} KeptBySpaces(s: string, i: nat)
    requires i < |s| && !IsAsciiSpace(s[i])
    ensures s[i] in DropSpaces(s)
  {
    if i > 0 { KeptBySpaces(s[1..], i - 1); }
  }

  lemma KeptByPad(s: string, k: nat)
    requires k < |s| && !InStdAlphabet(s[k]) && s[k] != '='
    ensures var t := DropPad(s); |t| % 4 == 1 || !StdText(t)
  {
    var t := DropPad(s);
    if k < |t| { assert t[k] == s[k]; }
  }

  // ── The two runtimes ─────────────────────────────────────────────────────

  function StdSymbol(n: sextet): (c: char)
    ensures InStdAlphabet(c) && StdValue(c) == n
  {
    if n < 26 then (n as int + 65) as char
    else if n < 52 then (n as int + 71) as char
    else if n < 62 then (n as int - 4) as char
    else if n == 62 then '+'
    else '/'
  }

  function StdValue(c: char): sextet
    requires InStdAlphabet(c)
  {
    if c == '+' then 62
    else if c == '/' then 63
    else if c <= '9' then c as int - '0' as int + 52
    else if c <= 'Z' then c as int - 'A' as int
    else c as int - 'a' as int + 26
  }

  function StdSymbols(v: seq<sextet>): (s: string)
    ensures |s| == |v| && forall i :: 0 <= i < |v| ==> s[i] == StdSymbol(v[i])
  {
    seq(|v|, i requires 0 <= i < |v| => StdSymbol(v[i]))
  }

  function StdValues(s: string): (v: seq<sextet>)
    requires StdText(s)
    ensures |v| == |s| && forall i :: 0 <= i < |s| ==> v[i] == StdValue(s[i])
  {
    seq(|s|, i requires 0 <= i < |s| => StdValue(s[i]))
  }

  function Pad(n: nat): (s: string)
    ensures |s| == n && forall i :: 0 <= i < n ==> s[i] == '='
  {
    seq(n, _ => '=')
  }

  /** One character per byte, as `String.fromCharCode` makes it. */
  function Binary(b: Octets): (s: string)
    ensures |s| == |b| && forall i :: 0 <= i < |b| ==> s[i] == b[i] as char
  {
    seq(|b|, i requires 0 <= i < |b| => b[i] as char)
  }

  predicate IsBinary(s: string) { forall i :: 0 <= i < |s| ==> s[i] as int < 256 }

  function CharCodes(s: string): (b: Octets)
    requires IsBinary(s)
    ensures |b| == |s| && forall i :: 0 <= i < |s| ==> b[i] == s[i] as int
  {
    seq<byte>(|s|, i requires 0 <= i < |s| => s[i] as int)
  }

  /** The platform's `btoa`: RFC 4648, section 4, with padding. */
  function Btoa(binary: string): string
    requires IsBinary(binary)
  {
    StdSymbols(Sextets(CharCodes(binary))) + Pad((3 - |binary| % 3) % 3)
  }

  predicate IsAsciiSpace(c: char) { c as int in {9, 10, 12, 13, 32} }

  function DropSpaces(s: string): string {
    if s == "" then ""
    else (if IsAsciiSpace(s[0]) then "" else [s[0]]) + DropSpaces(s[1..])
  }

  function DropPad(s: string): string {
    if |s| % 4 != 0 || s == "" || s[|s| - 1] != '=' then s
    else if s[|s| - 2] != '=' then s[..|s| - 1]
    else s[..|s| - 2]
  }

  /** The platform's `atob`, the forgiving-base64 decoding of the WHATWG Infra Standard. */
  function Atob(s: string): (r: Option<string>)
    ensures r.Some? ==> IsBinary(r.value)
  {
    var t := DropPad(DropSpaces(s));
    if |t| % 4 == 1 || !StdText(t) then None
    else Some(Binary(FromSextets(StdValues(t))))
  }

  /** `s.replace(/=+$/, '')`. */
  function StripPad(s: string): string {
    if s != "" && s[|s| - 1] == '=' then StripPad(s[..|s| - 1]) else s
  }

  /** What decodes text: Node's Buffer, whose answer to text outside the alphabet is left open, or atob. */
  datatype Runtime = Node(lenient: string -> Octets) | Browser

  function BrowserEncode(b: Octets): string {
    StripPad(ReplaceAll(ReplaceAll(Btoa(Binary(b)), '+', '-'), '/', '_'))
  }

  function BrowserDecode(s: string): Option<Octets> {
    var padded := ReplaceAll(ReplaceAll(s, '-', '+'), '_', '/');
    var binary := Atob(padded + Pad((4 - |padded| % 4) % 4));
    if binary.None? then None else Some(CharCodes(binary.value))
  }

  function FromText(rt: Runtime, s: string): Option<Octets> {
    if rt.Browser? then BrowserDecode(s)
    else Some(if UrlText(s) then Decode(s) else rt.lenient(s))
  }

  /** Either runtime writes the one spelling. */
  function ToText(rt: Runtime, b: Octets): (s: string)
    ensures s == Encode(b)
  {
    BrowserEncodes(b);
    if rt.Browser? then BrowserEncode(b) else Encode(b)
  }

  /** Either runtime reads the one spelling back. */
  lemma FromTextEncode(rt: Runtime, b: Octets)
    ensures FromText(rt, Encode(b)) == Some(b)
  {
    DecodeEncode(b);
    BrowserDecodes(Encode(b));
    EncodeDecodeIff(Encode(b));
  }

  lemma {:induction false} StripPadOf(s: string, n: nat)
    requires s == "" || s[|s| - 1] != '='
    ensures StripPad(s + Pad(n)) == s
  {
    if n > 0 {
      var t := s + Pad(n);
      StripPadOf(s, n - 1);
      assert t[|t| - 1] == '=' && t[..|t| - 1] == s + Pad(n - 1);
      assert StripPad(t) == StripPad(t[..|t| - 1]);
    } else {
      assert s + Pad(0) == s;
    }
  }

  /** Stripping the padding and renaming two symbols turns `btoa` into base64url. */
  lemma BrowserEncodes(b: Octets)
    ensures BrowserEncode(b) == Encode(b)
  {
    assert CharCodes(Binary(b)) == b;
    var n := (3 - |b| % 3) % 3;
    var t := ReplaceAll(ReplaceAll(Btoa(Binary(b)), '+', '-'), '/', '_');
    var v := Sextets(b);
    forall i | 0 <= i < |v| ensures t[i] == UrlSymbol(v[i]) {
      assert Btoa(Binary(b))[i] == StdSymbol(v[i]);
    }
    assert t == Encode(b) + Pad(n);
    StripPadOf(Encode(b), n);
  }

  lemma {:induction false} DropSpacesOf(s: string)
    requires forall i :: 0 <= i < |s| ==> !IsAsciiSpace(s[i])
    ensures DropSpaces(s) == s
  {
    if s != "" { DropSpacesOf(s[1..]); }
  }

  lemma DropPadOf(s: string)
    requires StdText(s)
    ensures var t := DropPad(s + Pad((4 - |s| % 4) % 4));
            if |s| % 4 == 1 then !StdText(t) else t == s
  {
    var n := (4 - |s| % 4) % 4;
    var t := s + Pad(n);
    assert |t| % 4 == 0;
    if n == 0 {
      assert t == s;
    } else if n == 3 {
      assert t[..|t| - 2][|s|] == '=';
    } else {
      assert t[..|s|] == s;
    }
  }

  /** The padding arithmetic serves every length but 4k + 1, which atob refuses. */
  lemma BrowserDecodes(s: string)
    requires UrlText(s)
    ensures BrowserDecode(s) == if |s| % 4 == 1 then None else Some(Decode(s))
  {
    hide Atob, ReplaceAll, FromSextets, InStdAlphabet, InUrlAlphabet, UrlValues, StdValues, Pad, CharCodes, Binary;
    var std := ReplaceAll(ReplaceAll(s, '-', '+'), '_', '/');
    SameValues(s);
    AtobOfPadded(std);
    CodesOfBinary(FromSextets(UrlValues(s)));
  }

  /** Renaming two symbols changes the alphabet and not the values. */
  lemma SameValues(s: string)
    requires UrlText(s)
    ensures var std := ReplaceAll(ReplaceAll(s, '-', '+'), '_', '/');
            |std| == |s| && StdText(std) && StdValues(std) == UrlValues(s)
  {
    var std := ReplaceAll(ReplaceAll(s, '-', '+'), '_', '/');
    forall i | 0 <= i < |s| ensures InStdAlphabet(std[i]) && StdValue(std[i]) == UrlValue(s[i]) {
      assert InUrlAlphabet(s[i]);
    }
  }

  lemma AtobOfPadded(std: string)
    requires StdText(std)
    ensures Atob(std + Pad((4 - |std| % 4) % 4))
            == if |std| % 4 == 1 then None else Some(Binary(FromSextets(StdValues(std))))
  {
    hide FromSextets, StdValues, InStdAlphabet, DropPad, DropSpaces, Binary;
    var t := std + Pad((4 - |std| % 4) % 4);
    forall i | 0 <= i < |t| ensures !IsAsciiSpace(t[i]) {
      if i < |std| { SymbolIsNoSpace(std[i]); }
    }
    DropSpacesOf(t);
    DropPadOf(std);
  }

  lemma SymbolIsNoSpace(c: char)
    requires InStdAlphabet(c)
    ensures !IsAsciiSpace(c)
  {
  }

  lemma CodesOfBinary(b: Octets)
    ensures CharCodes(Binary(b)) == b
  {
  }

  /** `strictB64url`. */
  function Strict(rt: Runtime, s: string): Option<Octets> {
    if s == "" || !UrlText(s) then None
    else
      var bytes := FromText(rt, s);
      if bytes.None? || ToText(rt, bytes.value) != s then None else bytes
  }

  /**
   * On either runtime the strict reader accepts exactly the non-empty outputs of
   * the writer, and returns the bytes they were written from.
   */
  lemma StrictIff(rt: Runtime, s: string, b: Octets)
    ensures Strict(rt, s) == Some(b) <==> b != [] && s == Encode(b)
  {
    EncodeEmptyIff(b);
    DecodeEncode(b);
    if UrlText(s) {
      BrowserDecodes(s);
      BrowserEncodes(Decode(s));
      EncodeEmptyIff(Decode(s));
      EncodeDecodeIff(s);
    }
  }

  lemma StrictGives(rt: Runtime, s: string)
    requires Strict(rt, s).Some?
    ensures Strict(rt, s).value != [] && s == Encode(Strict(rt, s).value)
  {
    hide Strict, Encode;
    StrictIff(rt, s, Strict(rt, s).value);
  }

  /** The accepted strings, told by their characters alone: no dropped bit is set. */
  lemma StrictAcceptsIff(rt: Runtime, s: string)
    ensures Strict(rt, s).Some? <==> s != "" && UrlText(s) && Canonical(UrlValues(s))
  {
    if UrlText(s) {
      EncodeDecodeIff(s);
      BrowserDecodes(s);
      BrowserEncodes(Decode(s));
    }
  }

  /** The two runtimes accept the same strings with the same bytes. */
  lemma RuntimesAgree(rt: Runtime, other: Runtime, s: string)
    ensures Strict(rt, s) == Strict(other, s)
  {
    hide Strict, Encode;
    var mine, theirs := Strict(rt, s), Strict(other, s);
    if mine.Some? {
      StrictIff(rt, s, mine.value);
      StrictIff(other, s, mine.value);
    } else if theirs.Some? {
      StrictIff(rt, s, theirs.value);
      StrictIff(other, s, theirs.value);
    }
  }

  method B64url(rt: Runtime, bytes: array<byte>) returns (s: string)
    ensures s == Encode(bytes[..])
  {
    if rt.Node? { return Encode(bytes[..]); }
    var binary := "";
    for i := 0 to bytes.Length
      invariant binary == Binary(bytes[..i])
    {
      binary := binary + [bytes[i] as char];
    }
    assert bytes[..bytes.Length] == bytes[..];
    BrowserEncodes(bytes[..]);
    return StripPad(ReplaceAll(ReplaceAll(Btoa(binary), '+', '-'), '/', '_'));
  }

  method FromB64url(rt: Runtime, str: string) returns (out: array?<byte>)
    ensures (if out == null then None else Some(out[..])) == FromText(rt, str)
    ensures out != null ==> fresh(out)
  {
    hide Atob, ReplaceAll, Pad, UrlText, Decode;
    if rt.Node? {
      var bytes := if UrlText(str) then Decode(str) else rt.lenient(str);
      out := new byte[|bytes|];
      forall i | 0 <= i < |bytes| { out[i] := bytes[i]; }
      assert out[..] == bytes;
      return;
    }
    var padded := ReplaceAll(ReplaceAll(str, '-', '+'), '_', '/');
    var binary := Atob(padded + Pad((4 - |padded| % 4) % 4));
    if binary.None? { return null; }
    var bytes := new byte[|binary.value|];
    for i := 0 to bytes.Length
      invariant forall j :: 0 <= j < i ==> bytes[j] == binary.value[j] as int
    {
      bytes[i] := binary.value[i] as int;
    }
    assert bytes[..] == CharCodes(binary.value);
    assert BrowserDecode(str) == Some(CharCodes(binary.value));
    return bytes;
  }
}
