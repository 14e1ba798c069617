/**
 * Equality by accumulated differences: `bytesEqual` in src/seed.js, `equal` in
 * src/fips/module.js and `constTimeEqualStrings` in src/webhook.js.
 */
module ConstTime {
  import opened Octet

  function Pow2(n: nat): nat { if n == 0 then 1 else 2 * Pow2(n - 1) }

  /** `a ^ b` on numbers of `bits` bits. */
  function Xor(a: nat, b: nat, bits: nat): nat {
    if bits == 0 then 0 else 2 * Xor(a / 2, b / 2, bits - 1) + (if a % 2 == b % 2 then 0 else 1)
  }

  /** `a | b` on numbers of `bits` bits. */
  function Or(a: nat, b: nat, bits: nat): nat {
    if bits == 0 then 0 else 2 * Or(a / 2, b / 2, bits - 1) + (if a % 2 == 0 && b % 2 == 0 then 0 else 1)
  }

  lemma {:induction false} XorZeroIff(a: nat, b: nat, bits: nat)
    requires a < Pow2(bits) && b < Pow2(bits)
    ensures Xor(a, b, bits) == 0 <==> a == b
    ensures Xor(a, b, bits) < Pow2(bits)
  {
    if bits > 0 { XorZeroIff(a / 2, b / 2, bits - 1); }
  }

  lemma {:induction false} OrZeroIff(a: nat, b: nat, bits: nat)
    requires a < Pow2(bits) && b < Pow2(bits)
    ensures Or(a, b, bits) == 0 <==> a == 0 && b == 0
    ensures Or(a, b, bits) < Pow2(bits)
  {
    if bits > 0 { OrZeroIff(a / 2, b / 2, bits - 1); }
  }

  /** Accumulating one more difference. */
  lemma OneMore(diff: nat, a: nat, b: nat, bits: nat)
    requires diff < Pow2(bits) && a < Pow2(bits) && b < Pow2(bits)
    ensures var d := Or(diff, Xor(a, b, bits), bits);
            d < Pow2(bits) && (d == 0 <==> diff == 0 && a == b)
  {
    XorZeroIff(a, b, bits);
    OrZeroIff(diff, Xor(a, b, bits), bits);
  }

  method BytesEqual(a: array<byte>, b: array<byte>) returns (same: bool)
    ensures same <==> a[..] == b[..]
  {
    hide Pow2, Xor, Or;
    if a.Length != b.Length {
      assert |a[..]| != |b[..]|;
      return false;
    }
    BitsOfBytes();
    var diff: nat := 0;
    for i := 0 to a.Length
      invariant diff < Pow2(8)
      invariant diff == 0 <==> a[..i] == b[..i]
    {
      OneMore(diff, a[i], b[i], 8);
      assert a[..i + 1] == a[..i] + [a[i]] && b[..i + 1] == b[..i] + [b[i]];
      diff := Or(diff, Xor(a[i], b[i], 8), 8);
    }
    assert a[..a.Length] == a[..] && b[..b.Length] == b[..];
    return diff == 0;
  }

  lemma BitsOfBytes()
    ensures Pow2(8) == 0x100 && Pow2(21) == 0x20_0000
  {
  }

  /** The codes of characters have at most 21 bits. */
  method StringsEqual(a: string, b: string) returns (same: bool)
    ensures same <==> a == b
  {
    hide Pow2, Xor, Or;
    if |a| != |b| { return false; }
    BitsOfBytes();
    var diff: nat := 0;
    for i := 0 to |a|
      invariant diff < Pow2(21)
      invariant diff == 0 <==> a[..i] == b[..i]
    {
      OneMore(diff, a[i] as int, b[i] as int, 21);
      assert a[..i + 1] == a[..i] + [a[i]] && b[..i + 1] == b[..i] + [b[i]];
      diff := Or(diff, Xor(a[i] as int, b[i] as int, 21), 21);
    }
    assert a[..|a|] == a && b[..|b|] == b;
    return diff == 0;
  }
}
