/** DER tags and lengths as src/seed.js and src/_native.node.js write and read them (X.690, sections 8.1.3 and 10.1). */
module Der {
  import opened Octet

  const SEQUENCE: byte := 0x30
  const INTEGER: byte := 0x02
  const OCTET_STRING: byte := 0x04
  const OID: byte := 0x06
  const SEED_CHOICE: byte := 0x80

  /** The length octets once the numbers are stored as bytes: at most two bytes of length survive. */
  function LengthOctets(n: nat): (r: Octets)
    ensures 1 <= |r| <= 3
  {
    if n < 0x80 then [n]
    else if n < 0x100 then [0x81, n]
    else [0x82, n / 0x100 % 0x100, n % 0x100]
  }

  function Tlv(tag: byte, payload: Octets): Octets {
    [tag] + LengthOctets(|payload|) + payload
  }

  datatype Error = Malformed | UnknownOid | ExpandedForm | UnexpectedForm | WrongSeedLength | Unsupported

  /** `subarray`: positions beyond the end are moved back to it. */
  function Sub(buf: Octets, from: int, to: int): Octets {
    var lo := if from < 0 then 0 else if from > |buf| then |buf| else from;
    var hi := if to < 0 then 0 else if to > |buf| then |buf| else to;
    if hi < lo then [] else buf[lo..hi]
  }

  /** Reading past the end gives no byte; in arithmetic it counts as zero. */
  function At(buf: Octets, i: nat): int { if i < |buf| then buf[i] else 0 }

  function Accumulate(buf: Octets, i: nat, count: nat, acc: nat): nat
    decreases count
  {
    if count == 0 then acc else Accumulate(buf, i + 1, count - 1, acc * 0x100 + At(buf, i))
  }

  /** The length at position `i`, and the position after it. */
  function ReadLength(buf: Octets, i: nat): Result<(nat, nat), Error> {
    if i >= |buf| then Err(Malformed)
    else if buf[i] < 0x80 then Ok((buf[i], i + 1))
    else
      var count := buf[i] % 0x80;
      if count == 0 || count > 3 then Err(Malformed)
      else Ok((Accumulate(buf, i + 1, count, 0), i + 1 + count))
  }

  /** The position after an expected tag. */
  function ExpectTag(buf: Octets, i: nat, tag: byte): Result<nat, Error> {
    if i < |buf| && buf[i] == tag then Ok(i + 1) else Err(Malformed)
  }

  /** What is left of a length after it is written in at most two bytes. */
  function Stored(n: nat): nat { if n < 0x100 then n else n % 0x1_0000 }

  /** Wherever length octets stand, they are consumed whole and give the stored length. */
  lemma ReadLengthAt(buf: Octets, i: nat, n: nat)
    requires i + |LengthOctets(n)| <= |buf| && buf[i..i + |LengthOctets(n)|] == LengthOctets(n)
    ensures ReadLength(buf, i) == Ok((Stored(n), i + |LengthOctets(n)|))
  {
    var l := LengthOctets(n);
    assert buf[i] == l[0];
    if n >= 0x80 {
      assert buf[i + 1] == l[1];
      if n >= 0x100 {
        assert buf[i + 2] == l[2];
        assert Accumulate(buf, i + 1, 2, 0) == Accumulate(buf, i + 2, 1, l[1]) == l[1] as int * 0x100 + l[2];
        assert n % 0x1_0000 == n / 0x100 % 0x100 * 0x100 + n % 0x100;
      } else {
        assert Accumulate(buf, i + 1, 1, 0) == n;
      }
    }
  }

  /** Reading undoes writing exactly for lengths that fit in two bytes. */
  lemma LengthRoundTripIff(n: nat, before: Octets, after: Octets)
    ensures ReadLength(before + LengthOctets(n) + after, |before|) == Ok((n, |before| + |LengthOctets(n)|))
            <==> n < 0x1_0000
  {
    ReadLengthAt(before + LengthOctets(n) + after, |before|, n);
  }

  /** An encoding tells where it ends: whatever follows, tag, payload and rest are fixed by the text. */
  lemma SelfDelimiting(t1: byte, p1: Octets, r1: Octets, t2: byte, p2: Octets, r2: Octets)
    requires |p1| < 0x1_0000 && |p2| < 0x1_0000
    requires Tlv(t1, p1) + r1 == Tlv(t2, p2) + r2
    ensures t1 == t2 && p1 == p2 && r1 == r2
  {
    hide LengthOctets, ReadLength, Tlv;
    Parts(t1, p1, r1);
    Parts(t2, p2, r2);
  }

  /** Everything an encoding holds, read off any text that begins with it. */
  lemma Parts(tag: byte, payload: Octets, rest: Octets)
    requires |payload| < 0x1_0000
    ensures var buf := Tlv(tag, payload) + rest;
            var k := 1 + |LengthOctets(|payload|)|;
            && buf[0] == tag
            && ReadLength(buf, 1) == Ok((|payload|, k))
            && k + |payload| <= |buf| && buf[k..k + |payload|] == payload && buf[k + |payload|..] == rest
  {
    hide LengthOctets, ReadLength;
    var l := LengthOctets(|payload|);
    var buf := Tlv(tag, payload) + rest;
    assert buf == [tag] + l + payload + rest;
    assert buf[1..1 + |l|] == l;
    ReadLengthAt(buf, 1, |payload|);
  }

  /** A length below 128 is one octet, below 256 follows 0x81, and otherwise its last two bytes follow 0x82, high byte first. */
  lemma LengthMeans(n: nat)
    ensures LengthOctets(n) == if n < 128 then [n] else if n < 256 then [129, n] else [130, n / 256 % 256, n % 256]
    ensures forall tag, payload :: |payload| == n ==> Tlv(tag, payload) == [tag] + LengthOctets(n) + payload
  {
  }

  /** A length is read from one octet below 128, or from the one to three octets, high byte first, that a longer form announces. */
  lemma ReadLengthMeans(buf: Octets, i: nat)
    ensures var r := ReadLength(buf, i);
            if i >= |buf| then r == Err(Malformed)
            else if buf[i] < 128 then r == Ok((buf[i] as int, i + 1))
            else if buf[i] == 129 then r == Ok((At(buf, i + 1), i + 2))
            else if buf[i] == 130 then r == Ok((At(buf, i + 1) * 256 + At(buf, i + 2), i + 3))
            else if buf[i] == 131 then r == Ok((At(buf, i + 1) * 65536 + At(buf, i + 2) * 256 + At(buf, i + 3), i + 4))
            else r == Err(Malformed)
    ensures forall k: nat :: At(buf, k) == if k < |buf| then buf[k] as int else 0
  {
    if i < |buf| && 129 <= buf[i] <= 131 {
      var a, b := At(buf, i + 1), At(buf, i + 2);
      assert Accumulate(buf, i + 1, 1, 0) == Accumulate(buf, i + 2, 0, a) == a;
      assert Accumulate(buf, i + 1, 2, 0) == Accumulate(buf, i + 2, 1, a) == Accumulate(buf, i + 3, 0, a * 256 + b);
      assert Accumulate(buf, i + 1, 3, 0) == Accumulate(buf, i + 2, 2, a) == Accumulate(buf, i + 3, 1, a * 256 + b);
    }
  }

  /** The cursor `importSeedPkcs8` and its helpers share. */
  class Reader {
    const buf: Octets
    var i: nat

    constructor (buf: Octets)
      ensures this.buf == buf && i == 0
    {
      this.buf := buf;
      i := 0;
    }

    method Expect(tag: byte) returns (ok: bool)
      modifies this
      ensures ExpectTag(buf, old(i), tag) == if ok then Ok(i) else Err(Malformed)
    {
      if i >= |buf| || buf[i] != tag { return false; }
      i := i + 1;
      return true;
    }

    method Length() returns (length: Option<nat>)
      modifies this
      ensures ReadLength(buf, old(i)) == if length.Some? then Ok((length.value, i)) else Err(Malformed)
    {
      if i >= |buf| {
        i := i + 1;
        return None;
      }
      var first := buf[i];
      i := i + 1;
      if first < 0x80 { return Some(first); }
      var count := first % 0x80;
      if count == 0 || count > 3 { return None; }
      var value: nat := 0;
      ghost var start := i;
      for n := 0 to count
        invariant i == start + n
        invariant Accumulate(buf, start, count, 0) == Accumulate(buf, i, count - n, value)
      {
        value := value * 0x100 + At(buf, i);
        i := i + 1;
      }
      return Some(value);
    }
  }
}
