/** Seed-form PKCS#8 (src/seed.js) and the expanded form (src/_native.node.js), after RFC 5958, section 2. */
module SeedPkcs8 {
  import opened Octet
  import opened Der

  datatype Params = Params(seedBytes: nat, publicKeyBytes: nat, secretKeyBytes: nat, oid: Octets)

  const NIST_ARC: Octets := [0x60, 0x86, 0x48, 0x01, 0x65, 0x03, 0x04]

  const SEED_ALGORITHMS := ["ML-DSA-65", "ML-DSA-87", "ML-KEM-768", "ML-KEM-1024"]

  function ParamsFor(alg: string): (p: Option<Params>)
    ensures p.Some? <==> alg in SEED_ALGORITHMS
    ensures p.Some? ==> |p.value.oid| == 9 && p.value.seedBytes in {32, 64}
    ensures p.Some? ==> p.value.seedBytes < p.value.secretKeyBytes
  {
    if alg == "ML-DSA-65" then Some(Params(32, 1952, 4032, NIST_ARC + [0x03, 0x12]))
    else if alg == "ML-DSA-87" then Some(Params(32, 2592, 4896, NIST_ARC + [0x03, 0x13]))
    else if alg == "ML-KEM-768" then Some(Params(64, 1184, 2400, NIST_ARC + [0x04, 0x02]))
    else if alg == "ML-KEM-1024" then Some(Params(64, 1568, 3168, NIST_ARC + [0x04, 0x03]))
    else None
  }

  /** The first listed algorithm with this identifier. */
  function AlgOfOid(oid: Octets): (alg: Option<string>)
    ensures alg.Some? ==> ParamsFor(alg.value).Some?
  {
    if oid == NIST_ARC + [0x03, 0x12] then Some("ML-DSA-65")
    else if oid == NIST_ARC + [0x03, 0x13] then Some("ML-DSA-87")
    else if oid == NIST_ARC + [0x04, 0x02] then Some("ML-KEM-768")
    else if oid == NIST_ARC + [0x04, 0x03] then Some("ML-KEM-1024")
    else None
  }

  lemma OidsDiffer()
    ensures forall alg :: ParamsFor(alg).Some? ==> AlgOfOid(ParamsFor(alg).value.oid) == Some(alg)
  {
    var a, b := NIST_ARC + [0x03, 0x12], NIST_ARC + [0x03, 0x13];
    var c, d := NIST_ARC + [0x04, 0x02], NIST_ARC + [0x04, 0x03];
    assert a[7] == b[7] == 0x03 && c[7] == d[7] == 0x04;
    assert a[8] == 0x12 && b[8] == 0x13 && c[8] == 0x02 && d[8] == 0x03;
  }

  function AlgorithmId(oid: Octets): Octets { Tlv(SEQUENCE, Tlv(OID, oid)) }

  function ExportSeedPkcs8(alg: string, seed: Octets): Result<Octets, Error> {
    var p := ParamsFor(alg);
    if p.None? then Err(Unsupported)
    else if |seed| != p.value.seedBytes then Err(WrongSeedLength)
    else
      Ok(Tlv(SEQUENCE, Tlv(INTEGER, [0x00]) + AlgorithmId(p.value.oid) + Tlv(OCTET_STRING, Tlv(SEED_CHOICE, seed))))
  }

  datatype Imported = Imported(alg: string, seed: Octets)

  /** The algorithm the key names, and the position of its privateKey field. */
  function ReadAlgorithm(buf: Octets): (r: Result<(string, nat), Error>)
    ensures r.Ok? ==> ParamsFor(r.value.0).Some?
  {
    var i0 :- ExpectTag(buf, 0, SEQUENCE);
    var outer :- ReadLength(buf, i0);
    var i1 :- ExpectTag(buf, outer.1, INTEGER);
    var version :- ReadLength(buf, i1);
    var i2 :- ExpectTag(buf, version.1 + version.0, SEQUENCE);
    var algId :- ReadLength(buf, i2);
    var i3 :- ExpectTag(buf, algId.1, OID);
    var oid :- ReadLength(buf, i3);
    var alg := AlgOfOid(Sub(buf, oid.1, oid.1 + oid.0));
    if alg.None? then Err(UnknownOid) else Ok((alg.value, algId.1 + algId.0))
  }

  function ReadSeed(buf: Octets, alg: string, i: nat): Result<Octets, Error>
    requires ParamsFor(alg).Some?
  {
    var i4 :- ExpectTag(buf, i, OCTET_STRING);
    var key :- ReadLength(buf, i4);
    if key.1 < |buf| && buf[key.1] == OCTET_STRING then Err(ExpandedForm)
    else if key.1 >= |buf| || buf[key.1] != SEED_CHOICE then Err(UnexpectedForm)
    else
      var seed :- ReadLength(buf, key.1 + 1);
      if seed.0 != ParamsFor(alg).value.seedBytes then Err(WrongSeedLength)
      else Ok(Sub(buf, seed.1, seed.1 + seed.0))
  }

  function Import(buf: Octets): Result<Imported, Error> {
    var alg :- ReadAlgorithm(buf);
    var seed :- ReadSeed(buf, alg.0, alg.1);
    Ok(Imported(alg.0, seed))
  }

  /** `importSeedPkcs8`, which moves one cursor through the buffer. */
  method ImportSeedPkcs8(buf: Octets) returns (r: Result<Imported, Error>)
    ensures r == Import(buf)
  {
    hide ExpectTag, ReadLength, Sub, ReadSeed;
    var rd := new Reader(buf);
    var ok := rd.Expect(SEQUENCE);
    if !ok { return Err(Malformed); }
    var length := rd.Length();
    if length.None? { return Err(Malformed); }
    ok := rd.Expect(INTEGER);
    if !ok { return Err(Malformed); }
    length := rd.Length();
    if length.None? { return Err(Malformed); }
    rd.i := rd.i + length.value;
    ok := rd.Expect(SEQUENCE);
    if !ok { return Err(Malformed); }
    length := rd.Length();
    if length.None? { return Err(Malformed); }
    var algIdEnd := rd.i + length.value;
    ok := rd.Expect(OID);
    if !ok { return Err(Malformed); }
    length := rd.Length();
    if length.None? { return Err(Malformed); }
    var alg := AlgOfOid(Sub(buf, rd.i, rd.i + length.value));
    rd.i := algIdEnd;
    if alg.None? { return Err(UnknownOid); }
    assert ReadAlgorithm(buf) == Ok((alg.value, rd.i));
    var seed := ReadPrivateKey(rd, alg.value);
    return match seed
           case Ok(value) => Ok(Imported(alg.value, value))
           case Err(error) => Err(error);
  }

  method ReadPrivateKey(rd: Reader, alg: string) returns (seed: Result<Octets, Error>)
    requires ParamsFor(alg).Some?
    modifies rd
    ensures seed == ReadSeed(rd.buf, alg, old(rd.i))
  {
    hide ExpectTag, ReadLength, Sub;
    var ok := rd.Expect(OCTET_STRING);
    if !ok { return Err(Malformed); }
    var length := rd.Length();
    if length.None? { return Err(Malformed); }
    if rd.i < |rd.buf| && rd.buf[rd.i] == OCTET_STRING { return Err(ExpandedForm); }
    if rd.i >= |rd.buf| || rd.buf[rd.i] != SEED_CHOICE { return Err(UnexpectedForm); }
    rd.i := rd.i + 1;
    length := rd.Length();
    if length.None? { return Err(Malformed); }
    if length.value != ParamsFor(alg).value.seedBytes { return Err(WrongSeedLength); }
    return Ok(Sub(rd.buf, rd.i, rd.i + length.value));
  }

  /** A tag and the octets of length `n`, in front of whatever comes next. */
  function Header(tag: byte, n: nat, next: Octets): Octets { [tag] + LengthOctets(n) + next }

  lemma TlvIsHeader(tag: byte, payload: Octets, rest: Octets)
    ensures Tlv(tag, payload) + rest == Header(tag, |payload|, payload + rest)
  {
  }

  /** Where a header stands, its tag is read and its length consumed. */
  lemma HeaderAt(buf: Octets, i: nat, tag: byte, n: nat, next: Octets)
    requires i <= |buf| && buf[i..] == Header(tag, n, next)
    ensures ExpectTag(buf, i, tag) == Ok(i + 1)
    ensures var k := i + 1 + |LengthOctets(n)|;
            && ReadLength(buf, i + 1) == Ok((Stored(n), k))
            && k <= |buf| && buf[k..] == next
  {
    var tail := buf[i..];
    var l := LengthOctets(n);
    assert buf[i] == tail[0] == tag;
    assert tail[1..1 + |l|] == l && tail[1 + |l|..] == next;
    assert buf[i + 1..i + 1 + |l|] == tail[1..1 + |l|];
    assert buf[i + 1 + |l|..] == tail[1 + |l|..];
    ReadLengthAt(buf, i + 1, n);
  }

  /** The head both forms share, in front of their privateKey field. */
  function Head(outer: nat, oid: Octets, key: Octets): Octets {
    Header(SEQUENCE, outer, Header(INTEGER, 1, [0x00] + Header(SEQUENCE, 11, Header(OID, 9, oid + key))))
  }

  lemma SkipBytes(buf: Octets, i: nat, skipped: Octets, next: Octets)
    requires i <= |buf| && buf[i..] == skipped + next
    ensures i + |skipped| <= |buf| && buf[i + |skipped|..] == next
    ensures Sub(buf, i, i + |skipped|) == skipped
  {
    assert (skipped + next)[|skipped|..] == next;
    assert buf[i + |skipped|..] == buf[i..][|skipped|..];
    assert buf[i..i + |skipped|] == buf[i..][..|skipped|];
  }

  /** The algorithm is recovered and the cursor is left at privateKey. */
  lemma HeadRead(alg: string, outer: nat, key: Octets)
    requires ParamsFor(alg).Some?
    ensures var buf := Head(outer, ParamsFor(alg).value.oid, key);
            var at := 1 + |LengthOctets(outer)| + 16;
            ReadAlgorithm(buf) == Ok((alg, at)) && at <= |buf| && buf[at..] == key
  {
    hide ExpectTag, ReadLength, AlgOfOid, Sub, Header, LengthOctets;
    var oid := ParamsFor(alg).value.oid;
    var inOid := oid + key;
    var inId := Header(OID, 9, inOid);
    var afterVersion := Header(SEQUENCE, 11, inId);
    var inOuter := Header(INTEGER, 1, [0x00] + afterVersion);
    var buf := Head(outer, oid, key);
    ShortLengths();
    assert buf[0..] == Header(SEQUENCE, outer, inOuter);
    HeaderAt(buf, 0, SEQUENCE, outer, inOuter);
    var k := 1 + |LengthOctets(outer)|;
    HeaderAt(buf, k, INTEGER, 1, [0x00] + afterVersion);
    SkipBytes(buf, k + 2, [0x00], afterVersion);
    HeaderAt(buf, k + 3, SEQUENCE, 11, inId);
    HeaderAt(buf, k + 5, OID, 9, inOid);
    SkipBytes(buf, k + 7, oid, key);
    OidsDiffer();
  }

  lemma ShortLengths()
    ensures forall n :: 0 <= n < 0x80 ==> |LengthOctets(n)| == 1 && Stored(n) == n
  {
  }

  function SeedField(n: nat, there: Octets): Octets {
    Header(OCTET_STRING, n + 2, Header(SEED_CHOICE, n, there))
  }

  lemma SubAt(buf: Octets, j: nat, n: nat)
    requires j <= |buf|
    ensures Sub(buf, j, j + n) == if |buf[j..]| <= n then buf[j..] else buf[j..][..n]
  {
    if |buf| - j > n { assert buf[j..j + n] == buf[j..][..n]; }
  }

  lemma HeaderStartsWithTag(tag: byte, n: nat, next: Octets)
    ensures var h := Header(tag, n, next); h != [] && h[0] == tag
  {
  }

  /** A seed field, whole or cut, is read as the bytes of it that are there. */
  lemma SeedFieldRead(buf: Octets, alg: string, at: nat, there: Octets)
    requires ParamsFor(alg).Some? && at <= |buf|
    requires buf[at..] == SeedField(ParamsFor(alg).value.seedBytes, there)
    ensures var n := ParamsFor(alg).value.seedBytes;
            ReadSeed(buf, alg, at) == Ok(if |there| <= n then there else there[..n])
  {
    hide ExpectTag, ReadLength, Header, LengthOctets, Stored, Sub;
    var n := ParamsFor(alg).value.seedBytes;
    ShortLengths();
    assert n + 2 < 0x80;
    HeaderStartsWithTag(SEED_CHOICE, n, there);
    HeaderAt(buf, at, OCTET_STRING, n + 2, Header(SEED_CHOICE, n, there));
    var k := at + 2;
    assert buf[k] == buf[k..][0] == SEED_CHOICE;
    HeaderAt(buf, k, SEED_CHOICE, n, there);
    var j := k + 2;
    SubAt(buf, j, n);
  }

  lemma ExportIsHead(alg: string, seed: Octets, rest: Octets)
    requires ParamsFor(alg).Some? && |seed| == ParamsFor(alg).value.seedBytes
    ensures ExportSeedPkcs8(alg, seed).value + rest
            == Head(|seed| + 20, ParamsFor(alg).value.oid, SeedField(|seed|, seed + rest))
  {
    hide Tlv, Header, LengthOctets;
    var n := |seed|;
    var oid := ParamsFor(alg).value.oid;
    var choice := Tlv(SEED_CHOICE, seed);
    var field := Tlv(OCTET_STRING, choice);
    ShortTlv(SEED_CHOICE, seed);
    ShortTlv(OCTET_STRING, choice);
    TlvIsHeader(SEED_CHOICE, seed, rest);
    TlvIsHeader(OCTET_STRING, choice, rest);
    BodyIsHead(oid, field, rest);
  }

  lemma ShortTlv(tag: byte, payload: Octets)
    ensures |payload| < 0x80 ==> |Tlv(tag, payload)| == |payload| + 2
  {
  }

  /** The encoding of a whole key, and what follows it, is a head in front of its privateKey field. */
  lemma BodyIsHead(oid: Octets, field: Octets, rest: Octets)
    requires |oid| == 9
    ensures var body := Tlv(INTEGER, [0x00]) + AlgorithmId(oid) + field;
            Tlv(SEQUENCE, body) + rest == Head(16 + |field|, oid, field + rest)
  {
    hide Tlv, Header, LengthOctets;
    var id := Tlv(OID, oid);
    var version, algId := Tlv(INTEGER, [0x00]), Tlv(SEQUENCE, id);
    var body := version + algId + field;
    ShortTlv(OID, oid);
    ShortTlv(SEQUENCE, id);
    ShortTlv(INTEGER, [0x00]);
    TlvIsHeader(OID, oid, field + rest);
    TlvIsHeader(SEQUENCE, id, field + rest);
    TlvIsHeader(INTEGER, [0x00], algId + (field + rest));
    assert body + rest == version + (algId + (field + rest));
    TlvIsHeader(SEQUENCE, body, rest);
  }

  lemma SeedKeyRead(alg: string, outer: nat, there: Octets)
    requires ParamsFor(alg).Some?
    ensures var n := ParamsFor(alg).value.seedBytes;
            Import(Head(outer, ParamsFor(alg).value.oid, SeedField(n, there)))
            == Ok(Imported(alg, if |there| <= n then there else there[..n]))
  {
    hide ReadAlgorithm, ReadSeed, Head, SeedField;
    var p := ParamsFor(alg).value;
    var key := SeedField(p.seedBytes, there);
    HeadRead(alg, outer, key);
    var buf := Head(outer, p.oid, key);
    SeedFieldRead(buf, alg, ReadAlgorithm(buf).value.1, there);
  }

  /** Every seed survives export and import, whatever bytes follow the key. */
  lemma SeedRoundTrip(alg: string, seed: Octets, rest: Octets)
    requires ParamsFor(alg).Some? && |seed| == ParamsFor(alg).value.seedBytes
    ensures ExportSeedPkcs8(alg, seed).Ok?
    ensures Import(ExportSeedPkcs8(alg, seed).value + rest) == Ok(Imported(alg, seed))
  {
    hide Import, Head, SeedField;
    ExportIsHead(alg, seed, rest);
    SeedKeyRead(alg, |seed| + 20, seed + rest);
    if |seed + rest| <= |seed| {
      assert seed + rest == seed;
    } else {
      assert (seed + rest)[..|seed|] == seed;
    }
  }

  /** Where an accepted key's seed begins: after the length octets of its seed field. */
  function SeedStart(buf: Octets): nat
    requires Import(buf).Ok?
  {
    var at := ReadAlgorithm(buf).value.1;
    var key := ReadLength(buf, ExpectTag(buf, at, OCTET_STRING).value).value.1;
    ReadLength(buf, key + 1).value.1
  }

  /** An accepted key carries a whole seed exactly when the buffer is long enough for one; otherwise its seed is what is left. */
  lemma WholeSeedIff(buf: Octets)
    requires Import(buf).Ok?
    ensures var v := Import(buf).value;
            var p := ParamsFor(v.alg);
            var start := SeedStart(buf);
            && p.Some? && |v.seed| <= p.value.seedBytes
            && (|v.seed| == p.value.seedBytes <==> start + p.value.seedBytes <= |buf|)
            && (start <= |buf| ==> start + |v.seed| <= |buf| && v.seed == buf[start..start + |v.seed|])
            && (|v.seed| < p.value.seedBytes ==> v.seed == if start <= |buf| then buf[start..] else [])
  {
    hide Import, SeedStart, Sub, ParamsFor;
    SeedIsSub(buf);
    SubIsThere(buf, SeedStart(buf), ParamsFor(Import(buf).value.alg).value.seedBytes);
  }

  lemma SeedIsSub(buf: Octets)
    requires Import(buf).Ok?
    ensures var v := Import(buf).value;
            var p := ParamsFor(v.alg);
            p.Some? && v.seed == Sub(buf, SeedStart(buf), SeedStart(buf) + p.value.seedBytes)
  {
    hide ReadAlgorithm, ReadLength, ExpectTag, Sub, ParamsFor;
  }

  lemma SubIsThere(buf: Octets, i: nat, n: nat)
    requires n > 0
    ensures var part := Sub(buf, i, i + n);
            && |part| <= n
            && (|part| == n <==> i + n <= |buf|)
            && (i <= |buf| ==> i + |part| <= |buf| && part == buf[i..i + |part|])
            && (|part| < n ==> part == if i <= |buf| then buf[i..] else [])
  {
  }

  lemma HeaderAppend(tag: byte, n: nat, next: Octets, more: Octets)
    ensures Header(tag, n, next) + more == Header(tag, n, next + more)
  {
  }

  lemma HeadAppend(outer: nat, oid: Octets, key: Octets, more: Octets)
    ensures Head(outer, oid, key) + more == Head(outer, oid, key + more)
  {
    hide Header;
    assert oid + key + more == oid + (key + more);
    HeaderAppend(OID, 9, oid + key, more);
    HeaderAppend(SEQUENCE, 11, Header(OID, 9, oid + key), more);
    var inner := Header(SEQUENCE, 11, Header(OID, 9, oid + key));
    assert [0x00] + inner + more == [0x00] + (inner + more);
    HeaderAppend(INTEGER, 1, [0x00] + inner, more);
    HeaderAppend(SEQUENCE, outer, Header(INTEGER, 1, [0x00] + inner), more);
  }

  /** The reader does not ask that the whole seed be there: a cut export imports as a shorter seed. */
  lemma CutExportImportsShort(alg: string, seed: Octets, cut: nat)
    requires ParamsFor(alg).Some? && |seed| == ParamsFor(alg).value.seedBytes && cut <= |seed|
    ensures var der := ExportSeedPkcs8(alg, seed).value;
            cut <= |der| && Import(der[..|der| - cut]) == Ok(Imported(alg, seed[..|seed| - cut]))
  {
    hide Import, Head, Header, Tlv;
    var n := |seed|;
    var oid := ParamsFor(alg).value.oid;
    var der := ExportSeedPkcs8(alg, seed).value;
    var kept, lost := seed[..n - cut], seed[n - cut..];
    ExportIsHead(alg, seed, []);
    assert der + [] == der && seed + [] == seed == kept + lost;
    HeaderAppend(SEED_CHOICE, n, kept, lost);
    HeaderAppend(OCTET_STRING, n + 2, Header(SEED_CHOICE, n, kept), lost);
    HeadAppend(n + 20, oid, SeedField(n, kept), lost);
    assert der == Head(n + 20, oid, SeedField(n, kept)) + lost;
    assert der[..|der| - cut] == Head(n + 20, oid, SeedField(n, kept));
    SeedKeyRead(alg, n + 20, kept);
  }

  /** What an export begins with: everything before its seed. */
  lemma ExportStart(alg: string, seed: Octets)
    requires ParamsFor(alg).Some? && |seed| == ParamsFor(alg).value.seedBytes
    ensures var der := ExportSeedPkcs8(alg, seed).value;
            && |der| == |seed| + 22
            && der[..9] == [0x30, |seed| + 20, 0x02, 0x01, 0x00, 0x30, 0x0b, 0x06, 0x09]
            && der[18..22] == [0x04, |seed| + 2, 0x80, |seed|]
  {
    hide Tlv, LengthOctets;
    var oid := ParamsFor(alg).value.oid;
    var choice := Tlv(SEED_CHOICE, seed);
    var field := Tlv(OCTET_STRING, choice);
    var id := Tlv(OID, oid);
    ShortTlvIs(SEED_CHOICE, seed);
    ShortTlvIs(OCTET_STRING, choice);
    ShortTlvIs(OID, oid);
    ShortTlvIs(SEQUENCE, id);
    ShortTlvIs(INTEGER, [0x00]);
    var body := Tlv(INTEGER, [0x00]) + AlgorithmId(oid) + field;
    ShortTlvIs(SEQUENCE, body);
    assert ExportSeedPkcs8(alg, seed).value == [0x30, |seed| + 20] + body;
  }

  lemma ShortTlvIs(tag: byte, payload: Octets)
    ensures |payload| < 0x80 ==> Tlv(tag, payload) == [tag, |payload|] + payload
  {
  }

  /** Cut before its seed, an export is not read at all. */
  lemma CutBeforeSeedRefused(alg: string, seed: Octets, k: nat)
    requires ParamsFor(alg).Some? && |seed| == ParamsFor(alg).value.seedBytes && k < 22
    ensures |ExportSeedPkcs8(alg, seed).value| >= 22 && Import(ExportSeedPkcs8(alg, seed).value[..k]).Err?
  {
    hide Tlv, ReadAlgorithm, ReadSeed;
    ExportStart(alg, seed);
    var der := ExportSeedPkcs8(alg, seed).value;
    var cut := der[..k];
    forall i | 0 <= i < k && i < 9 ensures cut[i] == der[..9][i] { }
    forall i | 18 <= i < k ensures cut[i] == der[18..22][i - 18] { }
    CutHead(cut, |seed| + 20);
    if ReadAlgorithm(cut).Ok? { CutSeedField(cut, ReadAlgorithm(cut).value.0, |seed|); }
  }

  lemma ShortLengthAt(buf: Octets, i: nat)
    ensures ReadLength(buf, i).Ok? ==> i < |buf|
    ensures i < |buf| && buf[i] < 0x80 ==> ReadLength(buf, i) == Ok((buf[i] as int, i + 1))
  {
  }

  /** However an export's head is cut, the privateKey field is looked for where it was. */
  lemma CutHead(cut: Octets, outer: byte)
    requires outer < 0x80
    requires var head := [0x30, outer, 0x02, 0x01, 0x00, 0x30, 0x0b, 0x06, 0x09];
             forall i :: 0 <= i < |cut| && i < 9 ==> cut[i] == head[i]
    ensures ReadAlgorithm(cut).Ok? ==> ReadAlgorithm(cut).value.1 == 18
  {
    hide ReadLength, AlgOfOid, Sub;
    ShortLengthAt(cut, 1);
    ShortLengthAt(cut, 3);
    ShortLengthAt(cut, 6);
    ShortLengthAt(cut, 8);
  }

  lemma CutSeedField(cut: Octets, alg: string, n: byte)
    requires ParamsFor(alg).Some? && n < 0x7e && |cut| < 22
    requires forall i :: 18 <= i < |cut| ==> cut[i] == [0x04, n + 2, 0x80, n][i - 18]
    ensures ReadSeed(cut, alg, 18).Err?
  {
    hide ReadLength, Sub, ParamsFor;
    ShortLengthAt(cut, 19);
    ShortLengthAt(cut, 21);
  }

  /**
   * Of all the prefixes of an export, those are imported that reach its seed,
   * and the whole export alone gives the seed back.
   */
  lemma PrefixImportsIff(alg: string, seed: Octets, k: nat)
    requires ParamsFor(alg).Some? && |seed| == ParamsFor(alg).value.seedBytes
    requires k <= |ExportSeedPkcs8(alg, seed).value|
    ensures var der := ExportSeedPkcs8(alg, seed).value;
            && (Import(der[..k]).Ok? <==> k + |seed| >= |der|)
            && (Import(der[..k]) == Ok(Imported(alg, seed)) <==> k == |der|)
  {
    hide Import, Tlv;
    var der := ExportSeedPkcs8(alg, seed).value;
    assert |der| == |seed| + 22 by { ExportStart(alg, seed); }
    if k < 22 {
      CutBeforeSeedRefused(alg, seed, k);
    } else {
      var cut := |der| - k;
      CutExportImportsShort(alg, seed, cut);
      assert |seed[..|seed| - cut]| == |seed| <==> cut == 0;
      if cut == 0 { assert seed[..|seed|] == seed; }
    }
  }

  /** The sets there are: lengths of seed, public key and expanded key, and the identifier below 2.16.840.1.101.3.4. */
  lemma ParamsMean(alg: string)
    ensures ParamsFor(alg)
            == if alg == "ML-DSA-65" then Some(Params(32, 1952, 4032, [0x60, 0x86, 0x48, 0x01, 0x65, 0x03, 0x04, 0x03, 0x12]))
               else if alg == "ML-DSA-87" then Some(Params(32, 2592, 4896, [0x60, 0x86, 0x48, 0x01, 0x65, 0x03, 0x04, 0x03, 0x13]))
               else if alg == "ML-KEM-768" then Some(Params(64, 1184, 2400, [0x60, 0x86, 0x48, 0x01, 0x65, 0x03, 0x04, 0x04, 0x02]))
               else if alg == "ML-KEM-1024" then Some(Params(64, 1568, 3168, [0x60, 0x86, 0x48, 0x01, 0x65, 0x03, 0x04, 0x04, 0x03]))
               else None
  {
    assert NIST_ARC + [0x03, 0x12] == [0x60, 0x86, 0x48, 0x01, 0x65, 0x03, 0x04, 0x03, 0x12];
    assert NIST_ARC + [0x03, 0x13] == [0x60, 0x86, 0x48, 0x01, 0x65, 0x03, 0x04, 0x03, 0x13];
    assert NIST_ARC + [0x04, 0x02] == [0x60, 0x86, 0x48, 0x01, 0x65, 0x03, 0x04, 0x04, 0x02];
    assert NIST_ARC + [0x04, 0x03] == [0x60, 0x86, 0x48, 0x01, 0x65, 0x03, 0x04, 0x04, 0x03];
  }

  /** Every byte of an export, for each of the four sets. */
  lemma ExportMeans(alg: string, seed: Octets)
    ensures ExportSeedPkcs8(alg, seed)
            == if alg != "ML-DSA-65" && alg != "ML-DSA-87" && alg != "ML-KEM-768" && alg != "ML-KEM-1024" then Err(Unsupported)
               else if |seed| != (if alg == "ML-DSA-65" || alg == "ML-DSA-87" then 32 else 64) then Err(WrongSeedLength)
               else
                 var oid: Octets := if alg == "ML-DSA-65" then [0x60, 0x86, 0x48, 0x01, 0x65, 0x03, 0x04, 0x03, 0x12]
                            else if alg == "ML-DSA-87" then [0x60, 0x86, 0x48, 0x01, 0x65, 0x03, 0x04, 0x03, 0x13]
                            else if alg == "ML-KEM-768" then [0x60, 0x86, 0x48, 0x01, 0x65, 0x03, 0x04, 0x04, 0x02]
                            else [0x60, 0x86, 0x48, 0x01, 0x65, 0x03, 0x04, 0x04, 0x03];
                 Ok([0x30, |seed| + 20, 0x02, 0x01, 0x00, 0x30, 0x0b, 0x06, 0x09] + oid
                    + [0x04, |seed| + 2, 0x80, |seed|] + seed)
  {
    hide ParamsFor;
    ParamsMean(alg);
    var p := ParamsFor(alg);
    if p.Some? && |seed| == p.value.seedBytes { ExportBytes(p.value.oid, seed); }
  }

  lemma ExportBytes(oid: Octets, seed: Octets)
    requires |oid| == 9 && |seed| <= 64
    ensures Tlv(SEQUENCE, Tlv(INTEGER, [0x00]) + AlgorithmId(oid) + Tlv(OCTET_STRING, Tlv(SEED_CHOICE, seed)))
            == [0x30, |seed| + 20, 0x02, 0x01, 0x00, 0x30, 0x0b, 0x06, 0x09] + oid + [0x04, |seed| + 2, 0x80, |seed|] + seed
  {
    hide Tlv, LengthOctets;
    var choice := Tlv(SEED_CHOICE, seed);
    var field := Tlv(OCTET_STRING, choice);
    var id := Tlv(OID, oid);
    ShortTlvIs(SEED_CHOICE, seed);
    ShortTlvIs(OCTET_STRING, choice);
    ShortTlvIs(OID, oid);
    ShortTlvIs(SEQUENCE, id);
    ShortTlvIs(INTEGER, [0x00]);
    var body := Tlv(INTEGER, [0x00]) + AlgorithmId(oid) + field;
    ShortTlvIs(SEQUENCE, body);
  }

  /**
   * What is imported, field by field: a SEQUENCE and an INTEGER that is skipped by
   * its length, a SEQUENCE with the identifier of one of the four sets, and, where
   * that one ends, an OCTET STRING with a seed field of the set's length in it.
   * Lengths of the outer two fields are read and not used.
   */
  lemma ImportMeans(buf: Octets, alg: string, seed: Octets)
    ensures Import(buf) == Ok(Imported(alg, seed)) <==>
            && 0 < |buf| && buf[0] == 0x30 && ReadLength(buf, 1).Ok?
            && var i1 := ReadLength(buf, 1).value.1;
            && i1 < |buf| && buf[i1] == 0x02 && ReadLength(buf, i1 + 1).Ok?
            && var i2 := ReadLength(buf, i1 + 1).value.1 + ReadLength(buf, i1 + 1).value.0;
            && i2 < |buf| && buf[i2] == 0x30 && ReadLength(buf, i2 + 1).Ok?
            && var i3 := ReadLength(buf, i2 + 1).value.1;
            && i3 < |buf| && buf[i3] == 0x06 && ReadLength(buf, i3 + 1).Ok?
            && var at := ReadLength(buf, i3 + 1).value.1;
            && ParamsFor(alg).Some? && Sub(buf, at, at + ReadLength(buf, i3 + 1).value.0) == ParamsFor(alg).value.oid
            && var i4 := i3 + ReadLength(buf, i2 + 1).value.0;
            && i4 < |buf| && buf[i4] == 0x04 && ReadLength(buf, i4 + 1).Ok?
            && var i5 := ReadLength(buf, i4 + 1).value.1;
            && i5 < |buf| && buf[i5] == 0x80 && ReadLength(buf, i5 + 1).Ok?
            && var i6 := ReadLength(buf, i5 + 1).value.1;
            && ReadLength(buf, i5 + 1).value.0 == ParamsFor(alg).value.seedBytes
            && seed == Sub(buf, i6, i6 + ParamsFor(alg).value.seedBytes)
  {
    hide ReadLength, Sub, ParamsFor, AlgOfOid;
    forall oid ensures AlgOfOid(oid) == Some(alg) <==> ParamsFor(alg).Some? && ParamsFor(alg).value.oid == oid { OidNames(oid, alg); }
  }

  lemma OidNames(oid: Octets, alg: string)
    ensures AlgOfOid(oid) == Some(alg) <==> ParamsFor(alg).Some? && ParamsFor(alg).value.oid == oid
  {
    OidsDiffer();
  }

  /** `subarray`, for positions that are not negative. */
  lemma SubMeans(buf: Octets, from: nat, to: nat)
    ensures Sub(buf, from, to) == if to <= from || |buf| <= from then [] else if to <= |buf| then buf[from..to] else buf[from..]
  {
  }

  /** `toPkcs8`: the expanded key as a bare OCTET STRING in the same place. */
  function ToPkcs8(algid: Octets, privateBytes: Octets): Octets {
    Tlv(SEQUENCE, [0x02, 0x01, 0x00] + algid + Tlv(OCTET_STRING, Tlv(OCTET_STRING, privateBytes)))
  }

  /** A key given is at the end of the expanded form, in two OCTET STRINGs, after the version and the identifier as given. */
  lemma ExpandedMeans(algid: Octets, privateBytes: Octets)
    ensures var inner := [0x04] + LengthOctets(|privateBytes|) + privateBytes;
            var body := [0x02, 0x01, 0x00] + algid + ([0x04] + LengthOctets(|inner|) + inner);
            ToPkcs8(algid, privateBytes) == [0x30] + LengthOctets(|body|) + body
  {
  }

  lemma ExpandedIsHead(oid: Octets, privateBytes: Octets, rest: Octets)
    requires |oid| == 9
    ensures exists outer, n ::
              ToPkcs8(AlgorithmId(oid), privateBytes) + rest
              == Head(outer, oid, Header(OCTET_STRING, n, Header(OCTET_STRING, |privateBytes|, privateBytes + rest)))
  {
    var inner := Tlv(OCTET_STRING, privateBytes);
    var field := Tlv(OCTET_STRING, inner);
    assert Tlv(INTEGER, [0x00]) == [0x02, 0x01, 0x00];
    hide Tlv, Header, LengthOctets, Head, AlgorithmId;
    TlvIsHeader(OCTET_STRING, privateBytes, rest);
    TlvIsHeader(OCTET_STRING, inner, rest);
    BodyIsHead(oid, field, rest);
  }

  /** A key in expanded form is refused as one, for every algorithm, every key and any bytes after it. */
  lemma ExpandedFormRefused(alg: string, privateBytes: Octets, rest: Octets)
    requires ParamsFor(alg).Some?
    ensures Import(ToPkcs8(AlgorithmId(ParamsFor(alg).value.oid), privateBytes) + rest) == Err(ExpandedForm)
  {
    hide ExpectTag, ReadLength, ReadAlgorithm, Head, ToPkcs8;
    var oid := ParamsFor(alg).value.oid;
    var buf := ToPkcs8(AlgorithmId(oid), privateBytes) + rest;
    var inner := Header(OCTET_STRING, |privateBytes|, privateBytes + rest);
    ExpandedIsHead(oid, privateBytes, rest);
    var outer, n :| buf == Head(outer, oid, Header(OCTET_STRING, n, inner));
    HeadRead(alg, outer, Header(OCTET_STRING, n, inner));
    var at := ReadAlgorithm(buf).value.1;
    HeaderAt(buf, at, OCTET_STRING, n, inner);
    var k := at + 1 + |LengthOctets(n)|;
    assert buf[k] == buf[k..][0] == OCTET_STRING;
  }

  /** `algorithmIdentifier`, on the exported bytes. */
  function AlgorithmIdentifier(pkcs8: Octets): Octets {
    var second := At(pkcs8, 1);
    var start: nat := if second >= 0x80 then 5 + second % 0x80 else 5;
    if start + 1 < |pkcs8| then Sub(pkcs8, start, start + 2 + pkcs8[start + 1]) else []
  }

  /**
   * The identifier a key was wrapped with is recovered exactly when its own
   * length fits one byte, whether the key's outer length is short or long.
   */
  lemma IdentifierRecoveredIff(algid: Octets, privateBytes: Octets)
    requires |algid| >= 2
    ensures AlgorithmIdentifier(ToPkcs8(algid, privateBytes)) == algid <==> |algid| == algid[1] as int + 2
  {
    hide Tlv, LengthOctets;
    var key := Tlv(OCTET_STRING, Tlv(OCTET_STRING, privateBytes));
    var body := [0x02, 0x01, 0x00] + algid + key;
    var buf := ToPkcs8(algid, privateBytes);
    var start := StartOfIdentifier(body);
    assert buf == Tlv(SEQUENCE, body);
    assert buf[start..] == body[3..] == algid + key;
    SkipBytes(buf, start, algid, key);
    assert buf[start + 1] == buf[start..][1] == algid[1];
    var n := algid[1] as int + 2;
    if |algid| > n {
      assert |Sub(buf, start, start + n)| < |algid|;
    } else if |algid| < n {
      TlvNotEmpty(OCTET_STRING, Tlv(OCTET_STRING, privateBytes));
      assert |Sub(buf, start, start + n)| > |algid|;
    }
  }

  lemma TlvNotEmpty(tag: byte, payload: Octets)
    ensures |Tlv(tag, payload)| > 0
  {
  }

  lemma StartOfIdentifier(body: Octets) returns (start: nat)
    requires |body| >= 3
    ensures var buf := Tlv(SEQUENCE, body);
            && start == (if At(buf, 1) >= 0x80 then 5 + At(buf, 1) % 0x80 else 5)
            && start <= |buf| && buf[start..] == body[3..]
  {
    start := 1 + |LengthOctets(|body|)| + 3;
  }
}
