/** src/webhook.js: one envelope under two signatures, and the window it is accepted in. */
module Webhook {
  import opened Octet
  import ConstTime
  import Hex
  import Jws
  import MlDsa

  /** The clock gives seconds; `utf8` is TextEncoder, `hmac` HMAC-SHA-256. */
  datatype Env = Env(utf8: string -> Octets, hmac: (Octets, Octets) -> Octets, suite: MlDsa.Suite)

  predicate IsAscii(s: string) { forall i :: 0 <= i < |s| ==> s[i] as int < 0x80 }

  function AsciiCodes(s: string): (b: Octets)
    requires IsAscii(s)
    ensures |b| == |s| && forall i :: 0 <= i < |s| ==> b[i] == s[i] as int
  {
    seq<byte>(|s|, i requires 0 <= i < |s| => s[i] as int)
  }

  /** UTF-8 writes a character below 128 as itself, and text piece by piece. */
  ghost predicate Utf8OnAscii(utf8: string -> Octets) {
    && (forall s :: IsAscii(s) ==> utf8(s) == AsciiCodes(s))
    && (forall s, t :: utf8(s + t) == utf8(s) + utf8(t))
  }

  function Envelope(env: Env, timestamp: string, rawBody: Octets): Octets {
    env.utf8(timestamp + ".") + rawBody
  }

  method BuildEnvelope(env: Env, timestamp: string, rawBody: Octets) returns (out: array<byte>)
    ensures fresh(out) && out[..] == Envelope(env, timestamp, rawBody)
  {
    var prefix := env.utf8(timestamp + ".");
    out := new byte[|prefix| + |rawBody|];
    forall i | 0 <= i < |prefix| { out[i] := prefix[i]; }
    forall i | 0 <= i < |rawBody| { out[|prefix| + i] := rawBody[i]; }
    assert out[..|prefix|] == prefix && out[|prefix|..] == rawBody;
  }

  predicate IsDigit(c: char) { '0' <= c <= '9' }

  /** `/^[0-9]+$/`. */
  predicate Digits(s: string) { s != "" && forall i :: 0 <= i < |s| ==> IsDigit(s[i]) }

  /** With digits-only timestamps the first dot is where the body starts, so an envelope has one reading. */
  lemma EnvelopeInjective(env: Env, t1: string, b1: Octets, t2: string, b2: Octets)
    requires Utf8OnAscii(env.utf8) && Digits(t1) && Digits(t2)
    requires Envelope(env, t1, b1) == Envelope(env, t2, b2)
    ensures t1 == t2 && b1 == b2
  {
    var e1, e2 := Envelope(env, t1, b1), Envelope(env, t2, b2);
    var p1, p2 := AsciiCodes(t1 + "."), AsciiCodes(t2 + ".");
    assert env.utf8(t1 + ".") == p1 && env.utf8(t2 + ".") == p2;
    assert e1 == p1 + b1 && e2 == p2 + b2;
    assert e1[|t1|] == '.' as int && e2[|t2|] == '.' as int;
    forall i | 0 <= i < |t1| ensures e1[i] == t1[i] as int && e1[i] != '.' as int { assert (t1 + ".")[i] == t1[i]; }
    forall i | 0 <= i < |t2| ensures e2[i] == t2[i] as int && e2[i] != '.' as int { assert (t2 + ".")[i] == t2[i]; }
    assert |t1| == |t2|;
    forall i | 0 <= i < |t1| ensures t1[i] == t2[i] {
      assert e1[i] == t1[i] as int && e2[i] == t2[i] as int;
    }
    assert b1 == e1[|t1| + 1..] && b2 == e2[|t2| + 1..];
  }

  /** UTF-8 writes a character from 128 on in bytes from 128 on. */
  ghost predicate Utf8Beyond(utf8: string -> Octets) {
    forall c: char :: c as int >= 0x80 ==> forall b :: b in utf8([c]) ==> b >= 0x80
  }

  lemma {:induction false} DotByteIsDot(utf8: string -> Octets, s: string)
    requires Utf8OnAscii(utf8) && Utf8Beyond(utf8)
    ensures '.' as int in utf8(s) <==> '.' in s
  {
    if s == "" {
      assert utf8("") == AsciiCodes("");
    } else {
      var first, rest := s[..1], s[1..];
      DotByteIsDot(utf8, rest);
      assert s == first + rest;
      assert utf8(s) == utf8(first) + utf8(rest);
      assert first == [s[0]];
      if s[0] as int < 0x80 { assert utf8(first) == AsciiCodes(first) == [s[0] as int]; }
    }
  }

  lemma EnvelopeBytes(env: Env, timestamp: string, rawBody: Octets)
    requires Utf8OnAscii(env.utf8)
    ensures Envelope(env, timestamp, rawBody) == env.utf8(timestamp) + ['.' as int] + rawBody
  {
    assert env.utf8(".") == AsciiCodes(".") == ['.' as int];
  }

  /** Another reading of an envelope, with a shorter timestamp. */
  ghost predicate Rereads(env: Env, timestamp: string, rawBody: Octets, timestamp': string, rawBody': Octets) {
    && Envelope(env, timestamp', rawBody') == Envelope(env, timestamp, rawBody)
    && |env.utf8(timestamp')| < |env.utf8(timestamp)|
  }

  /**
   * A dot is all the digits-only rule has to keep out: an envelope can be read
   * with a shorter timestamp exactly when its own timestamp holds a dot.
   */
  lemma ShorterReadingIff(env: Env, timestamp: string, rawBody: Octets)
    requires Utf8OnAscii(env.utf8) && Utf8Beyond(env.utf8)
    ensures (exists timestamp', rawBody' :: Rereads(env, timestamp, rawBody, timestamp', rawBody')) <==> '.' in timestamp
  {
    if '.' in timestamp {
      var i :| 0 <= i < |timestamp| && timestamp[i] == '.';
      var head, tail := timestamp[..i], timestamp[i + 1..];
      assert timestamp == head + "." + tail;
      DottedTimestampAmbiguous(env, head, tail, rawBody);
      EnvelopeBytes(env, head, []);
      assert env.utf8(timestamp) == env.utf8(head + ".") + env.utf8(tail);
      assert Rereads(env, timestamp, rawBody, head, env.utf8(tail + ".") + rawBody);
    }
    forall timestamp', rawBody' | Rereads(env, timestamp, rawBody, timestamp', rawBody') ensures '.' in timestamp {
      EnvelopeBytes(env, timestamp, rawBody);
      EnvelopeBytes(env, timestamp', rawBody');
      var at := |env.utf8(timestamp')|;
      assert env.utf8(timestamp)[at] == Envelope(env, timestamp, rawBody)[at] == '.' as int;
      DotByteIsDot(env.utf8, timestamp);
    }
  }

  /** So two readings without a dot are one: the same timestamp bytes and the same body. */
  lemma DotFreeReadingIsOnly(env: Env, t1: string, b1: Octets, t2: string, b2: Octets)
    requires Utf8OnAscii(env.utf8) && Utf8Beyond(env.utf8) && '.' !in t1 && '.' !in t2
    requires Envelope(env, t1, b1) == Envelope(env, t2, b2)
    ensures env.utf8(t1) == env.utf8(t2) && b1 == b2
  {
    ShorterReadingIff(env, t1, b1);
    ShorterReadingIff(env, t2, b2);
    assert !Rereads(env, t1, b1, t2, b2) && !Rereads(env, t2, b2, t1, b1);
    EnvelopeBytes(env, t1, b1);
    EnvelopeBytes(env, t2, b2);
    var e, n := Envelope(env, t1, b1), |env.utf8(t1)|;
    assert e[..n] == env.utf8(t1) && e[..n] == env.utf8(t2);
    assert e[n + 1..] == b1 && e[n + 1..] == b2;
  }

  /** What follows a dot in a timestamp can be read as the start of a body. */
  lemma DottedTimestampAmbiguous(env: Env, head: string, tail: string, body: Octets)
    requires Utf8OnAscii(env.utf8)
    ensures Envelope(env, head + "." + tail, body) == Envelope(env, head, env.utf8(tail + ".") + body)
  {
    assert head + "." + tail + "." == (head + ".") + (tail + ".");
  }

  /** The shared secret, as bytes or as text. */
  datatype Secret = SecretBytes(bytes: Octets) | SecretText(text: string)

  function HmacKey(env: Env, secret: Secret): Octets {
    match secret
    case SecretBytes(bytes) => bytes
    case SecretText(text) => env.utf8(text)
  }

  function Mac(env: Env, secret: Secret, message: Octets): Octets { env.hmac(HmacKey(env, secret), message) }

  function HmacHex(env: Env, secret: Secret, timestamp: string, rawBody: Octets): string {
    Hex.Print(Mac(env, secret, Envelope(env, timestamp, rawBody)))
  }

  predicate StartsWith(s: string, prefix: string) { prefix <= s }

  const HMAC_PREFIX := "sha256="

  method VerifyHmac(env: Env, secret: Secret, timestamp: string, rawBody: Octets, sigHeader: string) returns (ok: bool)
    ensures ok <==> HmacHolds(env, secret, timestamp, rawBody, sigHeader)
  {
    var built := BuildEnvelope(env, timestamp, rawBody);
    var mac := Mac(env, secret, built[..]);
    var bytes := new byte[|mac|];
    forall i | 0 <= i < |mac| { bytes[i] := mac[i]; }
    assert bytes[..] == mac;
    var hex := Hex.BytesToHex(bytes);
    var expected := HMAC_PREFIX + hex;
    var given := if StartsWith(sigHeader, HMAC_PREFIX) then sigHeader else HMAC_PREFIX + sigHeader;
    ok := ConstTime.StringsEqual(expected, given);
    assert expected[|HMAC_PREFIX|..] == hex;
  }

  /** The header is the MAC of the envelope in hex, with or without its prefix. */
  predicate HmacHolds(env: Env, secret: Secret, timestamp: string, rawBody: Octets, sigHeader: string) {
    var hex := HmacHex(env, secret, timestamp, rawBody);
    sigHeader == HMAC_PREFIX + hex || (sigHeader == hex && !StartsWith(sigHeader, HMAC_PREFIX))
  }

  const PREFIX_65 := "ml-dsa-65="
  const PREFIX_87 := "ml-dsa-87="

  function PqSign(env: Env, secretKey: Octets, timestamp: string, rawBody: Octets): Option<string> {
    var is87 := |secretKey| == 4896;
    var sig := MlDsa.Sign(env.suite, if is87 then "ML-DSA-87" else "ML-DSA-65", secretKey,
                          Envelope(env, timestamp, rawBody));
    if sig.None? then None else Some((if is87 then PREFIX_87 else PREFIX_65) + sig.value)
  }

  function VerifyPq(env: Env, publicKey: Octets, timestamp: string, rawBody: Octets, sigHeader: string): bool {
    var is87 := |publicKey| == 2592;
    if !is87 && |publicKey| != 1952 then false
    else
      var alg := if is87 then "ML-DSA-87" else "ML-DSA-65";
      var prefix := if is87 then PREFIX_87 else PREFIX_65;
      var message := Envelope(env, timestamp, rawBody);
      if StartsWith(sigHeader, prefix)
      then MlDsa.Verify(env.suite, alg, publicKey, message, MlDsa.Text(sigHeader[|prefix|..]))
      else if is87 then false
      else MlDsa.Verify(env.suite, alg, publicKey, message, MlDsa.Text(sigHeader))
  }

  /** A header that names one set never verifies under a key of the other. */
  lemma OtherSetNeverVerifies(env: Env, publicKey: Octets, timestamp: string, rawBody: Octets, hex: string)
    ensures |publicKey| == 1952 ==> !VerifyPq(env, publicKey, timestamp, rawBody, PREFIX_87 + hex)
    ensures |publicKey| == 2592 ==> !VerifyPq(env, publicKey, timestamp, rawBody, PREFIX_65 + hex)
    ensures |publicKey| != 1952 && |publicKey| != 2592 ==> !VerifyPq(env, publicKey, timestamp, rawBody, hex)
  {
    var h87, h65 := PREFIX_87 + hex, PREFIX_65 + hex;
    assert h87[7] == '8' && h65[7] == '6' && PREFIX_87[7] == '8' && PREFIX_65[7] == '6';
    assert h87[0] == 'm' && !Hex.IsHexDigit('m');
  }

  /** The readings of a signature header a key admits: its own prefix or, for ML-DSA-65 alone, none. */
  predicate Admits(publicKey: Octets, sigHeader: string, alg: string, hex: string) {
    || (|publicKey| == 2592 && alg == "ML-DSA-87" && sigHeader == PREFIX_87 + hex)
    || (|publicKey| == 1952 && alg == "ML-DSA-65" && (sigHeader == PREFIX_65 + hex || sigHeader == hex))
  }

  lemma PrefixIsNotHex(s: string)
    requires StartsWith(s, PREFIX_65)
    ensures !Hex.IsHex(s)
  {
    assert s[0] == 'm' && !Hex.IsHexDigit('m');
  }

  lemma NotHexNotVerified(env: Env, alg: string, publicKey: Octets, message: Octets, hex: string)
    requires !Hex.IsHex(hex)
    ensures !MlDsa.Verify(env.suite, alg, publicKey, message, MlDsa.Text(hex))
  {
  }

  lemma DropPrefix(prefix: string, hex: string)
    ensures StartsWith(prefix + hex, prefix) && (prefix + hex)[|prefix|..] == hex
  {
  }

  /** A true answer means a reading the key admits whose signature verifies, and the other way round. */
  lemma VerifyPqIff(env: Env, publicKey: Octets, timestamp: string, rawBody: Octets, sigHeader: string)
    ensures VerifyPq(env, publicKey, timestamp, rawBody, sigHeader) <==>
            exists alg, hex :: Admits(publicKey, sigHeader, alg, hex)
              && MlDsa.Verify(env.suite, alg, publicKey, Envelope(env, timestamp, rawBody), MlDsa.Text(hex))
  {
    hide MlDsa.Verify, Envelope;
    var message := Envelope(env, timestamp, rawBody);
    if VerifyPq(env, publicKey, timestamp, rawBody, sigHeader) {
      var alg := if |publicKey| == 2592 then "ML-DSA-87" else "ML-DSA-65";
      var prefix := if |publicKey| == 2592 then PREFIX_87 else PREFIX_65;
      var hex := if StartsWith(sigHeader, prefix) then sigHeader[|prefix|..] else sigHeader;
      assert StartsWith(sigHeader, prefix) ==> sigHeader == prefix + hex;
      assert Admits(publicKey, sigHeader, alg, hex);
    }
    forall alg, hex | Admits(publicKey, sigHeader, alg, hex)
                      && MlDsa.Verify(env.suite, alg, publicKey, message, MlDsa.Text(hex))
      ensures VerifyPq(env, publicKey, timestamp, rawBody, sigHeader)
    {
      if StartsWith(hex, PREFIX_65) {
        PrefixIsNotHex(hex);
        NotHexNotVerified(env, alg, publicKey, message, hex);
      }
      DropPrefix(PREFIX_87, hex);
      DropPrefix(PREFIX_65, hex);
    }
  }

  /** `toString` of a whole number. */
  function Decimal(n: nat): string {
    (if n < 10 then "" else Decimal(n / 10)) + [(n % 10 + '0' as int) as char]
  }

  /** `parseInt(s, 10)` of digits. */
  function DecimalValue(s: string): nat
    requires forall i :: 0 <= i < |s| ==> IsDigit(s[i])
  {
    if s == "" then 0
    else
      var last := s[|s| - 1];
      assert IsDigit(last);
      DecimalValue(s[..|s| - 1]) * 10 + (last as int - '0' as int)
  }

  lemma {:induction false} DecimalRoundTrip(n: nat)
    ensures Digits(Decimal(n)) && DecimalValue(Decimal(n)) == n
  {
    var last := [(n % 10 + '0' as int) as char];
    if n >= 10 {
      DecimalRoundTrip(n / 10);
      var s := Decimal(n);
      assert s[..|s| - 1] == Decimal(n / 10);
    } else {
      assert Decimal(n) == last && last[..0] == "";
    }
  }

  /** A header as it arrives: missing, one string, or repeated and handed over as an array. */
  datatype HeaderValue = Absent | Single(text: string) | Repeated(texts: seq<string>)

  function HeaderString(v: HeaderValue): Option<string> { if v.Single? then Some(v.text) else None }

  /** The four headers a verification reads. */
  datatype Headers = Headers(timestamp: HeaderValue, signature: HeaderValue, pqSignature: HeaderValue, pqKid: HeaderValue)

  datatype Flags = Flags(hmacOk: bool, pqOk: bool, timestampOk: bool, kidOk: bool)

  function SignDelivery(env: Env, now: real, rawBody: Octets, hmacSecret: Secret, pqSecretKey: Octets, pqKid: string)
    : Option<Headers>
    requires now >= 0.0
  {
    var ts := Decimal(now.Floor);
    var pq := PqSign(env, pqSecretKey, ts, rawBody);
    if pq.None? then None
    else Some(Headers(Single(ts), Single(HMAC_PREFIX + HmacHex(env, hmacSecret, ts, rawBody)), Single(pq.value), Single(pqKid)))
  }

  function Abs(x: real): real { if x < 0.0 then -x else x }

  function TimestampOk(headers: Headers, window: real, now: real): bool {
    var ts := HeaderString(headers.timestamp);
    ts.Some? && Digits(ts.value) && Abs(now - DecimalValue(ts.value) as real) <= window
  }

  /** A missing secret and an empty text count as not given. */
  predicate HasSecret(secret: Option<Secret>) { secret.Some? && secret.value != SecretText("") }

  function VerifyDelivery(env: Env, headers: Headers, rawBody: Octets, hmacSecret: Option<Secret>,
                          pqPublicKey: Option<Octets>, pinnedKid: Option<string>, window: real, now: real): Flags
  {
    var ts := HeaderString(headers.timestamp);
    var sigHmac, sigPq := Given(HeaderString(headers.signature)), Given(HeaderString(headers.pqSignature));
    var timestampOk := TimestampOk(headers, window, now);
    var kidOk := Given(pinnedKid).None? || HeaderString(headers.pqKid) == pinnedKid;
    Flags(
      HasSecret(hmacSecret) && sigHmac.Some? && timestampOk
        && HmacHolds(env, hmacSecret.value, ts.value, rawBody, sigHmac.value),
      pqPublicKey.Some? && sigPq.Some? && timestampOk && kidOk
        && VerifyPq(env, pqPublicKey.value, ts.value, rawBody, sigPq.value),
      timestampOk, kidOk)
  }

  lemma PqRoundTrip(env: Env, alg: string, secretKey: Octets, publicKey: Octets, ts: string, rawBody: Octets)
    requires Jws.MatchingKeys(env.suite, alg, secretKey, publicKey)
    ensures var header := PqSign(env, secretKey, ts, rawBody);
            header.Some? && header.value != "" && VerifyPq(env, publicKey, ts, rawBody, header.value)
  {
    hide Hex.Print, Hex.Parse, Envelope, StartsWith;
    var message := Envelope(env, ts, rawBody);
    var sig := env.suite.sign(alg, secretKey, message).value;
    Hex.ParsePrint(sig);
    DropPrefix(PREFIX_87, Hex.Print(sig));
    DropPrefix(PREFIX_65, Hex.Print(sig));
    assert MlDsa.Verify(env.suite, alg, publicKey, message, MlDsa.Text(Hex.Print(sig)));
  }

  lemma MacRoundTrip(env: Env, secret: Secret, ts: string, rawBody: Octets)
    ensures HmacHolds(env, secret, ts, rawBody, HMAC_PREFIX + HmacHex(env, secret, ts, rawBody))
    ensures HMAC_PREFIX + HmacHex(env, secret, ts, rawBody) != ""
  {
    DropPrefix(HMAC_PREFIX, HmacHex(env, secret, ts, rawBody));
  }

  /**
   * A delivery signed at one time and verified at another, with the matching
   * secret and keys, has every flag set exactly when the clock is still within
   * the window of the signed second, the secret is not an empty text and the
   * pinned key identifier, if any, is the sender's.
   */
  lemma SignThenVerifyDelivery(env: Env, alg: string, signed: real, verified: real, window: real, rawBody: Octets,
                               hmacSecret: Secret, secretKey: Octets, publicKey: Octets,
                               kid: string, pinned: Option<string>)
    requires signed >= 0.0 && Jws.MatchingKeys(env.suite, alg, secretKey, publicKey)
    ensures var headers := SignDelivery(env, signed, rawBody, hmacSecret, secretKey, kid);
            var inWindow := Abs(verified - signed.Floor as real) <= window;
            var kidOk := Given(pinned).None? || pinned == Some(kid);
            && headers.Some?
            && VerifyDelivery(env, headers.value, rawBody, Some(hmacSecret), Some(publicKey), pinned, window, verified)
               == Flags(inWindow && hmacSecret != SecretText(""), inWindow && kidOk, inWindow, kidOk)
  {
    hide PqSign, VerifyPq, HmacHolds, HmacHex, Decimal, DecimalValue, Digits;
    var ts := Decimal(signed.Floor);
    DecimalRoundTrip(signed.Floor);
    PqRoundTrip(env, alg, secretKey, publicKey, ts, rawBody);
    MacRoundTrip(env, hmacSecret, ts, rawBody);
  }

  /** One fixed delivery is never accepted at two times further apart than twice the window. */
  lemma AcceptanceSpan(env: Env, headers: Headers, rawBody: Octets, hmacSecret: Option<Secret>,
                       pqPublicKey: Option<Octets>, pinned: Option<string>, window: real, t1: real, t2: real)
    requires var f := VerifyDelivery(env, headers, rawBody, hmacSecret, pqPublicKey, pinned, window, t1); f.hmacOk || f.pqOk
    requires var f := VerifyDelivery(env, headers, rawBody, hmacSecret, pqPublicKey, pinned, window, t2); f.hmacOk || f.pqOk
    ensures Abs(t1 - t2) <= 2.0 * window
  {
    hide HmacHolds, VerifyPq;
  }

  /**
   * Two deliveries accepted under one secret with one MAC header: the envelopes
   * that were checked have one MAC, and they are one message exactly when the
   * deliveries have one timestamp and one body.
   */
  lemma OneMacOneDelivery(env: Env, h1: Headers, b1: Octets, h2: Headers, b2: Octets, secret: Secret,
                          window: real, t1: real, t2: real)
    requires Utf8OnAscii(env.utf8) && h1.signature == h2.signature
    requires VerifyDelivery(env, h1, b1, Some(secret), None, None, window, t1).hmacOk
    requires VerifyDelivery(env, h2, b2, Some(secret), None, None, window, t2).hmacOk
    ensures h1.timestamp.Single? && h2.timestamp.Single?
    ensures var m1, m2 := Envelope(env, h1.timestamp.text, b1), Envelope(env, h2.timestamp.text, b2);
            && Mac(env, secret, m1) == Mac(env, secret, m2)
            && (m1 == m2 <==> h1.timestamp == h2.timestamp && b1 == b2)
  {
    var ts1, ts2 := h1.timestamp.text, h2.timestamp.text;
    var m1, m2 := Envelope(env, ts1, b1), Envelope(env, ts2, b2);
    SameHeaderSameMac(env, secret, ts1, b1, ts2, b2, h1.signature.text);
    if m1 == m2 { EnvelopeInjective(env, ts1, b1, ts2, b2); }
  }

  lemma SameHeaderSameMac(env: Env, secret: Secret, ts1: string, b1: Octets, ts2: string, b2: Octets, header: string)
    requires HmacHolds(env, secret, ts1, b1, header) && HmacHolds(env, secret, ts2, b2, header)
    ensures Mac(env, secret, Envelope(env, ts1, b1)) == Mac(env, secret, Envelope(env, ts2, b2))
  {
    var x1, x2 := HmacHex(env, secret, ts1, b1), HmacHex(env, secret, ts2, b2);
    DropPrefix(HMAC_PREFIX, x1);
    DropPrefix(HMAC_PREFIX, x2);
    assert x1 == x2;
    Hex.ParsePrint(Mac(env, secret, Envelope(env, ts1, b1)));
    Hex.ParsePrint(Mac(env, secret, Envelope(env, ts2, b2)));
  }

  // ── Deliveries in terms of the primitives alone ──────────────────────────

  /** A header holds exactly when it is the MAC, in lower-case hex, of timestamp, dot and body under the secret's bytes. */
  lemma HmacMeans(env: Env, secret: Secret, timestamp: string, rawBody: Octets, header: string)
    ensures var key := if secret.SecretText? then env.utf8(secret.text) else secret.bytes;
            var hex := Hex.Print(env.hmac(key, env.utf8(timestamp + ".") + rawBody));
            HmacHolds(env, secret, timestamp, rawBody, header) <==> header == "sha256=" + hex || header == hex
  {
    hide Hex.Print;
    var hex := HmacHex(env, secret, timestamp, rawBody);
    PrefixIsNoHex(env.hmac(HmacKey(env, secret), Envelope(env, timestamp, rawBody)));
  }

  lemma PrefixIsNoHex(bytes: Octets)
    ensures !StartsWith(Hex.Print(bytes), HMAC_PREFIX)
  {
    var hex := Hex.Print(bytes);
    Hex.ParsePrint(bytes);
    assert Hex.IsHex(hex);
    assert hex != "" ==> Hex.IsHexDigit(hex[0]);
  }

  /** A secret given as text is the secret given as that text's bytes. */
  lemma TextSecretIsItsBytes(env: Env, text: string, timestamp: string, rawBody: Octets, header: string)
    ensures HmacHolds(env, SecretText(text), timestamp, rawBody, header)
            <==> HmacHolds(env, SecretBytes(env.utf8(text)), timestamp, rawBody, header)
    ensures HmacHolds(env, SecretText(text), timestamp, rawBody,
                      "sha256=" + Hex.Print(env.hmac(env.utf8(text), Envelope(env, timestamp, rawBody))))
  {
    hide Hex.Print, Envelope;
  }

  /**
   * A delivery signed under one secret, verified under another within the window,
   * has its MAC accepted exactly when the two keys give one MAC for its envelope.
   */
  lemma OtherSecretIff(env: Env, signed: real, verified: real, window: real, rawBody: Octets, mine: Secret, theirs: Secret,
                       secretKey: Octets, kid: string, pinned: Option<string>)
    requires signed >= 0.0 && PqSign(env, secretKey, Decimal(signed.Floor), rawBody).Some?
    requires Abs(verified - signed.Floor as real) <= window && theirs != SecretText("")
    ensures var headers := SignDelivery(env, signed, rawBody, mine, secretKey, kid);
            var message := env.utf8(Decimal(signed.Floor) + ".") + rawBody;
            var key1 := if mine.SecretText? then env.utf8(mine.text) else mine.bytes;
            var key2 := if theirs.SecretText? then env.utf8(theirs.text) else theirs.bytes;
            && headers.Some?
            && (VerifyDelivery(env, headers.value, rawBody, Some(theirs), None, pinned, window, verified).hmacOk
                <==> env.hmac(key1, message) == env.hmac(key2, message))
  {
    hide PqSign, VerifyPq, HmacHolds, Decimal, DecimalValue, Digits, Hex.Print;
    var ts := Decimal(signed.Floor);
    DecimalRoundTrip(signed.Floor);
    MacRoundTrip(env, mine, ts, rawBody);
    var key1 := if mine.SecretText? then env.utf8(mine.text) else mine.bytes;
    var key2 := if theirs.SecretText? then env.utf8(theirs.text) else theirs.bytes;
    var message := env.utf8(ts + ".") + rawBody;
    HmacMeans(env, theirs, ts, rawBody, "sha256=" + Hex.Print(env.hmac(key1, message)));
    SamePrintIffSame(env.hmac(key1, message), env.hmac(key2, message));
  }

  lemma SamePrintIffSame(a: Octets, b: Octets)
    ensures "sha256=" + Hex.Print(a) == "sha256=" + Hex.Print(b) <==> a == b
    ensures "sha256=" + Hex.Print(a) != Hex.Print(b)
  {
    var x, y := "sha256=" + Hex.Print(a), "sha256=" + Hex.Print(b);
    assert x[7..] == Hex.Print(a) && y[7..] == Hex.Print(b);
    Hex.ParsePrint(a);
    Hex.ParsePrint(b);
    PrefixIsNoHex(b);
    assert StartsWith(x, HMAC_PREFIX);
  }

  /** Signing under a key of 4896 bytes is ML-DSA-87, under any other ML-DSA-65; the header names the set and carries the signature of the envelope in hex. */
  lemma PqSignMeans(env: Env, secretKey: Octets, timestamp: string, rawBody: Octets)
    ensures var alg := if |secretKey| == 4896 then "ML-DSA-87" else "ML-DSA-65";
            var sig := env.suite.sign(alg, secretKey, env.utf8(timestamp + ".") + rawBody);
            PqSign(env, secretKey, timestamp, rawBody)
            == if sig.None? then None
               else Some((if |secretKey| == 4896 then "ml-dsa-87=" else "ml-dsa-65=") + Hex.Print(sig.value))
  {
  }

  /**
   * A header is taken exactly when the primitive of the key's own set takes the
   * bytes that its hex text stands for as a signature of timestamp, dot and body:
   * after that set's prefix or, for ML-DSA-65 alone, with none.
   */
  lemma VerifyPqMeans(env: Env, publicKey: Octets, timestamp: string, rawBody: Octets, header: string)
    ensures var message := env.utf8(timestamp + ".") + rawBody;
            VerifyPq(env, publicKey, timestamp, rawBody, header) <==>
              exists hex ::
                && Hex.Parse(hex).Some?
                && ((|publicKey| == 2592 && header == "ml-dsa-87=" + hex
                     && env.suite.verify("ML-DSA-87", publicKey, message, Hex.Parse(hex).value) == Some(true))
                    || (|publicKey| == 1952 && (header == "ml-dsa-65=" + hex || header == hex)
                        && env.suite.verify("ML-DSA-65", publicKey, message, Hex.Parse(hex).value) == Some(true)))
  {
    var message := env.utf8(timestamp + ".") + rawBody;
    VerifyPqIff(env, publicKey, timestamp, rawBody, header);
    MlDsa.VerifyMeans(env.suite, "ML-DSA-87", publicKey, message);
    MlDsa.VerifyMeans(env.suite, "ML-DSA-65", publicKey, message);
    hide VerifyPq, MlDsa.Verify;
    if VerifyPq(env, publicKey, timestamp, rawBody, header) {
      var alg, hex :| Admits(publicKey, header, alg, hex)
                      && MlDsa.Verify(env.suite, alg, publicKey, Envelope(env, timestamp, rawBody), MlDsa.Text(hex));
      assert Hex.Parse(hex).Some?;
    }
    forall hex |
      && Hex.Parse(hex).Some?
      && ((|publicKey| == 2592 && header == "ml-dsa-87=" + hex
           && env.suite.verify("ML-DSA-87", publicKey, message, Hex.Parse(hex).value) == Some(true))
          || (|publicKey| == 1952 && (header == "ml-dsa-65=" + hex || header == hex)
              && env.suite.verify("ML-DSA-65", publicKey, message, Hex.Parse(hex).value) == Some(true)))
      ensures VerifyPq(env, publicKey, timestamp, rawBody, header)
    {
      var alg := if |publicKey| == 2592 then "ML-DSA-87" else "ML-DSA-65";
      assert Admits(publicKey, header, alg, hex);
    }
  }

  /** Divided by ten so many times. */
  function Tenth(n: nat, k: nat): nat { if k == 0 then n else Tenth(n / 10, k - 1) }

  /** Place k of a printed number, from its end, is the decimal digit of that weight; there is no zero in front. */
  lemma {:induction false} DecimalAt(n: nat, k: nat)
    ensures k < |Decimal(n)| ==> Decimal(n)[|Decimal(n)| - 1 - k] == "0123456789"[Tenth(n, k) % 10]
    ensures n > 0 ==> Decimal(n)[0] != '0'
    ensures n < 10 ==> |Decimal(n)| == 1
  {
    var s := Decimal(n);
    assert s[|s| - 1] == (n % 10 + '0' as int) as char == "0123456789"[n % 10];
    if n >= 10 {
      assert s[..|s| - 1] == Decimal(n / 10);
      DecimalAt(n / 10, if k > 0 then k - 1 else 0);
      assert s[0] == Decimal(n / 10)[0];
    }
  }

  /** A number is read digit by digit, each standing for its place in the ten; zeros in front are no matter. */
  lemma DecimalValueMeans(s: string, d: nat)
    requires d < 10 && forall i :: 0 <= i < |s| ==> IsDigit(s[i])
    ensures DecimalValue("") == 0
    ensures IsDigit("0123456789"[d]) && DecimalValue(s + ["0123456789"[d]]) == DecimalValue(s) * 10 + d
  {
    var c := "0123456789"[d];
    assert c == (d + '0' as int) as char;
    assert (s + [c])[..|s|] == s;
  }

  /** The four headers of a delivery. */
  lemma SignDeliveryMeans(env: Env, now: real, rawBody: Octets, secret: Secret, secretKey: Octets, kid: string)
    requires now >= 0.0
    ensures var ts := Decimal(now.Floor);
            var pq := PqSign(env, secretKey, ts, rawBody);
            var key := if secret.SecretText? then env.utf8(secret.text) else secret.bytes;
            SignDelivery(env, now, rawBody, secret, secretKey, kid)
            == if pq.None? then None
               else Some(Headers(Single(ts), Single("sha256=" + Hex.Print(env.hmac(key, env.utf8(ts + ".") + rawBody))),
                                 Single(pq.value), Single(kid)))
  {
  }

  /**
   * Each flag of a verification. A timestamp counts only as one string of decimal
   * digits within the window; a signature only as one string that is not empty,
   * with what it is checked with given and the timestamp good, the second one
   * also with the pinned key identifier, if any, being the one in the headers.
   */
  lemma VerifyDeliveryMeans(env: Env, headers: Headers, rawBody: Octets, secret: Option<Secret>, publicKey: Option<Octets>,
                            pinned: Option<string>, window: real, now: real)
    ensures var f := VerifyDelivery(env, headers, rawBody, secret, publicKey, pinned, window, now);
            && (f.timestampOk <==>
                  && headers.timestamp.Single? && headers.timestamp.text != ""
                  && (forall i :: 0 <= i < |headers.timestamp.text| ==> '0' <= headers.timestamp.text[i] <= '9')
                  && -window <= now - DecimalValue(headers.timestamp.text) as real <= window)
            && (f.kidOk <==> pinned.None? || pinned == Some("") || headers.pqKid == Single(pinned.value))
            && (f.hmacOk <==>
                  && secret.Some? && secret != Some(SecretText("")) && headers.signature.Single?
                  && headers.signature.text != "" && f.timestampOk
                  && HmacHolds(env, secret.value, headers.timestamp.text, rawBody, headers.signature.text))
            && (f.pqOk <==>
                  && publicKey.Some? && headers.pqSignature.Single? && headers.pqSignature.text != ""
                  && f.timestampOk && f.kidOk
                  && VerifyPq(env, publicKey.value, headers.timestamp.text, rawBody, headers.pqSignature.text))
  {
    hide HmacHolds, VerifyPq, DecimalValue;
  }
}
