/** src/ml-dsa.js and its sibling: signatures as hex text over a byte-level primitive. */
module MlDsa {
  import opened Octet
  import Hex

  /** A primitive per parameter set. `sign` answers None when it throws; so may `verify`. */
  datatype Suite = Suite(
    sign: (string, Octets, Octets) -> Option<Octets>,
    verify: (string, Octets, Octets, Octets) -> Option<bool>)

  datatype SignatureForm = Raw(bytes: Octets) | Text(hex: string) | Other

  function SignatureBytes(sig: SignatureForm): Option<Octets> {
    match sig
    case Raw(bytes) => Some(bytes)
    case Text(hex) => Hex.Parse(hex)
    case Other => None
  }

  function Sign(suite: Suite, alg: string, secretKey: Octets, message: Octets): Option<string> {
    var sig := suite.sign(alg, secretKey, message);
    if sig.None? then None else Some(Hex.Print(sig.value))
  }

  /** Anything that throws on the way counts as a signature that does not verify. */
  function Verify(suite: Suite, alg: string, publicKey: Octets, message: Octets, sig: SignatureForm): bool {
    var bytes := SignatureBytes(sig);
    bytes.Some? && suite.verify(alg, publicKey, message, bytes.value) == Some(true)
  }

  /** A signature verifies as raw bytes, as its hex, and as its hex in any letter case, or as none of them. */
  lemma FormsAgree(suite: Suite, alg: string, publicKey: Octets, message: Octets, bytes: Octets, hex: string)
    requires Hex.IsHex(hex) && Hex.LowerAll(hex) == Hex.Print(bytes)
    ensures Verify(suite, alg, publicKey, message, Text(hex)) == Verify(suite, alg, publicKey, message, Raw(bytes))
  {
    Hex.ParsePrint(bytes);
    Hex.PrintParse(Hex.Print(bytes));
    Hex.SameBytesIffSameLetters(hex, Hex.Print(bytes));
  }

  /** What each form of a signature is judged as: the primitive's answer on its bytes, or no. */
  lemma VerifyMeans(suite: Suite, alg: string, publicKey: Octets, message: Octets)
    ensures forall bytes ::
              Verify(suite, alg, publicKey, message, Raw(bytes)) <==> suite.verify(alg, publicKey, message, bytes) == Some(true)
    ensures forall hex ::
              Verify(suite, alg, publicKey, message, Text(hex)) <==>
                Hex.Parse(hex).Some? && suite.verify(alg, publicKey, message, Hex.Parse(hex).value) == Some(true)
    ensures !Verify(suite, alg, publicKey, message, Other)
  {
  }

  lemma SignMeans(suite: Suite, alg: string, secretKey: Octets, message: Octets)
    ensures var sig, bytes := Sign(suite, alg, secretKey, message), suite.sign(alg, secretKey, message);
            (sig.Some? <==> bytes.Some?) && (sig.Some? ==> Hex.Parse(sig.value) == bytes)
  {
    var bytes := suite.sign(alg, secretKey, message);
    if bytes.Some? { Hex.ParsePrint(bytes.value); }
  }
}

/** src/jws.js: compact JWS (RFC 7515, sections 3.1, 5.1 and 5.2) over ML-DSA. */
module Jws {
  import opened Octet
  import opened Text
  import opened Base64Url
  import Hex
  import MlDsa

  datatype Json =
    | JNull
    | JBool(b: bool)
    | JNumber(text: string)
    | JString(s: string)
    | JArray(items: seq<Json>)
    | JObject(members: map<string, Json>)

  type Header = map<string, Json>

  /** JSON text as UTF-8 bytes, both ways. */
  datatype Codec = Codec(stringify: Header -> Octets, parse: Octets -> Option<Json>)

  ghost predicate Faithful(codec: Codec) {
    forall h :: codec.stringify(h) != [] && codec.parse(codec.stringify(h)) == Some(JObject(h))
  }

  datatype Sizes = Sizes(publicKeyBytes: nat, secretKeyBytes: nat, signatureBytes: nat)

  const DEFAULT_ALG := "ML-DSA-87"

  function SizesOf(alg: string): Option<Sizes> {
    if alg == "ML-DSA-65" then Some(Sizes(1952, 4032, 3309))
    else if alg == "ML-DSA-87" then Some(Sizes(2592, 4896, 4627))
    else None
  }

  function AlgorithmForSecretKey(secretKey: Octets): (alg: Option<string>)
    ensures alg.Some? ==> SizesOf(alg.value).Some? && SizesOf(alg.value).value.secretKeyBytes == |secretKey|
    ensures alg.None? ==> |secretKey| != 4032 && |secretKey| != 4896
  {
    if |secretKey| == 4032 then Some("ML-DSA-65")
    else if |secretKey| == 4896 then Some("ML-DSA-87")
    else None
  }

  /** The bytes a header segment, a dot and a payload segment are signed as. */
  function SigningInput(protectedB64: string, payloadB64: string): (r: Octets)
    requires UrlText(protectedB64) && UrlText(payloadB64)
  {
    CharCodes(protectedB64 + "." + payloadB64)
  }

  function Compact(header: Octets, payload: Octets, signature: Octets): string {
    Encode(header) + "." + Encode(payload) + "." + Encode(signature)
  }

  datatype SignOptions = SignOptions(alg: Option<string>, kid: Option<string>, typ: Option<string>, header: Header)

  datatype SignError = UnsupportedAlg | ReservedMember | SigningFailed

  function ChosenAlg(secretKey: Octets, opts: SignOptions): string {
    if opts.alg.Some? then opts.alg.value
    else
      var bySize := AlgorithmForSecretKey(secretKey);
      if bySize.Some? then bySize.value else DEFAULT_ALG
  }

  function HeaderFor(alg: string, opts: SignOptions): Header {
    map["alg" := JString(alg)]
    + (if opts.typ.Some? then map["typ" := JString(opts.typ.value)] else map[])
    + (if opts.kid.Some? then map["kid" := JString(opts.kid.value)] else map[])
    + opts.header
  }

  function SignJws(rt: Runtime, codec: Codec, suite: MlDsa.Suite, payload: Octets, secretKey: Octets, opts: SignOptions)
    : Result<string, SignError>
  {
    var alg := ChosenAlg(secretKey, opts);
    if SizesOf(alg).None? then Err(UnsupportedAlg)
    else if "alg" in opts.header || "kid" in opts.header || "typ" in opts.header then Err(ReservedMember)
    else
      var protectedB64 := ToText(rt, codec.stringify(HeaderFor(alg, opts)));
      var payloadB64 := ToText(rt, payload);
      var sigHex := MlDsa.Sign(suite, alg, secretKey, SigningInput(protectedB64, payloadB64));
      if sigHex.None? then Err(SigningFailed)
      else
        Hex.ParsePrint(suite.sign(alg, secretKey, SigningInput(protectedB64, payloadB64)).value);
        Ok(protectedB64 + "." + payloadB64 + "." + ToText(rt, Hex.Parse(sigHex.value).value))
  }

  datatype VerifyOptions = VerifyOptions(alg: Option<string>, kid: Option<string>)

  datatype VerifyError =
    | NotThreeSegments
    | BadSegment
    | HeaderNotJson
    | HeaderNotObject
    | AlgNotAllowed
    | AlgMismatch
    | KidMismatch
    | CritPresent
    | B64Present
    | WrongKeySize
    | WrongSignatureSize
    | SignatureInvalid

  datatype Verified = Verified(header: Header, payload: Octets)

  function VerifyJws(rt: Runtime, codec: Codec, suite: MlDsa.Suite, token: string, publicKey: Octets, opts: VerifyOptions)
    : Result<Verified, VerifyError>
  {
    var parts := Split(token, '.');
    if |parts| != 3 then Err(NotThreeSegments)
    else
      var headerBytes := Strict(rt, parts[0]);
      if headerBytes.None? then Err(BadSegment)
      else
        var json := codec.parse(headerBytes.value);
        if json.None? then Err(HeaderNotJson)
        else
          var payload, signature := Strict(rt, parts[1]), Strict(rt, parts[2]);
          if payload.None? || signature.None? then Err(BadSegment)
          else if !json.value.JObject? then Err(HeaderNotObject)
          else
            var h := json.value.members;
            var why := Refusal(h, publicKey, signature.value, opts);
            if why.Some? then Err(why.value)
            else if !MlDsa.Verify(suite, h["alg"].s, publicKey, SigningInput(parts[0], parts[1]),
                                  MlDsa.Text(Hex.Print(signature.value))) then Err(SignatureInvalid)
            else Ok(Verified(h, payload.value))
  }

  /** The checks on a parsed header before any signature is looked at. */
  function Refusal(h: Header, publicKey: Octets, signature: Octets, opts: VerifyOptions): (why: Option<VerifyError>)
    ensures why.None? ==> "alg" in h && h["alg"].JString?
  {
    if "alg" !in h || !h["alg"].JString? || SizesOf(h["alg"].s).None? then Some(AlgNotAllowed)
    else if opts.alg.Some? && h["alg"].s != opts.alg.value then Some(AlgMismatch)
    else if opts.kid.Some? && !("kid" in h && h["kid"] == JString(opts.kid.value)) then Some(KidMismatch)
    else if "crit" in h then Some(CritPresent)
    else if "b64" in h then Some(B64Present)
    else
      var sizes := SizesOf(h["alg"].s).value;
      if |publicKey| != sizes.publicKeyBytes then Some(WrongKeySize)
      else if |signature| != sizes.signatureBytes then Some(WrongSignatureSize)
      else None
  }

  /**
   * What a valid token is, in terms of bytes alone: three non-empty byte strings
   * written in their one spelling, a header that names an allowed algorithm and
   * meets every pin, sizes that fit that algorithm, and a signature that holds.
   */
  ghost predicate ValidToken(codec: Codec, suite: MlDsa.Suite, token: string, publicKey: Octets, opts: VerifyOptions,
                             header: Octets, payload: Octets, signature: Octets, h: Header)
  {
    && header != [] && payload != [] && signature != []
    && token == Compact(header, payload, signature)
    && codec.parse(header) == Some(JObject(h))
    && "alg" in h && h["alg"].JString? && SizesOf(h["alg"].s).Some?
    && (opts.alg.Some? ==> h["alg"].s == opts.alg.value)
    && (opts.kid.Some? ==> "kid" in h && h["kid"] == JString(opts.kid.value))
    && "crit" !in h && "b64" !in h
    && |publicKey| == SizesOf(h["alg"].s).value.publicKeyBytes
    && |signature| == SizesOf(h["alg"].s).value.signatureBytes
    && suite.verify(h["alg"].s, publicKey, SigningInput(Encode(header), Encode(payload)), signature) == Some(true)
  }

  lemma UrlTextHasNoDot(s: string)
    requires UrlText(s)
    ensures '.' !in s
  {
  }

  lemma JoinThree(a: string, b: string, c: string)
    ensures Join([a, b, c], '.') == a + "." + b + "." + c
  {
    assert Join([c], '.') == c;
    assert [b, c][1..] == [c] && [a, b, c][1..] == [b, c];
    assert Join([b, c], '.') == b + "." + c;
    assert a + "." + b + "." + c == a + "." + (b + "." + c);
  }

  lemma SplitCompact(header: Octets, payload: Octets, signature: Octets)
    ensures Split(Compact(header, payload, signature), '.') == [Encode(header), Encode(payload), Encode(signature)]
  {
    var a, b, c := Encode(header), Encode(payload), Encode(signature);
    UrlTextHasNoDot(a);
    UrlTextHasNoDot(b);
    UrlTextHasNoDot(c);
    JoinThree(a, b, c);
    SplitJoin([a, b, c], '.');
  }

  /** A token and its three byte strings determine each other. */
  lemma CompactInjective(h1: Octets, p1: Octets, s1: Octets, h2: Octets, p2: Octets, s2: Octets)
    requires Compact(h1, p1, s1) == Compact(h2, p2, s2)
    ensures h1 == h2 && p1 == p2 && s1 == s2
  {
    SplitCompact(h1, p1, s1);
    SplitCompact(h2, p2, s2);
    var a := [Encode(h1), Encode(p1), Encode(s1)];
    var b := [Encode(h2), Encode(p2), Encode(s2)];
    assert a[0] == b[0] && a[1] == b[1] && a[2] == b[2];
    EncodeInjective(h1, h2);
    EncodeInjective(p1, p2);
    EncodeInjective(s1, s2);
  }

  /** One signature never covers two readings: what is signed fixes header and payload. */
  lemma SigningInputInjective(h1: Octets, p1: Octets, h2: Octets, p2: Octets)
    requires SigningInput(Encode(h1), Encode(p1)) == SigningInput(Encode(h2), Encode(p2))
    ensures h1 == h2 && p1 == p2
  {
    var a, b := Encode(h1) + "." + Encode(p1), Encode(h2) + "." + Encode(p2);
    assert |CharCodes(a)| == |CharCodes(b)|;
    forall i | 0 <= i < |a| ensures a[i] == b[i] { assert CharCodes(a)[i] == CharCodes(b)[i]; }
    assert a == b;
    assert Compact(h1, p1, []) == a + "." + Encode([]) && Compact(h2, p2, []) == b + "." + Encode([]);
    CompactInjective(h1, p1, [], h2, p2, []);
  }

  /** The verifier answers valid, with this header and payload, exactly for valid tokens. */
  lemma VerifyIff(rt: Runtime, codec: Codec, suite: MlDsa.Suite, token: string, publicKey: Octets,
                  opts: VerifyOptions, h: Header, payload: Octets)
    ensures VerifyJws(rt, codec, suite, token, publicKey, opts) == Ok(Verified(h, payload)) <==>
            exists header, signature :: ValidToken(codec, suite, token, publicKey, opts, header, payload, signature, h)
  {
    if VerifyJws(rt, codec, suite, token, publicKey, opts) == Ok(Verified(h, payload)) {
      var header, signature := ValidFromVerified(rt, codec, suite, token, publicKey, opts);
    }
    forall header, signature | ValidToken(codec, suite, token, publicKey, opts, header, payload, signature, h)
      ensures VerifyJws(rt, codec, suite, token, publicKey, opts) == Ok(Verified(h, payload))
    {
      VerifiedFromValid(rt, codec, suite, token, publicKey, opts, header, payload, signature, h);
    }
  }

  lemma ValidFromVerified(rt: Runtime, codec: Codec, suite: MlDsa.Suite, token: string, publicKey: Octets,
                          opts: VerifyOptions) returns (header: Octets, signature: Octets)
    requires VerifyJws(rt, codec, suite, token, publicKey, opts).Ok?
    ensures var v := VerifyJws(rt, codec, suite, token, publicKey, opts).value;
            ValidToken(codec, suite, token, publicKey, opts, header, v.payload, signature, v.header)
  {
    hide Strict, Encode, Split, Join, Hex.Parse, Hex.Print, SigningInput;
    var parts := Split(token, '.');
    var a, b, c := parts[0], parts[1], parts[2];
    header, signature := Strict(rt, a).value, Strict(rt, c).value;
    StrictGives(rt, a);
    StrictGives(rt, b);
    StrictGives(rt, c);
    JoinSplit(token, '.');
    JoinThree(a, b, c);
    assert parts == [a, b, c];
    Hex.ParsePrint(signature);
  }

  lemma VerifiedFromValid(rt: Runtime, codec: Codec, suite: MlDsa.Suite, token: string, publicKey: Octets,
                          opts: VerifyOptions, header: Octets, payload: Octets, signature: Octets, h: Header)
    requires ValidToken(codec, suite, token, publicKey, opts, header, payload, signature, h)
    ensures VerifyJws(rt, codec, suite, token, publicKey, opts) == Ok(Verified(h, payload))
  {
    hide Strict, Encode;
    SplitCompact(header, payload, signature);
    StrictIff(rt, Encode(header), header);
    StrictIff(rt, Encode(payload), payload);
    StrictIff(rt, Encode(signature), signature);
    Hex.ParsePrint(signature);
  }

  /** Valid tokens and the byte strings they were made from correspond one to one. */
  lemma TokensMatchTriples(codec: Codec, suite: MlDsa.Suite, publicKey: Octets, opts: VerifyOptions,
                           t1: string, h1: Octets, p1: Octets, s1: Octets, m1: Header,
                           t2: string, h2: Octets, p2: Octets, s2: Octets, m2: Header)
    requires ValidToken(codec, suite, t1, publicKey, opts, h1, p1, s1, m1)
    requires ValidToken(codec, suite, t2, publicKey, opts, h2, p2, s2, m2)
    ensures t1 == t2 <==> h1 == h2 && p1 == p2 && s1 == s2
    ensures h1 == h2 ==> m1 == m2
  {
    hide Encode;
    if t1 == t2 { CompactInjective(h1, p1, s1, h2, p2, s2); }
  }

  /** A key pair of a set: sizes fit it, and everything signed verifies. */
  ghost predicate MatchingKeys(suite: MlDsa.Suite, alg: string, secretKey: Octets, publicKey: Octets) {
    && SizesOf(alg).Some?
    && |secretKey| == SizesOf(alg).value.secretKeyBytes
    && |publicKey| == SizesOf(alg).value.publicKeyBytes
    && forall m ::
         var sig := suite.sign(alg, secretKey, m);
         && sig.Some?
         && |sig.value| == SizesOf(alg).value.signatureBytes
         && suite.verify(alg, publicKey, m, sig.value) == Some(true)
  }

  /** With a key of either set, or that set named outright, signing uses the key's own set. */
  lemma KeyChoosesAlg(suite: MlDsa.Suite, alg: string, secretKey: Octets, publicKey: Octets, opts: SignOptions)
    requires MatchingKeys(suite, alg, secretKey, publicKey)
    requires opts.alg.None? || opts.alg.value == alg
    ensures ChosenAlg(secretKey, opts) == alg
  {
  }

  /** The token signing produces, in bytes. */
  lemma SignedToken(rt: Runtime, codec: Codec, suite: MlDsa.Suite, alg: string, secretKey: Octets, publicKey: Octets,
                    payload: Octets, opts: SignOptions)
    requires MatchingKeys(suite, alg, secretKey, publicKey)
    requires opts.alg.None? || opts.alg.value == alg
    requires "alg" !in opts.header && "kid" !in opts.header && "typ" !in opts.header
    ensures var header := codec.stringify(HeaderFor(alg, opts));
            var sig := suite.sign(alg, secretKey, SigningInput(Encode(header), Encode(payload))).value;
            SignJws(rt, codec, suite, payload, secretKey, opts) == Ok(Compact(header, payload, sig))
  {
    hide Encode, SigningInput, SignJws, ChosenAlg, HeaderFor, Compact;
    KeyChoosesAlg(suite, alg, secretKey, publicKey, opts);
    HeaderMembers(alg, opts);
    var header := codec.stringify(HeaderFor(alg, opts));
    var sig := suite.sign(alg, secretKey, SigningInput(Encode(header), Encode(payload))).value;
    SignIff(rt, codec, suite, payload, secretKey, opts, Compact(header, payload, sig));
  }

  /**
   * Signing succeeds exactly for an allowed algorithm, an extra header that
   * restates none of the members set by options, and a key the primitive takes;
   * the algorithm signed under is then the one the header advertises.
   */
  lemma SignIff(rt: Runtime, codec: Codec, suite: MlDsa.Suite, payload: Octets, secretKey: Octets, opts: SignOptions,
                token: string)
    ensures SignJws(rt, codec, suite, payload, secretKey, opts) == Ok(token) <==>
            var alg := ChosenAlg(secretKey, opts);
            var h := HeaderFor(alg, opts);
            var sig := suite.sign(alg, secretKey, SigningInput(Encode(codec.stringify(h)), Encode(payload)));
            && SizesOf(alg).Some? && (forall name :: name in ["alg", "kid", "typ"] ==> name !in opts.header)
            && sig.Some? && token == Compact(codec.stringify(h), payload, sig.value)
            && h["alg"] == JString(alg)
  {
    hide Encode, SigningInput, SizesOf;
    var alg := ChosenAlg(secretKey, opts);
    var header := codec.stringify(HeaderFor(alg, opts));
    var sig := suite.sign(alg, secretKey, SigningInput(Encode(header), Encode(payload)));
    if sig.Some? { Hex.ParsePrint(sig.value); }
    assert "alg" in ["alg", "kid", "typ"] && "kid" in ["alg", "kid", "typ"] && "typ" in ["alg", "kid", "typ"];
  }

  /**
   * A token signed with a key of either set verifies under the matching public
   * key, with the signed header and payload, exactly when the payload is not
   * empty, the extra header has neither `crit` nor `b64`, and the pins agree.
   */
  lemma SignThenVerifyIff(rt: Runtime, codec: Codec, suite: MlDsa.Suite, alg: string,
                          secretKey: Octets, publicKey: Octets, payload: Octets,
                          opts: SignOptions, vopts: VerifyOptions)
    requires Faithful(codec) && MatchingKeys(suite, alg, secretKey, publicKey)
    requires opts.alg.None? || opts.alg.value == alg
    requires "alg" !in opts.header && "kid" !in opts.header && "typ" !in opts.header
    ensures var token := SignJws(rt, codec, suite, payload, secretKey, opts);
            && token.Ok?
            && (VerifyJws(rt, codec, suite, token.value, publicKey, vopts)
                == Ok(Verified(HeaderFor(alg, opts), payload)) <==>
                && payload != [] && "crit" !in opts.header && "b64" !in opts.header
                && (vopts.alg.Some? ==> vopts.alg == Some(alg))
                && (vopts.kid.Some? ==> vopts.kid == opts.kid))
  {
    hide Encode, VerifyJws, SignJws, HeaderFor, SigningInput;
    SignedToken(rt, codec, suite, alg, secretKey, publicKey, payload, opts);
    var h := HeaderFor(alg, opts);
    var header := codec.stringify(h);
    var sig := suite.sign(alg, secretKey, SigningInput(Encode(header), Encode(payload))).value;
    var token := Compact(header, payload, sig);
    VerifyIff(rt, codec, suite, token, publicKey, vopts, h, payload);
    SignedTokenValidIff(codec, suite, alg, secretKey, publicKey, payload, opts, vopts);
    forall header', sig' | ValidToken(codec, suite, token, publicKey, vopts, header', payload, sig', h)
      ensures header' == header && sig' == sig
    {
      hide Compact;
      CompactInjective(header, payload, sig, header', payload, sig');
    }
  }

  lemma HeaderMembers(alg: string, opts: SignOptions)
    requires "alg" !in opts.header && "kid" !in opts.header && "typ" !in opts.header
    ensures var h := HeaderFor(alg, opts);
            && "alg" in h && h["alg"] == JString(alg)
            && ("kid" in h <==> opts.kid.Some?) && (opts.kid.Some? ==> h["kid"] == JString(opts.kid.value))
            && ("crit" in h <==> "crit" in opts.header) && ("b64" in h <==> "b64" in opts.header)
  {
  }

  lemma SignedTokenValidIff(codec: Codec, suite: MlDsa.Suite, alg: string, secretKey: Octets, publicKey: Octets,
                            payload: Octets, opts: SignOptions, vopts: VerifyOptions)
    requires Faithful(codec) && MatchingKeys(suite, alg, secretKey, publicKey)
    requires "alg" !in opts.header && "kid" !in opts.header && "typ" !in opts.header
    ensures var h := HeaderFor(alg, opts);
            var header := codec.stringify(h);
            var sig := suite.sign(alg, secretKey, SigningInput(Encode(header), Encode(payload))).value;
            ValidToken(codec, suite, Compact(header, payload, sig), publicKey, vopts, header, payload, sig, h) <==>
              && payload != [] && "crit" !in opts.header && "b64" !in opts.header
              && (vopts.alg.Some? ==> vopts.alg == Some(alg))
              && (vopts.kid.Some? ==> vopts.kid == opts.kid)
  {
    hide Encode, HeaderFor, SigningInput, Compact;
    HeaderMembers(alg, opts);
    var header := codec.stringify(HeaderFor(alg, opts));
    var m := SigningInput(Encode(header), Encode(payload));
    assert |suite.sign(alg, secretKey, m).value| == SizesOf(alg).value.signatureBytes > 0;
  }

  // ── Tokens in terms of their text and the primitive alone ────────────────

  /** The header a token is signed with has the algorithm, the options given and the extra members, and no more. */
  lemma HeaderMeans(alg: string, opts: SignOptions, name: string)
    requires "alg" !in opts.header && "kid" !in opts.header && "typ" !in opts.header
    ensures var h := HeaderFor(alg, opts);
            if name == "alg" then name in h && h[name] == JString(alg)
            else if name == "typ" then
              (name in h <==> opts.typ.Some?) && (opts.typ.Some? ==> h[name] == JString(opts.typ.value))
            else if name == "kid" then
              (name in h <==> opts.kid.Some?) && (opts.kid.Some? ==> h[name] == JString(opts.kid.value))
            else (name in h <==> name in opts.header) && (name in h ==> h[name] == opts.header[name])
  {
  }

  /** What is signed is the ASCII of the header's text, a dot and the payload's. */
  lemma SigningInputMeans(header: string, payload: string)
    requires UrlText(header) && UrlText(payload)
    ensures var text, r := header + "." + payload, SigningInput(header, payload);
            |r| == |text| && forall i :: 0 <= i < |text| ==> r[i] == text[i] as int
  {
  }

  /**
   * Signing takes the algorithm named, else the one the key's size tells, else
   * ML-DSA-87. It refuses, in this order, any other name than the two, an extra
   * member that restates a reserved one, and a key the primitive does not take;
   * otherwise the token is header, payload and signature in their one spelling.
   */
  lemma SignedMeans(rt: Runtime, codec: Codec, suite: MlDsa.Suite, payload: Octets, secretKey: Octets, opts: SignOptions)
    ensures var alg := if opts.alg.Some? then opts.alg.value else if |secretKey| == 4032 then "ML-DSA-65" else "ML-DSA-87";
            var header := codec.stringify(HeaderFor(alg, opts));
            var sig := suite.sign(alg, secretKey, SigningInput(Encode(header), Encode(payload)));
            SignJws(rt, codec, suite, payload, secretKey, opts)
            == if alg != "ML-DSA-65" && alg != "ML-DSA-87" then Err(UnsupportedAlg)
               else if "alg" in opts.header || "kid" in opts.header || "typ" in opts.header then Err(ReservedMember)
               else if sig.None? then Err(SigningFailed)
               else Ok(Encode(header) + "." + Encode(payload) + "." + Encode(sig.value))
  {
    hide Encode, SigningInput, HeaderFor;
    var alg := ChosenAlg(secretKey, opts);
    var header := codec.stringify(HeaderFor(alg, opts));
    var sig := suite.sign(alg, secretKey, SigningInput(Encode(header), Encode(payload)));
    if sig.Some? { Hex.ParsePrint(sig.value); }
  }

  /**
   * A token is accepted with a header and a payload exactly when it is the one
   * spelling of three byte strings that are not empty; the first is JSON text of
   * the header; the header names one of the two algorithms, meets the pins and
   * has neither `crit` nor `b64`; key and signature have that algorithm's sizes;
   * and the primitive takes the signature over the text before the last dot.
   */
  lemma AcceptedMeans(rt: Runtime, codec: Codec, suite: MlDsa.Suite, token: string, publicKey: Octets,
                      opts: VerifyOptions, h: Header, payload: Octets)
    ensures VerifyJws(rt, codec, suite, token, publicKey, opts) == Ok(Verified(h, payload)) <==>
            exists header, signature ::
              && token == Encode(header) + "." + Encode(payload) + "." + Encode(signature)
              && header != [] && payload != [] && signature != []
              && codec.parse(header) == Some(JObject(h))
              && "alg" in h
              && ((h["alg"] == JString("ML-DSA-65") && |publicKey| == 1952 && |signature| == 3309)
                  || (h["alg"] == JString("ML-DSA-87") && |publicKey| == 2592 && |signature| == 4627))
              && (opts.alg.Some? ==> h["alg"] == JString(opts.alg.value))
              && (opts.kid.Some? ==> "kid" in h && h["kid"] == JString(opts.kid.value))
              && "crit" !in h && "b64" !in h
              && suite.verify(h["alg"].s, publicKey, SigningInput(Encode(header), Encode(payload)), signature) == Some(true)
  {
    VerifyIff(rt, codec, suite, token, publicKey, opts, h, payload);
    hide VerifyJws, Encode, SigningInput;
    if VerifyJws(rt, codec, suite, token, publicKey, opts) == Ok(Verified(h, payload)) {
      var header, signature :| ValidToken(codec, suite, token, publicKey, opts, header, payload, signature, h);
      assert token == Encode(header) + "." + Encode(payload) + "." + Encode(signature);
    }
    forall header, signature |
      && token == Encode(header) + "." + Encode(payload) + "." + Encode(signature)
      && header != [] && payload != [] && signature != []
      && codec.parse(header) == Some(JObject(h))
      && "alg" in h
      && ((h["alg"] == JString("ML-DSA-65") && |publicKey| == 1952 && |signature| == 3309)
          || (h["alg"] == JString("ML-DSA-87") && |publicKey| == 2592 && |signature| == 4627))
      && (opts.alg.Some? ==> h["alg"] == JString(opts.alg.value))
      && (opts.kid.Some? ==> "kid" in h && h["kid"] == JString(opts.kid.value))
      && "crit" !in h && "b64" !in h
      && suite.verify(h["alg"].s, publicKey, SigningInput(Encode(header), Encode(payload)), signature) == Some(true)
      ensures VerifyJws(rt, codec, suite, token, publicKey, opts) == Ok(Verified(h, payload))
    {
      assert ValidToken(codec, suite, token, publicKey, opts, header, payload, signature, h);
    }
  }

  /** A token that is refused is refused for the first of these that it fails. */
  lemma RefusedMeans(rt: Runtime, codec: Codec, suite: MlDsa.Suite, token: string, publicKey: Octets, opts: VerifyOptions)
    ensures var parts := Split(token, '.');
            var r := VerifyJws(rt, codec, suite, token, publicKey, opts);
            if |parts| != 3 then r == Err(NotThreeSegments)
            else
              var header, payload, signature := Strict(rt, parts[0]), Strict(rt, parts[1]), Strict(rt, parts[2]);
              if header.None? then r == Err(BadSegment)
              else if codec.parse(header.value).None? then r == Err(HeaderNotJson)
              else if payload.None? || signature.None? then r == Err(BadSegment)
              else if !codec.parse(header.value).value.JObject? then r == Err(HeaderNotObject)
              else
                var h := codec.parse(header.value).value.members;
                var is65, is87 := "alg" in h && h["alg"] == JString("ML-DSA-65"), "alg" in h && h["alg"] == JString("ML-DSA-87");
                if !is65 && !is87 then r == Err(AlgNotAllowed)
                else if opts.alg.Some? && h["alg"] != JString(opts.alg.value) then r == Err(AlgMismatch)
                else if opts.kid.Some? && ("kid" !in h || h["kid"] != JString(opts.kid.value)) then r == Err(KidMismatch)
                else if "crit" in h then r == Err(CritPresent)
                else if "b64" in h then r == Err(B64Present)
                else if |publicKey| != (if is65 then 1952 else 2592) then r == Err(WrongKeySize)
                else if |signature.value| != (if is65 then 3309 else 4627) then r == Err(WrongSignatureSize)
                else if suite.verify(h["alg"].s, publicKey, SigningInput(parts[0], parts[1]), signature.value) != Some(true)
                then r == Err(SignatureInvalid)
                else r == Ok(Verified(h, payload.value))
  {
    hide Strict, Split, SigningInput;
    var parts := Split(token, '.');
    if |parts| == 3 && Strict(rt, parts[2]).Some? { Hex.ParsePrint(Strict(rt, parts[2]).value); }
  }
}
