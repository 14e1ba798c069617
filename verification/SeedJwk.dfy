/** AKP JWKs in seed form (src/seed.js, after RFC 9964). */
module SeedJwk {
  import opened Octet
  import opened Base64Url
  import SeedPkcs8

  datatype Jwk = Jwk(kty: string, alg: string, pub: string, priv: Option<string>, kid: Option<string>, purpose: Option<string>)

  datatype KeyPair = KeyPair(publicKey: Octets, secretKey: Octets)

  datatype Error = Unsupported | WrongKty | NotText | PublicKeySize | ExpandedKeyGiven | SeedSize | Inconsistent

  datatype Key = PublicOnly(alg: string, publicKey: Octets) | Full(alg: string, pair: KeyPair, seed: Octets)

  function ExportJwk(rt: Runtime, alg: string, publicKey: Octets, seed: Option<Octets>,
                     kid: Option<string>, purpose: Option<string>): Result<Jwk, Error>
  {
    var p := SeedPkcs8.ParamsFor(alg);
    if p.None? then Err(Unsupported)
    else if |publicKey| != p.value.publicKeyBytes then Err(PublicKeySize)
    else if seed.Some? && |seed.value| == p.value.secretKeyBytes then Err(ExpandedKeyGiven)
    else if seed.Some? && |seed.value| != p.value.seedBytes then Err(SeedSize)
    else
      var priv := if seed.Some? then Some(ToText(rt, seed.value)) else None;
      Ok(Jwk("AKP", alg, ToText(rt, publicKey), priv, Given(kid), Given(purpose)))
  }

  function ImportJwk(rt: Runtime, keygen: (string, Octets) -> KeyPair, jwk: Jwk): Result<Key, Error> {
    if jwk.kty != "AKP" then Err(WrongKty)
    else
      var p := SeedPkcs8.ParamsFor(jwk.alg);
      if p.None? then Err(Unsupported)
      else
        var publicKey := FromText(rt, jwk.pub);
        if publicKey.None? then Err(NotText)
        else if |publicKey.value| != p.value.publicKeyBytes then Err(PublicKeySize)
        else if jwk.priv.None? then Ok(PublicOnly(jwk.alg, publicKey.value))
        else
          var seed := FromText(rt, jwk.priv.value);
          if seed.None? then Err(NotText)
          else if |seed.value| != p.value.seedBytes then Err(SeedSize)
          else
            var expanded := keygen(jwk.alg, seed.value);
            if expanded.publicKey != publicKey.value then Err(Inconsistent)
            else Ok(Full(jwk.alg, expanded, seed.value))
  }

  /**
   * Exporting a key with its seed and importing it gives the algorithm, the
   * expanded pair and the seed back exactly when the public key is the one the
   * seed expands to; any other public key is reported as inconsistent.
   */
  lemma PrivateRoundTripIff(rt: Runtime, other: Runtime, keygen: (string, Octets) -> KeyPair, alg: string,
                            publicKey: Octets, seed: Octets, kid: Option<string>, purpose: Option<string>)
    requires SeedPkcs8.ParamsFor(alg).Some?
    requires |publicKey| == SeedPkcs8.ParamsFor(alg).value.publicKeyBytes
    requires |seed| == SeedPkcs8.ParamsFor(alg).value.seedBytes
    ensures var jwk := ExportJwk(rt, alg, publicKey, Some(seed), kid, purpose);
            && jwk.Ok?
            && ImportJwk(other, keygen, jwk.value)
               == if keygen(alg, seed).publicKey == publicKey then Ok(Full(alg, keygen(alg, seed), seed))
                  else Err(Inconsistent)
  {
    hide Encode, FromText;
    FromTextEncode(other, publicKey);
    FromTextEncode(other, seed);
  }

  lemma PublicRoundTrip(rt: Runtime, other: Runtime, keygen: (string, Octets) -> KeyPair, alg: string,
                        publicKey: Octets, kid: Option<string>, purpose: Option<string>)
    requires SeedPkcs8.ParamsFor(alg).Some?
    requires |publicKey| == SeedPkcs8.ParamsFor(alg).value.publicKeyBytes
    ensures var jwk := ExportJwk(rt, alg, publicKey, None, kid, purpose);
            jwk.Ok? && ImportJwk(other, keygen, jwk.value) == Ok(PublicOnly(alg, publicKey))
  {
    hide Encode, FromText;
    FromTextEncode(other, publicKey);
  }

  /** Whatever JWK is imported, a key with a seed is the expansion of that seed and agrees with the JWK's public key. */
  lemma ImportedIsConsistent(rt: Runtime, keygen: (string, Octets) -> KeyPair, jwk: Jwk)
    ensures var r := ImportJwk(rt, keygen, jwk);
            var p := SeedPkcs8.ParamsFor(jwk.alg);
            && (r.Ok? ==> jwk.kty == "AKP" && p.Some? && r.value.alg == jwk.alg)
            && (r.Ok? && r.value.Full? ==>
                  && |r.value.seed| == p.value.seedBytes
                  && r.value.pair == keygen(jwk.alg, r.value.seed)
                  && |r.value.pair.publicKey| == p.value.publicKeyBytes
                  && FromText(rt, jwk.pub) == Some(r.value.pair.publicKey)
                  && jwk.priv.Some? && FromText(rt, jwk.priv.value) == Some(r.value.seed))
            && (r.Ok? && r.value.PublicOnly? ==>
                  jwk.priv.None? && |r.value.publicKey| == p.value.publicKeyBytes && FromText(rt, jwk.pub) == Some(r.value.publicKey))
  {
    hide FromText;
  }

  /** Whatever JWK was imported, in any spelling, the key it gave survives export and import on any two runtimes. */
  lemma ReexportKeepsKey(rt: Runtime, writer: Runtime, reader: Runtime, keygen: (string, Octets) -> KeyPair, jwk: Jwk,
                         kid: Option<string>, purpose: Option<string>)
    requires ImportJwk(rt, keygen, jwk).Ok?
    ensures var key := ImportJwk(rt, keygen, jwk).value;
            var again := if key.Full? then ExportJwk(writer, key.alg, key.pair.publicKey, Some(key.seed), kid, purpose)
                         else ExportJwk(writer, key.alg, key.publicKey, None, kid, purpose);
            again.Ok? && ImportJwk(reader, keygen, again.value) == Ok(key)
  {
    hide FromText, ToText, ExportJwk;
    ImportedIsConsistent(rt, keygen, jwk);
    var key := ImportJwk(rt, keygen, jwk).value;
    if key.Full? {
      PrivateRoundTripIff(writer, reader, keygen, key.alg, key.pair.publicKey, key.seed, kid, purpose);
    } else {
      PublicRoundTrip(writer, reader, keygen, key.alg, key.publicKey, kid, purpose);
    }
  }

  /** Both storage forms of one seed lead back to the same key pair, and an expanded key is taken by neither. */
  lemma StorageFormsAgree(rt: Runtime, keygen: (string, Octets) -> KeyPair, alg: string, seed: Octets)
    requires SeedPkcs8.ParamsFor(alg).Some? && |seed| == SeedPkcs8.ParamsFor(alg).value.seedBytes
    requires |keygen(alg, seed).publicKey| == SeedPkcs8.ParamsFor(alg).value.publicKeyBytes
    requires |keygen(alg, seed).secretKey| == SeedPkcs8.ParamsFor(alg).value.secretKeyBytes
    ensures var pair := keygen(alg, seed);
            var jwk := ExportJwk(rt, alg, pair.publicKey, Some(seed), None, None);
            var der := SeedPkcs8.ExportSeedPkcs8(alg, seed);
            && jwk.Ok? && der.Ok?
            && ImportJwk(rt, keygen, jwk.value) == Ok(Full(alg, pair, seed))
            && SeedPkcs8.Import(der.value) == Ok(SeedPkcs8.Imported(alg, seed))
            && ExportJwk(rt, alg, pair.publicKey, Some(pair.secretKey), None, None) == Err(ExpandedKeyGiven)
            && SeedPkcs8.ExportSeedPkcs8(alg, pair.secretKey).Err?
  {
    hide Encode, FromText, SeedPkcs8.Import;
    PrivateRoundTripIff(rt, rt, keygen, alg, keygen(alg, seed).publicKey, seed, None, None);
    SeedPkcs8.SeedRoundTrip(alg, seed, []);
    var der := SeedPkcs8.ExportSeedPkcs8(alg, seed).value;
    assert der + [] == der;
  }

  /** What a JWK is written with, member by member; what is refused, in the order it is looked at. */
  lemma ExportMeans(rt: Runtime, alg: string, publicKey: Octets, seed: Option<Octets>, kid: Option<string>, purpose: Option<string>)
    ensures var p := SeedPkcs8.ParamsFor(alg);
            ExportJwk(rt, alg, publicKey, seed, kid, purpose)
            == if p.None? then Err(Unsupported)
               else if |publicKey| != p.value.publicKeyBytes then Err(PublicKeySize)
               else if seed.Some? && |seed.value| == p.value.secretKeyBytes then Err(ExpandedKeyGiven)
               else if seed.Some? && |seed.value| != p.value.seedBytes then Err(SeedSize)
               else Ok(Jwk("AKP", alg, Encode(publicKey), if seed.Some? then Some(Encode(seed.value)) else None,
                           if kid == Some("") then None else kid, if purpose == Some("") then None else purpose))
  {
    hide Encode;
  }

  /** What a JWK must be to be imported, and what is imported, for text in the alphabet. */
  lemma ImportMeans(rt: Runtime, keygen: (string, Octets) -> KeyPair, jwk: Jwk)
    requires UrlText(jwk.pub) && |jwk.pub| % 4 != 1
    requires jwk.priv.Some? ==> UrlText(jwk.priv.value) && |jwk.priv.value| % 4 != 1
    ensures var p := SeedPkcs8.ParamsFor(jwk.alg);
            var publicKey := Decode(jwk.pub);
            ImportJwk(rt, keygen, jwk)
            == if jwk.kty != "AKP" then Err(WrongKty)
               else if p.None? then Err(Unsupported)
               else if |publicKey| != p.value.publicKeyBytes then Err(PublicKeySize)
               else if jwk.priv.None? then Ok(PublicOnly(jwk.alg, publicKey))
               else if |Decode(jwk.priv.value)| != p.value.seedBytes then Err(SeedSize)
               else if keygen(jwk.alg, Decode(jwk.priv.value)).publicKey != publicKey then Err(Inconsistent)
               else Ok(Full(jwk.alg, keygen(jwk.alg, Decode(jwk.priv.value)), Decode(jwk.priv.value)))
  {
    hide Decode, BrowserDecode, UrlText;
    BrowserDecodes(jwk.pub);
    if jwk.priv.Some? { BrowserDecodes(jwk.priv.value); }
  }
}
