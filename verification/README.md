# Verification of kxco-post-quantum

A Dafny model of the parts of the package where correctness rests on an argument that one function body does not show: the FIPS module's random bit generator and life cycle, the encodings of tokens, keys and webhook deliveries, the two import-graph walks and the vendoring rewrite, and the flat JSON of one interoperability peer.

Check everything with `dafny verify dfyconfig.toml` and Dafny 4.11.

## What is modelled

The HMAC, hash, key generation, signature and encapsulation primitives, JSON text and UTF-8 are function parameters. A theorem that needs them correct says so in its precondition. Where a claim of the code holds only on a condition, the theorem is an equivalence and names that condition. Beside the theorems, the lemmas whose names end in `Means`, `Answered` or `Met` say what each definition the theorems rest on amounts to in bytes, characters, numbers and the primitives, so that the theorems can be read without trusting the definitions.

**The FIPS module** (`src/fips/`).
`Sp80090A` is HMAC_DRBG as sections 10.1.2.2 to 10.1.2.5 of SP 800-90A Rev. 1 state it, on values. `Drbg.HmacDrbg` is the class over buffers: K and V are replaced, and ghost records keep every buffer either has been: `Valid` says that each is live, overwritten and still zero, or among those the code lets go as they were. `Entropy` is the read loop against a device that cuts its reads in any way. `FipsServices` gives each service on values, `FipsTable.ServiceTable` is the closure that owns the generator, `FipsLifecycle` is the run semantics of the module, `Fips.FipsModule` is `index.js` and keeps the generator object that was started in sight after the table is gone, and `Integrity` is the signed manifest with its builder.

**Encodings.** `Base64Url` has both runtimes of `src/jws.js`; `Hex`, `Jws` (with `MlDsa`), `Der`, `SeedPkcs8`, `SeedJwk` and `Webhook` follow the files of the same subject.

**Tooling.** `Specifiers` is the hand-written scanner of the audit, held against a grammar of code, comments and literals. `Audit` is the queue walk. `ImportText` is the SPECIFIER pattern of the vendoring script as a scanner and a rewriter over text, `PosixPath` the path functions it calls, and `Vendoring` the stack walk, the build and the theorem that the import graph survives the move. Both walks are proved against `Reachability`.

**The peer.** `FlatJson` is the writer and the index-driven reader of the Bouncy Castle peer.

## Results a reader may not expect

- A second `instantiate` drops the live K and V without overwriting them: `Drbg.HmacDrbg.Instantiate` says they keep their bytes and are not among the retired buffers. The generate loop lets each V it passes go in the same way: `Drbg.HmacDrbg.Generate` says which, and `Drbg.Replay` counts them over any run. The comment at `src/fips/drbg.js:102-103` is about `#update`, where it holds.
- A webhook secret given as an empty text signs and counts as not given on verification: `Webhook.SignThenVerifyDelivery`.
- A seed drawn for a key whose generation then fails, and the randomness of a pairwise test in which a primitive throws, are not overwritten: `FipsTable.ServiceTable.Serve`.
- An empty JWS payload signs and does not verify. `Jws.SignThenVerifyIff` gives the exact condition.
- A seed-form PKCS#8 key cut short inside its seed imports as a shorter seed: `SeedPkcs8.CutExportImportsShort`, with the exact conditions in `SeedPkcs8.PrefixImportsIff` and `SeedPkcs8.WholeSeedIff`. Bytes after a key are ignored: `SeedPkcs8.SeedRoundTrip`.
- `derLength` loses the upper bytes of a length of 65536 or more: `Der.LengthRoundTripIff`.
- A vendored path that begins with a name that begins with a dot gets no `./`, so the script resolves it and a module loader would take it for a package: `PosixPath.DottedLoads`, and `Vendoring.NothingHidden` for the condition on the installed files.
- The audit's scanner leaves comments out of its answer and not out of its position test, against the comment at `audit/run-audit.mjs:82`: a line comment that ends in a keyword can make the next literal a specifier, and a comment between keyword and literal hides one. `Specifiers.PositionVersusCode` says exactly when.
- A webhook timestamp with a dot in it makes the envelope ambiguous; the digits-only rule is what prevents it: `Webhook.ShorterReadingIff` and `Webhook.EnvelopeInjective`.
- The flat JSON writer changes double quotes in values and its reader refuses backslashes: `FlatJson.ReadUndoesWrite` says exactly what comes back, and `FlatJson.ComesBackIff` which maps do.

## Model

| member | source | states |
|---|---|---|
| Sp80090A.GeneratedByteAt | src/fips/drbg.js:69-87 | every byte j of a request of any length is byte j mod 64 of the V reached after j / 64 + 1 passes, from the state the additional input left |
| Sp80090A.ShorterRequestIsPrefix | src/fips/drbg.js:76-83 | a shorter request from one state is a prefix of a longer one, partial last block included |
| Sp80090A.CounterInRange | src/fips/drbg.js:52-85 | after any run of calls an instantiated generator's counter is between 1 and 2^20 + 1 |
| Sp80090A.RefusedCallsAreInvisible | src/fips/drbg.js:47-74 | leaving the refused calls out of any run changes neither the final state nor any answer |
| Sp80090A.ReseedMeans | src/fips/drbg.js:56-61 | a reseed mixes the entropy and the additional input into K and V twice, told in the MAC alone, and starts a new interval |
| Sp80090A.InstantiateMeans | src/fips/drbg.js:46-53 | an instantiation does the same from 64 zeros and 64 ones with entropy, nonce and personalization string |
| Sp80090A.GenerateMeans | src/fips/drbg.js:69-87 | without additional input, the bytes of a request and the K and V it leaves, told in the MAC alone |
| Sp80090A.GenerateWithInputMeans | src/fips/drbg.js:69-87 | with additional input, which is mixed in before the output and again after it, the same |
| Sp80090A.RefusalsMean | src/fips/drbg.js:46-96 | what each call refuses, with its bounds in numbers and in order; everything else is done |
| Drbg.Concat | src/fips/drbg.js:29-36 | the new buffer holds the parts in order |
| Drbg.HmacDrbg.Step | src/fips/drbg.js:110-117 | new K and V are fresh, recorded, and hold the two HMACs of the old ones; exactly the old two buffers join the retired set, which stays all zero |
| Drbg.HmacDrbg.Update | src/fips/drbg.js:104-108 | K and V become those of section 10.1.2.2; one pair is made without provided data and two with it, and exactly the entry pair and the pair made in between join the retired set, which stays all zero |
| Drbg.HmacDrbg.Instantiate | src/fips/drbg.js:46-53 | state and reply are those of section 10.1.2.3 or a refusal that changes nothing; three pairs are made and the first two overwritten, while an earlier live pair is let go as it was |
| Drbg.HmacDrbg.Reseed | src/fips/drbg.js:56-61 | state and reply are those of section 10.1.2.4 or a refusal that changes nothing; the old pair and the one made in between are retired and nothing is let go |
| Drbg.HmacDrbg.GenerateBlocks | src/fips/drbg.js:76-83 | the loop fills a new buffer with exactly the leftmost bytes of V1, V2, and so on, leaves the last V, and lets go the V of each pass, each holding its value in the chain |
| Drbg.HmacDrbg.Generate | src/fips/drbg.js:69-87 | state and reply are those of section 10.1.2.5 or a refusal that changes nothing; the returned buffer was never K or V; what is let go is the V of each pass and nothing else, every key is overwritten |
| Drbg.HmacDrbg.Uninstantiate | src/fips/drbg.js:90-96 | no state is left and both buffers are retired and zero |
| Drbg.Replay | src/fips/drbg.js:40-117 | for every run of calls the class's state and replies are those of the standard, and of all the buffers K and V have been exactly as many, all different, as the calls let go are left, the live pair apart; the others are zero |
| Drbg.ErasureMeans | src/fips/drbg.js:69-117 | what the records say of bytes: every buffer K or V was is live, zero, or let go with its value in the chain |
| Entropy.ServedIffCovered | src/fips/entropy.js:25-29 | however reads are cut, a request is served exactly when a run of positive grants covers it, and then the device has moved by exactly the length |
| Entropy.RequestMeans | src/fips/entropy.js:20-34 | a request is served exactly when the device opens and positive grants cover it, and then with the next bytes of the device in order |
| Entropy.EntropySource.GetEntropy | src/fips/entropy.js:20-34 | returns exactly the next bytes of the device in order in a new buffer, or nothing; the descriptor is closed either way |
| FipsServices.DrawKeepsRegular | src/fips/module.js:80-91 | a draw of any permitted length fails exactly when a reseed is due and the entropy source does not serve it |
| FipsServices.DrawMeans | src/fips/module.js:80-91 | a draw is a generation from the state there is or, past 2^20 of them, from that state with the next 48 bytes of the device mixed in as a reseed does |
| FipsServices.SetsByName | src/fips/module.js:14-54 | the four names and the primitives each stands for |
| FipsServices.StartMeans | src/fips/module.js:67-78 | the generator starts from the first 48 bytes of the device, the 32 after them and the personalization string |
| FipsServices.StartFaults | src/fips/module.js:64-78 | a start fails for its self-tests first and else exactly where one of the two requests is not served |
| FipsServices.ReseedSchedule | src/fips/module.js:80-91 | after n >= 1 draws of any lengths the generator has reseeded floor((n - 1) / 2^20) times and its counter is in range |
| FipsServices.ServiceKeepsRegular | src/fips/module.js:121-217 | no service ends the generator's bookkeeping except fatally, and only the three that draw can fail fatally |
| FipsServices.GeneratedPairPassed | src/fips/module.js:125-155 | a generated pair passed the pairwise test of its set, and its seed re-expands to the same pair |
| FipsServices.FatalIff | src/fips/module.js:80-208 | a request is fatal exactly when a draw it makes finds a reseed due that the device does not serve, or the pair it made fails its pairwise test |
| FipsTable.ServiceTable.Random | src/fips/module.js:80-91 | the draw of the value model; the buffer handed out is new and was never the generator's |
| FipsTable.ServiceTable.PctKem | src/fips/module.js:95-107 | passes exactly for a consistent pair; the randomness it drew is zero when no primitive throws, whatever the outcome, and is left as it was otherwise |
| FipsTable.ServiceTable.PctDsa | src/fips/module.js:108-119 | passes exactly for a consistent pair; the randomness it drew is zero once the message was signed, whatever the outcome, and is left as it was when signing throws |
| FipsTable.ServiceTable.GenerateKem | src/fips/module.js:127-133 | the outcome of the value model; the seed buffer returned is the first one drawn, unchanged, and the second is zero |
| FipsTable.ServiceTable.GenerateDsa | src/fips/module.js:134-138 | the outcome of the value model; the seed buffer returned is the first one drawn, unchanged, and the second is zero |
| FipsTable.ServiceTable.Encapsulate | src/fips/module.js:159-169 | the randomness drawn is zero on return whether or not the primitive throws |
| FipsTable.ServiceTable.Sign | src/fips/module.js:182-193 | the randomness drawn is zero on return whether or not the primitive throws |
| FipsTable.ServiceTable.Serve | src/fips/module.js:121-208 | every service moves the state and answers as the value model does, and of the buffers it draws leaves exactly the seed of a generation and the randomness of a pairwise test that threw |
| FipsTable.ServiceTable.Destroy | src/fips/module.js:215-217 | the generator is uninstantiated and its live pair is zero |
| FipsTable.Start | src/fips/module.js:67-78 | a table exists exactly when the self-tests pass and both entropy requests are served, over the instantiated state |
| FipsTable.OverwriteIssued | src/fips/module.js:61-63 | a caller that overwrites any buffer it was given leaves the generator, and so every later output, as it was |
| FipsTable.WipedMeans | src/fips/module.js:61-63 | every byte of a drawn buffer that is not among those kept is zero |
| FipsLifecycle.OperationalAtImportIff | src/fips/index.js:123-134 | the module comes up exactly when every check at import passes, the manifest is authentic and the device serves both requests |
| FipsLifecycle.ImportMeans | src/fips/index.js:123-134 | import fails for the first check that does, in the order they are made, and keeps the version of an authentic manifest |
| FipsLifecycle.RunKeepsSound | src/fips/index.js:93-160 | after any run, operational means a service table over a healthy instantiated generator, and error means no table and a generator, if one was started, that is uninstantiated |
| FipsLifecycle.OverAnyRun | src/fips/index.js:93-160 | from import on, after any run: operational means a table over an instantiated generator whose counter is in range, failed means a reason, no table and no generator state, and there is no third |
| FipsLifecycle.ErrorIsAbsorbing | src/fips/index.js:108-111 | from the error state no run changes anything and no call is answered |
| FipsLifecycle.StillOperationalIff | src/fips/index.js:108-160 | a run leaves the module operational exactly when no event of it, at the state it met, was a starved draw, a pair that fails its test or a failed self-test |
| FipsLifecycle.EveryPairPassed | src/fips/module.js:125-139 | every key pair any run hands out passed the pairwise test of its own parameter set |
| FipsLifecycle.NotOperationalIff | src/fips/index.js:108-111 | an event of a run goes unanswered exactly when the module is not operational at that point |
| FipsLifecycle.VerifyAnswered | src/fips/module.js:197-208 | a signature in a run is answered true exactly when the primitive of the named set takes it for this message and key, under the context given or the empty one; nothing it does stops the module |
| FipsLifecycle.DecapsulateAnswered | src/fips/module.js:172-179 | any ciphertext in a run is answered with what the primitive of the named set makes of it |
| FipsLifecycle.ExpansionAnswered | src/fips/module.js:143-156 | a seed of the named set's length is answered with the pair its keygen makes, any other with a refusal |
| FipsLifecycle.EncapsulateAnswered | src/fips/module.js:159-170 | an encapsulation in a run is the named primitive's on this key and the 32 bytes drawn for it |
| FipsLifecycle.SignAnswered | src/fips/module.js:182-193 | a signature made in a run is the named primitive's on this key, message and context and the 32 bytes drawn for it |
| FipsLifecycle.KemPairAnswered | src/fips/module.js:95-133 | a generated KEM pair is the keygen's of the 64 bytes returned with it, and is returned exactly when decapsulation gives back the secret encapsulated with the next 32 |
| FipsLifecycle.DsaPairAnswered | src/fips/module.js:108-139 | a generated signature pair is the keygen's of the 32 bytes returned with it, and is returned exactly when the test message signed with the next 32 verifies |
| FipsLifecycle.FaultsMean | src/fips/index.js:108-121 | a call that stops the module leaves it failed, without table and generator, for a draw not served or a pairwise test that failed, by kind |
| FipsLifecycle.SelfTestAnswered | src/fips/index.js:149-160 | an on-demand self-test passes exactly when its casts do and the directory is authentic, and the first that does not is the reason |
| FipsLifecycle.SecretsAreShared | src/fips/module.js:121-179 | with a keygen whose pairs decapsulate what is encapsulated to them, every pair handed out in a run shares secrets everywhere in that run, and encapsulating to it is never the caller's error |
| FipsLifecycle.SignaturesVerify | src/fips/module.js:121-208 | with a keygen whose pairs verify what they sign, every signature made in a run with a pair of that run verifies everywhere in it under its context; signing is refused exactly for a context over 255 bytes |
| Fips.FipsModule.constructor | src/fips/index.js:123-134 | import leaves the module in the state of the run semantics, whose generator is the object that was started |
| Fips.FipsModule.EnterError | src/fips/index.js:93-100 | the table is gone, and the generator object behind it is uninstantiated and its live pair overwritten |
| Fips.FipsModule.Call | src/fips/index.js:108-121 | a service call is one step of the run semantics; where it ends the table, the generator object is uninstantiated |
| Fips.FipsModule.SelfTest | src/fips/index.js:149-160 | an on-demand self-test is one step of the run semantics; where it ends the table, the generator object is uninstantiated |
| Fips.Live | src/fips/index.js:108-160 | any run of calls and self-tests on the object gives the states and replies of the run semantics; where it ends without a table, the generator object it had is uninstantiated, every key it ever held is zero and of its V buffers only those let go are not; and of all the buffers drawn in the run exactly as many as its events leave are not overwritten |
| Fips.ErasedMeans | src/fips/index.js:93-100 | of an erased generator no state and no byte of any key is left, nor of any V but those let go |
| Integrity.ListFiles | src/fips/index.js:55-63 | the loop lists the files below a directory in reading order |
| Integrity.ListedIffFile | src/fips/index.js:55-63 | a name is listed exactly when splitting it at its slashes leads to a file |
| Integrity.LookupMeans | src/fips/index.js:55-63 | a path is followed entry by entry, to a file's content or into a directory |
| Integrity.BuildManifest | scripts/build-fips-manifest.mjs:33-38 | the file map is path to digest over all files but the two integrity files |
| Integrity.IntegrityTest | src/fips/index.js:65-91 | accepts exactly a directory whose signed manifest verifies, parses and maps every covered path, and no other, to its digest |
| Integrity.AuthenticMeans | src/fips/index.js:65-91 | what an authentic directory is, told in names, contents, the hash and the signature alone |
| Integrity.ReleaseIsAuthentic | scripts/build-fips-manifest.mjs:33-39 | for every tree, the manifest the builder writes, correctly signed and installed, is accepted |
| Integrity.TamperingIsRefused | src/fips/index.js:77-89 | a later tree with the same integrity files is accepted exactly when no covered file was added, removed or given another digest |
| Integrity.ChangedContentIsRefused | src/fips/index.js:65-91 | with a hash that tells the contents apart, a later tree with the same two integrity files is accepted exactly when every other file is as it was, byte for byte, and no file came or went |
| Hex.ParsePrint | src/ml-dsa.js:44-61 | decoding undoes encoding for every byte string |
| Hex.PrintParse | src/ml-dsa.js:44-61 | encoding what was decoded gives the lower-case text |
| Hex.SameBytesIffSameLetters | src/ml-dsa.js:44-49 | two hex texts decode alike exactly when they differ in letter case alone |
| Hex.PrintAt | src/ml-dsa.js:57-61 | both digits of every byte, by their place in the digits |
| Hex.ParsesIff | src/ml-dsa.js:44-52 | hex text is pairs of these digits and nothing else |
| Hex.BytesToHex | src/ml-dsa.js:57-61 | the loop builds two digits a byte, high digit first |
| Hex.HexToBytes | src/ml-dsa.js:44-49 | a new buffer with the bytes, or a refusal exactly for odd length or a character that is no digit |
| MlDsa.FormsAgree | src/ml-dsa.js:54-56 | a signature verifies as raw bytes and as its hex in any letter case, or as neither |
| MlDsa.VerifyMeans | src/ml-dsa.js:128-140 | raw or hex, a signature is judged as the primitive judges its bytes; any other form is not taken |
| ConstTime.BytesEqual | src/seed.js:262-267 | the accumulated difference is zero exactly for equal byte strings |
| ConstTime.StringsEqual | src/webhook.js:51-56 | the accumulated difference is zero exactly for equal strings |
| Base64Url.DecodeEncode | src/jws.js:60-74 | decoding undoes encoding for every byte string |
| Base64Url.EncodeDecodeIff | src/jws.js:76-88 | re-encoding gives a text back exactly when it wastes no sextet and drops no set bit |
| Base64Url.EncodeAt | src/jws.js:60-65 | character j is the letter of the RFC 4648 alphabet for bits 6j to 6j + 5 of the bytes |
| Base64Url.OctetAt | src/jws.js:67-74 | byte k is bits 8k to 8k + 7 of the characters' values, and what does not fill a byte is dropped |
| Base64Url.BrowserRefuses | src/jws.js:67-74 | the atob path refuses text with any character that is no letter, padding or white space |
| Base64Url.BrowserEncodes | src/jws.js:62-64 | btoa with two symbols renamed and padding stripped writes base64url |
| Base64Url.BrowserDecodes | src/jws.js:69-73 | the padding arithmetic decodes every length but 4k + 1, which atob refuses |
| Base64Url.StrictIff | src/jws.js:81-88 | on either runtime the strict reader accepts exactly the non-empty outputs of the writer, with their bytes |
| Base64Url.StrictAcceptsIff | src/jws.js:81-88 | the accepted texts told by their characters alone |
| Base64Url.RuntimesAgree | src/jws.js:60-88 | the Buffer path and the btoa and atob path accept the same texts with the same bytes |
| Base64Url.B64url | src/jws.js:60-65 | both paths, the loop included, write the one spelling |
| Base64Url.FromB64url | src/jws.js:67-74 | both paths, the loop included, decode or refuse as the text model says |
| Jws.CompactInjective | src/jws.js:151-159 | a token and its header, payload and signature bytes determine each other |
| Jws.SigningInputInjective | src/jws.js:153-249 | equal signing inputs have equal header and payload bytes |
| Jws.SignedToken | src/jws.js:124-160 | signing with a key of either set gives the compact form of that header, the payload and the key's signature |
| Jws.SignedMeans | src/jws.js:124-160 | which algorithm signs, what is refused and in which order, and the token there is otherwise |
| Jws.HeaderMeans | src/jws.js:137-149 | every member of the signed header: alg, typ, kid, the extra ones, and no more |
| Jws.SigningInputMeans | src/jws.js:151-153 | what is signed is the ASCII of the header's text, a dot and the payload's |
| Jws.VerifyIff | src/jws.js:179-254 | a token is valid with a header and payload exactly when it is three byte strings in their one spelling whose header names an allowed algorithm and meets every pin, with fitting sizes and a signature that holds |
| Jws.AcceptedMeans | src/jws.js:179-254 | the same with every helper spelled out: names, sizes, pins and the primitive's answer on the text before the last dot |
| Jws.RefusedMeans | src/jws.js:179-254 | a token that is refused is refused for the first check it fails, in the order they are made |
| Jws.TokensMatchTriples | src/jws.js:76-88 | two valid tokens are one exactly when their header, payload and signature bytes are, and one header text has one header |
| Jws.SignThenVerifyIff | src/jws.js:124-254 | a signed token verifies under the matching key exactly when the payload is not empty, the extra header has neither crit nor b64, and the pins agree |
| Der.LengthRoundTripIff | src/seed.js:291-397 | readLength undoes derLength and consumes exactly its bytes, exactly for lengths below 65536 |
| Der.LengthMeans | src/seed.js:291-299 | the octets of a length and of an encoding, form by form |
| Der.ReadLengthMeans | src/seed.js:389-397 | the length read from one octet or from one to three after it, high byte first, or the refusal |
| Der.SelfDelimiting | src/seed.js:297-299 | two encodings that agree with any trailing data have equal tags, payloads and remainders |
| Der.Reader.Length | src/seed.js:389-397 | the cursor loop reads a length, or refuses, as the positional model says |
| SeedPkcs8.ImportSeedPkcs8 | src/seed.js:335-380 | the reader over one moving cursor computes the positional import |
| SeedPkcs8.ParamsMean | src/seed.js:48-70 | the lengths and the object identifier of each of the four sets |
| SeedPkcs8.ExportMeans | src/seed.js:311-326 | every byte of an export, for each of the four sets, and what is refused |
| SeedPkcs8.ImportMeans | src/seed.js:335-380 | what a buffer must hold, field by field, to be imported as a given algorithm and seed |
| SeedPkcs8.ExpandedMeans | src/_native.node.js:123-130 | the expanded form: version, identifier as given, and the key in two OCTET STRINGs |
| SeedPkcs8.SeedRoundTrip | src/seed.js:311-380 | every seed of every set survives export and import, whatever bytes follow |
| SeedPkcs8.CutExportImportsShort | src/seed.js:375-379 | an export cut inside its seed imports as the bytes that are left |
| SeedPkcs8.PrefixImportsIff | src/seed.js:335-380 | a prefix of an export is imported exactly when it reaches the seed, and gives the seed back exactly when it is the whole export |
| SeedPkcs8.WholeSeedIff | src/seed.js:375-379 | an accepted buffer gives a whole seed exactly when it is long enough for one after the length of its seed field; otherwise the seed is what is left |
| SeedPkcs8.ExpandedFormRefused | src/seed.js:364-370 | every expanded-form key built for these algorithms is refused as one |
| SeedPkcs8.IdentifierRecoveredIff | src/_native.node.js:116-130 | the identifier a key was wrapped with is recovered exactly when its own length fits one byte, short or long outer length alike |
| SeedJwk.PrivateRoundTripIff | src/seed.js:184-260 | import returns the algorithm, expanded pair and seed exactly when the exported public key is the seed's own; otherwise the key is reported inconsistent |
| SeedJwk.PublicRoundTrip | src/seed.js:184-240 | a public JWK survives export and import on any two runtimes |
| SeedJwk.ExportMeans | src/seed.js:184-215 | the members of an exported JWK, and what is refused, in order |
| SeedJwk.ImportMeans | src/seed.js:226-260 | what a JWK must be to be imported, and what is imported |
| SeedJwk.ReexportKeepsKey | src/seed.js:184-260 | whatever JWK was imported, in any spelling, the key it gave survives export and import on any two runtimes |
| SeedJwk.StorageFormsAgree | src/seed.js:184-380 | both storage forms of a seed lead back to it, and an expanded key is taken by neither |
| Webhook.BuildEnvelope | src/webhook.js:64-71 | the new buffer holds the timestamp, a dot and the body |
| Webhook.EnvelopeInjective | src/webhook.js:64-158 | with digits-only timestamps equal envelopes have equal timestamps and bodies |
| Webhook.ShorterReadingIff | src/webhook.js:64-71 | an envelope can be read with a shorter timestamp exactly when its own timestamp holds a dot |
| Webhook.DotFreeReadingIsOnly | src/webhook.js:64-71 | two readings of one envelope whose timestamps hold no dot are the same timestamp bytes and the same body |
| Webhook.VerifyHmac | src/webhook.js:86-90 | true exactly when the header is the MAC in hex, with or without its prefix |
| Webhook.HmacMeans | src/webhook.js:76-91 | the accepted headers are the MAC of timestamp, dot and body under the secret's bytes, in lower-case hex, with its prefix or without |
| Webhook.TextSecretIsItsBytes | src/webhook.js:76-82 | a secret given as text is the secret given as that text's bytes |
| Webhook.OtherSecretIff | src/webhook.js:127-171 | a delivery signed under one secret has its MAC accepted under another exactly when the two keys give one MAC for its envelope |
| Webhook.VerifyPqIff | src/webhook.js:109-121 | true exactly when a reading of the header that the key admits verifies |
| Webhook.PqSignMeans | src/webhook.js:96-100 | which set signs, and the header it writes |
| Webhook.VerifyPqMeans | src/webhook.js:109-121 | a header is taken exactly when the primitive of the key's own set takes the bytes its hex stands for, over timestamp, dot and body |
| Webhook.OtherSetNeverVerifies | src/webhook.js:109-121 | a header naming one set never verifies under a key of the other, nor any header under a key of neither size |
| Webhook.DecimalRoundTrip | src/webhook.js:128-157 | the printed second is digits only and reads back as itself |
| Webhook.DecimalAt | src/webhook.js:128-128 | every place of the printed seconds, with no zero in front |
| Webhook.DecimalValueMeans | src/webhook.js:158-158 | the digits of a timestamp are read in the ten |
| Webhook.SignThenVerifyDelivery | src/webhook.js:127-171 | a signed delivery verified with the matching secret and keys has all four flags set exactly within the window, with a secret that is not an empty text and a pinned key identifier, if any, that is the sender's |
| Webhook.SignDeliveryMeans | src/webhook.js:127-139 | the four headers a verification reads |
| Webhook.VerifyDeliveryMeans | src/webhook.js:144-171 | each of the four flags, for any headers and any options |
| Webhook.AcceptanceSpan | src/webhook.js:157-171 | one delivery is never accepted at two times further apart than twice the window |
| Webhook.OneMacOneDelivery | src/webhook.js:86-171 | two deliveries accepted with one MAC header under one secret have envelopes with one MAC, and those are one message exactly when timestamp and body are the same |
| Specifiers.ImportPositionIff | audit/run-audit.mjs:92-125 | a prefix ends in an import position exactly when the keyword pattern has a reading at its end |
| Specifiers.PositionMeans | audit/run-audit.mjs:96-96 | an import position in characters alone: the keywords, what may be before them and what may follow |
| Specifiers.SpecifiersOf | audit/run-audit.mjs:92-125 | the cursor loop terminates on every source with the specifiers of the scanning function |
| Specifiers.ScanLiteral | audit/run-audit.mjs:107-118 | a literal in any of the three quotes is passed over whole and pushed exactly in an import position |
| Specifiers.ScanEscaped | audit/run-audit.mjs:110-114 | a backslash takes the character after it into the literal |
| Specifiers.ScanComments | audit/run-audit.mjs:98-106 | comments push nothing and are passed over, to the end of the line or to the first end mark |
| Specifiers.ScanCode | audit/run-audit.mjs:98-121 | any other character is passed over alone |
| Specifiers.ScanUnclosed | audit/run-audit.mjs:98-118 | what is never closed runs to the end, a literal with what there is of it |
| Specifiers.ScanOfSource | audit/run-audit.mjs:92-125 | for every source written as code, comments and literals, the result is exactly the bodies of the literals in import position, in order |
| Specifiers.EverySourceHasTokens | audit/run-audit.mjs:92-125 | every source can be written so, unterminated endings included |
| Specifiers.SpecifiersAreImports | audit/run-audit.mjs:92-125 | the two together: the audit's answer for any source in terms of its tokens alone |
| Specifiers.PositionVersusCode | audit/run-audit.mjs:82-115 | the position test and the code without its comments disagree exactly where only a gap follows the last comment and that comment is a line ending in a keyword, or stands behind the keyword of the code |
| Specifiers.ReadFromCodeIff | audit/run-audit.mjs:82-125 | every literal is judged by code alone exactly when none is of those two kinds, and then the answer is that of the source without its comments |
| Specifiers.CommentsAreRead | audit/run-audit.mjs:82-125 | a token list of each of the two kinds, and a source of each with what the scanner answers for it |
| Reachability.DoneIsReachable | audit/run-audit.mjs:133-176 | a walk with nothing pending has seen exactly the reachable nodes, the least closed set of the roots |
| Reachability.OrderDoesNotMatter | audit/run-audit.mjs:138-139 | two finished walks of one graph have seen the same nodes |
| Audit.PackageOfInstalled | audit/run-audit.mjs:168-173 | a file of an installed package is put down to that package, with its scope |
| Audit.NoPackage | audit/run-audit.mjs:168-173 | a file with no modules directory above it belongs to no package |
| Audit.UsesMeaning | audit/run-audit.mjs:150-175 | what each specifier of a file adds to targets, packages, builtins and findings |
| Audit.EdgeIff | audit/run-audit.mjs:154-175 | the walk goes from a file to a URL exactly where a specifier of its source is resolved, from that file, to it |
| Audit.WalkReachable | audit/run-audit.mjs:127-178 | the queue walk sees exactly the reachable URLs and names exactly their packages, builtins and unresolvable specifiers, and ends in an exception exactly when a reachable file leads to a URL that names no file |
| Audit.BuiltinMet | audit/run-audit.mjs:150-166 | the builtins named are the node: specifiers of reached files and what their specifiers are resolved to with that prefix |
| Audit.UnresolvedMet | audit/run-audit.mjs:154-162 | the unresolvable ones are those of reached files that are resolved to nothing from the file they stand in |
| Audit.PackageMet | audit/run-audit.mjs:154-175 | the packages named are those of the installed files that specifiers of reached files are resolved to |
| Audit.ForeignMet | audit/run-audit.mjs:154-167 | the exception is met exactly where a specifier of a reached file is resolved to a URL that is no builtin and no file |
| PosixPath.ResolveRelative | scripts/vendor-fips.mjs:68-68 | following the relative path from a directory arrives at the target |
| PosixPath.ResolveMeans | scripts/vendor-fips.mjs:39-42 | how each kind of segment is followed |
| PosixPath.RelativeMeans | scripts/vendor-fips.mjs:68-68 | the relative path goes up once for each name below the common directory, and never further |
| PosixPath.DottedResolves | scripts/vendor-fips.mjs:39-69 | the relative path as text, with its leading dot, resolves to the target |
| PosixPath.DottedIsRelativeIff | scripts/vendor-fips.mjs:69-69 | when that text is a relative specifier for a module loader |
| PosixPath.DottedLoads | scripts/vendor-fips.mjs:68-69 | a module loader follows that text to the target, unless the way begins with a name that begins with a dot, which it takes for a package, or has a character in it that a URL reads otherwise |
| PosixPath.LoaderMeans | scripts/vendor-fips.mjs:68-69 | what a module loader makes of a specifier, in characters alone |
| PosixPath.LoaderExceptions | scripts/vendor-fips.mjs:68-69 | a file and a target for each of the two exceptions |
| ImportText.MatchesIff | scripts/vendor-fips.mjs:32-35 | the scanner matches exactly where the SPECIFIER pattern has a reading, and every reading has the specifier it returns |
| ImportText.MatchMeans | scripts/vendor-fips.mjs:32-35 | a match of the SPECIFIER pattern in characters alone |
| ImportText.SpecsMean | scripts/vendor-fips.mjs:35-59 | where the pattern is tried: at line starts, and after a match behind its closing quote |
| ImportText.RewriteMeans | scripts/vendor-fips.mjs:64-71 | what is written in place of each match and of each character that begins none |
| ImportText.SpecsOfRewrite | scripts/vendor-fips.mjs:35-71 | the pattern finds in the rewritten text the new specifiers in the old order and no others |
| ImportText.RewriteTwice | scripts/vendor-fips.mjs:64-72 | rewriting twice is rewriting once with both replacements in turn |
| ImportText.RewriteNothing | scripts/vendor-fips.mjs:64-72 | replacing every specifier by itself changes nothing, so nothing else in a file changes |
| Vendoring.Closure | scripts/vendor-fips.mjs:51-62 | the stack walk succeeds exactly when everything reachable is readable, and then has found exactly that |
| Vendoring.ClosureMeans | scripts/vendor-fips.mjs:51-62 | the closure holds what the entries and all specifiers of its files lead to, all of it readable, and is the least set that does |
| Vendoring.SourceMeans | scripts/vendor-fips.mjs:39-43 | a specifier that begins with a dot is a path from its file's directory, any other a path in the modules directory |
| Vendoring.BareSource | scripts/vendor-fips.mjs:41-42 | the path a package's specifier names |
| Vendoring.VendorPathInScope | scripts/vendor-fips.mjs:46-49 | the vendor path is the vendor directory and what follows the scope |
| Vendoring.Build | scripts/vendor-fips.mjs:83-88 | every file of the closure is written at its vendor path with its specifiers rewritten, and nothing else is |
| Vendoring.CollideIff | scripts/vendor-fips.mjs:46-49 | two installed files collide exactly when they differ in their scope alone, so no two of one scope do |
| Vendoring.EdgePreserved | scripts/vendor-fips.mjs:64-71 | one rewritten specifier, resolved from the new place, gives the vendored image of the original target, in whatever scopes the two files are; a module loader reaches it too unless the way is hidden or marked |
| Vendoring.ImportGraphPreserved | scripts/vendor-fips.mjs:39-96 | for every file of the closure and every specifier in it the vendored copy leads to the image of the original target, which is in the closure, for a module loader unless the way is hidden or marked; two files share an image exactly when they differ in their scope alone |
| Vendoring.BuiltGraphIsClosed | scripts/vendor-fips.mjs:74-96 | of what the build writes: every specifier of every written file leads to a written file, and each file of the closure that no other differs from in scope alone is at its vendor path, rewritten |
| Vendoring.NothingHidden | scripts/vendor-fips.mjs:39-96 | with no hidden or marked name below the scopes, a module loader follows every specifier of every written file to a written file |
| FlatJson.WriteJson | conformance/interop/peers/BouncyCastlePeer.java:293-306 | the loop writes the entries in order, bare or quoted |
| FlatJson.WrittenMeans | conformance/interop/peers/BouncyCastlePeer.java:293-306 | the entries between braces, with commas between them |
| FlatJson.EntryMeans | conformance/interop/peers/BouncyCastlePeer.java:299-303 | the text of an entry: key, colon, and the value bare or in quotes |
| FlatJson.ReadFlatJson | conformance/interop/peers/BouncyCastlePeer.java:261-291 | the index loops read what the positional model reads |
| FlatJson.ReadFromMeans | conformance/interop/peers/BouncyCastlePeer.java:263-289 | reading goes on from entry to entry to a closing brace or the end |
| FlatJson.ReadEntryMeans | conformance/interop/peers/BouncyCastlePeer.java:266-272 | an entry is read after blanks and commas, its value after the next colon and blanks |
| FlatJson.ReadEndMeans | conformance/interop/peers/BouncyCastlePeer.java:266-268 | what else can stand there: the end, a closing brace, or a refusal |
| FlatJson.ReadQuotedMeans | conformance/interop/peers/BouncyCastlePeer.java:274-281 | a value in quotes is read up to the next one, or refused for a backslash before it |
| FlatJson.ReadBareMeans | conformance/interop/peers/BouncyCastlePeer.java:282-286 | a bare value is read up to a comma, a brace or the end, and trimmed |
| FlatJson.ReadUndoesWrite | conformance/interop/peers/BouncyCastlePeer.java:261-306 | reading what was written for a readable map gives every key with the value it carries, in order, or the refusal of escapes exactly when a quoted value holds a backslash |
| FlatJson.ComesBackIff | conformance/interop/peers/BouncyCastlePeer.java:261-306 | of all maps, reading gives back unchanged exactly those with no quote in a key, no bare value that is cut or trimmed, no backslash in a quoted value and no null or double quote there |
| FlatJson.SurvivesMeans | conformance/interop/peers/BouncyCastlePeer.java:261-306 | the entries that come back, told in the characters of key and value |
| FlatJson.CarriedUnchangedIff | conformance/interop/peers/BouncyCastlePeer.java:301-303 | a value comes back unchanged exactly when it is bare or holds no double quote |

## Left out

- The arithmetic of ML-KEM, ML-DSA, SHA-2, SHA-3 and HMAC, and the native backend selection: parameters here.
- Timing: the comparison loops are proved to decide equality and nothing is said of how long they take.
- Zeroing of the V buffers the generate loop replaces, and of the pair a second `instantiate` replaces: the code does not do it, and the model names those buffers instead.
- The algorithm self-tests of `selftest.js`: each is a pass or a failure of the host, at import and on demand.
- Error message texts: errors are told apart by kind. A length that is not an integer is refused by the generator like one out of range; lengths are integers here.
- Webhook bodies given as text: the bytes they are encoded to stand for them. Secrets are modelled in both forms.
- JavaScript argument types: buffers, strings and option objects are well typed, so the type errors of the services and of `asBytes` and `payloadBytes` do not occur.
- Aliasing of key, ciphertext and signature buffers in the services: those are values; the buffers drawn from the generator, the seed returned and the entropy are real buffers.
- JSON text and UTF-8: stringify and parse are taken to undo each other; UTF-8 is used through three facts: characters below 128 are themselves, others are bytes from 128 on, and text is encoded piece by piece. Header members whose value is undefined, prototype names and `toJSON` are not modelled.
- JavaScript strings are sequences of UTF-16 units and Dafny strings sequences of code points; no modelled operation looks inside a pair of units.
- The answer of Node's Buffer to text outside the base64url alphabet: an arbitrary function. It matters only for `importJwk`, whose round trips do not reach it.
- The transport's lower-casing of webhook header names, the event and delivery headers, and floating-point rounding of clock values and long digit strings.
- FlatJson.ReadFlatJson: takes the number of turns it may make, because on text with a key and no colon after it the source can loop for ever; one more than the number of entries is always enough for written text.
- Vendoring.Build: the LICENSE files, VENDOR.json and its digests, the sorting of the file list and the `--check` comparison are not modelled; a file of the closure at one of those paths would meet them.
- Vendoring.ImportGraphPreserved: the files of the closure are taken to lie in packages below some scope of the modules directory, with no quote in their names. A relative specifier with `#`, `?`, `%`, a backslash, a space or a control character in it is told apart and not read further as a URL.
- Import statements the SPECIFIER pattern does not match, such as a bare `import 'x'` or a dynamic import, are left as they are by the script and by the model.
- `decodeJwsHeader`, `derive.js`, `kid.js`, `backend.js`, `_context.js`, the KEM wrappers and the rest of the tooling: short branches over the same helpers.
