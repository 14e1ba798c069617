/** What each service of src/fips/module.js computes, on values. */
module FipsServices {
  import opened Octet
  import Sp = Sp80090A
  import Entropy

  const ENTROPY_BYTES := 48
  const NONCE_BYTES := 32
  const MAX_CONTEXT_BYTES := 255

  datatype KeyPair = KeyPair(publicKey: Octets, secretKey: Octets)

  datatype Sealed = Sealed(cipherText: Octets, sharedSecret: Octets)

  /** A primitive that answers None has thrown. */
  datatype Kem = Kem(
    keygen: Octets -> Option<KeyPair>,
    encapsulate: (Octets, Octets) -> Option<Sealed>,
    decapsulate: (Octets, Octets) -> Option<Octets>)

  /** `sign` takes message, secret key, context, randomness; `verify` signature, message, public key, context. */
  datatype Dsa = Dsa(
    keygen: Octets -> Option<KeyPair>,
    sign: (Octets, Octets, Octets, Octets) -> Option<Octets>,
    verify: (Octets, Octets, Octets, Octets) -> Option<bool>)

  datatype Primitives = Primitives(
    hmac: Sp.Mac, kem768: Kem, kem1024: Kem, dsa65: Dsa, dsa87: Dsa,
    personalization: Octets, pctMessage: Octets)

  function KemOf(p: Primitives, alg: string): Option<Kem> {
    if alg == "ML-KEM-768" then Some(p.kem768)
    else if alg == "ML-KEM-1024" then Some(p.kem1024)
    else None
  }

  function DsaOf(p: Primitives, alg: string): Option<Dsa> {
    if alg == "ML-DSA-65" then Some(p.dsa65)
    else if alg == "ML-DSA-87" then Some(p.dsa87)
    else None
  }

  /** The generator, the device, and how often each has been asked. */
  datatype World = World(drbg: Option<Sp.Working>, cursor: Entropy.Cursor, draws: nat, reseeds: nat)

  datatype Fault = CastFailed | InstantiationFailed | DrbgFailed | KemPairwiseFailed | DsaPairwiseFailed

  datatype Outcome<+T> = Returned(value: T) | Threw | Fatal(why: Fault)

  /** Reseeds when the interval is used up; false when that was due and failed. */
  function Refresh(p: Primitives, dev: Entropy.Device, w: World): (World, bool) {
    if w.drbg.None? || w.drbg.value.counter <= Sp.RESEED_INTERVAL then (w, true)
    else
      var (cursor, entropy) := Entropy.Request(dev, w.cursor, ENTROPY_BYTES);
      if entropy.None? then (w.(cursor := cursor), false)
      else
        var drbg := Sp.Reseed(p.hmac, w.drbg.value, entropy.value, []);
        (w.(cursor := cursor, drbg := Some(drbg), reseeds := w.reseeds + 1), true)
  }

  /** One draw. None is a fatal failure. */
  function Random(p: Primitives, dev: Entropy.Device, w: World, length: int): (World, Option<Octets>) {
    var (w1, ready) := Refresh(p, dev, w);
    if !ready then (w1, None)
    else
      var (drbg, reply) := Sp.Step(p.hmac, w1.drbg, Sp.OpGenerate(length, []));
      if reply.Generated? then (w1.(drbg := drbg, draws := w1.draws + 1), Some(reply.out))
      else (w1.(drbg := drbg), None)
  }

  /** Encapsulating to the key and decapsulating with it agree. */
  predicate KemConsistent(kem: Kem, pair: KeyPair, m: Octets) {
    var sent := kem.encapsulate(pair.publicKey, m);
    sent.Some? && kem.decapsulate(sent.value.cipherText, pair.secretKey) == Some(sent.value.sharedSecret)
  }

  /** A signature made with the secret key under a context verifies under the public key and that context. */
  predicate DsaAgrees(dsa: Dsa, pair: KeyPair, message: Octets, context: Octets, rnd: Octets) {
    var sig := dsa.sign(message, pair.secretKey, context, rnd);
    sig.Some? && dsa.verify(sig.value, message, pair.publicKey, context) == Some(true)
  }

  /** The pairwise test: with the empty context. */
  predicate DsaConsistent(dsa: Dsa, pair: KeyPair, message: Octets, rnd: Octets) {
    DsaAgrees(dsa, pair, message, [], rnd)
  }

  /** The pairwise test reaches its end, whatever it finds: no primitive in it throws. */
  predicate KemTestEnds(kem: Kem, pair: KeyPair, m: Octets) {
    var sent := kem.encapsulate(pair.publicKey, m);
    sent.Some? && kem.decapsulate(sent.value.cipherText, pair.secretKey).Some?
  }

  predicate DsaTestSigns(dsa: Dsa, pair: KeyPair, message: Octets, rnd: Octets) {
    dsa.sign(message, pair.secretKey, [], rnd).Some?
  }

  datatype Request =
    | GenerateKeypair(alg: string)
    | KeypairFromSeed(alg: string, seed: Octets)
    | Encapsulate(alg: string, publicKey: Octets)
    | Decapsulate(alg: string, cipherText: Octets, secretKey: Octets)
    | Sign(alg: string, secretKey: Octets, message: Octets, context: Option<Octets>)
    | Verify(alg: string, publicKey: Octets, message: Octets, signature: Octets, context: Option<Octets>)

  datatype Response =
    | Pair(pair: KeyPair, seed: Octets)
    | Expanded(pair: KeyPair)
    | Encapsulated(sealed: Sealed)
    | Secret(secret: Octets)
    | Signature(signature: Octets)
    | Verdict(ok: bool)

  function GenerateKem(p: Primitives, dev: Entropy.Device, w: World, kem: Kem): (World, Outcome<Response>) {
    var (w1, seed) := Random(p, dev, w, 64);
    if seed.None? then (w1, Fatal(DrbgFailed))
    else
      var pair := kem.keygen(seed.value);
      if pair.None? then (w1, Threw)
      else
        var (w2, m) := Random(p, dev, w1, 32);
        if m.None? then (w2, Fatal(DrbgFailed))
        else if KemConsistent(kem, pair.value, m.value) then (w2, Returned(Pair(pair.value, seed.value)))
        else (w2, Fatal(KemPairwiseFailed))
  }

  function GenerateDsa(p: Primitives, dev: Entropy.Device, w: World, dsa: Dsa): (World, Outcome<Response>) {
    var (w1, seed) := Random(p, dev, w, 32);
    if seed.None? then (w1, Fatal(DrbgFailed))
    else
      var pair := dsa.keygen(seed.value);
      if pair.None? then (w1, Threw)
      else
        var (w2, rnd) := Random(p, dev, w1, 32);
        if rnd.None? then (w2, Fatal(DrbgFailed))
        else if DsaConsistent(dsa, pair.value, p.pctMessage, rnd.value) then (w2, Returned(Pair(pair.value, seed.value)))
        else (w2, Fatal(DsaPairwiseFailed))
  }

  function Expand(keygen: Octets -> Option<KeyPair>, seed: Octets, seedBytes: nat): Outcome<Response> {
    if |seed| != seedBytes then Threw
    else
      var pair := keygen(seed);
      if pair.None? then Threw else Returned(Expanded(pair.value))
  }

  function ContextOf(context: Option<Octets>): Option<Octets> {
    if context.None? then Some([])
    else if |context.value| > MAX_CONTEXT_BYTES then None
    else context
  }

  function Serve(p: Primitives, dev: Entropy.Device, w: World, req: Request): (World, Outcome<Response>) {
    match req
    case GenerateKeypair(alg) =>
      var kem, dsa := KemOf(p, alg), DsaOf(p, alg);
      if kem.Some? then GenerateKem(p, dev, w, kem.value)
      else if dsa.Some? then GenerateDsa(p, dev, w, dsa.value)
      else (w, Threw)
    case KeypairFromSeed(alg, seed) =>
      var kem, dsa := KemOf(p, alg), DsaOf(p, alg);
      if kem.Some? then (w, Expand(kem.value.keygen, seed, 64))
      else if dsa.Some? then (w, Expand(dsa.value.keygen, seed, 32))
      else (w, Threw)
    case Encapsulate(alg, publicKey) =>
      var kem := KemOf(p, alg);
      if kem.None? then (w, Threw)
      else
        var (w1, m) := Random(p, dev, w, 32);
        if m.None? then (w1, Fatal(DrbgFailed))
        else
          var sent := kem.value.encapsulate(publicKey, m.value);
          (w1, if sent.None? then Threw else Returned(Encapsulated(sent.value)))
    case Decapsulate(alg, cipherText, secretKey) =>
      var kem := KemOf(p, alg);
      if kem.None? then (w, Threw)
      else
        var secret := kem.value.decapsulate(cipherText, secretKey);
        (w, if secret.None? then Threw else Returned(Secret(secret.value)))
    case Sign(alg, secretKey, message, context) =>
      var dsa, ctx := DsaOf(p, alg), ContextOf(context);
      if dsa.None? || ctx.None? then (w, Threw)
      else
        var (w1, rnd) := Random(p, dev, w, 32);
        if rnd.None? then (w1, Fatal(DrbgFailed))
        else
          var sig := dsa.value.sign(message, secretKey, ctx.value, rnd.value);
          (w1, if sig.None? then Threw else Returned(Signature(sig.value)))
    case Verify(alg, publicKey, message, signature, context) =>
      var dsa, ctx := DsaOf(p, alg), ContextOf(context);
      if dsa.None? || ctx.None? then (w, Threw)
      else (w, Returned(Verdict(dsa.value.verify(signature, message, publicKey, ctx.value) == Some(true))))
  }

  /** The bytes of a generation that are not overwritten: its seed, and what a pairwise test drew that then threw. */
  function KemLeaves(p: Primitives, dev: Entropy.Device, w: World, kem: Kem): nat {
    var (w1, seed) := Random(p, dev, w, 64);
    if seed.None? then 0
    else
      var pair := kem.keygen(seed.value);
      if pair.None? then 1
      else
        var m := Random(p, dev, w1, 32).1;
        if m.Some? && !KemTestEnds(kem, pair.value, m.value) then 2 else 1
  }

  function DsaLeaves(p: Primitives, dev: Entropy.Device, w: World, dsa: Dsa): nat {
    var (w1, seed) := Random(p, dev, w, 32);
    if seed.None? then 0
    else
      var pair := dsa.keygen(seed.value);
      if pair.None? then 1
      else
        var rnd := Random(p, dev, w1, 32).1;
        if rnd.Some? && !DsaTestSigns(dsa, pair.value, p.pctMessage, rnd.value) then 2 else 1
  }

  /** How many drawn buffers a request leaves as they are. */
  function Leaves(p: Primitives, dev: Entropy.Device, w: World, req: Request): nat {
    if !req.GenerateKeypair? then 0
    else if KemOf(p, req.alg).Some? then KemLeaves(p, dev, w, KemOf(p, req.alg).value)
    else if DsaOf(p, req.alg).Some? then DsaLeaves(p, dev, w, DsaOf(p, req.alg).value)
    else 0
  }

  /** A start that fails leaves no generator. */
  function Start(p: Primitives, dev: Entropy.Device, castsPass: bool): (r: (World, Option<Fault>))
    ensures r.1.Some? <==> r.0.drbg.None?
    ensures r.0.draws == 0 && r.0.reseeds == 0
  {
    var fresh0 := World(None, Entropy.Cursor(0, 0, 0), 0, 0);
    if !castsPass then (fresh0, Some(CastFailed))
    else
      var (c1, entropy) := Entropy.Request(dev, fresh0.cursor, ENTROPY_BYTES);
      if entropy.None? then (fresh0.(cursor := c1), Some(InstantiationFailed))
      else
        var (c2, nonce) := Entropy.Request(dev, c1, NONCE_BYTES);
        if nonce.None? then (fresh0.(cursor := c2), Some(InstantiationFailed))
        else
          (World(Some(Sp.Instantiate(p.hmac, entropy.value, nonce.value, p.personalization)), c2, 0, 0), None)
  }

  /**
   * The bookkeeping of a healthy generator: after n draws it has reseeded
   * floor((n - 1) / 2^20) times, and its counter says how far into the interval it is.
   */
  predicate Regular(w: World) {
    && w.drbg.Some?
    && w.reseeds == (if w.draws == 0 then 0 else (w.draws - 1) / Sp.RESEED_INTERVAL)
    && w.drbg.value.counter == 1 + w.draws - w.reseeds * Sp.RESEED_INTERVAL
  }

  lemma RegularCounter(w: World)
    requires Regular(w)
    ensures 1 <= w.drbg.value.counter <= Sp.RESEED_INTERVAL + 1
    ensures w.drbg.value.counter > Sp.RESEED_INTERVAL <==> w.draws > 0 && w.draws % Sp.RESEED_INTERVAL == 0
  {
  }

  /**
   * A draw of any permitted length fails exactly when a reseed is due and the
   * entropy source does not serve it; otherwise it keeps the bookkeeping.
   */
  lemma DrawKeepsRegular(p: Primitives, dev: Entropy.Device, w: World, length: int)
    requires Regular(w) && 1 <= length <= Sp.MAX_BYTES_PER_REQUEST
    ensures var (w1, out) := Random(p, dev, w, length);
            && (out.None? <==> w.draws > 0 && w.draws % Sp.RESEED_INTERVAL == 0
                               && Entropy.Request(dev, w.cursor, ENTROPY_BYTES).1.None?)
            && (out.Some? ==> Regular(w1) && w1.draws == w.draws + 1 && |out.value| == length)
  {
    RegularCounter(w);
  }

  /** The pairwise test a generated pair has passed, for the set it belongs to. */
  ghost predicate PassedPairwise(p: Primitives, alg: string, pair: KeyPair) {
    if KemOf(p, alg).Some? then exists m :: KemConsistent(KemOf(p, alg).value, pair, m)
    else DsaOf(p, alg).Some? && exists rnd :: DsaConsistent(DsaOf(p, alg).value, pair, p.pctMessage, rnd)
  }

  /** Only a fatal failure ends the bookkeeping, and only a service that draws can fail fatally. */
  lemma ServiceKeepsRegular(p: Primitives, dev: Entropy.Device, w: World, req: Request)
    requires Regular(w)
    ensures var (w1, r) := Serve(p, dev, w, req);
            && (!r.Fatal? ==> Regular(w1))
            && (r.Fatal? ==> req.GenerateKeypair? || req.Encapsulate? || req.Sign?)
  {
    match req
    case GenerateKeypair(alg) =>
      DrawKeepsRegular(p, dev, w, 64);
      DrawKeepsRegular(p, dev, w, 32);
      if KemOf(p, alg).Some? {
        var (w1, seed) := Random(p, dev, w, 64);
        if seed.Some? { DrawKeepsRegular(p, dev, w1, 32); }
      } else if DsaOf(p, alg).Some? {
        var (w1, seed) := Random(p, dev, w, 32);
        if seed.Some? { DrawKeepsRegular(p, dev, w1, 32); }
      }
    case Encapsulate(_, _) => DrawKeepsRegular(p, dev, w, 32);
    case Sign(_, _, _, _) => DrawKeepsRegular(p, dev, w, 32);
    case _ =>
  }

  /**
   * A generated pair is handed out only if it passed its pairwise test, and
   * re-expanding the seed that came with it gives the same pair.
   */
  lemma GeneratedPairPassed(p: Primitives, dev: Entropy.Device, w: World, alg: string)
    requires Regular(w)
    ensures var (w1, r) := Serve(p, dev, w, GenerateKeypair(alg));
            r.Returned? ==>
              && r.value.Pair?
              && PassedPairwise(p, alg, r.value.pair)
              && Serve(p, dev, w1, KeypairFromSeed(alg, r.value.seed)) == (w1, Returned(Expanded(r.value.pair)))
  {
    DrawKeepsRegular(p, dev, w, 64);
    DrawKeepsRegular(p, dev, w, 32);
  }

  /** The draw `k` draws from now finds a reseed due that the device will not serve. */
  predicate Starved(dev: Entropy.Device, w: World, k: nat) {
    && w.draws + k > 0 && (w.draws + k) % Sp.RESEED_INTERVAL == 0
    && Entropy.Request(dev, w.cursor, ENTROPY_BYTES).1.None?
  }

  /**
   * What makes a request fatal: a draw it makes is starved, or the pair it made
   * fails its pairwise test. Nothing else does, and no request that draws nothing.
   */
  ghost predicate Fails(p: Primitives, dev: Entropy.Device, w: World, req: Request) {
    match req
    case GenerateKeypair(alg) =>
      var kem, dsa := KemOf(p, alg), DsaOf(p, alg);
      (kem.Some? || dsa.Some?)
      && (Starved(dev, w, 0)
          || var (w1, seed) := Random(p, dev, w, if kem.Some? then 64 else 32);
             var drawn := Random(p, dev, w1, 32).1;
             && seed.Some?
             && var pair := if kem.Some? then kem.value.keygen(seed.value) else dsa.value.keygen(seed.value);
             && pair.Some?
             && (Starved(dev, w, 1)
                 || (drawn.Some? && if kem.Some? then !KemConsistent(kem.value, pair.value, drawn.value)
                                    else !DsaConsistent(dsa.value, pair.value, p.pctMessage, drawn.value))))
    case Encapsulate(alg, _) => KemOf(p, alg).Some? && Starved(dev, w, 0)
    case Sign(alg, _, _, context) => DsaOf(p, alg).Some? && ContextOf(context).Some? && Starved(dev, w, 0)
    case _ => false
  }

  /** Two draws in a row: at most one of them reseeds. */
  lemma TwoDraws(p: Primitives, dev: Entropy.Device, w: World, length: int)
    requires Regular(w) && 1 <= length <= Sp.MAX_BYTES_PER_REQUEST
    ensures var (w1, seed) := Random(p, dev, w, length);
            && (seed.None? <==> Starved(dev, w, 0))
            && (seed.Some? ==> Regular(w1) && (Random(p, dev, w1, 32).1.None? <==> Starved(dev, w, 1)))
  {
    DrawKeepsRegular(p, dev, w, length);
    var (w1, seed) := Random(p, dev, w, length);
    if seed.Some? {
      DrawKeepsRegular(p, dev, w1, 32);
      RegularCounter(w);
    }
  }

  lemma FatalIff(p: Primitives, dev: Entropy.Device, w: World, req: Request)
    requires Regular(w)
    ensures Serve(p, dev, w, req).1.Fatal? <==> Fails(p, dev, w, req)
  {
    hide Random, Regular, Starved;
    TwoDraws(p, dev, w, 64);
    TwoDraws(p, dev, w, 32);
    if req.GenerateKeypair? {
      var kem, dsa := KemOf(p, req.alg), DsaOf(p, req.alg);
      if kem.Some? {
        var (w1, seed) := Random(p, dev, w, 64);
        var drawn := Random(p, dev, w1, 32).1;
        assert seed.Some? ==> (drawn.None? <==> Starved(dev, w, 1));
      } else if dsa.Some? {
        var (w1, seed) := Random(p, dev, w, 32);
        var drawn := Random(p, dev, w1, 32).1;
        assert seed.Some? ==> (drawn.None? <==> Starved(dev, w, 1));
      }
    }
  }

  /** Every pair of the set's keygen, made from a seed of the right length, decapsulates what is encapsulated to it. */
  ghost predicate KemCorrect(kem: Kem) {
    forall seed, m :: |seed| == 64 && |m| == 32 && kem.keygen(seed).Some? ==> KemConsistent(kem, kem.keygen(seed).value, m)
  }

  ghost predicate DsaCorrect(dsa: Dsa) {
    forall seed, message, context, rnd ::
      |seed| == 32 && |context| <= MAX_CONTEXT_BYTES && |rnd| == 32 && dsa.keygen(seed).Some? ==>
        DsaAgrees(dsa, dsa.keygen(seed).value, message, context, rnd)
  }

  lemma DrawnLength(p: Primitives, dev: Entropy.Device, w: World, length: int)
    ensures var out := Random(p, dev, w, length).1; out.Some? ==> |out.value| == length
  {
  }

  /** The pair a generation hands out is the one its set's keygen makes of the seed handed out with it. */
  lemma GeneratedPairIsKeygens(p: Primitives, dev: Entropy.Device, w: World, alg: string)
    ensures var r := Serve(p, dev, w, GenerateKeypair(alg)).1;
            r.Returned? ==>
              && r.value.Pair?
              && (KemOf(p, alg).Some? ==> |r.value.seed| == 64 && KemOf(p, alg).value.keygen(r.value.seed) == Some(r.value.pair))
              && (DsaOf(p, alg).Some? ==> |r.value.seed| == 32 && DsaOf(p, alg).value.keygen(r.value.seed) == Some(r.value.pair))
  {
    hide Random;
    DrawnLength(p, dev, w, 64);
    DrawnLength(p, dev, w, 32);
  }

  /** A run of draws, or nothing once one has failed. */
  function Draws(p: Primitives, dev: Entropy.Device, w: World, lengths: seq<int>): Option<World> {
    if lengths == [] then Some(w)
    else
      var before := Draws(p, dev, w, lengths[..|lengths| - 1]);
      if before.None? then None
      else
        var (w1, out) := Random(p, dev, before.value, lengths[|lengths| - 1]);
        if out.None? then None else Some(w1)
  }

  lemma {:induction false} DrawsKeepRegular(p: Primitives, dev: Entropy.Device, w: World, lengths: seq<int>)
    requires Regular(w)
    requires forall l :: l in lengths ==> 1 <= l <= Sp.MAX_BYTES_PER_REQUEST
    ensures var end := Draws(p, dev, w, lengths);
            end.Some? ==> Regular(end.value) && end.value.draws == w.draws + |lengths|
  {
    if lengths != [] {
      var init, last := lengths[..|lengths| - 1], lengths[|lengths| - 1];
      assert last in lengths && forall l :: l in init ==> l in lengths;
      DrawsKeepRegular(p, dev, w, init);
      var before := Draws(p, dev, w, init);
      if before.Some? { DrawKeepsRegular(p, dev, before.value, last); }
    }
  }

  lemma StartIsRegular(p: Primitives, dev: Entropy.Device, castsPass: bool)
    requires Start(p, dev, castsPass).1.None?
    ensures var w := Start(p, dev, castsPass).0; Regular(w) && w.draws == 0
  {
  }

  /**
   * Started and then asked n >= 1 times, whatever the lengths, the generator has
   * reseeded exactly floor((n - 1) / 2^20) times.
   */
  lemma ReseedSchedule(p: Primitives, dev: Entropy.Device, lengths: seq<int>)
    requires Start(p, dev, true).1.None? && lengths != []
    requires forall l :: l in lengths ==> 1 <= l <= Sp.MAX_BYTES_PER_REQUEST
    ensures var end := Draws(p, dev, Start(p, dev, true).0, lengths);
            end.Some? ==>
              && end.value.reseeds == (|lengths| - 1) / Sp.RESEED_INTERVAL
              && end.value.drbg.Some?
              && 1 <= end.value.drbg.value.counter <= Sp.RESEED_INTERVAL + 1
  {
    var w := Start(p, dev, true).0;
    StartIsRegular(p, dev, true);
    DrawsKeepRegular(p, dev, w, lengths);
    var end := Draws(p, dev, w, lengths);
    if end.Some? { RegularCounter(end.value); }
  }

  // ── The services in terms of the primitives alone ────────────────────────

  /** The four names there are, and the primitives each stands for. */
  lemma SetsByName(p: Primitives, alg: string)
    ensures KemOf(p, alg) == if alg == "ML-KEM-768" then Some(p.kem768)
                             else if alg == "ML-KEM-1024" then Some(p.kem1024) else None
    ensures DsaOf(p, alg) == if alg == "ML-DSA-65" then Some(p.dsa65)
                             else if alg == "ML-DSA-87" then Some(p.dsa87) else None
  {
  }

  /**
   * A draw is a generation from the state there is, or, past 2^20 generations,
   * from that state after a reseed with the next 48 bytes the device serves.
   */
  lemma DrawMeans(p: Primitives, dev: Entropy.Device, w: World, length: int)
    requires w.drbg.Some? && 1 <= length <= 65536
    ensures var (h, d) := (p.hmac, w.drbg.value);
            w.drbg.value.counter <= 1048576 ==>
              Random(p, dev, w, length)
              == (World(Some(Sp.Generate(h, d, length, []).1), w.cursor, w.draws + 1, w.reseeds),
                  Some(Sp.Generate(h, d, length, []).0))
    ensures var (h, d, served) := (p.hmac, w.drbg.value, Entropy.Request(dev, w.cursor, 48));
            w.drbg.value.counter > 1048576 ==>
              if served.1.None? then Random(p, dev, w, length) == (w.(cursor := served.0), None)
              else
                var entropy := served.1.value;
                var k := h(d.key, d.v + [0x00] + entropy);
                var key := h(k, h(k, d.v) + [0x01] + entropy);
                var reseeded := Sp.Working(key, h(key, h(k, d.v)), 1);
                && |entropy| == 48 && (forall i :: 0 <= i < 48 ==> entropy[i] == dev.bytes(w.cursor.pos + i))
                && Random(p, dev, w, length)
                   == (World(Some(Sp.Generate(h, reseeded, length, []).1), served.0, w.draws + 1, w.reseeds + 1),
                       Some(Sp.Generate(h, reseeded, length, []).0))
  {
    hide Sp.Generate, Sp.Reseed, Entropy.Request;
    var served := Entropy.Request(dev, w.cursor, 48);
    Entropy.RequestMeans(dev, w.cursor, 48);
    if w.drbg.value.counter > 1048576 && served.1.Some? {
      Sp.ReseedMeans(p.hmac, w.drbg.value, served.1.value, []);
      assert served.1.value + [] == served.1.value;
    }
  }

  /** The generator starts from 48 bytes of the device, the 32 after them and the personalization string. */
  lemma StartMeans(p: Primitives, dev: Entropy.Device)
    requires Start(p, dev, true).1.None?
    ensures var entropy, nonce := seq<byte>(48, i => if i >= 0 then dev.bytes(i) else 0), seq<byte>(32, i => if i >= 0 then dev.bytes(48 + i) else 0);
            Start(p, dev, true).0.drbg == Some(Sp.Instantiate(p.hmac, entropy, nonce, p.personalization))
  {
    hide Sp.Instantiate, Entropy.Request;
    var c0 := Entropy.Cursor(0, 0, 0);
    var first := Entropy.Request(dev, c0, 48);
    Entropy.RequestMeans(dev, c0, 48);
    Entropy.RequestMeans(dev, first.0, 32);
    var second := Entropy.Request(dev, first.0, 32);
    assert first.1.value == seq<byte>(48, i => if i >= 0 then dev.bytes(i) else 0);
    assert second.1.value == seq<byte>(32, i => if i >= 0 then dev.bytes(48 + i) else 0);
  }

  /** A start fails for its casts first, and else exactly where one of the two requests is not served. */
  lemma StartFaults(p: Primitives, dev: Entropy.Device, castsPass: bool)
    ensures var first := Entropy.Request(dev, Entropy.Cursor(0, 0, 0), 48);
            var second := Entropy.Request(dev, first.0, 32);
            Start(p, dev, castsPass).1 == if !castsPass then Some(CastFailed)
                                          else if first.1.None? || second.1.None? then Some(InstantiationFailed)
                                          else None
  {
    hide Sp.Instantiate, Entropy.Request;
  }
}
