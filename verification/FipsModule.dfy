/** src/fips/module.js: the service table over one shared generator and one entropy source. */
module FipsTable {
  import opened Octet
  import opened Drbg
  import ConstTime
  import Entropy
  import Sp = Sp80090A
  import Spec = FipsServices

  method Zeroize(a: array<byte>)
    modifies a
    ensures AllZero(a)
  {
    Fill(a, 0);
  }

  /** Two secrets compared and overwritten. */
  method SecretsAgree(sent: Octets, recovered: Octets) returns (same: bool)
    ensures same <==> sent == recovered
  {
    var sharedSecret := Buffer(sent);
    var again := Buffer(recovered);
    same := ConstTime.BytesEqual(sharedSecret, again);
    Zeroize(sharedSecret);
    Zeroize(again);
  }

  class ServiceTable {
    const p: Spec.Primitives
    const drbg: HmacDrbg
    const source: Entropy.EntropySource
    ghost var draws: nat
    ghost var reseeds: nat
    /** Every buffer a draw has handed out, in order. */
    ghost var issued: seq<array<byte>>
    /** Those of them that are not overwritten, in order. */
    ghost var kept: seq<array<byte>>

    ghost predicate Valid()
      reads this, drbg, drbg.K, drbg.V, drbg.retired
    {
      && drbg.Valid() && drbg.KeysErased() && drbg.hmac == p.hmac
      && (forall a :: a in issued ==> a !in drbg.keys && a !in drbg.values)
      && Kept()
    }

    ghost predicate Kept()
      reads this`kept, this`issued
    {
      && (forall a :: a in kept ==> a in issued)
      && forall i, j :: 0 <= i < j < |kept| ==> kept[i] != kept[j]
    }

    /** Every buffer drawn is kept or overwritten: all of them, or the first `n`. */
    ghost predicate Wiped()
      reads this, set a | a in issued
    {
      WipedTo(|issued|)
    }

    ghost predicate WipedTo(n: nat)
      reads this, set a | a in issued
      requires n <= |issued|
    {
      forall i :: 0 <= i < n ==> issued[i] in kept || AllZero(issued[i])
    }

    /** So many of the buffers drawn meanwhile are kept, and the others are overwritten. */
    twostate predicate Leaves(n: nat)
      reads this, set a | a in issued
    {
      && old(kept) <= kept && |kept| == |old(kept)| + n
      && (forall i :: |old(kept)| <= i < |kept| ==> fresh(kept[i]))
      && (old(Wiped()) ==> Wiped())
    }

    /** The generator is the one it was, further on. */
    twostate predicate Moved()
      reads this, drbg
    {
      && drbg.Extends()
      && (drbg.K == old(drbg.K) || fresh(drbg.K)) && (drbg.V == old(drbg.V) || fresh(drbg.V))
    }

    ghost function World(): Spec.World
      reads this, drbg, drbg.K, drbg.V, source
    {
      Spec.World(drbg.State(), source.cursor, draws, reseeds)
    }

    constructor (p: Spec.Primitives, source: Entropy.EntropySource)
      ensures Valid() && this.p == p && this.source == source && fresh(drbg)
      ensures drbg.K == null && drbg.V == null && issued == [] && kept == []
      ensures World() == Spec.World(None, source.cursor, 0, 0)
    {
      this.p := p;
      this.source := source;
      drbg := new HmacDrbg(p.hmac);
      draws, reseeds, issued, kept := 0, 0, [], [];
    }

    method Refresh() returns (ready: bool)
      requires Valid()
      modifies this`reseeds, drbg, drbg.K, drbg.V, source
      ensures Valid() && Moved()
      ensures (World(), ready) == Spec.Refresh(p, source.dev, old(World()))
    {
      hide Sp.Reseed, Sp.Generate, Sp.Instantiate, Entropy.Request;
      if !drbg.ReseedRequired() { return true; }
      var entropy := source.GetEntropy(Spec.ENTROPY_BYTES);
      if entropy.None? { return false; }
      var empty := new byte[0];
      assert empty[..] == [];
      var reply := drbg.Reseed(entropy.value, empty);
      reseeds := reseeds + 1;
      Zeroize(entropy.value);
      return true;
    }

    method Random(length: int) returns (r: Option<array<byte>>)
      requires Valid()
      modifies this, drbg, drbg.K, drbg.V, source
      ensures Valid() && Moved()
      ensures World() == Spec.Random(p, source.dev, old(World()), length).0
      ensures (if r.Some? then Some(r.value[..]) else None)
           == Spec.Random(p, source.dev, old(World()), length).1
      ensures r.Some? ==> fresh(r.value) && issued == old(issued) + [r.value]
      ensures r.None? ==> issued == old(issued)
      ensures forall a :: a in old(issued) ==> unchanged(a)
      ensures kept == old(kept) && (old(Wiped()) ==> WipedTo(|old(issued)|) && (r.None? ==> Wiped()))
    {
      hide Spec.Refresh, Sp.Step, Accounted, Wiped, WipedTo, Kept;
      label start: r := Draw(length);
      StillKept@start();
    }

    twostate lemma StillKept()
      requires kept == old(kept) && old(issued) <= issued && old(Kept())
      requires forall a :: a in old(issued) ==> unchanged(a)
      ensures Kept() && (old(Wiped()) ==> WipedTo(|old(issued)|) && (|issued| == |old(issued)| ==> Wiped()))
    {
      if old(Wiped()) {
        forall i | 0 <= i < |old(issued)| ensures issued[i] in kept || AllZero(issued[i]) {
          var a := old(issued)[i];
          assert a in old(issued) && issued[i] == a;
          assert a in old(kept) || old(AllZero(a));
        }
      }
    }

    lemma LivePairIsNotIssued()
      requires Valid()
      ensures drbg.K == null || (drbg.K !in issued && drbg.V !in issued)
    {
      hide AllZero, Kept;
    }

    /** The draw itself. */
    method Draw(length: int) returns (r: Option<array<byte>>)
      requires Valid()
      modifies this`draws, this`reseeds, this`issued, drbg, drbg.K, drbg.V, source
      ensures drbg.Valid() && drbg.KeysErased() && Moved()
      ensures forall a :: a in issued ==> a !in drbg.keys && a !in drbg.values
      ensures forall a :: a in old(issued) ==> unchanged(a)
      ensures World() == Spec.Random(p, source.dev, old(World()), length).0
      ensures (if r.Some? then Some(r.value[..]) else None)
           == Spec.Random(p, source.dev, old(World()), length).1
      ensures r.Some? ==> fresh(r.value) && issued == old(issued) + [r.value]
      ensures r.None? ==> issued == old(issued)
    {
      hide Spec.Refresh, Sp.Step, AllZero, Accounted, Kept;
      LivePairIsNotIssued();
      var ready := Refresh();
      if !ready { return None; }
      var empty := new byte[0];
      assert empty[..] == [];
      var reply, out := drbg.Generate(length, empty);
      if out == null { return None; }
      draws := draws + 1;
      issued := issued + [out];
      return Some(out);
    }

    /** The buffers drawn since there were `n`, all overwritten. */
    ghost predicate DrawnAreZero(n: nat)
      reads this, set a | a in issued
      requires n <= |issued|
    {
      forall i :: n <= i < |issued| ==> AllZero(issued[i])
    }

    /** The last buffer drawn is overwritten. */
    method WipeLast(drawn: array<byte>)
      requires Valid() && issued != [] && drawn == issued[|issued| - 1]
      modifies drawn
      ensures Valid() && World() == old(World()) && AllZero(drawn)
      ensures old(WipedTo(|issued| - 1)) ==> Wiped()
    {
      Zeroize(drawn);
    }

    /** The last buffer drawn is left as it is. */
    ghost method KeepLast()
      requires Valid() && issued != [] && issued[|issued| - 1] !in kept
      modifies this`kept
      ensures Valid() && World() == old(World()) && kept == old(kept) + [issued[|issued| - 1]]
      ensures old(WipedTo(|issued| - 1)) ==> Wiped()
    {
      kept := kept + [issued[|issued| - 1]];
    }

    method PctKem(kem: Spec.Kem, pair: Spec.KeyPair) returns (fault: Option<Spec.Fault>)
      requires Valid()
      modifies this, drbg, drbg.K, drbg.V, source
      ensures Valid() && Moved()
      ensures old(issued) <= issued && |issued| <= |old(issued)| + 1 && forall a :: a in old(issued) ==> unchanged(a)
      ensures var (w, m) := Spec.Random(p, source.dev, old(World()), 32);
              && World() == w
              && fault == (if m.None? then Some(Spec.DrbgFailed)
                           else if Spec.KemConsistent(kem, pair, m.value) then None
                           else Some(Spec.KemPairwiseFailed))
              && Leaves(if m.Some? && !Spec.KemTestEnds(kem, pair, m.value) then 1 else 0)
              && (if m.None? then issued == old(issued)
                  else
                    && |issued| == |old(issued)| + 1 && fresh(issued[|old(issued)|])
                    && if Spec.KemTestEnds(kem, pair, m.value) then DrawnAreZero(|old(issued)|)
                       else kept == old(kept) + [issued[|old(issued)|]] && issued[|old(issued)|][..] == m.value)
      ensures fault.None? ==> kept == old(kept)
    {
      hide Spec.Random, Spec.Refresh, Sp.Step, Accounted, Kept, WipedTo, Wiped, AllZero;
      var m := Random(32);
      if m.None? { return Some(Spec.DrbgFailed); }
      var sent := kem.encapsulate(pair.publicKey, m.value[..]);
      if sent.None? {
        KeepLast();
        return Some(Spec.KemPairwiseFailed);
      }
      var recovered := kem.decapsulate(sent.value.cipherText, pair.secretKey);
      if recovered.None? {
        KeepLast();
        return Some(Spec.KemPairwiseFailed);
      }
      var ok := SecretsAgree(sent.value.sharedSecret, recovered.value);
      WipeLast(m.value);
      return if ok then None else Some(Spec.KemPairwiseFailed);
    }

    method PctDsa(dsa: Spec.Dsa, pair: Spec.KeyPair) returns (fault: Option<Spec.Fault>)
      requires Valid()
      modifies this, drbg, drbg.K, drbg.V, source
      ensures Valid() && Moved()
      ensures old(issued) <= issued && |issued| <= |old(issued)| + 1 && forall a :: a in old(issued) ==> unchanged(a)
      ensures var (w, rnd) := Spec.Random(p, source.dev, old(World()), 32);
              && World() == w
              && fault == (if rnd.None? then Some(Spec.DrbgFailed)
                           else if Spec.DsaConsistent(dsa, pair, p.pctMessage, rnd.value) then None
                           else Some(Spec.DsaPairwiseFailed))
              && Leaves(if rnd.Some? && !Spec.DsaTestSigns(dsa, pair, p.pctMessage, rnd.value) then 1 else 0)
              && (if rnd.None? then issued == old(issued)
                  else
                    && |issued| == |old(issued)| + 1 && fresh(issued[|old(issued)|])
                    && if Spec.DsaTestSigns(dsa, pair, p.pctMessage, rnd.value) then DrawnAreZero(|old(issued)|)
                       else kept == old(kept) + [issued[|old(issued)|]] && issued[|old(issued)|][..] == rnd.value)
      ensures fault.None? ==> kept == old(kept)
    {
      hide Spec.Random, Spec.Refresh, Sp.Step, Accounted, Kept, WipedTo, Wiped, AllZero;
      var rnd := Random(32);
      if rnd.None? { return Some(Spec.DrbgFailed); }
      var sig := dsa.sign(p.pctMessage, pair.secretKey, [], rnd.value[..]);
      if sig.None? {
        KeepLast();
        return Some(Spec.DsaPairwiseFailed);
      }
      WipeLast(rnd.value);
      var ok := dsa.verify(sig.value, p.pctMessage, pair.publicKey, []) == Some(true);
      return if ok then None else Some(Spec.DsaPairwiseFailed);
    }

    /** `seed` is the buffer the caller is given along with the pair. */
    method GenerateKem(kem: Spec.Kem) returns (r: Spec.Outcome<Spec.Response>, seed: array?<byte>)
      requires Valid()
      modifies this, drbg, drbg.K, drbg.V, source
      ensures Valid() && Moved()
      ensures (World(), r) == Spec.GenerateKem(p, source.dev, old(World()), kem)
      ensures Leaves(Spec.KemLeaves(p, source.dev, old(World()), kem))
      ensures seed != null ==> |kept| > |old(kept)| && kept[|old(kept)|] == seed
      ensures r.Returned? ==>
                && kept == old(kept) + [seed]
                && seed != null && fresh(seed) && seed[..] == r.value.seed
                && |issued| == |old(issued)| + 2 && issued[|old(issued)|] == seed && DrawnAreZero(|old(issued)| + 1)
    {
      hide Spec.Random, Spec.Refresh, Sp.Step, Accounted, Kept, WipedTo, Wiped, AllZero;
      hide Spec.KemConsistent, Spec.KemTestEnds, Spec.DsaConsistent, Spec.DsaTestSigns;
      seed := null;
      var drawn := Random(64);
      if drawn.None? { return Spec.Fatal(Spec.DrbgFailed), null; }
      seed := drawn.value;
      KeepLast();
      var value := seed[..];
      var pair := kem.keygen(value);
      if pair.None? { return Spec.Threw, seed; }
      assert drawn.value in issued;
      var fault := PctKem(kem, pair.value);
      if fault.Some? { return Spec.Fatal(fault.value), seed; }
      return Spec.Returned(Spec.Pair(pair.value, value)), seed;
    }

    method GenerateDsa(dsa: Spec.Dsa) returns (r: Spec.Outcome<Spec.Response>, seed: array?<byte>)
      requires Valid()
      modifies this, drbg, drbg.K, drbg.V, source
      ensures Valid() && Moved()
      ensures (World(), r) == Spec.GenerateDsa(p, source.dev, old(World()), dsa)
      ensures Leaves(Spec.DsaLeaves(p, source.dev, old(World()), dsa))
      ensures seed != null ==> |kept| > |old(kept)| && kept[|old(kept)|] == seed
      ensures r.Returned? ==>
                && kept == old(kept) + [seed]
                && seed != null && fresh(seed) && seed[..] == r.value.seed
                && |issued| == |old(issued)| + 2 && issued[|old(issued)|] == seed && DrawnAreZero(|old(issued)| + 1)
    {
      hide Spec.Random, Spec.Refresh, Sp.Step, Accounted, Kept, WipedTo, Wiped, AllZero;
      hide Spec.KemConsistent, Spec.KemTestEnds, Spec.DsaConsistent, Spec.DsaTestSigns;
      seed := null;
      var drawn := Random(32);
      if drawn.None? { return Spec.Fatal(Spec.DrbgFailed), null; }
      seed := drawn.value;
      KeepLast();
      var value := seed[..];
      var pair := dsa.keygen(value);
      if pair.None? { return Spec.Threw, seed; }
      assert drawn.value in issued;
      var fault := PctDsa(dsa, pair.value);
      if fault.Some? { return Spec.Fatal(fault.value), seed; }
      return Spec.Returned(Spec.Pair(pair.value, value)), seed;
    }

    /** The randomness drawn is overwritten whether or not the primitive throws. */
    method Encapsulate(kem: Spec.Kem, publicKey: Octets) returns (r: Spec.Outcome<Spec.Response>)
      requires Valid()
      modifies this, drbg, drbg.K, drbg.V, source
      ensures Valid() && Moved()
      ensures var (w, m) := Spec.Random(p, source.dev, old(World()), 32);
              && World() == w
              && r == (if m.None? then Spec.Fatal(Spec.DrbgFailed)
                       else var sent := kem.encapsulate(publicKey, m.value);
                            if sent.None? then Spec.Threw else Spec.Returned(Spec.Encapsulated(sent.value)))
      ensures old(issued) <= issued && DrawnAreZero(|old(issued)|) && Leaves(0)
    {
      hide Spec.Random, Spec.Refresh, Sp.Step, Accounted, Kept, WipedTo, Wiped, AllZero;
      var m := Random(32);
      if m.None? { return Spec.Fatal(Spec.DrbgFailed); }
      var sent := kem.encapsulate(publicKey, m.value[..]);
      WipeLast(m.value);
      return if sent.None? then Spec.Threw else Spec.Returned(Spec.Encapsulated(sent.value));
    }

    method Sign(dsa: Spec.Dsa, secretKey: Octets, message: Octets, context: Octets)
        returns (r: Spec.Outcome<Spec.Response>)
      requires Valid()
      modifies this, drbg, drbg.K, drbg.V, source
      ensures Valid() && Moved()
      ensures var (w, rnd) := Spec.Random(p, source.dev, old(World()), 32);
              && World() == w
              && r == (if rnd.None? then Spec.Fatal(Spec.DrbgFailed)
                       else var sig := dsa.sign(message, secretKey, context, rnd.value);
                            if sig.None? then Spec.Threw else Spec.Returned(Spec.Signature(sig.value)))
      ensures old(issued) <= issued && DrawnAreZero(|old(issued)|) && Leaves(0)
    {
      hide Spec.Random, Spec.Refresh, Sp.Step, Accounted, Kept, WipedTo, Wiped, AllZero;
      var rnd := Random(32);
      if rnd.None? { return Spec.Fatal(Spec.DrbgFailed); }
      var sig := dsa.sign(message, secretKey, context, rnd.value[..]);
      WipeLast(rnd.value);
      return if sig.None? then Spec.Threw else Spec.Returned(Spec.Signature(sig.value));
    }

    method Serve(req: Spec.Request) returns (r: Spec.Outcome<Spec.Response>)
      requires Valid()
      modifies this, drbg, drbg.K, drbg.V, source
      ensures Valid() && Moved()
      ensures (World(), r) == Spec.Serve(p, source.dev, old(World()), req)
      ensures Leaves(Spec.Leaves(p, source.dev, old(World()), req))
    {
      match req
      case GenerateKeypair(alg) =>
        var kem, dsa := Spec.KemOf(p, alg), Spec.DsaOf(p, alg);
        var seed: array?<byte>;
        if kem.Some? {
          r, seed := GenerateKem(kem.value);
        } else if dsa.Some? {
          r, seed := GenerateDsa(dsa.value);
        } else {
          r := Spec.Threw;
        }
      case KeypairFromSeed(alg, seed) =>
        var kem, dsa := Spec.KemOf(p, alg), Spec.DsaOf(p, alg);
        r := if kem.Some? then Spec.Expand(kem.value.keygen, seed, 64)
             else if dsa.Some? then Spec.Expand(dsa.value.keygen, seed, 32)
             else Spec.Threw;
      case Encapsulate(alg, publicKey) =>
        var kem := Spec.KemOf(p, alg);
        if kem.None? { return Spec.Threw; }
        r := Encapsulate(kem.value, publicKey);
      case Decapsulate(alg, cipherText, secretKey) =>
        var kem := Spec.KemOf(p, alg);
        if kem.None? { return Spec.Threw; }
        var secret := kem.value.decapsulate(cipherText, secretKey);
        r := if secret.None? then Spec.Threw else Spec.Returned(Spec.Secret(secret.value));
      case Sign(alg, secretKey, message, context) =>
        var dsa, ctx := Spec.DsaOf(p, alg), Spec.ContextOf(context);
        if dsa.None? || ctx.None? { return Spec.Threw; }
        r := Sign(dsa.value, secretKey, message, ctx.value);
      case Verify(alg, publicKey, message, signature, context) =>
        var dsa, ctx := Spec.DsaOf(p, alg), Spec.ContextOf(context);
        if dsa.None? || ctx.None? { return Spec.Threw; }
        var ok := dsa.value.verify(signature, message, publicKey, ctx.value);
        r := Spec.Returned(Spec.Verdict(ok == Some(true)));
    }

    method Destroy()
      requires Valid()
      modifies drbg, drbg.K, drbg.V
      ensures Valid() && World() == old(World()).(drbg := None)
      ensures drbg.K == null && drbg.keys == old(drbg.keys) && drbg.values == old(drbg.values)
      ensures drbg.dropped == old(drbg.dropped)
      ensures old(drbg.K) != null ==> old(drbg.K) in drbg.retired && old(drbg.V) in drbg.retired
      ensures old(Wiped()) ==> Wiped()
    {
      hide Accounted, AllZero, Kept;
      LivePairIsNotIssued();
      drbg.Uninstantiate();
    }
  }

  /** Overwritten is zero. */
  lemma WipedMeans(table: ServiceTable)
    requires table.Valid() && table.Wiped()
    ensures forall a, i :: a in table.issued && a !in table.kept && 0 <= i < a.Length ==> a[i] == 0
  {
  }

  twostate lemma LeavesMeans(table: ServiceTable, n: nat)
    requires table.Leaves(n) && old(table.Wiped())
    ensures |table.kept| == |old(table.kept)| + n && old(table.kept) <= table.kept && table.Wiped()
  {
  }

  /** A caller may overwrite what it was given: the generator is as it was, so no later output changes. */
  method OverwriteIssued(table: ServiceTable, given: array<byte>)
    requires table.Valid() && given in table.issued
    modifies given
    ensures AllZero(given)
    ensures table.Valid() && table.World() == old(table.World())
    ensures old(table.Wiped()) ==> table.Wiped()
  {
    Zeroize(given);
  }

  method Start(p: Spec.Primitives, source: Entropy.EntropySource, castsPass: bool)
      returns (table: ServiceTable?, fault: Option<Spec.Fault>)
    requires source.cursor == Entropy.Cursor(0, 0, 0)
    modifies source
    ensures fault == Spec.Start(p, source.dev, castsPass).1
    ensures fault.None? <==> table != null
    ensures source.cursor == Spec.Start(p, source.dev, castsPass).0.cursor
    ensures table != null ==>
              && fresh(table) && fresh(table.drbg) && table.Valid() && table.p == p && table.source == source
              && (table.drbg.K == null || fresh(table.drbg.K)) && (table.drbg.V == null || fresh(table.drbg.V))
              && table.World() == Spec.Start(p, source.dev, castsPass).0
              && table.issued == [] && table.kept == []
  {
    if !castsPass { return null, Some(Spec.CastFailed); }
    var t := new ServiceTable(p, source);
    var entropy := source.GetEntropy(Spec.ENTROPY_BYTES);
    if entropy.None? { return null, Some(Spec.InstantiationFailed); }
    var nonce := source.GetEntropy(Spec.NONCE_BYTES);
    if nonce.None? { return null, Some(Spec.InstantiationFailed); }
    var personalization := Buffer(p.personalization);
    var reply := t.drbg.Instantiate(entropy.value, nonce.value, personalization);
    Zeroize(entropy.value);
    Zeroize(nonce.value);
    return t, None;
  }
}

/** src/fips/index.js: the module itself, and what it lets a caller do in each state. */
module Fips {
  import opened Octet
  import opened Drbg
  import opened FipsTable
  import Entropy
  import Integrity
  import Services = FipsServices
  import Life = FipsLifecycle

  class FipsModule {
    const env: Life.Setting
    const source: Entropy.EntropySource
    var state: Life.Phase
    var reason: Option<Life.Reason>
    var version: Option<string>
    var services: ServiceTable?
    /** The table that was started, kept in sight after it is let go. */
    ghost var started: ServiceTable?

    ghost predicate Valid()
      reads this
      reads if started == null then {} else {started, started.drbg, started.drbg.K, started.drbg.V}
      reads if started == null then {} else started.drbg.retired
    {
      && source.dev == env.dev
      && (state == Life.Operational <==> services != null)
      && (services != null ==> services == started)
      && (started != null ==> started.p == env.p && started.source == source && started.Valid())
      && (started != null && services == null ==> started.drbg.K == null)
    }

    /** The module as the run semantics sees it: the generator is the one that was started, whatever became of the table. */
    ghost function Model(): Life.Module
      reads this, source
      reads if started == null then {} else {started, started.source, started.drbg, started.drbg.K, started.drbg.V}
    {
      Life.Module(state, reason, version,
                  if started == null then Services.World(None, source.cursor, 0, 0) else started.World(),
                  services != null)
    }

    /** The table is the one there was, or gone; the generator behind it is the one there was, further on. */
    twostate predicate Continues()
      reads this
      reads if started == null then {} else {started, started.drbg}
    {
      && started == old(started) && (services == null || services == old(services))
      && (started != null ==>
            && old(started.drbg.keys) <= started.drbg.keys && old(started.drbg.values) <= started.drbg.values
            && (started.drbg.K == old(started.drbg.K) || started.drbg.K == null || fresh(started.drbg.K))
            && (started.drbg.V == old(started.drbg.V) || started.drbg.V == null || fresh(started.drbg.V)))
    }

    /** So many of the buffers drawn meanwhile are kept, and the others are overwritten. */
    twostate predicate Leaves(n: nat)
      reads this
      reads if started == null then {} else {started}
      reads if started == null then {} else set a | a in started.issued
    {
      && started == old(started)
      && (started != null ==>
            && old(started.kept) <= started.kept && |started.kept| == |old(started.kept)| + n
            && (old(started.Wiped()) ==> started.Wiped()))
    }

    constructor (env: Life.Setting, source: Entropy.EntropySource, host: Life.Host)
      requires source.dev == env.dev && source.cursor == Entropy.Cursor(0, 0, 0)
      requires Life.ValidHost(host)
      modifies source
      ensures Valid() && this.env == env && Model() == Life.Load(env, host)
      ensures started == services && (services != null ==> fresh(services) && fresh(services.drbg))
      ensures started != null ==> started.issued == [] && started.kept == []
    {
      hide Accounted, AllZero, Services.Start, Integrity.Verdict;
      this.env, this.source := env, source;
      state, reason, version, services, started := Life.SelfTesting, None, None, null, null;
      new;
      if !host.localFile { EnterError(Life.NotLocal); return; }
      if !host.integrityCasts { EnterError(Life.IntegrityCastsFailed); return; }
      var manifest := Integrity.IntegrityTest(env.ctx, host.files);
      if manifest.Err? { EnterError(Life.IntegrityFailed); return; }
      assert Integrity.Verdict(env.ctx, host.files) == Some(manifest.value);
      version := manifest.value.version;
      if !host.loads { EnterError(Life.LoadFailed); return; }
      var table, fault := Start(env.p, source, host.algorithmCasts);
      if fault.Some? { EnterError(Life.ServiceFault(fault.value)); return; }
      services, started := table, table;
      state := Life.Operational;
    }

    /** Any generator that was started is destroyed with the table. */
    method EnterError(why: Life.Reason)
      requires Valid()
      modifies this`state, this`reason, this`services
      modifies if services == null then {} else {services, services.drbg, services.drbg.K, services.drbg.V}
      ensures Valid() && services == null && Continues() && Leaves(0)
      ensures Model() == Life.Halted(old(Model()), old(Model()).world, why)
      ensures services == null && old(services) != null ==> old(services) == started && old(services).drbg.State() == None
      ensures old(services) != null && old(services.drbg.K) != null ==>
                old(services.drbg.K) in old(services).drbg.retired && old(services.drbg.V) in old(services).drbg.retired
    {
      state := Life.Failed;
      reason := Some(why);
      if services != null {
        services.Destroy();
        services := null;
      }
    }

    method Call(req: Services.Request) returns (reply: Life.Reply)
      requires Valid()
      modifies this`state, this`reason, this`services, source
      modifies if services == null then {} else {services, services.drbg, services.drbg.K, services.drbg.V}
      ensures Valid() && Continues()
      ensures (Model(), reply) == Life.Step(env, old(Model()), Life.Call(req))
      ensures Leaves(Life.Leaves(env, old(Model()), Life.Call(req)))
      ensures services == null && old(services) != null ==> old(services) == started && old(services).drbg.State() == None
    {
      if state != Life.Operational { return Life.NotOperational; }
      var r := services.Serve(req);
      match r
      case Returned(value) => return Life.Answer(value);
      case Threw => return Life.CallerError;
      case Fatal(why) =>
        EnterError(Life.ServiceFault(why));
        return Life.EnteredError;
    }

    method SelfTest(host: Life.Host) returns (reply: Life.Reply)
      requires Valid() && Life.ValidHost(host)
      modifies this`state, this`reason, this`services
      modifies if services == null then {} else {services, services.drbg, services.drbg.K, services.drbg.V}
      ensures Valid() && Continues()
      ensures (Model(), reply) == Life.Step(env, old(Model()), Life.SelfTest(host))
      ensures Leaves(0)
      ensures services == null && old(services) != null ==> old(services) == started && old(services).drbg.State() == None
    {
      if state != Life.Operational { return Life.NotOperational; }
      var why: Option<Life.Reason> := None;
      if !host.integrityCasts {
        why := Some(Life.IntegrityCastsFailed);
      } else {
        var manifest := Integrity.IntegrityTest(env.ctx, host.files);
        if manifest.Err? {
          why := Some(Life.IntegrityFailed);
        } else {
          assert Integrity.Verdict(env.ctx, host.files) == Some(manifest.value);
          if !host.algorithmCasts { why := Some(Life.AlgorithmCastsFailed); }
        }
      }
      if why.None? { return Life.TestsPassed; }
      EnterError(why.value);
      return Life.EnteredError;
    }

    /** One event of the run semantics. */
    method Handle(e: Life.Event) returns (reply: Life.Reply)
      requires Valid() && Life.ValidEvent(e)
      modifies this`state, this`reason, this`services, source
      modifies if services == null then {} else {services, services.drbg, services.drbg.K, services.drbg.V}
      ensures Valid() && Continues()
      ensures (Model(), reply) == Life.Step(env, old(Model()), e)
      ensures Leaves(Life.Leaves(env, old(Model()), e))
      ensures services == null && old(services) != null ==> old(services) == started && old(services).drbg.State() == None
    {
      match e
      case Call(req) => reply := Call(req);
      case SelfTest(host) => reply := SelfTest(host);
    }
  }

  /** No key the generator ever had is left, and of its values of V only those its generate loop let go. */
  ghost predicate Erased(drbg: HmacDrbg)
    reads drbg, set a | a in drbg.keys, set a | a in drbg.values
  {
    && drbg.K == null && drbg.V == null
    && (forall a :: a in drbg.keys ==> AllZero(a))
    && (forall a :: a in drbg.values ==> AllZero(a) || a in drbg.dropped)
  }

  lemma DestroyedIsErased(table: ServiceTable)
    requires table.Valid() && table.drbg.K == null
    ensures table.drbg.State() == None && Erased(table.drbg)
  {
  }

  /** After a module has failed, its generator holds nothing and no byte of any key it had is left. */
  lemma ErasedMeans(drbg: HmacDrbg)
    requires drbg.Valid() && Erased(drbg)
    ensures drbg.State() == None
    ensures forall a, i :: a in drbg.keys && 0 <= i < a.Length ==> a[i] == 0
    ensures forall a, i :: a in drbg.values && a !in drbg.dropped && 0 <= i < a.Length ==> a[i] == 0
  {
  }

  /**
   * Any run of calls and self-tests on a module gives the states and replies of
   * the run semantics; and where it has failed, the generator object it had is
   * uninstantiated and every key it ever held is overwritten. Of all the buffers
   * drawn in the run, exactly as many as its events leave are not overwritten.
   */
  method Live(m: FipsModule, events: seq<Life.Event>) returns (replies: seq<Life.Reply>)
    requires m.Valid() && forall i :: 0 <= i < |events| ==> Life.ValidEvent(events[i])
    modifies m`state, m`reason, m`services, m.source
    modifies if m.services == null then {} else {m.services, m.services.drbg, m.services.drbg.K, m.services.drbg.V}
    ensures m.Valid() && (m.Model(), replies) == Life.Run(m.env, old(m.Model()), events)
    ensures m.started == old(m.started) && (m.services != null ==> m.services == m.started)
    ensures m.services == null && old(m.services) != null ==>
              && old(m.services).drbg.State() == None && Erased(old(m.services).drbg)
              && old(m.services.drbg.keys) <= old(m.services).drbg.keys
              && old(m.services.drbg.values) <= old(m.services).drbg.values
    ensures Life.Sound(old(m.Model())) ==> Life.Sound(m.Model())
    ensures m.Leaves(Life.LeavesInAll(m.env, old(m.Model()), events))
  {
    hide Life.Step, Life.Leaves, Accounted, AllZero, Erased, ServiceTable.Kept, ServiceTable.Wiped;
    replies := [];
    ghost var start := m.Model();
    for i := 0 to |events|
      invariant m.Valid() && m.Continues()
      invariant (m.Model(), replies) == Life.Run(m.env, start, events[..i])
      invariant m.Leaves(Life.LeavesInAll(m.env, start, events[..i]))
    {
      assert events[..i + 1][..i] == events[..i];
      Life.RunSnoc(m.env, start, events, i);
      var reply := m.Handle(events[i]);
      replies := replies + [reply];
    }
    assert events[..|events|] == events;
    if m.services == null && old(m.services) != null { DestroyedIsErased(old(m.services)); }
    if Life.Sound(start) { Life.RunKeepsSound(m.env, start, events); }
  }
}
