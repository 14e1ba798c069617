/** The life of src/fips/index.js over any run of calls, on values. */
module FipsLifecycle {
  import opened Octet
  import Sp = Sp80090A
  import Entropy
  import Integrity
  import Services = FipsServices

  datatype Phase = SelfTesting | Operational | Failed

  /** What the module finds around it when it is imported or asked to test itself. */
  datatype Host = Host(
    localFile: bool,
    integrityCasts: bool,
    files: Integrity.Entries,
    loads: bool,
    algorithmCasts: bool)

  datatype Reason =
    | NotLocal
    | IntegrityCastsFailed
    | IntegrityFailed
    | LoadFailed
    | AlgorithmCastsFailed
    | ServiceFault(why: Services.Fault)

  /** `offered` says whether the service table exists; `world` is the generator behind it. */
  datatype Module = Module(
    phase: Phase, reason: Option<Reason>, version: Option<string>, world: Services.World, offered: bool)

  /** Everything fixed for the life of the process. */
  datatype Setting = Setting(p: Services.Primitives, ctx: Integrity.Context, dev: Entropy.Device)

  datatype Event = Call(req: Services.Request) | SelfTest(host: Host)

  datatype Reply = Answer(value: Services.Response) | CallerError | EnteredError | NotOperational | TestsPassed

  ghost predicate ValidHost(host: Host) { Integrity.WellFormed(host.files) }

  function Halted(m: Module, w: Services.World, why: Reason): Module {
    m.(phase := Failed, reason := Some(why), offered := false, world := w.(drbg := None))
  }

  /** The checks made on demand, in order; None when all pass. */
  ghost function Tests(env: Setting, host: Host): Option<Reason>
    requires ValidHost(host)
  {
    if !host.integrityCasts then Some(IntegrityCastsFailed)
    else if Integrity.Verdict(env.ctx, host.files).None? then Some(IntegrityFailed)
    else if !host.algorithmCasts then Some(AlgorithmCastsFailed)
    else None
  }

  ghost function Load(env: Setting, host: Host): Module
    requires ValidHost(host)
  {
    var idle := Services.World(None, Entropy.Cursor(0, 0, 0), 0, 0);
    var m := Module(SelfTesting, None, None, idle, false);
    if !host.localFile then Halted(m, idle, NotLocal)
    else if !host.integrityCasts then Halted(m, idle, IntegrityCastsFailed)
    else
      var manifest := Integrity.Verdict(env.ctx, host.files);
      if manifest.None? then Halted(m, idle, IntegrityFailed)
      else
        var m1 := m.(version := manifest.value.version);
        if !host.loads then Halted(m1, idle, LoadFailed)
        else
          var (w, fault) := Services.Start(env.p, env.dev, host.algorithmCasts);
          if fault.Some? then Halted(m1, w, ServiceFault(fault.value))
          else m1.(phase := Operational, world := w, offered := true)
  }

  ghost predicate ValidEvent(e: Event) { e.SelfTest? ==> ValidHost(e.host) }

  ghost function Step(env: Setting, m: Module, e: Event): (Module, Reply)
    requires ValidEvent(e)
  {
    if m.phase != Operational then (m, NotOperational)
    else
      match e
      case Call(req) =>
        var (w, r) := Services.Serve(env.p, env.dev, m.world, req);
        (match r
         case Returned(value) => (m.(world := w), Answer(value))
         case Threw => (m.(world := w), CallerError)
         case Fatal(why) => (Halted(m, w, ServiceFault(why)), EnteredError))
      case SelfTest(host) =>
        var why := Tests(env, host);
        if why.None? then (m, TestsPassed) else (Halted(m, m.world, why.value), EnteredError)
  }

  ghost function Run(env: Setting, m: Module, events: seq<Event>): (r: (Module, seq<Reply>))
    requires forall i :: 0 <= i < |events| ==> ValidEvent(events[i])
    ensures |r.1| == |events|
    decreases |events|
  {
    if events == [] then (m, [])
    else
      var (m1, reply) := Step(env, m, events[0]);
      var (m2, replies) := Run(env, m1, events[1..]);
      (m2, [reply] + replies)
  }

  /** How many drawn buffers an event leaves as they are, and how many a run does. */
  ghost function Leaves(env: Setting, m: Module, e: Event): nat {
    if m.phase == Operational && e.Call? then Services.Leaves(env.p, env.dev, m.world, e.req) else 0
  }

  ghost function LeavesInAll(env: Setting, m: Module, events: seq<Event>): nat
    requires forall i :: 0 <= i < |events| ==> ValidEvent(events[i])
  {
    if events == [] then 0
    else
      var init, last := events[..|events| - 1], events[|events| - 1];
      LeavesInAll(env, m, init) + Leaves(env, Run(env, m, init).0, last)
  }

  /** A run grows at its end by the step taken there. */
  lemma {:induction false} RunSnoc(env: Setting, m: Module, events: seq<Event>, i: nat)
    requires i < |events| && forall j :: 0 <= j < |events| ==> ValidEvent(events[j])
    ensures var (m1, replies) := Run(env, m, events[..i]);
            var (m2, reply) := Step(env, m1, events[i]);
            Run(env, m, events[..i + 1]) == (m2, replies + [reply])
    decreases i
  {
    hide Step;
    if i == 0 {
      assert events[..1] == [events[0]] && events[..1][1..] == [];
      var reply := Step(env, m, events[0]).1;
      assert [reply] + [] == [] + [reply];
    } else {
      var m1 := Step(env, m, events[0]).0;
      RunSnoc(env, m1, events[1..], i - 1);
      assert events[..i + 1][1..] == events[1..][..i] && events[..i][1..] == events[1..][..i - 1];
      var first, replies := Step(env, m, events[0]).1, Run(env, m1, events[1..][..i - 1]).1;
      var reply := Step(env, Run(env, m, events[..i]).0, events[i]).1;
      assert [first] + (replies + [reply]) == [first] + replies + [reply];
    }
  }

  /** Operational means a healthy instantiated generator behind the table; failed means neither exists. */
  predicate Sound(m: Module) {
    match m.phase
    case SelfTesting => false
    case Operational => m.offered && m.reason.None? && Services.Regular(m.world)
    case Failed => !m.offered && m.reason.Some? && m.world.drbg.None?
  }

  /** The module comes up exactly when every check at import passes and the device serves both requests. */
  lemma OperationalAtImportIff(env: Setting, host: Host)
    requires ValidHost(host)
    ensures Sound(Load(env, host))
    ensures Load(env, host).phase == Operational <==>
              && host.localFile && host.integrityCasts
              && (exists manifest :: Integrity.Authentic(env.ctx, host.files, manifest))
              && host.loads && host.algorithmCasts
              && Services.Start(env.p, env.dev, true).1.None?
  {
    if Services.Start(env.p, env.dev, host.algorithmCasts).1.None? {
      Services.StartIsRegular(env.p, env.dev, host.algorithmCasts);
    }
    var v := Integrity.Verdict(env.ctx, host.files);
    assert v.Some? ==> Integrity.Authentic(env.ctx, host.files, v.value);
  }

  lemma StepKeepsSound(env: Setting, m: Module, e: Event)
    requires ValidEvent(e) && Sound(m)
    ensures Sound(Step(env, m, e).0)
  {
    if m.phase == Operational && e.Call? { Services.ServiceKeepsRegular(env.p, env.dev, m.world, e.req); }
  }

  /** What holds of the module at import holds after any run. */
  lemma {:induction false} RunKeepsSound(env: Setting, m: Module, events: seq<Event>)
    requires forall i :: 0 <= i < |events| ==> ValidEvent(events[i])
    requires Sound(m)
    ensures Sound(Run(env, m, events).0)
    decreases |events|
  {
    if events != [] {
      StepKeepsSound(env, m, events[0]);
      RunKeepsSound(env, Step(env, m, events[0]).0, events[1..]);
    }
  }

  /**
   * From import on, over any run: the module is operational or failed; operational,
   * it has a service table over an instantiated generator and no reason to stop;
   * failed, it has a reason, no table, and no generator state.
   */
  lemma OverAnyRun(env: Setting, host: Host, events: seq<Event>)
    requires ValidHost(host) && forall i :: 0 <= i < |events| ==> ValidEvent(events[i])
    ensures var m := Run(env, Load(env, host), events).0;
            && (m.phase == Operational || m.phase == Failed)
            && (m.phase == Operational ==>
                  && m.offered && m.reason == None && m.world.drbg.Some?
                  && 1 <= m.world.drbg.value.counter <= 1048577
                  && m.world.reseeds == (if m.world.draws == 0 then 0 else (m.world.draws - 1) / 1048576))
            && (m.phase == Failed ==> !m.offered && m.reason != None && m.world.drbg == None)
  {
    hide Run, Load;
    OperationalAtImportIff(env, host);
    RunKeepsSound(env, Load(env, host), events);
    var m := Run(env, Load(env, host), events).0;
    if m.phase == Operational { Services.RegularCounter(m.world); }
  }

  /** Once failed, nothing changes and no call is answered. */
  lemma {:induction false} ErrorIsAbsorbing(env: Setting, m: Module, events: seq<Event>)
    requires forall i :: 0 <= i < |events| ==> ValidEvent(events[i])
    requires m.phase == Failed
    ensures Run(env, m, events).0 == m
    ensures forall i :: 0 <= i < |events| ==> Run(env, m, events).1[i] == NotOperational
    decreases |events|
  {
    if events != [] { ErrorIsAbsorbing(env, m, events[1..]); }
  }

  /** What ends operation: a starved draw, a pair that fails its test or a failed self-test, and nothing else. */
  ghost predicate Ends(env: Setting, m: Module, e: Event)
    requires ValidEvent(e)
  {
    match e
    case Call(req) => Services.Fails(env.p, env.dev, m.world, req)
    case SelfTest(host) => Tests(env, host).Some?
  }

  lemma EndsIff(env: Setting, m: Module, e: Event)
    requires ValidEvent(e) && Sound(m)
    ensures Step(env, m, e).0.phase == Operational <==> m.phase == Operational && !Ends(env, m, e)
  {
    hide Services.Serve, Services.Fails;
    if m.phase == Operational && e.Call? { Services.FatalIff(env.p, env.dev, m.world, e.req); }
  }

  /**
   * A run leaves the module operational exactly when it was, and no event of
   * the run, at the state it met, was fatal.
   */
  lemma {:induction false} StillOperationalIff(env: Setting, m: Module, events: seq<Event>)
    requires forall i :: 0 <= i < |events| ==> ValidEvent(events[i])
    requires Sound(m)
    ensures Run(env, m, events).0.phase == Operational <==>
              && m.phase == Operational
              && forall i :: 0 <= i < |events| ==> !Ends(env, Run(env, m, events[..i]).0, events[i])
    decreases |events|
  {
    hide Step, Ends;
    if events == [] { return; }
    var (m1, reply) := Step(env, m, events[0]);
    var rest := events[1..];
    StepKeepsSound(env, m, events[0]);
    EndsIff(env, m, events[0]);
    StillOperationalIff(env, m1, rest);
    assert Run(env, m, events[..0]).0 == m;
    forall i | 0 < i < |events| ensures Run(env, m, events[..i]).0 == Run(env, m1, rest[..i - 1]).0 {
      assert events[..i][1..] == rest[..i - 1];
    }
    assert forall i :: 0 < i < |events| ==> events[i] == rest[i - 1];
    if m.phase == Operational && !Ends(env, m, events[0]) {
      forall i | 0 <= i < |rest| ensures Ends(env, Run(env, m1, rest[..i]).0, rest[i])
                                     <==> Ends(env, Run(env, m, events[..i + 1]).0, events[i + 1]) {
        assert rest[..(i + 1) - 1] == rest[..i];
      }
    }
  }

  /** Every key pair a run hands out passed the pairwise test of its own parameter set. */
  lemma {:induction false} EveryPairPassed(env: Setting, m: Module, events: seq<Event>, i: nat)
    requires forall j :: 0 <= j < |events| ==> ValidEvent(events[j])
    requires Sound(m) && i < |events|
    requires Run(env, m, events).1[i].Answer? && Run(env, m, events).1[i].value.Pair?
    ensures events[i].Call? && events[i].req.GenerateKeypair?
    ensures Services.PassedPairwise(env.p, events[i].req.alg, Run(env, m, events).1[i].value.pair)
    decreases |events|
  {
    if i == 0 {
      if events[0].Call? && events[0].req.GenerateKeypair? {
        Services.GeneratedPairPassed(env.p, env.dev, m.world, events[0].req.alg);
      }
    } else {
      StepKeepsSound(env, m, events[0]);
      EveryPairPassed(env, Step(env, m, events[0]).0, events[1..], i - 1);
    }
  }

  /** What an event of a run is answered is what the state it met answers. */
  lemma {:induction false} ReplyAt(env: Setting, m: Module, events: seq<Event>, i: nat)
    requires i < |events| && forall j :: 0 <= j < |events| ==> ValidEvent(events[j])
    ensures Run(env, m, events).1[i] == Step(env, Run(env, m, events[..i]).0, events[i]).1
    decreases i
  {
    hide Step;
    if i > 0 {
      ReplyAt(env, Step(env, m, events[0]).0, events[1..], i - 1);
      assert events[..i][1..] == events[1..][..i - 1];
    }
  }

  ghost predicate Generated(env: Setting, m: Module, events: seq<Event>, alg: string, pair: Services.KeyPair)
    requires forall i :: 0 <= i < |events| ==> ValidEvent(events[i])
  {
    exists i, seed :: 0 <= i < |events| && events[i] == Call(Services.GenerateKeypair(alg))
                      && Run(env, m, events).1[i] == Answer(Services.Pair(pair, seed))
  }

  lemma GeneratedByKeygen(env: Setting, m: Module, events: seq<Event>, alg: string, pair: Services.KeyPair)
    requires forall i :: 0 <= i < |events| ==> ValidEvent(events[i])
    requires Generated(env, m, events, alg, pair)
    ensures Services.KemOf(env.p, alg).Some? ==>
              exists seed :: |seed| == 64 && Services.KemOf(env.p, alg).value.keygen(seed) == Some(pair)
    ensures Services.DsaOf(env.p, alg).Some? ==>
              exists seed :: |seed| == 32 && Services.DsaOf(env.p, alg).value.keygen(seed) == Some(pair)
  {
    hide Services.Serve, Run;
    var i, seed :| 0 <= i < |events| && events[i] == Call(Services.GenerateKeypair(alg))
                   && Run(env, m, events).1[i] == Answer(Services.Pair(pair, seed));
    ReplyAt(env, m, events, i);
    Services.GeneratedPairIsKeygens(env.p, env.dev, Run(env, m, events[..i]).0.world, alg);
  }

  /**
   * A pair generated anywhere in a run serves everywhere in it: encapsulating to
   * it is never the caller's error, and what is decapsulated is the secret that
   * was encapsulated, unless the module has stopped.
   */
  lemma SecretsAreShared(env: Setting, m: Module, events: seq<Event>, alg: string, pair: Services.KeyPair, j: nat)
    requires forall i :: 0 <= i < |events| ==> ValidEvent(events[i])
    requires Services.KemOf(env.p, alg).Some? && Services.KemCorrect(Services.KemOf(env.p, alg).value)
    requires Generated(env, m, events, alg, pair)
    requires j < |events| && events[j] == Call(Services.Encapsulate(alg, pair.publicKey))
    ensures var replies := Run(env, m, events).1;
            && replies[j] != CallerError
            && (replies[j].Answer? ==>
                  && replies[j].value.Encapsulated?
                  && var sealed := replies[j].value.sealed;
                     forall k |
                         && 0 <= k < |events|
                         && events[k] == Call(Services.Decapsulate(alg, sealed.cipherText, pair.secretKey)) ::
                         replies[k] == NotOperational || replies[k] == Answer(Services.Secret(sealed.sharedSecret)))
  {
    hide Run, Services.Random;
    var replies := Run(env, m, events).1;
    GeneratedByKeygen(env, m, events, alg, pair);
    ReplyAt(env, m, events, j);
    var w := Run(env, m, events[..j]).0.world;
    var drawn := Services.Random(env.p, env.dev, w, 32).1;
    Services.DrawnLength(env.p, env.dev, w, 32);
    assert drawn.Some? ==> Services.KemConsistent(Services.KemOf(env.p, alg).value, pair, drawn.value);
    if replies[j].Answer? {
      var sealed := replies[j].value.sealed;
      forall k | 0 <= k < |events| && events[k] == Call(Services.Decapsulate(alg, sealed.cipherText, pair.secretKey))
        ensures replies[k] == NotOperational || replies[k] == Answer(Services.Secret(sealed.sharedSecret))
      {
        ReplyAt(env, m, events, k);
      }
    }
  }

  /**
   * A signature made in a run with a pair generated in it verifies everywhere in
   * it under its context; signing is the caller's error only for a context too long.
   */
  lemma SignaturesVerify(env: Setting, m: Module, events: seq<Event>, alg: string, pair: Services.KeyPair,
                         message: Octets, context: Option<Octets>, j: nat)
    requires forall i :: 0 <= i < |events| ==> ValidEvent(events[i])
    requires Services.DsaOf(env.p, alg).Some? && Services.DsaCorrect(Services.DsaOf(env.p, alg).value)
    requires Generated(env, m, events, alg, pair)
    requires j < |events| && events[j] == Call(Services.Sign(alg, pair.secretKey, message, context))
    ensures var replies := Run(env, m, events).1;
            && (replies[j] != NotOperational ==>
                  (replies[j] == CallerError <==> context.Some? && |context.value| > Services.MAX_CONTEXT_BYTES))
            && (replies[j].Answer? ==>
                  && replies[j].value.Signature?
                  && forall k |
                         && 0 <= k < |events|
                         && events[k] == Call(Services.Verify(alg, pair.publicKey, message, replies[j].value.signature, context)) ::
                         replies[k] == NotOperational || replies[k] == Answer(Services.Verdict(true)))
  {
    hide Run, Services.Random;
    var replies := Run(env, m, events).1;
    GeneratedByKeygen(env, m, events, alg, pair);
    ReplyAt(env, m, events, j);
    var w := Run(env, m, events[..j]).0.world;
    var ctx, drawn := Services.ContextOf(context), Services.Random(env.p, env.dev, w, 32).1;
    Services.DrawnLength(env.p, env.dev, w, 32);
    assert ctx.Some? && drawn.Some? ==>
             Services.DsaAgrees(Services.DsaOf(env.p, alg).value, pair, message, ctx.value, drawn.value);
    if replies[j].Answer? {
      var signature := replies[j].value.signature;
      forall k | 0 <= k < |events|
                 && events[k] == Call(Services.Verify(alg, pair.publicKey, message, signature, context))
        ensures replies[k] == NotOperational || replies[k] == Answer(Services.Verdict(true))
      {
        ReplyAt(env, m, events, k);
      }
    }
  }

  // ── What each event of a run is answered, in terms of the primitives alone ──

  /**
   * A signature is answered as the primitive of the named set judges it, under
   * the context given or the empty one; whatever the primitive does, it is no fault.
   */
  lemma VerifyAnswered(env: Setting, m: Module, events: seq<Event>, i: nat, alg: string, publicKey: Octets,
                       message: Octets, signature: Octets, context: Option<Octets>)
    requires i < |events| && forall j :: 0 <= j < |events| ==> ValidEvent(events[j])
    requires events[i] == Call(Services.Verify(alg, publicKey, message, signature, context))
    ensures var reply := Run(env, m, events).1[i];
            reply != NotOperational ==>
              reply == if alg != "ML-DSA-65" && alg != "ML-DSA-87" then CallerError
                       else if context.Some? && |context.value| > 255 then CallerError
                       else
                         var dsa := if alg == "ML-DSA-65" then env.p.dsa65 else env.p.dsa87;
                         var ctx := if context.Some? then context.value else [];
                         Answer(Services.Verdict(dsa.verify(signature, message, publicKey, ctx) == Some(true)))
    ensures Run(env, m, events[..i + 1]).0 == Run(env, m, events[..i]).0
  {
    hide Run, Services.Random;
    ReplyAt(env, m, events, i);
    RunSnoc(env, m, events, i);
    Services.SetsByName(env.p, alg);
  }

  /** A ciphertext is answered with what the primitive of the named set decapsulates it to. */
  lemma DecapsulateAnswered(env: Setting, m: Module, events: seq<Event>, i: nat, alg: string,
                            cipherText: Octets, secretKey: Octets)
    requires i < |events| && forall j :: 0 <= j < |events| ==> ValidEvent(events[j])
    requires events[i] == Call(Services.Decapsulate(alg, cipherText, secretKey))
    ensures var reply := Run(env, m, events).1[i];
            reply != NotOperational ==>
              reply == if alg != "ML-KEM-768" && alg != "ML-KEM-1024" then CallerError
                       else
                         var kem := if alg == "ML-KEM-768" then env.p.kem768 else env.p.kem1024;
                         var secret := kem.decapsulate(cipherText, secretKey);
                         if secret.None? then CallerError else Answer(Services.Secret(secret.value))
    ensures Run(env, m, events[..i + 1]).0 == Run(env, m, events[..i]).0
  {
    hide Run, Services.Random;
    ReplyAt(env, m, events, i);
    RunSnoc(env, m, events, i);
    Services.SetsByName(env.p, alg);
  }

  /** A seed of the named set's length is answered with the pair that set's keygen makes of it. */
  lemma ExpansionAnswered(env: Setting, m: Module, events: seq<Event>, i: nat, alg: string, seed: Octets)
    requires i < |events| && forall j :: 0 <= j < |events| ==> ValidEvent(events[j])
    requires events[i] == Call(Services.KeypairFromSeed(alg, seed))
    ensures var reply := Run(env, m, events).1[i];
            var pair := if alg == "ML-KEM-768" && |seed| == 64 then env.p.kem768.keygen(seed)
                        else if alg == "ML-KEM-1024" && |seed| == 64 then env.p.kem1024.keygen(seed)
                        else if alg == "ML-DSA-65" && |seed| == 32 then env.p.dsa65.keygen(seed)
                        else if alg == "ML-DSA-87" && |seed| == 32 then env.p.dsa87.keygen(seed)
                        else None;
            reply != NotOperational ==>
              reply == if pair.None? then CallerError else Answer(Services.Expanded(pair.value))
    ensures Run(env, m, events[..i + 1]).0 == Run(env, m, events[..i]).0
  {
    hide Run, Services.Random;
    ReplyAt(env, m, events, i);
    RunSnoc(env, m, events, i);
    Services.SetsByName(env.p, alg);
  }

  /** An encapsulation is the primitive's, on this key and the 32 bytes drawn for it. */
  lemma EncapsulateAnswered(env: Setting, m: Module, events: seq<Event>, i: nat, alg: string, publicKey: Octets)
    requires i < |events| && forall j :: 0 <= j < |events| ==> ValidEvent(events[j])
    requires events[i] == Call(Services.Encapsulate(alg, publicKey))
    ensures var reply := Run(env, m, events).1[i];
            var drawn := Services.Random(env.p, env.dev, Run(env, m, events[..i]).0.world, 32).1;
            reply != NotOperational ==>
              reply == if alg != "ML-KEM-768" && alg != "ML-KEM-1024" then CallerError
                       else if drawn.None? then EnteredError
                       else
                         var kem := if alg == "ML-KEM-768" then env.p.kem768 else env.p.kem1024;
                         var sent := kem.encapsulate(publicKey, drawn.value);
                         if sent.None? then CallerError else Answer(Services.Encapsulated(sent.value))
  {
    hide Run, Services.Random;
    ReplyAt(env, m, events, i);
    Services.SetsByName(env.p, alg);
  }

  /** A signature is the primitive's, on this key and message, the context given or the empty one, and 32 bytes drawn for it. */
  lemma SignAnswered(env: Setting, m: Module, events: seq<Event>, i: nat, alg: string, secretKey: Octets,
                     message: Octets, context: Option<Octets>)
    requires i < |events| && forall j :: 0 <= j < |events| ==> ValidEvent(events[j])
    requires events[i] == Call(Services.Sign(alg, secretKey, message, context))
    ensures var reply := Run(env, m, events).1[i];
            var drawn := Services.Random(env.p, env.dev, Run(env, m, events[..i]).0.world, 32).1;
            reply != NotOperational ==>
              reply == if alg != "ML-DSA-65" && alg != "ML-DSA-87" then CallerError
                       else if context.Some? && |context.value| > 255 then CallerError
                       else if drawn.None? then EnteredError
                       else
                         var dsa := if alg == "ML-DSA-65" then env.p.dsa65 else env.p.dsa87;
                         var ctx := if context.Some? then context.value else [];
                         var sig := dsa.sign(message, secretKey, ctx, drawn.value);
                         if sig.None? then CallerError else Answer(Services.Signature(sig.value))
  {
    hide Run, Services.Random;
    ReplyAt(env, m, events, i);
    Services.SetsByName(env.p, alg);
  }

  /**
   * A generated KEM pair is the keygen's of the 64 bytes drawn, returned with
   * them, and only where decapsulating what the next 32 bytes encapsulate to it
   * gives the same secret; otherwise the module stops.
   */
  lemma KemPairAnswered(env: Setting, m: Module, events: seq<Event>, i: nat, alg: string)
    requires i < |events| && forall j :: 0 <= j < |events| ==> ValidEvent(events[j])
    requires events[i] == Call(Services.GenerateKeypair(alg)) && (alg == "ML-KEM-768" || alg == "ML-KEM-1024")
    ensures var reply := Run(env, m, events).1[i];
            var kem := if alg == "ML-KEM-768" then env.p.kem768 else env.p.kem1024;
            var (w1, seed) := Services.Random(env.p, env.dev, Run(env, m, events[..i]).0.world, 64);
            var drawn := Services.Random(env.p, env.dev, w1, 32).1;
            reply != NotOperational ==>
              if seed.None? then reply == EnteredError
              else
                var pair := kem.keygen(seed.value);
                if pair.None? then reply == CallerError
                else if drawn.None? then reply == EnteredError
                else
                  var sent := kem.encapsulate(pair.value.publicKey, drawn.value);
                  if sent.Some? && kem.decapsulate(sent.value.cipherText, pair.value.secretKey) == Some(sent.value.sharedSecret)
                  then reply == Answer(Services.Pair(pair.value, seed.value))
                  else reply == EnteredError
  {
    hide Run, Services.Random;
    ReplyAt(env, m, events, i);
    Services.SetsByName(env.p, alg);
  }

  /** And a generated signature pair where it verifies what it signs of the test message under the empty context. */
  lemma DsaPairAnswered(env: Setting, m: Module, events: seq<Event>, i: nat, alg: string)
    requires i < |events| && forall j :: 0 <= j < |events| ==> ValidEvent(events[j])
    requires events[i] == Call(Services.GenerateKeypair(alg)) && alg != "ML-KEM-768" && alg != "ML-KEM-1024"
    ensures var reply := Run(env, m, events).1[i];
            var dsa := if alg == "ML-DSA-65" then env.p.dsa65 else env.p.dsa87;
            var (w1, seed) := Services.Random(env.p, env.dev, Run(env, m, events[..i]).0.world, 32);
            var drawn := Services.Random(env.p, env.dev, w1, 32).1;
            reply != NotOperational ==>
              if alg != "ML-DSA-65" && alg != "ML-DSA-87" then reply == CallerError
              else if seed.None? then reply == EnteredError
              else
                var pair := dsa.keygen(seed.value);
                if pair.None? then reply == CallerError
                else if drawn.None? then reply == EnteredError
                else
                  var sig := dsa.sign(env.p.pctMessage, pair.value.secretKey, [], drawn.value);
                  if sig.Some? && dsa.verify(sig.value, env.p.pctMessage, pair.value.publicKey, []) == Some(true)
                  then reply == Answer(Services.Pair(pair.value, seed.value))
                  else reply == EnteredError
  {
    hide Run, Services.Random;
    ReplyAt(env, m, events, i);
    Services.SetsByName(env.p, alg);
  }

  /** An event goes unanswered exactly when the module is not operational at that point. */
  lemma NotOperationalIff(env: Setting, m: Module, events: seq<Event>, i: nat)
    requires i < |events| && forall j :: 0 <= j < |events| ==> ValidEvent(events[j])
    ensures Run(env, m, events).1[i] == NotOperational <==> Run(env, m, events[..i]).0.phase != Operational
  {
    hide Run, Services.Serve, Tests;
    ReplyAt(env, m, events, i);
  }

  /** A call that stops the module leaves it failed for a draw that was not served or a pairwise test that failed, by kind. */
  lemma FaultsMean(env: Setting, m: Module, events: seq<Event>, i: nat, req: Services.Request)
    requires i < |events| && forall j :: 0 <= j < |events| ==> ValidEvent(events[j])
    requires events[i] == Call(req) && Run(env, m, events).1[i] == EnteredError
    ensures var w := Run(env, m, events[..i]).0.world;
            var after := Run(env, m, events[..i + 1]).0;
            var length := if req.GenerateKeypair? && (req.alg == "ML-KEM-768" || req.alg == "ML-KEM-1024") then 64 else 32;
            var (w1, first) := Services.Random(env.p, env.dev, w, length);
            var second := Services.Random(env.p, env.dev, w1, 32).1;
            && after.phase == Failed && !after.offered && after.world.drbg.None?
            && after.reason == Some(ServiceFault(
                 if first.None? || (req.GenerateKeypair? && second.None?) then Services.DrbgFailed
                 else if length == 64 then Services.KemPairwiseFailed
                 else Services.DsaPairwiseFailed))
  {
    hide Run, Services.Random;
    ReplyAt(env, m, events, i);
    RunSnoc(env, m, events, i);
    if req.GenerateKeypair? { Services.SetsByName(env.p, req.alg); }
  }

  /** A self-test asked for passes exactly when its own casts do and the directory is authentic; the first that does not is the reason the module stops. */
  lemma SelfTestAnswered(env: Setting, m: Module, events: seq<Event>, i: nat, host: Host)
    requires i < |events| && forall j :: 0 <= j < |events| ==> ValidEvent(events[j])
    requires events[i] == SelfTest(host)
    ensures var reply := Run(env, m, events).1[i];
            var authentic := exists manifest :: Integrity.Authentic(env.ctx, host.files, manifest);
            var after := Run(env, m, events[..i + 1]).0;
            reply != NotOperational ==>
              if !host.integrityCasts then reply == EnteredError && after.reason == Some(IntegrityCastsFailed)
              else if !authentic then reply == EnteredError && after.reason == Some(IntegrityFailed)
              else if !host.algorithmCasts then reply == EnteredError && after.reason == Some(AlgorithmCastsFailed)
              else reply == TestsPassed && after == Run(env, m, events[..i]).0
  {
    hide Run, Integrity.Authentic;
    ReplyAt(env, m, events, i);
    RunSnoc(env, m, events, i);
    var verdict := Integrity.Verdict(env.ctx, host.files);
    if verdict.Some? { assert Integrity.Authentic(env.ctx, host.files, verdict.value); }
  }

  /** Import fails for the first check that does, in the order they are made; once authentic, the manifest's version is kept. */
  lemma ImportMeans(env: Setting, host: Host)
    requires ValidHost(host)
    ensures var m := Load(env, host);
            var authentic := exists manifest :: Integrity.Authentic(env.ctx, host.files, manifest);
            var fault := Services.Start(env.p, env.dev, host.algorithmCasts).1;
            && m.reason == (if !host.localFile then Some(NotLocal)
                            else if !host.integrityCasts then Some(IntegrityCastsFailed)
                            else if !authentic then Some(IntegrityFailed)
                            else if !host.loads then Some(LoadFailed)
                            else if fault.Some? then Some(ServiceFault(fault.value))
                            else None)
            && (m.phase == Operational <==> m.reason.None?) && (m.phase == Failed <==> m.reason.Some?)
            && (host.localFile && host.integrityCasts ==>
                  forall manifest :: Integrity.Authentic(env.ctx, host.files, manifest) ==> m.version == manifest.version)
  {
    hide Integrity.Authentic, Services.Start;
    var verdict := Integrity.Verdict(env.ctx, host.files);
    if verdict.Some? { assert Integrity.Authentic(env.ctx, host.files, verdict.value); }
  }
}
