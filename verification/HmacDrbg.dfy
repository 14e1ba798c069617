/**
 * SP 800-90A Rev. 1, section 10.1.2: HMAC_DRBG as the standard states it, on
 * values. Nothing here mentions buffers; the class below is proved against it.
 */
module Sp80090A {
  import opened Octet

  const OUTLEN := 64
  const MAX_BYTES_PER_REQUEST := 65536
  const RESEED_INTERVAL := 0x10_0000
  const MIN_ENTROPY_BYTES := 32
  const MIN_NONCE_BYTES := 16

  ghost predicate IsMac(f: (Octets, Octets) -> Octets) {
    forall k, m :: |f(k, m)| == OUTLEN
  }

  type Mac = f: (Octets, Octets) -> Octets | IsMac(f)
    ghost witness ((k: Octets, m: Octets) => Zeros(OUTLEN))

  datatype Working = Working(key: Octets, v: Octets, counter: nat)

  datatype Refusal =
    | EntropyTooShort
    | NonceTooShort
    | NotInstantiated
    | LengthOutOfRange
    | ReseedRequired

  /** Section 10.1.2.2. */
  function Update(h: Mac, provided: Octets, key: Octets, v: Octets): (r: (Octets, Octets)) {
    var key1 := h(key, v + [0x00] + provided);
    var v1 := h(key1, v);
    if provided == [] then (key1, v1)
    else
      var key2 := h(key1, v1 + [0x01] + provided);
      (key2, h(key2, v1))
  }

  /** Section 10.1.2.3. */
  function Instantiate(h: Mac, entropy: Octets, nonce: Octets, personalization: Octets): Working {
    var (key, v) := Update(h, entropy + nonce + personalization, Zeros(OUTLEN), seq(OUTLEN, _ => 0x01));
    Working(key, v, 1)
  }

  /** Section 10.1.2.4. */
  function Reseed(h: Mac, w: Working, entropy: Octets, additional: Octets): Working {
    var (key, v) := Update(h, entropy + additional, w.key, w.v);
    Working(key, v, 1)
  }

  /** The value of V after `n` passes of step 4 of the generate process. */
  function Chain(h: Mac, key: Octets, v: Octets, n: nat): Octets {
    if n == 0 then v else h(key, Chain(h, key, v, n - 1))
  }

  /** The value of temp after `n` passes of step 4. */
  function Temp(h: Mac, key: Octets, v: Octets, n: nat): (r: Octets)
    ensures |r| == n * OUTLEN
  {
    if n == 0 then [] else Temp(h, key, v, n - 1) + Chain(h, key, v, n)
  }

  function Blocks(bytes: nat): (n: nat)
    ensures (n - 1) * OUTLEN < bytes <= n * OUTLEN
  {
    (bytes + OUTLEN - 1) / OUTLEN
  }

  /** Section 10.1.2.5, step 2. */
  function Entered(h: Mac, w: Working, additional: Octets): (Octets, Octets) {
    if additional == [] then (w.key, w.v) else Update(h, additional, w.key, w.v)
  }

  /** Section 10.1.2.5, steps 2 to 8: the bytes returned and the new state. */
  function Generate(h: Mac, w: Working, bytes: nat, additional: Octets): (r: (Octets, Working))
    ensures |r.0| == bytes
  {
    var (key, v) := Entered(h, w, additional);
    var n := Blocks(bytes);
    var (key', v') := Update(h, additional, key, Chain(h, key, v, n));
    (Temp(h, key, v, n)[..bytes], Working(key', v', w.counter + 1))
  }

  datatype Op =
    | OpInstantiate(entropy: Octets, nonce: Octets, personalization: Octets)
    | OpReseed(entropy: Octets, additional: Octets)
    | OpGenerate(bytes: int, additional: Octets)
    | OpUninstantiate

  datatype Reply = Done | Generated(out: Octets) | Refused(why: Refusal)

  function Refuses(s: Option<Working>, op: Op): Option<Refusal> {
    match op
    case OpInstantiate(e, n, _) =>
      if |e| < MIN_ENTROPY_BYTES then Some(EntropyTooShort)
      else if |n| < MIN_NONCE_BYTES then Some(NonceTooShort)
      else None
    case OpReseed(e, _) =>
      if s.None? then Some(NotInstantiated)
      else if |e| < MIN_ENTROPY_BYTES then Some(EntropyTooShort)
      else None
    case OpGenerate(bytes, _) =>
      if s.None? then Some(NotInstantiated)
      else if bytes < 1 || bytes > MAX_BYTES_PER_REQUEST then Some(LengthOutOfRange)
      else if s.value.counter > RESEED_INTERVAL then Some(ReseedRequired)
      else None
    case OpUninstantiate => None
  }

  /** One call on the generator: a refusal leaves the state as it was. */
  function Step(h: Mac, s: Option<Working>, op: Op): (Option<Working>, Reply) {
    var why := Refuses(s, op);
    if why.Some? then (s, Refused(why.value))
    else
      match op
      case OpInstantiate(e, n, p) => (Some(Instantiate(h, e, n, p)), Done)
      case OpReseed(e, a) => (Some(Reseed(h, s.value, e, a)), Done)
      case OpGenerate(bytes, a) =>
        var (out, w) := Generate(h, s.value, bytes, a);
        (Some(w), Generated(out))
      case OpUninstantiate => (None, Done)
  }

  function Run(h: Mac, s: Option<Working>, ops: seq<Op>): (Option<Working>, seq<Reply>) {
    if ops == [] then (s, [])
    else
      var (s1, replies) := Run(h, s, ops[..|ops| - 1]);
      var (s2, reply) := Step(h, s1, ops[|ops| - 1]);
      (s2, replies + [reply])
  }

  /** Byte `j` of the output is byte `j % 64` of the V reached by pass `j / 64 + 1`. */
  lemma {:induction false} TempAt(h: Mac, key: Octets, v: Octets, n: nat, j: nat)
    requires j < n * OUTLEN
    ensures Temp(h, key, v, n)[j] == Chain(h, key, v, j / OUTLEN + 1)[j % OUTLEN]
  {
    if j < (n - 1) * OUTLEN {
      TempAt(h, key, v, n - 1, j);
    } else {
      assert j / OUTLEN == n - 1;
    }
  }

  lemma TempStart(h: Mac, key: Octets, v: Octets)
    ensures Temp(h, key, v, 0) == [] && Chain(h, key, v, 0) == v
  {
  }

  /** One more pass, of which the first `take` bytes are wanted. */
  lemma TempGrows(h: Mac, key: Octets, v: Octets, n: nat, take: nat)
    requires n > 0 && take <= OUTLEN
    ensures Chain(h, key, v, n) == h(key, Chain(h, key, v, n - 1))
    ensures Temp(h, key, v, n)[..(n - 1) * OUTLEN + take]
            == Temp(h, key, v, n - 1)[..(n - 1) * OUTLEN] + Chain(h, key, v, n)[..take]
  {
  }

  lemma GeneratedByteAt(h: Mac, w: Working, bytes: nat, additional: Octets, j: nat)
    requires j < bytes
    ensures var (key, v) := Entered(h, w, additional);
            Generate(h, w, bytes, additional).0[j] == Chain(h, key, v, j / OUTLEN + 1)[j % OUTLEN]
  {
    var (key, v) := Entered(h, w, additional);
    TempAt(h, key, v, Blocks(bytes), j);
  }

  /** A shorter request from the same state returns a prefix of a longer one. */
  lemma ShorterRequestIsPrefix(h: Mac, w: Working, few: nat, many: nat, additional: Octets)
    requires few <= many
    ensures Generate(h, w, few, additional).0 <= Generate(h, w, many, additional).0
  {
    var a, b := Generate(h, w, few, additional).0, Generate(h, w, many, additional).0;
    forall j | 0 <= j < few ensures a[j] == b[j] {
      GeneratedByteAt(h, w, few, additional, j);
      GeneratedByteAt(h, w, many, additional, j);
    }
    assert b[..few] == a;
  }

  /** Whatever was called, an instantiated generator's counter is in range. */
  lemma {:induction false} CounterInRange(h: Mac, s: Option<Working>, ops: seq<Op>)
    requires s.Some? ==> 1 <= s.value.counter <= RESEED_INTERVAL + 1
    ensures var t := Run(h, s, ops).0; t.Some? ==> 1 <= t.value.counter <= RESEED_INTERVAL + 1
  {
    if ops != [] { CounterInRange(h, s, ops[..|ops| - 1]); }
  }

  /** The calls of a run that were not refused. */
  function Accepted(h: Mac, s: Option<Working>, ops: seq<Op>): seq<Op> {
    if ops == [] then []
    else
      var init := ops[..|ops| - 1];
      var last := ops[|ops| - 1];
      Accepted(h, s, init) + if Refuses(Run(h, s, init).0, last).Some? then [] else [last]
  }

  function Answers(replies: seq<Reply>): seq<Reply> {
    if replies == [] then []
    else
      var last := replies[|replies| - 1];
      Answers(replies[..|replies| - 1]) + if last.Refused? then [] else [last]
  }

  lemma StepRefuses(h: Mac, s: Option<Working>, op: Op)
    ensures Refuses(s, op).Some? ==> Step(h, s, op) == (s, Refused(Refuses(s, op).value))
    ensures Refuses(s, op).None? ==> !Step(h, s, op).1.Refused?
  {
  }

  /** Leaving the refused calls out of a run changes neither its state nor any answer. */
  lemma {:induction false} RefusedCallsAreInvisible(h: Mac, s: Option<Working>, ops: seq<Op>)
    ensures Run(h, s, Accepted(h, s, ops)).0 == Run(h, s, ops).0
    ensures Run(h, s, Accepted(h, s, ops)).1 == Answers(Run(h, s, ops).1)
  {
    hide Refuses, Step;
    if ops != [] {
      var init := ops[..|ops| - 1];
      var last := ops[|ops| - 1];
      RefusedCallsAreInvisible(h, s, init);
      var kept := Accepted(h, s, init);
      var (s1, replies) := Run(h, s, init);
      assert (replies + [Step(h, s1, last).1])[..|replies|] == replies;
      StepRefuses(h, s1, last);
      if Refuses(s1, last).None? {
        assert (kept + [last])[..|kept|] == kept;
      } else {
        assert kept + [] == kept;
      }
    }
  }

  // ── The functions above in terms of the MAC alone ────────────────────────

  /** A reseed mixes the entropy and the additional input into both K and V, twice, and starts a new interval. */
  lemma ReseedMeans(h: Mac, w: Working, entropy: Octets, additional: Octets)
    requires entropy != []
    ensures var data := entropy + additional;
            var k := h(w.key, w.v + [0x00] + data);
            var key := h(k, h(k, w.v) + [0x01] + data);
            Reseed(h, w, entropy, additional) == Working(key, h(key, h(k, w.v)), 1)
  {
  }

  /** An instantiation does the same from 64 zeros and 64 ones with entropy, nonce and personalization string. */
  lemma InstantiateMeans(h: Mac, entropy: Octets, nonce: Octets, personalization: Octets)
    requires entropy != []
    ensures var data := entropy + nonce + personalization;
            var zeros: Octets, ones: Octets := seq(64, _ => 0x00), seq(64, _ => 0x01);
            var k := h(zeros, ones + [0x00] + data);
            var key := h(k, h(k, ones) + [0x01] + data);
            Instantiate(h, entropy, nonce, personalization) == Working(key, h(key, h(k, ones)), 1)
  {
    assert seq<byte>(64, _ => 0x00) == Zeros(OUTLEN);
    assert seq<byte>(64, _ => 0x01) == seq<byte>(OUTLEN, _ => 0x01);
  }

  lemma ChainMeans(h: Mac, key: Octets, v: Octets, n: nat)
    ensures Chain(h, key, v, 0) == v && Chain(h, key, v, n + 1) == h(key, Chain(h, key, v, n))
  {
  }

  /** Without additional input the last V becomes part of the new key, and the new V is its MAC under that key. */
  lemma GenerateMeans(h: Mac, w: Working, bytes: nat)
    ensures var v := Chain(h, w.key, w.v, (bytes + 63) / 64);
            var key := h(w.key, v + [0x00]);
            Generate(h, w, bytes, []).1 == Working(key, h(key, v), w.counter + 1)
    ensures forall j :: 0 <= j < bytes ==> Generate(h, w, bytes, []).0[j] == Chain(h, w.key, w.v, j / 64 + 1)[j % 64]
  {
    var v := Chain(h, w.key, w.v, (bytes + 63) / 64);
    assert v + [0x00] + [] == v + [0x00];
    forall j | 0 <= j < bytes ensures Generate(h, w, bytes, []).0[j] == Chain(h, w.key, w.v, j / 64 + 1)[j % 64] {
      GeneratedByteAt(h, w, bytes, [], j);
    }
  }

  /** With it, the input is mixed in before the output and again after it. */
  lemma GenerateWithInputMeans(h: Mac, w: Working, bytes: nat, additional: Octets)
    requires additional != []
    ensures var k := h(w.key, w.v + [0x00] + additional);
            var key := h(k, h(k, w.v) + [0x01] + additional);
            var v := Chain(h, key, h(key, h(k, w.v)), (bytes + 63) / 64);
            var k' := h(key, v + [0x00] + additional);
            var key' := h(k', h(k', v) + [0x01] + additional);
            Generate(h, w, bytes, additional).1 == Working(key', h(key', h(k', v)), w.counter + 1)
    ensures var k := h(w.key, w.v + [0x00] + additional);
            var key := h(k, h(k, w.v) + [0x01] + additional);
            forall j :: 0 <= j < bytes ==>
              Generate(h, w, bytes, additional).0[j] == Chain(h, key, h(key, h(k, w.v)), j / 64 + 1)[j % 64]
  {
    var (key, v) := Entered(h, w, additional);
    forall j | 0 <= j < bytes ensures Generate(h, w, bytes, additional).0[j] == Chain(h, key, v, j / 64 + 1)[j % 64] {
      GeneratedByteAt(h, w, bytes, additional, j);
    }
  }

  /** A run is its calls made one after the other, each answered at the state the earlier ones left. */
  lemma RunMeans(h: Mac, s: Option<Working>, ops: seq<Op>, op: Op)
    ensures Run(h, s, []) == (s, [])
    ensures var (before, replies) := Run(h, s, ops);
            Run(h, s, ops + [op]) == (Step(h, before, op).0, replies + [Step(h, before, op).1])
  {
    assert (ops + [op])[..|ops|] == ops;
  }

  /** What each call refuses, in the order it is looked at; everything else is done. */
  lemma RefusalsMean(h: Mac, s: Option<Working>)
    ensures forall e, n, p :: Step(h, s, OpInstantiate(e, n, p)) ==
              (if |e| < 32 then (s, Refused(EntropyTooShort))
               else if |n| < 16 then (s, Refused(NonceTooShort))
               else (Some(Instantiate(h, e, n, p)), Done))
    ensures forall e, a :: Step(h, s, OpReseed(e, a)) ==
              (if s.None? then (s, Refused(NotInstantiated))
               else if |e| < 32 then (s, Refused(EntropyTooShort))
               else (Some(Reseed(h, s.value, e, a)), Done))
    ensures forall bytes, a :: Step(h, s, OpGenerate(bytes, a)) ==
              (if s.None? then (s, Refused(NotInstantiated))
               else if bytes < 1 || bytes > 65536 then (s, Refused(LengthOutOfRange))
               else if s.value.counter > 1048576 then (s, Refused(ReseedRequired))
               else (Some(Generate(h, s.value, bytes, a).1), Generated(Generate(h, s.value, bytes, a).0)))
    ensures Step(h, s, OpUninstantiate) == (None, Done)
  {
  }
}

/** src/fips/drbg.js: the generator over buffers that are replaced and zeroed. */
module Drbg {
  import opened Octet
  import Sp = Sp80090A

  /** Copies every part, in order, into one new buffer. */
  method Concat(parts: seq<Octets>) returns (out: array<byte>)
    ensures fresh(out) && out[..] == Flatten(parts)
  {
    var n := 0;
    for i := 0 to |parts|
      invariant n == TotalLength(parts[..i])
    {
      FlattenSnoc(parts, i);
      n := n + |parts[i]|;
    }
    assert parts[..|parts|] == parts;
    out := new byte[n];
    var o := 0;
    for i := 0 to |parts|
      invariant o == TotalLength(parts[..i]) <= n
      invariant out[..o] == Flatten(parts[..i])
    {
      FlattenSnoc(parts, i);
      PrefixFits(parts, i + 1);
      var p := parts[i];
      forall j | 0 <= j < |p| { out[o + j] := p[j]; }
      assert out[..o + |p|] == out[..o] + p;
      o := o + |p|;
    }
  }

  lemma {:induction false} PrefixFits(parts: seq<Octets>, i: nat)
    requires i <= |parts|
    ensures TotalLength(parts[..i]) <= TotalLength(parts)
  {
    if i > 0 {
      PrefixFits(parts[1..], i - 1);
      assert parts[..i][1..] == parts[1..][..i - 1];
    }
  }

  ghost predicate AllZero(a: array<byte>)
    reads a
  {
    forall i :: 0 <= i < a.Length ==> a[i] == 0
  }

  method Fill(a: array<byte>, b: byte)
    modifies a
    ensures forall i :: 0 <= i < a.Length ==> a[i] == b
  {
    forall i | 0 <= i < a.Length { a[i] := b; }
  }

  /** The records agree with the live pair: every buffer there has been is live, overwritten or let go. */
  ghost predicate Accounted(k: array?<byte>, v: array?<byte>, keys: seq<array<byte>>, values: seq<array<byte>>,
                            retired: set<array<byte>>, dropped: seq<array<byte>>)
  {
    && (k != null ==> keys != [] && k == keys[|keys| - 1])
    && (v != null ==> values != [] && v == values[|values| - 1])
    && (forall a :: a in retired ==> a in keys || a in values)
    && (forall a :: a in dropped ==> a in keys || a in values)
    && (forall a :: a in keys ==> a == k || a in retired || a in dropped)
    && (forall a :: a in values ==> a == v || a in retired || a in dropped)
    && (forall a :: a in dropped ==> a !in retired)
    && (forall i, j :: 0 <= i < j < |dropped| ==> dropped[i] != dropped[j])
  }

  lemma PairOverwritten(k: array<byte>, v: array<byte>, keys: seq<array<byte>>, values: seq<array<byte>>,
                        retired: set<array<byte>>, dropped: seq<array<byte>>, k': array<byte>, v': array<byte>)
    requires Accounted(k, v, keys, values, retired, dropped) && k !in dropped && v !in dropped
    ensures Accounted(k', v', keys + [k'], values + [v'], retired + {k, v}, dropped)
    ensures Accounted(null, null, keys, values, retired + {k, v}, dropped)
  {
  }

  lemma PairLetGo(k: array?<byte>, v: array?<byte>, keys: seq<array<byte>>, values: seq<array<byte>>,
                  retired: set<array<byte>>, dropped: seq<array<byte>>, k': array<byte>, v': array<byte>)
    requires Accounted(k, v, keys, values, retired, dropped) && (k == null <==> v == null)
    requires k != null ==> k != v && k !in retired && v !in retired && k !in dropped && v !in dropped
    ensures Accounted(k', v', keys + [k'], values + [v'], retired, dropped + if k == null then [] else [k, v])
  {
  }

  lemma ValueLetGo(k: array<byte>, v: array<byte>, keys: seq<array<byte>>, values: seq<array<byte>>,
                   retired: set<array<byte>>, dropped: seq<array<byte>>, v': array<byte>)
    requires Accounted(k, v, keys, values, retired, dropped) && v !in retired && v !in dropped
    ensures Accounted(k, v', keys, values + [v'], retired, dropped + [v])
  {
  }

  method Copy(from: array<byte>, n: nat, to: array<byte>, at: nat)
    requires from != to && n <= from.Length && at + n <= to.Length
    modifies to
    ensures to[..at + n] == old(to[..at]) + from[..n]
  {
    forall j | 0 <= j < n { to[at + j] := from[j]; }
    assert to[..at] == old(to[..at]) && to[at..at + n] == from[..n];
    assert to[..at + n] == to[..at] + to[at..at + n];
  }

  class HmacDrbg {
    const hmac: Sp.Mac
    var K: array?<byte>
    var V: array?<byte>
    var counter: nat
    /** Every buffer K has been, and every buffer V has been, in order. */
    ghost var keys: seq<array<byte>>
    ghost var values: seq<array<byte>>
    /** The superseded ones that were overwritten, and those that were let go as they were, in order. */
    ghost var retired: set<array<byte>>
    ghost var dropped: seq<array<byte>>

    ghost predicate Valid()
      reads this, K, V, retired
    {
      && (K == null <==> V == null)
      && (K == null ==> counter == 0)
      && (K != null ==> K != V && K.Length == Sp.OUTLEN && V.Length == Sp.OUTLEN)
      && K !in retired && V !in retired && K !in dropped && V !in dropped
      && (forall a :: a in retired ==> AllZero(a))
      && Accounted(K, V, keys, values, retired, dropped)
    }

    /** The records grow, and by new buffers only. */
    twostate predicate Extends()
      reads this
    {
      && old(keys) <= keys && old(values) <= values && old(dropped) <= dropped && old(retired) <= retired
      && (forall i :: |old(keys)| <= i < |keys| ==> fresh(keys[i]))
      && (forall i :: |old(values)| <= i < |values| ==> fresh(values[i]))
    }

    /** No key has been let go: each is live or was overwritten. */
    ghost predicate KeysErased()
      reads this`K, this`keys, this`retired
    {
      forall a :: a in keys ==> a == K || a in retired
    }

    /** The working state the standard speaks of. */
    ghost function State(): Option<Sp.Working>
      reads this, K, V
    {
      if K == null || V == null then None else Some(Sp.Working(K[..], V[..], counter))
    }

    constructor (hmac: Sp.Mac)
      ensures Valid() && State() == None && this.hmac == hmac
      ensures K == null && V == null && keys == [] && values == [] && dropped == [] && retired == {}
    {
      this.hmac := hmac;
      K, V, counter := null, null, 0;
      keys, values, dropped, retired := [], [], [], {};
    }

    method Hmac(key: Octets, message: Octets) returns (mac: array<byte>)
      ensures fresh(mac) && mac.Length == Sp.OUTLEN && mac[..] == hmac(key, message)
    {
      var m := hmac(key, message);
      mac := new byte[Sp.OUTLEN];
      forall i | 0 <= i < Sp.OUTLEN { mac[i] := m[i]; }
      assert mac[..] == m;
    }

    method Step(b: byte, provided: Octets)
      requires Valid() && K != null
      modifies this`K, this`V, this`keys, this`values, this`retired, K, V
      ensures Valid() && K != null && fresh(K) && fresh(V)
      ensures retired == old(retired) + {old(K), old(V)}
      ensures keys == old(keys) + [K] && values == old(values) + [V]
      ensures K[..] == hmac(old(K[..]), old(V[..]) + [b] + provided)
      ensures V[..] == hmac(K[..], old(V[..]))
    {
      hide Flatten, Accounted;
      var oldK: array<byte>, oldV: array<byte> := K, V;
      var message := Concat([oldV[..], [b], provided]);
      FlattenThree(oldV[..], [b], provided);
      K := Hmac(oldK[..], message[..]);
      V := Hmac(K[..], oldV[..]);
      Fill(oldK, 0);
      Fill(oldV, 0);
      PairOverwritten(oldK, oldV, keys, values, retired, dropped, K, V);
      keys, values, retired := keys + [K], values + [V], retired + {oldK, oldV};
    }

    /**
     * One step, or two when anything is provided. Besides the live pair it leaves
     * nothing behind: the entry pair and the pair made in between are overwritten.
     */
    method Update(provided: Octets)
      requires Valid() && K != null
      modifies this`K, this`V, this`keys, this`values, this`retired, K, V
      ensures Valid() && K != null && fresh(K) && fresh(V)
      ensures (K[..], V[..]) == Sp.Update(hmac, provided, old(K[..]), old(V[..]))
      ensures |provided| == 0 ==>
                && keys == old(keys) + [K] && values == old(values) + [V]
                && retired == old(retired) + {old(K), old(V)}
      ensures |provided| > 0 ==>
                && |keys| == |old(keys)| + 2 && |values| == |old(values)| + 2
                && keys[..|keys| - 2] == old(keys) && values[..|values| - 2] == old(values)
                && fresh(keys[|keys| - 2]) && fresh(values[|values| - 2])
                && keys[|keys| - 2] != K && values[|values| - 2] != V
                && retired == old(retired) + {old(K), old(V), keys[|keys| - 2], values[|values| - 2]}
      ensures Extends() && (old(KeysErased()) ==> KeysErased())
    {
      Step(0x00, provided);
      if |provided| == 0 { return; }
      Step(0x01, provided);
    }

    /** The pair every instantiation begins with; a live pair is let go as it is. */
    method Reset()
      requires Valid()
      modifies this`K, this`V, this`keys, this`values, this`dropped, this`counter
      ensures Valid() && K != null && fresh(K) && fresh(V)
      ensures K[..] == Zeros(Sp.OUTLEN) && V[..] == seq(Sp.OUTLEN, _ => 0x01)
      ensures keys == old(keys) + [K] && values == old(values) + [V]
      ensures dropped == old(dropped) + if old(K) == null then [] else [old(K), old(V)]
      ensures old(K) == null && old(KeysErased()) ==> KeysErased()
    {
      hide AllZero, Accounted;
      var k0 := new byte[Sp.OUTLEN];
      Fill(k0, 0);
      var v0 := new byte[Sp.OUTLEN];
      Fill(v0, 0x01);
      assert k0[..] == Zeros(Sp.OUTLEN) && v0[..] == seq(Sp.OUTLEN, _ => 0x01);
      PairLetGo(K, V, keys, values, retired, dropped, k0, v0);
      assert dropped + [] == dropped;
      if K != null && V != null { dropped := dropped + [K, V]; }
      K, V := k0, v0;
      keys, values := keys + [k0], values + [v0];
    }

    /** A live pair is let go as it is; the first pair made here is overwritten. */
    method Instantiate(entropyInput: array<byte>, nonce: array<byte>, personalization: array<byte>)
        returns (reply: Sp.Reply)
      requires Valid()
      modifies this
      ensures Valid() && Extends()
      ensures (State(), reply) ==
              Sp.Step(hmac, old(State()), Sp.OpInstantiate(entropyInput[..], nonce[..], personalization[..]))
      ensures reply == Sp.Done ==>
                && fresh(K) && fresh(V) && |keys| == |old(keys)| + 3 && |values| == |old(values)| + 3
                && dropped == old(dropped) + if old(K) == null then [] else [old(K), old(V)]
      ensures old(K) != null ==> old(K)[..] == old(K[..]) && old(V)[..] == old(V[..]) && old(K) !in retired && old(V) !in retired
      ensures old(K) == null && old(KeysErased()) ==> KeysErased()
      ensures reply != Sp.Done ==> unchanged(this)
    {
      hide Sp.Update, Flatten, AllZero, Accounted, KeysErased;
      if entropyInput.Length < Sp.MIN_ENTROPY_BYTES { return Sp.Refused(Sp.EntropyTooShort); }
      if nonce.Length < Sp.MIN_NONCE_BYTES { return Sp.Refused(Sp.NonceTooShort); }
      Reset();
      var provided := Concat([entropyInput[..], nonce[..], personalization[..]]);
      FlattenThree(entropyInput[..], nonce[..], personalization[..]);
      Update(provided[..]);
      counter := 1;
      return Sp.Done;
    }

    method Reseed(entropyInput: array<byte>, additionalInput: array<byte>) returns (reply: Sp.Reply)
      requires Valid()
      modifies this, K, V
      ensures Valid() && Extends()
      ensures (State(), reply) ==
              Sp.Step(hmac, old(State()), Sp.OpReseed(old(entropyInput[..]), old(additionalInput[..])))
      ensures reply == Sp.Done ==>
                && fresh(K) && fresh(V) && old(K) in retired && old(V) in retired
                && |keys| == |old(keys)| + 2 && |values| == |old(values)| + 2
                && forall a :: a in retired - old(retired) ==> a == old(K) || a == old(V) || fresh(a)
      ensures reply == Sp.Done <==> old(K) != null && entropyInput.Length >= Sp.MIN_ENTROPY_BYTES
      ensures dropped == old(dropped) && (old(KeysErased()) ==> KeysErased())
      ensures reply != Sp.Done ==> unchanged(this)
    {
      hide Sp.Update, Flatten;
      if K == null { return Sp.Refused(Sp.NotInstantiated); }
      if entropyInput.Length < Sp.MIN_ENTROPY_BYTES { return Sp.Refused(Sp.EntropyTooShort); }
      var provided := Concat([entropyInput[..], additionalInput[..]]);
      FlattenTwo(entropyInput[..], additionalInput[..]);
      Update(provided[..]);
      counter := 1;
      return Sp.Done;
    }

    predicate ReseedRequired()
      reads this
    {
      counter > Sp.RESEED_INTERVAL
    }

    /** V as it was is let go, not overwritten. */
    method Pass()
      requires Valid() && K != null
      modifies this`V, this`values, this`dropped
      ensures Valid() && K == old(K) && fresh(V)
      ensures V[..] == hmac(K[..], old(V[..]))
      ensures values == old(values) + [V] && dropped == old(dropped) + [old(V)]
    {
      hide AllZero, Accounted;
      ghost var v := V;
      dropped := dropped + [V];
      V := Hmac(K[..], V[..]);
      ValueLetGo(K, v, keys, values, retired, old(dropped), V);
      values := values + [V];
    }

    /** Fills a new buffer with the leftmost bytes of V1, V2, and so on; each V it passes is let go as it is. */
    method GenerateBlocks(bytes: nat) returns (out: array<byte>)
      requires Valid() && K != null && 1 <= bytes
      modifies this`V, this`values, this`dropped
      ensures Valid() && K == old(K) && fresh(out) && fresh(V) && out != K && out != V
      ensures out !in keys && out !in values
      ensures out[..] == Sp.Temp(hmac, K[..], old(V[..]), Sp.Blocks(bytes))[..bytes]
      ensures V[..] == Sp.Chain(hmac, K[..], old(V[..]), Sp.Blocks(bytes))
      ensures Extends() && |values| == |old(values)| + Sp.Blocks(bytes)
      ensures |dropped| == |old(dropped)| + Sp.Blocks(bytes)
      ensures Holds(|old(dropped)|, K[..], old(V[..]))
    {
      hide Sp.Update, Sp.Temp, Sp.Chain, AllZero, Accounted;
      Sp.TempStart(hmac, K[..], V[..]);
      out := new byte[bytes];
      ghost var key, v := K[..], V[..];
      var filled := 0;
      ghost var n := 0;
      while filled < bytes
        invariant Valid() && K == old(K) && V != null && fresh(out) && out != V
        invariant out !in keys && out !in values && out !in dropped
        invariant if n == 0 then V == old(V) else fresh(V) && (n - 1) * Sp.OUTLEN < bytes
        invariant filled == if n * Sp.OUTLEN <= bytes then n * Sp.OUTLEN else bytes
        invariant K[..] == key && V[..] == Sp.Chain(hmac, key, v, n)
        invariant out[..filled] == Sp.Temp(hmac, key, v, n)[..filled]
        invariant Extends() && |values| == |old(values)| + n && |dropped| == |old(dropped)| + n
        invariant Holds(|old(dropped)|, key, v)
      {
        Pass();
        n := n + 1;
        var take := if Sp.OUTLEN < bytes - filled then Sp.OUTLEN else bytes - filled;
        Sp.TempGrows(hmac, key, v, n, take);
        Copy(V, take, out, filled);
        filled := filled + take;
      }
      assert n == Sp.Blocks(bytes);
      assert out[..] == out[..filled];
    }

    /** From record `n` on, the buffers let go are the successive values of V. */
    ghost predicate Holds(n: nat, key: Octets, v: Octets)
      reads this, set a | a in dropped
    {
      forall i :: n <= i < |dropped| ==> dropped[i][..] == Sp.Chain(hmac, key, v, i - n)
    }

    /** Additional input, when there is any, is taken in first. */
    method Enter(provided: Octets)
      requires Valid() && K != null
      modifies this`K, this`V, this`keys, this`values, this`retired, K, V
      ensures Valid() && K != null && V != null
      ensures Extends() && (old(KeysErased()) ==> KeysErased())
      ensures (K == old(K) && V == old(V)) || (fresh(K) && fresh(V) && old(K) in retired)
      ensures (K[..], V[..]) == Sp.Entered(hmac, old(State().value), provided)
      ensures |keys| == |old(keys)| + (if |provided| == 0 then 0 else 2)
      ensures |values| == |old(values)| + (if |provided| == 0 then 0 else 2)
    {
      hide Sp.Update, AllZero, Accounted;
      if |provided| > 0 { Update(provided); }
    }

    /** The blocks, and the update that follows them. */
    method Finish(bytes: nat, provided: Octets) returns (out: array<byte>)
      requires Valid() && K != null && 1 <= bytes
      modifies this`K, this`V, this`keys, this`values, this`retired, this`dropped, K
      ensures Valid() && K != null && fresh(K) && fresh(V) && old(K) in retired
      ensures fresh(out) && out != K && out != V && out !in keys && out !in values
      ensures out[..] == Sp.Temp(hmac, old(K[..]), old(V[..]), Sp.Blocks(bytes))[..bytes]
      ensures (K[..], V[..])
           == Sp.Update(hmac, provided, old(K[..]), Sp.Chain(hmac, old(K[..]), old(V[..]), Sp.Blocks(bytes)))
      ensures Extends() && (old(KeysErased()) ==> KeysErased())
      ensures |keys| == |old(keys)| + (if |provided| == 0 then 1 else 2)
      ensures |values| == |old(values)| + Sp.Blocks(bytes) + (if |provided| == 0 then 1 else 2)
      ensures |dropped| == |old(dropped)| + Sp.Blocks(bytes) && Holds(|old(dropped)|, old(K[..]), old(V[..]))
    {
      hide Sp.Update, Sp.Temp, Sp.Chain, AllZero, Accounted;
      out := GenerateBlocks(bytes);
      Update(provided);
    }

    /** Nothing is let go but the V buffers the loop passes, as many as there are passes. */
    method Generate(bytes: int, additionalInput: array<byte>) returns (reply: Sp.Reply, out: array?<byte>)
      requires Valid()
      modifies this, K, V
      ensures Valid() && Extends()
      ensures (State(), reply) == Sp.Step(hmac, old(State()), Sp.OpGenerate(bytes, old(additionalInput[..])))
      ensures reply.Generated? <==> out != null
      ensures out != null ==> out[..] == reply.out && fresh(out) && out !in keys && out !in values
      ensures out != null ==>
                && fresh(K) && fresh(V) && old(K) in retired
                && |keys| == |old(keys)| + (if additionalInput.Length == 0 then 1 else 4)
                && |values| == |old(values)| + Sp.Blocks(bytes) + (if additionalInput.Length == 0 then 1 else 4)
                && |dropped| == |old(dropped)| + Sp.Blocks(bytes)
                && var (key, v) := Sp.Entered(hmac, old(State().value), old(additionalInput[..]));
                   Holds(|old(dropped)|, key, v)
      ensures old(KeysErased()) ==> KeysErased()
      ensures out == null ==> unchanged(this)
    {
      hide Sp.Update, Sp.Temp, Sp.Chain, AllZero, Accounted;
      out := null;
      if K == null { return Sp.Refused(Sp.NotInstantiated), null; }
      if bytes < 1 || bytes > Sp.MAX_BYTES_PER_REQUEST { return Sp.Refused(Sp.LengthOutOfRange), null; }
      if ReseedRequired() { return Sp.Refused(Sp.ReseedRequired), null; }
      var provided := additionalInput[..];
      Enter(provided);
      ghost var (key, v) := Sp.Entered(hmac, old(State().value), provided);
      assert K[..] == key && V[..] == v;
      var filled := Finish(bytes, provided);
      counter := counter + 1;
      return Sp.Generated(filled[..]), filled;
    }

    method Uninstantiate()
      requires Valid()
      modifies this, K, V
      ensures Valid() && keys == old(keys) && values == old(values) && dropped == old(dropped)
      ensures State() == Sp.Step(hmac, old(State()), Sp.OpUninstantiate).0
      ensures retired == old(retired) + if old(K) == null then {} else {old(K), old(V)}
      ensures old(KeysErased()) ==> KeysErased()
    {
      if K != null && V != null {
        hide Accounted;
        Fill(K, 0);
        Fill(V, 0);
        PairOverwritten(K, V, keys, values, retired, dropped, K, V);
        retired := retired + {K, V};
      }
      K, V := null, null;
      counter := 0;
    }
  }

  method Buffer(value: Octets) returns (a: array<byte>)
    ensures fresh(a) && a[..] == value
  {
    a := new byte[|value|];
    forall i | 0 <= i < |value| { a[i] := value[i]; }
  }

  /** How many buffers a call lets go: a live pair when it instantiates again, one for each pass when it generates. */
  function LetGo(s: Option<Sp.Working>, op: Sp.Op): nat {
    if Sp.Refuses(s, op).Some? then 0
    else
      match op
      case OpInstantiate(_, _, _) => if s.None? then 0 else 2
      case OpGenerate(bytes, _) => Sp.Blocks(bytes)
      case OpReseed(_, _) => 0
      case OpUninstantiate => 0
  }

  function LetGoBy(h: Sp.Mac, s: Option<Sp.Working>, ops: seq<Sp.Op>): nat {
    if ops == [] then 0
    else
      var init, last := ops[..|ops| - 1], ops[|ops| - 1];
      LetGoBy(h, s, init) + LetGo(Sp.Run(h, s, init).0, last)
  }

  /** One call of the standard's, made on the class with buffers of its own. */
  method Invoke(drbg: HmacDrbg, op: Sp.Op) returns (reply: Sp.Reply)
    requires drbg.Valid()
    modifies drbg, drbg.K, drbg.V
    ensures drbg.Valid() && drbg.Extends()
    ensures drbg.K == old(drbg.K) || drbg.K == null || fresh(drbg.K)
    ensures drbg.V == old(drbg.V) || drbg.V == null || fresh(drbg.V)
    ensures (drbg.State(), reply) == Sp.Step(drbg.hmac, old(drbg.State()), op)
    ensures |drbg.dropped| == |old(drbg.dropped)| + LetGo(old(drbg.State()), op)
  {
    hide Accounted, AllZero, Sp.Instantiate, Sp.Reseed, Sp.Generate;
    reply := Sp.Done;
    match op
    case OpInstantiate(e, n, p) =>
      var a := Buffer(e);
      var b := Buffer(n);
      var c := Buffer(p);
      reply := drbg.Instantiate(a, b, c);
    case OpReseed(e, x) =>
      var a := Buffer(e);
      var b := Buffer(x);
      reply := drbg.Reseed(a, b);
    case OpGenerate(bytes, x) =>
      var a := Buffer(x);
      var out;
      reply, out := drbg.Generate(bytes, a);
    case OpUninstantiate =>
      drbg.Uninstantiate();
  }

  /**
   * Any run of calls on one generator gives the state and the replies of the
   * standard. Of all the buffers K and V have been, the live pair apart, exactly
   * as many as the calls let go are left as they were; the others are zero.
   */
  method Replay(drbg: HmacDrbg, ops: seq<Sp.Op>) returns (replies: seq<Sp.Reply>)
    requires drbg.Valid()
    modifies drbg, drbg.K, drbg.V
    ensures drbg.Valid() && drbg.Extends()
    ensures (drbg.State(), replies) == Sp.Run(drbg.hmac, old(drbg.State()), ops)
    ensures |drbg.dropped| == |old(drbg.dropped)| + LetGoBy(drbg.hmac, old(drbg.State()), ops)
    ensures forall a :: a in drbg.keys || a in drbg.values ==>
              a == drbg.K || a == drbg.V || a in drbg.dropped || AllZero(a)
    ensures forall i, j :: 0 <= i < j < |drbg.dropped| ==> drbg.dropped[i] != drbg.dropped[j]
  {
    hide Sp.Step, LetGo, Accounted, AllZero;
    replies := [];
    ghost var start := drbg.State();
    for i := 0 to |ops|
      invariant drbg.Valid() && drbg.Extends()
      invariant drbg.K == old(drbg.K) || drbg.K == null || fresh(drbg.K)
      invariant drbg.V == old(drbg.V) || drbg.V == null || fresh(drbg.V)
      invariant (drbg.State(), replies) == Sp.Run(drbg.hmac, start, ops[..i])
      invariant |drbg.dropped| == |old(drbg.dropped)| + LetGoBy(drbg.hmac, start, ops[..i])
    {
      assert ops[..i + 1][..i] == ops[..i];
      var reply := Invoke(drbg, ops[i]);
      replies := replies + [reply];
    }
    assert ops[..|ops|] == ops;
    Overwritten(drbg);
  }

  lemma Overwritten(drbg: HmacDrbg)
    requires drbg.Valid()
    ensures forall a :: a in drbg.keys || a in drbg.values ==>
              a == drbg.K || a == drbg.V || a in drbg.dropped || AllZero(a)
    ensures forall i, j :: 0 <= i < j < |drbg.dropped| ==> drbg.dropped[i] != drbg.dropped[j]
  {
  }

  /** What the records and predicates above say of bytes: overwritten is zero, and what is let go keeps the values of the chain. */
  lemma ErasureMeans(drbg: HmacDrbg)
    requires drbg.Valid()
    ensures forall a, i :: a in drbg.retired && 0 <= i < a.Length ==> a[i] == 0
    ensures forall a :: a in drbg.keys ==> a == drbg.K || a in drbg.retired || a in drbg.dropped
    ensures forall a :: a in drbg.values ==> a == drbg.V || a in drbg.retired || a in drbg.dropped
    ensures drbg.K != null ==> drbg.K in drbg.keys && drbg.V in drbg.values && drbg.K !in drbg.dropped && drbg.V !in drbg.dropped
    ensures drbg.KeysErased() ==> forall a, i :: a in drbg.keys && a != drbg.K && 0 <= i < a.Length ==> a[i] == 0
    ensures forall n: nat, key, v, i ::
              drbg.Holds(n, key, v) && n <= i < |drbg.dropped| ==> drbg.dropped[i][..] == Sp.Chain(drbg.hmac, key, v, i - n)
  {
    hide Sp.Chain;
  }
}
