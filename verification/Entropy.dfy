/** src/fips/entropy.js: whole requests from a device that may return short reads. */
module Entropy {
  import opened Octet

  /**
   * What the operating system will do, fixed in advance but arbitrary: whether
   * each open succeeds, how many bytes each read grants (nothing, or less, when
   * the read fails), and the bytes themselves in the order they are handed out.
   */
  datatype Device = Device(opens: nat -> bool, grants: nat -> int, bytes: nat -> byte)

  datatype Cursor = Cursor(tries: nat, fetches: nat, pos: nat)

  function Slice(dev: Device, pos: nat, length: nat): (r: Octets)
    ensures |r| == length
  {
    seq<byte>(length, i requires 0 <= i < length => dev.bytes(pos + i))
  }

  /** The reads of one request: how far the device has moved, and whether it was served. */
  function Reads(dev: Device, c: Cursor, length: nat): (Cursor, bool)
    decreases length
  {
    if length == 0 then (c, true)
    else
      var g := dev.grants(c.fetches);
      var c1 := c.(fetches := c.fetches + 1);
      if g <= 0 then (c1, false)
      else
        var n := if g < length then g else length;
        Reads(dev, c1.(pos := c1.pos + n), length - n)
  }

  function Request(dev: Device, c: Cursor, length: nat): (r: (Cursor, Option<Octets>))
    ensures r.1.Some? ==> |r.1.value| == length
  {
    var c1 := c.(tries := c.tries + 1);
    if !dev.opens(c.tries) then (c1, None)
    else
      var (c2, ok) := Reads(dev, c1, length);
      (c2, if ok then Some(Slice(dev, c.pos, length)) else None)
  }

  /** The total of the next `k` grants. */
  function Granted(dev: Device, start: nat, k: nat): int
    decreases k
  {
    if k == 0 then 0 else dev.grants(start) + Granted(dev, start + 1, k - 1)
  }

  predicate AllPositive(dev: Device, start: nat, k: nat)
    decreases k
  {
    k == 0 || (dev.grants(start) > 0 && AllPositive(dev, start + 1, k - 1))
  }

  predicate Serves(dev: Device, start: nat, k: nat, length: nat) {
    AllPositive(dev, start, k) && Granted(dev, start, k) >= length
  }

  lemma {:induction false} PositiveTotal(dev: Device, start: nat, k: nat)
    requires AllPositive(dev, start, k)
    ensures Granted(dev, start, k) >= 0
    decreases k
  {
    if k > 0 { PositiveTotal(dev, start + 1, k - 1); }
  }

  /**
   * However the reads are cut, a request moves the device by exactly its length,
   * and it is served exactly when some run of positive grants covers it.
   */
  lemma {:induction false} ServedIffCovered(dev: Device, c: Cursor, length: nat)
    ensures Reads(dev, c, length).1 <==> exists k: nat :: Serves(dev, c.fetches, k, length)
    ensures Reads(dev, c, length).1 ==> Reads(dev, c, length).0.pos == c.pos + length
    decreases length
  {
    var g := dev.grants(c.fetches);
    if length == 0 {
      assert Serves(dev, c.fetches, 0, 0);
    } else if g > 0 {
      var n := if g < length then g else length;
      var next := c.(fetches := c.fetches + 1, pos := c.pos + n);
      var rest, after := length - n, next.fetches;
      ServedIffCovered(dev, next, rest);
      forall k: nat | Serves(dev, after, k, rest) ensures Serves(dev, c.fetches, k + 1, length) {
        PositiveTotal(dev, after, k);
      }
      forall k: nat | Serves(dev, c.fetches, k, length)
        ensures k > 0 && Serves(dev, after, k - 1, rest)
      {
        PositiveTotal(dev, after, k - 1);
      }
    }
  }

  /**
   * A request is served exactly when the device opens and some run of positive
   * grants covers it; then it is given the next bytes of the device, in order.
   */
  lemma RequestMeans(dev: Device, c: Cursor, length: nat)
    ensures var r := Request(dev, c, length);
            && (r.1.Some? <==>
                  && dev.opens(c.tries)
                  && exists k: nat :: (forall i :: c.fetches <= i < c.fetches + k ==> dev.grants(i) > 0)
                                      && Granted(dev, c.fetches, k) >= length)
            && r.0.tries == c.tries + 1
            && (r.1.Some? ==> r.0.pos == c.pos + length && forall i :: 0 <= i < length ==> r.1.value[i] == dev.bytes(c.pos + i))
  {
    hide Serves;
    var c1 := c.(tries := c.tries + 1);
    ServedIffCovered(dev, c1, length);
    ReadsKeepTries(dev, c1, length);
    CoverIff(dev, c.fetches, length);
    if Request(dev, c, length).1.Some? { GivenInOrder(dev, c, length); }
  }

  lemma GivenInOrder(dev: Device, c: Cursor, length: nat)
    requires Request(dev, c, length).1.Some?
    ensures Request(dev, c, length).1.value == Slice(dev, c.pos, length)
    ensures forall i :: 0 <= i < length ==> Slice(dev, c.pos, length)[i] == dev.bytes(c.pos + i)
  {
    hide Reads;
  }

  lemma CoverIff(dev: Device, start: nat, length: nat)
    ensures (exists k: nat :: Serves(dev, start, k, length)) <==>
            exists k: nat :: (forall i :: start <= i < start + k ==> dev.grants(i) > 0) && Granted(dev, start, k) >= length
  {
    hide AllPositive;
    if k: nat :| Serves(dev, start, k, length) {
      AllPositiveIff(dev, start, k);
      assert (forall i :: start <= i < start + k ==> dev.grants(i) > 0) && Granted(dev, start, k) >= length;
    }
    if k: nat :| (forall i :: start <= i < start + k ==> dev.grants(i) > 0) && Granted(dev, start, k) >= length {
      AllPositiveIff(dev, start, k);
      assert Serves(dev, start, k, length);
    }
  }

  lemma {:induction false} AllPositiveIff(dev: Device, start: nat, k: nat)
    ensures AllPositive(dev, start, k) <==> forall i :: start <= i < start + k ==> dev.grants(i) > 0
    decreases k
  {
    if k > 0 { AllPositiveIff(dev, start + 1, k - 1); }
  }

  lemma {:induction false} ReadsKeepTries(dev: Device, c: Cursor, length: nat)
    ensures Reads(dev, c, length).0.tries == c.tries
    decreases length
  {
    if length > 0 && dev.grants(c.fetches) > 0 {
      var g := dev.grants(c.fetches);
      var n := if g < length then g else length;
      ReadsKeepTries(dev, c.(fetches := c.fetches + 1, pos := c.pos + n), length - n);
    }
  }

  class EntropySource {
    const dev: Device
    var cursor: Cursor
    var descriptors: nat

    constructor (dev: Device)
      ensures this.dev == dev && cursor == Cursor(0, 0, 0) && descriptors == 0
    {
      this.dev := dev;
      cursor := Cursor(0, 0, 0);
      descriptors := 0;
    }

    method ReadSync(out: array<byte>, offset: nat, want: nat) returns (n: int)
      requires offset + want <= out.Length && want > 0 && out as object != this
      modifies this`cursor, out
      ensures n <= want && n == (if dev.grants(old(cursor).fetches) < want then dev.grants(old(cursor).fetches) else want)
      ensures cursor == old(cursor).(fetches := old(cursor).fetches + 1, pos := old(cursor).pos + if n <= 0 then 0 else n)
      ensures forall i :: 0 <= i < offset ==> out[i] == old(out[i])
      ensures forall i :: offset <= i < offset + n ==> out[i] == dev.bytes(old(cursor).pos + (i - offset))
    {
      var g := dev.grants(cursor.fetches);
      n := if g < want then g else want;
      var pos := cursor.pos;
      cursor := cursor.(fetches := cursor.fetches + 1);
      if n <= 0 { return; }
      forall i | offset <= i < offset + n { out[i] := dev.bytes(pos + (i - offset)); }
      cursor := cursor.(pos := pos + n);
    }

    method GetEntropy(length: nat) returns (r: Option<array<byte>>)
      modifies this
      ensures cursor == Request(dev, old(cursor), length).0 && descriptors == old(descriptors)
      ensures r.Some? ==> fresh(r.value)
      ensures (if r.Some? then Some(r.value[..]) else None) == Request(dev, old(cursor), length).1
    {
      var out := new byte[length];
      var available := dev.opens(cursor.tries);
      cursor := cursor.(tries := cursor.tries + 1);
      if !available { return None; }
      descriptors := descriptors + 1;
      ghost var start := cursor;
      var filled := 0;
      while filled < length
        invariant filled <= length && fresh(out)
        invariant Reads(dev, start, length) == Reads(dev, cursor, length - filled)
        invariant cursor.pos == start.pos + filled && cursor.tries == start.tries
        invariant descriptors == old(descriptors) + 1
        invariant forall i :: 0 <= i < filled ==> out[i] == dev.bytes(start.pos + i)
      {
        var n := ReadSync(out, filled, length - filled);
        if n <= 0 {
          descriptors := descriptors - 1;
          return None;
        }
        filled := filled + n;
      }
      descriptors := descriptors - 1;
      assert out[..] == Slice(dev, start.pos, length);
      return Some(out);
    }
  }
}
