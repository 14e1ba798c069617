/** Bytes, byte strings, and the result types shared by every module. */
module Octet {
  type byte = x: int | 0 <= x < 256
  type Octets = seq<byte>

  datatype Option<+T> = None | Some(value: T)

  datatype Result<+T, +E> = Ok(value: T) | Err(error: E) {
    predicate IsFailure() { Err? }

    function PropagateFailure<U>(): Result<U, E>
      requires Err?
    {
      Err(error)
    }

    function Extract(): T
      requires Ok?
    {
      value
    }
  }

  /** A string option that is present but empty counts as not given. */
  function Given(s: Option<string>): Option<string> { if s == Some("") then None else s }

  function Zeros(n: nat): (r: Octets)
    ensures |r| == n
  {
    seq(n, _ => 0)
  }

  /** The concatenation of a list of byte strings. */
  function Flatten(parts: seq<Octets>): Octets {
    if parts == [] then [] else parts[0] + Flatten(parts[1..])
  }

  function TotalLength(parts: seq<Octets>): nat {
    if parts == [] then 0 else |parts[0]| + TotalLength(parts[1..])
  }

  /** Flattening grows at the end by the part that is added there. */
  lemma {:induction false} FlattenSnoc(parts: seq<Octets>, i: nat)
    requires i < |parts|
    ensures Flatten(parts[..i + 1]) == Flatten(parts[..i]) + parts[i]
    ensures TotalLength(parts[..i + 1]) == TotalLength(parts[..i]) + |parts[i]|
  {
    if i > 0 {
      FlattenSnoc(parts[1..], i - 1);
      assert parts[..i + 1][1..] == parts[1..][..i];
      assert parts[..i][1..] == parts[1..][..i - 1];
    }
  }

  lemma FlattenThree(a: Octets, b: Octets, c: Octets)
    ensures Flatten([a, b, c]) == a + b + c
  {
    var parts := [a, b, c];
    assert parts[..0] == [] && parts[..1] == [a] && parts[..2] == [a, b] && parts[..3] == parts;
    FlattenSnoc(parts, 0);
    FlattenSnoc(parts, 1);
    FlattenSnoc(parts, 2);
  }

  lemma FlattenTwo(a: Octets, b: Octets)
    ensures Flatten([a, b]) == a + b
  {
    var parts := [a, b];
    assert parts[..0] == [] && parts[..1] == [a] && parts[..2] == parts;
    FlattenSnoc(parts, 0);
    FlattenSnoc(parts, 1);
  }
}
