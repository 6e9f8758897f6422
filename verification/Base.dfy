/** Types shared by every part of the model. */
module Base {

  datatype Option<+T> = None | Some(value: T)

  datatype Result<+T, +E> = Ok(value: T) | Err(error: E)

  type Bytes = seq<bv8>

  function Min(a: int, b: int): int {
    if a <= b then a else b
  }

  function Max(a: int, b: int): int {
    if a <= b then b else a
  }

  predicate IsLowerHex(c: char) {
    '0' <= c <= '9' || 'a' <= c <= 'f'
  }

  /** A lower-case SHA-256 hex digest: 64 characters, all of them hexadecimal. */
  predicate IsSha256(s: string) {
    |s| == 64 && forall i :: 0 <= i < |s| ==> IsLowerHex(s[i])
  }

  /** The hash function is a parameter of the model. */
  type Hash = Bytes -> string

  /** All that is assumed of a hash unless a property says more: it returns lower-case hex digests. */
  ghost predicate YieldsDigests(hash: Hash) {
    forall data: Bytes :: IsSha256(hash(data))
  }

  /** An injective hash is one with a left inverse. */
  ghost predicate Injective(hash: Hash) {
    exists preimage: string -> Bytes :: IsInverse(hash, preimage)
  }

  ghost predicate IsInverse(hash: Hash, preimage: string -> Bytes) {
    forall data: Bytes :: preimage(hash(data)) == data
  }

  /** A fresh identifier, standing for a generated UUID. */
  method FreshId(taken: set<nat>) returns (id: nat)
    ensures id !in taken
  {
    id := 0;
    var rest := taken;
    while rest != {}
      invariant rest <= taken
      invariant forall x :: x in taken && x !in rest ==> x < id
      decreases rest
    {
      var x :| x in rest;
      rest := rest - {x};
      if x >= id {
        id := x + 1;
      }
    }
  }

  /** A fresh name, longer than any that is taken. */
  method FreshName(taken: set<string>) returns (name: string)
    ensures name !in taken && name != ""
  {
    name := "n";
    var rest := taken;
    while rest != {}
      invariant rest <= taken && name != ""
      invariant forall x :: x in taken && x !in rest ==> |x| < |name|
      decreases rest
    {
      var x :| x in rest;
      rest := rest - {x};
      if |x| >= |name| {
        name := x + "n";
      }
    }
  }
}
