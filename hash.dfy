/** djb2 over a byte buffer, in unsigned 64-bit arithmetic. */
module Djb2 {
  import opened Common

  const SEED: nat := 5381

  /** One step of djb2: `hash * 33 + byte`, wrapping at 2^64. */
  function Step(h: nat, b: u8): (r: nat)
    ensures r < TWO_TO_THE_64
  {
    (h * 33 + b as nat) % TWO_TO_THE_64
  }

  /** Folds `Step` over `data` from the accumulator `h`, first byte first. */
  function Fold(h: nat, data: Bytes): (r: nat)
    decreases |data|
  {
    if data == [] then h else Fold(Step(h, data[0]), data[1..])
  }

  /** The hash of a byte sequence, defined from its last byte so that it
      matches the order in which the loop consumes the buffer. */
  function Hash(data: Bytes): (r: nat)
    ensures r < TWO_TO_THE_64
  {
    if data == [] then SEED else Step(Hash(data[..|data| - 1]), data[|data| - 1])
  }

  /** `hash(data, size)`: reads exactly the first `size` bytes of the buffer. */
  method HashBuffer(data: array<u8>, size: nat) returns (h: nat)
    requires size <= data.Length
    ensures h == Hash(data[..size])
    ensures h < TWO_TO_THE_64
  {
    h := SEED;
    for i := 0 to size
      invariant h == Hash(data[..i])
    {
      assert data[..i + 1][..i] == data[..i];
      h := (h * 33 + data[i] as nat) % TWO_TO_THE_64;
    }
  }

  lemma HashOfEmpty()
    ensures Hash([]) == 5381
  {
  }

  /** Appending a byte advances the hash by one step. */
  lemma HashSnoc(d: Bytes, b: u8)
    ensures Hash(d + [b]) == (Hash(d) * 33 + b as nat) % TWO_TO_THE_64
  {
    assert (d + [b])[..|d|] == d;
  }

  /** Hashing composes: the hash of `d1 + d2` continues from the hash of `d1`. */
  lemma {:induction false} HashAppend(d1: Bytes, d2: Bytes)
    ensures Hash(d1 + d2) == Fold(Hash(d1), d2)
    decreases |d2|
  {
    if d2 != [] {
      calc {
        Hash(d1 + d2);
        { assert d1 + d2 == (d1 + [d2[0]]) + d2[1..]; }
        Hash((d1 + [d2[0]]) + d2[1..]);
        { HashAppend(d1 + [d2[0]], d2[1..]); }
        Fold(Hash(d1 + [d2[0]]), d2[1..]);
        { HashSnoc(d1, d2[0]); }
        Fold(Step(Hash(d1), d2[0]), d2[1..]);
      }
    } else {
      assert d1 + d2 == d1;
    }
  }

  /** The hash is the fold of the whole sequence from the seed. */
  lemma HashIsFold(data: Bytes)
    ensures Hash(data) == Fold(SEED, data)
  {
    HashAppend([], data);
    assert [] + data == data;
  }
}
