/** Bytes, digests and the small arithmetic the other modules share. */
module Content {
  type byte = b: int | 0 <= b < 256
  type Bytes = seq<byte>

  type Digest = string

  /** SHA-256 is a parameter of the model: a deterministic function of the bytes and nothing more. */
  type Hasher = Bytes -> Digest

  /** No two of the given contents collide. */
  ghost predicate InjectiveOn(sha: Hasher, contents: set<Bytes>) {
    forall x, y :: x in contents && y in contents && sha(x) == sha(y) ==> x == y
  }

  /** Some element of a non-empty set. */
  ghost function Pick<T>(s: set<T>): (x: T)
    requires s != {}
    ensures x in s
  {
    var x :| x in s;
    x
  }

  const TWO_64: nat := 0x1_0000_0000_0000_0000

  /** What a 64-bit unsigned register keeps of a result. */
  function Wrap64(x: int): (r: nat)
    ensures r < TWO_64
    ensures 0 <= x < TWO_64 ==> r == x
  {
    x % TWO_64
  }

  function Flatten(parts: seq<Bytes>): Bytes {
    if parts == [] then [] else parts[0] + Flatten(parts[1..])
  }
}
