/** The polynomial hash of src/common/hash.cpp: incremental steps against the polynomial they stand for. */
module RollingHashes {
  import opened Content

  const PRIME: nat := 31
  const MOD: nat := 1_000_000_009

  function Pow31(n: nat): (p: nat)
    ensures p > 0
  {
    if n == 0 then 1 else 31 * Pow31(n - 1)
  }

  /** The bytes read as one number in base 31, most significant byte first, with no reduction. */
  function Value(s: Bytes): nat {
    if s == [] then 0 else Value(s[..|s| - 1]) * 31 + s[|s| - 1]
  }

  function PolyHash(s: Bytes): (h: nat)
    ensures h < MOD
  {
    Value(s) % 1_000_000_009
  }

  function AppendHash(h: nat, b: byte): (r: nat)
    ensures r < MOD
  {
    (h * PRIME + b) % MOD
  }

  function UpdateHash(h: nat, power: nat, byteIn: byte, byteOut: byte): (r: nat)
    ensures r < MOD
  {
    AppendHash((h + MOD - (byteOut * power) % MOD) % MOD, byteIn)
  }

  class RollingHash {
    const windowSize: nat
    var hash: nat
    var power: nat

    ghost predicate Valid()
      reads this
    {
      hash < MOD && power < MOD
    }

    /** For windowSize 0 the loop bound wraps to 2^64 - 1, as `window_size_ - 1` does. */
    constructor (windowSize: nat)
      requires windowSize < TWO_64
      ensures Valid() && this.windowSize == windowSize && hash == 0
      ensures power == Pow31(Wrap64(windowSize - 1)) % MOD
    {
      this.windowSize := windowSize;
      hash := 0;
      power := 1;
      new;
      var i := 0;
      while i < Wrap64(windowSize - 1)
        invariant 0 <= i <= Wrap64(windowSize - 1)
        invariant hash == 0 && power == Pow31(i) % MOD
      {
        PowerStep(Pow31(i));
        power := Wrap64(Wrap64(power * PRIME) % MOD);
        i := i + 1;
      }
    }

    method Reset()
      modifies this`hash
      ensures hash == 0
    {
      hash := 0;
    }

    /** Every product and sum is cut to 64 bits, and the cut never changes it. */
    method Append(b: byte)
      requires Valid()
      modifies this`hash
      ensures Valid() && hash == AppendHash(old(hash), b) == (old(hash) * 31 + b) % 1_000_000_009
    {
      hash := Wrap64(Wrap64(hash * PRIME) + b) % MOD;
    }

    method Update(byteIn: byte, byteOut: byte)
      requires Valid()
      modifies this`hash
      ensures Valid() && hash == UpdateHash(old(hash), power, byteIn, byteOut)
    {
      ProductFits(byteOut, power);
      hash := Wrap64(Wrap64(hash + MOD) - Wrap64(byteOut * power) % MOD) % MOD;
      hash := Wrap64(Wrap64(hash * PRIME) + byteIn) % MOD;
    }
  }

  lemma ProductFits(b: byte, power: nat)
    requires power < MOD
    ensures 0 <= b * power < TWO_64
  {
    assert b * power <= 255 * power;
  }

  lemma Congruent(x: int, y: int, k: int)
    requires x == y + k * MOD
    ensures x % MOD == y % MOD
  {
  }

  lemma PowerStep(p: nat)
    ensures (p % MOD) * PRIME % MOD == (31 * p) % MOD
  {
    Congruent(31 * p, (p % MOD) * PRIME, 31 * (p / MOD));
  }

  lemma AppendReduced(v: nat, b: byte)
    ensures AppendHash(v % 1_000_000_009, b) == (v * 31 + b) % 1_000_000_009
  {
    var q, r := v / MOD, v % MOD;
    assert v == q * MOD + r;
    Congruent(v * 31 + b, r * 31 + b, 31 * q);
  }

  lemma ValueOfAppend(s: Bytes, b: byte)
    ensures Value(s + [b]) == Value(s) * 31 + b
  {
    assert (s + [b])[..|s + [b]| - 1] == s;
  }

  /** Appending a byte to the hash of s gives the hash of s with that byte. */
  lemma AppendIsPoly(s: Bytes, b: byte)
    ensures AppendHash(PolyHash(s), b) == PolyHash(s + [b])
    ensures PolyHash(s + [b]) == (Value(s) * 31 + b) % 1_000_000_009
  {
    hide Value;
    ValueOfAppend(s, b);
    AppendReduced(Value(s), b);
  }

  /** A fresh hash fed s. */
  function Feed(h: nat, s: Bytes): nat {
    if s == [] then h else AppendHash(Feed(h, s[..|s| - 1]), s[|s| - 1])
  }

  /** Appends for the first w bytes, then one update per further byte, each dropping the oldest of the last w. */
  function SlideRun(w: nat, s: Bytes): (h: nat)
    requires 1 <= w <= |s|
    decreases |s|
  {
    if |s| == w then Feed(0, s)
    else UpdateHash(SlideRun(w, s[..|s| - 1]), Pow31(w - 1) % MOD, s[|s| - 1], s[|s| - 1 - w])
  }

  lemma {:induction false} FeedIsPoly(s: Bytes)
    ensures Feed(0, s) == PolyHash(s)
  {
    if s != [] {
      FeedIsPoly(s[..|s| - 1]);
      AppendIsPoly(s[..|s| - 1], s[|s| - 1]);
      assert s[..|s| - 1] + [s[|s| - 1]] == s;
    }
  }

  lemma {:induction false} LeadingByte(a: byte, t: Bytes)
    ensures Value([a] + t) == a * Pow31(|t|) + Value(t)
  {
    if t == [] {
      assert [a] + t == [a] && [a][..0] == [];
    } else {
      var init := t[..|t| - 1];
      LeadingByte(a, init);
      assert ([a] + t)[..|t|] == [a] + init;
      var p := Pow31(|init|);
      assert a * (31 * p) == (a * p) * 31;
    }
  }

  /** The hash of 2 followed by six zero bytes is 2 * 31^6, reduced. */
  lemma SampleHash()
    ensures Feed(0, [2, 0, 0, 0, 0, 0, 0]) == 775_007_353
  {
    hide Feed;
    FeedOne();
    ZeroAfter([2]);
    ZeroAfter([2, 0]);
    ZeroAfter([2, 0, 0]);
    ZeroAfter([2, 0, 0, 0]);
    ZeroAfter([2, 0, 0, 0, 0]);
    ZeroAfter([2, 0, 0, 0, 0, 0]);
    assert [2] + [0] == [2, 0] && [2, 0] + [0] == [2, 0, 0] && [2, 0, 0] + [0] == [2, 0, 0, 0];
    assert [2, 0, 0, 0] + [0] == [2, 0, 0, 0, 0] && [2, 0, 0, 0, 0] + [0] == [2, 0, 0, 0, 0, 0];
    assert [2, 0, 0, 0, 0, 0] + [0] == [2, 0, 0, 0, 0, 0, 0];
  }

  lemma FeedOne()
    ensures Feed(0, [2]) == 2
  {
    assert [2][..0] == [];
  }

  lemma ZeroAfter(s: Bytes)
    ensures Feed(0, s + [0]) == Feed(0, s) * 31 % 1_000_000_009
  {
    assert (s + [0])[..|s + [0]| - 1] == s;
  }

  lemma Distribute(a: int, x: int, q: int)
    ensures a * (x + q * MOD) == a * x + (a * q) * MOD
  {
    assert a * (q * MOD) == (a * q) * MOD;
  }

  /** Subtracting the reduced leading term, kept positive by one added modulus, leaves the rest. */
  lemma DropLeading(v: nat, r: nat, a: nat, p: nat)
    requires v == r + a * p
    ensures (v % MOD + MOD - (a * (p % MOD)) % MOD) % MOD == r % MOD
  {
    Distribute(a, p % MOD, p / MOD);
    var d := a * (p % MOD);
    Congruent(v % MOD + MOD - d % MOD, r, -(v / MOD) + 1 + d / MOD + a * (p / MOD));
  }

  /** One update moves the window: drop its first byte, take in the new one. */
  lemma UpdateSlides(win: Bytes, byteIn: byte)
    requires win != []
    ensures UpdateHash(PolyHash(win), Pow31(|win| - 1) % MOD, byteIn, win[0]) == PolyHash(win[1..] + [byteIn])
  {
    hide Value, Pow31;
    var a, rest := win[0], win[1..];
    assert win == [a] + rest;
    LeadingByte(a, rest);
    DropLeading(Value(win), Value(rest), a, Pow31(|rest|));
    AppendIsPoly(rest, byteIn);
  }

  /** Sliding equals recomputing: after any run of updates the hash is that of the last w bytes alone. */
  lemma {:induction false} SlidingEqualsRecomputing(w: nat, s: Bytes)
    requires 1 <= w <= |s|
    ensures SlideRun(w, s) == Feed(0, s[|s| - w..])
    ensures SlideRun(w, s) == Value(s[|s| - w..]) % 1_000_000_009
    decreases |s|
  {
    hide Value, Pow31, Feed, UpdateHash;
    FeedIsPoly(s[|s| - w..]);
    if |s| == w {
      assert s[0..] == s;
    } else {
      var before := s[..|s| - 1];
      SlidingEqualsRecomputing(w, before);
      var win := before[|before| - w..];
      UpdateSlides(win, s[|s| - 1]);
      assert win[0] == s[|s| - 1 - w];
      assert win[1..] + [s[|s| - 1]] == s[|s| - w..];
    }
  }
}
