/** The token bucket of src/common/rate_limiter.cpp, over real numbers, with each clock reading as an input. */
module RateLimiting {
  datatype Bucket = Bucket(rate: nat, burst: nat, tokens: real, last: real)

  function Min(a: real, b: real): real {
    if a <= b then a else b
  }

  /** What the rate brings in since the last refill. */
  function Earned(b: Bucket, now: real): real {
    (now - b.last) * b.rate as real
  }

  function Refill(b: Bucket, now: real): Bucket {
    b.(tokens := Min(b.tokens + Earned(b, now), b.burst as real), last := now)
  }

  function TryAcquire(b: Bucket, now: real, bytes: nat): (Bucket, bool) {
    var r := Refill(b, now);
    if r.tokens >= bytes as real then (r.(tokens := r.tokens - bytes as real), true) else (r, false)
  }

  /** A new rate is also the new burst size; tokens stay until the next refill. */
  function SetRate(b: Bucket, rate: nat): Bucket {
    b.(rate := rate, burst := rate)
  }

  /** Negative tokens count as none. */
  function Available(b: Bucket): (n: int)
    ensures b.tokens >= 0.0 ==> n as real <= b.tokens < n as real + 1.0
    ensures b.tokens < 0.0 ==> n == 0
  {
    (if b.tokens >= 0.0 then b.tokens else 0.0).Floor
  }

  /** How long a failed attempt sleeps: whole milliseconds, at least one. */
  function SleepMillis(b: Bucket, bytes: nat): (ms: int)
    requires b.rate > 0
    ensures ms >= 1
  {
    var ms := ((bytes - Available(b)) as real / b.rate as real * 1000.0).Floor;
    if ms >= 1 then ms else 1
  }

  class RateLimiter {
    var bytesPerSecond: nat
    var burstSize: nat
    var tokens: real
    var lastRefill: real

    ghost function View(): Bucket
      reads this
    {
      Bucket(bytesPerSecond, burstSize, tokens, lastRefill)
    }

    constructor (bytesPerSecond: nat, burstSize: nat, now: real)
      ensures View() == (var b := if burstSize > 0 then burstSize else bytesPerSecond;
                         Bucket(bytesPerSecond, b, b as real, now))
    {
      this.bytesPerSecond := bytesPerSecond;
      var size := if burstSize > 0 then burstSize else bytesPerSecond;
      this.burstSize := size;
      tokens := size as real;
      lastRefill := now;
    }

    method RefillNow(now: real)
      requires now >= lastRefill
      modifies this`tokens, this`lastRefill
      ensures View() == Refill(old(View()), now)
    {
      var elapsed := now - lastRefill;
      var tokensToAdd := elapsed * bytesPerSecond as real;
      assert tokensToAdd == Earned(old(View()), now);
      tokens := Min(tokens + tokensToAdd, burstSize as real);
      lastRefill := now;
    }

    method Try(bytes: nat, now: real) returns (ok: bool)
      requires now >= lastRefill
      modifies this`tokens, this`lastRefill
      ensures (View(), ok) == TryAcquire(old(View()), now, bytes)
    {
      RefillNow(now);
      if tokens >= bytes as real {
        tokens := tokens - bytes as real;
        return true;
      }
      return false;
    }

    method SetBytesPerSecond(rate: nat)
      modifies this`bytesPerSecond, this`burstSize
      ensures View() == SetRate(old(View()), rate)
    {
      bytesPerSecond := rate;
      burstSize := rate;
    }

    method AvailableNow() returns (n: int)
      ensures n == Available(View())
      ensures tokens >= 0.0 ==> n as real <= tokens < n as real + 1.0
    {
      n := (if tokens >= 0.0 then tokens else 0.0).Floor;
    }

    /**
      * The retry loop of a sole caller. The i-th sleep ends `late(i)` seconds after the time asked for.
      * It makes at most three attempts, and the grant is the one a single attempt at time `end` would have made. It does
      * not wait when the tokens suffice, and otherwise no longer than the missing bytes take, but for rounding.
      */
    method Acquire(bytes: nat, now: real, late: nat -> real) returns (attempts: nat, end: real)
      requires tokens >= 0.0 && now >= lastRefill
      requires bytesPerSecond > 0 && bytes <= burstSize
      requires forall i :: late(i) >= 0.0
      modifies this`tokens, this`lastRefill
      ensures 1 <= attempts <= 3 && end >= now
      ensures (View(), true) == TryAcquire(old(View()), end, bytes)
      ensures var missing := bytes as real - Holds(old(View()), now);
              if missing <= 0.0 then attempts == 1 && end == now
              else attempts > 1 && now + 0.001 <= end <= now + WaitBound(missing, old(bytesPerSecond)) + late(0) + late(1)
    {
      hide AcquireInv, TryAcquire, Available, Holds, WaitBound;
      ghost var b := View();
      end := now;
      attempts := 1;
      var ok := Try(bytes, end);
      AcquireFirst(b, bytes, now, late);
      while !ok
        invariant AcquireInv(b, bytes, now, late, attempts, end, View(), ok)
        invariant lastRefill == end && attempts <= 3 && bytesPerSecond == b.rate && (ok || attempts < 3)
        decreases 3 - attempts
      {
        MissingIsNat(b, bytes, now, late, attempts, end, View());
        var available := AvailableNow();
        var tokensNeeded: nat := bytes - available;
        var secondsToWait := tokensNeeded as real / bytesPerSecond as real;
        var waitTime := (secondsToWait * 1000.0).Floor;
        var sleep := if waitTime >= 1 then waitTime else 1;
        AcquireAgain(b, bytes, now, late, attempts, end, View());
        end := end + sleep as real / 1000.0 + late(attempts - 1);
        attempts := attempts + 1;
        ok := Try(bytes, end);
      }
      AcquireEnds(b, bytes, now, late, attempts, end, View());
    }
  }

  // ---- The retry loop -----------------------------------------------------------------

  /** The tokens of a bucket at a time: what it had and what its rate brings, up to the burst size. */
  function Holds(b: Bucket, now: real): real {
    Min(b.tokens + (now - b.last) * b.rate as real, b.burst as real)
  }

  lemma RefillHolds(b: Bucket, now: real)
    ensures Refill(b, now).tokens == Holds(b, now)
  {
  }

  /** The time two more bytes than the missing ones take, and two milliseconds. */
  function WaitBound(missing: real, rate: nat): real
    requires rate > 0
  {
    (missing + 2.0) / rate as real + 0.002
  }

  /** The bytes a bucket lacks at a time. */
  function Missing(b: Bucket, bytes: nat, now: real): real {
    bytes as real - Holds(b, now)
  }

  /** The latest the i-th attempt can take place. */
  ghost function Latest(b: Bucket, bytes: nat, now: real, late: nat -> real, attempts: nat): real
    requires b.rate > 0
  {
    if attempts <= 1 then now
    else if attempts == 2 then now + ((Missing(b, bytes, now) + 1.0) / b.rate as real + 0.001) + late(0)
    else Latest(b, bytes, now, late, 2) + (1.0 / b.rate as real + 0.001) + late(1)
  }

  /** Where the loop stands after an attempt at time `end` that left the bucket c. */
  ghost predicate AcquireInv(b: Bucket, bytes: nat, now: real, late: nat -> real, attempts: nat, end: real, c: Bucket, ok: bool)
    requires b.rate > 0
  {
    && 1 <= attempts <= 3 && now <= end <= Latest(b, bytes, now, late, attempts)
    && (c, ok) == TryAcquire(b, end, bytes)
    && (attempts == 1 ==> ok == (Missing(b, bytes, now) <= 0.0))
    && (attempts > 1 ==> Missing(b, bytes, now) > 0.0 && end >= now + 0.001)
    && (!ok ==> attempts <= 2 && 0.0 <= c.tokens < bytes as real)
    && (!ok && attempts == 1 ==> c.tokens == bytes as real - Missing(b, bytes, now))
    && (!ok && attempts == 2 ==> c.tokens >= bytes as real - b.rate as real / 1000.0)
  }

  /** What a sole caller starts from. */
  ghost predicate CanAcquire(b: Bucket, bytes: nat, now: real, late: nat -> real) {
    b.tokens >= 0.0 && now >= b.last && b.rate > 0 && bytes <= b.burst && forall i :: late(i) >= 0.0
  }

  lemma AcquireFirst(b: Bucket, bytes: nat, now: real, late: nat -> real)
    requires CanAcquire(b, bytes, now, late)
    ensures var (c, ok) := TryAcquire(b, now, bytes);
            AcquireInv(b, bytes, now, late, 1, now, c, ok) && c.last == now && c.rate == b.rate
  {
    hide Earned, Holds;
    RefillHolds(b, now);
    EarnedGrows(b, now);
  }

  /** Available bytes never exceed the bytes asked for and refused. */
  lemma MissingIsNat(b: Bucket, bytes: nat, now: real, late: nat -> real, attempts: nat, end: real, c: Bucket)
    requires b.rate > 0 && AcquireInv(b, bytes, now, late, attempts, end, c, false)
    ensures 0 <= Available(c) <= bytes && c.tokens >= 0.0
  {
    hide TryAcquire, Latest;
  }

  lemma RefusedBucket(b: Bucket, bytes: nat, end: real, c: Bucket)
    requires (c, false) == TryAcquire(b, end, bytes)
    ensures c.rate == b.rate && c.burst == b.burst && c.last == end
  {
  }

  lemma AcquireAgain(b: Bucket, bytes: nat, now: real, late: nat -> real, attempts: nat, end: real, c: Bucket)
    requires CanAcquire(b, bytes, now, late) && AcquireInv(b, bytes, now, late, attempts, end, c, false)
    ensures c.rate > 0 && attempts > 0
    ensures var later := end + SleepMillis(c, bytes) as real / 1000.0 + late(attempts - 1);
            var (d, ok) := TryAcquire(c, later, bytes);
            && later >= end && (ok || attempts == 1)
            && AcquireInv(b, bytes, now, late, attempts + 1, later, d, ok)
            && d.last == later && d.rate == b.rate
  {
    hide TryAcquire, SleepMillis, Refill;
    RefusedBucket(b, bytes, end, c);
    var extra := late(attempts - 1);
    var later := end + SleepMillis(c, bytes) as real / 1000.0 + extra;
    SleepEarns(c, bytes, extra);
    SleepIsShort(c, bytes, bytes as real - c.tokens);
    FailedPollForgotten(b, end, later, bytes);
    TryOutcome(c, later, bytes);
  }

  lemma TryOutcome(c: Bucket, now: real, bytes: nat)
    ensures var (d, ok) := TryAcquire(c, now, bytes);
            && ok == (Refill(c, now).tokens >= bytes as real) && (!ok ==> d.tokens == Refill(c, now).tokens)
            && d.last == now && d.rate == c.rate
  {
  }

  lemma LatestOfAll(b: Bucket, bytes: nat, now: real, late: nat -> real, attempts: nat)
    requires b.rate > 0 && 1 < attempts <= 3 && Missing(b, bytes, now) > 0.0 && late(1) >= 0.0
    ensures Latest(b, bytes, now, late, attempts) <=
            now + WaitBound(Missing(b, bytes, now), b.rate) + late(0) + late(1)
  {
    hide Missing;
    TwoSleeps(Missing(b, bytes, now), b.rate as real);
  }

  lemma AcquireEnds(b: Bucket, bytes: nat, now: real, late: nat -> real, attempts: nat, end: real, c: Bucket)
    requires CanAcquire(b, bytes, now, late) && AcquireInv(b, bytes, now, late, attempts, end, c, true)
    ensures 1 <= attempts <= 3 && end >= now && (c, true) == TryAcquire(b, end, bytes)
    ensures var missing := bytes as real - Holds(b, now);
            if missing <= 0.0 then attempts == 1 && end == now
            else attempts > 1 && now + 0.001 <= end <= now + WaitBound(missing, b.rate) + late(0) + late(1)
  {
    hide TryAcquire, Holds, WaitBound;
    if attempts > 1 {
      LatestOfAll(b, bytes, now, late, attempts);
    }
  }

  lemma MulMono(x: real, y: real, r: real)
    requires x <= y && r >= 0.0
    ensures x * r <= y * r
  {
  }

  lemma DivMul(x: real, r: real)
    requires r > 0.0
    ensures x / r * r == x
  {
  }

  lemma EarnedGrows(b: Bucket, now: real)
    requires now >= b.last
    ensures Earned(b, now) >= 0.0
  {
    MulMono(0.0, now - b.last, b.rate as real);
  }

  lemma EarnedInSteps(b: Bucket, t: real, now: real)
    ensures Earned(b, now) == Earned(b, t) + Earned(b.(last := t), now)
  {
    var r := b.rate as real;
    assert (now - b.last) * r == (t - b.last) * r + (now - t) * r;
  }

  lemma EarnedIsElapsed(b: Bucket, c: Bucket, now: real)
    requires b.rate == c.rate && b.last == c.last
    ensures Earned(b, now) == Earned(c, now)
  {
  }

  /** Sleeping for the missing bytes, less at most a millisecond, earns them but for a millisecond's worth. */
  lemma SleepTime(b: Bucket, now: real, needed: real, ms: real)
    requires b.rate > 0 && ms >= 1.0 && ms > needed / b.rate as real * 1000.0 - 1.0
    requires now - b.last >= ms / 1000.0
    ensures Earned(b, now) >= needed - b.rate as real / 1000.0
    ensures Earned(b, now) >= b.rate as real / 1000.0
  {
    var rate, secs := b.rate as real, needed / b.rate as real;
    DivMul(needed, rate);
    MulMono(secs - 0.001, now - b.last, rate);
    MulMono(0.001, now - b.last, rate);
    assert (secs - 0.001) * rate == secs * rate - 0.001 * rate;
  }

  lemma SleepMillisBounds(b: Bucket, bytes: nat)
    requires b.rate > 0
    ensures SleepMillis(b, bytes) as real > (bytes - Available(b)) as real / b.rate as real * 1000.0 - 1.0
  {
  }

  lemma DivMono(x: real, y: real, r: real)
    requires x <= y && r > 0.0
    ensures x / r <= y / r
  {
    DivMul(x, r);
    DivMul(y, r);
  }

  lemma DivAdd(x: real, y: real, r: real)
    requires r > 0.0
    ensures (x + y) / r == x / r + y / r
  {
  }

  /** A sleep takes a millisecond, or the time the missing whole bytes take. */
  lemma SleepLength(b: Bucket, bytes: nat, m: real)
    requires b.rate > 0 && b.tokens >= 0.0 && m == bytes as real - b.tokens >= 0.0
    ensures var ms := SleepMillis(b, bytes) as real / 1000.0;
            ms <= 0.001 || ms <= (m + 1.0) / b.rate as real
  {
    var r, needed := b.rate as real, (bytes - Available(b)) as real;
    assert needed <= m + 1.0;
    DivMono(needed, m + 1.0, r);
  }

  lemma MillisecondOfBytes(m: real, r: real)
    requires r > 0.0 && m <= r / 1000.0
    ensures (m + 1.0) / r <= 1.0 / r + 0.001
  {
    DivMono(m + 1.0, r / 1000.0 + 1.0, r);
    DivAdd(r / 1000.0, 1.0, r);
    assert r / 1000.0 / r == 0.001;
  }

  /** A sleep for m missing bytes: rounding adds at most a byte and a millisecond, or a byte when m is a millisecond's worth. */
  lemma SleepIsShort(b: Bucket, bytes: nat, m: real)
    requires b.rate > 0 && b.tokens >= 0.0 && m == bytes as real - b.tokens >= 0.0
    ensures SleepMillis(b, bytes) as real / 1000.0 <= (m + 1.0) / b.rate as real + 0.001
    ensures m <= b.rate as real / 1000.0 ==> SleepMillis(b, bytes) as real / 1000.0 <= 1.0 / b.rate as real + 0.001
  {
    hide SleepMillis;
    SleepLength(b, bytes, m);
    DivMono(0.0, m + 1.0, b.rate as real);
    DivMono(0.0, 1.0, b.rate as real);
    if m <= b.rate as real / 1000.0 {
      MillisecondOfBytes(m, b.rate as real);
    }
  }

  lemma TwoSleeps(m: real, r: real)
    requires r > 0.0
    ensures (m + 1.0) / r + 1.0 / r == (m + 2.0) / r
    ensures m >= 0.0 ==> (m + 1.0) / r <= (m + 2.0) / r
  {
    DivAdd(m + 1.0, 1.0, r);
    DivMono(m + 1.0, m + 2.0, r);
  }

  /** After one sleep the tokens are at most a millisecond's worth short; from there, one millisecond is enough. */
  lemma SleepEarns(b: Bucket, bytes: nat, extra: real)
    requires b.rate > 0 && b.burst >= bytes && 0.0 <= b.tokens < bytes as real && extra >= 0.0
    ensures var now := b.last + SleepMillis(b, bytes) as real / 1000.0 + extra;
            var t := Refill(b, now).tokens;
            && now >= b.last && t >= 0.0
            && t >= bytes as real - b.rate as real / 1000.0
            && (b.tokens >= bytes as real - b.rate as real / 1000.0 ==> t >= bytes as real)
  {
    hide SleepMillis, Earned;
    var ms, needed := SleepMillis(b, bytes), (bytes - Available(b)) as real;
    SleepMillisBounds(b, bytes);
    var now := b.last + ms as real / 1000.0 + extra;
    SleepTime(b, now, needed, ms as real);
    assert needed >= bytes as real - b.tokens;
  }

  /** Refilling twice is refilling once at the later time. */
  lemma RefillTwice(b: Bucket, t: real, now: real)
    requires t <= now
    ensures Refill(Refill(b, t), now) == Refill(b, now)
  {
    hide Earned;
    EarnedInSteps(b, t, now);
    EarnedGrows(b.(last := t), now);
    EarnedIsElapsed(b.(last := t), Refill(b, t), now);
  }

  lemma FailedPollForgotten(b: Bucket, t: real, now: real, bytes: nat)
    requires t <= now && !TryAcquire(b, t, bytes).1
    ensures TryAcquire(TryAcquire(b, t, bytes).0, now, bytes) == TryAcquire(b, now, bytes)
  {
    RefillTwice(b, t, now);
  }

  // ---- Runs ------------------------------------------------------------------------------

  datatype Op = Try(now: real, bytes: nat) | Rate(rate: nat)

  function Step(b: Bucket, op: Op): Bucket {
    match op
    case Try(now, bytes) => TryAcquire(b, now, bytes).0
    case Rate(rate) => SetRate(b, rate)
  }

  function Run(b: Bucket, ops: seq<Op>): Bucket
    decreases |ops|
  {
    if ops == [] then b else Step(Run(b, ops[..|ops| - 1]), ops[|ops| - 1])
  }

  predicate Grants(b: Bucket, op: Op) {
    op.Try? && TryAcquire(b, op.now, op.bytes).1
  }

  /** The clock never goes back. */
  ghost predicate Clocked(b: Bucket, ops: seq<Op>)
    decreases |ops|
  {
    ops == [] ||
    (var init, op := ops[..|ops| - 1], ops[|ops| - 1];
     Clocked(b, init) && (op.Try? ==> op.now >= Run(b, init).last))
  }

  /** The bytes granted in a run. */
  function Granted(b: Bucket, ops: seq<Op>): nat
    decreases |ops|
  {
    if ops == [] then 0
    else
      var init, op := ops[..|ops| - 1], ops[|ops| - 1];
      Granted(b, init) + if Grants(Run(b, init), op) then op.bytes else 0
  }

  /** The rate in force after a run: that of the last rate change, or the one at the start. */
  function RateAfter(b: Bucket, ops: seq<Op>): nat
    decreases |ops|
  {
    if ops == [] then b.rate
    else if ops[|ops| - 1].Rate? then ops[|ops| - 1].rate
    else RateAfter(b, ops[..|ops| - 1])
  }

  /** The burst size in force after a run, likewise. */
  function BurstAfter(b: Bucket, ops: seq<Op>): nat
    decreases |ops|
  {
    if ops == [] then b.burst
    else if ops[|ops| - 1].Rate? then ops[|ops| - 1].rate
    else BurstAfter(b, ops[..|ops| - 1])
  }

  /** The time of the last call of a run, or of the last refill before it. */
  function LastAfter(b: Bucket, ops: seq<Op>): real
    decreases |ops|
  {
    if ops == [] then b.last
    else if ops[|ops| - 1].Try? then ops[|ops| - 1].now
    else LastAfter(b, ops[..|ops| - 1])
  }

  /** Rate, burst size and clock after a run can be read off its operations. */
  lemma {:induction false} StateOfRun(b: Bucket, ops: seq<Op>)
    ensures Run(b, ops).rate == RateAfter(b, ops)
    ensures Run(b, ops).burst == BurstAfter(b, ops)
    ensures Run(b, ops).last == LastAfter(b, ops)
    decreases |ops|
  {
    if ops != [] {
      StateOfRun(b, ops[..|ops| - 1]);
    }
  }

  /** What the refills of a run would have added without the cap: elapsed time at the rate in force at each refill. */
  function Accrued(b: Bucket, ops: seq<Op>): real
    decreases |ops|
  {
    if ops == [] then 0.0
    else
      var init, op := ops[..|ops| - 1], ops[|ops| - 1];
      Accrued(b, init) + if op.Try? then (op.now - LastAfter(b, init)) * RateAfter(b, init) as real else 0.0
  }

  lemma AccruedNext(b: Bucket, ops: seq<Op>)
    requires ops != [] && ops[|ops| - 1].Try?
    ensures var init := ops[..|ops| - 1];
            Accrued(b, ops) == Accrued(b, init) + Earned(Run(b, init), ops[|ops| - 1].now)
  {
    StateOfRun(b, ops[..|ops| - 1]);
  }

  /** With rate changes: grants never exceed the starting tokens and what accrued since; tokens never go negative. */
  lemma {:induction false} GrantsAreEarned(b: Bucket, ops: seq<Op>)
    requires b.tokens >= 0.0 && Clocked(b, ops)
    ensures Granted(b, ops) as real + Run(b, ops).tokens <= b.tokens + Accrued(b, ops)
    ensures Run(b, ops).tokens >= 0.0
    decreases |ops|
  {
    hide Earned, TryAcquire;
    if ops != [] {
      var init, op := ops[..|ops| - 1], ops[|ops| - 1];
      GrantsAreEarned(b, init);
      if op.Try? {
        AccruedNext(b, ops);
        StepEarned(Run(b, init), op.now, op.bytes);
      }
    }
  }

  lemma StepEarned(b: Bucket, now: real, bytes: nat)
    requires b.tokens >= 0.0 && now >= b.last
    ensures var (c, ok) := TryAcquire(b, now, bytes);
            && c.tokens >= 0.0
            && c.tokens + (if ok then bytes as real else 0.0) <= b.tokens + Earned(b, now)
            && c.tokens + (if ok then bytes as real else 0.0) <= b.burst as real
  {
    hide Earned;
    EarnedGrows(b, now);
  }

  /** What the cap of each refill has thrown away in a run. */
  function Lost(b: Bucket, ops: seq<Op>): real
    decreases |ops|
  {
    if ops == [] then 0.0
    else
      var init, op := ops[..|ops| - 1], ops[|ops| - 1];
      Lost(b, init) + if op.Try? then Overflow(Run(b, init), op.now, BurstAfter(b, init)) else 0.0
  }

  /** The part of a refill that exceeds the cap. */
  function Overflow(c: Bucket, now: real, cap: nat): real {
    if c.tokens + Earned(c, now) > cap as real then c.tokens + Earned(c, now) - cap as real else 0.0
  }

  lemma TryBalance(c: Bucket, now: real, bytes: nat)
    ensures var (d, ok) := TryAcquire(c, now, bytes);
            d.tokens + (if ok then bytes as real else 0.0) + Overflow(c, now, c.burst) == c.tokens + Earned(c, now)
  {
    hide Earned;
  }

  /** The exact account of any run: what was there and what accrued is granted, still there, or lost to the cap. */
  lemma {:induction false} Accounting(b: Bucket, ops: seq<Op>)
    ensures Granted(b, ops) as real + Run(b, ops).tokens + Lost(b, ops) == b.tokens + Accrued(b, ops)
    decreases |ops|
  {
    hide Earned, TryAcquire, Overflow;
    if ops != [] {
      var init, op := ops[..|ops| - 1], ops[|ops| - 1];
      Accounting(b, init);
      if op.Try? {
        AccruedNext(b, ops);
        StateOfRun(b, init);
        TryBalance(Run(b, init), op.now, op.bytes);
      }
    }
  }

  /** A fixed-rate run whose accrual stays within the burst size loses nothing: each byte granted costs one token. */
  lemma {:induction false} NothingLost(b: Bucket, ops: seq<Op>)
    requires FixedRate(ops) && Clocked(b, ops) && b.tokens >= 0.0
    requires b.tokens + Accrued(b, ops) <= b.burst as real
    ensures Granted(b, ops) as real + Run(b, ops).tokens == b.tokens + Accrued(b, ops)
    ensures Lost(b, ops) == 0.0
    decreases |ops|
  {
    hide Earned, TryAcquire;
    Accounting(b, ops);
    if ops != [] {
      var init, op := ops[..|ops| - 1], ops[|ops| - 1];
      AccruedNext(b, ops);
      EarnedGrows(Run(b, init), op.now);
      NothingLost(b, init);
      FixedRateState(b, init);
      StateOfRun(b, init);
    }
  }

  // ---- Many calls at once ----------------------------------------------------------------------

  function Sum(sizes: seq<nat>): nat {
    if sizes == [] then 0 else Sum(sizes[..|sizes| - 1]) + sizes[|sizes| - 1]
  }

  /** One call for each size, all at the same moment. */
  function AllAt(t: real, sizes: seq<nat>): (ops: seq<Op>)
    ensures |ops| == |sizes| && forall i :: 0 <= i < |ops| ==> ops[i] == Try(t, sizes[i])
  {
    seq(|sizes|, i requires 0 <= i < |sizes| => Try(t, sizes[i]))
  }

  ghost predicate AllGranted(b: Bucket, ops: seq<Op>) {
    forall i :: 0 <= i < |ops| ==> Grants(Run(b, ops[..i]), ops[i])
  }

  lemma AllGrantedNext(b: Bucket, ops: seq<Op>)
    requires ops != []
    ensures var init := ops[..|ops| - 1];
            AllGranted(b, ops) <==> AllGranted(b, init) && Grants(Run(b, init), ops[|ops| - 1])
  {
    hide Run, Grants;
    var n := |ops| - 1;
    var init := ops[..n];
    assert forall i :: 0 <= i < n ==> init[..i] == ops[..i] && init[i] == ops[i];
  }

  /** What a refill at one moment finds after calls at that moment were all granted. */
  lemma TryAtOnce(c: Bucket, t: real, bytes: nat)
    requires c.last <= t && Refill(c, t).tokens >= bytes as real
    ensures var d := TryAcquire(c, t, bytes).0;
            d.last == t && Refill(d, t).tokens == Refill(c, t).tokens - bytes as real
  {
    hide Earned;
    NoTimeNoTokens(TryAcquire(c, t, bytes).0);
  }

  lemma NoTimeNoTokens(d: Bucket)
    ensures Earned(d, d.last) == 0.0
  {
  }

  /** Calls at one moment are all granted if and only if the tokens, refilled up to the burst size, suffice for their sum. */
  lemma {:induction false} AtOnceIff(b: Bucket, t: real, sizes: seq<nat>)
    requires b.tokens >= 0.0 && b.last <= t
    ensures AllGranted(b, AllAt(t, sizes)) <==>
            Sum(sizes) as real <= Holds(b, t)
    ensures AllGranted(b, AllAt(t, sizes)) ==>
              var c := Run(b, AllAt(t, sizes));
              && c.last <= t
              && Refill(c, t).tokens == Holds(b, t) - Sum(sizes) as real
    decreases |sizes|
  {
    hide AllGranted, TryAcquire, Holds, Refill;
    RefillHolds(b, t);
    var ops := AllAt(t, sizes);
    if sizes == [] {
      assert ops == [];
      NoneGranted(b);
      HoldsSome(b, t);
    } else {
      var init := sizes[..|sizes| - 1];
      assert ops[..|ops| - 1] == AllAt(t, init);
      AtOnceIff(b, t, init);
      AllGrantedNext(b, ops);
      if AllGranted(b, AllAt(t, init)) {
        GrantsIff(Run(b, AllAt(t, init)), t, sizes[|sizes| - 1]);
        if AllGranted(b, ops) {
          TryAtOnce(Run(b, AllAt(t, init)), t, sizes[|sizes| - 1]);
        }
      }
    }
  }

  lemma HoldsSome(b: Bucket, t: real)
    requires b.tokens >= 0.0 && b.last <= t
    ensures Holds(b, t) >= 0.0
  {
    hide Earned, Holds;
    RefillHolds(b, t);
    EarnedGrows(b, t);
  }

  lemma NoneGranted(b: Bucket)
    ensures AllGranted(b, [])
  {
  }

  lemma GrantsIff(c: Bucket, t: real, bytes: nat)
    ensures Grants(c, Try(t, bytes)) <==> Refill(c, t).tokens >= bytes as real
  {
  }

  ghost predicate FixedRate(ops: seq<Op>) {
    forall i :: 0 <= i < |ops| ==> ops[i].Try?
  }

  lemma {:induction false} FixedRateState(b: Bucket, ops: seq<Op>)
    requires FixedRate(ops)
    ensures Run(b, ops).rate == b.rate && Run(b, ops).burst == b.burst
    ensures ops != [] ==> Run(b, ops).last == ops[|ops| - 1].now
    decreases |ops|
  {
    if ops != [] {
      FixedRateState(b, ops[..|ops| - 1]);
    }
  }

  /** The burst size, and the rate times the time between two moments. */
  function Allowance(b: Bucket, from: real, to: real): real {
    b.burst as real + b.rate as real * (to - from)
  }

  lemma AllowanceGrows(b: Bucket, c: Bucket, from: real, to: real)
    requires c.rate == b.rate && c.burst == b.burst
    ensures Allowance(b, from, to) == Allowance(b, from, c.last) + Earned(c, to)
  {
    assert b.rate as real * (to - from) == b.rate as real * (c.last - from) + (to - c.last) * b.rate as real;
  }

  lemma SameAllowance(b: Bucket, c: Bucket, from: real, to: real)
    requires c.rate == b.rate && c.burst == b.burst
    ensures Allowance(b, from, to) == Allowance(c, from, to)
  {
  }

  lemma AllowanceNow(b: Bucket, from: real)
    ensures Allowance(b, from, from) == b.burst as real
  {
  }

  /** At a fixed rate, what the calls of a run are granted and what is left stays within the allowance from the first to the last. */
  lemma {:induction false} WindowBound(b: Bucket, ops: seq<Op>)
    requires ops != [] && FixedRate(ops) && b.tokens >= 0.0 && Clocked(b, ops)
    ensures Granted(b, ops) as real + Run(b, ops).tokens <= Allowance(b, ops[0].now, ops[|ops| - 1].now)
    decreases |ops|
  {
    hide Earned, TryAcquire, Allowance;
    var init, op := ops[..|ops| - 1], ops[|ops| - 1];
    var c := Run(b, init);
    FixedRateState(b, init);
    GrantsAreEarned(b, init);
    StepEarned(c, op.now, op.bytes);
    assert Run(b, ops) == TryAcquire(c, op.now, op.bytes).0;
    assert Granted(b, ops) == Granted(b, init) + if Grants(c, op) then op.bytes else 0;
    if init != [] {
      WindowBound(b, init);
      AllowanceGrows(b, c, ops[0].now, op.now);
    } else {
      assert ops[0] == op && Granted(b, init) == 0;
      AllowanceNow(b, op.now);
    }
  }

  lemma {:induction false} RunSplit(b: Bucket, xs: seq<Op>, ys: seq<Op>)
    ensures Run(b, xs + ys) == Run(Run(b, xs), ys)
    ensures Granted(b, xs + ys) == Granted(b, xs) + Granted(Run(b, xs), ys)
    ensures Clocked(b, xs + ys) <==> Clocked(b, xs) && Clocked(Run(b, xs), ys)
    decreases |ys|
  {
    if ys == [] {
      assert xs + ys == xs;
    } else {
      RunSplit(b, xs, ys[..|ys| - 1]);
      assert (xs + ys)[..|xs + ys| - 1] == xs + ys[..|ys| - 1];
    }
  }

  /** The token-bucket bound, between any two calls i <= j of any fixed-rate run. */
  lemma TokenBucketBound(b: Bucket, ops: seq<Op>, i: nat, j: nat)
    requires i <= j < |ops| && FixedRate(ops) && b.tokens >= 0.0 && Clocked(b, ops)
    ensures (Granted(b, ops[..j + 1]) - Granted(b, ops[..i])) as real <= Allowance(b, ops[i].now, ops[j].now)
  {
    hide Run, Granted, Clocked, Allowance;
    var xs, ys, zs := ops[..i], ops[i..j + 1], ops[j + 1..];
    assert ops[..j + 1] == xs + ys && ops == (xs + ys) + zs;
    RunSplit(b, xs + ys, zs);
    RunSplit(b, xs, ys);
    FixedRateState(b, xs);
    GrantsAreEarned(b, xs);
    WindowBound(Run(b, xs), ys);
    GrantsAreEarned(Run(b, xs), ys);
    SameAllowance(b, Run(b, xs), ops[i].now, ops[j].now);
  }

  /** In any run, mixed with any other calls and rate changes, a call beyond the burst size then in force is refused. */
  lemma OversizeRefused(b: Bucket, ops: seq<Op>, i: nat)
    requires i < |ops| && ops[i].Try? && ops[i].bytes > BurstAfter(b, ops[..i])
    ensures !Grants(Run(b, ops[..i]), ops[i])
  {
    StateOfRun(b, ops[..i]);
  }

  /** In any run without rate changes, each call beyond the burst size is refused. */
  lemma OversizeNeverGranted(b: Bucket, ops: seq<Op>, i: nat)
    requires FixedRate(ops) && i < |ops| && ops[i].bytes > b.burst
    ensures !Grants(Run(b, ops[..i]), ops[i])
  {
    FixedRateState(b, ops[..i]);
  }

  // ---- Polling --------------------------------------------------------------------------------

  /** A run without some of its failed calls: those marked to be dropped, when they fail. */
  function Thinned(b: Bucket, ops: seq<Op>, drop: seq<bool>): seq<Op>
    requires |drop| == |ops|
    decreases |ops|
  {
    if ops == [] then []
    else
      var init, op := ops[..|ops| - 1], ops[|ops| - 1];
      Thinned(b, init, drop[..|ops| - 1]) + (if drop[|ops| - 1] && !Grants(Run(b, init), op) then [] else [op])
  }

  /** The results of the calls a thinned run keeps. */
  function KeptResults(b: Bucket, ops: seq<Op>, drop: seq<bool>): seq<bool>
    requires |drop| == |ops|
    decreases |ops|
  {
    if ops == [] then []
    else
      var init, op := ops[..|ops| - 1], ops[|ops| - 1];
      KeptResults(b, init, drop[..|ops| - 1]) +
      (if drop[|ops| - 1] && !Grants(Run(b, init), op) then [] else [Grants(Run(b, init), op)])
  }

  function Results(b: Bucket, ops: seq<Op>): seq<bool>
    decreases |ops|
  {
    if ops == [] then []
    else Results(b, ops[..|ops| - 1]) + [Grants(Run(b, ops[..|ops| - 1]), ops[|ops| - 1])]
  }

  /** Buckets no later refill can tell apart. */
  ghost predicate SameFrom(a: Bucket, b: Bucket, from: real) {
    forall now :: now >= from ==> Refill(a, now) == Refill(b, now)
  }

  /** Polling is free: dropping failed calls of a fixed-rate run changes no other result and no later refill. */
  lemma {:induction false} PollingIndependence(b: Bucket, ops: seq<Op>, drop: seq<bool>)
    requires |drop| == |ops| && FixedRate(ops) && Clocked(b, ops)
    ensures Results(b, Thinned(b, ops, drop)) == KeptResults(b, ops, drop)
    ensures SameFrom(Run(b, Thinned(b, ops, drop)), Run(b, ops), Run(b, ops).last)
    decreases |ops|
  {
    if ops != [] {
      var n := |ops| - 1;
      var init, op, d := ops[..n], ops[n], drop[..n];
      PollingIndependence(b, init, d);
      var thin, a, c := Thinned(b, init, d), Run(b, Thinned(b, init, d)), Run(b, init);
      assert Refill(a, op.now) == Refill(c, op.now);
      assert TryAcquire(a, op.now, op.bytes) == TryAcquire(c, op.now, op.bytes);
      if drop[n] && !Grants(c, op) {
        assert thin + [] == thin;
        forall now | now >= op.now
          ensures Refill(a, now) == Refill(Run(b, ops), now)
        {
          RefillTwice(c, op.now, now);
        }
      } else {
        assert (thin + [op])[..|thin + [op]| - 1] == thin;
      }
    }
  }
}
