/**
 * Sieve-accelerated prime and safe-prime search (`gen_prime`,
 * `gen_safe_prime`) and RSA modulus assembly (`gen_rsa_modulus`).
 *
 * The random number generator is a finite stream of draws, the strong
 * primality test `is_probably_prime` is a parameter, and the table of first
 * primes is a parameter satisfying `ValidPrimeTable`. A panic of the source
 * is the outcome `Panicked`; running out of draws is the outcome `Exhausted`.
 */
module PrimeSearch {
  import opened Wrappers
  import opened Arith

  /** The largest value of a Rust `u64`. */
  const U64_MAX: nat := 0xFFFF_FFFF_FFFF_FFFF

  /** A Rust `u64`: arithmetic on it must stay in range. */
  type U64 = x: int | 0 <= x <= 0xFFFF_FFFF_FFFF_FFFF

  predicate IsPrime(p: nat)
  {
    p >= 2 && forall d :: 2 <= d < p ==> p % d != 0
  }

  /**
   * The assumptions on `FIRST_PRIMES`: a non-empty, strictly ascending
   * sequence of primes starting at 2, each fitting a `u64`.
   */
  predicate ValidPrimeTable(t: seq<nat>)
  {
    && |t| >= 1 && t[0] == 2
    && (forall i :: 0 <= i < |t| ==> IsPrime(t[i]) && t[i] <= U64_MAX)
    && (forall i, j :: 0 <= i < j < |t| ==> t[i] < t[j])
  }

  // ---------------------------------------------------------------------
  // Candidates
  // ---------------------------------------------------------------------

  /** Bit i of x. */
  predicate Bit(x: nat, i: nat)
  {
    (x / Pow(2, i)) % 2 == 1
  }

  /** `set_bit(i)`: x with bit i set. */
  function SetBit(x: nat, i: nat): nat
  {
    if Bit(x, i) then x else x + Pow(2, i)
  }

  /** The candidate of an attempt: the draw with bit b-1 and bit 0 set. */
  function CandidateOf(draw: nat, b: nat): nat
    requires b >= 1
  {
    SetBit(SetBit(draw, b - 1), 0)
  }

  /** Setting a bit that is already set, or that was clear, gives a number with that bit set. */
  lemma SetBitSets(x: nat, i: nat)
    ensures SetBit(x, i) >= x && SetBit(x, i) >= Pow(2, i)
    ensures SetBit(x, i) - x <= Pow(2, i)
  {
    if Bit(x, i) {
      var q := x / Pow(2, i);
      assert q >= 1;
      assert x == q * Pow(2, i) + x % Pow(2, i);
      MulMono(1, q, Pow(2, i));
    }
  }

  /** Setting a clear bit below the b-th keeps a number below 2^b. */
  lemma SetBitBelow(x: nat, i: nat, b: nat)
    requires i < b && x < Pow(2, b)
    ensures SetBit(x, i) < Pow(2, b)
  {
    if !Bit(x, i) {
      var r := PowSplit(i, b);
      EvenMultipleGap(x, Pow(2, i), r);
    }
  }

  /** 2^b is an even multiple of 2^i below it. */
  lemma PowSplit(i: nat, b: nat) returns (r: nat)
    requires i < b
    ensures Pow(2, b) == r * Pow(2, i) && r % 2 == 0
  {
    r := Pow(2, b - i);
    PowAdd(2, b - i, i);
    assert b - i + i == b;
    assert r == 2 * Pow(2, b - i - 1);
  }

  /**
   * If x lies below r·p, r is even and x div p is even, then x + p still
   * lies below r·p.
   */
  lemma EvenMultipleGap(x: nat, p: nat, r: nat)
    requires p > 0 && (x / p) % 2 == 0 && r % 2 == 0 && x < r * p
    ensures x + p < r * p
  {
    var k, m := x / p, x % p;
    assert x == k * p + m;
    if k >= r {
      MulMono(r, k, p);
    }
    MulMono(k + 2, r, p);
  }

  /**
   * Every candidate is odd and has its top bit b-1 set, so it is at least
   * 2^(b-1); a draw of at most b bits gives a candidate of exactly b bits.
   */
  lemma CandidateFacts(draw: nat, b: nat)
    requires b >= 1
    ensures var c := CandidateOf(draw, b);
            && c % 2 == 1
            && Pow(2, b - 1) <= c
            && (draw < Pow(2, b) ==> c < Pow(2, b))
  {
    var y := SetBit(draw, b - 1);
    SetBitSets(draw, b - 1);
    SetBitSets(y, 0);
    SetBitZeroOdd(y);
    if draw < Pow(2, b) {
      SetBitBelow(draw, b - 1, b);
      SetBitBelow(y, 0, b);
    }
  }

  lemma SetBitZeroOdd(y: nat)
    ensures SetBit(y, 0) % 2 == 1
  {
    assert Pow(2, 0) == 1;
  }

  /**
   * The residue vector: `mods[i] = candidate mod FIRST_PRIMES[i]` for the
   * first k primes of the table.
   */
  function Residues(c: nat, t: seq<nat>, k: nat): (mods: seq<nat>)
    requires k <= |t| && forall i :: 0 <= i < |t| ==> t[i] > 0
    ensures |mods| == k && forall i :: 0 <= i < k ==> mods[i] < t[i]
  {
    seq(k, i requires 0 <= i < k => c % t[i])
  }

  // ---------------------------------------------------------------------
  // The sieve
  // ---------------------------------------------------------------------

  /** Which search is running: for primes or for safe primes. */
  datatype Kind = Prime | SafePrime

  /** The step of the offset: 2 keeps the candidate odd, 4 keeps it modulo 4. */
  function Step(kind: Kind): nat
  {
    if kind == Prime then 2 else 4
  }

  /**
   * A residue that rules a candidate out: 0 (divisible by the small prime)
   * or, for safe primes, also 1 (then (p - 1) / 2 is divisible by it).
   */
  predicate Forbidden(kind: Kind, residue: nat)
  {
    if kind == Prime then residue == 0 else residue <= 1
  }

  /** One residue per tracked prime, each below its prime. */
  predicate Tracked(t: seq<nat>, mods: seq<nat>)
  {
    |mods| <= |t| && forall i :: 0 <= i < |mods| ==> mods[i] < t[i]
  }

  /** What one sieve run receives: a valid table and the tracked residues. */
  predicate SieveInputs(kind: Kind, t: seq<nat>, mods: seq<nat>)
  {
    ValidPrimeTable(t) && Tracked(t, mods) && (kind == SafePrime ==> |mods| >= 1)
  }

  /**
   * The largest offset the sieve may try: `u64::MAX` less the last prime of
   * the table, or, for safe primes, less the last tracked prime.
   */
  function MaxDelta(kind: Kind, t: seq<nat>, k: nat): U64
    requires ValidPrimeTable(t) && k <= |t| && (kind == SafePrime ==> k >= 1)
  {
    if kind == Prime then U64_MAX - t[|t| - 1] else U64_MAX - t[k - 1]
  }

  /** Offset d passes the sieve: no tracked prime from index 1 up gives a forbidden residue. */
  predicate Passes(kind: Kind, t: seq<nat>, mods: seq<nat>, d: nat)
  {
    Tracked(t, mods) && PassesFrom(kind, t, mods, d, 1)
  }

  /** No tracked prime from index i up gives a forbidden residue for offset d. */
  predicate PassesFrom(kind: Kind, t: seq<nat>, mods: seq<nat>, d: nat, i: nat)
    requires Tracked(t, mods)
    decreases |mods| - i
  {
    i >= |mods| || (!Forbidden(kind, (mods[i] + d) % t[i]) && PassesFrom(kind, t, mods, d, i + 1))
  }

  /** `PassesFrom` checks exactly the indices from i up. */
  lemma {:induction false} PassesFromMeaning(kind: Kind, t: seq<nat>, mods: seq<nat>, d: nat, i: nat)
    requires Tracked(t, mods)
    ensures PassesFrom(kind, t, mods, d, i) <==>
            forall j :: i <= j < |mods| ==> !Forbidden(kind, (mods[j] + d) % t[j])
    decreases |mods| - i
  {
    if i < |mods| {
      PassesFromMeaning(kind, t, mods, d, i + 1);
    }
  }

  /**
   * A passing offset d makes candidate + d avoid every tracked prime from
   * index 1 up: not divisible by it and, for safe primes, not congruent to 1
   * modulo it either.
   */
  lemma PassesMeaning(kind: Kind, t: seq<nat>, c: nat, k: nat, d: nat)
    requires ValidPrimeTable(t) && k <= |t|
    requires Passes(kind, t, Residues(c, t, k), d)
    ensures forall i :: 1 <= i < k ==> !Forbidden(kind, (c + d) % t[i])
  {
    var mods := Residues(c, t, k);
    PassesFromMeaning(kind, t, mods, d, 1);
    forall i | 1 <= i < k
      ensures !Forbidden(kind, (c + d) % t[i])
    {
      assert !Forbidden(kind, (mods[i] + d) % t[i]);
      ModAddReduce(c, t[i], d);
    }
  }

  // ---------------------------------------------------------------------
  // Walking the offset along its lattice
  // ---------------------------------------------------------------------

  /**
   * The first of d, d + step, d + 2·step, … not above maxDelta that
   * satisfies ok, or None when none of them does.
   */
  function FirstOnLattice(ok: nat -> bool, step: nat, d: nat, maxDelta: nat): Option<nat>
    requires step > 0 && d <= maxDelta
    decreases maxDelta - d
  {
    if ok(d) then Some(d)
    else if d + step > maxDelta then None
    else FirstOnLattice(ok, step, d + step, maxDelta)
  }

  /** No multiple of step in [lo, hi) satisfies ok. */
  predicate NoneOnLattice(ok: nat -> bool, step: nat, lo: nat, hi: nat)
    requires step > 0
  {
    forall e :: lo <= e < hi && e % step == 0 ==> !ok(e)
  }

  /**
   * `FirstOnLattice` finds the LEAST multiple of step from d on that
   * satisfies ok: a result satisfies ok, lies on the lattice, does not exceed
   * maxDelta, and every lattice point before it fails; None means every
   * lattice point from d up to maxDelta fails.
   */
  lemma {:induction false} FirstOnLatticeMeaning(ok: nat -> bool, step: nat, d: nat, maxDelta: nat)
    requires step > 0 && d <= maxDelta && d % step == 0
    ensures var r := FirstOnLattice(ok, step, d, maxDelta);
            && (r.Some? ==>
                  && d <= r.value <= maxDelta && r.value % step == 0 && ok(r.value)
                  && NoneOnLattice(ok, step, d, r.value))
            && (r.None? ==> NoneOnLattice(ok, step, d, maxDelta + 1))
    decreases maxDelta - d
  {
    if !ok(d) {
      if d + step <= maxDelta {
        LatticeNext(d, step);
        FirstOnLatticeMeaning(ok, step, d + step, maxDelta);
        var r := FirstOnLattice(ok, step, d + step, maxDelta);
        ExtendDown(ok, step, d, if r.Some? then r.value else maxDelta + 1);
      } else {
        ExtendDown(ok, step, d, maxDelta + 1);
      }
    }
  }

  /** A failing lattice point extends a failing range down by one step. */
  lemma ExtendDown(ok: nat -> bool, step: nat, d: nat, hi: nat)
    requires step > 0 && d % step == 0 && !ok(d) && NoneOnLattice(ok, step, d + step, hi)
    ensures NoneOnLattice(ok, step, d, hi)
  {
    forall e | d < e < hi && e % step == 0
      ensures !ok(e)
    {
      LatticeGap(d, e, step);
    }
  }

  /** A failing lattice point extends a failing range up by one step. */
  lemma ExtendUp(ok: nat -> bool, step: nat, lo: nat, d: nat)
    requires step > 0 && d % step == 0 && !ok(d) && NoneOnLattice(ok, step, lo, d)
    ensures NoneOnLattice(ok, step, lo, d + step)
  {
    forall e | d < e < d + step && e % step == 0
      ensures false
    {
      LatticeGap(d, e, step);
    }
  }

  /** The next lattice point is on the lattice. */
  lemma LatticeNext(d: nat, s: nat)
    requires s > 0 && d % s == 0
    ensures (d + s) % s == 0
  {
    ModAddMultiple(1, s, d);
  }

  /** Between two consecutive multiples of s there is no other. */
  lemma LatticeGap(d: nat, e: nat, s: nat)
    requires s > 0 && d % s == 0 && e % s == 0 && d < e
    ensures d + s <= e
  {
    var qd, qe := d / s, e / s;
    assert d == qd * s && e == qe * s;
    if qe <= qd {
      MulMono(qe, qd, s);
    } else {
      MulMono(qd + 1, qe, s);
    }
  }

  // ---------------------------------------------------------------------
  // The sieve loop
  // ---------------------------------------------------------------------

  /** The offsets that pass the sieve, as a predicate on offsets. */
  function PassesAt(kind: Kind, t: seq<nat>, mods: seq<nat>): nat -> bool
  {
    (d: nat) => Passes(kind, t, mods, d)
  }

  /**
   * What the `'sieve` loop yields: the least offset on the lattice of
   * `Step(kind)` that passes, provided it is at most `MaxDelta`; None (resample)
   * otherwise.
   */
  function Sieve(kind: Kind, t: seq<nat>, mods: seq<nat>): Option<nat>
    requires SieveInputs(kind, t, mods)
  {
    FirstOnLattice(PassesAt(kind, t, mods), Step(kind), 0, MaxDelta(kind, t, |mods|))
  }

  /**
   * `delta += 2` or `delta += 4` never overflows a u64 where the sieve
   * performs it. For primes the table's last prime is at least 2. For safe
   * primes the last tracked prime is at least 5 unless exactly two primes
   * (2 and 3) are tracked; then the offsets 0, 4 and 8 already cover all
   * residues modulo 3, so a failing offset is below 8.
   */
  lemma StepFits(kind: Kind, t: seq<nat>, mods: seq<nat>, delta: nat)
    requires SieveInputs(kind, t, mods) && delta <= MaxDelta(kind, t, |mods|)
    requires |mods| >= 2 && delta % Step(kind) == 0
    requires NoneOnLattice(PassesAt(kind, t, mods), Step(kind), 0, delta + 1)
    ensures delta + Step(kind) <= U64_MAX
  {
    if kind == SafePrime && t[|mods| - 1] < 5 {
      FourIsNotPrime();
      assert t[1] > t[0] == 2 && t[1] <= t[|mods| - 1] && IsPrime(t[1]);
      assert t[1] == 3;
      assert |mods| == 2;
      if delta >= 8 {
        assert Step(kind) == 4;
        assert !PassesAt(kind, t, mods)(0) && !PassesAt(kind, t, mods)(4) && !PassesAt(kind, t, mods)(8);
        FailsAtSecond(kind, t, mods, 0);
        FailsAtSecond(kind, t, mods, 4);
        FailsAtSecond(kind, t, mods, 8);
        assert false;
      }
    }
  }

  lemma FourIsNotPrime()
    ensures !IsPrime(4)
  {
    assert 4 % 2 == 0;
  }

  /** With exactly two tracked primes, a failing offset fails at the second. */
  lemma FailsAtSecond(kind: Kind, t: seq<nat>, mods: seq<nat>, d: nat)
    requires Tracked(t, mods) && |mods| == 2 && !Passes(kind, t, mods, d)
    ensures Forbidden(kind, (mods[1] + d) % t[1])
  {
    assert PassesFrom(kind, t, mods, d, 2);
  }

  /**
   * The `'sieve` loop of one attempt: walks `delta` from 0 by the step until
   * every tracked prime from index 1 up accepts `mods[i] + delta`, and gives
   * up (None, the `continue 'outer` resample) once `delta` passes the maximum.
   * Every `u64` increment stays in range.
   */
  method SieveOffset(kind: Kind, t: seq<nat>, mods: seq<nat>) returns (r: Option<U64>)
    requires SieveInputs(kind, t, mods)
    ensures r == Sieve(kind, t, mods)
  {
    var maxDelta := MaxDelta(kind, t, |mods|);
    ghost var ok, step := PassesAt(kind, t, mods), Step(kind);
    var delta: U64 := 0;
    while true
      invariant delta <= maxDelta && delta % step == 0
      invariant FirstOnLattice(ok, step, delta, maxDelta) == FirstOnLattice(ok, step, 0, maxDelta)
      invariant NoneOnLattice(ok, step, 0, delta)
      decreases maxDelta - delta
    {
      var passes := SievePasses(kind, t, mods, delta);
      if passes {
        assert ok(delta);
        return Some(delta);
      }
      assert !ok(delta);
      ExtendUp(ok, step, 0, delta);
      StepFits(kind, t, mods, delta);
      LatticeNext(delta, step);
      delta := delta + Step(kind);
      if delta > maxDelta {
        return None;
      }
    }
  }

  /**
   * The `for i in 1..prime_count` scan of one sieve round: whether every
   * tracked prime from index 1 up accepts `mods[i] + delta`. Each sum fits a
   * u64 because `mods[i]` is below a prime that `delta`'s maximum leaves room for.
   */
  method SievePasses(kind: Kind, t: seq<nat>, mods: seq<nat>, delta: U64) returns (passes: bool)
    requires SieveInputs(kind, t, mods) && delta <= MaxDelta(kind, t, |mods|)
    ensures passes == Passes(kind, t, mods, delta)
    ensures !passes ==> |mods| >= 2
  {
    var i := 1;
    while i < |mods|
      invariant 1 <= i
      invariant PassesFrom(kind, t, mods, delta, i) == Passes(kind, t, mods, delta)
    {
      assert mods[i] + delta <= U64_MAX by {
        if kind == Prime {
          assert i == |t| - 1 || t[i] < t[|t| - 1];
        } else {
          assert i == |mods| - 1 || t[i] < t[|mods| - 1];
        }
      }
      var sum: U64 := mods[i] + delta;
      if Forbidden(kind, sum % t[i]) {
        assert !PassesFrom(kind, t, mods, delta, i);
        return false;
      }
      i := i + 1;
    }
    assert PassesFrom(kind, t, mods, delta, i);
    return true;
  }

  // ---------------------------------------------------------------------
  // One attempt and the resampling loop
  // ---------------------------------------------------------------------

  /** The result of one pass through the `'outer` loop. */
  datatype Trial = Panic | Reject | Accept(p: nat)

  /** The result of a whole search: the value found, or why there is none. */
  datatype Outcome<T> = Found(value: T) | Exhausted | Panicked

  /** A search result together with the draws it left unused. */
  datatype Run = Run(outcome: Outcome<nat>, rest: seq<nat>)

  /**
   * The inputs on which an attempt panics: `bit_length - 1` underflows for a
   * zero bit length (a panic only with Rust's overflow checks on, as in debug
   * builds and tests; a release build wraps and hands `set_bit` a huge
   * index), the slice `FIRST_PRIMES[..prime_count]` is out of range when
   * `prime_count` exceeds the table, and for safe primes
   * `FIRST_PRIMES[prime_count - 1]` fails when `prime_count` is 0 (an
   * underflow with overflow checks on, an out-of-range index without them).
   */
  predicate PanicsAt(kind: Kind, b: nat, t: seq<nat>)
  {
    b == 0 || b / 3 > |t| || (kind == SafePrime && b / 3 == 0)
  }

  /**
   * The number the sieve offers for one draw: the candidate (the draw with
   * its top and bottom bits set) plus the first surviving offset, or None
   * when no offset up to the maximum survives.
   */
  function Offer(kind: Kind, b: nat, t: seq<nat>, draw: nat): Option<nat>
    requires ValidPrimeTable(t) && !PanicsAt(kind, b, t)
  {
    var c := CandidateOf(draw, b);
    match Sieve(kind, t, Residues(c, t, b / 3))
    case None => None
    case Some(delta) => Some(c + delta)
  }

  /**
   * The final tests on an offered number: with `keepLength` a number past b
   * bits is rejected; otherwise it is accepted when the strong test passes on
   * it (and, for safe primes, on its half).
   */
  function Judge(kind: Kind, b: nat, isPP: nat -> bool, keepLength: bool, p: nat): Trial
  {
    if keepLength && p >= Pow(2, b) then Reject
    else if isPP(p) && (kind == Prime || isPP(p / 2)) then Accept(p)
    else Reject
  }

  /**
   * One attempt on a draw: panic on the inputs above, otherwise judge the
   * number the sieve offers, rejecting the draw when it offers none.
   */
  function Attempt(kind: Kind, b: nat, t: seq<nat>, draw: nat, isPP: nat -> bool, keepLength: bool): Trial
    requires ValidPrimeTable(t)
  {
    if PanicsAt(kind, b, t) then Panic
    else
      match Offer(kind, b, t, draw)
      case None => Reject
      case Some(p) => Judge(kind, b, isPP, keepLength, p)
  }

  /**
   * What the sieve guarantees about the numbers it offers: each is odd, has
   * bit b-1 set, and is divisible by none of the tracked primes from index 1
   * up; for safe primes it is also not 1 modulo any of them, and so its half
   * is divisible by none of them either.
   */
  predicate Sieved(kind: Kind, b: nat, t: seq<nat>, p: nat)
  {
    && !PanicsAt(kind, b, t)
    && p % 2 == 1
    && Pow(2, b - 1) <= p
    && (forall i :: 1 <= i < b / 3 ==> t[i] > 0 && p % t[i] != 0)
    && (kind == SafePrime ==> forall i :: 1 <= i < b / 3 ==> p % t[i] >= 2 && (p / 2) % t[i] != 0)
  }

  /**
   * What a returned number guarantees: it passed the sieve and the strong
   * test (for safe primes, its half too) and, with `keepLength`, has exactly
   * b bits.
   */
  predicate Qualifies(kind: Kind, b: nat, t: seq<nat>, isPP: nat -> bool, keepLength: bool, p: nat)
  {
    && Sieved(kind, b, t, p)
    && (keepLength ==> p < Pow(2, b))
    && isPP(p)
    && (kind == SafePrime ==> isPP(p / 2))
  }

  /** If p is 2h + 1 and q >= 2 divides h, then p is 1 modulo q. */
  lemma HalfNotDivisible(p: nat, q: nat)
    requires q >= 2 && p % 2 == 1 && p % q >= 2
    ensures (p / 2) % q != 0
  {
    var h := p / 2;
    if h % q == 0 {
      var m := h / q;
      assert p == (2 * m) * q + 1;
      ModAddMultiple(2 * m, q, 1);
      assert false;
    }
  }

  /** Adding a multiple of an even step keeps an odd number odd. */
  lemma OddPlusEven(c: nat, delta: nat, step: nat)
    requires c % 2 == 1 && step % 2 == 0 && step > 0 && delta % step == 0
    ensures (c + delta) % 2 == 1
  {
    var m := (delta / step) * (step / 2);
    assert delta == m * 2;
    ModAddMultiple(m, 2, c);
  }

  /** A surviving offset turns an odd candidate into a sieved number. */
  lemma SurvivorSieved(kind: Kind, b: nat, t: seq<nat>, c: nat, delta: nat)
    requires ValidPrimeTable(t) && !PanicsAt(kind, b, t)
    requires c % 2 == 1 && Pow(2, b - 1) <= c
    requires delta % Step(kind) == 0
    requires Passes(kind, t, Residues(c, t, b / 3), delta)
    ensures Sieved(kind, b, t, c + delta)
  {
    var p, k := c + delta, b / 3;
    OddPlusEven(c, delta, Step(kind));
    PassesMeaning(kind, t, c, k, delta);
    AvoidsTracked(kind, t, k, p);
    assert p % 2 == 1 && Pow(2, b - 1) <= p;
  }

  /** An odd number without a forbidden residue avoids each tracked prime. */
  lemma AvoidsTracked(kind: Kind, t: seq<nat>, k: nat, p: nat)
    requires ValidPrimeTable(t) && k <= |t| && p % 2 == 1
    requires forall i :: 1 <= i < k ==> !Forbidden(kind, p % t[i])
    ensures forall i :: 1 <= i < k ==> t[i] > 0 && p % t[i] != 0
    ensures kind == SafePrime ==> forall i :: 1 <= i < k ==> p % t[i] >= 2 && (p / 2) % t[i] != 0
  {
    forall i | 1 <= i < k
      ensures t[i] > 0 && p % t[i] != 0
      ensures kind == SafePrime ==> p % t[i] >= 2 && (p / 2) % t[i] != 0
    {
      assert IsPrime(t[i]);
      if kind == SafePrime {
        HalfNotDivisible(p, t[i]);
      }
    }
  }

  /**
   * An offered number is sieved, lies on the step lattice above the
   * candidate (same parity, and for safe primes the same residue modulo 4),
   * and is the nearest such number above the candidate that passes the
   * sieve; when nothing is offered, no lattice offset up to the maximum passes.
   */
  lemma OfferFacts(kind: Kind, b: nat, t: seq<nat>, draw: nat)
    requires ValidPrimeTable(t) && !PanicsAt(kind, b, t)
    ensures var c, k := CandidateOf(draw, b), b / 3;
            var ok := PassesAt(kind, t, Residues(c, t, k));
            match Offer(kind, b, t, draw)
            case None => NoneOnLattice(ok, Step(kind), 0, MaxDelta(kind, t, k) + 1)
            case Some(p) =>
              && Sieved(kind, b, t, p)
              && c <= p && p % Step(kind) == c % Step(kind)
              && NoneOnLattice(ok, Step(kind), 0, p - c)
  {
    var c, k := CandidateOf(draw, b), b / 3;
    var mods := Residues(c, t, k);
    CandidateFacts(draw, b);
    FirstOnLatticeMeaning(PassesAt(kind, t, mods), Step(kind), 0, MaxDelta(kind, t, k));
    var r := Sieve(kind, t, mods);
    if r.Some? {
      SieveOffsetFacts(kind, b, t, c, r.value);
    }
  }

  /** The number at the sieve's first surviving offset above an odd candidate. */
  lemma SieveOffsetFacts(kind: Kind, b: nat, t: seq<nat>, c: nat, delta: nat)
    requires ValidPrimeTable(t) && !PanicsAt(kind, b, t)
    requires c % 2 == 1 && Pow(2, b - 1) <= c
    requires Sieve(kind, t, Residues(c, t, b / 3)) == Some(delta)
    ensures Sieved(kind, b, t, c + delta)
    ensures (c + delta) % Step(kind) == c % Step(kind)
    ensures NoneOnLattice(PassesAt(kind, t, Residues(c, t, b / 3)), Step(kind), 0, delta)
  {
    var mods := Residues(c, t, b / 3);
    var ok, step := PassesAt(kind, t, mods), Step(kind);
    FirstOnLatticeMeaning(ok, step, 0, MaxDelta(kind, t, b / 3));
    assert ok(delta);
    SurvivorSieved(kind, b, t, c, delta);
    assert delta == (delta / step) * step;
    ModAddMultiple(delta / step, step, c);
  }

  /** An attempt panics exactly on `PanicsAt`, and accepts only a qualifying number. */
  lemma AttemptFacts(kind: Kind, b: nat, t: seq<nat>, draw: nat, isPP: nat -> bool, keepLength: bool)
    requires ValidPrimeTable(t)
    ensures Attempt(kind, b, t, draw, isPP, keepLength).Panic? <==> PanicsAt(kind, b, t)
    ensures Attempt(kind, b, t, draw, isPP, keepLength).Accept? ==>
              Qualifies(kind, b, t, isPP, keepLength, Attempt(kind, b, t, draw, isPP, keepLength).p)
  {
    if !PanicsAt(kind, b, t) {
      OfferFacts(kind, b, t, draw);
    }
  }

  /** The attempt of one search, as a function of the draw. */
  function AttemptAt(kind: Kind, b: nat, t: seq<nat>, isPP: nat -> bool, keepLength: bool): nat -> Trial
    requires ValidPrimeTable(t)
  {
    (draw: nat) => Attempt(kind, b, t, draw, isPP, keepLength)
  }

  /**
   * Resampling over a finite stream of draws: the first accepted attempt
   * gives `Found`, a panicking attempt gives `Panicked`, and running out of
   * draws gives `Exhausted`.
   */
  function ScanWith(attempt: nat -> Trial, draws: seq<nat>): Run
    decreases |draws|
  {
    if |draws| == 0 then Run(Exhausted, [])
    else
      match attempt(draws[0])
      case Panic => Run(Panicked, draws[1..])
      case Reject => ScanWith(attempt, draws[1..])
      case Accept(p) => Run(Found(p), draws[1..])
  }

  /**
   * Resampling stops at the first draw whose attempt is not rejected: it is
   * exhausted exactly when every attempt is rejected; otherwise some draw j
   * with every earlier attempt rejected decides the outcome, and the draws
   * after j are left unused.
   */
  lemma {:induction false} ScanWithMeaning(attempt: nat -> Trial, draws: seq<nat>)
    ensures var run := ScanWith(attempt, draws);
            && (run.outcome.Exhausted? <==> forall j :: 0 <= j < |draws| ==> attempt(draws[j]) == Reject)
            && (run.outcome.Exhausted? ==> run.rest == [])
            && (!run.outcome.Exhausted? ==>
                  exists j :: 0 <= j < |draws| && Decides(attempt, draws, j, run))
    decreases |draws|
  {
    if |draws| > 0 {
      var run := ScanWith(attempt, draws);
      var tail := draws[1..];
      ScanWithMeaning(attempt, tail);
      assert forall j :: 1 <= j < |draws| ==> draws[j] == tail[j - 1];
      if attempt(draws[0]) != Reject {
        assert Decides(attempt, draws, 0, run);
      } else if !run.outcome.Exhausted? {
        var j :| 0 <= j < |tail| && Decides(attempt, tail, j, run);
        assert tail[j + 1..] == draws[j + 2..];
        assert Decides(attempt, draws, j + 1, run);
      }
    }
  }

  /**
   * Draw j decides a run: every earlier attempt was rejected, the attempt on
   * draw j panicked or accepted, the run's outcome is that panic or that
   * number, and the run leaves the draws after j.
   */
  predicate Decides(attempt: nat -> Trial, draws: seq<nat>, j: nat, run: Run)
    requires j < |draws|
  {
    && (forall i :: 0 <= i < j ==> attempt(draws[i]) == Reject)
    && run.rest == draws[j + 1..]
    && match attempt(draws[j])
       case Reject => false
       case Panic => run.outcome == Panicked
       case Accept(p) => run.outcome == Found(p)
  }

  /** The search of gen_prime or gen_safe_prime over a stream of draws. */
  function Scan(kind: Kind, b: nat, t: seq<nat>, draws: seq<nat>, isPP: nat -> bool, keepLength: bool): Run
    requires ValidPrimeTable(t)
  {
    ScanWith(AttemptAt(kind, b, t, isPP, keepLength), draws)
  }

  /** A search returns only a number that `Qualifies`. */
  lemma ScanFound(kind: Kind, b: nat, t: seq<nat>, draws: seq<nat>, isPP: nat -> bool, keepLength: bool)
    requires ValidPrimeTable(t)
    ensures var run := Scan(kind, b, t, draws, isPP, keepLength);
            run.outcome.Found? ==> Qualifies(kind, b, t, isPP, keepLength, run.outcome.value)
  {
    var attempt := AttemptAt(kind, b, t, isPP, keepLength);
    var run := ScanWith(attempt, draws);
    ScanWithMeaning(attempt, draws);
    if run.outcome.Found? {
      var j :| 0 <= j < |draws| && Decides(attempt, draws, j, run);
      AttemptFacts(kind, b, t, draws[j], isPP, keepLength);
    }
  }

  /**
   * A search panics exactly when there is a draw and the bit length or table
   * size makes every attempt panic, and is exhausted exactly when every
   * draw is rejected.
   */
  lemma ScanStops(kind: Kind, b: nat, t: seq<nat>, draws: seq<nat>, isPP: nat -> bool, keepLength: bool)
    requires ValidPrimeTable(t)
    ensures var run := Scan(kind, b, t, draws, isPP, keepLength);
            && (run.outcome.Panicked? <==> |draws| > 0 && PanicsAt(kind, b, t))
            && (run.outcome.Exhausted? <==>
                  forall j :: 0 <= j < |draws| ==> Attempt(kind, b, t, draws[j], isPP, keepLength) == Reject)
  {
    var attempt := AttemptAt(kind, b, t, isPP, keepLength);
    var run := ScanWith(attempt, draws);
    ScanWithMeaning(attempt, draws);
    if |draws| > 0 {
      AttemptFacts(kind, b, t, draws[0], isPP, keepLength);
    }
    if run.outcome.Panicked? {
      var j :| 0 <= j < |draws| && Decides(attempt, draws, j, run);
      AttemptFacts(kind, b, t, draws[j], isPP, keepLength);
    }
  }

  /** A search leaves a suffix of the draws unused, for the next search to consume. */
  lemma ScanRest(kind: Kind, b: nat, t: seq<nat>, draws: seq<nat>, isPP: nat -> bool, keepLength: bool)
    requires ValidPrimeTable(t)
    ensures var run := Scan(kind, b, t, draws, isPP, keepLength);
            |run.rest| <= |draws| && run.rest == draws[|draws| - |run.rest|..]
  {
    var attempt := AttemptAt(kind, b, t, isPP, keepLength);
    var run := ScanWith(attempt, draws);
    ScanWithMeaning(attempt, draws);
    if !run.outcome.Exhausted? {
      var j :| 0 <= j < |draws| && Decides(attempt, draws, j, run);
      assert |draws| - |run.rest| == j + 1;
    }
  }

  /**
   * The candidate, its residues and the `'sieve` loop of one pass: the
   * number the sieve offers for a draw.
   */
  method OfferFor(kind: Kind, b: nat, t: seq<nat>, draw: nat) returns (offer: Option<nat>)
    requires ValidPrimeTable(t) && !PanicsAt(kind, b, t)
    ensures offer == Offer(kind, b, t, draw)
  {
    var candidate := CandidateOf(draw, b);
    var mods := Residues(candidate, t, b / 3);
    var delta := SieveOffset(kind, t, mods);
    if delta.None? {
      return None;
    }
    return Some(candidate + delta.value);
  }

  /**
   * One pass of the `'outer` loop body: the panicking computations, the
   * offered number and the final tests.
   */
  method TryDraw(kind: Kind, b: nat, t: seq<nat>, draw: nat, isPP: nat -> bool, keepLength: bool)
    returns (trial: Trial)
    requires ValidPrimeTable(t)
    ensures trial == Attempt(kind, b, t, draw, isPP, keepLength)
  {
    var primeCount := b / 3;
    if b == 0 || primeCount > |t| || (kind == SafePrime && primeCount == 0) {
      return Panic;
    }
    var offer := OfferFor(kind, b, t, draw);
    if offer.None? {
      return Reject;
    }
    var p := offer.value;
    if keepLength && p >= Pow(2, b) {
      return Reject;
    }
    if isPP(p) && (kind == Prime || isPP(p / 2)) {
      return Accept(p);
    }
    return Reject;
  }

  /**
   * The `'outer` loop as written, for primes or safe primes: draw, sieve,
   * test, and resample until an attempt is accepted, an attempt panics or
   * the draws run out.
   */
  method Search(kind: Kind, b: nat, t: seq<nat>, draws: seq<nat>, isPP: nat -> bool, keepLength: bool)
    returns (run: Run)
    requires ValidPrimeTable(t)
    ensures run == Scan(kind, b, t, draws, isPP, keepLength)
  {
    ghost var attempt := AttemptAt(kind, b, t, isPP, keepLength);
    var j := 0;
    while j < |draws|
      invariant 0 <= j <= |draws|
      invariant ScanWith(attempt, draws[j..]) == ScanWith(attempt, draws)
    {
      assert draws[j..][0] == draws[j] && draws[j..][1..] == draws[j + 1..];
      var trial := TryDraw(kind, b, t, draws[j], isPP, keepLength);
      assert trial == attempt(draws[j]);
      match trial {
        case Panic => return Run(Panicked, draws[j + 1..]);
        case Accept(p) => return Run(Found(p), draws[j + 1..]);
        case Reject =>
      }
      j := j + 1;
    }
    assert draws[j..] == [];
    return Run(Exhausted, []);
  }

  // ---------------------------------------------------------------------
  // gen_prime and gen_safe_prime
  // ---------------------------------------------------------------------

  /** `gen_prime` as written: the offset may carry the result past b bits. */
  method GenPrime(b: nat, t: seq<nat>, draws: seq<nat>, isPP: nat -> bool) returns (run: Run)
    requires ValidPrimeTable(t)
    ensures run == Scan(Prime, b, t, draws, isPP, false)
    ensures run.outcome.Found? ==> Qualifies(Prime, b, t, isPP, false, run.outcome.value)
  {
    run := Search(Prime, b, t, draws, isPP, false);
    ScanFound(Prime, b, t, draws, isPP, false);
  }

  /** `gen_safe_prime` as written: the offset may carry the result past b bits. */
  method GenSafePrime(b: nat, t: seq<nat>, draws: seq<nat>, isPP: nat -> bool) returns (run: Run)
    requires ValidPrimeTable(t)
    ensures run == Scan(SafePrime, b, t, draws, isPP, false)
    ensures run.outcome.Found? ==> Qualifies(SafePrime, b, t, isPP, false, run.outcome.value)
  {
    run := Search(SafePrime, b, t, draws, isPP, false);
    ScanFound(SafePrime, b, t, draws, isPP, false);
  }

  /** `gen_prime` corrected: a number past b bits is resampled. */
  method GenPrimeInRange(b: nat, t: seq<nat>, draws: seq<nat>, isPP: nat -> bool) returns (run: Run)
    requires ValidPrimeTable(t)
    ensures run == Scan(Prime, b, t, draws, isPP, true)
    ensures run.outcome.Found? ==>
              Qualifies(Prime, b, t, isPP, true, run.outcome.value) && run.outcome.value < Pow(2, b)
  {
    run := Search(Prime, b, t, draws, isPP, true);
    ScanFound(Prime, b, t, draws, isPP, true);
  }

  /** `gen_safe_prime` corrected: a number past b bits is resampled. */
  method GenSafePrimeInRange(b: nat, t: seq<nat>, draws: seq<nat>, isPP: nat -> bool) returns (run: Run)
    requires ValidPrimeTable(t)
    ensures run == Scan(SafePrime, b, t, draws, isPP, true)
    ensures run.outcome.Found? ==>
              Qualifies(SafePrime, b, t, isPP, true, run.outcome.value) && run.outcome.value < Pow(2, b)
  {
    run := Search(SafePrime, b, t, draws, isPP, true);
    ScanFound(SafePrime, b, t, draws, isPP, true);
  }

  /** The table of the first two primes. */
  lemma SmallTable()
    ensures ValidPrimeTable([2, 3])
  {
    assert IsPrime(2) && IsPrime(3);
  }

  /**
   * As written, an 8-bit prime search over the table [2, 3] turns the draw
   * 255 into the candidate 255 (divisible by 3), steps to 257 and returns
   * it: a 9-bit number. The corrected search rejects that draw instead.
   */
  lemma GenPrimeExceedsBitLength(isPP: nat -> bool)
    requires isPP(257)
    ensures ValidPrimeTable([2, 3])
    ensures Scan(Prime, 8, [2, 3], [255], isPP, false) == Run(Found(257), [])
    ensures Pow(2, 8) <= 257
    ensures Scan(Prime, 8, [2, 3], [255], isPP, true) == Run(Exhausted, [])
  {
    SmallTable();
    var t: seq<nat> := [2, 3];
    assert Pow(2, 8) == 256 && Pow(2, 7) == 128;
    assert CandidateOf(255, 8) == 255;
    var mods := Residues(255, t, 2);
    assert mods == [1, 0];
    var ok := PassesAt(Prime, t, mods);
    assert PassesFrom(Prime, t, mods, 2, 2);
    assert Passes(Prime, t, mods, 2);
    assert !ok(0) && ok(2);
    var m := MaxDelta(Prime, t, 2);
    assert FirstOnLattice(ok, 2, 2, m) == Some(2);
    assert FirstOnLattice(ok, 2, 0, m) == Some(2);
  }

  /**
   * As written, an 8-bit safe-prime search over the table [2, 3] turns the
   * draw 255 into the candidate 255, rules out the offsets 0 and 4 (residues
   * 0 and 1 modulo 3) and returns 263 = 2·131 + 1: a 9-bit number. The
   * corrected search rejects that draw instead.
   */
  lemma GenSafePrimeExceedsBitLength(isPP: nat -> bool)
    requires isPP(263) && isPP(131)
    ensures ValidPrimeTable([2, 3])
    ensures Scan(SafePrime, 8, [2, 3], [255], isPP, false) == Run(Found(263), [])
    ensures Pow(2, 8) <= 263
    ensures Scan(SafePrime, 8, [2, 3], [255], isPP, true) == Run(Exhausted, [])
  {
    SmallTable();
    var t: seq<nat> := [2, 3];
    assert Pow(2, 8) == 256 && Pow(2, 7) == 128;
    assert CandidateOf(255, 8) == 255;
    var mods := Residues(255, t, 2);
    assert mods == [1, 0];
    var ok := PassesAt(SafePrime, t, mods);
    assert PassesFrom(SafePrime, t, mods, 8, 2);
    assert Passes(SafePrime, t, mods, 8);
    assert !ok(0) && !ok(4) && ok(8);
    var m := MaxDelta(SafePrime, t, 2);
    assert FirstOnLattice(ok, 4, 8, m) == Some(8);
    assert FirstOnLattice(ok, 4, 4, m) == Some(8);
    assert FirstOnLattice(ok, 4, 0, m) == Some(8);
  }

  // ---------------------------------------------------------------------
  // gen_rsa_modulus
  // ---------------------------------------------------------------------

  /** m is a positive common multiple of the positive numbers a and b. */
  predicate CommonMultiple(m: nat, a: nat, b: nat)
  {
    a > 0 && b > 0 && m > 0 && m % a == 0 && m % b == 0
  }

  /** l is the least positive common multiple of a and b. */
  predicate IsLcm(l: nat, a: nat, b: nat)
  {
    CommonMultiple(l, a, b) && forall m :: CommonMultiple(m, a, b) ==> l <= m
  }

  /** The least common multiple, 0 when either argument is 0 (as `lcm` returns). */
  function Lcm(a: nat, b: nat): nat
  {
    if a == 0 || b == 0 then 0 else LcmFrom(a, b, 1)
  }

  /** The first of a·k, a·(k+1), …, a·b that b divides. */
  function LcmFrom(a: nat, b: nat, k: nat): nat
    requires a > 0 && b > 0 && 1 <= k <= b
    decreases b - k
  {
    if k == b || (a * k) % b == 0 then a * k else LcmFrom(a, b, k + 1)
  }

  /** A multiple of a above a·k is at least a·(k+1). */
  lemma NextMultiple(m: nat, a: nat, k: nat)
    requires a > 0 && m % a == 0 && m > a * k
    ensures m >= a * (k + 1)
  {
    var q := m / a;
    assert m == q * a;
    if q <= k {
      MulMono(q, k, a);
    }
    MulMono(k + 1, q, a);
  }

  /** Searching up from a·k, with no common multiple below it, finds the least one. */
  lemma {:induction false} LcmFromLeast(a: nat, b: nat, k: nat)
    requires a > 0 && b > 0 && 1 <= k <= b
    requires forall m :: CommonMultiple(m, a, b) ==> a * k <= m
    ensures IsLcm(LcmFrom(a, b, k), a, b)
    decreases b - k
  {
    var r := a * k;
    if k == b || r % b == 0 {
      ModAddMultiple(k, a, 0);
      assert r == k * a + 0;
      if k == b {
        ModAddMultiple(a, b, 0);
        assert r == a * b + 0;
      }
    } else {
      forall m | CommonMultiple(m, a, b)
        ensures a * (k + 1) <= m
      {
        assert m != r;
        NextMultiple(m, a, k);
      }
      LcmFromLeast(a, b, k + 1);
    }
  }

  /** `Lcm` of two positive numbers is their least common multiple. */
  lemma LcmIsLeast(a: nat, b: nat)
    requires a > 0 && b > 0
    ensures IsLcm(Lcm(a, b), a, b)
  {
    forall m | CommonMultiple(m, a, b)
      ensures a * 1 <= m
    {
      NextMultiple(m, a, 0);
    }
    LcmFromLeast(a, b, 1);
  }

  /**
   * The two safe primes of `gen_rsa_modulus`, each drawn by the safe-prime
   * search for b/2 bits, one after the other from the same stream of draws.
   * With `keepLength` false this is the search as written; with `keepLength`
   * true it is the corrected search that resamples numbers past b/2 bits.
   */
  function RsaPrimes(b: nat, t: seq<nat>, draws: seq<nat>, isPP: nat -> bool, keepLength: bool): Outcome<(nat, nat)>
    requires ValidPrimeTable(t)
  {
    var first := Scan(SafePrime, b / 2, t, draws, isPP, keepLength);
    match first.outcome
    case Exhausted => Exhausted
    case Panicked => Panicked
    case Found(p) =>
      match Scan(SafePrime, b / 2, t, first.rest, isPP, keepLength).outcome
      case Exhausted => Exhausted
      case Panicked => Panicked
      case Found(q) => Found((p, q))
  }

  /** Both primes `RsaPrimes` yields qualify as safe primes of b/2 bits. */
  lemma RsaPrimesQualify(b: nat, t: seq<nat>, draws: seq<nat>, isPP: nat -> bool, keepLength: bool)
    requires ValidPrimeTable(t)
    ensures var primes := RsaPrimes(b, t, draws, isPP, keepLength);
            primes.Found? ==>
              && Qualifies(SafePrime, b / 2, t, isPP, keepLength, primes.value.0)
              && Qualifies(SafePrime, b / 2, t, isPP, keepLength, primes.value.1)
    ensures RsaPrimes(b, t, draws, isPP, keepLength).Panicked? <==> |draws| > 0 && PanicsAt(SafePrime, b / 2, t)
  {
    var first := Scan(SafePrime, b / 2, t, draws, isPP, keepLength);
    ScanFound(SafePrime, b / 2, t, draws, isPP, keepLength);
    ScanStops(SafePrime, b / 2, t, draws, isPP, keepLength);
    if first.outcome.Found? {
      ScanFound(SafePrime, b / 2, t, first.rest, isPP, keepLength);
      ScanStops(SafePrime, b / 2, t, first.rest, isPP, keepLength);
    }
  }

  /** The modulus p·q and lambda = lcm(p - 1, q - 1) of two primes. */
  function Modulus(p: nat, q: nat): (nat, nat)
    requires p >= 1 && q >= 1
  {
    (p * q, Lcm(p - 1, q - 1))
  }

  /** The modulus and lambda of the primes `RsaPrimes` yields. */
  function RsaModulus(b: nat, t: seq<nat>, draws: seq<nat>, isPP: nat -> bool, keepLength: bool): Outcome<(nat, nat)>
    requires ValidPrimeTable(t)
  {
    var primes := RsaPrimes(b, t, draws, isPP, keepLength);
    RsaPrimesQualify(b, t, draws, isPP, keepLength);
    match primes
    case Exhausted => Exhausted
    case Panicked => Panicked
    case Found(pq) => Found(Modulus(pq.0, pq.1))
  }

  /**
   * `gen_rsa_modulus`: two calls of the safe-prime search for b/2 bits, then
   * the product and lambda. With `keepLength` false the search is
   * `gen_safe_prime` as written; with `keepLength` true it is the corrected one.
   */
  method GenRsaModulus(b: nat, t: seq<nat>, draws: seq<nat>, isPP: nat -> bool, keepLength: bool)
    returns (o: Outcome<(nat, nat)>)
    requires ValidPrimeTable(t)
    ensures o == RsaModulus(b, t, draws, isPP, keepLength)
  {
    RsaPrimesQualify(b, t, draws, isPP, keepLength);
    ghost var primes := RsaPrimes(b, t, draws, isPP, keepLength);
    var first := Search(SafePrime, b / 2, t, draws, isPP, keepLength);
    if !first.outcome.Found? {
      return if first.outcome.Panicked? then Panicked else Exhausted;
    }
    var second := Search(SafePrime, b / 2, t, first.rest, isPP, keepLength);
    if !second.outcome.Found? {
      return if second.outcome.Panicked? then Panicked else Exhausted;
    }
    var p, q := first.outcome.value, second.outcome.value;
    assert primes == Found((p, q));
    return Found(Modulus(p, q));
  }

  /**
   * As written, a 16-bit modulus over the table [2, 3] with the draws 255
   * and 255 takes p = q = 263 (each 9 bits, see
   * `GenSafePrimeExceedsBitLength`) and returns n = 69169 ≥ 2^16, a 17-bit
   * modulus. The corrected search rejects both draws instead.
   */
  lemma RsaModulusExceedsBitLength(isPP: nat -> bool)
    requires isPP(263) && isPP(131)
    ensures ValidPrimeTable([2, 3])
    ensures RsaModulus(16, [2, 3], [255, 255], isPP, false) == Found((69169, Lcm(262, 262)))
    ensures Pow(2, 16) <= 69169
    ensures RsaModulus(16, [2, 3], [255, 255], isPP, true) == Exhausted
  {
    var t: seq<nat> := [2, 3];
    GenSafePrimeExceedsBitLength(isPP);
    var asWritten := AttemptAt(SafePrime, 8, t, isPP, false);
    var corrected := AttemptAt(SafePrime, 8, t, isPP, true);
    assert ScanWith(asWritten, [255]) == Run(Found(263), []);
    assert ScanWith(corrected, [255]) == Run(Exhausted, []);
    assert asWritten(255) == Accept(263);
    assert corrected(255) == Reject;
    assert [255, 255][1..] == [255];
    assert Scan(SafePrime, 8, t, [255, 255], isPP, false) == Run(Found(263), [255]);
    assert Scan(SafePrime, 8, t, [255, 255], isPP, true) == Run(Exhausted, []);
    assert RsaPrimes(16, t, [255, 255], isPP, false) == Found((263, 263));
    assert Pow(2, 16) == 65536 by {
      PowAdd(2, 8, 8);
    }
  }

  /** Two numbers of at least h bits multiply to one of at least 2h-1 bits. */
  lemma ProductLower(p: nat, q: nat, h: nat)
    requires h >= 1
    requires Pow(2, h - 1) <= p && Pow(2, h - 1) <= q
    ensures Pow(2, 2 * h - 2) <= p * q
  {
    var e := h - 1;
    var lo := Pow(2, e);
    MulBoth(lo, p, lo, q);
    PowAdd(2, e, e);
    assert e + e == 2 * h - 2;
  }

  /** Two numbers of at most h bits multiply to one of at most 2h bits. */
  lemma ProductUpper(p: nat, q: nat, h: nat)
    requires p < Pow(2, h) && q < Pow(2, h)
    ensures p * q < Pow(2, 2 * h)
  {
    var hi := Pow(2, h);
    PowAdd(2, h, h);
    assert h + h == 2 * h;
    assert Pow(2, 2 * h) == hi * hi;
    MulMono(q, hi, p);
    MulMono(p + 1, hi, hi);
    assert q * p <= hi * p < (p + 1) * hi <= hi * hi;
  }

  /** Powers of two grow with the exponent. */
  lemma PowTwoMono(e: nat, f: nat)
    requires e <= f
    ensures Pow(2, e) <= Pow(2, f)
  {
    PowAdd(2, e, f - e);
    assert e + (f - e) == f;
    MulMono(1, Pow(2, f - e), Pow(2, e));
  }

  /** The product of two odd numbers is odd. */
  lemma OddTimesOdd(p: nat, q: nat)
    requires p % 2 == 1 && q % 2 == 1
    ensures (p * q) % 2 == 1
  {
    var x := p / 2;
    assert p * q == (x * q) * 2 + q;
    ModAddMultiple(x * q, 2, q);
  }

  /**
   * `gen_rsa_modulus` panics exactly when there is a draw and b/2 bits make
   * the safe-prime search panic (fewer than 6 bits, or too small a table).
   * Otherwise a returned modulus is the product of two qualifying safe
   * primes of at least b/2 bits each, so it is odd with at least 2·(b/2)-1
   * bits, and lambda is the least common multiple of p - 1 and q - 1. Only
   * with the corrected search are p and q below 2^(b/2), so that n has at
   * most 2·(b/2) bits and is below 2^b (`RsaModulusExceedsBitLength` shows
   * the search as written exceeding it).
   */
  lemma RsaModulusFacts(b: nat, t: seq<nat>, draws: seq<nat>, isPP: nat -> bool, keepLength: bool)
    requires ValidPrimeTable(t)
    ensures RsaModulus(b, t, draws, isPP, keepLength).Panicked? <==> |draws| > 0 && PanicsAt(SafePrime, b / 2, t)
    ensures var modulus, primes := RsaModulus(b, t, draws, isPP, keepLength), RsaPrimes(b, t, draws, isPP, keepLength);
            modulus.Found? ==>
              var n, lambda, p, q := modulus.value.0, modulus.value.1, primes.value.0, primes.value.1;
              && Qualifies(SafePrime, b / 2, t, isPP, keepLength, p)
              && Qualifies(SafePrime, b / 2, t, isPP, keepLength, q)
              && n == p * q && n % 2 == 1 && Pow(2, 2 * (b / 2) - 2) <= n
              && (keepLength ==> n < Pow(2, 2 * (b / 2)) <= Pow(2, b))
              && IsLcm(lambda, p - 1, q - 1)
  {
    RsaPrimesQualify(b, t, draws, isPP, keepLength);
    var primes := RsaPrimes(b, t, draws, isPP, keepLength);
    if primes.Found? {
      PrimePairFacts(b, t, isPP, keepLength, primes.value.0, primes.value.1);
    }
  }

  /** The modulus facts for any two qualifying safe primes of b/2 bits. */
  lemma PrimePairFacts(b: nat, t: seq<nat>, isPP: nat -> bool, keepLength: bool, p: nat, q: nat)
    requires Qualifies(SafePrime, b / 2, t, isPP, keepLength, p)
    requires Qualifies(SafePrime, b / 2, t, isPP, keepLength, q)
    ensures p >= 1 && q >= 1
    ensures var n := p * q;
            && n % 2 == 1 && Pow(2, 2 * (b / 2) - 2) <= n
            && (keepLength ==> n < Pow(2, 2 * (b / 2)) <= Pow(2, b))
            && IsLcm(Lcm(p - 1, q - 1), p - 1, q - 1)
  {
    var h := b / 2;
    ProductLower(p, q, h);
    if keepLength {
      ProductUpper(p, q, h);
      PowTwoMono(2 * h, b);
    }
    OddTimesOdd(p, q);
    PositiveHalf(p, h);
    PositiveHalf(q, h);
    LcmIsLeast(p - 1, q - 1);
  }

  /** A number of h >= 3 bits exceeds 1. */
  lemma PositiveHalf(p: nat, h: nat)
    requires h >= 3 && Pow(2, h - 1) <= p
    ensures p >= 2
  {
    PowTwoMono(1, h - 1);
    assert Pow(2, 1) == 2;
  }
}
