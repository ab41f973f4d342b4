# scicrypt: limb addition and sieve-based prime generation

This project models two pieces of the scicrypt libraries in Dafny and proves
properties of them.

**Addition on `UnsignedInteger`** (`scicrypt-bigint`).
- An `UnsignedInteger` is a GMP integer: a buffer of 64-bit limbs (`value.d`), a significant-limb count (`value.size`), and a separately declared bit length (`size_in_bits`).
- `self += &rhs` sums the low `min(limb counts)` limbs in place with `mpn_add_n`. It then sets the limb count to `max + carry` and the bit length to `max(bit lengths) + carry`.
- `self += w` adds a 64-bit word across all limbs with `mpn_sec_add_1`, and both sizes grow by the carry.
- `+` is `+=` on the moved receiver, and `Sum` is a left fold of `+` that starts from a clone of the first item.
- The model keeps what the code does:
  - a carry out of the summed limbs is counted in the sizes but never stored;
  - no carry reaches `self`'s limbs above the summed ones;
  - `rhs`'s limbs above `self`'s limb count are never copied;
  - after a carry, the limb count covers a limb that was never written, so the value depends on what the buffer held there;
  - the bit length grows only with a carry out of the top summed limb, so it can end up below the value's real bit length;
  - the limb count is never checked against the allocated buffer, so a carry out of a full buffer, or an `rhs` with more limbs than `self`'s buffer, leaves a limb count larger than the buffer.
- The sum is proved to be the arithmetic sum in the case where it holds: no carry out and `rhs` no longer than `self`. That is the case the unit tests exercise.

**Prime, safe-prime and RSA modulus generation** (`scicrypt-numbertheory`).
- `gen_prime` and `gen_safe_prime` draw a random number and set its top bit and bit 0. They compute its residues modulo the first `bit_length / 3` small primes.
- They then walk an offset `delta` in steps of 2 (4 for safe primes) until no tracked prime from index 1 up gives a forbidden residue: 0, or 0 or 1 for safe primes. Once `delta` passes a maximum chosen so that `u64` arithmetic cannot overflow, they resample.
- The offset candidate is then submitted to the strong primality test. For safe primes, its half is tested as well.
- `gen_rsa_modulus` takes two safe primes of `bit_length / 2` bits and returns `p·q` and `lcm(p - 1, q - 1)`. It is modelled both as written and with the corrected safe-prime search (see Findings).

**How the model is organised.**
- `arith.dfy`: powers, and the modular arithmetic lemmas.
- `limbs.dfy`: limb sequences, the numbers they denote, and ripple-carry addition as a function.
- `mpn.dfy`: the two GMP routines as in-place array loops, proved equal to that function.
- `add.dfy`: the `UnsignedInteger` class. Its methods are proved against the state functions `AddAssignSpec` and `AddWordSpec`, and lemmas prove what those state functions do to the number.
- `primes.dfy`: the sieve, the resampling loop, the two searches and the RSA assembly. Methods are proved equal to specification functions, and lemmas prove what those functions guarantee.

## Model

| member | source | states |
|---|---|---|
| Limbs.AddLimbs | scicrypt-bigint/src/arithmetic/add.rs:32-37 | ripple-carry addition of two equally long limb sequences yields as many low limbs as its inputs and a carry of 0 or 1 |
| Limbs.AddLimbsValue | scicrypt-bigint/src/arithmetic/add.rs:32-37 | the low limbs plus carry·2^(64n) denote exactly the sum of the two n-limb operands |
| Limbs.AddLimbsCarry | scicrypt-bigint/src/arithmetic/add.rs:32-37 | the carry is 1 exactly when the sum does not fit in n limbs; the low limbs denote the sum less carry·2^(64n) |
| Limbs.Widen | scicrypt-bigint/src/arithmetic/add.rs:64-70 | the word that `mpn_sec_add_1` adds, zero-extended to n limbs, has n limbs and denotes the word itself |
| Mpn.AddN | scicrypt-bigint/src/arithmetic/add.rs:32-37 | `mpn_add_n` in place: the first n limbs of the destination and the returned carry are the ripple-carry sum of the two operands' first n limbs; the limbs from n up are unchanged |
| Mpn.SecAdd1 | scicrypt-bigint/src/arithmetic/add.rs:64-70 | `mpn_sec_add_1` in place: the first n limbs and the carry are the ripple-carry sum of those limbs and the word zero-extended to n limbs; the limbs from n up are unchanged |
| BigUint.AddAssignSpec | scicrypt-bigint/src/arithmetic/add.rs:21-44 | the state after `self += &rhs` keeps the buffer length (no reallocation) |
| BigUint.AddWordSpec | scicrypt-bigint/src/arithmetic/add.rs:56-75 | the state after `self += w` keeps the buffer length (no reallocation) |
| BigUint.AddAssignCarry | scicrypt-bigint/src/arithmetic/add.rs:25-42 | if either operand has no limbs, the state is unchanged. Otherwise there is one carry c in {0,1}: limb count and bit length are their maxima plus c; the low n limbs plus c·2^(64n) equal the sum of the operands' low n limbs; c is 1 exactly when that sum overflows n limbs; the limbs from n up are untouched |
| BigUint.AddAssignSumWithoutCarry | scicrypt-bigint/src/arithmetic/add.rs:21-44 | when `rhs` has no more limbs than `self` and no carry leaves the summed limbs, the new value is the arithmetic sum, and the limb count and bit length stay those of `self` |
| BigUint.AddAssignDropsCarry | scicrypt-bigint/src/arithmetic/add.rs:39-42 | the carry is counted but not stored: (2^64 - 1) + 1 reads back as 0 with limb count 2 and bit length 65 |
| BigUint.AddAssignReadsStaleLimb | scicrypt-bigint/src/arithmetic/add.rs:39-41 | the limb the carry counts is read from the buffer as it was: with a stale 5 above 2^64 - 1, (2^64 - 1) + 1 reads back as 5·2^64 |
| BigUint.AddAssignOutgrowsBuffer | scicrypt-bigint/src/arithmetic/add.rs:39-41 | a carry out of a full one-limb buffer, (2^64 - 1) + 1, leaves limb count 2 over one limb, outside the valid states, so the fold of 2^64 - 1, 1 and 1 is not `Foldable` |
| BigUint.AddAssignLongerRhsOutgrowsBuffer | scicrypt-bigint/src/arithmetic/add.rs:39-41 | without any carry, 1 in a one-limb buffer plus the two-limb 2^64 + 1 leaves limb count 2 over one limb |
| BigUint.AddAssignUnderstatesBits | scicrypt-bigint/src/arithmetic/add.rs:42 | the bit length grows only with a carry out of the summed limbs: 2^62 + 2^62, both declared as 63 bits, gives 2^63 declared as 63 bits, below its real 64 |
| BigUint.AddWordUnderstatesBits | scicrypt-bigint/src/arithmetic/add.rs:72-73 | likewise for a word: (2^63 - 1) + 1, declared as 63 bits, gives 2^63 declared as 63 bits |
| BigUint.AddWordCarry | scicrypt-bigint/src/arithmetic/add.rs:64-73 | adding a word gives one carry c in {0,1}; the limb count and bit length each grow by exactly c; the significant limbs plus c·2^(64·size) equal the old value plus the word; c is 1 exactly when that sum overflows; the buffer above the old limb count is untouched |
| BigUint.AddWordSumWithoutCarry | scicrypt-bigint/src/arithmetic/add.rs:64-73 | without a carry, `self += w` yields the arithmetic sum with unchanged limb count and bit length |
| BigUint.FoldAddBits | scicrypt-bigint/src/arithmetic/add.rs:87-92 | folding k further items with `+` raises the first item's bit length by between 0 and k, and never reallocates the buffer |
| BigUint.UnsignedInteger.Clone | scicrypt-bigint/src/arithmetic/add.rs:89 | the clone is a fresh object with a fresh buffer and the same state |
| BigUint.UnsignedInteger.AddAssign | scicrypt-bigint/src/arithmetic/add.rs:21-44 | `self += &rhs` in place on the limb buffer, with the bit-length debug assertion as a precondition: the new state is `AddAssignSpec` of the old states, and the buffer is the same array |
| BigUint.UnsignedInteger.Add | scicrypt-bigint/src/arithmetic/add.rs:50-53 | `self + &rhs` returns the moved receiver itself, in exactly the state `+=` leaves |
| BigUint.UnsignedInteger.AddAssignWord | scicrypt-bigint/src/arithmetic/add.rs:56-75 | `self += w` in place: the new state is `AddWordSpec` of the old state, and the buffer is the same array |
| BigUint.UnsignedInteger.AddWord | scicrypt-bigint/src/arithmetic/add.rs:81-84 | `self + w` returns the moved receiver itself, in exactly the state `+= w` leaves |
| BigUint.Sum | scicrypt-bigint/src/arithmetic/add.rs:87-92 | an empty sequence yields None (the failing `unwrap`); otherwise the result is a fresh integer whose state is the left fold of `+=` from the first item's state over the others |
| BigUint.TestAddition | scicrypt-bigint/src/arithmetic/add.rs:99-110 | 5378239758327583290580573280735 (103 bits) + 49127277414859531000011129 (86 bits) = 5378288885604998150111573291864, with bit length 103 |
| BigUint.TestAdditionWord | scicrypt-bigint/src/arithmetic/add.rs:113-124 | 5378239758327583290580573280735 (103 bits) + 14 = 5378239758327583290580573280749, with bit length 103 |
| PrimeSearch.CandidateFacts | scicrypt-numbertheory/src/lib.rs:29-31 | after bits b-1 and 0 are set, the candidate is odd and at least 2^(b-1), and a draw below 2^b gives a candidate below 2^b |
| PrimeSearch.Residues | scicrypt-numbertheory/src/lib.rs:34-38 | the residue vector has one entry per tracked prime, each below its prime |
| PrimeSearch.PassesMeaning | scicrypt-numbertheory/src/lib.rs:43-44 | an offset that passes the sieve leaves candidate + offset with no forbidden residue modulo any tracked prime from index 1 up |
| PrimeSearch.FirstOnLatticeMeaning | scicrypt-numbertheory/src/lib.rs:42-59 | walking the offset along its step yields the least passing lattice offset not above the maximum, or None exactly when no such offset passes |
| PrimeSearch.StepFits | scicrypt-numbertheory/src/lib.rs:47 | `delta += 2` / `delta += 4` never overflows a u64 where the sieve performs it |
| PrimeSearch.SievePasses | scicrypt-numbertheory/src/lib.rs:43-55 | the `for i in 1..prime_count` test, in u64 arithmetic that cannot overflow, answers whether the offset passes; a failing offset needs at least two tracked primes |
| PrimeSearch.SieveOffset | scicrypt-numbertheory/src/lib.rs:40-59 | the `'sieve` loop with a u64 offset returns exactly the sieve's first passing offset, or None when the offset would pass the maximum |
| PrimeSearch.AvoidsTracked | scicrypt-numbertheory/src/lib.rs:86-87 | an odd number with no forbidden residue is divisible by no tracked prime; for safe primes it is not 1 modulo any of them, so its half is divisible by none of them |
| PrimeSearch.HalfNotDivisible | scicrypt-numbertheory/src/lib.rs:87 | if p is odd and p mod q is at least 2, then q does not divide p >> 1 |
| PrimeSearch.SurvivorSieved | scicrypt-numbertheory/src/lib.rs:42-59 | an odd candidate plus a passing lattice offset is a sieved number (`Sieved`) |
| PrimeSearch.SieveOffsetFacts | scicrypt-numbertheory/src/lib.rs:40-59 | the candidate plus the sieve's offset is sieved, keeps the candidate's residue modulo the step (2 or 4), and no smaller lattice offset passes |
| PrimeSearch.OfferFacts | scicrypt-numbertheory/src/lib.rs:29-59 | the number one draw offers is sieved, lies on the step lattice above the candidate and is the nearest passing one; with no offer, no lattice offset up to the maximum passes |
| PrimeSearch.AttemptFacts | scicrypt-numbertheory/src/lib.rs:28-64 | an attempt panics exactly on a zero bit length (with overflow checks on), a table shorter than `bit_length / 3`, or a safe-prime bit length below 3; an accepted number qualifies |
| PrimeSearch.ScanWithMeaning | scicrypt-numbertheory/src/lib.rs:28-65 | resampling is exhausted exactly when every attempt is rejected; otherwise the first draw not rejected decides the outcome and the later draws remain unused |
| PrimeSearch.ScanFound | scicrypt-numbertheory/src/lib.rs:62-64 | a search returns only a qualifying number: odd, top bit set, passed the strong test (safe primes: its half too), no tracked prime divides it (safe primes: none is 1 modulo it or divides its half); in range when lengths are kept |
| PrimeSearch.ScanStops | scicrypt-numbertheory/src/lib.rs:28-65 | a search panics exactly when there is a draw and the inputs make attempts panic; it is exhausted exactly when every draw is rejected |
| PrimeSearch.ScanRest | scicrypt-numbertheory/src/lib.rs:28-65 | the draws left after a search are a suffix of its draws |
| PrimeSearch.OfferFor | scicrypt-numbertheory/src/lib.rs:29-59 | candidate setup, residues and the `'sieve` loop compute exactly the number the sieve offers for the draw |
| PrimeSearch.TryDraw | scicrypt-numbertheory/src/lib.rs:28-64 | one pass of the `'outer` loop body computes exactly the attempt's verdict: panic, resample or accept |
| PrimeSearch.Search | scicrypt-numbertheory/src/lib.rs:28-65 | the `'outer` loop over the draws computes exactly the search's outcome and the unused draws |
| PrimeSearch.GenPrime | scicrypt-numbertheory/src/lib.rs:26-66 | `gen_prime` as written: the prime search without a length check |
| PrimeSearch.GenSafePrime | scicrypt-numbertheory/src/lib.rs:70-113 | `gen_safe_prime` as written: the safe-prime search without a length check |
| PrimeSearch.GenPrimeInRange | scicrypt-numbertheory/src/lib.rs:26-66 | corrected `gen_prime`: the prime search that resamples numbers of more than b bits |
| PrimeSearch.GenSafePrimeInRange | scicrypt-numbertheory/src/lib.rs:70-113 | corrected `gen_safe_prime`: the safe-prime search that resamples numbers of more than b bits |
| PrimeSearch.GenPrimeExceedsBitLength | scicrypt-numbertheory/src/lib.rs:40-63 | as written, an 8-bit prime search over [2, 3] with draw 255 returns 257 ≥ 2^8; the corrected search rejects that draw |
| PrimeSearch.GenSafePrimeExceedsBitLength | scicrypt-numbertheory/src/lib.rs:83-109 | as written, an 8-bit safe-prime search over [2, 3] with draw 255 returns 263 ≥ 2^8; the corrected search rejects that draw |
| PrimeSearch.LcmFromLeast | scicrypt-numbertheory/src/lib.rs:127 | searching the multiples of a upward from a·k finds the least common multiple, provided none lies below a·k |
| PrimeSearch.LcmIsLeast | scicrypt-numbertheory/src/lib.rs:127 | `Lcm` of two positive numbers is a positive common multiple no larger than any other |
| PrimeSearch.RsaPrimesQualify | scicrypt-numbertheory/src/lib.rs:122-123 | for the search as written and for the corrected one, both primes drawn for the modulus qualify as safe primes of b/2 bits under that search (below 2^(b/2) only for the corrected one); drawing panics exactly when there is a draw and b/2 bits make the safe-prime search panic |
| PrimeSearch.ProductLower | scicrypt-numbertheory/src/lib.rs:125 | two numbers of at least h bits multiply to a number of at least 2h-1 bits |
| PrimeSearch.ProductUpper | scicrypt-numbertheory/src/lib.rs:125 | two numbers below 2^h multiply to a number below 2^(2h) |
| PrimeSearch.OddTimesOdd | scicrypt-numbertheory/src/lib.rs:125 | the product of two odd numbers is odd |
| PrimeSearch.PrimePairFacts | scicrypt-numbertheory/src/lib.rs:125-127 | for two qualifying safe primes of b/2 bits, n = p·q is odd and at least 2^(2·(b/2)-2), and lcm(p - 1, q - 1) is their least common multiple; with the corrected search n is also below 2^(2·(b/2)) and so below 2^b |
| PrimeSearch.GenRsaModulus | scicrypt-numbertheory/src/lib.rs:118-130 | `gen_rsa_modulus`, with the safe-prime search as written or corrected, draws both primes from one stream and computes exactly `RsaModulus`: (p·q, lcm(p - 1, q - 1)) or the outcome that stopped it |
| PrimeSearch.RsaModulusFacts | scicrypt-numbertheory/src/lib.rs:118-130 | for both searches: the modulus panics exactly when b/2 bits make the safe-prime search panic; a returned n is the product of two qualifying safe primes, is odd and at least 2^(2·(b/2)-2), and lambda is the least common multiple of p - 1 and q - 1. With the corrected search, n is below 2^(2·(b/2)) and so below 2^b |
| PrimeSearch.RsaModulusExceedsBitLength | scicrypt-numbertheory/src/lib.rs:122-125 | as written, a 16-bit modulus over [2, 3] with draws 255, 255 takes p = q = 263 and returns n = 69169 ≥ 2^16; the corrected search rejects both draws |

## Left out

- Constant-time behaviour of `mpn_sec_add_1` and the `Scratch` buffer sized by `mpn_sec_add_1_itch` are out. Timing is not expressible, so only the functional result is modelled.
- Machine widths of the size fields are unbounded naturals. `value.size` is an `i32` and `size_in_bits` a `u32` in the source. Limbs are exact 64-bit words, and the sieve's `delta` and `mods` are checked against `u64`.
- `UnsignedInteger::from_string` is not part of this model. The unit tests build their operands from the two limbs of each decimal value.
- A clone copies the whole buffer being cloned, stale limbs above the limb count included, and its capacity is that buffer's length. GMP may allocate a different capacity and need not copy those limbs. A carrying `+=` counts the limb at the old limb count, so a different capacity or different contents there would change its result (`AddAssignReadsStaleLimb`).
- BigUint.UnsignedInteger.AddAssignWord: requires at least one significant limb, because `mpn_sec_add_1` is defined only for n ≥ 1. Adding a word to a zero-limb integer is not modelled.
- BigUint.UnsignedInteger.AddAssign: requires that `self` and `rhs` are different objects with different buffers, as Rust's exclusive borrow of `self` guarantees.
- BigUint.Sum: requires that each step's debug assertion holds (the accumulator declares at least as many bits as the next item), and, through `Foldable`, that every intermediate accumulator keeps its limb count within its buffer. The source carries on with a fold whose accumulator outgrows its buffer (`AddAssignOutgrowsBuffer`); such a state denotes no number here, because its limbs beyond the buffer are not part of the model, so those folds are not modelled.
- The random number generator is a finite sequence of draws. Each draw stands for one `BigInteger::random(bit_length)` call and may be any natural number. `CandidateFacts` covers draws below 2^b.
- `is_probably_prime` is a parameter of the search: any predicate on naturals. Its probabilistic guarantees are out.
- `mod_u` is modelled by its meaning, the remainder; `set_bit` is modelled by its effect on the number.
- The `BigInteger` arithmetic of the number-theory code is exact arithmetic on naturals: `candidate += delta`, `>> 1` (as division by 2), `p * q`, `p - 1` and `lcm`. Its own limb representation is not part of this model.
- The contents of `FIRST_PRIMES` are out. The table is a parameter required to hold ascending primes that start at 2 and fit a `u64`.
- Termination of the `'outer` resampling loop is out. The loop runs over a finite stream of draws, and running out of draws is the outcome `Exhausted` rather than looping forever.
- A panic of the source becomes the outcome `Panicked`. The panics are a zero bit length, a `prime_count` beyond the table, and `prime_count - 1` for safe primes when `prime_count` is 0. The zero bit length panics at `bit_length - 1` only with Rust's overflow checks on (debug builds and tests); a release build wraps and passes a huge index to `set_bit`, which is not modelled. `prime_count - 1` fails in both: as an underflow with the checks on, as an out-of-range index without them. An empty `Sum` becomes `None`.
- The test helper built on the `primal` crate is not part of this model, and neither are the ElGamal cryptosystems, which are composed from library calls.

## Findings

| source | as written | input that shows it | evidently intended | confidence | as-written member | corrected member |
|---|---|---|---|---|---|---|
| scicrypt-numbertheory/src/lib.rs:40-63 | `gen_prime` adds the sieve offset to a candidate that already has its top bit set and returns the result without checking the length, so it can have `bit_length + 1` bits | bit_length 8, table [2, 3], draw 255: candidate 255 is divisible by 3, offset 2 gives 257 = 2^8 + 1, which is prime | a prime of exactly `bit_length` bits, as its documentation states: resample when candidate + delta reaches 2^bit_length | high (not executed) | PrimeSearch.GenPrimeExceedsBitLength | PrimeSearch.GenPrimeInRange |
| scicrypt-numbertheory/src/lib.rs:83-109 | `gen_safe_prime` likewise can return a number of `bit_length + 1` bits | bit_length 8, table [2, 3], draw 255: offsets 0 and 4 give residues 0 and 1 modulo 3, offset 8 gives 263 = 2·131 + 1, both prime | a safe prime of exactly `bit_length` bits | high (not executed) | PrimeSearch.GenSafePrimeExceedsBitLength | PrimeSearch.GenSafePrimeInRange |
| scicrypt-numbertheory/src/lib.rs:118-130 | `gen_rsa_modulus` multiplies two results of `gen_safe_prime` as written, so each factor can have `bit_length / 2 + 1` bits and the modulus more than `bit_length` bits | bit_length 16, table [2, 3], draws 255 and 255: both calls return 263, and n = 69169 ≥ 2^16 | a modulus of `bit_length` bits at most, from two safe primes of exactly `bit_length / 2` bits | high (not executed) | PrimeSearch.RsaModulusExceedsBitLength | PrimeSearch.RsaModulusFacts |
