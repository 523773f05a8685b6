// The bucket-count table of mini_define.h: 25 primes, each about twice the
// one before, and `__mini_stl_next_prime`, a std::lower_bound over it.

module PrimeTable {

  /** `__mini_stl_prime_list`. */
  const Primes: seq<nat> := [
    53, 97, 193, 389, 769,
    1543, 3079, 6151, 12289, 24593,
    49157, 98317, 196613, 393241, 786433,
    1572869, 3145739, 6291469, 12582917, 25165843,
    50331653, 100663319, 201326611, 402653189, 805306457
  ]

  /** `__mini_stl_num_primes`. */
  const NumPrimes: nat := 25

  /** The largest bucket count the table offers. */
  const MaxPrime: nat := 805306457

  ghost predicate StrictlyIncreasing(s: seq<nat>)
  {
    forall i, j :: 0 <= i < j < |s| ==> s[i] < s[j]
  }

  /** std::lower_bound: the first position whose entry is not less than `n`
      (|s| when there is none). */
  function LowerBound(s: seq<nat>, n: nat): (i: nat)
    ensures i <= |s|
    ensures forall j :: 0 <= j < i ==> s[j] < n
    ensures i < |s| ==> n <= s[i]
  {
    if s == [] then 0
    else if n <= s[0] then 0
    else 1 + LowerBound(s[1..], n)
  }

  /** `__mini_stl_next_prime(n)`: the least table entry not below `n`, or the
      last entry when `n` exceeds them all. */
  function NextPrime(n: nat): (p: nat)
    ensures p in Primes
    ensures n <= MaxPrime ==> n <= p && forall q :: q in Primes && n <= q ==> p <= q
    ensures MaxPrime < n ==> p == MaxPrime
  {
    var pos := LowerBound(Primes, n);
    TableShape();
    if pos == NumPrimes then Primes[NumPrimes - 1] else Primes[pos]
  }

  /** The table has 25 strictly increasing entries, from 53 to 805306457. */
  lemma TableShape()
    ensures |Primes| == NumPrimes && Primes[0] == 53 && Primes[NumPrimes - 1] == MaxPrime
    ensures StrictlyIncreasing(Primes)
  {
  }

  /** A table entry is its own next prime (lower_bound, not a strictly greater
      entry); 50 rounds up to 53, and 54, one element past 53, to 97. */
  lemma NextPrimeExamples()
    ensures NextPrime(50) == 53 && NextPrime(53) == 53 && NextPrime(54) == 97
    ensures NextPrime(MaxPrime + 1) == MaxPrime
  {
  }
}
