/**
 * Call sequences on Primes objects and what they yield: the first answers of
 * nextPrime, the effect of a small capacity, the skipped 3, the prime 193 that
 * reads as not prime, and repeated or successive calls.
 */
module Scenarios {
  import opened Primality
  import opened Bitmap
  import opened Sieve

  /** 3, 5, 7 and 11 are prime. */
  lemma SmallPrimes()
    ensures IsPrimeMath(3) && IsPrimeMath(5) && IsPrimeMath(7) && IsPrimeMath(11)
  {
    PrimeByCheck(3, 2);
    assert NoDivisorIn(5, 2, 3);
    PrimeByCheck(5, 3);
    assert NoDivisorIn(7, 2, 3);
    PrimeByCheck(7, 3);
    assert NoDivisorIn(11, 2, 4);
    PrimeByCheck(11, 4);
  }

  /**
   * 193 is prime, and it sits in bit 31 of word 2 (193 = 3 + 2 * (2 * 32 + 31)),
   * the sign bit, so it is never reported.
   */
  lemma Prime193()
    ensures IsPrimeMath(193) && !Reported(193)
    ensures Row(193) == 2 && Col(193) == 31
  {
    assert NoDivisorIn(193, 2, 14);
    PrimeByCheck(193, 14);
  }

  /** On a fresh instance, nextPrime answers 2, 3, 5, 7 and 11. */
  method FirstFive() returns (primes: seq<int>)
    ensures primes == [2, 3, 5, 7, 11]
  {
    SmallPrimes();
    var ps := new Primes();
    var a := ps.NextPrime();
    var b := ps.NextPrime();
    LeastReported(1, b, 3);
    assert Reported(5);
    var c := ps.NextPrime();
    LeastReported(5, c, 5);
    assert Reported(7);
    var d := ps.NextPrime();
    LeastReported(7, d, 7);
    assert Reported(11);
    assert !Reported(9) by {
      assert 9 % 3 == 0;
    }
    var e := ps.NextPrime();
    LeastReported(9, e, 11);
    primes := [a, b, c, d, e];
  }

  /**
   * After the first nextPrime of a fresh instance, isPrime(3) reads false:
   * the bootstrap moved the cursor past 3 without recording it.
   */
  method SkippedThree() returns (first: int, three: bool)
    ensures first == 2 && !three
  {
    var ps := new Primes();
    first := ps.NextPrime();
    ZeroHasNoBits(0);
    three := ps.IsPrime(3);
  }

  /**
   * The second nextPrime moves the cursor from 3 back to 1 and records 3 on
   * the way: it answers 3, and isPrime(3) then reads true.
   */
  method ThreeRecorded() returns (first: int, second: int, three: bool)
    ensures first == 2 && second == 3 && three
  {
    SmallPrimes();
    var ps := new Primes();
    first := ps.NextPrime();
    second := ps.NextPrime();
    LeastReported(1, second, 3);
    three := ps.IsPrime(3);
  }

  /**
   * An isPrime call between the first two nextPrime calls moves the cursor
   * past 3, so 3 is never recorded and nextPrime goes on from 2 to 5.
   */
  method ThreeLost() returns (first: int, three: bool, second: int)
    ensures first == 2 && !three && second == 5
  {
    SmallPrimes();
    var ps := new Primes();
    first := ps.NextPrime();
    three := ps.IsPrime(3);
    assert Reported(5);
    second := ps.NextPrime();
    LeastReported(5, second, 5);
  }

  /**
   * isPrime(191) on a fresh cache classifies up to 193 in word 2: the array
   * doubles twice, to 4 words, and printBitmap lists all four (maxRow is 3),
   * the header, four lines of 34 characters and the final newline.
   */
  method GrowToFour() returns (words: int, text: string)
    ensures words == 4
    ensures |text| == |Render.Header| + 4 * Render.LineLength + 1
  {
    var ps := new Primes();
    var _ := ps.IsPrime(191);
    assert ps.currentPrime == 193;
    assert Row(193) == 2;
    words := ps.oddBitmap.Length;
    text := ps.PrintBitmap();
    Render.RowsLength(ps.oddBitmap[..], 4);
  }

  /**
   * Pre-sizing does not always avoid growth: Primes(65) allocates one word,
   * but classifying up to 67, which sits in word 1, doubles it.
   */
  method PresizedGrows() returns (words: int)
    ensures words == 2
  {
    var ps := new Primes.WithCapacity(65);
    assert ps.currentPrime == 67;
    assert Row(67) == 1;
    words := ps.oddBitmap.Length;
  }

  /** With capacity 1 or 2, 3 is recorded at construction and nextPrime answers 3 first. */
  method SmallCapacity(capacity: int) returns (first: int)
    requires capacity == 1 || capacity == 2
    ensures first == 3
  {
    SmallPrimes();
    var ps := new Primes.WithCapacity(capacity);
    first := ps.NextPrime();
    LeastReported(1, first, 3);
  }

  /** isPrime reads 193, a prime, as not prime. */
  method SignBitMiss() returns (r: bool)
    ensures IsPrimeMath(193) && !r
  {
    Prime193();
    var ps := new Primes();
    r := ps.IsPrime(193);
  }

  /** Asking isPrime twice for the same n gives the same answer. */
  method IsPrimeTwice(ps: Primes, n: int) returns (first: bool, second: bool)
    requires ps.Valid() && n <= MaxInt - 1
    modifies ps, ps.oddBitmap
    ensures first == second
  {
    first := ps.IsPrime(n);
    second := ps.IsPrime(n);
  }

  /**
   * Past the bootstrap, successive answers of nextPrime strictly increase,
   * given two reported numbers ahead of the cursor for the two searches.
   */
  method Successive(ps: Primes) returns (first: int, second: int)
    requires ps.Valid() && ps.currentPrime >= 5
    requires exists q, q' :: ps.currentPrime <= q < q' <= MaxInt - 2 && Reported(q) && Reported(q')
    modifies ps, ps.oddBitmap
    ensures first < second
  {
    ghost var q, q' :| ps.currentPrime <= q < q' <= MaxInt - 2 && Reported(q) && Reported(q');
    PrimeIsOdd(q);
    PrimeIsOdd(q');
    first := ps.NextPrime();
    OddGap(q, q');
    second := ps.NextPrime();
  }
}
