/**
 * The Primes class: a growable, bit-packed cache of primality for the odd
 * numbers, filled in order by trial division up to a cursor.
 */
module Sieve {
  import opened Primality
  import opened Bitmap
  import opened Render

  /** Odd k >= 3 is in the bitmap as prime: it is prime and not the skipped 3. */
  ghost predicate Listed(k: int, skipped3: bool) {
    IsPrimeMath(k) && !(k == 3 && skipped3)
  }

  /**
   * What isPrime reads for a classified odd number other than a skipped 3:
   * it is prime and does not sit in the sign bit of its word.
   */
  ghost predicate Reported(k: int) {
    IsPrimeMath(k) && k % 64 != 1
  }

  /** No odd number in [lo, hi) is reported. */
  ghost predicate NoneReported(lo: int, hi: int) {
    forall m :: lo <= m < hi && m % 2 == 1 ==> !Reported(m)
  }

  /** An odd number n that is not reported extends a reported-free range by one step. */
  lemma NoneReportedStep(lo: int, n: int)
    requires NoneReported(lo, n) && n % 2 == 1 && !Reported(n)
    ensures NoneReported(lo, n + 2)
  {
    forall m | lo <= m < n + 2 && m % 2 == 1
      ensures !Reported(m)
    {
      if m > n {
        OddGap(n, m);
      }
    }
  }

  /**
   * The first reported odd number from start is unique: two reported odd
   * numbers with none reported before them, from the same start, are equal.
   */
  lemma LeastReported(start: int, p: int, r: int)
    requires start <= p && p % 2 == 1 && Reported(p) && NoneReported(start, p)
    requires start <= r && r % 2 == 1 && Reported(r) && NoneReported(start, r)
    ensures p == r
  {
  }

  /**
   * The state invariant of a Primes object, stated on its values: the cursor
   * (currentPrime) is odd and at least 1, the words cover the cursor's word,
   * every odd k with 3 <= k <= cursor is marked exactly when it is prime,
   * except 3 when the first nextPrime skipped it (ghost flag skipped3), and
   * nothing from 5 on beyond the cursor is marked.
   */
  ghost predicate Classified(words: seq<bv32>, cursor: int, skipped3: bool) {
    && cursor % 2 == 1 && 1 <= cursor <= MaxInt
    && |words| >= 1
    && (cursor >= 3 ==> Row(cursor) < |words|)
    && (cursor < 3 ==> !skipped3)
    && (forall k :: 3 <= k <= cursor && k % 2 == 1 ==> (Marked(words, k) <==> Listed(k, skipped3)))
    && (forall k :: k > cursor && k >= 5 ==> !Marked(words, k))
  }

  /**
   * Growth: from a valid state, the next odd number is one addNumber accepts,
   * and one doubling at most is needed to reach its word.
   */
  lemma NextRowFits(words: seq<bv32>, cursor: int, skipped3: bool)
    requires Classified(words, cursor, skipped3) && cursor <= MaxInt - 2
    ensures 3 <= cursor + 2 <= MaxInt && (cursor + 2) % 2 == 1
    ensures Row(cursor + 2) < 2 * |words|
  {
  }

  /**
   * One step of isPrime's filling loop keeps the invariant: when the marks
   * change by exactly the mark of cursor + 2, set when it is prime, the
   * invariant holds again with the cursor at cursor + 2.
   */
  lemma Step(words: seq<bv32>, after: seq<bv32>, cursor: int, skipped3: bool, prime: bool)
    requires Classified(words, cursor, skipped3) && cursor <= MaxInt - 2
    requires |words| <= |after| && Row(cursor + 2) < |after|
    requires prime == IsPrimeMath(cursor + 2)
    requires forall k :: Marked(after, k) <==> Marked(words, k) || (k == cursor + 2 && prime)
    ensures Classified(after, cursor + 2, skipped3)
  {
    forall k | 3 <= k <= cursor + 2 && k % 2 == 1
      ensures Marked(after, k) <==> Listed(k, skipped3)
    {
      StepAt(words, after, cursor, skipped3, prime, k);
    }
    forall k | k > cursor + 2 && k >= 5
      ensures !Marked(after, k)
    {
      StepAt(words, after, cursor, skipped3, prime, k);
    }
  }

  /** Step for one number k. */
  lemma StepAt(words: seq<bv32>, after: seq<bv32>, cursor: int, skipped3: bool, prime: bool, k: int)
    requires Classified(words, cursor, skipped3) && cursor <= MaxInt - 2
    requires prime == IsPrimeMath(cursor + 2)
    requires forall k :: Marked(after, k) <==> Marked(words, k) || (k == cursor + 2 && prime)
    ensures 3 <= k <= cursor + 2 && k % 2 == 1 ==> (Marked(after, k) <==> Listed(k, skipped3))
    ensures k > cursor + 2 && k >= 5 ==> !Marked(after, k)
  {
    if k == 3 && cursor == 1 {
      assert IsPrimeMath(3);
    }
  }

  /** Java's int division, which truncates toward zero. */
  function JavaDiv(a: int, b: int): (q: int)
    requires b > 0
    ensures a >= 0 ==> 0 <= a - q * b < b
    ensures a < 0 ==> -b < a - q * b <= 0
  {
    if a >= 0 then a / b else -((-a) / b)
  }

  /** The word of the cursor, or word 0 while nothing has been classified. */
  function CursorRow(cursor: int): nat {
    if cursor < 3 then 0 else Row(cursor)
  }

  /** Classifying the next odd number moves on by at most one word. */
  lemma RowStep(cursor: int)
    requires cursor >= 1 && cursor % 2 == 1
    ensures CursorRow(cursor) <= Row(cursor + 2) <= CursorRow(cursor) + 1
  {
  }

  /**
   * The length of the array across one pass of isPrime's filling loop: if it
   * is Grown(len0, CursorRow(cursor)) before, the doubling of addNumber makes
   * it Grown(len0, Row(cursor + 2)) after.
   */
  lemma GrowthStep(len0: nat, cursor: int, len: nat)
    requires len0 >= 1 && cursor >= 1 && cursor % 2 == 1 && len == Grown(len0, CursorRow(cursor))
    ensures Grown(len0, Row(cursor + 2)) == if Row(cursor + 2) < len then len else 2 * len
  {
    RowStep(cursor);
    GrownNext(len0, CursorRow(cursor), Row(cursor + 2));
  }

  /** Growth across a call that moves the cursor from c to c' >= c composes. */
  lemma GrowthAcross(len0: nat, c: int, c': int)
    requires len0 >= 1 && c <= c'
    ensures Grown(Grown(len0, CursorRow(c)), CursorRow(c')) == Grown(len0, CursorRow(c'))
  {
    if c >= 3 {
      RowMonotone(c, c');
    }
    GrownTwice(len0, CursorRow(c), CursorRow(c'));
  }

  class Primes {
    /**
     * The cursor (Java's currentPrime): every odd number up to it has been
     * classified, except 3 right after the first nextPrime, which moves the
     * cursor to 3 without classifying it.
     */
    var currentPrime: int
    /**
     * Bit Col(n) of word Row(n) holds odd n >= 3: for n up to the cursor it
     * is set exactly when n is prime, except a skipped 3, whose bit is clear.
     */
    var oddBitmap: array<bv32>
    /** The first nextPrime moved the cursor past 3 without recording it. */
    ghost var skipped3: bool

    ghost predicate Valid()
      reads this, oddBitmap
    {
      Classified(oddBitmap[..], currentPrime, skipped3)
    }

    /** A fresh cache: one zero word and the cursor at 1. */
    constructor()
      ensures Valid() && fresh(oddBitmap)
      ensures currentPrime == 1 && !skipped3
      ensures oddBitmap[..] == [0]
    {
      currentPrime := 1;
      oddBitmap := new bv32[1](_ => 0);
      skipped3 := false;
    }

    /**
     * Primes(capacity): allocates ((capacity - 3) / 64) + 1 words, Java's
     * truncating division, then classifies every odd number up to capacity
     * through isPrime(capacity).
     */
    constructor WithCapacity(capacity: int)
      requires -60 <= capacity <= MaxInt - 1
      ensures Valid() && fresh(oddBitmap) && !skipped3
      ensures oddBitmap.Length == Grown(JavaDiv(capacity - 3, 64) + 1, CursorRow(currentPrime))
      ensures capacity >= 1 ==> capacity < currentPrime <= capacity + 2
      ensures capacity < 1 ==> currentPrime == 1
    {
      currentPrime := 1;
      oddBitmap := new bv32[JavaDiv(capacity - 3, 64) + 1](_ => 0);
      skipped3 := false;
      new;
      var _ := IsPrime(capacity);
    }

    /**
     * nextPrime. From the cursor 1 it answers 2 and moves the cursor to 3
     * without recording 3. From the cursor 3 it first moves the cursor back
     * to 1, so that 3 is recorded and answered next. Then it searches from
     * the cursor: the answer is the smallest odd number from the (reset)
     * cursor on that is prime and not in a sign bit. The search stops only at
     * such a number, so the caller must know one within the int range.
     */
    method NextPrime() returns (p: int)
      requires Valid()
      requires currentPrime >= 5 ==> exists q :: currentPrime <= q <= MaxInt - 2 && Reported(q)
      modifies this, oddBitmap
      ensures Valid() && currentPrime > old(currentPrime)
      ensures oddBitmap == old(oddBitmap) || fresh(oddBitmap)
      ensures oddBitmap.Length == Grown(old(oddBitmap.Length), CursorRow(currentPrime))
      ensures old(currentPrime) == 3 ==> !skipped3
      ensures old(currentPrime) >= 5 ==> skipped3 == old(skipped3)
      ensures old(currentPrime) == 1 ==> p == 2 && currentPrime == 3
      ensures old(currentPrime) == 1 ==>
                oddBitmap == old(oddBitmap) && oddBitmap[..] == old(oddBitmap[..]) &&
                skipped3 == !Marked(oddBitmap[..], 3)
      ensures old(currentPrime) != 1 ==>
                var start := if old(currentPrime) == 3 then 1 else old(currentPrime);
                && start <= p && p % 2 == 1 && Reported(p) && currentPrime == p + 2
                && NoneReported(start, p)
    {
      if currentPrime < 2 {
        assert IsPrimeMath(3);
        currentPrime := currentPrime + 2;
        skipped3 := !Marked(oddBitmap[..], 3);
        return 2;
      } else if currentPrime == 3 {
        currentPrime := currentPrime - 2;
        skipped3 := false;
        assert IsPrimeMath(3);
        assert Reported(3);
      } else {
        ghost var q :| currentPrime <= q <= MaxInt - 2 && Reported(q);
        PrimeIsOdd(q);
      }
      p := Search();
    }

    /**
     * The search loop of nextPrime: isPrime is called on the cursor until it
     * reads true. Each call classifies the cursor and moves it on by 2, so the
     * answer is the cursor minus 2: the first odd number from the cursor on
     * that is reported. The known reported q bounds the search.
     */
    method Search() returns (p: int)
      requires Valid() && (!skipped3 || currentPrime >= 5)
      requires exists q :: currentPrime <= q <= MaxInt - 2 && q % 2 == 1 && Reported(q)
      modifies this, oddBitmap
      ensures Valid() && skipped3 == old(skipped3)
      ensures oddBitmap == old(oddBitmap) || fresh(oddBitmap)
      ensures oddBitmap.Length == Grown(old(oddBitmap.Length), CursorRow(currentPrime))
      ensures old(currentPrime) <= p && Reported(p) && currentPrime == p + 2
      ensures NoneReported(old(currentPrime), p)
    {
      ghost var start := currentPrime;
      ghost var len0 := oddBitmap.Length;
      ghost var q :| start <= q <= MaxInt - 2 && q % 2 == 1 && Reported(q);
      var found := false;
      while !found
        invariant Valid() && skipped3 == old(skipped3) && (!skipped3 || start >= 5)
        invariant oddBitmap == old(oddBitmap) || fresh(oddBitmap)
        invariant oddBitmap.Length == Grown(len0, CursorRow(currentPrime))
        invariant start <= currentPrime
        invariant !found ==> currentPrime <= q && NoneReported(start, currentPrime)
        invariant found ==> start <= currentPrime - 2 && Reported(currentPrime - 2) &&
                            NoneReported(start, currentPrime - 2)
        decreases if found then 0 else q + 2 - currentPrime
      {
        ghost var n := currentPrime;
        found := IsPrime(currentPrime);
        GrowthAcross(len0, n, currentPrime);
        OddGap(n, currentPrime);
        if !found {
          NoneReportedStep(start, n);
          OddGap(n, q);
        }
      }
      return currentPrime - 2;
    }

    /**
     * addNumber: records whether odd n >= 3 is prime, doubling the array first
     * when n's word is past its end. Callers pass consecutive odd numbers, so
     * one doubling always reaches n's word.
     */
    method AddNumber(n: int, prime: bool)
      requires n >= 3 && n % 2 == 1 && n <= MaxInt
      requires Row(n) < 2 * oddBitmap.Length
      modifies this, oddBitmap
      ensures oddBitmap[..] == Record(old(oddBitmap[..]), n, prime)
      ensures oddBitmap == old(oddBitmap) || fresh(oddBitmap)
      ensures currentPrime == old(currentPrime) && skipped3 == old(skipped3)
      ensures oddBitmap.Length == if Row(n) < old(oddBitmap.Length) then old(oddBitmap.Length) else 2 * old(oddBitmap.Length)
      ensures Row(n) < oddBitmap.Length
      ensures forall k :: Marked(oddBitmap[..], k) <==> Marked(old(oddBitmap[..]), k) || (k == n && prime)
    {
      var oddIndex := (n - 3) / 2;
      var row := oddIndex / IntSize;
      var col := oddIndex % IntSize;
      if row >= oddBitmap.Length {
        oddBitmap := Doubled(oddBitmap);
      }
      assert oddBitmap[..] == Widen(old(oddBitmap[..]), row);
      OrInto(oddBitmap, row, col, prime);
      RecordAsUpdate(old(oddBitmap[..]), n, prime, row, col);
      RecordEffect(old(oddBitmap[..]), oddBitmap[..], n, prime);
    }

    /**
     * The update step of addNumber: `(prime ? 1 : 0) << col` is OR-ed into
     * word row, and no other word changes.
     */
    static method OrInto(bitmap: array<bv32>, row: nat, col: nat, prime: bool)
      requires row < bitmap.Length && col < IntSize
      modifies bitmap
      ensures bitmap[..] == old(bitmap[..])[row := old(bitmap[row]) | (BitOf(prime) << ColumnBits(col))]
    {
      var i := BitOf(prime);
      i := i << ColumnBits(col);
      bitmap[row] := bitmap[row] | i;
    }

    /**
     * The growth step of addNumber: a fresh array of twice the length, the
     * old words copied to its front and the rest zero.
     */
    static method Doubled(oddBitmap: array<bv32>) returns (newBitmap: array<bv32>)
      requires oddBitmap.Length >= 1
      ensures fresh(newBitmap)
      ensures newBitmap.Length == 2 * oddBitmap.Length
      ensures newBitmap[..] == Widen(oddBitmap[..], oddBitmap.Length)
    {
      newBitmap := new bv32[oddBitmap.Length * 2];
      var j := 0;
      while j < oddBitmap.Length
        modifies newBitmap
        invariant 0 <= j <= oddBitmap.Length
        invariant forall m :: 0 <= m < j ==> newBitmap[m] == oddBitmap[m]
      {
        newBitmap[j] := oddBitmap[j];
        j := j + 1;
      }
      var i := oddBitmap.Length;
      while i < newBitmap.Length
        modifies newBitmap
        invariant oddBitmap.Length <= i <= newBitmap.Length
        invariant forall m :: 0 <= m < oddBitmap.Length ==> newBitmap[m] == oddBitmap[m]
        invariant forall m :: oddBitmap.Length <= m < i ==> newBitmap[m] == 0
      {
        newBitmap[i] := 0;
        i := i + 1;
      }
    }

    /**
     * The body of isPrime's filling loop: the cursor moves to the next odd
     * number, which is recorded with its trial-division verdict.
     */
    method ClassifyNext()
      requires Valid() && currentPrime <= MaxInt - 2
      modifies this, oddBitmap
      ensures Valid() && skipped3 == old(skipped3)
      ensures currentPrime == old(currentPrime) + 2
      ensures oddBitmap == old(oddBitmap) || fresh(oddBitmap)
      ensures oddBitmap.Length ==
                if Row(currentPrime) < old(oddBitmap.Length) then old(oddBitmap.Length) else 2 * old(oddBitmap.Length)
    {
      ghost var words := oddBitmap[..];
      NextRowFits(words, currentPrime, skipped3);
      currentPrime := currentPrime + 2;
      var prime := CalculatePrime(currentPrime);
      AddNumber(currentPrime, prime);
      Step(words, oddBitmap[..], currentPrime - 2, skipped3, prime);
    }

    /**
     * The filling loop of isPrime: classifies the odd numbers after the
     * cursor until the cursor is past n. The array then has the length the
     * doublings of addNumber give.
     */
    method Fill(n: int)
      requires Valid() && n <= MaxInt - 1
      modifies this, oddBitmap
      ensures Valid() && skipped3 == old(skipped3)
      ensures oddBitmap == old(oddBitmap) || fresh(oddBitmap)
      ensures oddBitmap.Length == Grown(old(oddBitmap.Length), CursorRow(currentPrime))
      ensures old(currentPrime) <= currentPrime && n < currentPrime
      ensures old(currentPrime) <= n ==> currentPrime <= n + 2
      ensures old(currentPrime) > n ==>
                currentPrime == old(currentPrime) && oddBitmap == old(oddBitmap) &&
                oddBitmap[..] == old(oddBitmap[..])
    {
      ghost var start := currentPrime;
      ghost var len0 := oddBitmap.Length;
      while currentPrime <= n
        invariant Valid() && skipped3 == old(skipped3)
        invariant oddBitmap == old(oddBitmap) || fresh(oddBitmap)
        invariant oddBitmap.Length == Grown(len0, CursorRow(currentPrime))
        invariant start <= currentPrime && (start <= n ==> currentPrime <= n + 2)
        invariant start > n ==> currentPrime == start && oddBitmap == old(oddBitmap) &&
                                oddBitmap[..] == old(oddBitmap[..])
        decreases n - currentPrime
      {
        GrowthStep(len0, currentPrime, oddBitmap.Length);
        ClassifyNext();
      }
    }

    /**
     * isPrime: first classifies the odd numbers after the cursor up to the
     * first odd number above n (nothing happens when the cursor is already
     * past n), then answers from the bitmap with Java's signed bit test.
     * The answer is primality, except that it is false for the numbers in
     * the sign bit (n % 64 == 1) and for a 3 that the first nextPrime skipped.
     */
    method IsPrime(n: int) returns (r: bool)
      requires Valid() && n <= MaxInt - 1
      modifies this, oddBitmap
      ensures Valid() && skipped3 == old(skipped3)
      ensures oddBitmap == old(oddBitmap) || fresh(oddBitmap)
      ensures oddBitmap.Length == Grown(old(oddBitmap.Length), CursorRow(currentPrime))
      ensures old(currentPrime) <= currentPrime
      ensures old(currentPrime) <= n ==> n < currentPrime <= n + 2
      ensures old(currentPrime) > n ==>
                currentPrime == old(currentPrime) && oddBitmap == old(oddBitmap) &&
                oddBitmap[..] == old(oddBitmap[..])
      ensures r <==> IsPrimeMath(n) && n % 64 != 1 && !(n == 3 && skipped3)
    {
      Fill(n);
      if n < 2 {
        return false;
      }
      if n == 2 {
        assert IsPrimeMath(2);
        return true;
      }
      if n % 2 == 0 {
        return false;
      }
      var oddIndex := (n - 3) / 2;
      var row := oddIndex / IntSize;
      var col := oddIndex % IntSize;
      RowMonotone(n, currentPrime);
      var bitmap := oddBitmap;
      r := SignedBitTest(bitmap[row], ColumnBits(col));
      ReadAt(bitmap[..], n, row, col);
    }

    /**
     * printBitmap, returning the text it prints: the header, then for each
     * word up to maxRow, the word of the next odd number after the cursor,
     * as far as the array reaches, its line of bits followed by a newline and
     * a tab, and a final newline.
     */
    method PrintBitmap() returns (text: string)
      requires currentPrime >= 1
      ensures text == BitmapText(oddBitmap[..], currentPrime)
    {
      var maxRow := ((currentPrime - 1) / 2) / IntSize;
      text := Header;
      var row := 0;
      while row < oddBitmap.Length && row <= maxRow
        invariant 0 <= row <= oddBitmap.Length && row <= maxRow + 1
        invariant text == Header + Rows(oddBitmap[..], row)
      {
        var line := RowLine(oddBitmap[row]);
        RowsStep(oddBitmap[..], row);
        text := text + line + "\n\t";
        row := row + 1;
      }
      text := text + "\n";
    }

    /**
     * calculatePrime: trial division by the odd numbers from 3 up to, not
     * including, n / 2.
     */
    static method CalculatePrime(n: int) returns (prime: bool)
      ensures prime == IsPrimeMath(n)
    {
      if n < 2 {
        return false;
      }
      if n == 2 {
        return true;
      }
      if n % 2 == 0 {
        return false;
      }
      var maxFactor := n / 2;
      var i := 3;
      while i < maxFactor
        invariant 3 <= i && i % 2 == 1
        invariant forall d :: 2 <= d < i ==> n % d != 0
      {
        if n % i == 0 {
          return false;
        }
        OddHasNoEvenDivisor(n, i + 1);
        i := i + 2;
      }
      forall d | i <= d < n
        ensures n % d != 0
      {
        NoDivisorInUpperHalf(n, d);
      }
      return true;
    }
  }

  /**
   * What printBitmap shows of a valid state: every odd k from 5 up to the
   * cursor is listed, and its character is '1' exactly when k is prime and
   * not in a sign bit.
   */
  lemma PrintedPrimes(words: seq<bv32>, cursor: int, skipped3: bool, k: int)
    requires Classified(words, cursor, skipped3) && 5 <= k <= cursor && k % 2 == 1
    ensures Row(k) < RowCount(words, cursor)
    ensures |Header| + Row(k) * LineLength + Col(k) < |BitmapText(words, cursor)|
    ensures BitmapText(words, cursor)[|Header| + Row(k) * LineLength + Col(k)] == '1' <==> Reported(k)
  {
    ListedRow(words, cursor, skipped3, k);
    PrintedMark(words, cursor, k, Row(k), Col(k));
  }

  /** The word of a classified odd k >= 3 is among the words printBitmap lists. */
  lemma ListedRow(words: seq<bv32>, cursor: int, skipped3: bool, k: int)
    requires Classified(words, cursor, skipped3) && 3 <= k <= cursor
    ensures Row(k) < RowCount(words, cursor)
  {
    RowMonotone(k, cursor);
  }
}
