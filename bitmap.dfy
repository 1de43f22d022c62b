/**
 * The bit-packed layout of the sieve: odd n >= 3 lives at bit Col(n) of word
 * Row(n) of an array of 32-bit words, words are updated with Java's
 * `word | ((prime ? 1 : 0) << col)` and read back with Java's signed test
 * `(word & (1 << col)) > 0`.
 */
module Bitmap {

  /** Width of one bitmap word (Java's INT_SIZE). */
  const IntSize := 32

  /** Largest Java int. */
  const MaxInt := 0x7fff_ffff

  /** Position of odd n >= 3 among the odd numbers from 3 on: 3 is position 0. */
  function Index(n: int): (i: nat)
    requires n >= 3
    ensures n % 2 == 1 ==> 2 * i + 3 == n
  {
    (n - 3) / 2
  }

  /** The word that holds n: the one whose 32 positions include Index(n). */
  function Row(n: int): (r: nat)
    requires n >= 3
    ensures r * IntSize <= Index(n) < r * IntSize + IntSize
  {
    Index(n) / IntSize
  }

  /** The bit of word Row(n) that holds n: Index(n) is word Row(n), bit Col(n). */
  function Col(n: int): (c: nat)
    requires n >= 3
    ensures c < IntSize && Row(n) * IntSize + c == Index(n)
  {
    Index(n) % IntSize
  }

  /** The odd number stored at bit col of word row: the inverse of (Row, Col). */
  function OddAt(row: nat, col: nat): (n: int)
    requires col < IntSize
    ensures n >= 3 && n % 2 == 1
    ensures Row(n) == row && Col(n) == col
  {
    2 * (IntSize * row + col) + 3
  }

  /** (Row, Col) loses nothing: every odd n >= 3 is recovered from its position. */
  lemma PositionDeterminesNumber(n: int)
    requires n >= 3 && n % 2 == 1
    ensures OddAt(Row(n), Col(n)) == n
  {
  }

  /** Two odd numbers at the same position are equal. */
  lemma PositionInjective(n: int, k: int)
    requires n >= 3 && n % 2 == 1 && k >= 3 && k % 2 == 1
    requires Row(n) == Row(k) && Col(n) == Col(k)
    ensures n == k
  {
    PositionDeterminesNumber(n);
    PositionDeterminesNumber(k);
  }

  /** Bit 31, the sign bit of a Java int, holds exactly the odd numbers that are 1 modulo 64. */
  lemma TopColumn(n: int)
    requires n >= 3 && n % 2 == 1
    ensures Col(n) == IntSize - 1 <==> n % 64 == 1
  {
  }

  /** A number further on never sits in an earlier word. */
  lemma RowMonotone(n: int, k: int)
    requires 3 <= n <= k
    ensures Row(n) <= Row(k)
  {
  }

  /**
   * Col(n) as a shift distance. Java takes an int shift distance modulo 32,
   * that is, its low five bits, which is what a bv5 holds.
   */
  function Shift(n: int): bv5
    requires n >= 3
  {
    ColumnBits(Col(n))
  }

  /**
   * The column c < 32 as a bv5, counted up one position at a time, so that
   * reasoning about the bits of a word never has to convert an integer.
   */
  function ColumnBits(c: nat): bv5
    requires c < IntSize
  {
    if c == 0 then 0 else ColumnBits(c - 1) + 1
  }

  /** ColumnBits loses nothing: the bv5 holds the column itself. */
  lemma {:induction false} ColumnBitsValue(c: nat)
    requires c < IntSize
    ensures ColumnBits(c) as int == c
  {
    if c > 0 {
      ColumnBitsValue(c - 1);
    }
  }

  /** Two odd numbers share a word and a bit exactly when they are equal. */
  lemma SamePosition(n: int, k: int)
    requires n >= 3 && n % 2 == 1 && k >= 3 && k % 2 == 1
    ensures Row(n) == Row(k) && Shift(n) == Shift(k) <==> n == k
  {
    ColumnBitsValue(Col(n));
    ColumnBitsValue(Col(k));
    if Row(n) == Row(k) && Shift(n) == Shift(k) {
      PositionInjective(n, k);
    }
  }

  /** The shift distance of n is 31 exactly when n sits in the sign bit. */
  lemma SignShift(n: int)
    requires n >= 3 && n % 2 == 1
    ensures Shift(n) == 31 <==> n % 64 == 1
  {
    ColumnBitsValue(Col(n));
    TopColumn(n);
  }

  /** The word with only bit c set (Java's `1 << col`). */
  function Mask(c: bv5): bv32 {
    1 << c
  }

  /** Bit c of w is set. */
  predicate BitSet(w: bv32, c: bv5) {
    w & Mask(c) != 0
  }

  /**
   * Java's `(w & (1 << col)) > 0`: the masked word, read as a two's-complement
   * int, is positive, that is, it is nonzero and its sign bit is clear.
   */
  predicate SignedBitTest(w: bv32, c: bv5) {
    Positive(w & Mask(c))
  }

  /** Java's `x > 0` on a 32-bit int: nonzero with the sign bit clear. */
  predicate Positive(x: bv32) {
    x != 0 && x & 0x8000_0000 == 0
  }

  /**
   * The signed test reads every bit correctly except bit 31: there the masked
   * value is negative, so the bit always reads as clear.
   */
  lemma SignedBitTestMissesSignBit(w: bv32, c: bv5)
    ensures SignedBitTest(w, c) <==> BitSet(w, c) && c != 31
  {
  }

  /** The zero word has no bit set. */
  lemma ZeroHasNoBits(c: bv5)
    ensures !BitSet(0, c)
  {
  }

  /** Java's `prime ? 1 : 0`. */
  function BitOf(prime: bool): (b: bv32)
    ensures b == 0 || b == 1
  {
    if prime then 1 else 0
  }

  /** OR-ing `b << c` into a word sets bit c when b is 1 and clears nothing. */
  lemma OrShiftBit(w: bv32, b: bv32, c: bv5, c': bv5)
    requires b == 0 || b == 1
    ensures BitSet(w | (b << c), c') <==> BitSet(w, c') || (c == c' && b == 1)
  {
    assert (w | (b << c)) & Mask(c') == (w & Mask(c')) | ((b << c) & Mask(c'));
    if b == 1 {
      MasksMeet(c, c');
    }
  }

  /** Two single-bit masks overlap exactly when they are the same bit. */
  lemma MasksMeet(c: bv5, c': bv5)
    ensures Mask(c) & Mask(c') != 0 <==> c == c'
  {
  }

  /** Word row of the bitmap, where a word past the end reads as zero. */
  function WordBefore(words: seq<bv32>, row: nat): bv32 {
    if row < |words| then words[row] else 0
  }

  /** Bit c of word row is set. */
  predicate BitAt(words: seq<bv32>, row: nat, c: bv5) {
    BitSet(WordBefore(words, row), c)
  }

  /** Odd k >= 3 is marked in words: its bit is set. */
  predicate Marked(words: seq<bv32>, k: int) {
    k >= 3 && k % 2 == 1 && BitAt(words, Row(k), Shift(k))
  }

  /**
   * The words before the OR of addNumber: unchanged when word row is inside
   * them, otherwise doubled in length with the new words zero.
   */
  function Widen(words: seq<bv32>, row: nat): (wide: seq<bv32>)
    requires row < 2 * |words|
    ensures row < |wide|
  {
    var size := if row < |words| then |words| else 2 * |words|;
    seq(size, i requires 0 <= i < size => WordBefore(words, i))
  }

  /**
   * The word-level step of addNumber: the words are widened as needed, then
   * `(prime ? 1 : 0) << c` is OR-ed into word row.
   */
  function Put(words: seq<bv32>, row: nat, c: bv5, prime: bool): seq<bv32>
    requires row < 2 * |words|
  {
    var wide := Widen(words, row);
    wide[row := wide[row] | (BitOf(prime) << c)]
  }

  /** The words after Java's addNumber(n, prime). */
  function Record(words: seq<bv32>, n: int, prime: bool): seq<bv32>
    requires n >= 3 && n % 2 == 1 && Row(n) < 2 * |words|
  {
    Put(words, Row(n), Shift(n), prime)
  }

  /**
   * Record as addNumber computes it: word Row(n) of the widened words with
   * `(prime ? 1 : 0) << Col(n)` OR-ed in, all else as widened.
   */
  lemma RecordAsUpdate(words: seq<bv32>, n: int, prime: bool, row: nat, col: nat)
    requires n >= 3 && n % 2 == 1 && Row(n) < 2 * |words|
    requires row == Row(n) && col == Col(n)
    ensures Record(words, n, prime) ==
            Widen(words, row)[row := Widen(words, row)[row] | (BitOf(prime) << ColumnBits(col))]
  {
    assert Record(words, n, prime) == Put(words, row, ColumnBits(col), prime);
    PutAsUpdate(words, row, ColumnBits(col), prime);
  }

  /** Put written out: the widened words with one word replaced. */
  lemma PutAsUpdate(words: seq<bv32>, row: nat, c: bv5, prime: bool)
    requires row < 2 * |words|
    ensures Put(words, row, c, prime) == Widen(words, row)[row := Widen(words, row)[row] | (BitOf(prime) << c)]
  {
  }

  /**
   * Growth: the words keep their length when word row is inside them and
   * otherwise double; every other word keeps its old value, and the added
   * words are zero.
   */
  lemma PutWords(words: seq<bv32>, row: nat, c: bv5, prime: bool)
    requires row < 2 * |words|
    ensures |Put(words, row, c, prime)| == if row < |words| then |words| else 2 * |words|
    ensures forall i :: 0 <= i < |Put(words, row, c, prime)| && i != row ==>
              Put(words, row, c, prime)[i] == WordBefore(words, i)
  {
  }

  /** Word row after Put: the old word (zero past the end) with `(prime ? 1 : 0) << c` OR-ed in. */
  lemma PutWord(words: seq<bv32>, row: nat, c: bv5, prime: bool)
    requires row < 2 * |words|
    ensures WordBefore(Put(words, row, c, prime), row) == WordBefore(words, row) | (BitOf(prime) << c)
  {
  }

  /** Every other word is untouched by Put (a word past the end still reads as zero). */
  lemma PutOtherWord(words: seq<bv32>, row: nat, c: bv5, prime: bool, row': nat)
    requires row < 2 * |words| && row' != row
    ensures WordBefore(Put(words, row, c, prime), row') == WordBefore(words, row')
  {
  }

  /** After Put, a bit is set exactly when it was set before or it is the bit put, with prime true. */
  lemma PutBit(words: seq<bv32>, row: nat, c: bv5, prime: bool, row': nat, c': bv5)
    requires row < 2 * |words|
    ensures BitAt(Put(words, row, c, prime), row', c') <==>
              BitAt(words, row', c') || (row' == row && c' == c && prime)
  {
    if row' == row {
      PutBitSameRow(words, row, c, prime, c');
      SameRowBit(Put(words, row, c, prime), row, row', c');
      SameRowBit(words, row, row', c');
    } else {
      PutOtherWord(words, row, c, prime, row');
    }
  }

  /** PutBit for a bit of word row itself. */
  lemma PutBitSameRow(words: seq<bv32>, row: nat, c: bv5, prime: bool, c': bv5)
    requires row < 2 * |words|
    ensures BitAt(Put(words, row, c, prime), row, c') <==> BitAt(words, row, c') || (c' == c && prime)
  {
    PutWord(words, row, c, prime);
    OrPrimeBit(WordBefore(words, row), prime, c, c');
  }

  /** OrShiftBit for the bit `prime ? 1 : 0`. */
  lemma OrPrimeBit(w: bv32, prime: bool, c: bv5, c': bv5)
    ensures BitSet(w | (BitOf(prime) << c), c') <==> BitSet(w, c') || (c == c' && prime)
  {
    OrShiftBit(w, BitOf(prime), c, c');
  }

  /** Equal rows name the same bit. */
  lemma SameRowBit(words: seq<bv32>, row: nat, row': nat, c: bv5)
    requires row == row'
    ensures BitAt(words, row', c) == BitAt(words, row, c)
  {
  }

  /**
   * Update: after recording n, exactly the numbers marked before are marked,
   * plus n itself when it is prime. No mark is ever cleared.
   */
  lemma RecordMarks(words: seq<bv32>, n: int, prime: bool, k: int)
    requires n >= 3 && n % 2 == 1 && Row(n) < 2 * |words|
    ensures Marked(Record(words, n, prime), k) <==> Marked(words, k) || (k == n && prime)
  {
    if k >= 3 && k % 2 == 1 {
      PutBit(words, Row(n), Shift(n), prime, Row(k), Shift(k));
      SamePosition(n, k);
    }
  }

  /**
   * The effect of recording n, on the words after: they are no shorter, they
   * reach n's word, and their marks are the old marks plus n when prime.
   */
  lemma RecordEffect(words: seq<bv32>, after: seq<bv32>, n: int, prime: bool)
    requires n >= 3 && n % 2 == 1 && Row(n) < 2 * |words|
    requires after == Record(words, n, prime)
    ensures |words| <= |after| && Row(n) < |after|
    ensures forall k :: Marked(after, k) <==> Marked(words, k) || (k == n && prime)
  {
    PutWords(words, Row(n), Shift(n), prime);
    forall k
      ensures Marked(after, k) <==> Marked(words, k) || (k == n && prime)
    {
      RecordMarks(words, n, prime, k);
    }
  }

  /**
   * Java's read of n's bit: the signed test on n's word sees n's mark, except
   * for the numbers in the sign bit, which always read as not marked.
   */
  lemma SignedRead(words: seq<bv32>, n: int)
    requires n >= 3 && n % 2 == 1
    ensures SignedBitTest(WordBefore(words, Row(n)), Shift(n)) <==> Marked(words, n) && n % 64 != 1
  {
    SignedBitTestMissesSignBit(WordBefore(words, Row(n)), Shift(n));
    SignShift(n);
  }

  /** SignedRead at the word and column that isPrime computes, inside the words. */
  lemma ReadAt(words: seq<bv32>, n: int, row: nat, col: nat)
    requires n >= 3 && n % 2 == 1 && row == Row(n) && col == Col(n) && row < |words|
    ensures SignedBitTest(words[row], ColumnBits(col)) <==> Marked(words, n) && n % 64 != 1
  {
    assert words[row] == WordBefore(words, Row(n));
    SignedRead(words, n);
  }
  /**
   * The length an array of len words reaches when addNumber is called on
   * consecutive odd numbers up to one in word row: it doubles each time the
   * next word is past its end, so it is the least len * 2^j above row.
   */
  function Grown(len: nat, row: nat): (g: nat)
    requires len >= 1
    ensures row < g && len <= g
    decreases row + 1 - len
  {
    if row < len then len else Grown(2 * len, row)
  }

  /**
   * One more word: when the array already has Grown(len, row) words and the
   * next number sits in word row' <= that length, one doubling (exactly when
   * row' is past the end) gives Grown(len, row').
   */
  lemma {:induction false} GrownNext(len: nat, row: nat, row': nat)
    requires len >= 1 && row <= row' <= Grown(len, row)
    ensures Grown(len, row') == if row' < Grown(len, row) then Grown(len, row) else 2 * Grown(len, row)
    decreases row + 1 - len
  {
    if row >= len {
      GrownNext(2 * len, row, row');
    } else if row' == len {
      assert Grown(2 * len, row') == 2 * len;
    }
  }

  /** Growing in two stages, up to row and then up to row' >= row, is growing up to row'. */
  lemma {:induction false} GrownTwice(len: nat, row: nat, row': nat)
    requires len >= 1 && row <= row'
    ensures Grown(Grown(len, row), row') == Grown(len, row')
    decreases row + 1 - len
  {
    if row >= len {
      GrownTwice(2 * len, row, row');
    }
  }
}
