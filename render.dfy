/**
 * The text that printBitmap writes: a header, then one line of 32 characters
 * per word from word 0 up to maxRow, the word of cursor + 2, as far as the
 * array reaches (when cursor % 64 == 1 that last word holds no classified
 * number and prints as zeros), least significant bit first, each bit read
 * with Java's signed test, then a final line break.
 */
module Render {
  import opened Bitmap

  /** The first line of the listing, with the tab that starts the next one. */
  const Header: string := "Bitmap of odd primes (starting at 3):\n\t"

  /** Characters a word takes in the listing: its 32 bits, a newline and a tab. */
  const LineLength := IntSize + 2

  /** The character printed for bit c of word w: '1' when Java's signed test reads it set. */
  function BitChar(w: bv32, c: bv5): char {
    if SignedBitTest(w, c) then '1' else '0'
  }

  /** The 32 characters printed for word w, bit 0 first. */
  function RowText(w: bv32): (line: string)
    ensures |line| == IntSize
  {
    seq(IntSize, i requires 0 <= i < IntSize => BitChar(w, ColumnBits(i)))
  }

  /** Character i of a word's line is the character for bit i. */
  lemma RowTextAt(w: bv32, i: nat)
    requires i < IntSize
    ensures RowText(w)[i] == BitChar(w, ColumnBits(i))
  {
  }

  /** The lines printed for the first count words. */
  function Rows(words: seq<bv32>, count: nat): string
    requires count <= |words|
  {
    if count == 0 then "" else Rows(words, count - 1) + RowText(words[count - 1]) + "\n\t"
  }

  /** One more line: the next word's bits, a newline and a tab. */
  lemma RowsStep(words: seq<bv32>, count: nat)
    requires count < |words|
    ensures Rows(words, count + 1) == Rows(words, count) + RowText(words[count]) + "\n\t"
  {
  }

  /**
   * printBitmap's maxRow, ((cursor - 1) / 2) / 32: the word of cursor + 2,
   * the next odd number to classify. When cursor % 64 == 1 that word holds
   * no classified number yet and is listed as a line of zeros.
   */
  function MaxRow(cursor: int): nat
    requires cursor >= 1
  {
    ((cursor - 1) / 2) / IntSize
  }

  /**
   * How many words printBitmap lists: the words up to MaxRow(cursor) that
   * the array holds.
   */
  function RowCount(words: seq<bv32>, cursor: int): (count: nat)
    requires cursor >= 1
    ensures count <= |words| && count <= MaxRow(cursor) + 1
    ensures count == |words| || count == MaxRow(cursor) + 1
  {
    if |words| <= MaxRow(cursor) then |words| else MaxRow(cursor) + 1
  }

  /** The whole text of printBitmap, the trailing newline of println included. */
  function BitmapText(words: seq<bv32>, cursor: int): string
    requires cursor >= 1
  {
    Header + Rows(words, RowCount(words, cursor)) + "\n"
  }

  /** The character printed for a bit is '1' exactly when the bit is set and not the sign bit. */
  lemma BitCharReads(w: bv32, c: bv5)
    ensures BitChar(w, c) == '1' <==> BitSet(w, c) && c != 31
    ensures BitChar(w, c) == '1' || BitChar(w, c) == '0'
  {
    SignedBitTestMissesSignBit(w, c);
  }

  /** Shifting the one-bit mask of printBitmap's loop moves it to the next bit. */
  lemma MaskStep(c: bv5)
    requires c < 31
    ensures Mask(c) << 1 == Mask(c + 1)
  {
  }

  /**
   * The layout of the lines: count lines of LineLength characters, and bit i
   * of word row at offset row * LineLength + i.
   */
  lemma {:induction false} RowsAt(words: seq<bv32>, count: nat, row: nat, i: nat)
    requires count <= |words| && row < count && i < IntSize
    ensures |Rows(words, count)| == count * LineLength
    ensures row * LineLength + i < |Rows(words, count)|
    ensures Rows(words, count)[row * LineLength + i] == RowText(words[row])[i]
  {
    var before := Rows(words, count - 1);
    assert Rows(words, count) == before + RowText(words[count - 1]) + "\n\t";
    if row < count - 1 {
      RowsAt(words, count - 1, row, i);
    } else {
      RowsLength(words, count - 1);
    }
  }

  /** count lines take count * LineLength characters. */
  lemma {:induction false} RowsLength(words: seq<bv32>, count: nat)
    requires count <= |words|
    ensures |Rows(words, count)| == count * LineLength
  {
    if count > 0 {
      RowsLength(words, count - 1);
    }
  }

  /** Bit i of a listed word row is the character at Header + row * LineLength + i. */
  lemma TextAt(words: seq<bv32>, cursor: int, row: nat, i: nat)
    requires cursor >= 1 && row < RowCount(words, cursor) && i < IntSize
    ensures |Header| + row * LineLength + i < |BitmapText(words, cursor)|
    ensures BitmapText(words, cursor)[|Header| + row * LineLength + i] == RowText(words[row])[i]
  {
    var rows := Rows(words, RowCount(words, cursor));
    RowsAt(words, RowCount(words, cursor), row, i);
    MiddleAt(Header, rows, "\n", row * LineLength + i);
  }

  /** Indexing into the middle part of a concatenation. */
  lemma MiddleAt(a: string, b: string, c: string, j: nat)
    requires j < |b|
    ensures |a| + j < |a + b + c| && (a + b + c)[|a| + j] == b[j]
  {
  }

  /**
   * Where odd n >= 3 appears in the text: when its word row is listed, the
   * character at Header + row * LineLength + Col(n) is '1' exactly when n is
   * marked and not in a sign bit, and '0' otherwise.
   */
  lemma PrintedMark(words: seq<bv32>, cursor: int, n: int, row: nat, col: nat)
    requires cursor >= 1 && n >= 3 && n % 2 == 1 && row == Row(n) && col == Col(n)
    requires row < RowCount(words, cursor)
    ensures |Header| + row * LineLength + col < |BitmapText(words, cursor)|
    ensures var ch := BitmapText(words, cursor)[|Header| + row * LineLength + col];
            (ch == '1' <==> Marked(words, n) && n % 64 != 1) && (ch == '1' || ch == '0')
  {
    TextAt(words, cursor, row, col);
    RowTextAt(words[row], col);
    ReadAt(words, n, row, col);
  }

  /**
   * The bit loop of printBitmap for one word: a one-bit mask starts at bit
   * 0 and is shifted left after each bit; a bit prints as '1' when the
   * masked word, read as a signed int, is positive.
   */
  method RowLine(word: bv32) returns (line: string)
    ensures line == RowText(word)
  {
    line := "";
    var temp: bv32 := 1;
    var i := 0;
    while i < IntSize
      invariant 0 <= i <= IntSize
      invariant i < IntSize ==> temp == Mask(ColumnBits(i))
      invariant line == RowText(word)[..i]
    {
      var prime := Positive(temp & word);
      LineStep(word, i, line, temp);
      line := line + (if prime then "1" else "0");
      if i < IntSize - 1 {
        NextMask(i, temp);
      }
      temp := temp << 1;
      i := i + 1;
    }
  }

  /** One more character of a word's line: the one the mask of bit i selects. */
  lemma LineStep(w: bv32, i: nat, line: string, temp: bv32)
    requires i < IntSize && line == RowText(w)[..i] && temp == Mask(ColumnBits(i))
    ensures line + (if Positive(temp & w) then "1" else "0") == RowText(w)[..i + 1]
  {
    CharOf(w, ColumnBits(i), temp);
    RowTextAt(w, i);
    PrefixStep(RowText(w), i);
  }

  /** The one-character string printed for the mask of bit c is BitChar. */
  lemma CharOf(w: bv32, c: bv5, temp: bv32)
    requires temp == Mask(c)
    ensures (if Positive(temp & w) then "1" else "0") == [BitChar(w, c)]
  {
    assert temp & w == w & Mask(c);
  }

  /** A prefix grows by the next element. */
  lemma PrefixStep(s: string, i: nat)
    requires i < |s|
    ensures s[..i] + [s[i]] == s[..i + 1]
  {
  }

  /** The mask of bit i, shifted left once, is the mask of bit i + 1. */
  lemma NextMask(i: nat, temp: bv32)
    requires i < IntSize - 1 && temp == Mask(ColumnBits(i))
    ensures temp << 1 == Mask(ColumnBits(i + 1))
  {
    ColumnBitsValue(i);
    MaskStep(ColumnBits(i));
  }
}
