# Primes: a bit-packed cache of prime numbers

`Primes` (Primes.java) caches which integers are prime. It uses one bit per odd
number: odd `n >= 3` lives at bit `((n - 3) / 2) % 32` of word
`((n - 3) / 2) / 32` of an `int[]` bitmap. A cursor, `currentPrime`, marks the
last odd number classified so far.

- `isPrime(n)` first classifies, by trial division, every odd number after the
  cursor up to the first odd number above `n`. When a number's word is past
  the end of the array, the array is doubled first. Then it answers from the
  bitmap.
- `nextPrime()` walks the cursor forward and returns the next prime in
  sequence. 2 is handled by a special first step.
- `printBitmap()` prints one line of 32 characters per word, from word 0 up
  to `maxRow`, as far as the array reaches. `maxRow` is the word of
  `currentPrime + 2`, the next odd number to classify. When
  `currentPrime % 64 == 1`, that word holds no classified number yet and
  prints as a line of zeros.

The project models this class as an imperative Dafny class, `Sieve.Primes`:

- `currentPrime` is an `int` field.
- `oddBitmap` is an `array<bv32>`, which the methods replace when they grow it.
- The class invariant `Valid` says what the bitmap holds:
  - the cursor is odd;
  - every odd `k` with `3 <= k <= cursor` is marked exactly when it is prime, except a skipped 3 (below), which is not marked;
  - nothing from 5 on beyond the cursor is marked.
- Primality is the mathematical definition `Primality.IsPrimeMath`. The
  trial-division loop of `calculatePrime` is proved against it.

Modules:

- `Primality`: primality and the divisor facts that trial division relies on.
- `Bitmap`:
  - the index map between odd numbers and (word, bit) positions;
  - the word update of `addNumber`, as a function `Record` on sequences of words;
  - Java's signed bit read.
- `Render`: the text `printBitmap` prints, as a function, and the bit loop that builds one line.
- `Sieve`: the `Primes` class and its invariant.
- `Scenarios`: call sequences on fresh objects and what they return.

Where the code and its own comments disagree, the model follows the code:

- **The skipped 3.** The first `nextPrime` on a fresh cache returns 2 and moves the cursor from 1 to 3 without recording 3. The comment at Primes.java:24-25 says everything up to the cursor is in the bitmap, which is then false for 3. A ghost field `skipped3` tracks this. While it is set, `isPrime(3)` answers false. If the next call is `nextPrime`, it finds the cursor at 3, moves it back to 1 and records 3 (Primes.java:67-68). If an `isPrime(n)` with `n >= 3` comes first, it moves the cursor past 3, so 3 is never recorded: the two `nextPrime` calls answer 2 and then 5, and `isPrime(3)` stays false.
- **The sign bit.** `isPrime` reads a bit with `(oddBitmap[row] & (1 << col)) > 0` on a signed 32-bit int. For bit 31 the masked value is negative, so every prime `n` with `n % 64 == 1` reads as not prime. Examples are 193, 257 and 449. `nextPrime` never returns such a prime, and `printBitmap` prints `0` for it. The model keeps this behaviour and states it in the contracts of `IsPrime`, `NextPrime` and `PrintBitmap`.
- **Pre-sizing.** The comment at Primes.java:52 says that sizing the array in `Primes(capacity)` avoids resizing. It does not always: `Primes(65)` allocates one word, but classifying up to 67 reaches word 1 and doubles the array (`Scenarios.PresizedGrows`).

To verify, run `dafny verify --resource-limit 2000000 --verification-time-limit 0 --warn-contradictory-assumptions *.dfy`. Every proof fits within that resource limit, with or without `--warn-contradictory-assumptions`.

## Model

| member | source | states |
|---|---|---|
| Bitmap.Index | Primes.java:81 | The position of odd n among the odd numbers from 3: 2 * Index(n) + 3 == n |
| Bitmap.Row | Primes.java:82 | The word of n is the one whose 32 positions contain Index(n) |
| Bitmap.Col | Primes.java:83 | The bit of n is below 32, and Row(n) * 32 + Col(n) == Index(n) |
| Bitmap.OddAt | Primes.java:81-83 | The odd number at (word, bit) is odd and >= 3, and it maps back to that word and bit: the inverse of the index map |
| Bitmap.PositionDeterminesNumber | Primes.java:81-83 | Every odd n >= 3 is recovered from its word and bit, so the index map loses nothing |
| Bitmap.PositionInjective | Primes.java:81-83 | Two odd numbers >= 3 at the same word and bit are equal |
| Bitmap.SamePosition | Primes.java:81-83 | Two odd numbers share word and shift distance exactly when they are equal |
| Bitmap.TopColumn | Primes.java:135-137 | An odd number sits in bit 31 of its word exactly when it is 1 modulo 64 |
| Bitmap.SignShift | Primes.java:137-138 | The shift distance `1 << col` uses is 31 exactly when n % 64 == 1 |
| Bitmap.SignedBitTest | Primes.java:138-139 | Java's `(word & (1 << col)) > 0`, the masked word read as a signed int (definition) |
| Bitmap.Positive | Primes.java:139 | Java's `x > 0` on a 32-bit int: nonzero with the sign bit clear (definition) |
| Bitmap.RowMonotone | Primes.java:82 | A larger number never sits in an earlier word |
| Bitmap.SignedBitTestMissesSignBit | Primes.java:138-139 | Java's signed test `(w & (1 << c)) > 0` holds exactly when bit c is set and c is not 31 |
| Bitmap.OrShiftBit | Primes.java:94-96 | OR-ing `(prime ? 1 : 0) << c` into a word sets bit c when prime and changes no other bit |
| Bitmap.BitOf | Primes.java:94 | `prime ? 1 : 0` is the word 0 or 1 |
| Bitmap.Widen | Primes.java:84-93 | The words before the OR reach n's word |
| Bitmap.Put | Primes.java:84-96 | The words after growth and the OR of `(prime ? 1 : 0) << c` into word row (definition) |
| Bitmap.Record | Primes.java:80-97 | The words after addNumber(n, prime): Put at n's word and bit (definition) |
| Bitmap.RecordAsUpdate | Primes.java:80-97 | addNumber's words are the widened words with `(prime ? 1 : 0) << col` OR-ed into word row |
| Bitmap.PutWords | Primes.java:84-93 | Growth keeps the length when the word is inside the array, otherwise doubles it; other words keep their values and added words are zero |
| Bitmap.PutWord | Primes.java:94-96 | The updated word is the old word (zero if new) OR the shifted bit |
| Bitmap.PutOtherWord | Primes.java:94-96 | Every other word is unchanged by addNumber |
| Bitmap.PutBit | Primes.java:94-96 | After addNumber a bit is set exactly when it was set before or it is n's bit with prime true |
| Bitmap.PutBitSameRow | Primes.java:94-96 | The same for a bit of the updated word itself |
| Bitmap.OrPrimeBit | Primes.java:94-96 | OR-ing `(prime ? 1 : 0) << c` into a word sets bit c when prime and leaves every other bit as it was |
| Bitmap.RecordMarks | Primes.java:80-97 | After addNumber(n, prime), k is marked exactly when it was marked before or k == n and prime; no mark is cleared |
| Bitmap.RecordEffect | Primes.java:80-97 | addNumber never shrinks the array, always reaches n's word, and its marks are the old marks plus n when prime |
| Bitmap.SignedRead | Primes.java:135-139 | isPrime's read of n's bit is true exactly when n is marked and n % 64 != 1 |
| Bitmap.ReadAt | Primes.java:135-139 | The same at the word and bit isPrime computes, inside the array |
| Bitmap.Grown | Primes.java:84-93 | The length an array of len words reaches as consecutive numbers are added up to word row: it is above row and at least len |
| Bitmap.GrownNext | Primes.java:84-93 | One more number, in a word at most one past the end, doubles the grown length exactly when its word is past the end |
| Bitmap.GrownTwice | Primes.java:84-93 | Growing up to one word and then up to a later one is the same as growing up to the later one |
| Primality.OddHasNoEvenDivisor | Primes.java:108-111 | An odd number has no even divisor, so trying only odd factors loses nothing |
| Primality.NoDivisorInUpperHalf | Primes.java:109 | An odd n >= 3 has no divisor between n / 2 and n, so maxFactor = n / 2 is a sound bound |
| Render.RowText | Primes.java:149-155 | The line printed for one word has INT_SIZE (32) characters, one per bit |
| Render.BitChar | Primes.java:152-153 | The character printed for one bit: '1' when the signed test holds (definition) |
| Render.MaxRow | Primes.java:145 | printBitmap's maxRow, ((cursor - 1) / 2) / 32 (definition) |
| Render.Rows | Primes.java:148-157 | The lines of the first count words, each followed by "\n\t" (definition) |
| Render.BitmapText | Primes.java:146-158 | The whole printed text: the header, the listed lines and println's newline (definition) |
| Render.RowCount | Primes.java:145-148 | printBitmap lists min(length, maxRow + 1) words |
| Render.BitCharReads | Primes.java:152-153 | A bit prints as '1' exactly when it is set and is not bit 31, and as '0' otherwise |
| Render.MaskStep | Primes.java:154 | Shifting the one-bit mask left moves it to the next bit |
| Render.NextMask | Primes.java:149-154 | Shifting the mask of bit i once gives the mask of bit i + 1 |
| Render.RowsLength | Primes.java:148-157 | count listed words take count * 34 characters |
| Render.RowsAt | Primes.java:148-157 | Bit i of listed word row is character row * 34 + i of the lines |
| Render.TextAt | Primes.java:143-159 | The same in the whole text, after the header |
| Render.PrintedMark | Primes.java:143-159 | For odd n in a listed word, its character is '1' exactly when n is marked and n % 64 != 1, and '0' otherwise |
| Render.LineStep | Primes.java:152-153 | One pass of the bit loop appends the character of the next bit |
| Render.RowLine | Primes.java:149-155 | The bit loop for one word builds exactly that word's line |
| Sieve.NoneReportedStep | Primes.java:70 | A failed isPrime call extends the range that nextPrime has searched without a hit |
| Sieve.LeastReported | Primes.java:62-72 | The answer of nextPrime's search is unique: the first reported odd number from its start |
| Sieve.Classified | Primes.java:24-27 | The class invariant on values: the cursor is odd and in range, the cursor's word exists, odd k up to the cursor is marked iff prime (bar a skipped 3), nothing from 5 on above the cursor is marked (definition) |
| Sieve.Primes.Valid | Primes.java:24-27 | Classified on the object's fields (definition) |
| Sieve.RowStep | Primes.java:126-128 | Moving the cursor by 2 moves its word by at most one |
| Sieve.GrowthStep | Primes.java:126-128 | Across one pass of isPrime's filling loop, the array goes from the grown length at the cursor to the grown length at cursor + 2 |
| Sieve.GrowthAcross | Primes.java:70 | The growth of successive isPrime calls composes |
| Sieve.NextRowFits | Primes.java:84-93 | From a valid state, the next odd number is in range and one doubling reaches its word |
| Sieve.Step | Primes.java:126-129 | One pass of isPrime's filling loop keeps the class invariant with the cursor 2 further on |
| Sieve.StepAt | Primes.java:126-129 | The same step for one number k |
| Sieve.JavaDiv | Primes.java:53 | Java's int division truncates toward zero: the remainder a - q * b lies in [0, b) for a >= 0 and in (-b, 0] for a < 0 |
| Sieve.Primes.constructor | Primes.java:42-44 | A fresh cache has one zero word and cursor 1, and satisfies the invariant |
| Sieve.Primes.WithCapacity | Primes.java:50-56 | Allocates ((capacity - 3) / 64) + 1 words (truncating division), then classifies every odd number up to capacity. The cursor ends in (capacity, capacity + 2], or stays 1 when capacity < 1. The array ends with exactly the length the doublings give, Grown(allocated, cursor's word) |
| Sieve.Primes.NextPrime | Primes.java:62-72 | From cursor 1 it answers 2 and moves the cursor to 3 without recording 3. Otherwise it answers the least odd number p from the cursor (from 1 when the cursor is 3) that is prime and not 1 mod 64, and leaves the cursor at p + 2. From cursor 3, 3 is recorded again (no longer skipped); from cursor 5 on, a skipped 3 stays skipped. The array length is the one the doublings give. The invariant is kept |
| Sieve.Primes.Search | Primes.java:70-71 | The loop `while (!isPrime(currentPrime))` stops at the first reported odd number from the cursor on and returns currentPrime - 2; the array length is the one the doublings give |
| Sieve.Primes.AddNumber | Primes.java:80-97 | The new words are Record(old words, n, prime). The length doubles exactly when n's word is past the end. The marks are the old marks plus n when prime. The cursor is unchanged |
| Sieve.Primes.OrInto | Primes.java:94-96 | Only word row changes, to itself OR `(prime ? 1 : 0) << col` |
| Sieve.Primes.Doubled | Primes.java:87-92 | A fresh array of twice the length, with the old words at the front and zeros after them |
| Sieve.Primes.ClassifyNext | Primes.java:127-128 | Advancing the cursor by 2 and recording calculatePrime's verdict keeps the invariant; the array doubles exactly when the new cursor's word is past its end |
| Sieve.Primes.Fill | Primes.java:126-129 | The filling loop leaves the cursor past n, within 2 of n when it started at or below n, unchanged otherwise. It keeps the invariant and the array at the grown length |
| Sieve.Primes.IsPrime | Primes.java:124-140 | After the call, everything up to the first odd number above n is classified, and nothing changes if the cursor was already past n. The array has the length the doublings give. The answer is true exactly when n is prime, n % 64 != 1, and n is not a skipped 3 |
| Sieve.Primes.PrintBitmap | Primes.java:143-159 | The printed text is BitmapText: the header, the line of each word from 0 to maxRow (the word of cursor + 2) as far as the array reaches, and a final newline |
| Sieve.Primes.CalculatePrime | Primes.java:104-116 | Trial division by odd factors below n / 2 answers exactly whether n is prime, for every int n |
| Sieve.PrintedPrimes | Primes.java:143-159 | In a valid state, every odd k from 5 up to the cursor is listed, and its character is '1' exactly when k is prime and not 1 mod 64 |
| Sieve.ListedRow | Primes.java:145-148 | The word of every classified number is among the listed words |
| Scenarios.Prime193 | Primes.java:135-139 | 193 is prime but sits in bit 31 of word 2, so it is never reported |
| Scenarios.FirstFive | Primes.java:62-72 | On a fresh cache, five nextPrime calls answer 2, 3, 5, 7, 11 |
| Scenarios.SkippedThree | Primes.java:64-66 | After the first nextPrime on a fresh cache, isPrime(3) answers false |
| Scenarios.ThreeRecorded | Primes.java:62-72 | On a fresh cache, the second nextPrime answers 3 and records it, so isPrime(3) then answers true |
| Scenarios.ThreeLost | Primes.java:64-70 | An isPrime(3) between the first two nextPrime calls answers false, and the second nextPrime answers 5: 3 is never recorded |
| Scenarios.GrowToFour | Primes.java:84-93 | isPrime(191) on a fresh cache doubles the array twice, to 4 words, and printBitmap then prints 4 lines |
| Scenarios.PresizedGrows | Primes.java:50-56 | Primes(65) allocates one word, but classifying up to 67 doubles it to 2 |
| Scenarios.SmallCapacity | Primes.java:50-56 | With capacity 1 or 2, the first nextPrime answers 3 (2 is never returned) |
| Scenarios.SignBitMiss | Primes.java:139 | On a fresh cache, isPrime(193) answers false although 193 is prime |
| Scenarios.IsPrimeTwice | Primes.java:124-140 | Two isPrime calls with the same n give the same answer |
| Scenarios.Successive | Primes.java:62-72 | Past the bootstrap, successive nextPrime answers strictly increase |

## Left out

- Output: `printBitmap` writes to `System.out`. `PrintBitmap` returns the text instead, with `println`'s line break as a final `"\n"`.
- Main.java, the demonstration driver, is not part of this model.
- Java's 32-bit overflow is not modelled. Preconditions keep every value inside the `int` range instead:
  - `IsPrime` requires `n <= MaxInt - 1`. For larger n, Java's cursor would wrap around and the filling loop would never stop normally.
  - `ClassifyNext` requires the cursor to be at most `MaxInt - 2`.
- WithCapacity requires `capacity >= -60`. Below that, Java's behaviour depends on the capacity:
  - From -124 to -61, `Primes(capacity)` allocates an empty array. The first growth cannot enlarge it, so the first `addNumber` fails.
  - From -125 down to `Integer.MIN_VALUE + 3`, it throws `NegativeArraySizeException`.
  - For the three smallest ints, `capacity - 3` wraps around to a large positive value, and the constructor allocates 33554432 words. `isPrime(capacity)` then does nothing, so the object is a pre-sized empty cache. The model does not cover this wrap-around.
- NextPrime requires, once the cursor is 5 or more, a prime q with `q % 64 != 1` between the cursor and `MaxInt - 2`. This bounds the search loop, which Java runs unbounded until int overflow.
- PrintBitmap requires only `currentPrime >= 1`, which the class invariant implies, and not the whole invariant: the text depends only on the words and the cursor.
- `calculatePrime` is an instance method in Java. `CalculatePrime` is static because it reads no field.
- `System.arraycopy` and the zero-filling loop are modelled in `Doubled` as a copy loop followed by a zero-filling loop.
- Some parts of Java methods are separate Dafny methods, each with its own contract:
  - `Doubled` and `OrInto` are the growth and update steps of `addNumber`;
  - `Fill` is `isPrime`'s filling loop and `ClassifyNext` its body;
  - `Search` is `nextPrime`'s search loop;
  - `RowLine` is `printBitmap`'s bit loop for one word.
- The running-time and memory claims in the class comment (O(1) lookup, O(N) per prime, half a bit per number) are not modelled.
