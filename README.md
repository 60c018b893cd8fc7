# kmer_utils in Dafny

A model of `kmer_utils.c` from dna-utils, a k-mer counter for FASTA text.
It covers the `kmer_alpha` table and `reverse_alpha`, `kmer_pow_four`,
`kmer_index_to_kmer`, `translate_nucleotides_to_numbers`, `calculate_mer`
and the counting loop of `kmer_counts_from_file`. Each routine keeps its
C form. Table lookups and the shift are functions. The routines that loop
and write into buffers are methods over `array`s, proved against
specification functions:

- `KmerIndex.KmerString` is the text of an index.
- `KmerWindow.Translate` is the translated buffer.
- `KmerWindow.WindowScan` is what a window meets: k digits, an ERROR byte
  at some offset, or the end of the buffer.
- `KmerCounts.GetDelimRecords` splits the stream into records.
- `KmerCounts.Windows`, `RecordRun` and `StreamRun` give the counter slots
  incremented, in order.
- `KmerCounts.Tally` turns a list of slots into counter values.

Modules:

- `KmerBase`: bytes, powers of two and four, the 64-bit shift, base-4 numerals.
- `KmerAlphabet`: `kmer_alpha`, `reverse_alpha`, ERROR = 5, SPACE = 6.
- `KmerIndex`: `kmer_index_to_kmer`.
- `KmerWindow`: `translate_nucleotides_to_numbers` and `calculate_mer`.
- `KmerRoundTrip`: index → text → codes → index, and text → index → text.
- `KmerCounts`: `kmer_counts_from_file` over a byte stream.
- `KmerCountsFacts`: what the counts amount to.

The model follows the code, including where a FASTA k-mer counter might be
expected to behave otherwise:

- Lower-case `a c g t` count like upper case.
- A window spans newlines, so a k-mer can cross a line break.
- A window that starts on a newline counts the same k-mer as the window
  one byte later.
- The `'>'` that ends every record but the last is an ERROR byte. The
  windows that reach it count in the error slot.
- `getdelim` leaves a NUL byte after each record. `calculate_mer` may read
  it, and byte 0 is the code of `A`. So when the last record ends in a
  newline, one extra window is counted: its last k - 1 bases followed by an
  `A` (`TrailingNewlineReadsNul`).
- A stream that does not start with `'>'` has its first line, up to the
  first newline, skipped as a header, so a file without headers loses its
  first line.
- `seq_length - kmer + 1` is `size_t` arithmetic. A record whose sequence
  part is shorter than k - 1 bytes makes it wrap round to a bound far past
  the buffer.

Whenever the C code would read past the record's buffer, the model does not
read. It stops and reports a fault naming the record and the window offset.
This happens on the wrapped bound, and on a window that runs into the NUL
and beyond it, as after a blank line at the end of the file.

## Model

| member | source | states |
|---|---|---|
| KmerAlphabet.KmerAlphaClassifies | kmer_utils.c:10-31 | kmer_alpha covers all 256 byte values. A byte gets a code below 4 exactly when it is one of A C G T a c g t. It gets SPACE exactly when it is '\n', and ERROR exactly otherwise, '>' included. A lower-case letter has the code of its upper case. |
| KmerAlphabet.ReverseAlphaInvertsKmerAlpha | kmer_utils.c:13-33 | reverse_alpha and kmer_alpha are inverse on codes 0..3 and the letters A C G T. |
| KmerBase.KmerPowFour | kmer_utils.c:35-37 | `1 << (x * 2)` in 64 bits equals 4^x and fits in 64 bits for x < 32. |
| KmerIndex.KmerIndexToKmer | kmer_utils.c:40-80 | For index < 4^k it returns a fresh buffer of k + 1 bytes. Byte j is reverse_alpha of base-4 digit k-1-j of the index, and byte k is the NUL. |
| KmerIndex.KmerStringShape | kmer_utils.c:51-73 | Every letter of the text is A, C, G or T. For an index below 4^m, the first k - m letters are the 'A' padding. |
| KmerWindow.TranslateNucleotidesToNumbers | kmer_utils.c:83-88 | Each of the first len bytes becomes its lookup entry. Every byte from len on keeps its value. |
| KmerWindow.TranslateWithKmerAlpha | kmer_utils.c:83-88 | With kmer_alpha every translated byte is a base code, SPACE or ERROR. It is a base code exactly where the text had a base letter. The rest of the buffer is unchanged. |
| KmerWindow.CalculateMer | kmer_utils.c:90-119 | On a complete window it returns the base-4 value of the window's k digits, most significant first, and leaves pos unchanged. On a window that meets ERROR first, it returns error_mer and sets pos to that byte's offset. |
| KmerWindow.WindowScanIgnoresSpaces | kmer_utils.c:102-106 | A window gives the same digits and the same verdict as the same bytes with their newlines removed. |
| KmerWindow.WindowFromNewline | kmer_utils.c:102-106 | A window that starts on a newline yields the digits of the window one byte later. An ERROR offset is one more. |
| KmerWindow.WindowScanWithoutSpaces | kmer_utils.c:100-118 | Over bytes without newlines, a window is complete if and only if its first k bytes exist and hold no ERROR. Its digits are then those bytes. Otherwise it stops at the first ERROR, within the first k bytes, or it runs off a buffer that has no ERROR. |
| KmerWindow.WindowScanInvalidAt | kmer_utils.c:107-110 | The offset an invalid window reports holds an ERROR byte, and it is the first ERROR from the window's start. |
| KmerWindow.WindowScanBelowWidth | kmer_utils.c:96-118 | Over a translated buffer, a complete window has exactly k digits below 4. Its value is below 4^k. |
| KmerWindow.WindowScanOfCodes | kmer_utils.c:100-118 | A window over k base codes is complete with exactly those codes. |
| KmerWindow.WindowScanAfterCodes | kmer_utils.c:100-118 | Base codes at the head of a window are its first digits. The scan goes on from after them for the digits still needed. |
| KmerRoundTrip.IndexRoundTrip | kmer_utils.c:40-119 | For every index < 4^k, the translated text of the index scans as a complete window. Its k digits have the index as value. |
| KmerRoundTrip.KmerStringInjective | kmer_utils.c:40-80 | Distinct indices below 4^k decode to distinct texts. |
| KmerRoundTrip.TextRoundTrip | kmer_utils.c:40-119 | Every text of k letters A, C, G, T has a translated value below 4^k, and kmer_index_to_kmer's text of that value is the text itself. So every k-mer labels exactly one counter. |
| KmerRoundTrip.KmerStringOfCodes | kmer_utils.c:51-73 | The text of the value of k base codes spells those codes through reverse_alpha. |
| KmerRoundTrip.DigitsOfBase4 | kmer_utils.c:51-55 | A numeral of k base-4 digits is the k lowest digits of its own value. |
| KmerRoundTrip.KmerRoundTrip | kmer_utils.c:40-119 | Running kmer_index_to_kmer, then translate_nucleotides_to_numbers, then calculate_mer from offset 0 returns the index. |
| KmerCounts.RecordEnd | kmer_utils.c:140 | getdelim's next record runs up to and including the first '>'. With no '>' left, it is the whole remainder. It is never empty. |
| KmerCounts.GetDelimRecordsFlatten | kmer_utils.c:140 | The records put back together are the stream: nothing is lost or added. |
| KmerCounts.GetDelimRecordsShape | kmer_utils.c:140 | Records are non-empty. A '>' can only be a record's last byte, and every record but the last ends in one. |
| KmerCounts.FirstNewline | kmer_utils.c:143-145 | When found, the offset holds '\n', and no '\n' or NUL comes before it. When not found, every '\n' in the record has a NUL before it. |
| KmerCounts.LoopBoundWraps | kmer_utils.c:157 | `seq_length - kmer + 1` is the number of k-windows when seq_length >= k - 1. Otherwise it wraps to 2^64 + seq_length + 1 - k, beyond the buffer. |
| KmerCounts.RecordBuffer | kmer_utils.c:147-154 | A record's buffer after translation holds only codes. Its second clause only unfolds the record's run into its windows, a definitional step. |
| KmerCounts.AddTallyStep | kmer_utils.c:159 | One `counts[mer]++` adds one to counter mer and changes no other counter. |
| KmerCounts.WindowsAdvance | kmer_utils.c:157-160 | One loop pass either increments a counter below 4^k and moves on one byte, or increments slot 4^k and moves one byte past the ERROR byte. Otherwise the window would read past the buffer, and the run ends there. |
| KmerCounts.CountWindow | kmer_utils.c:158-159 | One pass: a complete window increments the counter of its index, one that meets ERROR increments slot 4^k and leaves the offset at that byte. No other counter changes. |
| KmerCounts.CountWindows | kmer_utils.c:157-160 | The window loop leaves the counters increased by one for each slot of the record's windows. The result names the window at which the C code would read past the buffer, if any. |
| KmerCounts.CountRecord | kmer_utils.c:142-160 | One record's pass: nothing when there is no header newline; otherwise the sequence part is translated and its windows are counted. |
| KmerCounts.KmerCountsFromFile | kmer_utils.c:121-166 | It returns 4^k + 1 fresh counters. Counter j is the number of windows over all records, in getdelim order, whose slot is j. The first read past a buffer stops the run and is reported with its record and offset. |
| KmerCounts.StreamRunStops | kmer_utils.c:140-161 | A rule of the model, not of the C code, which has no such stop: once a record would read past its buffer, later records change neither the counts nor the fault. |
| KmerCountsFacts.WindowsInRange | kmer_utils.c:157-160 | Every window increments a counter below 4^k or the error slot 4^k. |
| KmerCountsFacts.RecordSlotsInRange | kmer_utils.c:134-160 | Every slot a record increments is one of the 4^k + 1 allocated. |
| KmerCountsFacts.StreamSlotsInRange | kmer_utils.c:134-161 | Every slot the stream increments is one of the 4^k + 1 allocated. |
| KmerCountsFacts.TallyTotal | kmer_utils.c:159 | When every slot is a counter, the counters sum to the number of increments. |
| KmerCountsFacts.CountsTotal | kmer_utils.c:121-166 | The returned counters sum to the number of windows counted. |
| KmerCountsFacts.RecordWithoutNewline | kmer_utils.c:143-145 | A record with no newline, such as the lone '>' at the start of a file, counts nothing and cannot fault. |
| KmerCountsFacts.ResumeAfterError | kmer_utils.c:107-110 | After a window meets ERROR, it counts in slot width. The next window starts one byte past that ERROR byte, the first ERROR from the window's start. |
| KmerCountsFacts.WindowsPastBuffer | kmer_utils.c:101-105 | When the loop bound lies beyond the buffer, the windows always end by reading past it. |
| KmerCountsFacts.ShortRecordFaults | kmer_utils.c:157 | A record whose sequence part is shorter than k - 1 bytes always ends by reading past its buffer. |
| KmerCountsFacts.WindowsAllComplete | kmer_utils.c:157-160 | When every window up to the bound is complete, the record counts exactly their values and does not fault. |
| KmerCountsFacts.CleanRecordWindows | kmer_utils.c:142-160 | A header line followed by base letters only counts exactly its n - k + 1 windows (n bases) of k consecutive bases, each as its base-4 value. |
| KmerCountsFacts.TrailingNewlineWindows | kmer_utils.c:142-160 | For base letters followed by the final newline, the record of n bases counts n - k + 2 windows, over the codes followed by the NUL. |
| KmerCountsFacts.TrailingNewlineReadsNul | kmer_utils.c:150-160 | The extra window of such a record is its last k - 1 bases followed by the NUL, read as an 'A'. |

## Left out

- `FILE*` and getdelim's buffer growth and reuse (kmer_utils.c:122-125, 140, 163) are left out. The input is a byte sequence split as getdelim splits it.
- Allocation failure, `exit` and `fprintf` (kmer_utils.c:47-48, 135-138) are process-level effects and are not modelled.
- KmerIndex.KmerIndexToKmer: the C code also writes `ret[kmer + 1]`, one byte past its `kmer + 1`-byte allocation (kmer_utils.c:76). The model does not reproduce that write. `ret[k]` is the NUL that calloc left there.
- KmerIndex.KmerIndexToKmer: requires index < 4^k. The C code accepts any 64-bit index. For index >= 4^k it writes past `num_array` (kmer_utils.c:52) and fills all k + 1 bytes of `ret` with letters, overwriting its NUL (kmer_utils.c:72-73); from 4^(k+1) on it also writes past `ret` there. That overflow is not modelled.
- KmerWindow.CalculateMer: the C code's `end` grows with every newline and has no bound against the buffer (kmer_utils.c:101-105). The method requires that its window stays inside the buffer.
- KmerCounts.CountWindows: where the C code would read past the buffer, the method stops and reports the offset instead of reading memory it does not own.
- KmerCounts.KmerCountsFromFile: reports the first read past a buffer as a fault and stops there. The C behaviour from that point is undefined.
- KmerCounts.CountRecord: translates a fresh copy of the sequence part and its NUL, not getdelim's own buffer in place. The bytes it reads are the same.
- KmerCounts.KmerCountsFromFile: counters and window values are unbounded. 64-bit wrap-around of a counter is not modelled.
- KmerWindow.TranslateNucleotidesToNumbers: `(int)str[i]` on a signed `char` would index the table with a negative number for bytes from 128 on (kmer_utils.c:87). The model takes bytes as 0..255.
- KmerBase.KmerPowFour: k < 32 is required wherever a power of four is a shift (kmer_utils.c:36, 97, 131), because `1 << 64` is undefined in C.
- kmer_utils.h holds only prototypes of another revision and is not part of this model.
- No worked example on concrete bytes is included. Every property is stated for all inputs.
