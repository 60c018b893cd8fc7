/** The nucleotide alphabet of kmer_utils.c: the 256-entry `kmer_alpha` table
    that turns a text byte into a base code, and `reverse_alpha`, which turns a
    base code back into its letter. */
module KmerAlphabet {
  import opened KmerBase

  /** Code of every byte that is neither a base nor a newline. */
  const ERROR: Byte := 5
  /** Code of a newline: skipped inside a window. */
  const SPACE: Byte := 6

  const NEWLINE: Byte := '\n' as int
  /** The FASTA record marker. */
  const DELIMITER: Byte := '>' as int

  /** Entry b of `kmer_alpha`: A/a, C/c, G/g, T/t give 0..3, a newline gives
      SPACE, every other byte ERROR. */
  function AlphaCode(b: Byte): Byte
  {
    if b == 'A' as int || b == 'a' as int then 0
    else if b == 'C' as int || b == 'c' as int then 1
    else if b == 'G' as int || b == 'g' as int then 2
    else if b == 'T' as int || b == 't' as int then 3
    else if b == NEWLINE then SPACE
    else ERROR
  }

  /** `kmer_alpha`, one entry per byte value. */
  function KmerAlpha(): (t: seq<Byte>)
    ensures |t| == 256
  {
    seq(256, b requires 0 <= b < 256 => AlphaCode(b))
  }

  /** `reverse_alpha`: the letter of each base code. */
  const ReverseAlpha: seq<Byte> := ['A' as int, 'C' as int, 'G' as int, 'T' as int]

  /** A byte is a base letter exactly when it is one of A, C, G, T in either case. */
  predicate IsBaseLetter(b: Byte)
  {
    b in {'A' as int, 'C' as int, 'G' as int, 'T' as int, 'a' as int, 'c' as int, 'g' as int, 't' as int}
  }

  /** The table is total over byte values and sorts every byte into exactly one
      class: a base (code below 4), the newline (SPACE), or anything else,
      '>' included (ERROR). Upper and lower case of a letter get the same code. */
  lemma KmerAlphaClassifies(b: Byte)
    ensures |KmerAlpha()| == 256
    ensures KmerAlpha()[b] < 4 <==> IsBaseLetter(b)
    ensures KmerAlpha()[b] == SPACE <==> b == NEWLINE
    ensures KmerAlpha()[b] == ERROR <==> !IsBaseLetter(b) && b != NEWLINE
    ensures KmerAlpha()[b] < 4 || KmerAlpha()[b] == SPACE || KmerAlpha()[b] == ERROR
    ensures KmerAlpha()[DELIMITER] == ERROR
    ensures 'a' as int <= b <= 'z' as int ==> KmerAlpha()[b] == KmerAlpha()[b - 32]
  {
  }

  /** reverse_alpha inverts kmer_alpha on base codes, and kmer_alpha inverts
      reverse_alpha on upper-case base letters. */
  lemma ReverseAlphaInvertsKmerAlpha(d: Byte, b: Byte)
    ensures d < 4 ==> KmerAlpha()[ReverseAlpha[d]] == d
    ensures b in ReverseAlpha ==> ReverseAlpha[KmerAlpha()[b]] == b
  {
  }
}
