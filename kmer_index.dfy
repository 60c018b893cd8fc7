/** `kmer_index_to_kmer`: the text of the k-mer with a given base-4 index. */
module KmerIndex {
  import opened KmerBase
  import opened KmerAlphabet

  /** The k letters of the k-mer with the given index: position j carries the
      letter of base-4 digit k-1-j, so the most significant digit comes first. */
  function KmerString(index: nat, k: nat): (s: seq<Byte>)
    ensures |s| == k
  {
    seq(k, j requires 0 <= j < k => ReverseAlpha[Digit(index, k - 1 - j)])
  }

  /** Every letter of a k-mer string is A, C, G or T, and when the index is
      below 4^m the first k-m letters are the 'A' padding; index 0 is all 'A'. */
  lemma KmerStringShape(index: nat, k: nat, m: nat)
    requires index < Pow4(m) && m <= k
    ensures forall j :: 0 <= j < k ==> KmerString(index, k)[j] in ReverseAlpha
    ensures forall j :: 0 <= j < k - m ==> KmerString(index, k)[j] == 'A' as int
  {
    forall j | 0 <= j < k
      ensures KmerString(index, k)[j] in ReverseAlpha
    {
      var d := Digit(index, k - 1 - j);
      assert ReverseAlpha[d] in ReverseAlpha;
    }
    forall j | 0 <= j < k - m
      ensures KmerString(index, k)[j] == 'A' as int
    {
      DigitAboveIsZero(index, m, k - 1 - j);
    }
  }

  /** One pass of the digit loop: a non-zero remainder of an index below 4^k
      still has a digit to give, and dividing it by four moves to the next one. */
  lemma DigitStep(index: nat, i: nat, k: nat, n: nat)
    requires i <= k && n == index / Pow4(i) && n < Pow4(k - i) && n != 0
    ensures i < k && n / 4 < n
    ensures 0 <= n / 4 == index / Pow4(i + 1) && n / 4 < Pow4(k - i - 1)
    ensures n % 4 == Digit(index, i)
  {
    DivPow4Step(index, i);
  }

  /** kmer_index_to_kmer: extracts the base-4 digits of index least significant
      first into num_array, pads the front of ret with 'A', then copies the
      digits back in reverse order. ret has k + 1 bytes; ret[k] is the NUL
      terminator that calloc left there. */
  method KmerIndexToKmer(index: nat, k: nat) returns (ret: array<Byte>)
    requires index < Pow4(k)
    ensures fresh(ret) && ret.Length == k + 1
    ensures ret[..k] == KmerString(index, k) && ret[k] == 0
  {
    var numArray := new Byte[k](_ => 0);
    ret := new Byte[k + 1](_ => 0);
    var i: int := 0;
    var n: int := index;
    // modulus 4 for each base-4 digit, least significant first
    while n != 0
      invariant 0 <= i <= k
      invariant 0 <= n && n == index / Pow4(i)
      invariant n < Pow4(k - i)
      invariant forall t :: 0 <= t < i ==> numArray[t] == Digit(index, t)
      invariant forall t :: 0 <= t < ret.Length ==> ret[t] == 0
      decreases n
    {
      DigitStep(index, i, k, n);
      numArray[i] := n % 4;
      n := n / 4;
      i := i + 1;
    }
    assert index < Pow4(i) by {
      DivModUnique(index, Pow4(i), 0, index % Pow4(i));
    }
    // leading 'A's for the digits above the highest non-zero one
    var j := 0;
    while j < k - i
      invariant 0 <= j <= k - i
      invariant forall t :: 0 <= t < j ==> ret[t] == 'A' as int
      invariant forall t :: j <= t < ret.Length ==> ret[t] == 0
      invariant forall t :: 0 <= t < i ==> numArray[t] == Digit(index, t)
    {
      ret[j] := 'A' as int;
      j := j + 1;
    }
    var offset := j;
    var start := i;
    i := i - 1;
    j := 0;
    // the digits in reverse: as j increases, i decreases
    while j < start
      invariant 0 <= j <= start && i == start - 1 - j
      invariant forall t :: 0 <= t < offset ==> ret[t] == 'A' as int
      invariant offset == k - start
      invariant forall t :: offset <= t < offset + j ==> ret[t] == ReverseAlpha[Digit(index, k - 1 - t)]
      invariant ret[k] == 0
      invariant forall t :: 0 <= t < start ==> numArray[t] == Digit(index, t)
    {
      ret[j + offset] := ReverseAlpha[numArray[i]];
      j := j + 1;
      i := i - 1;
    }
    forall t | 0 <= t < k
      ensures ret[t] == KmerString(index, k)[t]
    {
      if t < offset {
        DigitAboveIsZero(index, start, k - 1 - t);
      }
    }
  }
}
