/** The round trip through the three routines of kmer_utils.c: the text that
    kmer_index_to_kmer writes for an index, translated by
    translate_nucleotides_to_numbers and read by calculate_mer from offset 0,
    gives the index back. */
module KmerRoundTrip {
  import opened KmerBase
  import opened KmerAlphabet
  import opened KmerIndex
  import opened KmerWindow

  /** Translating the letters of a k-mer string through kmer_alpha yields the
      k base-4 digits of its index, most significant first. */
  lemma TranslatedKmerString(index: nat, k: nat)
    ensures Translate(KmerString(index, k) + [0], k, KmerAlpha())[..k] == Digits(index, k)
  {
    var buf := Translate(KmerString(index, k) + [0], k, KmerAlpha());
    forall j | 0 <= j < k
      ensures buf[j] == Digits(index, k)[j]
    {
      DigitsAt(index, k, j);
      ReverseAlphaInvertsKmerAlpha(Digit(index, k - 1 - j), 0);
    }
  }

  /** For every index below 4^k, the window calculator run over the translated
      text of that index finds its k digits, whose value is the index. */
  lemma IndexRoundTrip(index: nat, k: nat)
    requires index < Pow4(k)
    ensures WindowScan(Translate(KmerString(index, k) + [0], k, KmerAlpha()), k) == Complete(Digits(index, k))
    ensures Base4(Digits(index, k)) == index
  {
    var buf := Translate(KmerString(index, k) + [0], k, KmerAlpha());
    TranslatedKmerString(index, k);
    assert buf[k] == 0;
    forall j | 0 <= j < |buf|
      ensures buf[j] < 4
    {
      if j < k {
        assert buf[j] == Digits(index, k)[j];
      }
    }
    WindowScanWithoutSpaces(buf, k);
    Base4OfDigits(index, k);
    DivModUnique(index, Pow4(k), 0, index);
  }

  /** Distinct indices below 4^k have distinct k-mer strings. */
  lemma KmerStringInjective(i: nat, j: nat, k: nat)
    requires i < Pow4(k) && j < Pow4(k)
    requires KmerString(i, k) == KmerString(j, k)
    ensures i == j
  {
    IndexRoundTrip(i, k);
    IndexRoundTrip(j, k);
  }

  /** A numeral of base-4 digits is the k lowest digits of its own value. */
  lemma {:induction false} DigitsOfBase4(ds: seq<Byte>)
    requires forall j :: 0 <= j < |ds| ==> ds[j] < 4
    ensures Digits(Base4(ds), |ds|) == ds
    decreases |ds|
  {
    if ds != [] {
      var init := ds[..|ds| - 1];
      DigitsOfBase4(init);
      DivModUnique(Base4(ds), 4, Base4(init), ds[|ds| - 1]);
      assert ds == init + [ds[|ds| - 1]];
    }
  }

  /** The other direction of the round trip: every text of A, C, G and T
      letters is the k-mer string of the value of its translated codes, so
      every such k-mer labels exactly one counter. */
  lemma TextRoundTrip(s: seq<Byte>)
    requires forall j :: 0 <= j < |s| ==> s[j] in ReverseAlpha
    ensures Base4(Translate(s, |s|, KmerAlpha())) < Pow4(|s|)
    ensures KmerString(Base4(Translate(s, |s|, KmerAlpha())), |s|) == s
  {
    var codes := Translate(s, |s|, KmerAlpha());
    LetterCodes(s);
    Base4Below(codes);
    KmerStringOfCodes(codes);
    var t := KmerString(Base4(codes), |s|);
    assert forall j :: 0 <= j < |s| ==> t[j] == ReverseAlpha[codes[j]];
  }

  /** The k-mer string of the value of base codes spells those codes. */
  lemma KmerStringOfCodes(codes: seq<Byte>)
    requires forall j :: 0 <= j < |codes| ==> codes[j] < 4
    ensures forall j :: 0 <= j < |codes| ==> KmerString(Base4(codes), |codes|)[j] == ReverseAlpha[codes[j]]
  {
    DigitsOfBase4(codes);
    forall j | 0 <= j < |codes|
      ensures KmerString(Base4(codes), |codes|)[j] == ReverseAlpha[codes[j]]
    {
      KmerStringAt(Base4(codes), |codes|, codes, j);
    }
  }

  /** Letter j of the k-mer string of n is reverse_alpha of Digits(n, k)[j]. */
  lemma KmerStringAt(n: nat, k: nat, ds: seq<Byte>, j: nat)
    requires Digits(n, k) == ds && j < k
    ensures KmerString(n, k)[j] == ReverseAlpha[ds[j]]
  {
    DigitsAt(n, k, j);
  }

  /** The codes of A, C, G and T letters are base codes that reverse_alpha
      turns back into the letters. */
  lemma LetterCodes(s: seq<Byte>)
    requires forall j :: 0 <= j < |s| ==> s[j] in ReverseAlpha
    ensures forall j :: 0 <= j < |s| ==>
              Translate(s, |s|, KmerAlpha())[j] < 4 && ReverseAlpha[Translate(s, |s|, KmerAlpha())[j]] == s[j]
  {
    forall j | 0 <= j < |s|
      ensures Translate(s, |s|, KmerAlpha())[j] < 4 && ReverseAlpha[Translate(s, |s|, KmerAlpha())[j]] == s[j]
    {
      KmerAlphaClassifies(s[j]);
      ReverseAlphaInvertsKmerAlpha(0, s[j]);
    }
  }

  /** The round trip run through the routines themselves: decode the index
      into text, translate the text in place, compute its window from offset 0. */
  method KmerRoundTrip(index: nat, k: nat) returns (mer: nat)
    requires k < 32 && index < Pow4(k)
    ensures mer == index
  {
    var ret := KmerIndexToKmer(index, k);
    assert ret[..] == KmerString(index, k) + [0] by {
      assert ret[..] == ret[..k] + [ret[k]];
    }
    TranslateNucleotidesToNumbers(ret, k, KmerAlpha());
    IndexRoundTrip(index, k);
    assert ret[0..] == ret[..];
    var pos;
    mer, pos := CalculateMer(ret, 0, k, Pow4(k));
  }
}
