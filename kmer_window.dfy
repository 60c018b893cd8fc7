/** The in-place translation of a sequence buffer into base codes
    (`translate_nucleotides_to_numbers`) and the sliding-window index
    calculator (`calculate_mer`) that reads k codes from such a buffer. */
module KmerWindow {
  import opened KmerBase
  import opened KmerAlphabet

  /** A translated buffer: every byte is a base code, SPACE or ERROR. */
  predicate Translated(s: seq<Byte>)
  {
    forall t :: 0 <= t < |s| ==> s[t] < 4 || s[t] == SPACE || s[t] == ERROR
  }

  /** The buffer after its first len bytes have been replaced by their lookup entries. */
  function Translate(s: seq<Byte>, len: nat, lookup: seq<Byte>): (r: seq<Byte>)
    requires len <= |s| && |lookup| == 256
    ensures |r| == |s|
  {
    seq(|s|, j requires 0 <= j < |s| => if j < len then lookup[s[j]] else s[j])
  }

  /** Translating with kmer_alpha yields codes only, a base code exactly where
      the text has a base letter, and leaves the bytes from len on as they were. */
  lemma TranslateWithKmerAlpha(s: seq<Byte>, len: nat)
    requires len <= |s|
    ensures Translate(s, len, KmerAlpha())[len..] == s[len..]
    ensures Translated(Translate(s, len, KmerAlpha())[..len])
    ensures forall j :: 0 <= j < len ==> (Translate(s, len, KmerAlpha())[j] < 4 <==> IsBaseLetter(s[j]))
    ensures Translated(s[len..]) ==> Translated(Translate(s, len, KmerAlpha()))
  {
    var r := Translate(s, len, KmerAlpha());
    forall j | 0 <= j < len
      ensures r[j] < 4 || r[j] == SPACE || r[j] == ERROR
      ensures r[j] < 4 <==> IsBaseLetter(s[j])
    {
      KmerAlphaClassifies(s[j]);
    }
    if Translated(s[len..]) {
      forall j | len <= j < |r|
        ensures r[j] < 4 || r[j] == SPACE || r[j] == ERROR
      {
        assert r[j] == s[len..][j - len];
      }
    }
  }

  /** translate_nucleotides_to_numbers: overwrites each of the first len bytes
      of str with its lookup entry. */
  method TranslateNucleotidesToNumbers(str: array<Byte>, len: nat, lookup: seq<Byte>)
    requires len <= str.Length && |lookup| == 256
    modifies str
    ensures str[..] == Translate(old(str[..]), len, lookup)
  {
    for i := 0 to len
      invariant forall t :: 0 <= t < i ==> str[t] == lookup[old(str[t])]
      invariant forall t :: i <= t < str.Length ==> str[t] == old(str[t])
    {
      str[i] := lookup[str[i]];
    }
  }

  /** What a window meets: `need` digits, an ERROR byte at offset `at` from the
      window's start, or the end of the buffer before either. */
  datatype Scan = Complete(digits: seq<Byte>) | Invalid(at: nat) | Overrun

  /** Puts the digits ds in front of what a scan found d bytes further on. */
  function Join(ds: seq<Byte>, w: Scan, d: nat): Scan
  {
    match w
    case Complete(rest) => Complete(ds + rest)
    case Invalid(at) => Invalid(at + d)
    case Overrun => Overrun
  }

  /** What calculate_mer meets scanning for `need` more base codes in s, which
      starts where the scan starts: a SPACE is passed over without using up a
      digit, an ERROR ends the scan, every other byte is one digit. */
  function WindowScan(s: seq<Byte>, need: nat): Scan
    decreases |s|
  {
    if need == 0 then Complete([])
    else if s == [] then Overrun
    else if s[0] == SPACE then Join([], WindowScan(s[1..], need), 1)
    else if s[0] == ERROR then Invalid(0)
    else Join([s[0]], WindowScan(s[1..], need - 1), 1)
  }

  lemma JoinJoin(a: seq<Byte>, b: seq<Byte>, w: Scan, d0: nat, d1: nat)
    ensures Join(a, Join(b, w, d1), d0) == Join(a + b, w, d0 + d1)
  {
    if w.Complete? {
      assert a + (b + w.digits) == (a + b) + w.digits;
    }
  }

  /** One byte of a scan that is not ERROR: a SPACE is passed over, any other
      byte becomes the next digit. */
  lemma ScanStep(s: seq<Byte>, need: nat)
    requires s != [] && need > 0 && s[0] != ERROR
    ensures s[0] == SPACE ==> WindowScan(s, need) == Join([], WindowScan(s[1..], need), 1)
    ensures s[0] != SPACE ==> WindowScan(s, need) == Join([s[0]], WindowScan(s[1..], need - 1), 1)
  {
  }

  /** The state of calculate_mer's loop j bytes into the window w: the digits
      ds read so far, joined to what the rest of the scan will find for the
      `need` digits still to come, make up what the whole window finds. */
  ghost predicate ScanSoFar(w: seq<Byte>, k: nat, j: nat, need: nat, ds: seq<Byte>)
  {
    j <= |w| && WindowScan(w, k) == Join(ds, WindowScan(w[j..], need), j)
  }

  lemma ScanStarts(w: seq<Byte>, k: nat)
    ensures ScanSoFar(w, k, 0, k, [])
  {
    assert w[0..] == w;
    var x := WindowScan(w, k);
    if x.Complete? {
      assert [] + x.digits == x.digits;
    }
  }

  /** While digits are still wanted and the window does not overrun, there is
      a byte to read; an ERROR there makes the window invalid at that byte; a
      SPACE is passed over; any other byte becomes the next digit. */
  lemma ScanAdvance(w: seq<Byte>, k: nat, j: nat, need: nat, ds: seq<Byte>)
    requires ScanSoFar(w, k, j, need, ds) && need > 0 && !WindowScan(w, k).Overrun?
    ensures j < |w|
    ensures j < |w| && w[j] == ERROR ==> WindowScan(w, k) == Invalid(j)
    ensures j < |w| && w[j] == SPACE ==> ScanSoFar(w, k, j + 1, need, ds)
    ensures j < |w| && w[j] != SPACE && w[j] != ERROR ==> ScanSoFar(w, k, j + 1, need - 1, ds + [w[j]])
  {
    var rest := w[j..];
    if rest != [] {
      assert rest[0] == w[j] && rest[1..] == w[j + 1..];
      if w[j] != ERROR {
        ScanStep(rest, need);
        if w[j] == SPACE {
          JoinJoin(ds, [], WindowScan(w[j + 1..], need), j, 1);
          assert ds + [] == ds;
        } else {
          JoinJoin(ds, [w[j]], WindowScan(w[j + 1..], need - 1), j, 1);
        }
      }
    }
  }

  /** With no digit still wanted, the window is complete with the digits read. */
  lemma ScanEnds(w: seq<Byte>, k: nat, j: nat, ds: seq<Byte>)
    requires ScanSoFar(w, k, j, 0, ds)
    ensures WindowScan(w, k) == Complete(ds)
  {
    assert ds + [] == ds;
  }

  /** The value of the digits read so far with room left for `need` more. */
  function Scaled(ds: seq<Byte>, need: nat): nat
  {
    Base4(ds) * Pow4(need)
  }

  /** One base of calculate_mer's loop: adding code * 4^(need-1) to the value
      of the digits so far, scaled by 4^need, gives the value with the new digit
      appended, scaled by 4^(need-1); the multiplier shifted right by two is the
      next power down. */
  lemma MerStep(ds0: seq<Byte>, b: Byte, need0: nat, mer0: nat, multiply0: nat,
                ds1: seq<Byte>, need1: nat, mer1: int, multiply1: int)
    requires need0 >= 1 && mer0 == Scaled(ds0, need0) && multiply0 == Pow4(need0 - 1)
    requires ds1 == ds0 + [b] && need1 == need0 - 1
    requires mer1 == mer0 + b * multiply0 && multiply1 == multiply0 / 4
    ensures mer1 == Scaled(ds1, need1)
    ensures need1 > 0 ==> multiply1 == Pow4(need1 - 1)
  {
    var p := Pow4(need1);
    assert ds1[..|ds0|] == ds0;
    assert Base4(ds1) * p == (Base4(ds0) * 4 + b) * p;
    assert mer0 == Base4(ds0) * (4 * p);
    assert (Base4(ds0) * 4 + b) * p == Base4(ds0) * (4 * p) + b * p;
  }

  /** calculate_mer: the index of the window of k base codes starting at pos,
      most significant first (the multiplier starts at 4^(k-1) and is shifted
      right by two after each base). A SPACE extends the window by one byte.
      On an ERROR byte it returns error_mer and reports the byte's offset
      through newPos; otherwise newPos is pos. The window must not run off the
      buffer: the source has no bound there. */
  method CalculateMer(str: array<Byte>, pos: nat, k: nat, errorMer: nat) returns (mer: nat, newPos: nat)
    requires k < 32 && pos <= str.Length
    requires !WindowScan(str[pos..], k).Overrun?
    ensures WindowScan(str[pos..], k).Complete? ==>
              mer == Base4(WindowScan(str[pos..], k).digits) && newPos == pos
    ensures WindowScan(str[pos..], k).Invalid? ==>
              mer == errorMer && newPos == pos + WindowScan(str[pos..], k).at
  {
    newPos := pos;
    mer := 0;
    // 4^k >> 2
    var multiply := KmerPowFour(k) / 4;
    assert k > 0 ==> Pow4(k) == 4 * Pow4(k - 1);
    var end := pos + k;
    var i := pos;
    // the window's bytes, the digits read so far and how many are still to come
    ghost var w := str[pos..];
    ghost var ds: seq<Byte> := [];
    ghost var need: nat := k;
    ScanStarts(w, k);
    while i < end
      invariant pos <= i <= end && need == end - i
      invariant ScanSoFar(w, k, i - pos, need, ds)
      invariant mer == Scaled(ds, need)
      invariant need > 0 ==> multiply == Pow4(need - 1)
      decreases str.Length - i
    {
      ScanAdvance(w, k, i - pos, need, ds);
      assert str[i] == w[i - pos];
      if str[i] == SPACE {
        end := end + 1;
      } else if str[i] == ERROR {
        newPos := i;
        mer := errorMer;
        return;
      } else {
        ghost var mer0, multiply0, ds0, need0 := mer, multiply, ds, need;
        MulMonotone(str[i], 0, multiply);
        mer := mer + str[i] * multiply;
        multiply := multiply / 4;
        ds := ds + [str[i]];
        need := need - 1;
        MerStep(ds0, str[i], need0, mer0, multiply0, ds, need, mer, multiply);
      }
      i := i + 1;
    }
    ScanEnds(w, k, i - pos, ds);
    assert Scaled(ds, 0) == Base4(ds);
  }

  /** The bytes of s without its SPACEs. */
  function Unspaced(s: seq<Byte>): (u: seq<Byte>)
    ensures forall j :: 0 <= j < |u| ==> u[j] != SPACE
  {
    if s == [] then [] else (if s[0] == SPACE then [] else [s[0]]) + Unspaced(s[1..])
  }

  /** A scan with its ERROR offset forgotten. */
  function Erased(w: Scan): Scan
  {
    if w.Invalid? then Invalid(0) else w
  }

  lemma ErasedJoin(ds: seq<Byte>, w: Scan, w': Scan)
    requires Erased(w) == Erased(w')
    ensures Erased(Join(ds, w, 1)) == Erased(Join(ds, w', 1))
  {
  }

  /** SPACEs never change what a window computes: scanning s and scanning s
      with its SPACEs taken out give the same digits, and the same verdict. */
  lemma {:induction false} WindowScanIgnoresSpaces(s: seq<Byte>, need: nat)
    ensures Erased(WindowScan(s, need)) == Erased(WindowScan(Unspaced(s), need))
    decreases |s|
  {
    if need > 0 && s != [] {
      WindowScanIgnoresSpaces(s[1..], need - 1);
      WindowScanIgnoresSpaces(s[1..], need);
      var u := Unspaced(s);
      if s[0] == SPACE {
        assert u == Unspaced(s[1..]);
      } else {
        assert u == [s[0]] + Unspaced(s[1..]);
        assert u[0] == s[0] && u[1..] == Unspaced(s[1..]);
        if s[0] != ERROR {
          ErasedJoin([s[0]], WindowScan(s[1..], need - 1), WindowScan(u[1..], need - 1));
        }
      }
    }
  }

  /** Over bytes with no SPACE a window is complete exactly when its first
      `need` bytes exist and none is ERROR, and its digits are then those bytes;
      an invalid window points at the first ERROR, before `need` digits were
      read; the scan overruns exactly when the bytes end with no ERROR. */
  lemma {:induction false} WindowScanWithoutSpaces(u: seq<Byte>, need: nat)
    requires forall j :: 0 <= j < |u| ==> u[j] != SPACE
    ensures WindowScan(u, need).Complete? <==> need <= |u| && forall j :: 0 <= j < need ==> u[j] != ERROR
    ensures WindowScan(u, need).Complete? ==> WindowScan(u, need).digits == u[..need]
    ensures WindowScan(u, need).Invalid? ==>
              var at := WindowScan(u, need).at;
              at < need && at < |u| && u[at] == ERROR && forall j :: 0 <= j < at ==> u[j] != ERROR
    ensures WindowScan(u, need).Overrun? <==> |u| < need && forall j :: 0 <= j < |u| ==> u[j] != ERROR
    decreases |u|
  {
    if need > 0 && u != [] && u[0] != ERROR {
      WindowScanWithoutSpaces(u[1..], need - 1);
      var w := WindowScan(u[1..], need - 1);
      if w.Complete? {
        assert u[..need] == [u[0]] + u[1..][..need - 1];
      }
      if !WindowScan(u, need).Complete? && need <= |u| {
        var j :| 0 <= j < need - 1 && u[1..][j] == ERROR;
        assert u[j + 1] == ERROR;
      }
      if WindowScan(u, need).Invalid? {
        forall j | 0 <= j < WindowScan(u, need).at
          ensures u[j] != ERROR
        {
          if j > 0 {
            assert u[j] == u[1..][j - 1];
          }
        }
      }
      if WindowScan(u, need).Overrun? {
        forall j | 0 <= j < |u|
          ensures u[j] != ERROR
        {
          if j > 0 {
            assert u[j] == u[1..][j - 1];
          }
        }
      }
    }
  }

  /** An invalid window points at an ERROR byte of s, the first one from the
      window's start. */
  lemma {:induction false} WindowScanInvalidAt(s: seq<Byte>, need: nat)
    requires WindowScan(s, need).Invalid?
    ensures WindowScan(s, need).at < |s| && s[WindowScan(s, need).at] == ERROR
    ensures forall j :: 0 <= j < WindowScan(s, need).at ==> s[j] != ERROR
    decreases |s|
  {
    if s[0] != ERROR {
      var rest := if s[0] == SPACE then need else need - 1;
      WindowScanInvalidAt(s[1..], rest);
      forall j | 0 <= j < WindowScan(s, need).at
        ensures s[j] != ERROR
      {
        if j > 0 {
          assert s[j] == s[1..][j - 1];
        }
      }
    }
  }

  /** In a translated buffer a complete window has exactly `need` base codes,
      so its index is below 4^need. */
  lemma {:induction false} WindowScanBelowWidth(s: seq<Byte>, need: nat)
    requires Translated(s) && WindowScan(s, need).Complete?
    ensures |WindowScan(s, need).digits| == need
    ensures forall j :: 0 <= j < need ==> WindowScan(s, need).digits[j] < 4
    ensures Base4(WindowScan(s, need).digits) < Pow4(need)
    decreases |s|
  {
    if need > 0 {
      var rest := if s[0] == SPACE then need else need - 1;
      assert Translated(s[1..]) by {
        forall t | 0 <= t < |s[1..]|
          ensures s[1..][t] < 4 || s[1..][t] == SPACE || s[1..][t] == ERROR
        {
          assert s[1..][t] == s[t + 1];
        }
      }
      WindowScanBelowWidth(s[1..], rest);
    }
    Base4Below(WindowScan(s, need).digits);
  }

  /** A window over base codes only is complete with the first `need` of them. */
  lemma {:induction false} WindowScanOfCodes(s: seq<Byte>, need: nat)
    requires need <= |s| && forall j :: 0 <= j < need ==> s[j] < 4
    ensures WindowScan(s, need) == Complete(s[..need])
    decreases need
  {
    if need > 0 {
      assert forall j :: 0 <= j < need - 1 ==> s[1..][j] == s[j + 1];
      WindowScanOfCodes(s[1..], need - 1);
      assert s[..need] == [s[0]] + s[1..][..need - 1];
    }
  }

  /** Base codes at the start of a window are its first digits; the scan
      then goes on over what follows them for the digits still needed. */
  lemma {:induction false} WindowScanAfterCodes(u: seq<Byte>, v: seq<Byte>, need: nat)
    requires |u| <= need && forall j :: 0 <= j < |u| ==> u[j] < 4
    ensures WindowScan(u + v, need) == Join(u, WindowScan(v, need - |u|), |u|)
    decreases |u|
  {
    if u == [] {
      assert u + v == v;
      var w := WindowScan(v, need);
      if w.Complete? {
        assert u + w.digits == w.digits;
      }
    } else {
      assert (u + v)[1..] == u[1..] + v;
      WindowScanAfterCodes(u[1..], v, need - 1);
      JoinJoin([u[0]], u[1..], WindowScan(v, need - |u|), 1, |u| - 1);
      assert [u[0]] + u[1..] == u;
    }
  }

  /** A window that starts on a newline yields what the window starting one
      byte later yields. */
  lemma WindowFromNewline(s: seq<Byte>, need: nat)
    requires |s| > 0 && s[0] == SPACE && need > 0
    ensures WindowScan(s, need).Complete? == WindowScan(s[1..], need).Complete?
    ensures WindowScan(s, need).Complete? ==> WindowScan(s, need).digits == WindowScan(s[1..], need).digits
    ensures WindowScan(s, need).Invalid? ==> WindowScan(s, need).at == WindowScan(s[1..], need).at + 1
  {
  }
}
