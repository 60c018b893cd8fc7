/** What kmer_counts_from_file's counting amounts to: the slots it increments,
    where the scan goes after an error, which records contribute nothing,
    which ones make it read past their buffer, and the windows of a record
    made of bases only. */
module KmerCountsFacts {
  import opened KmerBase
  import opened KmerAlphabet
  import opened KmerWindow
  import opened KmerCounts

  /** Every window of a translated buffer increments either the counter of an
      index below 4^k or the error slot 4^k. */
  lemma {:induction false} WindowsInRange(buf: seq<Byte>, k: nat, position: nat, bound: nat)
    requires position <= |buf| && (k > 0 || bound <= |buf|) && Translated(buf)
    ensures forall j :: 0 <= j < |Windows(buf, k, Pow4(k), position, bound).slots| ==>
              Windows(buf, k, Pow4(k), position, bound).slots[j] <= Pow4(k)
    decreases bound - position
  {
    var r := Windows(buf, k, Pow4(k), position, bound);
    if position < bound {
      var scan := WindowScan(buf[position..], k);
      if scan.Complete? {
        CompleteWindowBelowWidth(buf, k, position);
        WindowsInRange(buf, k, position + 1, bound);
        assert forall j :: 1 <= j < |r.slots| ==> r.slots[j] == Windows(buf, k, Pow4(k), position + 1, bound).slots[j - 1];
      } else if scan.Invalid? {
        WindowScanInvalidAt(buf[position..], k);
        WindowsInRange(buf, k, position + scan.at + 1, bound);
        assert forall j :: 1 <= j < |r.slots| ==> r.slots[j] == Windows(buf, k, Pow4(k), position + scan.at + 1, bound).slots[j - 1];
      }
    }
  }

  /** Every slot a record increments is a counter of the 4^k + 1 allocated. */
  lemma RecordSlotsInRange(line: seq<Byte>, k: nat)
    requires k < 32
    ensures forall j :: 0 <= j < |RecordRun(line, k).slots| ==> RecordRun(line, k).slots[j] <= Pow4(k)
  {
    match FirstNewline(line)
    case None =>
    case Some(nl) =>
      RecordBuffer(line, k, nl);
      WindowsInRange(SeqBuffer(line, nl), k, 0, LoopBound(|line| - (nl + 1), k));
  }

  /** Every slot the whole stream increments is a counter of the 4^k + 1
      allocated. */
  lemma {:induction false} StreamSlotsInRange(records: seq<seq<Byte>>, k: nat)
    requires k < 32
    ensures forall j :: 0 <= j < |StreamRun(records, k).slots| ==> StreamRun(records, k).slots[j] <= Pow4(k)
  {
    if records != [] {
      var prev := records[..|records| - 1];
      var line := records[|records| - 1];
      StreamSlotsInRange(prev, k);
      RecordSlotsInRange(line, k);
      if StreamRun(prev, k).fault.None? {
        var a := StreamRun(prev, k).slots;
        var b := RecordRun(line, k).slots;
        assert forall j :: |a| <= j < |a| + |b| ==> (a + b)[j] == b[j - |a|];
      }
    }
  }

  /** The sum of the counters. */
  function Sum(c: seq<nat>): nat
  {
    if c == [] then 0 else c[0] + Sum(c[1..])
  }

  lemma {:induction false} SumIncrement(c: seq<nat>, m: nat)
    requires m < |c|
    ensures Sum(c[m := c[m] + 1]) == Sum(c) + 1
  {
    if m > 0 {
      SumIncrement(c[1..], m - 1);
      assert c[m := c[m] + 1][1..] == c[1..][m - 1 := c[m] + 1];
    }
  }

  lemma {:induction false} SumOfZeros(n: nat)
    ensures Sum(seq(n, _ => 0)) == 0
  {
    if n > 0 {
      SumOfZeros(n - 1);
      assert seq(n, _ => 0)[1..] == seq(n - 1, _ => 0);
    }
  }

  /** When every slot is a counter, each one adds exactly one to the counters'
      total: the counters sum to the number of windows counted. */
  lemma {:induction false} TallyTotal(slots: seq<nat>, n: nat)
    requires forall j :: 0 <= j < |slots| ==> slots[j] < n
    ensures Sum(Tally(slots, n)) == |slots|
  {
    if slots == [] {
      SumOfZeros(n);
      assert Tally(slots, n) == seq(n, _ => 0);
    } else {
      var init := slots[..|slots| - 1];
      var m := slots[|slots| - 1];
      assert slots == init + [m];
      TallyTotal(init, n);
      AddTallyStep(seq(n, _ => 0), init, m);
      SumIncrement(Tally(init, n), m);
    }
  }

  /** kmer_counts_from_file's counters sum to the number of windows it counted. */
  lemma CountsTotal(stream: seq<Byte>, k: nat)
    requires k < 32
    ensures Sum(Tally(StreamRun(GetDelimRecords(stream), k).slots, Pow4(k) + 1)) ==
              |StreamRun(GetDelimRecords(stream), k).slots|
  {
    StreamSlotsInRange(GetDelimRecords(stream), k);
    TallyTotal(StreamRun(GetDelimRecords(stream), k).slots, Pow4(k) + 1);
  }

  /** A record with no newline, a lone '>' included,
      counts nothing and cannot fault. */
  lemma RecordWithoutNewline(line: seq<Byte>, k: nat)
    requires k < 32
    requires forall j :: 0 <= j < |line| ==> line[j] != NEWLINE
    ensures RecordRun(line, k) == Run([], None)
  {
  }

  /** After a window meets an ERROR, the next window starts one byte past that
      ERROR byte, which is the first ERROR from the window's start; the window
      itself counts in the error slot. */
  lemma ResumeAfterError(buf: seq<Byte>, k: nat, width: nat, position: nat, bound: nat)
    requires position < bound && position <= |buf| && (k > 0 || bound <= |buf|)
    requires WindowScan(buf[position..], k).Invalid?
    ensures var at := WindowScan(buf[position..], k).at;
            position + at < |buf| && buf[position + at] == ERROR &&
            (forall j :: position <= j < position + at ==> buf[j] != ERROR) &&
            Windows(buf, k, width, position, bound) == Prepend(width, Windows(buf, k, width, position + at + 1, bound))
  {
    WindowScanInvalidAt(buf[position..], k);
    var at := WindowScan(buf[position..], k).at;
    forall j | position <= j < position + at
      ensures buf[j] != ERROR
    {
      assert buf[j] == buf[position..][j - position];
    }
  }

  /** Once the loop bound lies beyond the buffer, the windows cannot stop
      before one reads past the buffer. */
  lemma {:induction false} WindowsPastBuffer(buf: seq<Byte>, k: nat, width: nat, position: nat, bound: nat)
    requires 0 < k && position <= |buf| < bound
    ensures Windows(buf, k, width, position, bound).fault.Some?
    decreases |buf| - position
  {
    var scan := WindowScan(buf[position..], k);
    if scan.Complete? {
      assert buf[position..] != [];
      WindowsPastBuffer(buf, k, width, position + 1, bound);
    } else if scan.Invalid? {
      WindowScanInvalidAt(buf[position..], k);
      WindowsPastBuffer(buf, k, width, position + scan.at + 1, bound);
    }
  }

  /** A record whose sequence part is shorter than k - 1 bytes makes
      `seq_length - kmer + 1` wrap round, and its windows then always end by
      reading past the buffer. */
  lemma ShortRecordFaults(line: seq<Byte>, k: nat)
    requires k < 32 && |line| < U64
    requires FirstNewline(line).Some? && |line| - FirstNewline(line).value < k
    ensures RecordRun(line, k).fault.Some?
  {
    var nl := FirstNewline(line).value;
    LoopBoundWraps(|line| - (nl + 1), k);
    RecordBuffer(line, k, nl);
    WindowsPastBuffer(SeqBuffer(line, nl), k, Pow4(k), 0, LoopBound(|line| - (nl + 1), k));
  }

  /** The values of the windows of k consecutive codes starting at offsets
      from, from + 1, ..., from + count - 1. */
  function WindowValues(codes: seq<Byte>, k: nat, from: nat, count: nat): (vs: seq<nat>)
    requires from + count + k <= |codes| + 1
    ensures |vs| == count
    decreases count
  {
    if count == 0 then [] else [Base4(codes[from..from + k])] + WindowValues(codes, k, from + 1, count - 1)
  }

  /** The window at p is complete with the k codes of `ref` at p. */
  ghost predicate CompleteAt(buf: seq<Byte>, ref: seq<Byte>, k: nat, p: nat)
  {
    p <= |buf| && p + k <= |ref| && WindowScan(buf[p..], k) == Complete(ref[p..p + k])
  }

  /** When every window from `position` up to `bound` is complete with the k
      codes of `ref` at its offset, the windows count exactly the values of
      those k-code windows and do not fault. */
  lemma {:induction false} WindowsAllComplete(buf: seq<Byte>, ref: seq<Byte>, k: nat, width: nat, position: nat, bound: nat)
    requires position <= bound && bound + k <= |ref| + 1 && position <= |buf| && (k > 0 || bound <= |buf|)
    requires forall p :: position <= p < bound ==> CompleteAt(buf, ref, k, p)
    ensures Windows(buf, k, width, position, bound) == Run(WindowValues(ref, k, position, bound - position), None)
    decreases bound - position
  {
    if position < bound {
      assert CompleteAt(buf, ref, k, position);
      WindowsAllComplete(buf, ref, k, width, position + 1, bound);
    }
  }

  /** strchr finds the newline that ends a header with no newline and no NUL. */
  lemma HeaderLine(header: seq<Byte>, rest: seq<Byte>)
    requires forall j :: 0 <= j < |header| ==> header[j] != NEWLINE && header[j] != 0
    ensures FirstNewline(header + [NEWLINE] + rest) == Some(|header|)
    ensures (header + [NEWLINE] + rest)[|header| + 1..] == rest
  {
    var line := header + [NEWLINE] + rest;
    assert line[|header|] == NEWLINE;
    assert forall j :: 0 <= j < |header| ==> line[j] == header[j];
  }

  /** The buffer of a record is its translated sequence part followed by the NUL. */
  lemma SeqBufferOf(line: seq<Byte>, nl: nat)
    requires nl < |line|
    ensures SeqBuffer(line, nl) == Translate(line[nl + 1..], |line| - (nl + 1), KmerAlpha()) + [0]
  {
  }

  /** The windows of base codes followed by the NUL, up to the bound of a
      record that long, are the k-code windows of the codes alone. */
  lemma CodesWindows(codes: seq<Byte>, k: nat)
    requires k <= |codes| + 1 && forall j :: 0 <= j < |codes| ==> codes[j] < 4
    ensures Windows(codes + [0], k, Pow4(k), 0, |codes| - k + 1) ==
              Run(WindowValues(codes, k, 0, |codes| - k + 1), None)
  {
    var buf := codes + [0];
    forall p | 0 <= p < |codes| - k + 1
      ensures CompleteAt(buf, codes, k, p)
    {
      WindowScanOfCodes(buf[p..], k);
      assert buf[p..][..k] == codes[p..p + k];
    }
    WindowsAllComplete(buf, codes, k, Pow4(k), 0, |codes| - k + 1);
  }

  /** A newline then the NUL give one digit, the NUL's 0. */
  lemma NewlineThenNul()
    ensures WindowScan([SPACE, 0], 1) == Complete([0])
  {
    assert [SPACE, 0][1..] == [0];
    assert [0][1..] == [];
    assert WindowScan([0], 1) == Join([0], WindowScan([], 0), 1);
  }

  /** In codes followed by a newline and the NUL, each window up to the
      record's bound is complete: inside the codes with the codes, and the
      last with the codes left and the NUL. */
  lemma NewlineWindowAt(codes: seq<Byte>, k: nat, p: nat)
    requires 0 < k && p < |codes| - k + 2 && forall j :: 0 <= j < |codes| ==> codes[j] < 4
    ensures CompleteAt(codes + [SPACE, 0], codes + [0], k, p)
  {
    var buf := codes + [SPACE, 0];
    var ref := codes + [0];
    if p + k <= |codes| {
      assert forall j :: 0 <= j < k ==> buf[p..][j] == codes[p + j];
      WindowScanOfCodes(buf[p..], k);
      assert buf[p..][..k] == ref[p..p + k];
    } else {
      assert buf[p..] == codes[p..] + [SPACE, 0];
      WindowScanAfterCodes(codes[p..], [SPACE, 0], k);
      NewlineThenNul();
      assert ref[p..p + k] == codes[p..] + [0];
    }
  }

  /** The windows of base codes followed by a newline and the NUL, up to the
      bound of a record that long, are the k-code windows of the codes with the
      NUL in the place of the newline: the last window reads the NUL as an 'A'. */
  lemma CodesNewlineWindows(codes: seq<Byte>, k: nat)
    requires 0 < k <= |codes| + 1 && forall j :: 0 <= j < |codes| ==> codes[j] < 4
    ensures Windows(codes + [SPACE, 0], k, Pow4(k), 0, |codes| - k + 2) ==
              Run(WindowValues(codes + [0], k, 0, |codes| - k + 2), None)
  {
    forall p | 0 <= p < |codes| - k + 2
      ensures CompleteAt(codes + [SPACE, 0], codes + [0], k, p)
    {
      NewlineWindowAt(codes, k, p);
    }
    WindowsAllComplete(codes + [SPACE, 0], codes + [0], k, Pow4(k), 0, |codes| - k + 2);
  }

  /** A record whose sequence part is made of base letters only, without
      newlines, counts exactly its |bases| - k + 1 windows of k consecutive
      bases, each as the value of their codes, and nothing else. */
  lemma CleanRecordWindows(header: seq<Byte>, bases: seq<Byte>, k: nat)
    requires k < 32 && k <= |bases| + 1 && |bases| < U64 - 1
    requires forall j :: 0 <= j < |header| ==> header[j] != NEWLINE && header[j] != 0
    requires forall j :: 0 <= j < |bases| ==> IsBaseLetter(bases[j])
    ensures RecordRun(header + [NEWLINE] + bases, k) ==
              Run(WindowValues(Translate(bases, |bases|, KmerAlpha()), k, 0, |bases| - k + 1), None)
  {
    var line := header + [NEWLINE] + bases;
    HeaderLine(header, bases);
    SeqBufferOf(line, |header|);
    TranslateWithKmerAlpha(bases, |bases|);
    LoopBoundWraps(|bases|, k);
    CodesWindows(Translate(bases, |bases|, KmerAlpha()), k);
  }

  /** The buffer of a record whose sequence part ends in a newline: the
      codes, SPACE, then the NUL. */
  lemma TrailingNewlineBuffer(header: seq<Byte>, bases: seq<Byte>)
    requires forall j :: 0 <= j < |header| ==> header[j] != NEWLINE && header[j] != 0
    ensures FirstNewline(header + [NEWLINE] + bases + [NEWLINE]) == Some(|header|)
    ensures SeqBuffer(header + [NEWLINE] + bases + [NEWLINE], |header|) ==
              Translate(bases, |bases|, KmerAlpha()) + [SPACE, 0]
  {
    var line := header + [NEWLINE] + bases + [NEWLINE];
    assert line == header + [NEWLINE] + (bases + [NEWLINE]);
    HeaderLine(header, bases + [NEWLINE]);
    SeqBufferOf(line, |header|);
    KmerAlphaClassifies(NEWLINE);
    assert Translate(bases + [NEWLINE], |bases| + 1, KmerAlpha()) == Translate(bases, |bases|, KmerAlpha()) + [SPACE];
  }

  /** A record whose sequence part is base letters followed by the newline
      that ends a FASTA file counts |bases| - k + 2 windows: those of k
      consecutive bases, and one more. */
  lemma TrailingNewlineWindows(header: seq<Byte>, bases: seq<Byte>, k: nat)
    requires 0 < k < 32 && k <= |bases| + 1 && |bases| < U64 - 2
    requires forall j :: 0 <= j < |header| ==> header[j] != NEWLINE && header[j] != 0
    requires forall j :: 0 <= j < |bases| ==> IsBaseLetter(bases[j])
    ensures RecordRun(header + [NEWLINE] + bases + [NEWLINE], k) ==
              Run(WindowValues(Translate(bases, |bases|, KmerAlpha()) + [0], k, 0, |bases| - k + 2), None)
  {
    TrailingNewlineBuffer(header, bases);
    TranslateWithKmerAlpha(bases, |bases|);
    LoopBoundWraps(|bases| + 1, k);
    CodesNewlineWindows(Translate(bases, |bases|, KmerAlpha()), k);
  }

  /** The extra window of a record ending in a newline is its last k - 1
      bases followed by the NUL terminator, read as an 'A'. */
  lemma TrailingNewlineReadsNul(header: seq<Byte>, bases: seq<Byte>, k: nat)
    requires 0 < k < 32 && k <= |bases| + 1 && |bases| < U64 - 2
    requires forall j :: 0 <= j < |header| ==> header[j] != NEWLINE && header[j] != 0
    requires forall j :: 0 <= j < |bases| ==> IsBaseLetter(bases[j])
    ensures var codes := Translate(bases, |bases|, KmerAlpha());
            var slots := RecordRun(header + [NEWLINE] + bases + [NEWLINE], k).slots;
            |slots| == |bases| - k + 2 && slots[|bases| - k + 1] == Base4(codes[|bases| - k + 1..] + [0])
  {
    var codes := Translate(bases, |bases|, KmerAlpha());
    TrailingNewlineWindows(header, bases, k);
    LastWindowValue(codes + [0], k, 0, |bases| - k + 2);
    assert (codes + [0])[|bases| - k + 1..|bases| + 1] == codes[|bases| - k + 1..] + [0];
  }

  /** The last of count window values is the window at from + count - 1. */
  lemma {:induction false} LastWindowValue(codes: seq<Byte>, k: nat, from: nat, count: nat)
    requires 0 < count && from + count + k <= |codes| + 1
    ensures WindowValues(codes, k, from, count)[count - 1] == Base4(codes[from + count - 1..from + count - 1 + k])
    decreases count
  {
    if count > 1 {
      LastWindowValue(codes, k, from + 1, count - 1);
    }
  }
}
