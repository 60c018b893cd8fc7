/** `kmer_counts_from_file`: splits a FASTA byte stream into '>'-delimited
    records as getdelim returns them, drops each record's header line,
    translates the rest in place and counts one k-mer window per start offset
    into an array of 4^k + 1 slots, slot 4^k counting windows that met an
    ERROR byte. */
module KmerCounts {
  import opened KmerBase
  import opened KmerAlphabet
  import opened KmerWindow

  // ---------------------------------------------------------------------------
  // Records: getdelim(&line, &len, '>', fh)

  /** The length of the first record getdelim returns from s: up to and
      including the first '>', or all of s when it has none. */
  function RecordEnd(s: seq<Byte>): (n: nat)
    requires s != []
    ensures 0 < n <= |s|
    ensures forall j :: 0 <= j < n - 1 ==> s[j] != DELIMITER
    ensures n == |s| || s[n - 1] == DELIMITER
    decreases |s|
  {
    if |s| == 1 || s[0] == DELIMITER then 1
    else 1 + RecordEnd(s[1..])
  }

  /** The records successive getdelim calls return, in order. */
  function GetDelimRecords(stream: seq<Byte>): seq<seq<Byte>>
    decreases |stream|
  {
    if stream == [] then []
    else
      var n := RecordEnd(stream);
      [stream[..n]] + GetDelimRecords(stream[n..])
  }

  /** The records laid end to end. */
  function Flatten(rs: seq<seq<Byte>>): seq<Byte>
  {
    if rs == [] then [] else rs[0] + Flatten(rs[1..])
  }

  /** getdelim loses and adds nothing: the records put back together are the
      stream. */
  lemma {:induction false} GetDelimRecordsFlatten(stream: seq<Byte>)
    ensures Flatten(GetDelimRecords(stream)) == stream
    decreases |stream|
  {
    if stream != [] {
      var n := RecordEnd(stream);
      var rs := GetDelimRecords(stream);
      GetDelimRecordsFlatten(stream[n..]);
      assert rs[0] == stream[..n] && rs[1..] == GetDelimRecords(stream[n..]);
      assert stream == stream[..n] + stream[n..];
    }
  }

  /** No record is empty; each ends at its first '>', and only the last may
      end without one. */
  lemma {:induction false} GetDelimRecordsShape(stream: seq<Byte>)
    ensures forall i :: 0 <= i < |GetDelimRecords(stream)| ==> GetDelimRecords(stream)[i] != []
    ensures forall i, j :: 0 <= i < |GetDelimRecords(stream)| && 0 <= j < |GetDelimRecords(stream)[i]| - 1 ==>
              GetDelimRecords(stream)[i][j] != DELIMITER
    ensures forall i :: 0 <= i < |GetDelimRecords(stream)| - 1 ==>
              GetDelimRecords(stream)[i][|GetDelimRecords(stream)[i]| - 1] == DELIMITER
    decreases |stream|
  {
    if stream != [] {
      var n := RecordEnd(stream);
      var rs := GetDelimRecords(stream);
      var tail := GetDelimRecords(stream[n..]);
      GetDelimRecordsShape(stream[n..]);
      assert rs == [stream[..n]] + tail;
      forall i | 1 <= i < |rs|
        ensures rs[i] == tail[i - 1]
      {
      }
      if n == |stream| {
        assert tail == [];
      }
    }
  }

  // ---------------------------------------------------------------------------
  // One record: strchr, the header, the loop bound and the windows

  /** strchr(line, '\n'): the offset of the first newline, provided no NUL
      byte comes before it (strchr stops at the first NUL). */
  function FirstNewline(s: seq<Byte>): (r: Option<nat>)
    ensures r.Some? ==> r.value < |s| && s[r.value] == NEWLINE
    ensures r.Some? ==> forall j :: 0 <= j < r.value ==> s[j] != NEWLINE && s[j] != 0
    ensures r.None? ==> forall j :: 0 <= j < |s| && s[j] == NEWLINE ==> exists t :: 0 <= t < j && s[t] == 0
    decreases |s|
  {
    if s == [] || s[0] == 0 then None
    else if s[0] == NEWLINE then Some(0)
    else
      match FirstNewline(s[1..])
      case None => None
      case Some(j) => Some(j + 1)
  }

  /** `seq_length - kmer + 1` in size_t arithmetic: taken modulo 2^64, so a
      record shorter than k - 1 bytes wraps round to a huge bound. */
  function LoopBound(seqLength: nat, k: nat): (b: nat)
    ensures b < U64
  {
    (seqLength - k + 1) % U64
  }

  /** The bound is the number of k-windows of the record when the record is at
      least k - 1 bytes long, and exceeds the buffer otherwise. */
  lemma LoopBoundWraps(seqLength: nat, k: nat)
    requires seqLength < U64 - 1 && k < 32
    ensures k <= seqLength + 1 ==> LoopBound(seqLength, k) == seqLength - k + 1
    ensures seqLength + 1 < k ==> LoopBound(seqLength, k) == U64 + seqLength + 1 - k > seqLength + 1
  {
    if seqLength + 1 < k {
      DivModUnique(seqLength - k + 1, U64, -1, U64 + seqLength + 1 - k);
    } else {
      DivModUnique(seqLength - k + 1, U64, 0, seqLength - k + 1);
    }
  }

  /** The buffer calculate_mer reads for a record whose header newline is at
      nl: the bytes after it, translated, followed by the NUL getdelim puts
      after the record. The NUL is not translated: as a byte 0 it reads as
      the code of 'A'. */
  function SeqBuffer(line: seq<Byte>, nl: nat): (buf: seq<Byte>)
    requires nl < |line|
    ensures |buf| == |line| - nl
  {
    Translate(line[nl + 1..] + [0], |line| - (nl + 1), KmerAlpha())
  }

  /** The slots one record's windows increment, in order, and the offset of
      the window at which the scan would read past the buffer, if any. */
  datatype Run = Run(slots: seq<nat>, fault: Option<nat>)

  function Prepend(slot: nat, r: Run): Run
  {
    Run([slot] + r.slots, r.fault)
  }

  /** The windows from `position` up to `bound`: a complete window counts its
      index and moves on by one byte; an invalid one counts `width` and moves
      on to one byte past the ERROR; a window that would read past the buffer
      ends the record with a fault. */
  function Windows(buf: seq<Byte>, k: nat, width: nat, position: nat, bound: nat): Run
    requires position <= |buf| && (k > 0 || bound <= |buf|)
    decreases bound - position
  {
    if position >= bound then Run([], None)
    else
      match WindowScan(buf[position..], k)
      case Overrun => Run([], Some(position))
      case Complete(ds) => Prepend(Base4(ds), Windows(buf, k, width, position + 1, bound))
      case Invalid(at) =>
        WindowScanInvalidAt(buf[position..], k);
        Prepend(width, Windows(buf, k, width, position + at + 1, bound))
  }

  /** What one record contributes: nothing when it has no header newline,
      otherwise its windows from offset 0 up to the loop bound. */
  function RecordRun(line: seq<Byte>, k: nat): Run
    requires k < 32
  {
    match FirstNewline(line)
    case None => Run([], None)
    case Some(nl) =>
      Windows(SeqBuffer(line, nl), k, Pow4(k), 0, LoopBound(|line| - (nl + 1), k))
  }

  // ---------------------------------------------------------------------------
  // The whole stream

  /** Where the C code would read past the end of a record's buffer. */
  datatype Fault = ReadPastBuffer(record: nat, position: nat)

  datatype Outcome = Outcome(slots: seq<nat>, fault: Option<Fault>)

  /** The records processed in order; the first fault ends the run. */
  function StreamRun(records: seq<seq<Byte>>, k: nat): Outcome
    requires k < 32
  {
    if records == [] then Outcome([], None)
    else
      var prev := StreamRun(records[..|records| - 1], k);
      if prev.fault.Some? then prev
      else
        var r := RecordRun(records[|records| - 1], k);
        Outcome(prev.slots + r.slots,
                if r.fault.Some? then Some(ReadPastBuffer(|records| - 1, r.fault.value)) else None)
  }

  /** Counters c after one more increment of each slot in `slots`. */
  function AddTally(c: seq<nat>, slots: seq<nat>): (r: seq<nat>)
    ensures |r| == |c|
  {
    seq(|c|, j requires 0 <= j < |c| => c[j] + multiset(slots)[j])
  }

  /** n zero-initialised counters after one increment of each slot in `slots`:
      counter j is the number of times j occurs there. */
  function Tally(slots: seq<nat>, n: nat): (r: seq<nat>)
    ensures |r| == n
  {
    AddTally(seq(n, _ => 0), slots)
  }

  // ---------------------------------------------------------------------------
  // The imperative driver

  /** One window's increment: counters[m]++ and nothing else changes. */
  lemma AddTallyStep(c: seq<nat>, slots: seq<nat>, m: nat)
    requires m < |c|
    ensures AddTally(c, slots + [m]) == AddTally(c, slots)[m := AddTally(c, slots)[m] + 1]
  {
    assert multiset(slots + [m]) == multiset(slots) + multiset{m};
  }

  lemma AddTallyConcat(c: seq<nat>, a: seq<nat>, b: seq<nat>)
    ensures AddTally(AddTally(c, a), b) == AddTally(c, a + b)
  {
    assert multiset(a + b) == multiset(a) + multiset(b);
  }

  /** The state of the windows loop at `position`: the slots counted so far,
      followed by what the windows from `position` on will count, make up the
      record's run. */
  ghost predicate WindowsSoFar(buf: seq<Byte>, k: nat, width: nat, bound: nat, slots: seq<nat>, position: nat)
  {
    position <= |buf| && (k > 0 || bound <= |buf|) &&
    var rest := Windows(buf, k, width, position, bound);
    Windows(buf, k, width, 0, bound) == Run(slots + rest.slots, rest.fault)
  }

  /** One window of a translated buffer: one that would read past the buffer
      ends the run with the slots so far; a complete one counts an index below
      4^k and moves on by one byte; an invalid one counts the error slot
      `width` and moves on to one past the ERROR byte. */
  lemma WindowsAdvance(buf: seq<Byte>, k: nat, width: nat, bound: nat, slots: seq<nat>, position: nat)
    requires WindowsSoFar(buf, k, width, bound, slots, position) && position < bound
    requires Translated(buf) && width == Pow4(k)
    ensures WindowScan(buf[position..], k).Overrun? ==> Windows(buf, k, width, 0, bound) == Run(slots, Some(position))
    ensures WindowScan(buf[position..], k).Complete? ==>
              var mer := Base4(WindowScan(buf[position..], k).digits);
              mer < width && WindowsSoFar(buf, k, width, bound, slots + [mer], position + 1)
    ensures WindowScan(buf[position..], k).Invalid? ==>
              var at := WindowScan(buf[position..], k).at;
              position + at < |buf| && WindowsSoFar(buf, k, width, bound, slots + [width], position + at + 1)
  {
    var scan := WindowScan(buf[position..], k);
    if scan.Overrun? {
      assert slots + [] == slots;
    } else if scan.Complete? {
      CompleteWindowBelowWidth(buf, k, position);
      var mer := Base4(scan.digits);
      var rest := Windows(buf, k, width, position + 1, bound);
      assert slots + ([mer] + rest.slots) == (slots + [mer]) + rest.slots;
    } else {
      WindowScanInvalidAt(buf[position..], k);
      var rest := Windows(buf, k, width, position + scan.at + 1, bound);
      assert slots + ([width] + rest.slots) == (slots + [width]) + rest.slots;
    }
  }

  /** One loop pass in terms of what calculate_mer returned: the slot it
      gives is a counter, and the loop state moves on one byte past the
      offset it left. */
  lemma WindowsMove(buf: seq<Byte>, k: nat, width: nat, bound: nat, slots: seq<nat>, position: nat, mer: nat, next: nat)
    requires WindowsSoFar(buf, k, width, bound, slots, position) && position < bound
    requires Translated(buf) && width == Pow4(k) && !WindowScan(buf[position..], k).Overrun?
    requires WindowScan(buf[position..], k).Complete? ==>
               mer == Base4(WindowScan(buf[position..], k).digits) && next == position
    requires WindowScan(buf[position..], k).Invalid? ==>
               mer == width && next == position + WindowScan(buf[position..], k).at
    ensures mer <= width && WindowsSoFar(buf, k, width, bound, slots + [mer], next + 1)
  {
    WindowsAdvance(buf, k, width, bound, slots, position);
  }

  /** A complete window over a translated buffer has an index below 4^k. */
  lemma CompleteWindowBelowWidth(buf: seq<Byte>, k: nat, position: nat)
    requires Translated(buf) && position <= |buf| && WindowScan(buf[position..], k).Complete?
    ensures Base4(WindowScan(buf[position..], k).digits) < Pow4(k)
  {
    assert Translated(buf[position..]) by {
      forall t | 0 <= t < |buf[position..]|
        ensures buf[position..][t] < 4 || buf[position..][t] == SPACE || buf[position..][t] == ERROR
      {
        assert buf[position..][t] == buf[position + t];
      }
    }
    WindowScanBelowWidth(buf[position..], k);
  }

  /** The buffer of a record with a header newline is translated, and its
      run is the windows over it. */
  lemma RecordBuffer(line: seq<Byte>, k: nat, nl: nat)
    requires k < 32 && FirstNewline(line) == Some(nl)
    ensures Translated(SeqBuffer(line, nl))
    ensures RecordRun(line, k) == Windows(SeqBuffer(line, nl), k, Pow4(k), 0, LoopBound(|line| - (nl + 1), k))
    ensures k > 0 || LoopBound(|line| - (nl + 1), k) <= |SeqBuffer(line, nl)|
  {
    var tail := line[nl + 1..] + [0];
    TranslateWithKmerAlpha(tail, |line| - (nl + 1));
    assert Translated(tail[|line| - (nl + 1)..]);
  }

  /** The window loop ends once the offset reaches the bound. */
  lemma WindowsDone(buf: seq<Byte>, k: nat, width: nat, bound: nat, slots: seq<nat>, position: nat)
    requires WindowsSoFar(buf, k, width, bound, slots, position) && position >= bound
    ensures Windows(buf, k, width, 0, bound) == Run(slots, None)
  {
    assert slots + [] == slots;
  }

  /** One pass of the window loop: `counts[calculate_mer(...)]++`. A complete
      window increments the counter of its index, one that meets an ERROR
      byte increments the error slot 4^k; no other counter changes. */
  method CountWindow(counts: array<nat>, str: array<Byte>, k: nat, position: nat) returns (mer: nat, next: nat)
    requires k < 32 && counts.Length == Pow4(k) + 1
    requires Translated(str[..]) && position <= str.Length
    requires !WindowScan(str[position..], k).Overrun?
    modifies counts
    ensures WindowScan(str[position..], k).Complete? ==>
              mer == Base4(WindowScan(str[position..], k).digits) && next == position
    ensures WindowScan(str[position..], k).Invalid? ==>
              mer == Pow4(k) && next == position + WindowScan(str[position..], k).at
    ensures mer < counts.Length && counts[..] == old(counts[..])[mer := old(counts[mer]) + 1]
  {
    var width := KmerPowFour(k);
    mer, next := CalculateMer(str, position, k, width);
    if WindowScan(str[position..], k).Complete? {
      CompleteWindowBelowWidth(str[..], k, position);
    }
    counts[mer] := counts[mer] + 1;
  }

  /** The window loop of kmer_counts_from_file over a translated buffer:
      from offset 0 while the offset is below `bound`, compute the window's
      index, increment its counter and move one byte past where calculate_mer
      left the offset. Returns the offset of the window at which the C code
      would read past the buffer, without reading there. */
  method CountWindows(counts: array<nat>, str: array<Byte>, k: nat, bound: nat) returns (fault: Option<nat>)
    requires k < 32 && counts.Length == Pow4(k) + 1
    requires Translated(str[..]) && (k > 0 || bound <= str.Length)
    modifies counts
    ensures counts[..] == AddTally(old(counts[..]), Windows(str[..], k, Pow4(k), 0, bound).slots)
    ensures fault == Windows(str[..], k, Pow4(k), 0, bound).fault
  {
    var width := KmerPowFour(k);
    ghost var buf := str[..];
    ghost var initial := counts[..];
    ghost var slots: seq<nat> := [];
    var position := 0;
    assert WindowsSoFar(buf, k, width, bound, slots, position) by {
      assert [] + Windows(buf, k, width, 0, bound).slots == Windows(buf, k, width, 0, bound).slots;
    }
    while position < bound
      invariant WindowsSoFar(buf, k, width, bound, slots, position)
      invariant counts[..] == AddTally(initial, slots)
      decreases bound - position
    {
      assert str[position..] == buf[position..];
      if WindowScan(str[position..], k).Overrun? {
        WindowsAdvance(buf, k, width, bound, slots, position);
        return Some(position);
      }
      var mer, next := CountWindow(counts, str, k, position);
      WindowsMove(buf, k, width, bound, slots, position, mer, next);
      AddTallyStep(initial, slots, mer);
      slots := slots + [mer];
      position := next + 1;
    }
    WindowsDone(buf, k, width, bound, slots, position);
    return None;
  }

  /** The body of the record loop of kmer_counts_from_file for one record:
      find the header newline (skip the record without one), copy the
      sequence part with its NUL terminator, translate it in place, then count
      its windows up to the size_t loop bound. */
  method CountRecord(counts: array<nat>, line: seq<Byte>, k: nat) returns (fault: Option<nat>)
    requires k < 32 && counts.Length == Pow4(k) + 1
    modifies counts
    ensures counts[..] == AddTally(old(counts[..]), RecordRun(line, k).slots)
    ensures fault == RecordRun(line, k).fault
  {
    var start := FirstNewline(line);
    if start.None? {
      assert AddTally(counts[..], []) == counts[..];
      return None;
    }
    var nl := start.value;
    var seqLength := |line| - (nl + 1);
    var str := new Byte[seqLength + 1](j requires 0 <= j <= seqLength => if j < seqLength then line[nl + 1 + j] else 0);
    assert str[..] == line[nl + 1..] + [0];
    TranslateNucleotidesToNumbers(str, seqLength, KmerAlpha());
    RecordBuffer(line, k, nl);
    fault := CountWindows(counts, str, k, LoopBound(seqLength, k));
  }

  /** One more record on a run without a fault: its slots follow, its
      fault, if any, is named with its record number, and the counters take
      its increments. */
  lemma StreamRunStep(done: seq<seq<Byte>>, line: seq<Byte>, k: nat, counts: seq<nat>, counts': seq<nat>)
    requires k < 32 && StreamRun(done, k).fault.None?
    requires counts == Tally(StreamRun(done, k).slots, Pow4(k) + 1)
    requires counts' == AddTally(counts, RecordRun(line, k).slots)
    ensures StreamRun(done + [line], k).slots == StreamRun(done, k).slots + RecordRun(line, k).slots
    ensures StreamRun(done + [line], k).fault ==
              if RecordRun(line, k).fault.Some? then Some(ReadPastBuffer(|done|, RecordRun(line, k).fault.value)) else None
    ensures counts' == Tally(StreamRun(done + [line], k).slots, Pow4(k) + 1)
  {
    assert (done + [line])[..|done|] == done;
    AddTallyConcat(seq(Pow4(k) + 1, _ => 0), StreamRun(done, k).slots, RecordRun(line, k).slots);
  }

  /** The state of the record loop: the records `done` are those getdelim
      returned before `rest`, none faulted, and `counts` tallies their slots. */
  ghost predicate RecordsSoFar(stream: seq<Byte>, k: nat, done: seq<seq<Byte>>, rest: seq<Byte>, counts: seq<nat>)
    requires k < 32
  {
    GetDelimRecords(stream) == done + GetDelimRecords(rest) &&
    StreamRun(done, k).fault.None? &&
    counts == Tally(StreamRun(done, k).slots, Pow4(k) + 1)
  }

  /** One pass of the record loop: the next record is counted; either the run
      goes on with it done, or its fault is the fault of the whole stream and
      the counts so far are the final counts. */
  lemma RecordsAdvance(stream: seq<Byte>, k: nat, done: seq<seq<Byte>>, rest: seq<Byte>, counts: seq<nat>, counts': seq<nat>)
    requires k < 32 && rest != [] && RecordsSoFar(stream, k, done, rest, counts)
    requires counts' == AddTally(counts, RecordRun(rest[..RecordEnd(rest)], k).slots)
    ensures var line := rest[..RecordEnd(rest)];
            RecordRun(line, k).fault.None? ==>
              RecordsSoFar(stream, k, done + [line], rest[RecordEnd(rest)..], counts')
    ensures var line := rest[..RecordEnd(rest)];
            RecordRun(line, k).fault.Some? ==>
              counts' == Tally(StreamRun(GetDelimRecords(stream), k).slots, Pow4(k) + 1) &&
              StreamRun(GetDelimRecords(stream), k).fault == Some(ReadPastBuffer(|done|, RecordRun(line, k).fault.value))
  {
    var n := RecordEnd(rest);
    var line := rest[..n];
    RecordsNext(stream, done, rest);
    StreamRunStep(done, line, k, counts, counts');
    if RecordRun(line, k).fault.Some? {
      StreamRunStops(done + [line], GetDelimRecords(rest[n..]), k);
    }
  }

  /** getdelim's next call returns the first record of what is left. */
  lemma RecordsNext(stream: seq<Byte>, done: seq<seq<Byte>>, rest: seq<Byte>)
    requires rest != [] && GetDelimRecords(stream) == done + GetDelimRecords(rest)
    ensures GetDelimRecords(stream) == (done + [rest[..RecordEnd(rest)]]) + GetDelimRecords(rest[RecordEnd(rest)..])
  {
    var n := RecordEnd(rest);
    assert GetDelimRecords(rest) == [rest[..n]] + GetDelimRecords(rest[n..]);
    assert done + ([rest[..n]] + GetDelimRecords(rest[n..])) == (done + [rest[..n]]) + GetDelimRecords(rest[n..]);
  }

  /** The record loop ends when getdelim has nothing more to return. */
  lemma RecordsEnd(stream: seq<Byte>, k: nat, done: seq<seq<Byte>>, counts: seq<nat>)
    requires k < 32 && RecordsSoFar(stream, k, done, [], counts)
    ensures counts == Tally(StreamRun(GetDelimRecords(stream), k).slots, Pow4(k) + 1)
    ensures StreamRun(GetDelimRecords(stream), k).fault.None?
  {
    assert done + [] == done;
  }

  /** kmer_counts_from_file over the bytes of the stream: 4^k + 1 zeroed
      counters, then each record's windows, in order. The fault names the
      record and window offset at which the C code would read past the
      record's buffer; the counts are those made before it. */
  method KmerCountsFromFile(stream: seq<Byte>, k: nat) returns (counts: array<nat>, fault: Option<Fault>)
    requires k < 32
    ensures fresh(counts) && counts.Length == Pow4(k) + 1
    ensures counts[..] == Tally(StreamRun(GetDelimRecords(stream), k).slots, Pow4(k) + 1)
    ensures fault == StreamRun(GetDelimRecords(stream), k).fault
  {
    var width := KmerPowFour(k);
    counts := new nat[width + 1](_ => 0);
    var rest := stream;
    ghost var done: seq<seq<Byte>> := [];
    var record := 0;
    assert RecordsSoFar(stream, k, done, rest, counts[..]);
    while rest != []
      invariant record == |done| && RecordsSoFar(stream, k, done, rest, counts[..])
      decreases |rest|
    {
      var n := RecordEnd(rest);
      var line := rest[..n];
      ghost var before := counts[..];
      var f := CountRecord(counts, line, k);
      RecordsAdvance(stream, k, done, rest, before, counts[..]);
      if f.Some? {
        return counts, Some(ReadPastBuffer(record, f.value));
      }
      done := done + [line];
      rest := rest[n..];
      record := record + 1;
    }
    RecordsEnd(stream, k, done, counts[..]);
    fault := None;
  }

  /** Records after a fault change nothing. */
  lemma {:induction false} StreamRunStops(done: seq<seq<Byte>>, later: seq<seq<Byte>>, k: nat)
    requires k < 32 && StreamRun(done, k).fault.Some?
    ensures StreamRun(done + later, k) == StreamRun(done, k)
    decreases |later|
  {
    if later != [] {
      var all := done + later;
      assert all[..|all| - 1] == done + later[..|later| - 1];
      StreamRunStops(done, later[..|later| - 1], k);
    } else {
      assert done + later == done;
    }
  }
}
