/** What the decoder of `intel_hex20.h` makes of what its encoder writes: every data
    record is accepted as type 0 and writes its bytes back at their addresses, the
    end-of-file record is accepted as type 1, and `read` stops at the end of the input;
    the memory image then holds the encoded range and nothing else changes. */
module RoundTrip {
  import opened Hex
  import opened Capabilities
  import opened IntelHex20Write
  import opened IntelHex20Read

  /** `line` stands in `text` from position `q`. */
  predicate LineAt(text: seq<char>, q: nat, line: string)
  {
    q + |line| <= |text| && text[q..q + |line|] == line
  }

  /** The pair for byte `k` of a line stands at `q + 1 + 2 * k` and reads back to it. */
  lemma PairsOfLine(text: seq<char>, q: nat, bytes: seq<Byte>, k: nat)
    requires LineAt(text, q, RecordLine(bytes)) && k < |bytes|
    ensures PairAt(text, q + 1 + 2 * k) == Some(bytes[k])
  {
    var r := RecordLine(bytes);
    RecordLineFormat(bytes, k);
    assert text[q + 1 + 2 * k] == r[1 + 2 * k] && text[q + 2 + 2 * k] == r[2 + 2 * k];
  }

  /** When every pair of a field parses, the data loop reads all of it. */
  lemma {:induction false} GoodPairsAll(text: seq<char>, p: nat, data: seq<Byte>)
    requires forall k | 0 <= k < |data| :: PairAt(text, p + 2 * k) == Some(data[k])
    ensures GoodPairs(text, p, |data|) == data
    decreases |data|
  {
    if data != [] {
      assert PairAt(text, p + 2 * 0) == Some(data[0]);
      forall k | 0 <= k < |data| - 1
        ensures PairAt(text, p + 2 + 2 * k) == Some(data[1..][k])
      {
        assert PairAt(text, p + 2 * (k + 1)) == Some(data[k + 1]);
      }
      GoodPairsAll(text, p + 2, data[1..]);
      assert [data[0]] + data[1..] == data;
    }
  }

  /** A record of `n` data bytes whose four header pairs, data pairs and checksum pair all
      parse, with type 0 or 1 and an 8-bit sum of zero, is accepted; it writes its data
      from the header's address and the reader stops right after the checksum pair. */
  lemma GoodRecordScan(text: seq<char>, p: nat, bytes: seq<Byte>, n: nat)
    requires |bytes| == n + 5 && bytes[0] as int == n && bytes[3] <= 1 && Sum(bytes) % 256 == 0
    requires RecordFields(text, p, bytes, n)
    ensures ScanRecord(text, p)
      == Record(p + 10 + 2 * n, true, Some(bytes[3]), DataPokes(bytes[1] as int * 256 + bytes[2], bytes[4..n + 4]), None)
  {
    GoodRecordSum(text, p, bytes, n);
    var data := bytes[4..n + 4];
    assert GoodPairs(text, p + 8, n) == data && |data| == n;
    assert PairAt(text, p + 8 + 2 * n) == Some(bytes[n + 4]);
    assert HeaderAddress(text, p) == bytes[1] as int * 256 + bytes[2];
  }

  /** The pairs of a record of `n` data bytes from `p`: four header pairs, the data pairs
      (all of which parse) and the checksum pair. */
  predicate RecordFields(text: seq<char>, p: nat, bytes: seq<Byte>, n: nat)
    requires |bytes| == n + 5
  {
    && PairAt(text, p) == Some(bytes[0]) && PairAt(text, p + 2) == Some(bytes[1])
    && PairAt(text, p + 4) == Some(bytes[2]) && PairAt(text, p + 6) == Some(bytes[3])
    && GoodPairs(text, p + 8, n) == bytes[4..n + 4]
    && PairAt(text, p + 8 + 2 * n) == Some(bytes[n + 4])
  }

  /** The header pairs of such a record are its first four bytes, so its sum is zero. */
  lemma GoodRecordSum(text: seq<char>, p: nat, bytes: seq<Byte>, n: nat)
    requires |bytes| == n + 5 && Sum(bytes) % 256 == 0 && bytes[3] <= 1
    requires RecordFields(text, p, bytes, n)
    ensures HeaderOk(text, p) && RecordSumsToZero(HeaderBytes(text, p), bytes[4..n + 4], bytes[n + 4])
  {
    assert HeaderBytes(text, p) + bytes[4..n + 4] + [bytes[n + 4]] == bytes;
  }

  /** The pairs of a line at `q`: byte `k` of the line stands at `q + 1 + 2 * k`. */
  lemma LinePairs(text: seq<char>, q: nat, bytes: seq<Byte>)
    requires LineAt(text, q, RecordLine(bytes))
    ensures forall k | 0 <= k < |bytes| :: PairAt(text, q + 1 + 2 * k) == Some(bytes[k])
  {
    forall k | 0 <= k < |bytes|
      ensures PairAt(text, q + 1 + 2 * k) == Some(bytes[k])
    {
      PairsOfLine(text, q, bytes, k);
    }
  }

  /** The line of a record of `n` data bytes: the colon at `q`, the pairs of the header,
      the data and the checksum, then the newline. */
  lemma RecordPairs(text: seq<char>, q: nat, bytes: seq<Byte>, n: nat)
    requires |bytes| == n + 5 && LineAt(text, q, RecordLine(bytes))
    ensures CharAt(text, q) == ':' && q + 2 * n + 11 < |text| && text[q + 2 * n + 11] == '\n'
    ensures RecordFields(text, q + 1, bytes, n)
  {
    var line := RecordLine(bytes);
    RecordLineFormat(bytes, 0);
    assert text[q + 2 * n + 11] == line[|line| - 1];
    assert CharAt(text, q) == line[0];
    LinePairs(text, q, bytes);
    FieldPairs(text, q + 1, bytes, n);
  }

  /** The fields of a record whose every pair parses: the header pairs, all `n` data
      pairs, and the checksum pair after them. */
  lemma FieldPairs(text: seq<char>, p: nat, bytes: seq<Byte>, n: nat)
    requires |bytes| == n + 5
    requires forall k | 0 <= k < |bytes| :: PairAt(text, p + 2 * k) == Some(bytes[k])
    ensures RecordFields(text, p, bytes, n)
  {
    assert PairAt(text, p + 2 * 0) == Some(bytes[0]) && PairAt(text, p + 2 * 1) == Some(bytes[1]);
    assert PairAt(text, p + 2 * 2) == Some(bytes[2]) && PairAt(text, p + 2 * 3) == Some(bytes[3]);
    var data := bytes[4..n + 4];
    forall i | 0 <= i < n
      ensures PairAt(text, p + 8 + 2 * i) == Some(data[i])
    {
      assert PairAt(text, p + 2 * (4 + i)) == Some(bytes[4 + i]);
    }
    GoodPairsAll(text, p + 8, data);
    assert PairAt(text, p + 2 * (n + 4)) == Some(bytes[n + 4]);
  }

  /** A record line at `q` of `n` data bytes, with type 0 or 1, a length byte that
      counts the data and an 8-bit sum of zero, is accepted by `read_line`: it writes the
      data from the header's address and the reader stops on the newline. */
  lemma RecordLineScan(text: seq<char>, q: nat, bytes: seq<Byte>, n: nat)
    requires |bytes| == n + 5 && bytes[0] as int == n && bytes[3] <= 1 && Sum(bytes) % 256 == 0
    requires LineAt(text, q, RecordLine(bytes))
    ensures q + 2 * n + 11 < |text| && text[q + 2 * n + 11] == '\n'
    ensures ScanLine(text, q)
      == Record(q + 2 * n + 11, true, Some(bytes[3]), DataPokes(bytes[1] as int * 256 + bytes[2], bytes[4..n + 4]), None)
  {
    RecordAfterColon(text, q, bytes, n);
    ColonScan(text, q);
  }

  /** The record after the colon of such a line. */
  lemma RecordAfterColon(text: seq<char>, q: nat, bytes: seq<Byte>, n: nat)
    requires |bytes| == n + 5 && bytes[0] as int == n && bytes[3] <= 1 && Sum(bytes) % 256 == 0
    requires LineAt(text, q, RecordLine(bytes))
    ensures CharAt(text, q) == ':' && q + 2 * n + 11 < |text| && text[q + 2 * n + 11] == '\n'
    ensures ScanRecord(text, q + 1)
      == Record(q + 2 * n + 11, true, Some(bytes[3]), DataPokes(bytes[1] as int * 256 + bytes[2], bytes[4..n + 4]), None)
  {
    RecordPairs(text, q, bytes, n);
    GoodRecordScan(text, q + 1, bytes, n);
  }

  /** A data record written by `write_data` is accepted by `read_line` as type 0: its
      writes are the bytes read for it, at their addresses, and the reader stops on the
      record's newline. */
  lemma DataLineScan(text: seq<char>, q: nat, mem: seq<Byte>, a: Word, n: RecordLen)
    requires |mem| == 65536 && LineAt(text, q, DataRecord(mem, a, n))
    ensures q + 2 * n + 11 < |text| && text[q + 2 * n + 11] == '\n'
    ensures ScanLine(text, q) == Record(q + 2 * n + 11, true, Some(0), DataPokes(a, Peeked(mem, a, n)), None)
  {
    var data := Peeked(mem, a, n);
    var bytes := WithChecksum(DataRecordBytes(a, data));
    DataRecordContent(mem, a, n);
    assert bytes[4..n + 4] == data;
    RecordLineScan(text, q, bytes, n);
  }

  /** The record `write_end` prints is accepted by `read_line` as type 1, writes nothing,
      and the reader stops right after it. */
  lemma EndLineScan(text: seq<char>, q: nat)
    requires LineAt(text, q, WriteEnd())
    ensures ScanLine(text, q) == Record(q + 11, true, Some(1), [], None)
  {
    var e := WriteEnd();
    WriteEndIsEndRecord();
    var p := q + 1;
    assert text[q..q + 11] == e;
    assert CharAt(text, q) == ':';
    assert PairAt(text, p) == Some(0) && PairAt(text, p + 2) == Some(0) by {
      assert text[p] == e[1] && text[p + 1] == e[2] && text[p + 2] == e[3] && text[p + 3] == e[4];
    }
    assert PairAt(text, p + 4) == Some(0) && PairAt(text, p + 6) == Some(1) by {
      assert text[p + 4] == e[5] && text[p + 5] == e[6] && text[p + 6] == e[7] && text[p + 7] == e[8];
    }
    assert PairAt(text, p + 8) == Some(Checksum([0, 0, 0, 1])) by {
      assert text[p + 8] == e[9] && text[p + 9] == e[10];
    }
    assert HeaderBytes(text, p) == [0, 0, 0, 1];
    assert HeaderBytes(text, p) + [] + [Checksum([0, 0, 0, 1])] == [0, 0, 0, 1] + [Checksum([0, 0, 0, 1])];
    ChecksumCompleted([0, 0, 0, 1]);
    ChecksumUnique([0, 0, 0, 1] + [Checksum([0, 0, 0, 1])], 0);
    assert SkipSpace(text, q) == q;
  }

  /** A line that starts with a colon is read as a record from the next character. */
  lemma ColonScan(text: seq<char>, q: nat)
    requires CharAt(text, q) == ':'
    ensures ScanLine(text, q) == ScanRecord(text, q + 1)
  {
    assert SkipSpace(text, q) == q;
  }

  /** A newline before a line is skipped as whitespace. */
  lemma SkipNewline(text: seq<char>, s: nat)
    requires s < |text| && text[s] == '\n'
    ensures ScanLine(text, s) == ScanLine(text, s + 1)
  {
    assert SkipSpace(text, s) == SkipSpace(text, s + 1);
  }

  /** At the end of the input the reader yields 0, which is not a colon: the line fails. */
  lemma EndOfInput(text: seq<char>)
    ensures ScanLine(text, |text|) == NotRecord(|text| + 1)
  {
    assert SkipSpace(text, |text|) == |text|;
  }

  /** A text whose suffix from `q` is `line + rest` holds `line` at `q`, and `rest` after it. */
  lemma SuffixSplit(text: string, q: nat, line: string, rest: string, q': nat)
    requires q <= |text| && text[q..] == line + rest && q' == q + |line|
    ensures LineAt(text, q, line) && q' <= |text| && text[q'..] == rest
  {
    assert text[q..q + |line|] == (line + rest)[..|line|];
    assert text[q'..] == (line + rest)[|line|..];
  }

  /** Every line is an accepted data record (type 0) with no stray write. */
  predicate DataLines(ls: seq<LineScan>)
  {
    forall i | 0 <= i < |ls| :: ls[i].Record? && ls[i].ok && ls[i].kind == Some(0) && ls[i].stray.None?
  }

  /** The writes a run of lines makes when no line has a stray write: every line's
      writes, one after the other. */
  function LinesWrites(ls: seq<LineScan>): seq<Poke>
  {
    if ls == [] then []
    else LinesWrites(ls[..|ls| - 1]) + (if ls[|ls| - 1].Record? then ls[|ls| - 1].writes else [])
  }

  /** No line of the run hit a stray address. */
  predicate NoStray(ls: seq<LineScan>)
  {
    forall i | 0 <= i < |ls| :: ls[i].Record? ==> ls[i].stray.None?
  }

  /** What is left of the text `write_all` printed when `read` has gone through the records
      before the next address `a`: from position `q` on, the records for the `rest` bytes
      still to come and the end-of-file record. The reader is at `q` at the start, and on
      the newline of the last record read otherwise. */
  predicate TextWalked(text: seq<char>, mem: seq<Byte>, a: Word, rest: nat, q: nat, s: nat, first: bool)
    requires |mem| == 65536
  {
    && q <= |text| && text[q..] == DataRecords(mem, a, rest) + WriteEnd()
    && (if first then s == q else s + 1 == q && text[s] == '\n')
  }

  /** The lines `read` has gone through after `records` data records: a run of accepted
      data records, whose writes are the first `done` bytes of the range at their
      addresses. */
  predicate RunWalked(text: seq<char>, mem: seq<Byte>, address: Word, done: nat, records: nat,
                      s: nat, ls: seq<LineScan>, ps: seq<Poke>)
    requires |mem| == 65536
  {
    && Run(text, 0, ls, s) && (ls != [] ==> Accepted(ls[|ls| - 1]))
    && AllLinePokes(ls, ps) && ps == DataPokes(address, Peeked(mem, address, done))
    && |ls| == records && DataLines(ls) && NoStray(ls) && LinesWrites(ls) == ps
  }

  /** The first records of a range: a record of `min(16, len)` bytes, then the rest. */
  lemma RecordsHead(mem: seq<Byte>, address: Word, len: nat, n: nat, address': Word, len': nat)
    requires |mem| == 65536 && len > 0 && n == Min(16, len)
    requires address' == Advance(address, n) && len' == len - n
    ensures DataRecords(mem, address, len) == DataRecord(mem, address, n) + DataRecords(mem, address', len')
  {
    var rest := Chunks(address', len');
    assert Chunks(address, len) == [Chunk(address, n)] + rest;
    assert Chunks(address, len)[1..] == rest;
  }

  /** The writes for `x` bytes and then `y` more are the writes for `x + y` bytes. */
  lemma PokesConcat(mem: seq<Byte>, address: Word, x: nat, y: nat, z: nat)
    requires |mem| == 65536 && z == x + y
    ensures DataPokes(address, Peeked(mem, address, x)) + DataPokes(Advance(address, x), Peeked(mem, Advance(address, x), y))
      == DataPokes(address, Peeked(mem, address, z))
  {
    var a := Advance(address, x);
    forall i | 0 <= i < y
      ensures Advance(a, i) == Advance(address, x + i)
    {
      AdvanceAdd(address, x, i);
    }
  }

  /** A data record of `n` bytes is `2 * n + 12` characters long. */
  lemma DataRecordLength(mem: seq<Byte>, a: Word, n: RecordLen)
    requires |mem| == 65536
    ensures |DataRecord(mem, a, n)| == 2 * n + 12
  {
    DataRecordContent(mem, a, n);
    RecordLineFormat(WithChecksum(DataRecordBytes(a, Peeked(mem, a, n))), 0);
  }

  /** The line `read_line` finds from `s`, at a data record at `q` or on the newline in
      front of it, is that record. */
  lemma ScanNext(text: seq<char>, s: nat, q: nat, mem: seq<Byte>, a: Word, n: RecordLen, s': nat)
    requires |mem| == 65536 && LineAt(text, q, DataRecord(mem, a, n)) && s' == q + 2 * n + 11
    requires s == q || (s + 1 == q && text[s] == '\n')
    ensures s' < |text| && text[s'] == '\n'
    ensures ScanLine(text, s) == Record(s', true, Some(0), DataPokes(a, Peeked(mem, a, n)), None)
  {
    DataLineScan(text, q, mem, a, n);
    if s != q {
      SkipNewline(text, s);
    }
  }

  /** While bytes remain, the next call of `read_line` reads the record for the next
      `n = min(16, rest)` of them, and the walk moves past it. */
  lemma TextStep(text: seq<char>, mem: seq<Byte>, a: Word, rest: nat, q: nat, s: nat, first: bool,
                 n: nat, a': Word, rest': nat, q': nat, s': nat)
    requires |mem| == 65536 && TextWalked(text, mem, a, rest, q, s, first) && rest > 0 && n == Min(16, rest)
    requires a' == Advance(a, n) && rest' == rest - n && q' == q + 2 * n + 12 && s' == q + 2 * n + 11
    ensures ScanLine(text, s) == Record(s', true, Some(0), DataPokes(a, Peeked(mem, a, n)), None)
    ensures TextWalked(text, mem, a', rest', q', s', false)
  {
    var line := DataRecord(mem, a, n);
    var after := DataRecords(mem, a', rest');
    RecordsHead(mem, a, rest, n, a', rest');
    AppendAssoc(line, after, WriteEnd());
    DataRecordLength(mem, a, n);
    SuffixSplit(text, q, line, after + WriteEnd(), q');
    ScanNext(text, s, q, mem, a, n, s');
  }

  /** Adding one more accepted data record keeps every line one. */
  lemma DataLinesSnoc(ls: seq<LineScan>, sc: LineScan)
    requires DataLines(ls) && sc.Record? && sc.ok && sc.kind == Some(0) && sc.stray.None?
    ensures DataLines(ls + [sc])
    ensures NoStray(ls) ==> NoStray(ls + [sc])
  {
    forall i | 0 <= i < |ls| + 1
      ensures (ls + [sc])[i] == if i < |ls| then ls[i] else sc
    {
    }
  }

  /** The next data record extends the run by one accepted line and its writes. */
  lemma RunStep(text: seq<char>, mem: seq<Byte>, address: Word, done: nat, records: nat,
                s: nat, ls: seq<LineScan>, ps: seq<Poke>, n: nat, sc: LineScan,
                done': nat, s': nat, ls': seq<LineScan>, ps': seq<Poke>)
    requires |mem| == 65536 && RunWalked(text, mem, address, done, records, s, ls, ps)
    requires var a := Advance(address, done);
      sc == Record(s', true, Some(0), DataPokes(a, Peeked(mem, a, n)), None) && ScanLine(text, s) == sc
    requires done' == done + n && ls' == ls + [sc] && ps' == ps + sc.writes
    ensures RunWalked(text, mem, address, done', records + 1, s', ls', ps')
  {
    RunSnoc(text, 0, ls, s);
    AllLinePokesSnoc(ls, sc, ps, sc.writes);
    PokesConcat(mem, address, done, n, done');
    DataLinesSnoc(ls, sc);
    assert ls'[..|ls|] == ls;
  }

  /** The line `read_line` finds from `s`, at the end-of-file record at `q` or on the
      newline in front of it, is that record. */
  lemma EndScan(text: seq<char>, s: nat, q: nat)
    requires LineAt(text, q, WriteEnd())
    requires s == q || (s + 1 == q && text[s] == '\n')
    ensures ScanLine(text, s) == Record(q + 11, true, Some(1), [], None)
  {
    EndLineScan(text, q);
    if s != q {
      SkipNewline(text, s);
    }
  }

  /** Once no bytes remain, `read_line` reads the end-of-file record and then fails at the
      end of the input. */
  lemma TextEnd(text: seq<char>, mem: seq<Byte>, a: Word, q: nat, s: nat, first: bool)
    requires |mem| == 65536 && TextWalked(text, mem, a, 0, q, s, first)
    ensures ScanLine(text, s) == Record(|text|, true, Some(1), [], None)
    ensures ScanLine(text, |text|) == NotRecord(|text| + 1)
  {
    assert DataRecords(mem, a, 0) == "";
    assert "" + WriteEnd() == WriteEnd();
    WriteEndIsEndRecord();
    SuffixSplit(text, q, WriteEnd(), "", q + 11);
    EndScan(text, s, q);
    EndOfInput(text);
  }

  /** Two lines appended one at a time are the two appended together, and taking them
      off again gives back the prefixes. */
  lemma SnocTwo<T>(ls: seq<T>, e: T, f: T)
    ensures ls + [e] + [f] == ls + [e, f]
    ensures (ls + [e, f])[..|ls| + 1] == ls + [e] && (ls + [e])[..|ls|] == ls && (ls + [e, f])[..|ls|] == ls
  {
  }

  /** Closing a run of data lines with the end-of-file record and the failing line adds
      no stray write and no write. */
  lemma CloseLines(ls: seq<LineScan>, e: LineScan, f: LineScan)
    requires NoStray(ls) && e.Record? && e.writes == [] && e.stray.None? && f.NotRecord?
    ensures NoStray(ls + [e, f]) && LinesWrites(ls + [e, f]) == LinesWrites(ls)
  {
    SnocTwo(ls, e, f);
    var all := ls + [e, f];
    forall i | 0 <= i < |all|
      ensures all[i] == if i < |ls| then ls[i] else if i == |ls| then e else f
    {
    }
    assert LinesWrites(all) == LinesWrites(ls + [e]);
    assert LinesWrites(ls + [e]) == LinesWrites(ls) + [];
  }

  /** The end-of-file record and the failing line after it close the run. */
  lemma RunEnd(text: seq<char>, s: nat, ls: seq<LineScan>, ps: seq<Poke>) returns (all: seq<LineScan>)
    requires Run(text, 0, ls, s) && (ls != [] ==> Accepted(ls[|ls| - 1])) && AllLinePokes(ls, ps)
    requires NoStray(ls) && LinesWrites(ls) == ps
    requires ScanLine(text, s) == Record(|text|, true, Some(1), [], None)
    requires ScanLine(text, |text|) == NotRecord(|text| + 1)
    ensures all == ls + [Record(|text|, true, Some(1), [], None), NotRecord(|text| + 1)]
    ensures Run(text, 0, all, |text| + 1) && AllLinePokes(all, ps)
    ensures NoStray(all) && LinesWrites(all) == ps
    ensures all[..|all| - 2] == ls && !Accepted(all[|all| - 1])
  {
    var e := Record(|text|, true, Some(1), [], None);
    var f := NotRecord(|text| + 1);
    SnocTwo(ls, e, f);
    RunSnoc(text, 0, ls, s);
    AllLinePokesSnoc(ls, e, ps, []);
    assert ps + [] == ps;
    RunSnoc(text, 0, ls + [e], |text|);
    AllLinePokesSnoc(ls + [e], f, ps, []);
    all := ls + [e, f];
    CloseLines(ls, e, f);
  }

  /** The text both encoders print for `len` bytes of `mem` from `address`. */
  function Encoded(mem: seq<Byte>, address: Word, len: nat): string
    requires |mem| == 65536
  {
    DataRecords(mem, address, len) + WriteEnd()
  }

  /** The address after `n` more bytes, counted from where `done` bytes left it. */
  lemma AdvanceNext(address: Word, done: nat, a: Word, n: nat, next: nat)
    requires a == Advance(address, done) && next == done + n
    ensures Advance(a, n) == Advance(address, next)
  {
    AdvanceAdd(address, done, n);
  }

  /** The next record read moves both the text walk and the run past it: `n` more bytes
      are done, the reader stands on the record's newline `s'` and the next record starts
      at `q'`. */
  lemma ReadNext(text: seq<char>, mem: seq<Byte>, address: Word, done: nat, records: nat,
                 rest: nat, q: nat, s: nat, first: bool, data: seq<LineScan>, ps: seq<Poke>,
                 n: nat, a: Word, sc: LineScan,
                 done': nat, rest': nat, q': nat, s': nat, data': seq<LineScan>, ps': seq<Poke>)
    requires |mem| == 65536 && rest != 0 && n == Min(16, rest) && a == Advance(address, done)
    requires TextWalked(text, mem, a, rest, q, s, first)
    requires RunWalked(text, mem, address, done, records, s, data, ps)
    requires done' == done + n && rest' == rest - n && q' == q + 2 * n + 12 && s' == q + 2 * n + 11
    requires sc == Record(s', true, Some(0), DataPokes(a, Peeked(mem, a, n)), None)
    requires data' == data + [sc] && ps' == ps + sc.writes
    ensures TextWalked(text, mem, Advance(address, done'), rest', q', s', false)
    ensures RunWalked(text, mem, address, done', records + 1, s', data', ps')
  {
    AdvanceNext(address, done, a, n, done');
    TextStep(text, mem, a, rest, q, s, first, n, Advance(address, done'), rest', q', s');
    RunStep(text, mem, address, done, records, s, data, ps, n, sc, done', s', data', ps');
  }

  /** One pass of the walk: the next record is read, the text and the run move past it,
      and the counts of bytes and records go up. */
  lemma WalkStep(text: seq<char>, mem: seq<Byte>, address: Word, len: nat,
                 done: nat, records: nat, rest: nat, q: nat, s: nat, first: bool,
                 data: seq<LineScan>, ps: seq<Poke>)
    returns (done': nat, records': nat, rest': nat, q': nat, s': nat, first': bool, data': seq<LineScan>, ps': seq<Poke>)
    requires |mem| == 65536 && rest != 0 && done + rest == len
    requires done <= 16 * records < done + 16 && (rest == 0 || done == 16 * records)
    requires TextWalked(text, mem, Advance(address, done), rest, q, s, first)
    requires RunWalked(text, mem, address, done, records, s, data, ps)
    ensures done' + rest' == len && rest' < rest
    ensures done' <= 16 * records' < done' + 16 && (rest' == 0 || done' == 16 * records')
    ensures TextWalked(text, mem, Advance(address, done'), rest', q', s', first')
    ensures RunWalked(text, mem, address, done', records', s', data', ps')
  {
    var n := Min(16, rest);
    var a := Advance(address, done);
    var sc := Record(q + 2 * n + 11, true, Some(0), DataPokes(a, Peeked(mem, a, n)), None);
    done', records', rest' := done + n, records + 1, rest - n;
    q', s', first', data', ps' := q + 2 * n + 12, q + 2 * n + 11, false, data + [sc], ps + sc.writes;
    ReadNext(text, mem, address, done, records, rest, q, s, first, data, ps, n, a, sc,
             done', rest', q', s', data', ps');
  }

  /** A range of `len` bytes takes `ceil(len / 16)` records. */
  lemma CountRecords(len: nat, records: nat)
    requires len <= 16 * records < len + 16
    ensures records == (len + 15) / 16
  {
  }

  /** When the walk has used up all `len` bytes, the end-of-file record and the failing
      line close the run of `read` over the whole text. */
  lemma WalkEnd(text: seq<char>, mem: seq<Byte>, address: Word, len: nat, done: nat, rest: nat,
                records: nat, q: nat, s: nat, first: bool, data: seq<LineScan>, ps: seq<Poke>)
    returns (ls: seq<LineScan>)
    requires |mem| == 65536 && rest == 0 && done + rest == len && done <= 16 * records < done + 16
    requires TextWalked(text, mem, Advance(address, done), rest, q, s, first)
    requires RunWalked(text, mem, address, done, records, s, data, ps)
    ensures ReadsBack(text, mem, address, len, ls)
  {
    TextEnd(text, mem, Advance(address, done), q, s, first);
    ls := RunEnd(text, s, data, ps);
    CloseReadsBack(text, mem, address, len, done, records, s, data, ps, ls);
  }

  /** The data lines of the whole range, closed by the end-of-file record and the failing
      line, are the run `ReadsBack` describes. */
  lemma CloseReadsBack(text: seq<char>, mem: seq<Byte>, address: Word, len: nat, done: nat,
                       records: nat, s: nat, data: seq<LineScan>, ps: seq<Poke>, all: seq<LineScan>)
    requires |mem| == 65536 && done == len && done <= 16 * records < done + 16
    requires RunWalked(text, mem, address, done, records, s, data, ps)
    requires all == data + [Record(|text|, true, Some(1), [], None), NotRecord(|text| + 1)]
    requires Run(text, 0, all, |text| + 1) && AllLinePokes(all, ps)
    requires NoStray(all) && LinesWrites(all) == ps
    requires all[..|all| - 2] == data && !Accepted(all[|all| - 1])
    ensures ReadsBack(text, mem, address, len, all)
  {
    CountRecords(len, records);
  }

  /** The lines `read` goes through on `text`, the encoding of `len` bytes of `mem` from
      `address`: one accepted data record (type 0) per 16 bytes, the last one shorter, then
      the accepted end-of-file record (type 1) ending at the end of the text, then a line
      that fails right after it. The lines write the range's bytes at their addresses, in
      order, and nothing else. */
  predicate ReadsBack(text: seq<char>, mem: seq<Byte>, address: Word, len: nat, ls: seq<LineScan>)
    requires |mem| == 65536
  {
    && Run(text, 0, ls, |text| + 1) && ls != [] && !Accepted(ls[|ls| - 1])
    && AllLinePokes(ls, DataPokes(address, Peeked(mem, address, len)))
    && NoStray(ls) && LinesWrites(ls) == DataPokes(address, Peeked(mem, address, len))
    && |ls| == (len + 15) / 16 + 2 && DataLines(ls[..|ls| - 2])
    && ls[|ls| - 2] == Record(|text|, true, Some(1), [], None)
  }

  /** Before `read` has read anything, the whole text is still ahead and the run is empty. */
  lemma WalkStart(text: seq<char>, mem: seq<Byte>, address: Word, len: nat)
    requires |mem| == 65536 && text == Encoded(mem, address, len)
    ensures TextWalked(text, mem, Advance(address, 0), len, 0, 0, true)
    ensures RunWalked(text, mem, address, 0, 0, 0, [], [])
  {
    assert text[0..] == text;
    assert DataPokes(address, Peeked(mem, address, 0)) == [];
  }

  /** From any point of the walk on, `read` goes through the data records for the `rest`
      bytes still to come, then the end-of-file record, then fails at the end of the
      input. */
  lemma WalkFrom(text: seq<char>, mem: seq<Byte>, address: Word, len: nat,
                 done: nat, records: nat, rest: nat, q: nat, s: nat, first: bool,
                 data: seq<LineScan>, ps: seq<Poke>)
    returns (ls: seq<LineScan>)
    requires |mem| == 65536 && done + rest == len
    requires done <= 16 * records < done + 16 && (rest == 0 || done == 16 * records)
    requires TextWalked(text, mem, Advance(address, done), rest, q, s, first)
    requires RunWalked(text, mem, address, done, records, s, data, ps)
    ensures ReadsBack(text, mem, address, len, ls)
    decreases rest
  {
    if rest == 0 {
      ls := WalkEnd(text, mem, address, len, done, rest, records, q, s, first, data, ps);
    } else {
      var done', records', rest', q', s', first', data', ps' :=
        WalkStep(text, mem, address, len, done, records, rest, q, s, first, data, ps);
      ls := WalkFrom(text, mem, address, len, done', records', rest', q', s', first', data', ps');
    }
  }

  /** Reading the encoded text, `read` goes through one accepted data record per 16 bytes
      (the last one shorter), writing the range's bytes at their addresses, then the
      accepted end-of-file record, then fails at the end of the input. */
  lemma EncodedRun(text: seq<char>, mem: seq<Byte>, address: Word, len: nat) returns (ls: seq<LineScan>)
    requires |mem| == 65536 && text == Encoded(mem, address, len)
    ensures ReadsBack(text, mem, address, len, ls)
  {
    WalkStart(text, mem, address, len);
    ls := WalkFrom(text, mem, address, len, 0, 0, len, 0, 0, true, [], []);
  }

  /** The first `k` lines of a run are a run, ending where line `k` stopped. */
  lemma {:induction false} RunPrefix(text: seq<char>, start: nat, ls: seq<LineScan>, pos: nat, k: nat)
    requires Run(text, start, ls, pos) && 0 < k <= |ls|
    ensures Run(text, start, ls[..k], ls[k - 1].next)
    decreases |ls|
  {
    if k < |ls| {
      var prev := ls[..|ls| - 1];
      RunPrefix(text, start, prev, if prev == [] then start else prev[|prev| - 1].next, k);
      assert prev[..k] == ls[..k];
    } else {
      assert ls[..k] == ls;
    }
  }

  /** Every line of a run but the last was accepted. */
  lemma RunAccepted(text: seq<char>, start: nat, ls: seq<LineScan>, pos: nat, i: nat)
    requires Run(text, start, ls, pos) && i + 1 < |ls|
    ensures Accepted(ls[i])
  {
    RunPrefix(text, start, ls, pos, i + 2);
    var p := ls[..i + 2];
    assert p[..|p| - 1][|p| - 2] == ls[i];
  }

  /** Two runs from the same position agree on their common length. */
  lemma {:induction false} RunsPrefix(text: seq<char>, start: nat, xs: seq<LineScan>, xpos: nat, ys: seq<LineScan>, ypos: nat)
    requires Run(text, start, xs, xpos) && Run(text, start, ys, ypos) && |xs| <= |ys|
    ensures xs == ys[..|xs|]
    decreases |xs|
  {
    if xs != [] {
      var m := |xs|;
      RunPrefix(text, start, ys, ypos, m);
      var zs := ys[..m];
      var xprev, zprev := xs[..m - 1], zs[..m - 1];
      var xfrom := if xprev == [] then start else xprev[|xprev| - 1].next;
      var zfrom := if zprev == [] then start else zprev[|zprev| - 1].next;
      RunsPrefix(text, start, xprev, xfrom, zprev, zfrom);
      assert zprev[..m - 1] == zprev;
      FrontLast(xs);
      FrontLast(zs);
    }
  }

  /** A non-empty sequence is its front followed by its last element. */
  lemma FrontLast<T>(s: seq<T>)
    requires s != []
    ensures s == s[..|s| - 1] + [s[|s| - 1]]
  {
  }

  /** A run that is a strict prefix of another ends in an accepted line. */
  lemma ShorterRun(text: seq<char>, start: nat, xs: seq<LineScan>, xpos: nat, ys: seq<LineScan>, ypos: nat)
    requires Run(text, start, xs, xpos) && Run(text, start, ys, ypos) && 0 < |xs| < |ys|
    ensures Accepted(xs[|xs| - 1])
  {
    RunsPrefix(text, start, xs, xpos, ys, ypos);
    RunAccepted(text, start, ys, ypos, |xs| - 1);
    assert xs[|xs| - 1] == ys[|xs| - 1];
  }

  /** `read` stops at its first line that is not accepted, so two runs from the same
      position that both end in such a line are the same run. */
  lemma RunsAgree(text: seq<char>, start: nat, xs: seq<LineScan>, xpos: nat, ys: seq<LineScan>, ypos: nat)
    requires Run(text, start, xs, xpos) && xs != [] && !Accepted(xs[|xs| - 1])
    requires Run(text, start, ys, ypos) && ys != [] && !Accepted(ys[|ys| - 1])
    ensures xs == ys && xpos == ypos
  {
    if |xs| < |ys| {
      ShorterRun(text, start, xs, xpos, ys, ypos);
      assert false;
    } else if |ys| < |xs| {
      ShorterRun(text, start, ys, ypos, xs, xpos);
      assert false;
    } else {
      RunsPrefix(text, start, xs, xpos, ys, ypos);
      assert ys[..|xs|] == ys;
    }
  }

  /** Without stray writes, the writes of a run are its lines' writes in order. */
  lemma {:induction false} PokesOfRun(ls: seq<LineScan>, ps: seq<Poke>)
    requires AllLinePokes(ls, ps) && NoStray(ls)
    ensures ps == LinesWrites(ls)
    decreases |ls|
  {
    if ls != [] {
      var last := ls[|ls| - 1];
      var k := |ps| - LineWriteCount(last);
      assert NoStray(ls[..|ls| - 1]) by {
        forall i | 0 <= i < |ls| - 1 ensures ls[..|ls| - 1][i] == ls[i] { }
      }
      PokesOfRun(ls[..|ls| - 1], ps[..k]);
      assert ps[k..] == if last.Record? then last.writes else [];
      assert ps == ps[..k] + ps[k..];
    }
  }

  /** Whatever `read` does on the encoded text, it goes through exactly the run above: it
      stops right after the end of the input, having written the range's bytes at their
      addresses in order and nothing else. */
  lemma DecodesEncoded(text: seq<char>, mem: seq<Byte>, address: Word, len: nat,
                        lines: seq<LineScan>, pos: nat, writes: seq<Poke>)
    requires |mem| == 65536 && text == Encoded(mem, address, len)
    requires Run(text, 0, lines, pos) && lines != [] && !Accepted(lines[|lines| - 1])
    requires AllLinePokes(lines, writes)
    ensures pos == |text| + 1
    ensures writes == DataPokes(address, Peeked(mem, address, len))
    ensures |lines| == (len + 15) / 16 + 2 && DataLines(lines[..|lines| - 2])
    ensures lines[|lines| - 2] == Record(|text|, true, Some(1), [], None)
  {
    var ls := EncodedRun(text, mem, address, len);
    RunsAgree(text, 0, lines, pos, ls, |text| + 1);
    PokesOfRun(lines, writes);
  }

  /** Address `x` is one of the `len` addresses from `address` on, counted modulo 65536. */
  predicate Covered(address: Word, len: nat, x: Word)
  {
    (x - address) % 65536 < len
  }

  /** One more address covers one more cell. */
  lemma CoveredSnoc(address: Word, len: nat, x: Word)
    ensures Covered(address, len + 1, x) <==> Covered(address, len, x) || x == Advance(address, len)
  {
    AdvanceWraps(address, len);
    var d := (x - address) % 65536;
    if len < 65536 {
      assert x == (address + d) % 65536;
      assert d == len <==> x == (address + len) % 65536;
    }
  }

  /** Writing the first `len` bytes of the range back at their addresses leaves the image
      equal to `mem` on the covered addresses and unchanged elsewhere. */
  lemma {:induction false} ApplyRange(img: seq<Byte>, mem: seq<Byte>, address: Word, len: nat, x: Word)
    requires |img| == 65536 && |mem| == 65536
    ensures Apply(img, DataPokes(address, Peeked(mem, address, len)))[x]
      == if Covered(address, len, x) then mem[x] else img[x]
  {
    if len > 0 {
      var n := len - 1;
      var b := Advance(address, n);
      assert Peeked(mem, address, len) == Peeked(mem, address, n) + [mem[b]];
      DataPokesSnoc(address, Peeked(mem, address, n), mem[b]);
      ApplySnoc(img, DataPokes(address, Peeked(mem, address, n)), Poke(b, mem[b]));
      ApplyRange(img, mem, address, n, x);
      CoveredSnoc(address, n, x);
    }
  }

  /** Encoding `len` bytes of `mem` from `address` with `write_all` and decoding the text
      with `read` into the image `blank`: `read` returns false at the end of the input, and
      the image holds `mem`'s bytes on the encoded addresses and `blank`'s elsewhere. */
  method EncodeThenDecode(mem: seq<Byte>, blank: seq<Byte>, address: Word, len: nat)
    returns (ok: bool, image: seq<Byte>)
    requires |mem| == 65536 && |blank| == 65536
    ensures !ok && |image| == 65536
    ensures forall x: Word :: image[x] == if Covered(address, len, x) then mem[x] else blank[x]
  {
    var w := new Writer();
    var source := new Memory(mem);
    WriteAll(w, source, address, len);
    assert w.text == Encoded(mem, address, len);
    var r := new Reader(w.text);
    var target := new Memory(blank);
    ghost var lines, writes;
    ok, lines, writes := Read(r, target);
    DecodesEncoded(r.text, mem, address, len, lines, r.pos, writes);
    image := target.cells[..];
    forall x: Word
      ensures image[x] == if Covered(address, len, x) then mem[x] else blank[x]
    {
      ApplyRange(blank, mem, address, len, x);
    }
  }
}
