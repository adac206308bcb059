/** The encoder of `intel_hex20.h`: a memory range becomes data records of at most 16
    bytes, `:LLAAAA00DD..CC` plus a newline each, and the writer closes the stream with the
    end-of-file record `:00000001FF`. */
module IntelHex20Write {
  import opened Hex
  import opened Capabilities

  function Min(x: nat, y: nat): nat
  {
    if x <= y then x else y
  }

  /** `helpers::write_byte`: `sprintf("%02x")`, two zero-padded lower-case digits, which
      `strtol` reads back to the byte. */
  function WriteByte(val: Byte): (r: string)
    ensures |r| == 2 && IsLowerHex(r[0]) && IsLowerHex(r[1])
    ensures IsXDigit(r[0]) && IsXDigit(r[1]) && PairValue(r[0], r[1]) == val
  {
    [LowerDigit(val / 16), LowerDigit(val % 16)]
  }

  /** `helpers::write_word`: the high byte, then the low byte (big-endian); the four
      digits read back, high pair first, to the word. */
  function WriteWord(val: Word): (r: string)
    ensures |r| == 4 && IsLowerHex(r[0]) && IsLowerHex(r[1]) && IsLowerHex(r[2]) && IsLowerHex(r[3])
    ensures IsXDigit(r[0]) && IsXDigit(r[1]) && IsXDigit(r[2]) && IsXDigit(r[3])
    ensures PairValue(r[0], r[1]) * 256 + PairValue(r[2], r[3]) == val
  {
    WriteByte(val / 256) + WriteByte(val % 256)
  }

  /** `write_end`: the end-of-file record, upper-case `FF`, no newline. */
  function WriteEnd(): (r: string)
    ensures |r| == 11 && r[0] == ':' && '\n' !in r
  {
    ":00000001FF"
  }

  /** `:00000001FF` is an end-of-file record: no data, address 0, type 1, and `FF` is the
      checksum of those four bytes. */
  lemma WriteEndIsEndRecord()
    ensures var e := WriteEnd();
      && |e| == 11 && e[0] == ':'
      && (forall k :: 1 <= k < 11 ==> IsXDigit(e[k]))
      && PairValue(e[1], e[2]) == 0 && PairValue(e[3], e[4]) == 0 && PairValue(e[5], e[6]) == 0
      && PairValue(e[7], e[8]) == 1
      && PairValue(e[9], e[10]) == Checksum([0, 0, 0, 1])
  {
    SumOfFour(0, 0, 0, 1);
  }

  /** Two digits per byte, in order. */
  function HexBytes(data: seq<Byte>): (r: string)
    ensures |r| == 2 * |data|
  {
    if data == [] then []
    else HexBytes(data[..|data| - 1]) + WriteByte(data[|data| - 1])
  }

  /** One more byte adds its two digits at the end. */
  lemma HexBytesSnoc(data: seq<Byte>, val: Byte)
    ensures HexBytes(data + [val]) == HexBytes(data) + WriteByte(val)
  {
    assert (data + [val])[..|data|] == data;
  }

  /** The two digits at `2 * i` are byte `i`. */
  lemma {:induction false} HexBytesAt(data: seq<Byte>, i: nat)
    requires i < |data|
    ensures HexBytes(data)[2 * i..2 * i + 2] == WriteByte(data[i])
  {
    var p := data[..|data| - 1];
    if i < |p| {
      HexBytesAt(p, i);
      assert HexBytes(data)[..2 * |p|] == HexBytes(p);
    } else {
      assert HexBytes(data)[2 * |p|..] == WriteByte(data[i]);
    }
  }

  /** A line of the format: a colon, two digits per byte, a newline. */
  function RecordLine(bytes: seq<Byte>): string
  {
    ":" + HexBytes(bytes) + "\n"
  }

  /** Every byte of a line can be read back from its two digits, which are lower-case
      hex; the line opens with `:` and ends with a newline. */
  lemma RecordLineFormat(bytes: seq<Byte>, k: nat)
    requires k < |bytes|
    ensures var r := RecordLine(bytes);
      && |r| == 2 * |bytes| + 2 && r[0] == ':' && r[|r| - 1] == '\n'
      && IsLowerHex(r[1 + 2 * k]) && IsLowerHex(r[2 + 2 * k])
      && IsXDigit(r[1 + 2 * k]) && IsXDigit(r[2 + 2 * k])
      && PairValue(r[1 + 2 * k], r[2 + 2 * k]) == bytes[k]
  {
    var r := RecordLine(bytes);
    HexBytesAt(bytes, k);
    assert r[1 + 2 * k..3 + 2 * k] == HexBytes(bytes)[2 * k..2 * k + 2];
  }

  /** The bytes `write_data` reads for `n` bytes from `address`: one per address, the
      16-bit address incremented after each. */
  function Peeked(mem: seq<Byte>, address: Word, n: nat): (r: seq<Byte>)
    requires |mem| == 65536
  {
    seq(n, i requires 0 <= i < n => mem[Advance(address, i)])
  }

  /** The addresses `write_data` reads, in the order it reads them. */
  function PeekOrder(address: Word, n: nat): seq<Word>
  {
    seq(n, i requires 0 <= i < n => Advance(address, i))
  }

  /** The bytes a data record's checksum covers: length, address high, address low, type 0,
      then the data. */
  function DataRecordBytes(address: Word, data: seq<Byte>): seq<Byte>
    requires |data| < 256
  {
    [|data|, address / 256, address % 256, 0] + data
  }

  /** The bytes followed by their checksum. */
  function WithChecksum(bytes: seq<Byte>): seq<Byte>
  {
    bytes + [Checksum(bytes)]
  }

  /** The number of bytes in one data record `write_data` emits. */
  type RecordLen = n: int | 1 <= n <= 16 witness 16

  /** One data record of `n` bytes from `address`, with its newline. */
  function DataRecord(mem: seq<Byte>, address: Word, n: RecordLen): string
    requires |mem| == 65536
  {
    RecordLine(WithChecksum(DataRecordBytes(address, Peeked(mem, address, n))))
  }

  /** The bytes of a data record: the length `n`, the big-endian address, type 0, memory
      at `address + i` modulo 65536 for each `i < n`, and a last byte that brings the 8-bit
      sum of them all to zero. */
  lemma DataRecordContent(mem: seq<Byte>, address: Word, n: RecordLen)
    requires |mem| == 65536
    ensures var b := WithChecksum(DataRecordBytes(address, Peeked(mem, address, n)));
      && DataRecord(mem, address, n) == RecordLine(b)
      && |b| == n + 5 && b[0] == n && b[1] as int * 256 + b[2] == address && b[3] == 0
      && (forall i :: 0 <= i < n ==> b[4..][i] == mem[(address + i) % 65536])
      && Sum(b) % 256 == 0
  {
    var data := Peeked(mem, address, n);
    var bytes := DataRecordBytes(address, data);
    forall i | 0 <= i < n
      ensures WithChecksum(bytes)[4..][i] == mem[(address + i) % 65536]
    {
      AdvanceWraps(address, i);
    }
    SumConcat(bytes, [Checksum(bytes)]);
    assert Sum([Checksum(bytes)]) == Checksum(bytes) by {
      assert [Checksum(bytes)][..0] == [];
    }
  }

  /** Where a record starts and how many bytes it holds. */
  datatype Chunk = Chunk(address: Word, count: RecordLen)

  /** How `write_data` cuts a range into records: `min(16, len)` bytes, then the rest from
      the wrapped next address. */
  function Chunks(address: Word, len: nat): (r: seq<Chunk>)
    decreases len
  {
    if len == 0 then []
    else
      var n := Min(16, len);
      [Chunk(address, n)] + Chunks(Advance(address, n), len - n)
  }

  /** A range of `len` bytes makes ceil(len / 16) records; none for an empty range. */
  lemma {:induction false} ChunksCount(address: Word, len: nat)
    ensures |Chunks(address, len)| == (len + 15) / 16
    decreases len
  {
    if len > 0 {
      var n := Min(16, len);
      ChunksCount(Advance(address, n), len - n);
    }
  }

  /** The records written for a list of chunks, one after the other. */
  function RecordsOf(mem: seq<Byte>, chunks: seq<Chunk>): (r: string)
    requires |mem| == 65536
    ensures r == [] <==> chunks == []
    ensures r != [] ==> r[0] == ':' && r[|r| - 1] == '\n'
  {
    if chunks == [] then ""
    else DataRecord(mem, chunks[0].address, chunks[0].count) + RecordsOf(mem, chunks[1..])
  }

  /** The whole output of `write_data`: one record per chunk of the plan. */
  function DataRecords(mem: seq<Byte>, address: Word, len: nat): (r: string)
    requires |mem| == 65536
    ensures r == [] <==> len == 0
    ensures r != [] ==> r[0] == ':' && r[|r| - 1] == '\n'
  {
    RecordsOf(mem, Chunks(address, len))
  }

  /** Record `i` starts at `address + 16 * i` modulo 65536 and holds
      `min(16, len - 16 * i)` bytes: sixteen bytes each, then the remainder. */
  lemma ChunkAt(address: Word, len: nat, i: nat)
    requires i < (len + 15) / 16
    ensures |Chunks(address, len)| == (len + 15) / 16
    ensures Chunks(address, len)[i] == Chunk((address + 16 * i) % 65536, Min(16, len - 16 * i))
  {
    ChunksCount(address, len);
    ChunkAdvance(address, len, i);
    AdvanceWraps(address, 16 * i);
  }

  lemma {:induction false} ChunkAdvance(address: Word, len: nat, i: nat)
    requires 16 * i < len
    ensures i < |Chunks(address, len)|
    ensures Chunks(address, len)[i] == Chunk(Advance(address, 16 * i), Min(16, len - 16 * i))
    decreases i
  {
    var n := Min(16, len);
    var rest := Chunks(Advance(address, n), len - n);
    assert Chunks(address, len) == [Chunk(address, n)] + rest;
    if i > 0 {
      assert n == 16;
      ChunkAdvance(Advance(address, 16), len - 16, i - 1);
      AdvanceAdd(address, 16, 16 * (i - 1));
      assert 16 + 16 * (i - 1) == 16 * i && len - 16 - 16 * (i - 1) == len - 16 * i;
      assert Chunks(address, len)[i] == rest[i - 1];
    }
  }

  lemma {:induction false} RecordsOfConcat(mem: seq<Byte>, a: seq<Chunk>, b: seq<Chunk>)
    requires |mem| == 65536
    ensures RecordsOf(mem, a + b) == RecordsOf(mem, a) + RecordsOf(mem, b)
  {
    if a == [] {
      assert a + b == b;
    } else {
      assert (a + b)[1..] == a[1..] + b;
      RecordsOfConcat(mem, a[1..], b);
    }
  }

  lemma PeekOrderConcat(address: Word, x: nat, y: nat)
    ensures PeekOrder(address, x + y) == PeekOrder(address, x) + PeekOrder(Advance(address, x), y)
  {
    forall i | 0 <= i < y
      ensures PeekOrder(address, x + y)[x + i] == PeekOrder(Advance(address, x), y)[i]
    {
      AdvanceAdd(address, x, i);
    }
  }

  /** `write_data`: split `len` bytes from `address` into records of at most 16 bytes.
      The output is `DataRecords` of the memory read, and memory is read exactly once per
      byte, at `address + i` modulo 65536, in increasing `i`; it is never written. */
  method WriteData(w: Writer, m: Memory, address: Word, len: nat)
    requires m.Valid()
    modifies w, m
    ensures w.text == old(w.text) + DataRecords(m.cells[..], address, len)
    ensures m.peeks == old(m.peeks) + PeekOrder(address, len) && m.pokes == old(m.pokes)
  {
    ghost var mem := m.cells[..];
    ghost var done: nat, records: nat := 0, 0;
    var remaining: nat, a: Word := len, address;
    while remaining != 0
      invariant m.pokes == old(m.pokes)
      invariant Written(mem, address, len, old(w.text), old(m.peeks), done, records, remaining, a, w.text, m.peeks)
    {
      ghost var remaining0, a0, text0, peeks0 := remaining, a, w.text, m.peeks;
      var lineLen: RecordLen := Min(16, remaining);
      remaining := remaining - lineLen;
      a := WriteRecord(w, m, a, lineLen);
      WrittenStep(mem, address, len, old(w.text), old(m.peeks), done, records,
                  remaining0, a0, text0, peeks0, lineLen, remaining, a, w.text, m.peeks);
      done, records := done + lineLen, records + 1;
    }
  }

  /** The state of the record loop of `write_data` once `done` of the `len` bytes are out:
      `rest` bytes are left, `a` is the next address, and the output and the reads are those
      of the first `done` bytes. */
  predicate Written(mem: seq<Byte>, address: Word, len: nat, text0: string, peeks0: seq<Word>,
                    done: nat, records: nat, rest: nat, a: Word, text: string, peeks: seq<Word>)
    requires |mem| == 65536
  {
    && done + rest == len && (done == 16 * records || rest == 0)
    && a == Advance(address, done)
    && text == text0 + DataRecords(mem, address, done)
    && peeks == peeks0 + PeekOrder(address, done)
  }

  /** One pass of the record loop: a record of `min(16, rest)` bytes from `a`. */
  lemma WrittenStep(mem: seq<Byte>, address: Word, len: nat, text0: string, peeks0: seq<Word>,
                    done: nat, records: nat, rest: nat, a: Word, text: string, peeks: seq<Word>,
                    n: RecordLen, rest': nat, a': Word, text': string, peeks': seq<Word>)
    requires |mem| == 65536
    requires Written(mem, address, len, text0, peeks0, done, records, rest, a, text, peeks)
    requires rest != 0 && n == Min(16, rest) && rest' == rest - n && a' == Advance(a, n)
    requires text' == text + DataRecord(mem, a, n) && peeks' == peeks + PeekOrder(a, n)
    ensures Written(mem, address, len, text0, peeks0, done + n, records + 1, rest', a', text', peeks')
  {
    RecordsStep(mem, address, records, done, n, text0, peeks0);
  }

  /** After `records` full records, the next record extends the output and the reads by
      one record of `n` bytes from the next address. */
  lemma RecordsStep(mem: seq<Byte>, address: Word, records: nat, done: nat, n: RecordLen,
                    text: string, peeks: seq<Word>)
    requires |mem| == 65536 && done == 16 * records
    ensures text + DataRecords(mem, address, done + n)
      == text + DataRecords(mem, address, done) + DataRecord(mem, Advance(address, done), n)
    ensures peeks + PeekOrder(address, done + n) == peeks + PeekOrder(address, done) + PeekOrder(Advance(address, done), n)
    ensures Advance(address, done + n) == Advance(Advance(address, done), n)
  {
    RecordsNext(mem, address, records, done, n, text);
    PeekOrderConcat(address, done, n);
    AdvanceAdd(address, done, n);
    AppendAssoc(peeks, PeekOrder(address, done), PeekOrder(Advance(address, done), n));
  }

  /** The text half of `RecordsStep`. */
  lemma RecordsNext(mem: seq<Byte>, address: Word, records: nat, done: nat, n: RecordLen, text: string)
    requires |mem| == 65536 && done == 16 * records
    ensures text + DataRecords(mem, address, done + n)
      == text + DataRecords(mem, address, done) + DataRecord(mem, Advance(address, done), n)
  {
    RecordsSplit(mem, address, records, n);
    var a := Advance(address, done);
    OneRecord(mem, a, n);
    AppendAssoc(text, DataRecords(mem, address, done), DataRecord(mem, a, n));
  }

  /** A range of at most 16 bytes is one record. */
  lemma OneRecord(mem: seq<Byte>, a: Word, n: RecordLen)
    requires |mem| == 65536
    ensures DataRecords(mem, a, n) == DataRecord(mem, a, n)
  {
    assert Chunks(a, n) == [Chunk(a, n)] + Chunks(Advance(a, n), 0);
    assert DataRecords(mem, a, n) == DataRecord(mem, a, n) + RecordsOf(mem, []);
  }

  /** Cutting a range after `k` full records cuts its records there. */
  lemma RecordsSplit(mem: seq<Byte>, address: Word, k: nat, y: nat)
    requires |mem| == 65536
    ensures DataRecords(mem, address, 16 * k + y)
      == DataRecords(mem, address, 16 * k) + DataRecords(mem, Advance(address, 16 * k), y)
  {
    ChunksSplit(address, k, y);
    RecordsOfConcat(mem, Chunks(address, 16 * k), Chunks(Advance(address, 16 * k), y));
  }

  /** The plan for a range cut after `k` full records is the two plans one after the other. */
  lemma {:induction false} ChunksSplit(address: Word, k: nat, y: nat)
    ensures Chunks(address, 16 * k + y) == Chunks(address, 16 * k) + Chunks(Advance(address, 16 * k), y)
    decreases k
  {
    if k > 0 {
      var a, rest := Advance(address, 16), 16 * (k - 1);
      var mid, tail := Chunks(a, rest), Chunks(Advance(a, rest), y);
      assert 16 * k + y == 16 + (rest + y) && 16 * k == 16 + rest;
      assert Chunks(address, 16 + (rest + y)) == [Chunk(address, 16)] + Chunks(a, rest + y);
      assert Chunks(address, 16 + rest) == [Chunk(address, 16)] + mid;
      ChunksSplit(a, k - 1, y);
      assert Chunks(a, rest + y) == mid + tail;
      AdvanceAdd(address, 16, rest);
      assert tail == Chunks(Advance(address, 16 * k), y);
      AppendAssoc([Chunk(address, 16)], mid, tail);
    }
  }

  /** Reading one more byte appends it, and its address, to what was read. */
  lemma PeekedSnoc(mem: seq<Byte>, address: Word, n: nat)
    requires |mem| == 65536
    ensures Peeked(mem, address, n + 1) == Peeked(mem, address, n) + [mem[Advance(address, n)]]
    ensures PeekOrder(address, n + 1) == PeekOrder(address, n) + [Advance(address, n)]
  {
    assert Peeked(mem, address, n + 1) == Peeked(mem, address, n) + [mem[Advance(address, n)]];
  }

  /** The header `write_data` prints field by field is the first four record bytes. */
  lemma HeaderText(n: Byte, address: Word)
    ensures ":" + WriteByte(n) + WriteWord(address) + "00" == ":" + HexBytes([n, address / 256, address % 256, 0])
  {
    var hi, lo := address / 256, address % 256;
    HexBytesSnoc([], n);
    assert [] + [n] == [n];
    HexBytesSnoc([n], hi);
    assert [n] + [hi] == [n, hi];
    HexBytesSnoc([n, hi], lo);
    assert [n, hi] + [lo] == [n, hi, lo];
    HexBytesSnoc([n, hi, lo], 0);
    assert [n, hi, lo] + [0] == [n, hi, lo, 0];
    assert WriteByte(0) == "00";
  }

  /** The state of `write_data`'s inner loop after `j` bytes of a record: the address
      has moved `j` times, the running total covers the `j` bytes read, their digits follow
      the header, and their addresses follow the earlier reads. */
  predicate PayloadState(mem: seq<Byte>, address: Word, header: seq<Byte>, initial: Byte,
                         prefix: string, peeks0: seq<Word>, j: nat,
                         next: Word, check: Byte, text: string, peeks: seq<Word>)
    requires |mem| == 65536
  {
    && next == Advance(address, j)
    && check == Sum8(initial, Peeked(mem, address, j))
    && text == prefix + HexBytes(header + Peeked(mem, address, j))
    && peeks == peeks0 + PeekOrder(address, j)
  }

  /** Reading byte `j` of a record appends its digits to the line, its address to the
      reads and its value to the running total. */
  lemma PayloadStep(mem: seq<Byte>, address: Word, header: seq<Byte>, initial: Byte,
                    prefix: string, peeks0: seq<Word>, j: nat,
                    next: Word, check: Byte, text: string, peeks: seq<Word>,
                    val: Byte, next': Word, check': Byte, text': string, peeks': seq<Word>)
    requires |mem| == 65536
    requires PayloadState(mem, address, header, initial, prefix, peeks0, j, next, check, text, peeks)
    requires val == mem[next] && next' == Inc16(next) && check' == Add8(check, val)
    requires text' == text + WriteByte(val) && peeks' == peeks + [next]
    ensures PayloadState(mem, address, header, initial, prefix, peeks0, j + 1, next', check', text', peeks')
  {
    var data := Peeked(mem, address, j);
    PeekedSnoc(mem, address, j);
    assert header + (data + [val]) == (header + data) + [val];
    HexBytesSnoc(header + data, val);
    Sum8Snoc(initial, data, val);
    AppendAssoc(peeks0, PeekOrder(address, j), [next]);
    AppendAssoc(prefix, HexBytes(header + data), WriteByte(val));
  }

  /** The header of a data record as `write_data` prints it: the colon, the length, the
      big-endian address and the type `00`. */
  method WriteHeader(w: Writer, lineLen: RecordLen, address: Word)
    modifies w
    ensures w.text == old(w.text) + (":" + HexBytes([lineLen, address / 256, address % 256, 0]))
  {
    w.Write(":");
    w.Write(WriteByte(lineLen));
    w.Write(WriteWord(address));
    w.Write("00");
    HeaderText(lineLen, address);
  }

  /** The inner loop of `write_data`, `while (line_len--)`: read `lineLen` bytes from
      `address` on, print each and add it to the running total `check`. */
  method WritePayload(w: Writer, m: Memory, address: Word, lineLen: RecordLen,
                      ghost prefix: string, ghost header: seq<Byte>, initial: Byte)
    returns (next: Word, check: Byte)
    requires m.Valid() && w.text == prefix + HexBytes(header)
    modifies w, m
    ensures w.text == prefix + HexBytes(header + Peeked(m.cells[..], address, lineLen))
    ensures m.peeks == old(m.peeks) + PeekOrder(address, lineLen) && m.pokes == old(m.pokes)
    ensures next == Advance(address, lineLen)
    ensures check == Sum8(initial, Peeked(m.cells[..], address, lineLen))
  {
    ghost var mem := m.cells[..];
    assert header + Peeked(mem, address, 0) == header;
    next, check := address, initial;
    var k: nat := lineLen;
    ghost var j: nat := 0;
    while k != 0
      invariant j + k == lineLen && m.pokes == old(m.pokes)
      invariant PayloadState(mem, address, header, initial, prefix, old(m.peeks), j, next, check, w.text, m.peeks)
    {
      ghost var next0, check0, text0, peeks0 := next, check, w.text, m.peeks;
      k := k - 1;
      var val := m.Peek(next);
      check := Add8(check, val);
      w.Write(WriteByte(val));
      next := Inc16(next);
      PayloadStep(mem, address, header, initial, prefix, old(m.peeks), j,
                  next0, check0, text0, peeks0, val, next, check, w.text, m.peeks);
      j := j + 1;
    }
  }

  /** One pass of `write_data`'s outer loop: the header, `lineLen` data bytes read from
      `address` on, the checksum and the newline. It returns the address after the last
      byte read, 16-bit wrap-around included. */
  method WriteRecord(w: Writer, m: Memory, address: Word, lineLen: RecordLen) returns (next: Word)
    requires m.Valid()
    modifies w, m
    ensures w.text == old(w.text) + DataRecord(m.cells[..], address, lineLen)
    ensures m.peeks == old(m.peeks) + PeekOrder(address, lineLen) && m.pokes == old(m.pokes)
    ensures next == Advance(address, lineLen)
  {
    ghost var mem := m.cells[..];
    var check: Byte := (lineLen + address % 256 + (address / 256) % 256) % 256;
    ghost var initial := check;
    ghost var header: seq<Byte> := [lineLen, address / 256, address % 256, 0];
    WriteHeader(w, lineLen, address);
    AppendAssoc(old(w.text), ":", HexBytes(header));
    next, check := WritePayload(w, m, address, lineLen, old(w.text) + ":", header, check);
    ghost var data := Peeked(mem, address, lineLen);
    ghost var bytes := DataRecordBytes(address, data);
    assert bytes == header + data;
    RecordChecksum(address, data, initial, check);
    w.Write(WriteByte(Negate8(check)));
    w.Write("\n");
    TrailerText(old(w.text), bytes, Negate8(check));
  }

  /** The checksum digits and the newline complete the line. */
  lemma TrailerText(text: string, bytes: seq<Byte>, c: Byte)
    ensures text + ":" + HexBytes(bytes) + WriteByte(c) + "\n" == text + RecordLine(bytes + [c])
  {
    HexBytesSnoc(bytes, c);
  }

  /** The running total `write_data` keeps for a record, started from the truncated
      `line_len + (address & 0xff) + ((address >> 8) & 0xff)`, gives through
      `(~check) + 1` the record's checksum. */
  lemma RecordChecksum(address: Word, data: seq<Byte>, initial: Byte, check: Byte)
    requires |data| < 256
    requires initial == (|data| + address % 256 + (address / 256) % 256) % 256
    requires check == Sum8(initial, data)
    ensures Negate8(check) == Checksum(DataRecordBytes(address, data))
  {
    var hi, lo := address / 256, address % 256;
    assert hi < 256;
    var head := |data| + lo + hi;
    assert initial == head % 256;
    Sum8IsSumMod(initial, data);
    DataRecordSum(address, data);
    Mod256Add(head, Sum(data));
    assert check == Sum(DataRecordBytes(address, data)) % 256;
    TotalChecksum(DataRecordBytes(address, data), check);
  }

  /** The sum the checksum of a data record covers. */
  lemma DataRecordSum(address: Word, data: seq<Byte>)
    requires |data| < 256
    ensures Sum(DataRecordBytes(address, data)) == |data| + address / 256 + address % 256 + Sum(data)
  {
    var h := [|data|, address / 256, address % 256, 0];
    SumConcat(h, data);
    SumOfFour(|data|, address / 256, address % 256, 0);
  }

  /** `write_all`: the data records, then the end-of-file record. */
  method WriteAll(w: Writer, m: Memory, address: Word, len: nat)
    requires m.Valid()
    modifies w, m
    ensures w.text == old(w.text) + DataRecords(m.cells[..], address, len) + WriteEnd()
    ensures m.peeks == old(m.peeks) + PeekOrder(address, len) && m.pokes == old(m.pokes)
  {
    WriteData(w, m, address, len);
    w.Write(WriteEnd());
  }
}
