/** The decoder of `intel_hex20.h`: `read_line` skips whitespace, expects `:`, reads the
    length, address and type pairs, then the data pairs, writing each byte to memory at a
    wrapping 16-bit address, and finally the checksum pair; `read` calls it until a line
    fails. */
module IntelHex20Read {
  import opened Hex
  import opened Capabilities

  datatype Option<T> = None | Some(value: T)

  /** What `helpers::read_byte` makes of the two characters at `p`: their value when both
      are hex digits (either case), nothing otherwise. */
  function PairAt(text: seq<char>, p: nat): (r: Option<Byte>)
    ensures r.Some? ==> p + 2 <= |text|
  {
    var hi, lo := CharAt(text, p), CharAt(text, p + 1);
    if IsXDigit(hi) && IsXDigit(lo) then Some(PairValue(hi, lo)) else None
  }

  /** `chk_tot += val` when a pair was read, no change when it was not. */
  function AddIf(total: Byte, b: Option<Byte>): Byte
  {
    if b.Some? then Add8(total, b.value) else total
  }

  /** The position of the first character at or after `i` that is not whitespace: the
      character `read_line` stops its skipping loop on. */
  function SkipSpace(text: seq<char>, i: nat): (j: nat)
    ensures i <= j && !IsSpace(CharAt(text, j))
    decreases |text| - i
  {
    if IsSpace(CharAt(text, i)) then SkipSpace(text, i + 1) else i
  }

  /** Everything `read_line` skips before the character it looks at is whitespace, and
      that character is not: the skipping stops at the first non-whitespace character. */
  lemma {:induction false} SkipSpaceSkipsOnlySpace(text: seq<char>, i: nat, k: nat)
    requires i <= k < SkipSpace(text, i)
    ensures IsSpace(CharAt(text, k))
    decreases |text| - i
  {
    if k > i {
      SkipSpaceSkipsOnlySpace(text, i + 1, k);
    }
  }

  /** The data field: pairs from `p`, at most `n` of them, up to the first that fails. */
  function GoodPairs(text: seq<char>, p: nat, n: nat): (r: seq<Byte>)
    ensures |r| <= n
    ensures |r| < n ==> PairAt(text, p + 2 * |r|).None?
    decreases n
  {
    if n == 0 then []
    else match PairAt(text, p)
      case None => []
      case Some(v) => [v] + GoodPairs(text, p + 2, n - 1)
  }

  /** The memory writes for `data` from `addr`: one per byte, the address wrapping. */
  function DataPokes(addr: Word, data: seq<Byte>): (r: seq<Poke>)
    ensures |r| == |data|
  {
    seq(|data|, i requires 0 <= i < |data| => Poke(Advance(addr, i), data[i]))
  }

  /** The effect of one `read_line` call started at a reader position:
      - `NotRecord`: the first character after the whitespace is not `:`; nothing else is
        read and `endrecord` keeps its value.
      - `Record`: the line was read up to its checksum pair; `ok` is what `read_line`
        returns, `kind` the type byte when its pair parsed (`endrecord` becomes
        `kind == 1`, and is unknown when it did not), `writes` the memory writes whose value
        is known, and `stray` the address of one more write whose value is the uninitialised
        `data` local (a first data pair that fails to parse). */
  datatype LineScan =
    | NotRecord(next: nat)
    | Record(next: nat, ok: bool, kind: Option<Byte>, writes: seq<Poke>, stray: Option<Word>)

  /** `read_line` returned true. */
  predicate Accepted(sc: LineScan)
  {
    sc.Record? && sc.ok
  }

  /** `read_line` from reader position `start`. */
  function ScanLine(text: seq<char>, start: nat): (sc: LineScan)
    ensures start < sc.next
    ensures Accepted(sc) ==> sc.next <= |text|
  {
    var c := SkipSpace(text, start);
    if CharAt(text, c) != ':' then NotRecord(c + 1) else ScanRecord(text, c + 1)
  }

  /** The header is usable: four pairs parse and the type is 0 or 1. */
  predicate HeaderOk(text: seq<char>, p: nat)
  {
    && PairAt(text, p).Some? && PairAt(text, p + 2).Some? && PairAt(text, p + 4).Some?
    && PairAt(text, p + 6).Some? && PairAt(text, p + 6).value <= 1
  }

  /** The address field of a usable header, high byte first. */
  function HeaderAddress(text: seq<char>, p: nat): Word
    requires HeaderOk(text, p)
  {
    PairAt(text, p + 2).value * 256 + PairAt(text, p + 4).value
  }

  /** `read_line` after the colon at `p - 1`. */
  function ScanRecord(text: seq<char>, p: nat): (sc: LineScan)
    ensures sc.Record? && p + 10 <= sc.next
    ensures Accepted(sc) ==> sc.next <= |text|
  {
    var kind := PairAt(text, p + 6);
    if !HeaderOk(text, p) then Record(p + 10, false, kind, [], None)
    else
      var n := PairAt(text, p).value;
      var addr := HeaderAddress(text, p);
      var data := GoodPairs(text, p + 8, n);
      var k := |data|;
      var failed := k < n;
      var c := p + 8 + 2 * k + (if failed then 2 else 0);
      var check := PairAt(text, c);
      var writes := DataPokes(addr, data)
        + (if failed && k > 0 then [Poke(Advance(addr, k), data[k - 1])] else []);
      var stray := if failed && k == 0 then Some(addr) else None;
      var ok := !failed && check.Some? && RecordSumsToZero(HeaderBytes(text, p), data, check.value);
      Record(c + 2, ok, kind, writes, stray)
  }

  /** `read_line` accepts a record exactly when its header is usable (four pairs that
      parse, type 0 or 1), all `n` data pairs parse, the checksum pair parses, and the 8-bit
      sum of every byte of the record, checksum included, is zero. */
  lemma RecordAccepted(text: seq<char>, p: nat)
    ensures ScanRecord(text, p).ok <==>
      && HeaderOk(text, p)
      && var n := PairAt(text, p).value;
      && var data := GoodPairs(text, p + 8, n);
      && |data| == n
      && PairAt(text, p + 8 + 2 * n).Some?
      && RecordSumsToZero(HeaderBytes(text, p), data, PairAt(text, p + 8 + 2 * n).value)
  {
  }

  /** A record of a type other than 0 or 1 is rejected whatever its checksum: nothing of
      its data field is read or written, and the reader stops after the checksum pair that
      follows the header. */
  lemma OtherTypeRejected(text: seq<char>, p: nat)
    requires PairAt(text, p + 6).Some? && PairAt(text, p + 6).value > 1
    ensures ScanRecord(text, p) == Record(p + 10, false, PairAt(text, p + 6), [], None)
  {
  }

  /** The checksum test of the format: the 8-bit sum of every byte of the record, checksum
      included, is zero. */
  predicate RecordSumsToZero(header: seq<Byte>, data: seq<Byte>, check: Byte)
  {
    Sum(header + data + [check]) % 256 == 0
  }

  /** A record whose bytes sum to zero no longer does once one data byte is changed, so
      `read_line` rejects a record with one corrupted data byte. */
  lemma CorruptedDataRejected(header: seq<Byte>, data: seq<Byte>, check: Byte, i: nat, v: Byte)
    requires RecordSumsToZero(header, data, check) && i < |data| && v != data[i]
    ensures !RecordSumsToZero(header, data[i := v], check)
  {
    var b := header + data + [check];
    assert header + data[i := v] + [check] == b[|header| + i := v];
    SumChanged(b, |header| + i, v);
  }

  /** Likewise for one changed header byte. */
  lemma CorruptedHeaderRejected(header: seq<Byte>, data: seq<Byte>, check: Byte, i: nat, v: Byte)
    requires RecordSumsToZero(header, data, check) && i < |header| && v != header[i]
    ensures !RecordSumsToZero(header[i := v], data, check)
  {
    var b := header + data + [check];
    assert header[i := v] + data + [check] == b[i := v];
    SumChanged(b, i, v);
  }

  /** The memory writes a line makes are its known writes, then one more at the stray
      address when there is one, whatever value it wrote. */
  predicate LinePokes(sc: LineScan, ps: seq<Poke>)
  {
    if sc.NotRecord? then ps == []
    else
      && |ps| == |sc.writes| + (if sc.stray.Some? then 1 else 0)
      && ps[..|sc.writes|] == sc.writes
      && (sc.stray.Some? ==> ps[|ps| - 1].addr == sc.stray.value)
  }

  /** One more byte appends one more write, at the next address. */
  lemma DataPokesSnoc(addr: Word, data: seq<Byte>, x: Byte)
    ensures DataPokes(addr, data + [x]) == DataPokes(addr, data) + [Poke(Advance(addr, |data|), x)]
  {
  }

  /** The running total `read_line` keeps over a line is the 8-bit sum of all its bytes. */
  lemma LineTotal(header: seq<Byte>, data: seq<Byte>, check: Byte)
    ensures Add8(Sum8(Sum8(0, header), data), check) == Sum(header + data + [check]) % 256
  {
    Sum8Concat(0, header, data);
    Sum8Snoc(0, header + data, check);
    Sum8IsSumMod(0, header + data + [check]);
  }

  /** `helpers::read_byte`: two characters are always consumed; when both are hex digits
      the byte is stored and added to the running total, otherwise the call fails and both
      are left as they were. */
  method ReadByte(r: Reader, val: Byte, chkTot: Byte) returns (ok: bool, value: Byte, total: Byte)
    modifies r
    ensures r.pos == old(r.pos) + 2
    ensures var b := PairAt(r.text, old(r.pos));
      && ok == b.Some?
      && value == (if ok then b.value else val)
      && total == AddIf(chkTot, b)
  {
    var hi := r.Read();
    var lo := r.Read();
    if !IsXDigit(hi) || !IsXDigit(lo) {
      return false, val, chkTot;
    }
    value := PairValue(hi, lo);
    total := Add8(chkTot, value);
    ok := true;
  }

  /** `helpers::read_16bit`: both pairs are read (`&=` does not short-circuit), the high
      byte first. A byte whose pair fails is an uninitialised local, so only the halves
      that parsed are known. */
  method Read16Bit(r: Reader, chkTot: Byte) returns (ok: bool, value: Word, total: Byte)
    modifies r
    ensures r.pos == old(r.pos) + 4
    ensures var hi, lo := PairAt(r.text, old(r.pos)), PairAt(r.text, old(r.pos) + 2);
      && ok == (hi.Some? && lo.Some?)
      && total == AddIf(AddIf(chkTot, hi), lo)
      && (hi.Some? ==> value / 256 == hi.value)
      && (lo.Some? ==> value % 256 == lo.value)
  {
    var hi: Byte :| true;
    var lo: Byte :| true;
    var okb: bool;
    total := chkTot;
    ok := true;
    okb, hi, total := ReadByte(r, hi, total);
    ok := ok && okb;
    okb, lo, total := ReadByte(r, lo, total);
    ok := ok && okb;
    value := hi * 256 + lo;
    Halves(hi, lo);
  }

  /** `std::uint16_t(hi) << 8 | lo` keeps `hi` in the high byte and `lo` in the low one. */
  lemma Halves(hi: Byte, lo: Byte)
    ensures (hi * 256 + lo) / 256 == hi && (hi * 256 + lo) % 256 == lo
  {
  }

  /** `read_line`: one call reads and writes exactly what `ScanLine` describes. It returns
      whether the line was accepted, and sets `endrecord` to whether the type is 1 once a
      colon was found (leaving it alone otherwise). The memory image is updated by exactly
      the line's writes, of which all but a stray one have known values. */
  method ReadLine(r: Reader, m: Memory, endrecord: bool)
    returns (ok: bool, endrecordOut: bool, ghost writes: seq<Poke>)
    requires m.Valid()
    modifies r, m, m.cells
    ensures m.Valid() && m.peeks == old(m.peeks)
    ensures var sc := ScanLine(r.text, old(r.pos));
      && r.pos == sc.next && ok == Accepted(sc)
      && (sc.NotRecord? ==> endrecordOut == endrecord)
      && (sc.Record? && sc.kind.Some? ==> endrecordOut == (sc.kind.value == 1))
    ensures m.pokes == old(m.pokes) + writes && LinePokes(ScanLine(r.text, old(r.pos)), writes)
    ensures m.cells[..] == Apply(old(m.cells[..]), writes)
  {
    var c := SkipWhitespace(r);
    if c != ':' {
      return false, endrecord, [];
    }
    var kind: Byte;
    ok, kind, writes := ReadRecord(r, m);
    endrecordOut := kind == 1;
  }

  /** The start of `read_line`: read characters until one is not whitespace, and return
      it. The reader stands right after it. */
  method SkipWhitespace(r: Reader) returns (c: char)
    modifies r
    ensures r.pos == SkipSpace(r.text, old(r.pos)) + 1
    ensures c == CharAt(r.text, r.pos - 1)
  {
    c := r.Read();
    while IsSpace(c)
      invariant old(r.pos) < r.pos && c == CharAt(r.text, r.pos - 1)
      invariant SkipSpace(r.text, old(r.pos)) == SkipSpace(r.text, r.pos - 1)
      decreases |r.text| + 1 - r.pos
    {
      c := r.Read();
    }
  }

  /** The part of `read_line` after the colon: the header, the data loop, the checksum
      pair and the final total. It returns the result and the `type` local, which decides
      `endrecord`. */
  method ReadRecord(r: Reader, m: Memory) returns (ok: bool, kind: Byte, ghost writes: seq<Poke>)
    requires m.Valid()
    modifies r, m, m.cells
    ensures m.Valid() && m.peeks == old(m.peeks)
    ensures var sc := ScanRecord(r.text, old(r.pos));
      && r.pos == sc.next && ok == sc.ok && (sc.kind.Some? ==> kind == sc.kind.value)
    ensures m.pokes == old(m.pokes) + writes && LinePokes(ScanRecord(r.text, old(r.pos)), writes)
    ensures m.cells[..] == Apply(old(m.cells[..]), writes)
  {
    ghost var text, p := r.text, r.pos;
    var len: Byte, addr: Word, chkTot: Byte;
    ok, len, addr, kind, chkTot := ReadHeader(r);
    ghost var hdr, q, chk0 := ok, r.pos, chkTot;
    var data: Byte :| true;
    ghost var data0 := data;
    ok, data, chkTot, writes := ReadData(r, m, len, ok, addr, data, chkTot);
    if hdr {
      RecordOutcome(text, p, q, len, addr, chk0, data0, ok, data, chkTot, writes);
    }
    var check: Byte :| true;
    var okb: bool;
    okb, check, chkTot := ReadByte(r, check, chkTot);
    ok := ok && okb;
    ok := ok && chkTot == 0;
  }

  /** The header of `read_line`: `read_byte` for the length, `read_16bit` for the address,
      `read_byte` for the type, each accumulating into `chk_tot` from 0, then the test that
      the type is 0 or 1. Eight characters are consumed whatever they are. */
  method ReadHeader(r: Reader) returns (ok: bool, len: Byte, addr: Word, kind: Byte, chkTot: Byte)
    modifies r
    ensures r.pos == old(r.pos) + 8
    ensures ok == HeaderOk(r.text, old(r.pos))
    ensures ok ==> && len == PairAt(r.text, old(r.pos)).value
                   && addr == HeaderAddress(r.text, old(r.pos))
                   && chkTot == HeaderTotal(r.text, old(r.pos))
    ensures PairAt(r.text, old(r.pos) + 6).Some? ==> kind == PairAt(r.text, old(r.pos) + 6).value
  {
    ghost var text, p := r.text, r.pos;
    chkTot := 0;
    len :| true;
    kind :| true;
    var okb: bool;
    ok := true;
    okb, len, chkTot := ReadByte(r, len, chkTot);
    ok := ok && okb;
    okb, addr, chkTot := Read16Bit(r, chkTot);
    ok := ok && okb;
    okb, kind, chkTot := ReadByte(r, kind, chkTot);
    ok := ok && okb;
    ok := ok && (kind == 0 || kind == 1);
    if ok {
      HeaderRead(text, p, len, addr, kind, chkTot);
    }
  }

  /** The running total after a usable header: the 8-bit sum of its four bytes. */
  function HeaderTotal(text: seq<char>, p: nat): Byte
    requires HeaderOk(text, p)
  {
    Sum8(0, HeaderBytes(text, p))
  }

  /** The four header bytes of a usable header: length, address high, address low, type. */
  function HeaderBytes(text: seq<char>, p: nat): seq<Byte>
    requires HeaderOk(text, p)
  {
    [PairAt(text, p).value, PairAt(text, p + 2).value, PairAt(text, p + 4).value, PairAt(text, p + 6).value]
  }

  /** After a usable header `read_16bit` has assembled the address from its two bytes and
      the running total covers the four header bytes. */
  lemma HeaderRead(text: seq<char>, p: nat, len: Byte, addr: Word, kind: Byte, chk: Byte)
    requires HeaderOk(text, p)
    requires len == PairAt(text, p).value && kind == PairAt(text, p + 6).value
    requires addr / 256 == PairAt(text, p + 2).value && addr % 256 == PairAt(text, p + 4).value
    requires chk == AddIf(AddIf(AddIf(AddIf(0, PairAt(text, p)), PairAt(text, p + 2)), PairAt(text, p + 4)), PairAt(text, p + 6))
    ensures addr == HeaderAddress(text, p) && chk == HeaderTotal(text, p)
  {
    var h := HeaderBytes(text, p);
    Sum8OfFour(h[0], h[1], h[2], h[3]);
  }

  /** What `ScanRecord` says about a record whose header is usable, in the terms the
      reading code works with: the outcome of the data loop (with `data0` the value the
      `data` local held before it) and the checksum pair that follows. */
  lemma RecordOutcome(text: seq<char>, p: nat, q: nat, len: Byte, addr: Word, chk0: Byte,
                      data0: Byte, okD: bool, d: Byte, chkD: Byte, ps: seq<Poke>)
    requires HeaderOk(text, p) && q == p + 8
    requires len == PairAt(text, p).value && addr == HeaderAddress(text, p) && chk0 == HeaderTotal(text, p)
    requires DataOutcome(GoodPairs(text, q, len), len, addr, chk0, data0, okD, d, chkD, ps)
    ensures var good := GoodPairs(text, q, len);
      var c := q + 2 * |good| + (if okD then 0 else 2);
      var check := PairAt(text, c);
      var sc := ScanRecord(text, p);
      && sc.next == c + 2
      && sc.ok == (okD && check.Some? && AddIf(chkD, check) == 0)
      && sc.kind == PairAt(text, p + 6)
      && LinePokes(sc, ps)
  {
    var n := PairAt(text, p).value;
    var good := GoodPairs(text, p + 8, n);
    var c := p + 8 + 2 * |good| + (if |good| < n then 2 else 0);
    var check := PairAt(text, c);
    if check.Some? {
      LineTotal(HeaderBytes(text, p), good, check.value);
    }
    var addr := HeaderAddress(text, p);
    var sc := ScanRecord(text, p);
    var known := DataPokes(addr, good);
    if |good| < n && |good| > 0 {
      assert sc.writes == known + [Poke(Advance(addr, |good|), d)] && sc.stray.None?;
      assert ps == sc.writes;
    } else if |good| < n {
      assert sc.writes == known && sc.stray == Some(addr);
      assert ps[..|known|] == known;
    } else {
      assert sc.writes == known && sc.stray.None?;
      assert ps == known + [];
    }
  }

  /** The data loop of `read_line`, `while (len-- && ok)`: it runs only after a usable
      header, reads up to `len` pairs and writes each byte at the next address. A pair that
      fails to parse still leads to a write, of the value `data` already held (the previous
      byte, or the uninitialised local on the first), and ends the loop. */
  method ReadData(r: Reader, m: Memory, len: Byte, ok: bool, addr: Word, data: Byte, chkTot: Byte)
    returns (okOut: bool, dataOut: Byte, chkOut: Byte, ghost written: seq<Poke>)
    requires m.Valid()
    modifies r, m, m.cells
    ensures m.Valid() && m.peeks == old(m.peeks)
    ensures m.pokes == old(m.pokes) + written && m.cells[..] == Apply(old(m.cells[..]), written)
    ensures !ok ==> !okOut && r.pos == old(r.pos) && chkOut == chkTot && written == []
    ensures ok ==> var good := GoodPairs(r.text, old(r.pos), len);
      && DataOutcome(good, len, addr, chkTot, data, okOut, dataOut, chkOut, written)
      && r.pos == old(r.pos) + 2 * |good| + (if okOut then 0 else 2)
  {
    if !ok {
      // `len-- && ok` is false from the start: nothing is read.
      return false, data, chkTot, [];
    }
    ghost var p := r.pos;
    ghost var good := GoodPairs(r.text, p, len);
    ghost var mem0 := m.cells[..];
    ghost var i: nat := 0;
    written := [];
    var n, a := len, addr;
    okOut, dataOut, chkOut := ok, data, chkTot;
    var go := n != 0 && okOut;
    n := Dec8(n);
    ghost var pokes0 := m.pokes;
    while go
      invariant m.Valid() && m.peeks == old(m.peeks)
      invariant DataState(r.text, p, len, mem0, addr, data, chkTot, pokes0, r.pos, m.pokes, m.cells[..],
                          i, a, go, n, okOut, chkOut, written, dataOut)
      decreases if go then n + 1 else 0
    {
      ghost var pos0, pokes1, cells0 := r.pos, m.pokes, m.cells[..];
      ghost var a0, n0, chk0, written0, data0 := a, n, chkOut, written, dataOut;
      var okb: bool;
      okb, dataOut, chkOut := ReadPoke(r, m, a, dataOut, chkOut);
      okOut := okOut && okb;
      written := written + [Poke(a, dataOut)];
      a := Inc16(a);
      go := n != 0 && okOut;
      n := Dec8(n);
      DataStateStep(r.text, p, len, mem0, addr, data, chkTot, pokes0, i,
                    pos0, pokes1, cells0, a0, n0, chk0, written0, data0,
                    r.pos, m.pokes, m.cells[..], a, go, n, okOut, chkOut, written, dataOut);
      i := i + 1;
    }
    LoopExit(good, i, len, n, chkTot, chkOut, addr, written, data, dataOut, okOut);
  }

  /** The state of `while (len-- && ok)` after `i` passes, with `n` the decremented local
      `len` and `go` the value of the loop condition: while it runs every pair so far was
      good; once it stops, either all `len` pairs were read or it stopped just after the
      first bad one. */
  predicate DataLoop(good: seq<Byte>, len: nat, i: nat, go: bool, n: Byte, ok: bool,
                     chk0: Byte, chk: Byte, addr: Word, written: seq<Poke>, data0: Byte, data: Byte)
  {
    && |good| <= len && i <= len
    && (go ==> ok && i < len && n == len - i - 1)
    && (ok && !go ==> i == len)
    && (ok ==> ReadSoFar(good, i, chk0, chk, addr, written, data0, data))
    && (!ok ==> i == |good| + 1 && StoppedAt(good, chk0, chk, addr, written, data0, data))
  }

  /** The state of the data loop after `i` passes: the reader stands `2 * i` characters
      further on, `a` is `addr + i`, and the memory holds exactly the writes made so far. */
  predicate DataState(text: seq<char>, p: nat, len: Byte, mem0: seq<Byte>, addr: Word, data0: Byte,
                      chk0: Byte, pokes0: seq<Poke>, pos: nat, pokes: seq<Poke>, cells: seq<Byte>,
                      i: nat, a: Word, go: bool, n: Byte, ok: bool, chk: Byte, written: seq<Poke>,
                      data: Byte)
    requires |mem0| == 65536
  {
    && pos == p + 2 * i && a == Advance(addr, i)
    && pokes == pokes0 + written && cells == Apply(mem0, written)
    && DataLoop(GoodPairs(text, p, len), len, i, go, n, ok, chk0, chk, addr, written, data0, data)
  }

  /** One pass of the data loop, as `ReadData` makes it: the old state, the new state, and
      the effect of `ReadPoke` between them. */
  lemma DataStateStep(text: seq<char>, p: nat, len: Byte, mem0: seq<Byte>, addr: Word, data0: Byte,
                      chk0: Byte, pokes0: seq<Poke>, i: nat,
                      pos: nat, pokes: seq<Poke>, cells: seq<Byte>, a: Word, n: Byte, chk: Byte,
                      written: seq<Poke>, data: Byte,
                      pos': nat, pokes': seq<Poke>, cells': seq<Byte>, a': Word, go': bool, n': Byte,
                      ok': bool, chk': Byte, written': seq<Poke>, data': Byte)
    requires |mem0| == 65536
    requires DataState(text, p, len, mem0, addr, data0, chk0, pokes0, pos, pokes, cells,
                       i, a, true, n, true, chk, written, data)
    requires var b := PairAt(text, pos);
      && pos' == pos + 2 && ok' == b.Some? && data' == (if ok' then b.value else data)
      && chk' == AddIf(chk, b)
    requires pokes' == pokes + [Poke(a, data')] && cells' == cells[a := data']
    requires written' == written + [Poke(a, data')] && a' == Inc16(a)
    requires go' == (n != 0 && ok') && n' == Dec8(n)
    ensures DataState(text, p, len, mem0, addr, data0, chk0, pokes0, pos', pokes', cells',
                      i + 1, a', go', n', ok', chk', written', data')
  {
    ApplySnoc(mem0, written, Poke(a, data'));
    DataLoopStep(text, p, len, i, n, chk0, chk, addr, written, data0, data,
                 PairAt(text, pos), ok', data', chk', written', go', n');
  }

  /** One pass of the data loop: the pair at `p + 2 * i` is read into `data`, which is
      then written at `addr + i`. */
  lemma DataLoopStep(text: seq<char>, p: nat, len: Byte, i: nat, n: Byte, chk0: Byte, chk: Byte,
                     addr: Word, written: seq<Poke>, data0: Byte, data: Byte,
                     b: Option<Byte>, ok': bool, data': Byte, chk': Byte, written': seq<Poke>,
                     go': bool, n': Byte)
    requires DataLoop(GoodPairs(text, p, len), len, i, true, n, true, chk0, chk, addr, written, data0, data)
    requires b == PairAt(text, p + 2 * i) && ok' == b.Some?
    requires data' == (if b.Some? then b.value else data) && chk' == AddIf(chk, b)
    requires written' == written + [Poke(Advance(addr, i), data')]
    requires go' == (n != 0 && ok') && n' == Dec8(n)
    ensures DataLoop(GoodPairs(text, p, len), len, i + 1, go', n', ok', chk0, chk', addr, written', data0, data')
  {
    var good := GoodPairs(text, p, len);
    GoodPairsNext(text, p, len, i);
    ReadStep(good, i, PairAt(text, p + 2 * i), chk0, chk, addr, written, data0, data);
  }

  /** When the data loop stops, either all `len` pairs were good or it stopped just after
      the first bad one. */
  lemma LoopExit(good: seq<Byte>, i: nat, len: nat, n: Byte, chk0: Byte, chk: Byte, addr: Word,
                 written: seq<Poke>, data0: Byte, data: Byte, ok: bool)
    requires DataLoop(good, len, i, false, n, ok, chk0, chk, addr, written, data0, data)
    ensures DataOutcome(good, len, addr, chk0, data0, ok, data, chk, written)
  {
    if ok {
      assert good[..i] == good;
    }
  }

  /** What the data loop leaves behind, given the good pairs of the data field: it failed
      exactly when fewer than `len` pairs were good; the running total covers the good
      bytes; `data` holds the last good byte; the writes are one per good byte from `addr`
      on, plus one more of `data` when a pair failed. */
  predicate DataOutcome(good: seq<Byte>, len: nat, addr: Word, chk0: Byte, data0: Byte,
                        ok: bool, data: Byte, chk: Byte, written: seq<Poke>)
  {
    var failed := |good| < len;
    && ok == !failed
    && chk == Sum8(chk0, good)
    && data == (if |good| > 0 then good[|good| - 1] else data0)
    && written == DataPokes(addr, good) + (if failed then [Poke(Advance(addr, |good|), data)] else [])
  }

  /** One pass of the data loop: `read_byte` into `data`, then `w(addr, data)`, which
      happens whether the pair parsed or not. */
  method ReadPoke(r: Reader, m: Memory, a: Word, data: Byte, chkTot: Byte)
    returns (ok: bool, dataOut: Byte, chkOut: Byte)
    requires m.Valid()
    modifies r, m, m.cells
    ensures m.Valid() && m.peeks == old(m.peeks)
    ensures r.pos == old(r.pos) + 2
    ensures var b := PairAt(r.text, old(r.pos));
      && ok == b.Some? && dataOut == (if ok then b.value else data) && chkOut == AddIf(chkTot, b)
    ensures m.pokes == old(m.pokes) + [Poke(a, dataOut)]
    ensures m.cells[..] == old(m.cells[..])[a := dataOut]
  {
    ok, dataOut, chkOut := ReadByte(r, data, chkTot);
    m.DoPoke(a, dataOut);
  }

  /** The loop of `read_line` has read the first `i` data bytes, all good. */
  predicate ReadSoFar(good: seq<Byte>, i: nat, chk0: Byte, chk: Byte, addr: Word,
                      written: seq<Poke>, data0: Byte, data: Byte)
  {
    && i <= |good| && chk == Sum8(chk0, good[..i])
    && written == DataPokes(addr, good[..i])
    && data == (if i > 0 then good[i - 1] else data0)
  }

  /** The loop of `read_line` has stopped on the pair after the good ones, writing `data`
      once more. */
  predicate StoppedAt(good: seq<Byte>, chk0: Byte, chk: Byte, addr: Word,
                      written: seq<Poke>, data0: Byte, data: Byte)
  {
    && chk == Sum8(chk0, good)
    && written == DataPokes(addr, good) + [Poke(Advance(addr, |good|), data)]
    && data == (if |good| > 0 then good[|good| - 1] else data0)
  }

  /** The pair at index `i` of the data field parses exactly when `i` is within the good
      prefix, and then it is the next good byte. */
  lemma GoodPairsNext(text: seq<char>, p: nat, n: nat, i: nat)
    requires i < n && i <= |GoodPairs(text, p, n)|
    ensures var good, b := GoodPairs(text, p, n), PairAt(text, p + 2 * i);
      && (b.Some? <==> i < |good|)
      && (b.Some? ==> b.value == good[i])
    decreases i
  {
    if i > 0 {
      GoodPairsNext(text, p + 2, n - 1, i - 1);
    }
  }

  /** One pass of the data loop: the pair at index `i` is read and `data` written at
      `addr + i`; a good pair extends what was read, a bad one stops the loop. */
  lemma ReadStep(good: seq<Byte>, i: nat, b: Option<Byte>, chk0: Byte, chk: Byte, addr: Word,
                 written: seq<Poke>, data0: Byte, data: Byte)
    requires ReadSoFar(good, i, chk0, chk, addr, written, data0, data)
    requires (b.Some? <==> i < |good|) && (b.Some? ==> b.value == good[i])
    ensures var data' := if b.Some? then b.value else data;
      var written' := written + [Poke(Advance(addr, i), data')];
      && (b.Some? ==> ReadSoFar(good, i + 1, chk0, AddIf(chk, b), addr, written', data0, data'))
      && (b.None? ==> i == |good| && StoppedAt(good, chk0, AddIf(chk, b), addr, written', data0, data'))
  {
    if b.Some? {
      assert good[..i + 1] == good[..i] + [good[i]];
      Sum8Snoc(chk0, good[..i], good[i]);
      DataPokesSnoc(addr, good[..i], good[i]);
    } else {
      assert good[..i] == good;
    }
  }

  /** `read`: `read_line` until one returns false, and then false. The lines it goes
      through form a `Run` from the starting position that ends with the first line that
      fails, with the reader right after it, and memory takes each line's writes in turn.
      An end-of-file record does not stop the loop; only a line that fails does, at the
      latest at the end of the input, where the reader yields 0 and no colon is found. */
  method Read(r: Reader, m: Memory) returns (ok: bool, ghost lines: seq<LineScan>, ghost writes: seq<Poke>)
    requires m.Valid()
    modifies r, m, m.cells
    ensures !ok
    ensures m.Valid() && m.peeks == old(m.peeks)
    ensures Run(r.text, old(r.pos), lines, r.pos) && lines != [] && !Accepted(lines[|lines| - 1])
    ensures m.pokes == old(m.pokes) + writes && AllLinePokes(lines, writes)
    ensures m.cells[..] == Apply(old(m.cells[..]), writes)
  {
    ghost var text, start, mem0 := r.text, r.pos, m.cells[..];
    var endrecord := false;
    ok := true;
    lines, writes := [], [];
    while ok
      invariant m.Valid() && m.peeks == old(m.peeks)
      invariant m.pokes == old(m.pokes) + writes && m.cells[..] == Apply(mem0, writes)
      invariant Run(text, start, lines, r.pos) && AllLinePokes(lines, writes)
      invariant ok ==> lines == [] || Accepted(lines[|lines| - 1])
      invariant !ok ==> lines != [] && !Accepted(lines[|lines| - 1])
      decreases (if ok then 1 else 0), (if r.pos <= |text| then |text| - r.pos else 0)
    {
      ghost var pos0 := r.pos;
      var lineOk: bool;
      ghost var ps: seq<Poke>;
      lineOk, endrecord, ps := ReadLine(r, m, endrecord);
      ok := ok && lineOk;
      ghost var sc := ScanLine(text, pos0);
      RunSnoc(text, start, lines, pos0);
      AllLinePokesSnoc(lines, sc, writes, ps);
      AppendAssoc(old(m.pokes), writes, ps);
      ApplyConcat(mem0, writes, ps);
      lines := lines + [sc];
      writes := writes + ps;
    }
  }

  /** `lines` are the lines successive `read_line` calls go through from reader position
      `start`, each starting where the previous one ended, every one but the last
      accepted; the reader then stands at `pos`. */
  predicate Run(text: seq<char>, start: nat, lines: seq<LineScan>, pos: nat)
    ensures Run(text, start, lines, pos) ==> start + |lines| <= pos
    decreases |lines|
  {
    if lines == [] then pos == start
    else
      var prev := lines[..|lines| - 1];
      var from := if prev == [] then start else prev[|prev| - 1].next;
      && Run(text, start, prev, from)
      && (prev != [] ==> Accepted(prev[|prev| - 1]))
      && lines[|lines| - 1] == ScanLine(text, from)
      && pos == lines[|lines| - 1].next
  }

  /** After an accepted line (or none), one more `read_line` call extends the run. */
  lemma RunSnoc(text: seq<char>, start: nat, lines: seq<LineScan>, pos: nat)
    requires Run(text, start, lines, pos)
    requires lines != [] ==> Accepted(lines[|lines| - 1])
    ensures var sc := ScanLine(text, pos); Run(text, start, lines + [sc], sc.next)
  {
    var sc := ScanLine(text, pos);
    assert (lines + [sc])[..|lines|] == lines;
  }

  /** The pokes of a run of lines: each line's pokes, one after the other. */
  predicate AllLinePokes(ls: seq<LineScan>, ps: seq<Poke>)
    decreases |ls|
  {
    if ls == [] then ps == []
    else
      var k := |ps| - LineWriteCount(ls[|ls| - 1]);
      && 0 <= k
      && AllLinePokes(ls[..|ls| - 1], ps[..k]) && LinePokes(ls[|ls| - 1], ps[k..])
  }

  /** How many writes a line makes. */
  function LineWriteCount(sc: LineScan): nat
  {
    if sc.NotRecord? then 0 else |sc.writes| + (if sc.stray.Some? then 1 else 0)
  }

  lemma AllLinePokesSnoc(ls: seq<LineScan>, sc: LineScan, ps: seq<Poke>, qs: seq<Poke>)
    requires AllLinePokes(ls, ps) && LinePokes(sc, qs)
    ensures AllLinePokes(ls + [sc], ps + qs)
  {
    assert (ls + [sc])[..|ls|] == ls;
    assert (ps + qs)[..|ps|] == ps;
    assert (ps + qs)[|ps|..] == qs;
  }
}
