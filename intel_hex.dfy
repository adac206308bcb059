/** The older `intel_hex.h`: its encoder, whose helpers and loop are written exactly as in
    `intel_hex20.h` and so share that file's definitions, and its `helpers::read_byte`,
    which reads a pair without keeping a running total. */
module IntelHex {
  import opened Hex
  import opened Capabilities
  import IntelHex20Write
  import IntelHex20Read

  /** `write_data`: records of `min(16, len)` bytes until `len` is used up. Each pass of
      the loop is the same header, data loop, `(~check) + 1` and newline as in
      `intel_hex20.h`, so the output is the same `DataRecords`. */
  method WriteData(w: Writer, m: Memory, address: Word, len: nat)
    requires m.Valid()
    modifies w, m
    ensures w.text == old(w.text) + IntelHex20Write.DataRecords(m.cells[..], address, len)
    ensures m.peeks == old(m.peeks) + IntelHex20Write.PeekOrder(address, len) && m.pokes == old(m.pokes)
  {
    ghost var mem := m.cells[..];
    ghost var done: nat, records: nat := 0, 0;
    var a: Word := address;
    var rest: nat := len;
    while rest != 0
      invariant m.pokes == old(m.pokes)
      invariant IntelHex20Write.Written(mem, address, len, old(w.text), old(m.peeks), done, records, rest, a, w.text, m.peeks)
    {
      ghost var rest0, a0, text0, peeks0 := rest, a, w.text, m.peeks;
      var lineLen: IntelHex20Write.RecordLen := IntelHex20Write.Min(16, rest);
      rest := rest - lineLen;
      a := IntelHex20Write.WriteRecord(w, m, a, lineLen);
      IntelHex20Write.WrittenStep(mem, address, len, old(w.text), old(m.peeks), done, records,
                                  rest0, a0, text0, peeks0, lineLen, rest, a, w.text, m.peeks);
      done, records := done + lineLen, records + 1;
    }
  }

  /** `write_all`: the data records, then `write_end`'s `:00000001FF`. */
  method WriteAll(w: Writer, m: Memory, address: Word, len: nat)
    requires m.Valid()
    modifies w, m
    ensures w.text == old(w.text) + IntelHex20Write.DataRecords(m.cells[..], address, len)
                      + IntelHex20Write.WriteEnd()
    ensures m.peeks == old(m.peeks) + IntelHex20Write.PeekOrder(address, len) && m.pokes == old(m.pokes)
  {
    WriteData(w, m, address, len);
    w.Write(IntelHex20Write.WriteEnd());
  }

  /** Both encoders, given the same memory, address and length, print the same text. */
  method SameOutput(mem: seq<Byte>, address: Word, len: nat)
    returns (older: string, newer: string)
    requires |mem| == 65536
    ensures older == newer
    ensures older == IntelHex20Write.DataRecords(mem, address, len) + IntelHex20Write.WriteEnd()
  {
    var w1 := new Writer();
    var m1 := new Memory(mem);
    WriteAll(w1, m1, address, len);
    var w2 := new Writer();
    var m2 := new Memory(mem);
    IntelHex20Write.WriteAll(w2, m2, address, len);
    older, newer := w1.text, w2.text;
  }

  /** `write_all` as written for a writer that keeps its output in its own state:
      `write_data` takes its writer by value, so it prints to a copy, and only
      `:00000001FF` reaches the caller's writer. Memory is read all the same. */
  method WriteAllByValue(w: Writer, m: Memory, address: Word, len: nat)
    requires m.Valid()
    modifies w, m
    ensures w.text == old(w.text) + IntelHex20Write.WriteEnd()
    ensures m.peeks == old(m.peeks) + IntelHex20Write.PeekOrder(address, len) && m.pokes == old(m.pokes)
  {
    var copy := new Writer();
    copy.Write(w.text);
    WriteData(copy, m, address, len);
    w.Write(IntelHex20Write.WriteEnd());
  }

  /** With such a writer, the older `write_all` prints what the newer one prints only for
      an empty range: any data record is lost. */
  method ByValueOutput(mem: seq<Byte>, address: Word, len: nat)
    returns (older: string, newer: string)
    requires |mem| == 65536
    ensures older == IntelHex20Write.WriteEnd()
    ensures older == newer <==> len == 0
  {
    var w1 := new Writer();
    var m1 := new Memory(mem);
    WriteAllByValue(w1, m1, address, len);
    var w2 := new Writer();
    var m2 := new Memory(mem);
    IntelHex20Write.WriteAll(w2, m2, address, len);
    older, newer := w1.text, w2.text;
  }

  /** `helpers::read_byte`: two characters are always consumed; when both are hex digits
      `val` becomes their value, otherwise the call fails and `val` is left alone. */
  method ReadByte(r: Reader, val: Byte) returns (ok: bool, value: Byte)
    modifies r
    ensures r.pos == old(r.pos) + 2
    ensures var b := IntelHex20Read.PairAt(r.text, old(r.pos));
      && ok == b.Some?
      && value == (if ok then b.value else val)
  {
    var hi := r.Read();
    var lo := r.Read();
    if !IsXDigit(hi) || !IsXDigit(lo) {
      return false, val;
    }
    value := PairValue(hi, lo);
    ok := true;
  }
}
