# Intel HEX codec, modelled in Dafny

This project models the Intel HEX codec of `src/intel_hex20.h`. It also models the encoder and
`helpers::read_byte` of the older `src/intel_hex.h`. The format is a text of records
`:LLAAAATTDD..DDCC`. Each record has a byte count, a big-endian 16-bit address, a record type
(00 data, 01 end of file), the data bytes and a checksum. The checksum is the two's complement
of the 8-bit sum of all other bytes of the record.

The model has six modules, one file each:

- `Hex` (`hex.dfy`) covers the C library pieces the codec relies on, written out as functions:
  - `isxdigit` and `isspace` in the C locale;
  - the digits of `sprintf("%02x")` and the value `strtol(.., 16)` gives two hex digits;
  - 8- and 16-bit wrap-around;
  - the byte sum and the checksum.
- `Capabilities` (`capabilities.dfy`) covers the four capabilities the codec is written against:
  - `Writer`: the text output, which only grows by appending;
  - `Reader`: the character input, which yields `'\0'` once the text is used up;
  - `Memory`: one 65536-cell byte `array` serving both `peek` and `poke`. Ghost logs record
    every address peeked and every poke in call order.
- `IntelHex20Write` (`intel_hex20_write.dfy`) is the encoder:
  - `write_byte`, `write_word` and `write_end` are functions returning text;
  - `write_data` is a method whose nested loops append to the writer and peek memory;
  - `write_all` is a method.

  The whole output is specified by `DataRecords`: one `DataRecord` per `Chunk` of the range,
  where the chunks are `min(16, len)` bytes at a time.
- `IntelHex20Read` (`intel_hex20_read.dfy`) is the decoder. `read_byte`, `read_16bit`,
  `read_line` and `read` are methods that advance the reader and poke memory in place. What
  one `read_line` call does, from a reader position, is the function `ScanLine`. What `read`
  does is a `Run` of such lines.
- `IntelHex` (`intel_hex.dfy`) holds the older encoder and its `read_byte`. Its `write_byte`,
  `write_word` and `write_end` print the same text as the newer file's, so they share the
  definitions in `IntelHex20Write`. The body of its `write_data` loop (`src/intel_hex.h:59-77`)
  is the same text as `src/intel_hex20.h:61-79`, so `IntelHex.WriteData` runs the shared
  `IntelHex20Write.WriteRecord` for each record. It prints the same `DataRecords` by
  construction; only the outer loop is its own. That `write_data` takes its writer by value. `WriteAllByValue` models
  what then happens with a writer object that keeps its output itself.
- `RoundTrip` (`round_trip.dfy`) proves what `read` makes of what `write_all` prints:
  - every data record is accepted as type 0 and writes back exactly the bytes that were read;
  - the end-of-file record is accepted as type 1 and writes nothing;
  - `read` then fails at the end of the input.

  So decoding the encoded text restores memory on the encoded addresses and leaves every other
  cell alone.

Uninitialised C++ locals (`hi`, `lo`, `len`, `type`, `data`, `check` in the readers) are
arbitrary values (`:| true`). No contract pins down a value that depends on one.

The model follows the code where a reader might expect otherwise. A valid end-of-file record
sets `endrecord` but does not stop `read`. Only a line that fails does, at the latest at the
end of the input, so `read` always returns false.

## Model

| member | source | states |
|---|---|---|
| Hex.XDigitIsDigit | src/intel_hex20.h:101 | `isxdigit` accepts exactly the digits `%02x` prints for the values below 16 and their upper-case forms, and `DigitValue` reads each back to its value. |
| Hex.UpperDigit | src/intel_hex20.h:101 | The upper-case form of a digit passes `isxdigit` and reads back to the same value as the lower-case form. |
| Hex.IsSpace | src/intel_hex20.h:123 | A whitespace character is never a hex digit, a colon or the `'\0'` of end of input, so skipping whitespace never skips part of a record. |
| Hex.LowerDigit | src/intel_hex20.h:44 | The digit `%02x` prints for a value below 16 is a lower-case hex digit, and `strtol` reads it back to that value. |
| Hex.PairDigits | src/intel_hex20.h:105 | `strtol(buffer, nullptr, 16)` on two hex digits is the high digit times 16 plus the low digit: the value's high nibble is the first digit and its low nibble the second. |
| Hex.Add8 | src/intel_hex20.h:73 | `check += val` on a `std::uint8_t` is addition modulo 256. |
| Hex.IncMod | src/intel_hex20.h:75 | `address++` on a `std::uint16_t` is adding one modulo 65536, from any start. |
| Hex.Dec8Wraps | src/intel_hex20.h:141 | `len--` on a `std::uint8_t` is subtracting one modulo 256, so 0 becomes 255. |
| Hex.AdvanceWraps | src/intel_hex20.h:75 | `n` successive `address++` on a 16-bit address give `(address + n) mod 65536`. |
| Hex.Sum8IsSumMod | src/intel_hex20.h:73 | A `std::uint8_t` running total over a byte sequence equals the start value plus the byte sum, mod 256. |
| Hex.Checksum | src/intel_hex20.h:20 | The checksum byte brings the record's total byte sum to 0 mod 256. |
| Hex.ChecksumUnique | src/intel_hex20.h:20 | A byte completes a record's sum to 0 mod 256 if and only if it is the checksum. |
| Hex.SumUpdate | src/intel_hex20.h:141-146 | Replacing one byte of a record changes its sum by exactly the difference between the new and the old byte. |
| Hex.SumChanged | src/intel_hex20.h:145-146 | When a record's bytes sum to 0 modulo 256, changing any single byte, the checksum included, makes the sum non-zero: the `chk_tot == 0` test catches every one-byte corruption. |
| Hex.ChecksumCompleted | src/intel_hex20.h:20 | The bytes followed by their checksum have checksum 0. |
| Hex.Negate8 | src/intel_hex20.h:77 | `(~check) + 1`, truncated to 8 bits, added to `check` gives 0 mod 256. |
| Hex.TotalChecksum | src/intel_hex20.h:77 | Applied to the running total of a record's bytes, `(~check) + 1` is that record's checksum. |
| Capabilities.CharAt | src/intel_hex20.h:27 | Past the end of the text the reader yields `'\0'`. |
| Capabilities.ApplyConcat | src/intel_hex20.h:31 | Poking two batches one after the other is poking their concatenation. |
| Capabilities.Writer.Write | src/intel_hex20.h:23-25 | A write appends its string to the output and changes nothing else. |
| Capabilities.Reader.Read | src/intel_hex20.h:27-29 | Each call yields the next character, or `'\0'` at end of input, and advances by one. |
| Capabilities.Memory.Peek | src/intel_hex20.h:35-37 | Yields the cell at the address; logs the address and pokes nothing. |
| Capabilities.Memory.DoPoke | src/intel_hex20.h:31-33 | Sets exactly the one cell; logs the poke and peeks nothing. |
| IntelHex20Write.WriteByte | src/intel_hex20.h:42-46 | `write_byte` prints two lower-case hex digits that `read_byte` accepts and `strtol` reads back to the byte. |
| IntelHex20Write.WriteWord | src/intel_hex20.h:48-51 | `write_word` prints four hex digits, high byte first, whose two pairs read back to the word. |
| IntelHex20Write.WriteEnd | src/intel_hex20.h:82-84 | `write_end` prints 11 characters starting with a colon and no newline. |
| IntelHex20Write.WriteEndIsEndRecord | src/intel_hex20.h:82-84 | `:00000001FF` is 11 characters: a colon, then count 0, address 0, type 1 and the checksum of those four bytes. There is no newline. |
| IntelHex20Write.RecordLineFormat | src/intel_hex20.h:67-78 | A record line is `:`, two lower-case hex digits per byte that read back to it, and a newline. |
| IntelHex20Write.DataRecordContent | src/intel_hex20.h:61-78 | A data record's bytes are: the count `n`; the big-endian address; type 0; memory at `address + i` mod 65536 for each `i < n`; and a last byte making the 8-bit sum 0. |
| IntelHex20Write.RecordChecksum | src/intel_hex20.h:65-77 | The total `write_data` starts from the truncated count plus the address bytes and accumulates per byte. Through `(~check) + 1` it gives the record's checksum. |
| IntelHex20Write.DataRecords | src/intel_hex20.h:58-80 | `write_data` prints nothing exactly when `len` is 0. Otherwise its output starts with a colon and ends with a newline. |
| IntelHex20Write.ChunksCount | src/intel_hex20.h:61-63 | A range of `len` bytes makes ceil(len / 16) records, and none when `len` is 0. |
| IntelHex20Write.ChunkAt | src/intel_hex20.h:61-75 | Record `i` starts at `address + 16 i` mod 65536. It holds `min(16, len - 16 i)` bytes: 16 each, then the remainder. |
| IntelHex20Write.WriteHeader | src/intel_hex20.h:67-70 | The header printed is `:` and the hex of count, address high, address low and type 0. |
| IntelHex20Write.WritePayload | src/intel_hex20.h:71-76 | The inner loop reads `lineLen` bytes at successive wrapping addresses and prints each. The total gains each byte, and the address advances by `lineLen`. |
| IntelHex20Write.WriteRecord | src/intel_hex20.h:62-78 | One outer pass appends exactly one `DataRecord`. It peeks its addresses in order, pokes nothing and returns the wrapped next address. |
| IntelHex20Write.WriteData | src/intel_hex20.h:58-80 | The output grows by `DataRecords` of the memory. Memory is peeked exactly once per byte, at `address + i` mod 65536 in increasing `i`, and never poked. |
| IntelHex20Write.WriteAll | src/intel_hex20.h:86-89 | The output grows by the data records followed by `:00000001FF`, with the same peeks. |
| IntelHex20Read.SkipSpace | src/intel_hex20.h:122-125 | The skipping loop stops at or after its start, on a character that is not whitespace. |
| IntelHex20Read.SkipSpaceSkipsOnlySpace | src/intel_hex20.h:122-125 | Every character skipped is whitespace, so the loop stops at the first non-whitespace character. |
| IntelHex20Read.SkipWhitespace | src/intel_hex20.h:122-125 | The reader stands right after the first non-whitespace character, which is returned. |
| IntelHex20Read.GoodPairs | src/intel_hex20.h:141-144 | At most `n` pairs are good. When fewer are, the next pair fails to parse. |
| IntelHex20Read.PairAt | src/intel_hex20.h:97-105 | A pair parses only when both its characters lie inside the text: the `'\0'` past the end is not a hex digit. |
| IntelHex20Read.RecordAccepted | src/intel_hex20.h:131-150 | A record is accepted if and only if its header parses with type 0 or 1, all `n` data pairs and the checksum pair parse, and the 8-bit sum of all its bytes is zero. |
| IntelHex20Read.CorruptedDataRejected | src/intel_hex20.h:141-146 | A record that passes the checksum test fails it once any one data byte is changed. |
| IntelHex20Read.CorruptedHeaderRejected | src/intel_hex20.h:136-146 | A record that passes the checksum test fails it once any one header byte is changed. |
| IntelHex20Read.OtherTypeRejected | src/intel_hex20.h:138-139 | A record whose type pair parses to anything but 0 or 1 is rejected even with a correct checksum: nothing is written, and the reader stops after the header and one more pair. |
| IntelHex20Read.Halves | src/intel_hex20.h:115 | Shifting `hi` left by 8 and or-ing in `lo` keeps `hi` as the high byte and `lo` as the low byte. |
| IntelHex20Read.GoodPairsNext | src/intel_hex20.h:141-144 | The data loop reads pairs up to the first failing pair. The pair at index `i` parses exactly when `i` is inside that good prefix, and it is then the prefix's byte `i`. |
| IntelHex20Read.ScanLine | src/intel_hex20.h:120-151 | Every line consumes at least one character. An accepted line stays within the text. |
| IntelHex20Read.ScanRecord | src/intel_hex20.h:131-151 | After a colon at least 10 characters are consumed (header and checksum pairs). An accepted record stays within the text. |
| IntelHex20Read.LineTotal | src/intel_hex20.h:131-146 | `chk_tot` after header, data and checksum is the 8-bit sum of all the record's bytes. |
| IntelHex20Read.ReadByte | src/intel_hex20.h:95-108 | Exactly two characters are consumed. It succeeds if and only if both are hex digits in either case. Then `val` is their value and `chk_tot` gains it mod 256. Otherwise both are unchanged. |
| IntelHex20Read.Read16Bit | src/intel_hex20.h:110-117 | Four characters are always consumed. The call succeeds if and only if both pairs parse. Each pair that parsed is added to the total and gives its half of the value, high byte first. |
| IntelHex20Read.ReadHeader | src/intel_hex20.h:131-139 | Eight characters are consumed. The header is usable if and only if all four pairs parse and the type is 0 or 1. Then count, address and total are those pairs' values. |
| IntelHex20Read.ReadPoke | src/intel_hex20.h:142-143 | One pass reads a pair and then pokes `data` at the address, whether or not the pair parsed. |
| IntelHex20Read.ReadData | src/intel_hex20.h:141-144 | After a bad header nothing is read or poked. Otherwise one poke is made per good pair at wrapping addresses. A failing pair ends the loop after one more poke of the old `data`. |
| IntelHex20Read.ReadRecord | src/intel_hex20.h:131-150 | After the colon, the reader position, the result, the type and the pokes are those `ScanRecord` describes. |
| IntelHex20Read.ReadLine | src/intel_hex20.h:120-151 | The reader position and the result follow `ScanLine`. `endrecord` is unchanged when no colon was found, and `type == 1` once the type parsed. Memory changes by exactly the line's pokes. |
| IntelHex20Read.Run | src/intel_hex20.h:159-161 | Each `read_line` call in a run consumes at least one character, so a run of `k` lines ends at least `k` characters on. |
| IntelHex20Read.RunSnoc | src/intel_hex20.h:159-161 | After accepted lines, one more `read_line` call extends the run. |
| IntelHex20Read.Read | src/intel_hex20.h:153-163 | Returns false and terminates on every finite input. The lines read form a run ending in the first line that fails. Memory takes each line's pokes in turn. |
| IntelHex.WriteData | src/intel_hex.h:47-78 | The older loop prints the same `DataRecords` as the newer one. It peeks once per byte in order and never pokes. |
| IntelHex.WriteAll | src/intel_hex.h:85-89 | For a writer whose copies share their output: the data records, then `:00000001FF`. |
| IntelHex.SameOutput | src/intel_hex.h:47-89 | For a writer whose copies share their output, both encoders print the same text for the same memory, address and length: the data records, then the end record. |
| IntelHex.WriteAllByValue | src/intel_hex.h:48 | With a writer object that keeps its output itself, `write_data` prints into its by-value copy. Only `:00000001FF` reaches the caller's writer, though memory is still read once per byte. |
| IntelHex.ByValueOutput | src/intel_hex.h:86-89 | With such a writer the older `write_all` prints the same as the newer one if and only if the range is empty. |
| IntelHex.ReadByte | src/intel_hex.h:95-108 | Exactly two characters are consumed. It succeeds if and only if both are hex digits. Then `val` is their value; otherwise `val` is unchanged. No running total is kept. |
| RoundTrip.GoodPairsAll | src/intel_hex20.h:141-144 | When every data pair parses, the data loop reads all of them. |
| RoundTrip.RecordLineScan | src/intel_hex20.h:120-151 | A record line of `n` bytes is accepted with type 0 or 1 and stops on its newline, writing its data from its address. It needs a matching count and an 8-bit sum of 0. |
| RoundTrip.DataLineScan | src/intel_hex20.h:58-80 | Each data record `write_data` prints is accepted by `read_line` as type 0. It writes exactly the bytes that were read, at their addresses, with no stray write. |
| RoundTrip.EndLineScan | src/intel_hex20.h:82-84 | The `write_end` record is accepted by `read_line` as type 1, makes no writes and is fully consumed. |
| RoundTrip.SkipNewline | src/intel_hex20.h:123-125 | The newline ending a record is skipped as whitespace by the next `read_line`. |
| RoundTrip.EndOfInput | src/intel_hex20.h:127-129 | At the end of the input `'\0'` is not a colon, so `read_line` fails. |
| RoundTrip.EncodedRun | src/intel_hex20.h:153-163 | On `write_all`'s output, `read` runs through ceil(len / 16) accepted data lines, then the accepted end record, then a failing line. Together they write the range's bytes at their addresses. |
| RoundTrip.RunsAgree | src/intel_hex20.h:159-161 | Two runs from the same position that both end at a failing line are the same run. |
| RoundTrip.PokesOfRun | src/intel_hex20.h:141-143 | Without stray writes, a run's writes are its lines' writes in order. |
| RoundTrip.DecodesEncoded | src/intel_hex20.h:153-163 | Whatever `read` does on the encoded text is that run. It stops right after the input and its writes are exactly the encoded bytes at their addresses. |
| RoundTrip.ApplyRange | src/intel_hex20.h:143 | Poking a range's bytes back leaves each cell equal to the source memory when its address is in the range, and unchanged otherwise. |
| RoundTrip.EncodeThenDecode | src/intel_hex20.h:86-163 | `write_all` (lines 86-89), then `read` (lines 153-163) on its output, returns false. Every cell whose address is in the range holds the original byte, and every other cell keeps its value. |

## Left out

- `src/main.cpp` (printing to standard output, the demo memory source) is not part of this model. The writer, reader and memory are the classes in `Capabilities`.
- Exceptions thrown by the writer or reader capabilities are not modelled. End of input is only the reader yielding `'\0'`.
- The decoder of `src/intel_hex.h` is unfinished:
  - its `read_line` has no return on its last path;
  - its `read` has no body besides `static_assert`s;
  - its `read_byte` passes the type `std::nullptr_t` as a value.

  Only the parsing logic of that `read_byte` is modelled (`IntelHex.ReadByte`).
- Concepts, templates and `static_assert`s are compile-time typing only, with no run-time behaviour to model.
- `IntelHex.WriteData`: the older `write_data` takes its writer by value. The model shares one writer object. The two differ only for a writer whose copies do not share their output; that case is `IntelHex.WriteAllByValue`.
- `IntelHex.WriteAll`: stated for a writer whose copies share their output, as a plain function or one writing to a shared stream does. For a writer object that keeps its output itself, see `IntelHex.WriteAllByValue` and the finding below.
- `IntelHex.SameOutput`: holds only for a writer whose copies share their output. Otherwise the older encoder loses every data record, as `IntelHex.ByValueOutput` states.
- `IntelHex20Read.Read16Bit`: when a pair fails, the matching half of the value comes from an uninitialised local. Only the halves that parsed are stated.
- `IntelHex20Read.ReadLine`: when the type pair fails to parse, `endrecord` is set from the uninitialised `type`. Its value is left unstated then.
- `IntelHex20Read.ScanRecord`: when the very first data pair fails, the poke it makes writes the uninitialised `data`. Only its address is stated (the `stray` field).
- `isxdigit` and `isspace` on negative `char` values (undefined behaviour in C) are not modelled. Characters are Dafny `char`s, and the predicates are the C-locale sets.
- `size_t len` in `write_data` is an unbounded `nat`. It only decreases, so no wrap-around arises. The 8-bit count printed is at most 16.
- One-byte corruption is stated on the record's bytes (`CorruptedDataRejected`, `CorruptedHeaderRejected`, `SumChanged`), not on its text. A corrupted character that is no longer a hex digit is rejected by the parse (`RecordAccepted`). A digit whose case changes gives the same byte and is accepted. A changed count byte also changes which characters are read as data, so what it does to the text is not stated.
- `read` is modelled only on finite input (a `seq<char>`). Its termination is proved from that, since the reader yields `'\0'` past the end and `'\0'` is not a colon.

## Findings

| source | as written | input that shows it | evidently intended | confidence | as-written member | corrected member |
|---|---|---|---|---|---|---|
| src/intel_hex.h:48 | `write_data` takes `fileWriter w` by value, and `write_all` (line 87) passes its own writer to it, so the data records go to a copy | a writer object that keeps its output in a member, with `len` = 1 | take `fileWriter& w`, as `intel_hex20.h:58` does, so the data records reach the caller's writer | medium; not executed | IntelHex.ByValueOutput | IntelHex.SameOutput |
