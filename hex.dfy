/** Character- and byte-level pieces the Intel HEX codec is built from: the C library
    calls it relies on (`isxdigit`, `isspace`, and the digit level of `sprintf("%02x")` and
    `strtol(.., 16)`) as explicit functions, and the 8-bit two's-complement checksum. */
module Hex {

  /** An unsigned 8-bit value (`std::uint8_t`). */
  type Byte = x: int | 0 <= x < 256

  /** An unsigned 16-bit value (`std::uint16_t`), the address width of the format. */
  type Word = x: int | 0 <= x < 65536

  /** `std::isxdigit` in the C locale: a decimal digit or a letter a-f in either case. */
  predicate IsXDigit(c: char)
  {
    ('0' <= c <= '9') || ('a' <= c <= 'f') || ('A' <= c <= 'F')
  }

  /** What `sprintf("%02x")` emits for a digit: 0-9 or a lower-case a-f. */
  predicate IsLowerHex(c: char)
  {
    ('0' <= c <= '9') || ('a' <= c <= 'f')
  }

  /** `std::isspace` in the C locale: space, \t, \n, \v, \f, \r. */
  predicate IsSpace(c: char)
    ensures IsSpace(c) ==> !IsXDigit(c) && c != ':' && c != '\0'
  {
    c == ' ' || c == '\t' || c == '\n' || c == '\U{B}' || c == '\U{C}' || c == '\r'
  }

  /** The value of one hex digit, either case. */
  function DigitValue(c: char): (v: nat)
    requires IsXDigit(c)
    ensures v < 16
  {
    if '0' <= c <= '9' then c as int - '0' as int
    else if 'a' <= c <= 'f' then c as int - 'a' as int + 10
    else c as int - 'A' as int + 10
  }

  /** The lower-case digit `sprintf` prints for a value below 16. */
  function LowerDigit(v: nat): (c: char)
    requires v < 16
    ensures IsLowerHex(c) && DigitValue(c) == v
  {
    if v < 10 then ('0' as int + v) as char else ('a' as int + v - 10) as char
  }

  /** The upper-case form of a digit: 0-9 or A-F. */
  function UpperDigit(v: nat): (c: char)
    requires v < 16
    ensures IsXDigit(c) && DigitValue(c) == v
  {
    if v < 10 then ('0' as int + v) as char else ('A' as int + v - 10) as char
  }

  /** `isxdigit` accepts exactly the digits `%02x` prints and their upper-case forms, and
      `DigitValue` reads each back to the value it stands for. */
  lemma XDigitIsDigit(c: char)
    ensures IsXDigit(c) <==> exists v: nat | v < 16 :: c == LowerDigit(v) || c == UpperDigit(v)
    ensures IsXDigit(c) ==> c == LowerDigit(DigitValue(c)) || c == UpperDigit(DigitValue(c))
  {
    if IsXDigit(c) {
      var v := DigitValue(c);
      assert c == LowerDigit(v) || c == UpperDigit(v);
    }
  }

  /** `strtol(buf, nullptr, 16)` on a buffer holding exactly two hex digits. */
  function PairValue(hi: char, lo: char): (v: Byte)
    requires IsXDigit(hi) && IsXDigit(lo)
  {
    16 * DigitValue(hi) + DigitValue(lo)
  }

  /** The first digit of a pair is the high nibble of its value, the second the low one. */
  lemma PairDigits(hi: char, lo: char)
    requires IsXDigit(hi) && IsXDigit(lo)
    ensures PairValue(hi, lo) / 16 == DigitValue(hi) && PairValue(hi, lo) % 16 == DigitValue(lo)
  {
  }

  /** `x += y` on a `std::uint8_t`: the sum wraps past 255. */
  function Add8(x: Byte, y: Byte): (r: Byte)
    ensures r == (x + y) % 256
  {
    if x + y < 256 then x + y else x + y - 256
  }

  /** `address++` on a `std::uint16_t`: 0xffff wraps to 0. */
  function Inc16(a: Word): (r: Word)
  {
    if a == 65535 then 0 else a + 1
  }

  /** `len--` on a `std::uint8_t`: 0 wraps to 255. */
  function Dec8(x: Byte): (r: Byte)
  {
    if x == 0 then 255 else x - 1
  }

  /** `Dec8` is subtraction of one modulo 256. */
  lemma Dec8Wraps(x: Byte)
    ensures Dec8(x) == (x - 1) % 256
  {
  }

  /** The address reached after `n` increments. */
  function Advance(a: Word, n: nat): (r: Word)
  {
    if n == 0 then a else Inc16(Advance(a, n - 1))
  }

  /** `n` 16-bit increments move the address by `n` modulo 65536. */
  lemma {:induction false} AdvanceWraps(a: Word, n: nat)
    ensures Advance(a, n) == (a + n) % 65536
  {
    if n > 0 {
      AdvanceWraps(a, n - 1);
      IncMod(a + n - 1);
    }
  }

  /** `address++` on a 16-bit address is adding one modulo 65536, whatever the start. */
  lemma IncMod(x: nat)
    ensures (x + 1) % 65536 == Inc16(x % 65536)
  {
    var q := x / 65536;
    assert x == 65536 * q + x % 65536;
    if x % 65536 == 65535 {
      assert x + 1 == 65536 * (q + 1);
    } else {
      assert x + 1 == 65536 * q + (x % 65536 + 1);
    }
  }

  /** Advancing by `x` and then by `y` is advancing by `x + y`. */
  lemma {:induction false} AdvanceAdd(a: Word, x: nat, y: nat)
    ensures Advance(Advance(a, x), y) == Advance(a, x + y)
  {
    if y > 0 {
      AdvanceAdd(a, x, y - 1);
    }
  }

  lemma AppendAssoc<T>(a: seq<T>, b: seq<T>, c: seq<T>)
    ensures a + b + c == a + (b + c)
  {
  }

  /** The unbounded sum of a byte sequence. */
  function Sum(s: seq<Byte>): (r: nat)
  {
    if s == [] then 0 else Sum(s[..|s| - 1]) + s[|s| - 1]
  }

  lemma {:induction false} SumConcat(a: seq<Byte>, b: seq<Byte>)
    ensures Sum(a + b) == Sum(a) + Sum(b)
  {
    if b == [] {
      assert a + b == a;
    } else {
      assert (a + b)[..|a + b| - 1] == a + b[..|b| - 1];
      SumConcat(a, b[..|b| - 1]);
    }
  }

  lemma SumOfFour(a: Byte, b: Byte, c: Byte, d: Byte)
    ensures Sum([a, b, c, d]) == a + b + c + d
  {
    assert [a][..0] == [];
    assert Sum([a]) == a;
    assert [a, b][..1] == [a];
    assert Sum([a, b]) == a + b;
    assert [a, b, c][..2] == [a, b];
    assert Sum([a, b, c]) == a + b + c;
    assert [a, b, c, d][..3] == [a, b, c];
  }

  /** Reducing a partial sum modulo 256 does not change the 8-bit total. */
  lemma Mod256Add(x: nat, y: nat)
    ensures (x + y) % 256 == (x % 256 + y) % 256
  {
    var q := x / 256;
    assert x == 256 * q + x % 256;
    assert x + y == 256 * q + (x % 256 + y);
  }

  /** The running 8-bit total of a sequence, as a `std::uint8_t` accumulator keeps it. */
  function Sum8(init: Byte, s: seq<Byte>): (r: Byte)
  {
    if s == [] then init else Add8(Sum8(init, s[..|s| - 1]), s[|s| - 1])
  }

  lemma Sum8Snoc(init: Byte, s: seq<Byte>, x: Byte)
    ensures Sum8(init, s + [x]) == Add8(Sum8(init, s), x)
  {
    assert (s + [x])[..|s|] == s;
  }

  /** The running total of four bytes, accumulated one at a time. */
  lemma Sum8OfFour(a: Byte, b: Byte, c: Byte, d: Byte)
    ensures Sum8(0, [a, b, c, d]) == Add8(Add8(Add8(Add8(0, a), b), c), d)
  {
    assert [a][..0] == [];
    assert Sum8(0, [a]) == Add8(0, a);
    assert [a, b][..1] == [a];
    assert Sum8(0, [a, b]) == Add8(Add8(0, a), b);
    assert [a, b, c][..2] == [a, b];
    assert Sum8(0, [a, b, c]) == Add8(Add8(Add8(0, a), b), c);
    assert [a, b, c, d][..3] == [a, b, c];
  }

  /** Accumulating `a` and then `b` is accumulating `a + b`. */
  lemma {:induction false} Sum8Concat(init: Byte, a: seq<Byte>, b: seq<Byte>)
    ensures Sum8(Sum8(init, a), b) == Sum8(init, a + b)
  {
    if b == [] {
      assert a + b == a;
    } else {
      var p := b[..|b| - 1];
      Sum8Concat(init, a, p);
      assert (a + b)[..|a + b| - 1] == a + p;
    }
  }

  /** The running 8-bit total is the sum reduced modulo 256. */
  lemma {:induction false} Sum8IsSumMod(init: Byte, s: seq<Byte>)
    ensures Sum8(init, s) == (init + Sum(s)) % 256
  {
    if s != [] {
      var p := s[..|s| - 1];
      Sum8IsSumMod(init, p);
      Mod256Add(init + Sum(p), s[|s| - 1]);
    }
  }

  /** The Intel HEX checksum of a record's bytes: the two's complement of their 8-bit sum,
      the one byte that brings the 8-bit sum of the whole record to zero. */
  function Checksum(s: seq<Byte>): (r: Byte)
    ensures (Sum(s) + r) % 256 == 0
  {
    Complement256(Sum(s));
    (256 - Sum(s) % 256) % 256
  }

  lemma Complement256(x: nat)
    ensures (x + (256 - x % 256) % 256) % 256 == 0
  {
    var q, t := x / 256, x % 256;
    assert x == 256 * q + t;
    if t != 0 {
      assert x + (256 - t) == 256 * (q + 1);
    }
  }

  /** The checksum is the only byte that completes a record: a reader that checks the
      8-bit total for zero accepts exactly the byte the writer computes. */
  lemma ChecksumUnique(s: seq<Byte>, c: Byte)
    ensures (Sum(s) + c) % 256 == 0 <==> c == Checksum(s)
  {
    var k := Sum(s) % 256;
    Mod256Add(Sum(s), c);
    assert (Sum(s) + c) % 256 == (k + c) % 256;
    ZeroMod256(k + c);
  }

  /** Below 512, only 0 and 256 are multiples of 256. */
  lemma ZeroMod256(x: nat)
    requires x < 512
    ensures x % 256 == 0 <==> x == 0 || x == 256
  {
    if x >= 256 {
      assert x % 256 == x - 256;
    }
  }

  /** Replacing one byte changes the sum by the difference. */
  lemma {:induction false} SumUpdate(b: seq<Byte>, i: nat, v: Byte)
    requires i < |b|
    ensures Sum(b[i := v]) + b[i] == Sum(b) + v
    decreases |b|
  {
    var n := |b| - 1;
    var c := b[i := v];
    if i == n {
      assert c[..n] == b[..n];
    } else {
      assert c[..n] == b[..n][i := v];
      SumUpdate(b[..n], i, v);
    }
  }

  /** The checksum catches any single changed byte: when the bytes of a record sum to 0
      modulo 256, changing any one of them, the checksum included, breaks that. */
  lemma SumChanged(b: seq<Byte>, i: nat, v: Byte)
    requires i < |b| && Sum(b) % 256 == 0 && v != b[i]
    ensures Sum(b[i := v]) % 256 != 0
  {
    SumUpdate(b, i, v);
    var d := v - b[i];
    var k := Sum(b) / 256;
    assert Sum(b) == 256 * k;
    if d > 0 {
      assert Sum(b[i := v]) == 256 * k + d;
      ModOf(k, d);
    } else {
      assert Sum(b[i := v]) == 256 * (k - 1) + (d + 256);
      ModOf(k - 1, d + 256);
    }
  }

  lemma ModOf(k: int, r: int)
    requires 0 <= r < 256 && 0 <= 256 * k + r
    ensures (256 * k + r) % 256 == r
  {
  }

  /** Appending the checksum to the bytes it covers gives a sequence whose checksum is zero. */
  lemma ChecksumCompleted(s: seq<Byte>)
    ensures Checksum(s + [Checksum(s)]) == 0
  {
    SumConcat(s, [Checksum(s)]);
    assert Sum([Checksum(s)]) == Checksum(s) by {
      assert [Checksum(s)][..0] == [];
    }
  }

  /** The running 8-bit total of a record's bytes gives, through `(~check) + 1`, the
      record's checksum. */
  lemma TotalChecksum(s: seq<Byte>, check: Byte)
    requires check == Sum(s) % 256
    ensures Negate8(check) == Checksum(s)
  {
    Mod256Add(Sum(s), Negate8(check));
    ChecksumUnique(s, Negate8(check));
  }

  /** `~x` on a value promoted to `int`: in two's complement, `-x - 1`. */
  function BitNot(x: int): int
  {
    -x - 1
  }

  /** `(~check) + 1` converted back to `std::uint8_t` (reduction modulo 256), as the writers
      compute the checksum byte from the running 8-bit total. */
  function Negate8(check: Byte): (r: Byte)
    ensures (check + r) % 256 == 0
  {
    (BitNot(check) + 1) % 256
  }
}
