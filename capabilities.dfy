/** The four capabilities the codec is written against: a text writer, a character
    reader that yields 0 at end of input, and a 64 KiB memory image that can be peeked
    and poked one byte at a time. */
module Capabilities {
  import opened Hex

  /** One call of the memory writer: `poke(addr, val)`. */
  datatype Poke = Poke(addr: Word, val: Byte)

  /** The character the reader yields at call number `i`: the text, then 0 forever. */
  function CharAt(text: seq<char>, i: nat): (c: char)
    ensures i >= |text| ==> c == '\0'
  {
    if i < |text| then text[i] else '\0'
  }

  /** The memory image after a sequence of pokes, applied in order. */
  function Apply(mem: seq<Byte>, pokes: seq<Poke>): (r: seq<Byte>)
    requires |mem| == 65536
    ensures |r| == 65536
  {
    if pokes == [] then mem
    else Apply(mem, pokes[..|pokes| - 1])[pokes[|pokes| - 1].addr := pokes[|pokes| - 1].val]
  }

  /** Applying two batches of pokes one after the other is applying their concatenation. */
  lemma {:induction false} ApplyConcat(mem: seq<Byte>, a: seq<Poke>, b: seq<Poke>)
    requires |mem| == 65536
    ensures Apply(Apply(mem, a), b) == Apply(mem, a + b)
  {
    if b == [] {
      assert a + b == a;
    } else {
      assert (a + b)[..|a + b| - 1] == a + b[..|b| - 1];
      ApplyConcat(mem, a, b[..|b| - 1]);
    }
  }

  /** One more poke updates one cell of the image. */
  lemma ApplySnoc(mem: seq<Byte>, pokes: seq<Poke>, p: Poke)
    requires |mem| == 65536
    ensures Apply(mem, pokes + [p]) == Apply(mem, pokes)[p.addr := p.val]
  {
    assert (pokes + [p])[..|pokes|] == pokes;
  }

  /** `fileWriter`: each call appends a string to the output; nothing is ever taken back. */
  class Writer {
    var text: seq<char>

    constructor ()
      ensures text == []
    {
      text := [];
    }

    method Write(s: string)
      modifies this
      ensures text == old(text) + s
    {
      text := text + s;
    }
  }

  /** `fileReader`: each call yields the next character, and 0 once the input is used up.
      `pos` counts the calls made so far. */
  class Reader {
    const text: seq<char>
    var pos: nat

    constructor (text: seq<char>)
      ensures this.text == text && pos == 0
    {
      this.text := text;
      pos := 0;
    }

    method Read() returns (c: char)
      modifies this
      ensures c == CharAt(text, old(pos)) && pos == old(pos) + 1
    {
      c := CharAt(text, pos);
      pos := pos + 1;
    }
  }

  /** `memReader` and `memWriter` over one 65536-cell image. The ghost logs record every
      address peeked and every poke, in call order. */
  class Memory {
    const cells: array<Byte>
    ghost var peeks: seq<Word>
    ghost var pokes: seq<Poke>

    ghost predicate Valid()
      reads this
    {
      cells.Length == 65536
    }

    constructor (init: seq<Byte>)
      requires |init| == 65536
      ensures Valid() && fresh(cells) && cells[..] == init
      ensures peeks == [] && pokes == []
    {
      cells := new Byte[65536](i requires 0 <= i < 65536 => init[i]);
      peeks, pokes := [], [];
    }

    method Peek(addr: Word) returns (val: Byte)
      requires Valid()
      modifies this
      ensures Valid() && val == cells[addr]
      ensures peeks == old(peeks) + [addr] && pokes == old(pokes)
    {
      val := cells[addr];
      peeks := peeks + [addr];
    }

    method DoPoke(addr: Word, val: Byte)
      requires Valid()
      modifies this, cells
      ensures Valid() && cells[..] == old(cells[..])[addr := val]
      ensures pokes == old(pokes) + [Poke(addr, val)] && peeks == old(peeks)
    {
      cells[addr] := val;
      pokes := pokes + [Poke(addr, val)];
    }
  }
}
