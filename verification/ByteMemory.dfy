/**
  The memory of a 32-bit big-endian machine: bytes at addresses, words of four
  bytes at any address, and strings of bytes.
 */
module ByteMemory {
  import opened Bits

  type Memory = nat -> byte

  /** The end of the address space, and of what a word can hold. */
  const SPACE: nat := 0x1_0000_0000

  function Peek(w: Memory, a: nat): (v: nat)
    ensures v < SPACE
  {
    0x100_0000 * w(a) + 0x1_0000 * w(a + 1) + 0x100 * w(a + 2) + w(a + 3)
  }

  function ByteOf(v: nat, i: nat): byte {
    if i == 0 then v / 256 / 256 / 256 % 256
    else if i == 1 then v / 256 / 256 % 256
    else if i == 2 then v / 256 % 256
    else v % 256
  }

  function Poke(w: Memory, a: nat, v: nat): Memory {
    (x: nat) => if a <= x < a + 4 then ByteOf(v, x - a) else w(x)
  }

  function Write(w: Memory, a: nat, bs: seq<byte>): Memory {
    (x: nat) => if a <= x < a + |bs| then bs[x - a] else w(x)
  }

  ghost predicate Has(w: Memory, a: nat, bs: seq<byte>) {
    forall i :: 0 <= i < |bs| ==> w(a + i) == bs[i]
  }

  lemma PeekPoke(w: Memory, a: nat, v: nat)
    requires v < SPACE
    ensures Peek(Poke(w, a, v), a) == v
  {
    var u := Poke(w, a, v);
    assert u(a) == ByteOf(v, 0) && u(a + 1) == ByteOf(v, 1) && u(a + 2) == ByteOf(v, 2) && u(a + 3) == ByteOf(v, 3);
    Digits(v);
  }

  lemma Digits(v: nat)
    requires v < SPACE
    ensures var b0: int, b1: int, b2: int, b3: int := ByteOf(v, 0), ByteOf(v, 1), ByteOf(v, 2), ByteOf(v, 3);
            0x100_0000 * b0 + 0x1_0000 * b1 + 0x100 * b2 + b3 == v
  {
    var q := v / 256;
    var p := q / 256;
    var o := p / 256;
    assert v == 256 * q + v % 256 && q == 256 * p + q % 256 && p == 256 * o + p % 256;
    assert o < 256 && o % 256 == o;
  }

  lemma PeekSame(w: Memory, v: Memory, a: nat)
    requires forall x: nat :: a <= x < a + 4 ==> w(x) == v(x)
    ensures Peek(w, a) == Peek(v, a)
  {
  }

  lemma PokeElsewhere(w: Memory, a: nat, v: nat, b: nat)
    requires a + 4 <= b || b + 4 <= a
    ensures Peek(Poke(w, a, v), b) == Peek(w, b)
  {
  }

  lemma HasSame(w: Memory, v: Memory, a: nat, bs: seq<byte>)
    requires Has(w, a, bs) && forall x: nat :: a <= x < a + |bs| ==> w(x) == v(x)
    ensures Has(v, a, bs)
  {
  }

  lemma HasWritten(w: Memory, a: nat, bs: seq<byte>)
    ensures Has(Write(w, a, bs), a, bs)
  {
  }
}
