/**
  Bits, bytes and the two ways of reading a run of bits as a number.
  Section 3.1.1 of RFC 1951: data elements are packed least significant bit
  first, Huffman codes most significant bit first.
 */
module Bits {
  type bit = b: int | 0 <= b < 2
  type byte = b: int | 0 <= b < 256

  function Pow2(n: nat): (r: nat)
    ensures r >= 1
  {
    if n == 0 then 1 else 2 * Pow2(n - 1)
  }

  lemma MulAssoc(a: int, b: int, c: int)
    ensures (a * b) * c == a * (b * c)
  {
  }

  lemma {:induction false} Pow2Add(a: nat, b: nat)
    ensures Pow2(a + b) == Pow2(a) * Pow2(b)
  {
    if a == 0 {
    } else {
      Pow2Add(a - 1, b);
      MulAssoc(2, Pow2(a - 1), Pow2(b));
    }
  }

  /** The number whose least significant bit comes first. */
  function Lsb(w: seq<bit>): (v: nat)
    ensures v < Pow2(|w|)
  {
    if w == [] then 0 else w[0] + 2 * Lsb(w[1..])
  }

  /** The number whose most significant bit comes first. */
  function Msb(w: seq<bit>): (v: nat)
    ensures v < Pow2(|w|)
  {
    if w == [] then 0 else 2 * Msb(w[..|w| - 1]) + w[|w| - 1]
  }

  function LsbBits(v: nat, n: nat): (w: seq<bit>)
    ensures |w| == n
  {
    if n == 0 then [] else [v % 2] + LsbBits(v / 2, n - 1)
  }

  function MsbBits(v: nat, n: nat): (w: seq<bit>)
    ensures |w| == n
    decreases n
  {
    if n == 0 then [] else MsbBits(v / 2, n - 1) + [v % 2]
  }

  lemma {:induction false} LsbOfBits(v: nat, n: nat)
    requires v < Pow2(n)
    ensures Lsb(LsbBits(v, n)) == v
  {
    if n == 0 {
    } else {
      LsbOfBits(v / 2, n - 1);
      assert LsbBits(v, n)[1..] == LsbBits(v / 2, n - 1);
    }
  }

  lemma {:induction false} BitsOfLsb(w: seq<bit>)
    ensures LsbBits(Lsb(w), |w|) == w
  {
    if w == [] {
    } else {
      BitsOfLsb(w[1..]);
    }
  }

  lemma {:induction false} MsbOfBits(v: nat, n: nat)
    requires v < Pow2(n)
    ensures Msb(MsbBits(v, n)) == v
    decreases n
  {
    if n == 0 {
    } else {
      MsbOfBits(v / 2, n - 1);
      assert MsbBits(v, n)[..n - 1] == MsbBits(v / 2, n - 1);
    }
  }

  lemma {:induction false} BitsOfMsb(w: seq<bit>)
    ensures MsbBits(Msb(w), |w|) == w
  {
    if w == [] {
    } else {
      BitsOfMsb(w[..|w| - 1]);
    }
  }

  /** Appending more significant bits adds a multiple of a power of two. */
  lemma {:induction false} LsbAppend(a: seq<bit>, b: seq<bit>)
    ensures Lsb(a + b) == Lsb(a) + Pow2(|a|) * Lsb(b)
  {
    if a == [] {
      assert a + b == b;
    } else {
      LsbAppend(a[1..], b);
      assert (a + b)[1..] == a[1..] + b;
      MulAssoc(2, Pow2(|a| - 1), Lsb(b));
    }
  }

  /** Splitting a number at bit n is division and remainder by 2^n. */
  lemma LsbSplit(w: seq<bit>, n: nat)
    requires n <= |w|
    ensures Lsb(w) / Pow2(n) == Lsb(w[n..])
    ensures Lsb(w) % Pow2(n) == Lsb(w[..n])
  {
    assert w == w[..n] + w[n..];
    LsbAppend(w[..n], w[n..]);
    DivModUnique(Lsb(w), Pow2(n), Lsb(w[n..]), Lsb(w[..n]));
  }

  lemma DivModUnique(v: nat, d: nat, q: nat, r: nat)
    requires r < d
    requires v == d * q + r
    ensures v / d == q && v % d == r
  {
    var e := v / d - q;
    assert v % d - r == -(d * e) by {
      assert d * (v / d) == d * q + d * e;
    }
    MulSign(d, e);
  }

  lemma MulSign(d: int, e: int)
    requires d > 0
    ensures e >= 1 ==> d * e >= d
    ensures e <= -1 ==> d * e <= -d
    ensures e == 0 ==> d * e == 0
  {
  }

  /** The number that len bits at pos make, most significant bit first. */
  function Value(s: seq<bit>, pos: nat, len: nat): nat
    requires pos + len <= |s|
  {
    if len == 0 then 0 else 2 * Value(s, pos, len - 1) + s[pos + len - 1]
  }

  lemma {:induction false} ValueIsMsb(s: seq<bit>, pos: nat, len: nat)
    requires pos + len <= |s|
    ensures Value(s, pos, len) == Msb(s[pos..pos + len])
  {
    if len == 0 {
    } else {
      ValueIsMsb(s, pos, len - 1);
      assert s[pos..pos + len][..len - 1] == s[pos..pos + len - 1];
    }
  }

  /** Writing a number most significant bit first and reading it are inverse. */
  lemma ValueExact(s: seq<bit>, pos: nat, len: nat, v: nat)
    requires v < Pow2(len)
    ensures At(s, pos, MsbBits(v, len)) <==> pos + len <= |s| && Value(s, pos, len) == v
  {
    if pos + len <= |s| {
      ValueIsMsb(s, pos, len);
      MsbOfBits(v, len);
      BitsOfMsb(s[pos..pos + len]);
    }
  }

  /** Bit string w stands in s at position pos. */
  predicate At(s: seq<bit>, pos: nat, w: seq<bit>) {
    pos + |w| <= |s| && s[pos..pos + |w|] == w
  }

  lemma AtConcat(s: seq<bit>, pos: nat, a: seq<bit>, b: seq<bit>)
    ensures At(s, pos, a + b) <==> At(s, pos, a) && At(s, pos + |a|, b)
  {
    var n := pos + |a| + |b|;
    if n <= |s| {
      assert s[pos..n] == s[pos..pos + |a|] + s[pos + |a|..n];
      assert (a + b)[..|a|] == a && (a + b)[|a|..] == b;
      assert s[pos..n][..|a|] == s[pos..pos + |a|];
      assert s[pos..n][|a|..] == s[pos + |a|..n];
    }
  }

  /** A field of n bits read least significant bit first. */
  function Field(s: seq<bit>, pos: nat, n: nat): (v: nat)
    requires pos + n <= |s|
    ensures v < Pow2(n)
  {
    Lsb(s[pos..pos + n])
  }

  /** Writing a field and reading it back are inverse. */
  lemma FieldExact(s: seq<bit>, pos: nat, n: nat, v: nat)
    requires v < Pow2(n)
    ensures At(s, pos, LsbBits(v, n)) <==> pos + n <= |s| && Field(s, pos, n) == v
  {
    if pos + n <= |s| {
      LsbOfBits(v, n);
      BitsOfLsb(s[pos..pos + n]);
    }
  }

  /** A byte sequence as the bit sequence it packs. */
  function BitsOf(data: seq<byte>): (s: seq<bit>)
    ensures |s| == 8 * |data|
  {
    if data == [] then [] else LsbBits(data[0], 8) + BitsOf(data[1..])
  }

  lemma {:induction false} BitsOfByte(data: seq<byte>, k: nat)
    requires k < |data|
    ensures BitsOf(data)[8 * k..8 * k + 8] == LsbBits(data[k], 8)
    ensures Field(BitsOf(data), 8 * k, 8) == data[k]
  {
    hide LsbBits, Lsb, Pow2;
    ByteRoundTrip(data[k]);
    if k == 0 {
    } else {
      BitsOfByte(data[1..], k - 1);
      SliceAfter(LsbBits(data[0], 8), BitsOf(data[1..]), 8 * (k - 1), 8);
    }
  }

  lemma SliceAfter(a: seq<bit>, t: seq<bit>, i: nat, n: nat)
    requires i + n <= |t|
    ensures (a + t)[|a| + i..|a| + i + n] == t[i..i + n]
  {
  }

  lemma ByteRoundTrip(b: byte)
    ensures Lsb(LsbBits(b, 8)) == b
  {
    hide LsbBits, Lsb;
    Pow2Eight();
    LsbOfBits(b, 8);
  }

  lemma ByteAt(data: seq<byte>, k: nat)
    requires k < |data|
    ensures Field(BitsOf(data), 8 * k, 8) == data[k]
  {
    BitsOfByte(data, k);
  }

  lemma Pow2Eight()
    ensures Pow2(8) == 256
  {
    assert Pow2(4) == 16;
  }

  lemma {:induction false} BitsOfPrefix(data: seq<byte>, k: nat)
    requires k <= |data|
    ensures BitsOf(data[..k]) == BitsOf(data)[..8 * k]
  {
    if k == 0 {
    } else {
      BitsOfPrefix(data[1..], k - 1);
      assert data[..k][1..] == data[1..][..k - 1];
      assert BitsOf(data)[..8 * k] == LsbBits(data[0], 8) + BitsOf(data[1..])[..8 * (k - 1)];
    }
  }

  /** n whole bytes read from bit position pos on. */
  function Bytes(s: seq<bit>, pos: nat, n: nat): (r: seq<byte>)
    requires pos + 8 * n <= |s|
    ensures |r| == n
    decreases n
  {
    if n == 0 then []
    else
      Pow2Eight();
      [Field(s, pos, 8)] + Bytes(s, pos + 8, n - 1)
  }

  /** Reading n bytes and writing them back as bits are inverse. */
  lemma {:induction false} BytesExact(s: seq<bit>, pos: nat, data: seq<byte>)
    ensures At(s, pos, BitsOf(data)) <==>
            pos + 8 * |data| <= |s| && Bytes(s, pos, |data|) == data
    decreases data
  {
    if data == [] {
    } else {
      var h, t := data[0], data[1..];
      Pow2Eight();
      FieldExact(s, pos, 8, h);
      BytesExact(s, pos + 8, t);
      AtConcat(s, pos, LsbBits(h, 8), BitsOf(t));
      assert data == [h] + t;
    }
  }

  lemma BytesStep(s: seq<bit>, pos: nat, n: nat)
    requires n > 0 && pos + 8 * n <= |s|
    ensures Field(s, pos, 8) < 256
    ensures Bytes(s, pos, n) == [Field(s, pos, 8)] + Bytes(s, pos + 8, n - 1)
  {
    Pow2Eight();
  }

  lemma {:induction false} BytesOfInput(data: seq<byte>, k: nat, n: nat)
    requires k + n <= |data|
    ensures Bytes(BitsOf(data), 8 * k, n) == data[k..k + n]
    decreases n
  {
    if n == 0 {
    } else {
      var s := BitsOf(data);
      assert Field(s, 8 * k, 8) == data[k] by {
        BitsOfByte(data, k);
      }
      BytesOfInput(data, k + 1, n - 1);
      BytesStep(s, 8 * k, n);
    }
  }
}
