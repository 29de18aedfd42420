/**
  struct state of zip/puff.c and the functions that read from it: bits() and
  the two versions of decode(). A longjmp() out of them is an outcome.
 */
module BitReader {
  import opened Bits
  import opened Huffman
  import opened Inflate
  import opened Streams
  import opened Tables

  datatype Read = Ok(v: int) | LongJump

  /** v << n, v >> n and v & ((1 << n) - 1). Joining bits with | is addition
      here, because the shifted byte lies above the bits already there. */
  function ShiftLeft(v: nat, n: nat): nat {
    Pow2(n) * v
  }

  function ShiftRight(v: nat, n: nat): int {
    v / Pow2(n)
  }

  function LowBits(v: nat, n: nat): int {
    v % Pow2(n)
  }

  lemma LoadField(s: seq<bit>, pos: nat, e: nat, n: nat)
    requires pos <= e && e + n <= |s|
    ensures Lsb(s[pos..e + n]) == Lsb(s[pos..e]) + ShiftLeft(Field(s, e, n), e - pos)
  {
    hide Lsb, Pow2;
    assert s[pos..e + n] == s[pos..e] + s[e..e + n];
    LsbAppend(s[pos..e], s[e..e + n]);
  }

  /** Splitting the bits from pos to e after n of them. */
  lemma DropBits(s: seq<bit>, pos: nat, n: nat, e: nat)
    requires pos + n <= e <= |s|
    ensures ShiftRight(Lsb(s[pos..e]), n) == Lsb(s[pos + n..e])
    ensures LowBits(Lsb(s[pos..e]), n) == Field(s, pos, n)
  {
    hide Lsb, Pow2;
    LsbSplit(s[pos..e], n);
    assert s[pos..e][n..] == s[pos + n..e];
    assert s[pos..e][..n] == s[pos..pos + n];
  }

  lemma DropBit(s: seq<bit>, pos: nat, e: nat)
    requires pos < e <= |s|
    ensures Lsb(s[pos..e]) / 2 == Lsb(s[pos + 1..e])
    ensures Lsb(s[pos..e]) % 2 == s[pos]
  {
    hide Lsb;
    DropBits(s, pos, 1, e);
    assert Pow2(1) == 2 * Pow2(0) == 2;
    OneBitField(s, pos);
  }

  lemma OneBitField(s: seq<bit>, pos: nat)
    requires pos < |s|
    ensures Field(s, pos, 1) == s[pos]
  {
    assert s[pos..pos + 1] == [s[pos]];
    assert Lsb([s[pos]]) == s[pos];
  }

  class State {
    const input: seq<byte>
    const out: array?<byte>
    const outlen: nat

    /** Built with the readable decode(). */
    const slow: bool

    var outcnt: nat
    var incnt: nat
    var bitbuf: nat
    var bitcnt: nat

    /** The bytes produced so far, also when scanning. */
    ghost var emitted: seq<byte>

    constructor (out: array?<byte>, outlen: nat, input: seq<byte>, slow: bool)
      requires out != null ==> outlen <= out.Length
      ensures this.out == out && this.outlen == outlen && this.input == input
      ensures Buffered(0) && ValidOut() && emitted == []
    {
      this.out := out;
      this.outlen := outlen;
      this.outcnt := 0;
      this.input := input;
      this.slow := slow;
      this.incnt := 0;
      this.bitbuf := 0;
      this.bitcnt := 0;
      this.emitted := [];
    }

    ghost function Stream(): (s: seq<bit>)
      ensures |s| == 8 * |input|
    {
      BitsOf(input)
    }

    /** The stream is at bit position pos: the low bitcnt bits of bitbuf, then
        the bits of the bytes not yet read. */
    ghost predicate Buffered(pos: nat): (b: bool)
      reads this`incnt, this`bitbuf, this`bitcnt
      ensures b ==> pos <= |Stream()|
    {
      && incnt <= |input| && bitcnt < 8 && pos + bitcnt == 8 * incnt
      && bitbuf == Lsb(Stream()[pos..8 * incnt])
    }

    lemma BufferIs(pos: nat)
      ensures Buffered(pos) <==>
              && incnt <= |input| && bitcnt < 8 && pos + bitcnt == 8 * incnt
              && bitbuf == Lsb(Stream()[pos..8 * incnt])
    {
    }

    ghost predicate ValidOut()
      reads this`outcnt, this`emitted, out
    {
      && |emitted| == outcnt
      && (out != null ==> outcnt <= outlen <= out.Length && out[..outcnt] == emitted)
    }

    ghost function Space(): Cap {
      if out == null then Unbounded else Room(outlen)
    }

    /** bits(): the next need bits. */
    method Bits(need: nat, ghost pos: nat) returns (r: Read)
      requires Buffered(pos) && need <= 13
      modifies this`incnt, this`bitbuf, this`bitcnt
      ensures pos + need <= |Stream()| ==> r == Ok(Field(Stream(), pos, need)) && Buffered(pos + need)
      ensures pos + need > |Stream()| ==> r == LongJump && incnt == |input|
    {
      hide Lsb, BitsOf, Field, ShiftLeft, ShiftRight, LowBits, Pow2;
      var val := bitbuf;
      while bitcnt < need
        invariant incnt <= |input| && pos + bitcnt == 8 * incnt && bitcnt < need + 8
        invariant val == Lsb(Stream()[pos..8 * incnt])
      {
        if incnt == |input| {
          return LongJump;
        }
        ByteAt(input, incnt);
        LoadField(Stream(), pos, 8 * incnt, 8);
        val := val + ShiftLeft(input[incnt], bitcnt);
        incnt := incnt + 1;
        bitcnt := bitcnt + 8;
      }
      DropBits(Stream(), pos, need, 8 * incnt);
      bitbuf := ShiftRight(val, need);
      bitcnt := bitcnt - need;
      r := Ok(LowBits(val, need));
    }

    /** What decode() leaves: the state after a symbol, and after an invalid
        code or a lack of input how many bytes were read. */
    ghost predicate Decoded(w: SymbolRead, pos: nat, r: Read)
      reads this`incnt, this`bitbuf, this`bitcnt
    {
      match w
      case Symbol(y, p) => r == Ok(y) && Buffered(p)
      case NoCode => r == Ok(-10) && incnt == BytesUsed(pos + MAXBITS)
      case OutOfInput => r == LongJump && incnt == |input|
    }

    ghost function Next(h: Code, pos: nat): SymbolRead
      requires h.Valid() && Table(h.count[..], h.symbol[..])
      reads h.count, h.symbol
    {
      Walk(h.count[..], h.symbol[..], Stream(), pos, 1, 0, 0)
    }

    /** decode(), the SLOW version. */
    method DecodeSlow(h: Code, ghost pos: nat) returns (r: Read)
      requires Buffered(pos) && h.Valid() && Table(h.count[..], h.symbol[..])
      modifies this`incnt, this`bitbuf, this`bitcnt
      ensures Decoded(Next(h, pos), pos, r)
    {
      hide Lsb, BitsOf, Field, SumBelow, BytesUsed, Walk, Table;
      ghost var count, symbol, s, w := h.count[..], h.symbol[..], Stream(), Next(h, pos);
      var code, first, index := 0, 0, 0;
      WalkBase(count);
      for len := 1 to MAXBITS + 1
        invariant Buffered(pos + len - 1) && first <= code
        invariant index == SumBelow(count, len)
        invariant w == Walk(count, symbol, s, pos + len - 1, len, code, first)
      {
        WalkCases(count, symbol, s, pos + len - 1, len, code, first);
        var b := Bits(1, pos + len - 1);
        if b.LongJump? {
          return LongJump;
        }
        OneBitField(s, pos + len - 1);
        code := code + b.v;
        var n := h.count[len];
        if code - n < first {
          return Ok(h.symbol[index + (code - first)]);
        }
        index := index + n;
        first := 2 * (first + n);
        code := 2 * code;
      }
      WalkEnd(count, symbol, s, pos + MAXBITS, code, first);
      AllBitsRead(pos + MAXBITS, incnt, bitcnt);
      r := Ok(-10);
    }

    /** decode(), the version that is built by default: it takes bits from a
        local copy of the buffer and stores the buffer only after a symbol. */
    method Decode(h: Code, ghost pos: nat) returns (r: Read)
      requires Buffered(pos) && h.Valid() && Table(h.count[..], h.symbol[..])
      modifies this`incnt, this`bitbuf, this`bitcnt
      ensures Decoded(Next(h, pos), pos, r)
    {
      hide Lsb, BitsOf, BytesUsed, Walk, Table, Scanning, Field, LsbBits, Pow2, Buffered;
      BufferIs(pos);
      ghost var count, symbol, s, w := h.count[..], h.symbol[..], Stream(), Next(h, pos);
      var buf: nat, left: nat := bitbuf, bitcnt;
      ghost var base := incnt;
      var code, first, index, len := 0, 0, 0, 1;
      ScanStart(count, symbol, s, w, pos, buf, 8 * incnt);
      while true
        invariant 1 <= len <= MAXBITS && incnt <= |input|
        invariant bitcnt == old(bitcnt) && base <= incnt
        invariant 0 <= 8 * incnt - (pos + len - 1) <= 8
        invariant left == Min(8 * incnt - (pos + len - 1), MAXBITS + 1 - len)
        invariant Scanning(count, symbol, s, w, pos, len, code, first, index, buf, 8 * incnt)
        decreases |input| - incnt
      {
        while left > 0
          modifies this`bitbuf, this`bitcnt
          invariant 1 <= len <= MAXBITS + 1 && bitcnt == old(bitcnt)
          invariant 0 <= 8 * incnt - (pos + len - 1) <= 8
          invariant left == 0 ==> 8 * incnt - (pos + len - 1) < 8
          invariant left == Min(8 * incnt - (pos + len - 1), MAXBITS + 1 - len)
          invariant Scanning(count, symbol, s, w, pos, len, code, first, index, buf, 8 * incnt)
        {
          left := left - 1;
          ScanBit(count, symbol, s, w, pos, len, code, first, index, buf, 8 * incnt);
          code := code + buf % 2;
          buf := buf / 2;
          var n := h.count[len];
          if code - n < first {
            bitbuf := buf;
            BitsLeft(pos, len, base, incnt, bitcnt);
            bitcnt := (bitcnt - len) % 8;
            BufferIs(pos + len);
            return Ok(h.symbol[index + (code - first)]);
          }
          index := index + n;
          first := 2 * (first + n);
          code := 2 * code;
          len := len + 1;
        }
        left := MAXBITS + 1 - len;
        if left == 0 {
          break;
        }
        if incnt == |input| {
          ScanShort(count, symbol, s, w, pos, len, code, first, index, buf);
          return LongJump;
        }
        ByteAt(input, incnt);
        ScanByte(count, symbol, s, w, pos, len, code, first, index, buf, 8 * incnt, input[incnt]);
        buf := input[incnt];
        incnt := incnt + 1;
        if left > 8 {
          left := 8;
        }
      }
      ScanEnd(count, symbol, s, w, pos, code, first, index, buf, 8 * incnt);
      AllBitsRead(pos + MAXBITS, incnt, 8 * incnt - (pos + MAXBITS));
      r := Ok(-10);
    }
  }

  /** Where the fast decode() is: len - 1 bits past pos, with the bits up to e
      in buf, and the outcome w still ahead. */
  ghost predicate Scanning(count: seq<int>, symbol: seq<nat>, s: seq<bit>, w: SymbolRead, pos: nat,
                           len: nat, code: int, first: int, index: int, buf: nat, e: nat) {
    && Table(count, symbol) && 1 <= len <= MAXBITS + 1 && first <= code
    && pos + len - 1 <= e <= |s|
    && index == SumBelow(count, len)
    && buf == Lsb(s[pos + len - 1..e])
    && w == Walk(count, symbol, s, pos + len - 1, len, code, first)
  }

  lemma ScanStart(count: seq<int>, symbol: seq<nat>, s: seq<bit>, w: SymbolRead, pos: nat, buf: nat, e: nat)
    requires Table(count, symbol) && pos <= e <= |s|
    requires w == Walk(count, symbol, s, pos, 1, 0, 0) && buf == Lsb(s[pos..e])
    ensures Scanning(count, symbol, s, w, pos, 1, 0, 0, 0, buf, e)
  {
    hide Walk, Lsb;
  }

  lemma ScanBit(count: seq<int>, symbol: seq<nat>, s: seq<bit>, w: SymbolRead, pos: nat,
                len: nat, code: int, first: int, index: int, buf: nat, e: nat)
    requires Scanning(count, symbol, s, w, pos, len, code, first, index, buf, e)
    requires len <= MAXBITS && pos + len - 1 < e
    ensures var c := code + buf % 2;
            && |count| == MAXBITS + 1
            && if c - count[len] < first then
                 && 0 <= index + (c - first) < |symbol|
                 && w == Symbol(symbol[index + (c - first)], pos + len)
                 && e <= |s| && buf / 2 == Lsb(s[pos + len..e])
               else
                 Scanning(count, symbol, s, w, pos, len + 1, 2 * c, 2 * (first + count[len]), index + count[len],
                          buf / 2, e)
  {
    hide Walk, Lsb, Table, SumBelow;
    WalkCases(count, symbol, s, pos + len - 1, len, code, first);
    DropBit(s, pos + len - 1, e);
  }

  lemma ScanShort(count: seq<int>, symbol: seq<nat>, s: seq<bit>, w: SymbolRead, pos: nat,
                  len: nat, code: int, first: int, index: int, buf: nat)
    requires Scanning(count, symbol, s, w, pos, len, code, first, index, buf, |s|)
    requires len <= MAXBITS && pos + len - 1 == |s|
    ensures w == OutOfInput
  {
    hide Walk, Lsb, Table, SumBelow;
    WalkCases(count, symbol, s, pos + len - 1, len, code, first);
  }

  lemma ScanByte(count: seq<int>, symbol: seq<nat>, s: seq<bit>, w: SymbolRead, pos: nat,
                 len: nat, code: int, first: int, index: int, buf: nat, e: nat, b: nat)
    requires Scanning(count, symbol, s, w, pos, len, code, first, index, buf, e)
    requires pos + len - 1 == e && e + 8 <= |s| && b == Field(s, e, 8)
    ensures Scanning(count, symbol, s, w, pos, len, code, first, index, b, e + 8)
  {
    hide Walk, Lsb, Table, SumBelow;
  }

  lemma ScanEnd(count: seq<int>, symbol: seq<nat>, s: seq<bit>, w: SymbolRead, pos: nat,
                code: int, first: int, index: int, buf: nat, e: nat)
    requires Scanning(count, symbol, s, w, pos, MAXBITS + 1, code, first, index, buf, e)
    ensures w == NoCode
  {
    hide Lsb, SumBelow;
  }

  /** From equal states the two versions of decode() report the same and read
      the same bytes; after a symbol the whole bit buffer is the same too. */
  method FastRefinesSlow(a: State, b: State, h: Code, ghost pos: nat) returns (fast: Read, slow: Read)
    requires a != b && a.input == b.input && a.Buffered(pos) && b.Buffered(pos)
    requires h.Valid() && Table(h.count[..], h.symbol[..])
    modifies a, b
    ensures fast == slow && a.incnt == b.incnt
    ensures fast.Ok? && fast.v >= 0 ==> a.bitbuf == b.bitbuf && a.bitcnt == b.bitcnt
  {
    hide Walk, Table, Lsb, BitsOf;
    fast := a.Decode(h, pos);
    slow := b.DecodeSlow(h, pos);
  }

  function Min(a: int, b: int): int {
    if a <= b then a else b
  }

  lemma BitsLeft(pos: nat, len: nat, base: nat, incnt: nat, bitcnt: nat)
    requires pos + bitcnt == 8 * base && 0 <= 8 * incnt - (pos + len) < 8
    ensures (bitcnt - len) % 8 == 8 * incnt - (pos + len)
  {
    assert bitcnt - len == 8 * incnt - (pos + len) + 8 * (base - incnt);
  }

  lemma AllBitsRead(pos: nat, incnt: nat, bitcnt: nat)
    requires bitcnt < 8 && pos + bitcnt == 8 * incnt
    ensures incnt == BytesUsed(pos)
  {
  }

  lemma WalkBase(count: seq<int>)
    requires |count| >= 1
    ensures SumBelow(count, 1) == 0
  {
  }

  lemma WalkEnd(count: seq<int>, symbol: seq<nat>, s: seq<bit>, pos: nat, code: int, first: int)
    requires Table(count, symbol) && first <= code
    ensures Walk(count, symbol, s, pos, MAXBITS + 1, code, first) == NoCode
  {
  }

  /** One step of decode(). The index it looks up is below the number of used
      symbols. */
  lemma WalkCases(count: seq<int>, symbol: seq<nat>, s: seq<bit>, pos: nat, len: nat, code: int, first: int)
    requires Table(count, symbol) && 1 <= len <= MAXBITS && first <= code
    ensures |count| == MAXBITS + 1 && SumBelow(count, len + 1) == SumBelow(count, len) + count[len]
    ensures var w := Walk(count, symbol, s, pos, len, code, first);
            if pos >= |s| then w == OutOfInput
            else
              var c := code + s[pos];
              if c - count[len] < first then
                var i := SumBelow(count, len) + (c - first);
                0 <= i < SumBelow(count, MAXBITS + 1) <= |symbol| && w == Symbol(symbol[i], pos + 1)
              else
                w == Walk(count, symbol, s, pos + 1, len + 1, 2 * c, 2 * (first + count[len]))
  {
    SumBelowMono(count, len, len);
    SumBelowMono(count, len + 1, MAXBITS + 1);
  }
}
