/**
  The rest of zip/puff.c: stored, fixed and dynamic blocks, and puff() itself,
  each proved to do what the decoder of module Inflate says.
 */
module Puff {
  import opened Bits
  import opened Huffman
  import opened Deflate
  import opened Inflate
  import opened Exactness
  import opened Streams
  import opened Tables
  import opened BitReader

  /** The input and output fields are where outcome o says they are: everything
      after success, the byte count after an error in the data. */
  ghost predicate Reached(s: State, o: Outcome, err: int)
    reads s
  {
    && err == o.err && s.emitted == o.out
    && (err == 0 ==> s.Buffered(o.pos))
    && (err < 0 ==> s.incnt == BytesUsed(o.pos))
  }

  // ----- output --------------------------------------------------------------

  lemma ModStep(k: nat, d: nat)
    requires d >= 1
    ensures k < d ==> k % d == k
    ensures k >= d ==> k % d == (k - d) % d
  {
    if k < d {
      DivModUnique(k, d, 0, k);
    } else {
      var j := k - d;
      assert j == d * (j / d) + j % d;
      assert d * (j / d + 1) == d * (j / d) + d;
      DivModUnique(k, d, j / d + 1, j % d);
    }
  }

  /** The byte the forward copy takes next, perhaps one it wrote itself, is the
      one that the closed form names. */
  lemma CopyGrows(out: seq<byte>, dist: nat, k: nat)
    requires 1 <= dist <= |out|
    ensures var now := out + CopyBytes(out, dist, k);
            CopyBytes(out, dist, k + 1) == CopyBytes(out, dist, k) + [now[|now| - dist]]
  {
    ModStep(k, dist);
  }

  /** One byte out, or one more counted. */
  method PutLiteral(s: State, b: byte)
    requires s.ValidOut() && s.Space().Fits(s.outcnt + 1)
    modifies s`outcnt, s`emitted, s.out
    ensures s.ValidOut() && s.emitted == old(s.emitted) + [b]
    ensures s.out != null ==> forall i :: s.outcnt <= i < s.out.Length ==> s.out[i] == old(s.out[i])
  {
    if s.out != null {
      s.out[s.outcnt] := b;
    }
    s.outcnt := s.outcnt + 1;
    s.emitted := s.emitted + [b];
  }

  /** The copy loop of codes(). */
  method CopyBack(s: State, dist: nat, len: nat)
    requires s.ValidOut() && 1 <= dist <= s.outcnt && s.Space().Fits(s.outcnt + len)
    modifies s`outcnt, s`emitted, s.out
    ensures s.ValidOut() && s.emitted == old(s.emitted) + CopyBytes(old(s.emitted), dist, len)
    ensures s.out != null ==> forall i :: s.outcnt <= i < s.out.Length ==> s.out[i] == old(s.out[i])
  {
    hide CopyBytes;
    ghost var out := s.emitted;
    if s.out != null {
      CopyNothing(out, dist);
      for k := 0 to len
        invariant s.ValidOut() && s.emitted == out + CopyBytes(out, dist, k)
        invariant forall i :: s.outcnt <= i < s.out.Length ==> s.out[i] == old(s.out[i])
      {
        CopyNext(out, dist, k, s.emitted);
        var b := s.out[s.outcnt - dist];
        assert b == s.emitted[|s.emitted| - dist];
        PutLiteral(s, b);
      }
    } else {
      s.outcnt := s.outcnt + len;
      s.emitted := out + CopyBytes(out, dist, len);
    }
  }

  lemma CopyNext(out: seq<byte>, dist: nat, k: nat, now: seq<byte>)
    requires 1 <= dist <= |out| && now == out + CopyBytes(out, dist, k)
    ensures dist <= |now| && now + [now[|now| - dist]] == out + CopyBytes(out, dist, k + 1)
  {
    hide CopyBytes;
    CopyGrows(out, dist, k);
  }

  lemma CopyNothing(out: seq<byte>, dist: nat)
    requires 1 <= dist <= |out|
    ensures CopyBytes(out, dist, 0) == []
  {
  }

  // ----- compressed data -----------------------------------------------------

  /** decode(), either version, with the tables of a code reads that code. */
  method NextSymbol(s: State, h: Code, ghost ls: seq<nat>, ghost pos: nat) returns (r: Read)
    requires s.Buffered(pos) && h.For(ls) && Decodable(ls)
    modifies s`incnt, s`bitbuf, s`bitcnt
    ensures s.Decoded(ReadSymbol(ls, s.Stream(), pos), pos, r)
  {
    hide Walk, ReadSymbol, Represents, Decodable, Table, Lsb, BitsOf;
    WalkReadsSymbol(ls, h.count[..], h.symbol[..], s.Stream(), pos);
    if s.slow {
      r := s.DecodeSlow(h, pos);
    } else {
      r := s.Decode(h, pos);
    }
  }

  /** What codes() has read when it acts on it. */
  datatype Event = Byte(b: byte) | Back(len: nat, dist: nat) | Stop | Bad(err: int)

  ghost predicate Heard(s: State, step: Step, ev: Event)
    requires step.Emit? ==> step.t.Known()
    reads s
  {
    match step
    case Fail(e, p) => ev == Bad(e) && (e < 0 ==> s.incnt == BytesUsed(p))
    case EndOfBlock(p) => ev == Stop && s.Buffered(p)
    case Emit(t, p) =>
      && s.Buffered(p)
      && (t.Literal? ==> ev == Byte(t.b))
      && (t.Copy? ==> ev == Back(t.Length(), t.Distance()))
  }

  lemma BufferedBytes(s: State, pos: nat)
    requires s.Buffered(pos)
    ensures s.incnt == BytesUsed(pos)
  {
    hide Lsb, BitsOf;
  }

  /** The extra bits of a length and the distance that follows it. */
  method LengthDistance(s: State, lsym: nat, distcode: Code, ghost dl: seq<nat>, ghost pos: nat) returns (ev: Event)
    requires s.Buffered(pos) && lsym < 29 && distcode.For(dl) && Decodable(dl) && |dl| <= MAXDCODES
    modifies s`incnt, s`bitbuf, s`bitcnt
    ensures Heard(s, ReadCopy(dl, s.Stream(), lsym, pos, s.outcnt), ev)
  {
    hide ReadSymbol, Represents, Decodable, Lsb, BitsOf, Field, BytesUsed,
      LengthBase, LengthExtra, DistanceBase, DistanceExtra, State.Buffered;
    var e := s.Bits(LengthExtra(lsym), pos);
    if e.LongJump? {
      return Bad(2);
    }
    var len := LengthBase(lsym) + e.v;
    ghost var p := pos + LengthExtra(lsym);
    ghost var w := ReadSymbol(dl, s.Stream(), p);
    var symbol := NextSymbol(s, distcode, dl, p);
    if symbol.LongJump? {
      return Bad(2);
    }
    if symbol.v < 0 {
      return Bad(symbol.v);
    }
    e := s.Bits(DistanceExtra(symbol.v), w.pos);
    if e.LongJump? {
      return Bad(2);
    }
    var dist := DistanceBase(symbol.v) + e.v;
    if dist > s.outcnt {
      BufferedBytes(s, w.pos + DistanceExtra(symbol.v));
      return Bad(-11);
    }
    ev := Back(len, dist);
  }

  /** One round of the loop of codes() up to the point where it writes. */
  method NextEvent(s: State, lencode: Code, distcode: Code, ghost ll: seq<nat>, ghost dl: seq<nat>, ghost pos: nat)
    returns (ev: Event)
    requires s.Buffered(pos) && Inflate.Codes(ll, dl) && lencode.For(ll) && distcode.For(dl)
    modifies s`incnt, s`bitbuf, s`bitcnt
    ensures |dl| <= MAXDCODES && Heard(s, ReadToken(ll, dl, s.Stream(), pos, s.outcnt), ev)
  {
    hide ReadSymbol, ReadCopy, Represents, Decodable, Lsb, BitsOf, BytesUsed,
      LengthBase, LengthExtra, DistanceBase, DistanceExtra, State.Buffered;
    ghost var w := ReadSymbol(ll, s.Stream(), pos);
    var symbol := NextSymbol(s, lencode, ll, pos);
    if symbol.LongJump? {
      return Bad(2);
    }
    if symbol.v < 0 {
      return Bad(symbol.v);
    }
    if symbol.v < 256 {
      return Byte(symbol.v);
    }
    if symbol.v == 256 {
      return Stop;
    }
    if symbol.v - 257 >= 29 {
      BufferedBytes(s, w.pos);
      return Bad(-10);
    }
    ev := LengthDistance(s, symbol.v - 257, distcode, dl, w.pos);
  }

  /** codes(): literals and copies until the end of block. */
  method Codes(s: State, lencode: Code, distcode: Code, ghost ll: seq<nat>, ghost dl: seq<nat>, ghost start: nat)
    returns (err: int)
    requires s.Buffered(start) && s.ValidOut() && Inflate.Codes(ll, dl)
    requires lencode.For(ll) && distcode.For(dl) && lencode.Apart(s.out) && distcode.Apart(s.out)
    modifies s`outcnt, s`incnt, s`bitbuf, s`bitcnt, s`emitted, s.out
    ensures s.ValidOut()
    ensures |dl| <= MAXDCODES && start <= |s.Stream()|
    ensures Reached(s, InflateCodes(ll, dl, s.Stream(), start, old(s.emitted), s.Space()), err)
    ensures s.out != null ==> forall i :: s.outcnt <= i < s.out.Length ==> s.out[i] == old(s.out[i])
  {
    hide ReadToken, Inflate.Codes, Represents, Lsb, BitsOf, BytesUsed, CopyBytes,
      LengthBase, LengthExtra, DistanceBase, DistanceExtra, State.Buffered;
    assert |dl| <= MAXDCODES by {
      CodesSize(ll, dl);
    }
    ghost var stream, cap, pos := s.Stream(), s.Space(), start;
    ghost var o := InflateCodes(ll, dl, stream, start, s.emitted, cap);
    while true
      invariant s.Buffered(pos) && s.ValidOut()
      invariant o == InflateCodes(ll, dl, stream, pos, s.emitted, cap)
      invariant lencode.For(ll) && distcode.For(dl)
      invariant s.out != null ==> forall i :: s.outcnt <= i < s.out.Length ==> s.out[i] == old(s.out[i])
      decreases |stream| - pos
    {
      ghost var step := ReadToken(ll, dl, stream, pos, |s.emitted|);
      var ev := NextEvent(s, lencode, distcode, ll, dl, pos);
      match ev {
        case Bad(e) =>
          return e;
        case Stop =>
          return 0;
        case Byte(b) =>
          if s.out != null && s.outcnt == s.outlen {
            return 1;
          }
          PutLiteral(s, b);
        case Back(len, dist) =>
          if s.out != null && s.outcnt + len > s.outlen {
            return 1;
          }
          CopyBack(s, dist, len);
      }
      pos := step.pos;
    }
  }

  // ----- stored blocks -------------------------------------------------------

  lemma AtBoundary(pos: nat, incnt: nat, bitcnt: nat)
    requires bitcnt < 8 && pos + bitcnt == 8 * incnt
    ensures pos + ToBoundary(pos) == 8 * incnt
  {
  }

  /** Two bytes, low one first. */
  function Word(input: seq<byte>, k: nat): (w: nat)
    requires k + 2 <= |input|
    ensures w < 65536
  {
    (input[k] as int) + 256 * (input[k + 1] as int)
  }

  /** The first four bytes of a stored block, as fields of the stream. */
  lemma StoredFields(input: seq<byte>, k: nat)
    requires k + 4 <= |input|
    ensures var s := BitsOf(input);
            && Field(s, 8 * k, 16) == Word(input, k)
            && Field(s, 8 * k + 16, 8) == input[k + 2] && Field(s, 8 * k + 24, 8) == input[k + 3]
  {
    hide BitsOf, Field;
    Halves(BitsOf(input), 8 * k);
    ByteAt(input, k);
    ByteAt(input, k + 1);
    ByteAt(input, k + 2);
    ByteAt(input, k + 3);
  }

  /** The copy loop of stored(). */
  method CopyIn(s: State, len: nat)
    requires s.ValidOut() && s.incnt + len <= |s.input| && s.Space().Fits(s.outcnt + len)
    modifies s`outcnt, s`incnt, s`emitted, s.out
    ensures s.ValidOut() && s.incnt == old(s.incnt) + len
    ensures s.emitted == old(s.emitted) + s.input[old(s.incnt)..old(s.incnt) + len]
    ensures s.out != null ==> forall i :: s.outcnt <= i < s.out.Length ==> s.out[i] == old(s.out[i])
  {
    ghost var out, k0 := s.emitted, s.incnt;
    if s.out != null {
      var k := 0;
      while k < len
        invariant 0 <= k <= len && s.outcnt == |out| + k && s.incnt == k0 + k
        invariant s.out[..s.outcnt] == out + s.input[k0..k0 + k]
        invariant forall i :: s.outcnt <= i < s.out.Length ==> s.out[i] == old(s.out[i])
      {
        s.out[s.outcnt] := s.input[s.incnt];
        s.outcnt := s.outcnt + 1;
        s.incnt := s.incnt + 1;
        k := k + 1;
        assert s.out[..s.outcnt] == s.out[..s.outcnt - 1] + [s.input[s.incnt - 1]];
      }
    } else {
      s.outcnt := s.outcnt + len;
      s.incnt := s.incnt + len;
    }
    s.emitted := out + s.input[k0..k0 + len];
  }

  /** A stored block whose bytes begin at input[k]. */
  ghost function StoredBytes(input: seq<byte>, k: nat, out: seq<byte>, cap: Cap): Outcome {
    if k + 4 > |input| then Outcome(2, out, 8 * k)
    else
      var len := Word(input, k);
      if input[k + 2] != 255 - len % 256 then Outcome(-2, out, 8 * k + 24)
      else if input[k + 3] != 255 - len / 256 then Outcome(-2, out, 8 * k + 32)
      else if k + 4 + len > |input| then Outcome(2, out, 8 * k)
      else if !cap.Fits(|out| + len) then Outcome(1, out, 8 * k)
      else Outcome(0, out + input[k + 4..k + 4 + len], 8 * k + 32 + 8 * len)
  }

  lemma StoredIsBytes(input: seq<byte>, k: nat, out: seq<byte>, cap: Cap)
    ensures InflateAligned(BitsOf(input), 8 * k, out, cap) == StoredBytes(input, k, out, cap)
  {
    hide BitsOf, Field, Bytes, Word;
    if k + 4 <= |input| {
      StoredFields(input, k);
      if k + 4 + Word(input, k) <= |input| {
        BytesOfInput(input, k + 4, Word(input, k));
        assert 8 * (k + 4) == 8 * k + 32;
      }
    }
  }

  /** stored(). */
  method Stored(s: State, ghost pos: nat) returns (err: int)
    requires s.Buffered(pos) && s.ValidOut()
    modifies s`outcnt, s`incnt, s`bitbuf, s`bitcnt, s`emitted, s.out
    ensures s.ValidOut()
    ensures Reached(s, InflateStored(s.Stream(), pos, old(s.emitted), s.Space()), err)
    ensures s.out != null ==> forall i :: s.outcnt <= i < s.out.Length ==> s.out[i] == old(s.out[i])
  {
    hide Lsb, BitsOf, InflateAligned, ToBoundary, BytesUsed, Word, State.Buffered;
    ghost var k := s.incnt;
    s.BufferIs(pos);
    AtBoundary(pos, k, s.bitcnt);
    StoredIsBytes(s.input, k, s.emitted, s.Space());
    s.bitbuf := 0;
    s.bitcnt := 0;
    if s.incnt + 4 > |s.input| {
      return 2;
    }
    var len := Word(s.input, s.incnt);
    s.incnt := s.incnt + 3;
    if s.input[s.incnt - 1] != 255 - len % 256 {
      WholeBytes(k + 3);
      return -2;
    }
    s.incnt := s.incnt + 1;
    if s.input[s.incnt - 1] != 255 - len / 256 {
      WholeBytes(k + 4);
      return -2;
    }
    if s.incnt + len > |s.input| {
      return 2;
    }
    if s.out != null && s.outcnt + len > s.outlen {
      return 1;
    }
    CopyIn(s, len);
    NothingBuffered(s, 8 * k + 32 + 8 * len);
    err := 0;
  }

  lemma WholeBytes(k: nat)
    ensures BytesUsed(8 * k) == k
  {
  }

  lemma NothingBuffered(s: State, pos: nat)
    requires s.bitbuf == 0 && s.bitcnt == 0 && pos == 8 * s.incnt && s.incnt <= |s.input|
    ensures s.Buffered(pos)
  {
    hide BitsOf;
    assert s.Stream()[pos..pos] == [];
  }

  // ----- fixed blocks --------------------------------------------------------

  /** The static variables of fixed(). */
  class FixedTables {
    var virgin: bool
    const lencode: Code
    const distcode: Code

    constructor ()
      ensures Valid() && fresh(lencode.count) && fresh(lencode.symbol)
      ensures fresh(distcode.count) && fresh(distcode.symbol)
    {
      virgin := true;
      lencode := new Code(FIXLCODES);
      distcode := new Code(MAXDCODES);
    }

    ghost predicate Valid()
      reads this, lencode.count, lencode.symbol, distcode.count, distcode.symbol
    {
      && lencode.Valid() && lencode.symbol.Length == FIXLCODES
      && distcode.Valid() && distcode.symbol.Length == MAXDCODES
      && lencode.Apart(distcode.count) && lencode.Apart(distcode.symbol)
      && (!virgin ==> lencode.For(FixedLiteral()) && distcode.For(FixedDistance()))
    }

    ghost predicate Apart(a: object?) {
      lencode.Apart(a) && distcode.Apart(a)
    }
  }

  method FixedLengths() returns (lengths: array<nat>)
    ensures fresh(lengths) && lengths[..] == FixedLiteral()
  {
    lengths := new nat[FIXLCODES];
    var symbol := 0;
    while symbol < 144
      invariant 0 <= symbol <= 144
      invariant forall y :: 0 <= y < symbol ==> lengths[y] == 8
    {
      lengths[symbol] := 8;
      symbol := symbol + 1;
    }
    while symbol < 256
      invariant 144 <= symbol <= 256
      invariant forall y :: 0 <= y < symbol ==> lengths[y] == if y < 144 then 8 else 9
    {
      lengths[symbol] := 9;
      symbol := symbol + 1;
    }
    while symbol < 280
      invariant 256 <= symbol <= 280
      invariant forall y :: 0 <= y < symbol ==> lengths[y] == if y < 144 then 8 else if y < 256 then 9 else 7
    {
      lengths[symbol] := 7;
      symbol := symbol + 1;
    }
    while symbol < FIXLCODES
      invariant 280 <= symbol <= FIXLCODES
      invariant forall y :: 0 <= y < symbol ==>
        lengths[y] == if y < 144 then 8 else if y < 256 then 9 else if y < 280 then 7 else 8
    {
      lengths[symbol] := 8;
      symbol := symbol + 1;
    }
  }

  /** The tables fixed() builds on its first call. */
  method BuildFixed(fx: FixedTables)
    requires fx.Valid()
    modifies fx`virgin, fx.lencode.count, fx.lencode.symbol, fx.distcode.count, fx.distcode.symbol
    ensures fx.Valid() && !fx.virgin
  {
    hide FixedLiteral, FixedDistance, Represents, Left, Count;
    FixedLengthsUsable();
    var lengths := FixedLengths();
    var left := Construct(fx.lencode, lengths[..]);
    for symbol := 0 to MAXDCODES
      modifies lengths
      invariant forall y :: 0 <= y < symbol ==> lengths[y] == 5
    {
      lengths[symbol] := 5;
    }
    FixedDistanceIs(lengths[..MAXDCODES]);
    var left' := Construct(fx.distcode, lengths[..MAXDCODES]);
    fx.virgin := false;
  }

  lemma FixedDistanceIs(ls: seq<nat>)
    requires |ls| == MAXDCODES && forall y :: 0 <= y < MAXDCODES ==> ls[y] == 5
    ensures ls == FixedDistance()
  {
  }

  lemma FixedLengthsUsable()
    ensures Lengths(FixedLiteral()) && Lengths(FixedDistance())
    ensures forall left :: Left(FixedLiteral(), left) ==> left >= 0
    ensures forall left :: Left(FixedDistance(), left) ==> left >= 0
  {
    FixedCodes();
  }

  /** fixed(), whether its tables are fresh or left by an earlier call. */
  method Fixed(s: State, fx: FixedTables, ghost pos: nat) returns (err: int)
    requires s.Buffered(pos) && s.ValidOut() && fx.Valid() && fx.Apart(s.out)
    modifies s`outcnt, s`incnt, s`bitbuf, s`bitcnt, s`emitted, s.out
    modifies fx`virgin, fx.lencode.count, fx.lencode.symbol, fx.distcode.count, fx.distcode.symbol
    ensures s.ValidOut() && fx.Valid()
    ensures Reached(s, InflateCodes(FixedLiteral(), FixedDistance(), s.Stream(), pos, old(s.emitted), s.Space()), err)
    ensures s.out != null ==> forall i :: s.outcnt <= i < s.out.Length ==> s.out[i] == old(s.out[i])
  {
    hide FixedLiteral, FixedDistance, Represents, InflateCodes, Inflate.Codes, Lsb, BitsOf, State.Buffered;
    if fx.virgin {
      BuildFixed(fx);
    }
    FixedCodes();
    err := Codes(s, fx.lencode, fx.distcode, FixedLiteral(), FixedDistance(), pos);
  }

  // ----- dynamic blocks ------------------------------------------------------

  lemma {:induction false} RawAt(s: seq<bit>, pos: nat, n: nat, i: nat)
    requires pos + 3 * n <= |s| && i < n
    ensures ReadRaw(s, pos, n)[i] == Field(s, pos + 3 * i, 3)
    decreases n
  {
    hide Field;
    if i == 0 {
    } else {
      RawAt(s, pos + 3, n - 1, i - 1);
    }
  }

  /** Lengths stored at the places ORDER names are the scattered lengths. */
  lemma ScatteredAt(raw: seq<nat>, ls: seq<nat>)
    requires |ls| == 19
    requires forall i :: 0 <= i < 19 ==> ORDER[i] < 19 && ls[ORDER[i]] == if i < |raw| then raw[i] else 0
    ensures ls == Scatter(raw)
  {
    OrderIsPermutation();
    forall y | 0 <= y < 19
      ensures ls[y] == Scatter(raw)[y]
    {
      assert ORDER[PLACE[y]] == y;
    }
  }

  function Order(i: nat): (y: nat)
    requires i < 19
    ensures y < 19
  {
    ORDER[i]
  }

  lemma OrderInjective(i: nat, j: nat)
    requires i < 19 && j < 19 && Order(i) == Order(j)
    ensures i == j
  {
    OrderIsPermutation();
  }

  /** The code length code lengths, missing ones zero. */
  method CodeLengthLengths(s: State, lengths: array<nat>, ncode: nat, ghost pos: nat) returns (ok: bool)
    requires s.Buffered(pos) && 4 <= ncode <= 19 && lengths.Length >= 19
    modifies s`incnt, s`bitbuf, s`bitcnt, lengths
    ensures ok <==> pos + 3 * ncode <= |s.Stream()|
    ensures ok ==> s.Buffered(pos + 3 * ncode) && lengths[..19] == Scatter(ReadRaw(s.Stream(), pos, ncode))
  {
    hide Lsb, BitsOf, Field, Order, ReadRaw, Scatter;
    var index := 0;
    while index < ncode
      invariant index <= ncode && s.Buffered(pos + 3 * index)
      invariant forall i :: 0 <= i < index ==> lengths[Order(i)] == Field(s.Stream(), pos + 3 * i, 3)
    {
      var b := s.Bits(3, pos + 3 * index);
      if b.LongJump? {
        return false;
      }
      forall i | 0 <= i < index
        ensures Order(i) != Order(index)
      {
        if Order(i) == Order(index) {
          OrderInjective(i, index);
        }
      }
      lengths[Order(index)] := b.v;
      index := index + 1;
    }
    while index < 19
      modifies lengths
      invariant ncode <= index <= 19
      invariant forall i :: 0 <= i < index ==>
        lengths[Order(i)] == if i < ncode then Field(s.Stream(), pos + 3 * i, 3) else 0
    {
      forall i | 0 <= i < index
        ensures Order(i) != Order(index)
      {
        if Order(i) == Order(index) {
          OrderInjective(i, index);
        }
      }
      lengths[Order(index)] := 0;
      index := index + 1;
    }
    RawScattered(s.Stream(), pos, ncode, lengths[..19]);
    ok := true;
  }

  lemma RawScattered(s: seq<bit>, pos: nat, ncode: nat, ls: seq<nat>)
    requires ncode <= 19 && pos + 3 * ncode <= |s| && |ls| == 19
    requires forall i :: 0 <= i < 19 ==> ls[Order(i)] == if i < ncode then Field(s, pos + 3 * i, 3) else 0
    ensures ls == Scatter(ReadRaw(s, pos, ncode))
  {
    hide Field, ReadRaw, Scatter;
    var raw := ReadRaw(s, pos, ncode);
    forall i | 0 <= i < 19
      ensures ORDER[i] < 19 && ls[ORDER[i]] == if i < ncode then raw[i] else 0
    {
      assert Order(i) == ORDER[i];
      if i < ncode {
        RawAt(s, pos, ncode, i);
      }
    }
    ScatteredAt(raw, ls);
  }

  datatype ItemEvent = Got(item: Item) | Wrong(err: int)

  ghost predicate HeardItem(s: State, step: ItemStep, ev: ItemEvent)
    reads s
  {
    match step
    case BadItem(e, p) => ev == Wrong(e) && (e < 0 ==> s.incnt == BytesUsed(p))
    case GotItem(it, p) => ev == Got(it) && s.Buffered(p)
  }

  /** A code length or repeat instruction, when index lengths are known. */
  method NextItem(s: State, lencode: Code, index: nat, ghost cl: seq<nat>, ghost pos: nat) returns (ev: ItemEvent)
    requires s.Buffered(pos) && |cl| == 19 && Decodable(cl) && lencode.For(cl)
    modifies s`incnt, s`bitbuf, s`bitcnt
    ensures HeardItem(s, ReadItem(cl, s.Stream(), pos, index), ev)
  {
    hide ReadSymbol, Represents, Decodable, Lsb, BitsOf, Field, BytesUsed;
    ghost var w := ReadSymbol(cl, s.Stream(), pos);
    var symbol := NextSymbol(s, lencode, cl, pos);
    if symbol.LongJump? {
      return Wrong(2);
    }
    if symbol.v < 0 {
      return Wrong(symbol.v);
    }
    if symbol.v < 16 {
      return Got(Single(symbol.v));
    }
    if symbol.v == 16 && index == 0 {
      BufferedBytes(s, w.pos);
      return Wrong(-5);
    }
    var e := s.Bits(if symbol.v == 16 then 2 else if symbol.v == 17 then 3 else 7, w.pos);
    if e.LongJump? {
      return Wrong(2);
    }
    ev := Got(if symbol.v == 16 then Repeat(e.v) else if symbol.v == 17 then Zeros(e.v) else ManyZeros(e.v));
  }

  /** The loop that stores a run of equal lengths. */
  method StoreRun(lengths: array<nat>, index: nat, v: nat, n: nat)
    requires index + n <= lengths.Length
    modifies lengths
    ensures lengths[..index + n] == old(lengths[..index]) + Repeated(v, n)
  {
    var k := 0;
    while k < n
      invariant 0 <= k <= n
      invariant lengths[..index] == old(lengths[..index])
      invariant forall i :: index <= i < index + k ==> lengths[i] == v
    {
      lengths[index + k] := v;
      k := k + 1;
    }
  }

  /** All literal/length and distance code lengths, as one list. */
  method AllLengths(s: State, lencode: Code, lengths: array<nat>, want: nat, ghost cl: seq<nat>, ghost start: nat)
    returns (err: int)
    requires s.Buffered(start) && |cl| == 19 && Decodable(cl) && lencode.For(cl) && lencode.Apart(lengths)
    requires want <= lengths.Length
    modifies s`incnt, s`bitbuf, s`bitcnt, lengths
    ensures start <= |s.Stream()|
    ensures match ReadLengths(cl, s.Stream(), start, [], want)
            case BadLengths(e, p) => err == e && (e < 0 ==> s.incnt == BytesUsed(p))
            case GotLengths(ls, p) => err == 0 && lengths[..want] == ls && s.Buffered(p)
  {
    hide ReadItem, Represents, Decodable, Lsb, BitsOf, BytesUsed, Repeated;
    ghost var stream, pos, acc := s.Stream(), start, [];
    ghost var r := ReadLengths(cl, stream, start, [], want);
    var index := 0;
    while index < want
      invariant index == |acc| <= want && lengths[..index] == acc
      invariant s.Buffered(pos) && r == ReadLengths(cl, stream, pos, acc, want)
      invariant lencode.For(cl)
      decreases |stream| - pos
    {
      ghost var step := ReadItem(cl, stream, pos, index);
      var ev := NextItem(s, lencode, index, cl, pos);
      if ev.Wrong? {
        return ev.err;
      }
      var len := if ev.item.Single? then ev.item.l else if ev.item.Repeat? then lengths[index - 1] else 0;
      if index + ev.item.Run() > want {
        BufferedBytes(s, step.pos);
        return -6;
      }
      StoreRun(lengths, index, len, ev.item.Run());
      index := index + ev.item.Run();
      acc, pos := AddRun(ev.item, acc), step.pos;
    }
    err := 0;
  }

  lemma LengthsBounded(cl: seq<nat>, s: seq<bit>, pos: nat, want: nat)
    requires |cl| == 19 && pos <= |s| && ReadLengths(cl, s, pos, [], want).GotLengths?
    ensures Lengths(ReadLengths(cl, s, pos, [], want).ls)
  {
    hide ReadLengths, ItemsOk, EncodeItems, ExpandItems, At;
    var items := LengthsSound(cl, s, pos, [], want);
    ItemsLengths(cl, items, [], want);
  }

  lemma ZeroLeft(ls: seq<nat>, left: int)
    requires Left(ls, left)
    ensures left == 0 <==> Complete(ls) || Unused(ls)
  {
    hide KraftSum, Pow2;
    if Unused(ls) {
    } else if Complete(ls) {
    }
  }

  ghost predicate HeardHeader(s: State, step: HeaderRead, err: int, nlen: nat, lencode: Code, distcode: Code)
    requires step.GotHeader? ==> step.nlen <= |step.ls|
    reads s, lencode.count, lencode.symbol, distcode.count, distcode.symbol
  {
    match step
    case BadHeader(e, p) => err == e && (e < 0 ==> s.incnt == BytesUsed(p))
    case GotHeader(n, ls, p) =>
      err == 0 && nlen == n && s.Buffered(p) && lencode.For(ls[..n]) && distcode.For(ls[n..])
  }

  /** The checks dynamic() makes on the lengths it has read, and the tables. */
  method BuildCodes(lengths: seq<nat>, nlen: nat, lencode: Code, distcode: Code) returns (err: int)
    requires 256 < nlen <= MAXLCODES && nlen <= |lengths| <= nlen + MAXDCODES && Lengths(lengths)
    requires lencode.Valid() && lencode.symbol.Length == MAXLCODES
    requires distcode.Valid() && distcode.symbol.Length == MAXDCODES
    requires lencode.Apart(distcode.count) && lencode.Apart(distcode.symbol)
    modifies lencode.count, lencode.symbol, distcode.count, distcode.symbol
    ensures err == if lengths[256] == 0 then -9
                   else if !LiteralCodeOk(lengths[..nlen]) then -7
                   else if !DistanceCodeOk(lengths[nlen..]) then -8 else 0
    ensures err == 0 ==> lencode.For(lengths[..nlen]) && distcode.For(lengths[nlen..])
  {
    hide LiteralCodeOk, DistanceCodeOk, Left, Count, Represents;
    if lengths[256] == 0 {
      return -9;
    }
    var left := Construct(lencode, lengths[..nlen]);
    AcceptedLiteralCodes(lengths[..nlen], left);
    if left != 0 && (left < 0 || nlen != lencode.count[0] + lencode.count[1]) {
      return -7;
    }
    left := Construct(distcode, lengths[nlen..]);
    AcceptedCodes(lengths[nlen..], left);
    if left != 0 && (left < 0 || |lengths| - nlen != distcode.count[0] + distcode.count[1]) {
      return -8;
    }
    err := 0;
  }

  /** From the code length code to the tables of the block. */
  method DescribedLengths(s: State, lengths: array<nat>, nlen: nat, ndist: nat, lencode: Code, distcode: Code,
                          ghost pos: nat) returns (err: int)
    requires s.Buffered(pos) && lengths.Length == MAXLCODES + MAXDCODES && Lengths(lengths[..19])
    requires 256 < nlen <= MAXLCODES && ndist <= MAXDCODES
    requires lencode.Valid() && lencode.symbol.Length == MAXLCODES && lencode.Apart(lengths)
    requires distcode.Valid() && distcode.symbol.Length == MAXDCODES && distcode.Apart(lengths)
    requires lencode.Apart(distcode.count) && lencode.Apart(distcode.symbol)
    modifies s`incnt, s`bitbuf, s`bitcnt, lengths
    modifies lencode.count, lencode.symbol, distcode.count, distcode.symbol
    ensures pos <= |s.Stream()|
    ensures HeardHeader(s, ReadHeaderCodes(old(lengths[..19]), s.Stream(), pos, nlen, ndist), err, nlen, lencode,
                        distcode)
  {
    hide Lsb, BitsOf, BytesUsed, Represents, Left, Complete, Unused, Decodable, LiteralCodeOk, DistanceCodeOk,
      ReadLengths, Count;
    ghost var cl, stream := lengths[..19], s.Stream();
    var left := Construct(lencode, lengths[..19]);
    ZeroLeft(cl, left);
    if left != 0 {
      BufferedBytes(s, pos);
      return -4;
    }
    assert Decodable(cl) by {
      UsableWhenZero(cl, left);
    }
    ghost var r := ReadLengths(cl, stream, pos, [], nlen + ndist);
    err := AllLengths(s, lencode, lengths, nlen + ndist, cl, pos);
    if err != 0 {
      return;
    }
    LengthsBounded(cl, stream, pos, nlen + ndist);
    err := BuildCodes(lengths[..nlen + ndist], nlen, lencode, distcode);
    BufferedBytes(s, r.pos);
  }

  lemma UsableWhenZero(ls: seq<nat>, left: int)
    requires Lengths(ls) && Left(ls, left) && left == 0
    ensures Decodable(ls)
  {
    if Unused(ls) {
      UnusedKraft(ls, MAXBITS);
    }
  }

  /** The code description at the start of a dynamic block. */
  method Description(s: State, lengths: array<nat>, lencode: Code, distcode: Code, ghost pos: nat)
    returns (err: int, nlen: nat)
    requires s.Buffered(pos) && lengths.Length == MAXLCODES + MAXDCODES
    requires lencode.Valid() && lencode.symbol.Length == MAXLCODES && lencode.Apart(lengths)
    requires distcode.Valid() && distcode.symbol.Length == MAXDCODES && distcode.Apart(lengths)
    requires lencode.Apart(distcode.count) && lencode.Apart(distcode.symbol)
    modifies s`incnt, s`bitbuf, s`bitcnt, lengths
    modifies lencode.count, lencode.symbol, distcode.count, distcode.symbol
    ensures pos <= |s.Stream()| && HeardHeader(s, ReadHeader(s.Stream(), pos), err, nlen, lencode, distcode)
  {
    hide Lsb, BitsOf, BytesUsed, Represents, Field, Pow2, ReadRaw, Scatter, ReadHeaderCodes, RawOk, At,
      EncodeRaw, State.Buffered;
    nlen := 0;
    var b := s.Bits(5, pos);
    if b.LongJump? {
      return 2, 0;
    }
    nlen := b.v + 257;
    b := s.Bits(5, pos + 5);
    if b.LongJump? {
      return 2, 0;
    }
    var ndist := b.v + 1;
    b := s.Bits(4, pos + 10);
    if b.LongJump? {
      return 2, 0;
    }
    var ncode := b.v + 4;
    if nlen > MAXLCODES || ndist > MAXDCODES {
      BufferedBytes(s, pos + 14);
      return -3, 0;
    }
    FourBits();
    var ok := CodeLengthLengths(s, lengths, ncode, pos + 14);
    if !ok {
      return 2, 0;
    }
    ghost var raw := ReadRaw(s.Stream(), pos + 14, ncode);
    RawExact(s.Stream(), pos + 14, raw);
    ScatterLengths(raw);
    err := DescribedLengths(s, lengths, nlen, ndist, lencode, distcode, pos + 14 + 3 * ncode);
  }

  lemma FourBits()
    ensures Pow2(4) == 16
  {
  }

  /** dynamic(). */
  method Dynamic(s: State, ghost pos: nat) returns (err: int)
    requires s.Buffered(pos) && s.ValidOut()
    modifies s`outcnt, s`incnt, s`bitbuf, s`bitcnt, s`emitted, s.out
    ensures s.ValidOut() && pos <= |s.Stream()|
    ensures Reached(s, InflateDynamic(s.Stream(), pos, old(s.emitted), s.Space()), err)
    ensures s.out != null ==> forall i :: s.outcnt <= i < s.out.Length ==> s.out[i] == old(s.out[i])
  {
    hide Lsb, BitsOf, BytesUsed, Represents, ReadHeader, InflateCodes, HeaderOk, HeaderItemsOk, HeaderLengths,
      EncodeHeader, Inflate.Codes, State.Buffered;
    var lengths := new nat[MAXLCODES + MAXDCODES];
    var lencode := new Code(MAXLCODES);
    var distcode := new Code(MAXDCODES);
    ghost var stream := s.Stream();
    ghost var r := ReadHeader(stream, pos);
    var nlen;
    err, nlen := Description(s, lengths, lencode, distcode, pos);
    if err != 0 {
      return;
    }
    ghost var h := HeaderSound(stream, pos);
    HeaderCodes(h);
    err := Codes(s, lencode, distcode, r.ls[..nlen], r.ls[nlen..], r.pos);
  }

  // ----- puff() --------------------------------------------------------------

  method InflateOne(s: State, fx: FixedTables, kind: int, ghost pos: nat) returns (err: int)
    requires s.Buffered(pos) && s.ValidOut() && fx.Valid() && fx.Apart(s.out) && 0 <= kind
    modifies s`outcnt, s`incnt, s`bitbuf, s`bitcnt, s`emitted, s.out
    modifies fx`virgin, fx.lencode.count, fx.lencode.symbol, fx.distcode.count, fx.distcode.symbol
    ensures s.ValidOut() && fx.Valid() && pos <= |s.Stream()|
    ensures Reached(s, InflateBlock(kind, s.Stream(), pos, old(s.emitted), s.Space()), err)
    ensures s.out != null ==> forall i :: s.outcnt <= i < s.out.Length ==> s.out[i] == old(s.out[i])
  {
    hide Lsb, BitsOf, BytesUsed, InflateStored, InflateCodes, InflateDynamic, Represents, State.Buffered;
    if kind == 0 {
      err := Stored(s, pos);
    } else if kind == 1 {
      err := Fixed(s, fx, pos);
    } else if kind == 2 {
      err := Dynamic(s, pos);
    } else {
      BufferedBytes(s, pos);
      err := -1;
    }
  }

  lemma FromStep(s: seq<bit>, pos: nat, out: seq<byte>, cap: Cap)
    requires pos <= |s|
    ensures var o := InflateFrom(s, pos, out, cap);
            if pos + 3 > |s| then o == Outcome(2, out, pos)
            else
              var r := InflateBlock(Field(s, pos + 1, 2), s, pos + 3, out, cap);
              if r.err != 0 || s[pos] == 1 then o == r
              else pos < r.pos <= |s| && o == InflateFrom(s, r.pos, r.out, cap)
  {
    hide InflateBlock, Field;
  }

  /** The loop of puff(): blocks until the last one or an error. */
  method Blocks(s: State, fx: FixedTables) returns (err: int)
    requires s.Buffered(0) && s.ValidOut() && fx.Valid() && fx.Apart(s.out)
    modifies s`outcnt, s`incnt, s`bitbuf, s`bitcnt, s`emitted, s.out
    modifies fx`virgin, fx.lencode.count, fx.lencode.symbol, fx.distcode.count, fx.distcode.symbol
    ensures s.ValidOut() && fx.Valid()
    ensures Reached(s, InflateFrom(s.Stream(), 0, old(s.emitted), s.Space()), err)
    ensures s.out != null ==> forall i :: s.outcnt <= i < s.out.Length ==> s.out[i] == old(s.out[i])
  {
    hide Lsb, BitsOf, BytesUsed, InflateBlock, InflateFrom, Represents, Field, State.Buffered;
    ghost var stream, cap, pos := s.Stream(), s.Space(), 0;
    ghost var o := InflateFrom(stream, 0, s.emitted, cap);
    while true
      invariant s.Buffered(pos) && s.ValidOut() && fx.Valid()
      invariant o == InflateFrom(stream, pos, s.emitted, cap)
      invariant s.out != null ==> forall i :: s.outcnt <= i < s.out.Length ==> s.out[i] == old(s.out[i])
      decreases |stream| - pos
    {
      FromStep(stream, pos, s.emitted, cap);
      var last := s.Bits(1, pos);
      if last.LongJump? {
        return 2;
      }
      OneBitField(stream, pos);
      var kind := s.Bits(2, pos + 1);
      if kind.LongJump? {
        return 2;
      }
      ghost var r := InflateBlock(kind.v, stream, pos + 3, s.emitted, cap);
      err := InflateOne(s, fx, kind.v, pos + 3);
      if err != 0 || last.v == 1 {
        return;
      }
      pos := r.pos;
    }
  }

  /** puff(): inflate source into dest, or only count when dest is null. The
      lengths returned are the arguments unless the code is zero or negative. */
  method Puff(fx: FixedTables, dest: array?<byte>, destlen: nat, source: seq<byte>, slow: bool)
    returns (err: int, destlen': nat, sourcelen': nat)
    requires fx.Valid() && fx.Apart(dest)
    requires dest != null ==> destlen <= dest.Length
    modifies dest, fx`virgin, fx.lencode.count, fx.lencode.symbol, fx.distcode.count, fx.distcode.symbol
    ensures fx.Valid()
    ensures var o := Inflated(BitsOf(source), if dest == null then Unbounded else Room(destlen));
            && err == o.err
            && (err <= 0 ==> destlen' == |o.out| && sourcelen' == BytesUsed(o.pos))
            && (err > 0 ==> destlen' == destlen && sourcelen' == |source|)
            && (dest != null ==> |o.out| <= destlen && dest[..] == o.out + old(dest[..])[|o.out|..])
  {
    hide Lsb, BitsOf, BytesUsed, InflateFrom, Represents;
    destlen', sourcelen' := destlen, |source|;
    var s := new State(dest, destlen, source, slow);
    ghost var o := Inflated(s.Stream(), s.Space());
    err := Blocks(s, fx);
    if err <= 0 {
      if err == 0 {
        BufferedBytes(s, o.pos);
      }
      destlen' := s.outcnt;
      sourcelen' := s.incnt;
    }
  }

  // ----- what puff() promises ------------------------------------------------

  ghost function SpaceOf(dest: array?<byte>, destlen: nat): Cap {
    if dest == null then Unbounded else Room(destlen)
  }

  /** The first k bits of source encode blocks that stand for out. */
  ghost predicate Encodes(source: seq<byte>, k: nat, out: seq<byte>) {
    k <= |BitsOf(source)| && StandsFor(BitsOf(source)[..k], out)
  }

  lemma EncodesExactly(source: seq<byte>, cap: Cap, k: nat, out: seq<byte>)
    ensures Encodes(source, k, out) && cap.Fits(|out|) <==>
            k <= |BitsOf(source)| && Inflated(BitsOf(source), cap) == Outcome(0, out, k)
  {
    hide BitsOf, InflateFrom, StandsFor;
    if k <= |BitsOf(source)| {
      InflatesExactly(BitsOf(source), cap, k, out);
    }
  }

  /** puff() succeeds exactly if the source begins with an encoding of blocks that
      fit, and then delivers what they stand for. */
  method Unpack(fx: FixedTables, dest: array?<byte>, destlen: nat, source: seq<byte>, slow: bool)
    returns (err: int, destlen': nat, sourcelen': nat)
    requires fx.Valid() && fx.Apart(dest)
    requires dest != null ==> destlen <= dest.Length
    modifies dest, fx`virgin, fx.lencode.count, fx.lencode.symbol, fx.distcode.count, fx.distcode.symbol
    ensures fx.Valid()
    ensures err == 0 <==> exists k, out :: Encodes(source, k, out) && SpaceOf(dest, destlen).Fits(|out|)
    ensures forall k, out :: Encodes(source, k, out) && SpaceOf(dest, destlen).Fits(|out|) ==>
              && err == 0 && destlen' == |out| && sourcelen' == BytesUsed(k)
              && (dest != null ==> |out| <= destlen && dest[..] == out + old(dest[..])[|out|..])
  {
    hide BitsOf, BytesUsed, InflateFrom, Encode, Represents;
    ghost var s, cap := BitsOf(source), SpaceOf(dest, destlen);
    ghost var o := Inflated(s, cap);
    forall k: nat, out ensures Encodes(source, k, out) && cap.Fits(|out|) <==> k <= |s| && o == Outcome(0, out, k) {
      EncodesExactly(source, cap, k, out);
    }
    if o.err == 0 {
      assert Encodes(source, o.pos, o.out) && cap.Fits(|o.out|);
    }
    err, destlen', sourcelen' := Puff(fx, dest, destlen, source, slow);
  }

  /** After success, a second input that agrees on the bytes consumed gives the
      same lengths and the same output, whatever follows and with either build. */
  method UnpackAgain(fx: FixedTables, dest: array<byte>, again: array<byte>, destlen: nat,
                     source: seq<byte>, other: seq<byte>, slow: bool, slow': bool)
    returns (err: int, n: nat, k: nat, err': int, n': nat, k': nat)
    requires fx.Valid() && fx.Apart(dest) && fx.Apart(again) && dest != again
    requires destlen <= dest.Length && destlen <= again.Length
    modifies dest, again, fx`virgin, fx.lencode.count, fx.lencode.symbol, fx.distcode.count, fx.distcode.symbol
    ensures fx.Valid()
    ensures err == 0 && k <= |other| && k <= |source| && source[..k] == other[..k] ==>
              && err' == 0 && n' == n && k' == k
              && n <= destlen && dest[..n] == again[..n]
  {
    hide BitsOf, BytesUsed, InflateFrom, Represents;
    ghost var o := Inflated(BitsOf(source), Room(destlen));
    err, n, k := Puff(fx, dest, destlen, source, slow);
    err', n', k' := Puff(fx, again, destlen, other, slow');
    if err == 0 && k <= |other| && k <= |source| && source[..k] == other[..k] {
      PrefixDetermines(source, other, Room(destlen), k);
      assert dest[..n] == o.out;
      assert again[..n] == o.out;
    }
  }

  /** After success, an input cut off before the end of what was consumed gives
      code 2 and leaves both lengths alone. */
  method UnpackCut(fx: FixedTables, dest: array?<byte>, destlen: nat, source: seq<byte>, m: nat, slow: bool)
    returns (err: int, n: nat, k: nat, err': int, n': nat, k': nat)
    requires fx.Valid() && fx.Apart(dest) && m <= |source|
    requires dest != null ==> destlen <= dest.Length
    modifies dest, fx`virgin, fx.lencode.count, fx.lencode.symbol, fx.distcode.count, fx.distcode.symbol
    ensures fx.Valid()
    ensures err == 0 && m < k ==> err' == 2 && n' == destlen && k' == m
  {
    hide BitsOf, BytesUsed, InflateFrom, Represents;
    err, n, k := Puff(fx, dest, destlen, source, slow);
    err', n', k' := Puff(fx, dest, destlen, source[..m], slow);
    if err == 0 && m < k {
      TruncationIsReported(source, SpaceOf(dest, destlen), m);
    }
  }
}
