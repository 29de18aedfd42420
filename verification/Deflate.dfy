/**
  The deflate format as a grammar: lists of blocks, the bits that encode them
  and the bytes they stand for (sections 3.2.3 to 3.2.7 of RFC 1951, with the
  acceptance checks of zip/puff.c on code descriptions).
 */
module Deflate {
  import opened Bits
  import opened Huffman

  const MAXLCODES := 286
  const MAXDCODES := 30
  const FIXLCODES := 288

  /** Base values and extra bits of length symbols 257..285. */
  const LENS: seq<nat> := [
    3, 4, 5, 6, 7, 8, 9, 10, 11, 13, 15, 17, 19, 23, 27, 31,
    35, 43, 51, 59, 67, 83, 99, 115, 131, 163, 195, 227, 258]
  const LEXT: seq<nat> := [
    0, 0, 0, 0, 0, 0, 0, 0, 1, 1, 1, 1, 2, 2, 2, 2,
    3, 3, 3, 3, 4, 4, 4, 4, 5, 5, 5, 5, 0]

  /** Base values and extra bits of distance symbols 0..29. */
  const DISTS: seq<nat> := [
    1, 2, 3, 4, 5, 7, 9, 13, 17, 25, 33, 49, 65, 97, 129, 193,
    257, 385, 513, 769, 1025, 1537, 2049, 3073, 4097, 6145,
    8193, 12289, 16385, 24577]
  const DEXT: seq<nat> := [
    0, 0, 0, 0, 1, 1, 2, 2, 3, 3, 4, 4, 5, 5, 6, 6,
    7, 7, 8, 8, 9, 9, 10, 10, 11, 11, 12, 12, 13, 13]

  function LengthBase(i: nat): nat
    requires i < 29
  {
    LENS[i]
  }

  function LengthExtra(i: nat): (n: nat)
    requires i < 29
    ensures n <= 5
  {
    LEXT[i]
  }

  function DistanceBase(i: nat): (d: nat)
    requires i < 30
    ensures d >= 1
  {
    DISTS[i]
  }

  function DistanceExtra(i: nat): (n: nat)
    requires i < 30
    ensures n <= 13
  {
    DEXT[i]
  }

  // The tables follow the rule of section 3.2.5 of RFC 1951: each symbol takes
  // over where the one before it ends, from length 3 and distance 1 on, and the
  // extra bits grow by one every four length symbols and every two distance
  // symbols. Only the last length symbol stands for 258 alone.

  lemma SmallPowers()
    ensures Pow2(0) == 1 && Pow2(1) == 2 && Pow2(2) == 4 && Pow2(3) == 8 && Pow2(4) == 16 && Pow2(5) == 32
    ensures Pow2(6) == 64 && Pow2(7) == 128 && Pow2(8) == 256 && Pow2(9) == 512 && Pow2(10) == 1024
    ensures Pow2(11) == 2048 && Pow2(12) == 4096 && Pow2(13) == 8192
  {
    assert Pow2(4) == 16 && Pow2(8) == 256 && Pow2(12) == 4096;
  }

  lemma LengthExtras(i: nat)
    requires i < 28
    ensures LengthExtra(i) == if i < 8 then 0 else (i - 4) / 4
    ensures LengthExtra(28) == 0
  {
  }

  lemma ShortLengths(i: nat)
    requires i < 14
    ensures LengthBase(i + 1) == LengthBase(i) + Pow2(LengthExtra(i))
  {
    hide Pow2;
    SmallPowers();
  }

  lemma LongLengths(i: nat)
    requires 14 <= i < 27
    ensures LengthBase(i + 1) == LengthBase(i) + Pow2(LengthExtra(i))
  {
    hide Pow2;
    SmallPowers();
  }

  lemma LengthSymbols(i: nat)
    requires i < 28
    ensures LengthBase(0) == 3 && LengthBase(28) == 258
    ensures i < 27 ==> LengthBase(i + 1) == LengthBase(i) + Pow2(LengthExtra(i))
    ensures i == 27 ==> LengthBase(i) + Pow2(LengthExtra(i)) == 259
  {
    SmallPowers();
    assert LengthBase(0) == 3 && LengthBase(27) == 227 && LengthBase(28) == 258 && LengthExtra(27) == 5;
    hide LengthBase, LengthExtra, Pow2;
    if i < 14 {
      ShortLengths(i);
    } else if i < 27 {
      LongLengths(i);
    }
  }

  lemma DistanceExtras(i: nat)
    requires i < 30
    ensures DistanceExtra(i) == if i < 4 then 0 else i / 2 - 1
  {
  }

  lemma NearDistances(i: nat)
    requires i < 15
    ensures DistanceBase(i + 1) == DistanceBase(i) + Pow2(DistanceExtra(i))
  {
    hide Pow2;
    SmallPowers();
  }

  lemma FarDistances(i: nat)
    requires 15 <= i < 29
    ensures DistanceBase(i + 1) == DistanceBase(i) + Pow2(DistanceExtra(i))
  {
    hide Pow2;
    SmallPowers();
  }

  lemma DistanceSymbols(i: nat)
    requires i < 30
    ensures DistanceBase(0) == 1
    ensures i < 29 ==> DistanceBase(i + 1) == DistanceBase(i) + Pow2(DistanceExtra(i))
    ensures i == 29 ==> DistanceBase(i) + Pow2(DistanceExtra(i)) == 32769
  {
    SmallPowers();
    assert DistanceBase(0) == 1 && DistanceBase(29) == 24577 && DistanceExtra(29) == 13;
    hide DistanceBase, DistanceExtra, Pow2;
    if i < 15 {
      NearDistances(i);
    } else if i < 29 {
      FarDistances(i);
    }
  }

  /** The number of symbols, and of the lengths that may describe them. */
  lemma SymbolCounts()
    ensures |LENS| == |LEXT| == 29 && |DISTS| == |DEXT| == 30
    ensures MAXLCODES == 257 + |LENS| && MAXDCODES == |DISTS| && FIXLCODES == 144 + 112 + 24 + 8
  {
  }

  lemma {:induction false} LengthFrom(i: nat, n: nat) returns (lsym: nat, lextra: nat)
    requires i < 28 && LengthBase(0) <= n < LengthBase(i) + Pow2(LengthExtra(i))
    ensures lsym <= i && lextra < Pow2(LengthExtra(lsym)) && LengthBase(lsym) + lextra == n
    decreases i
  {
    hide LengthBase, LengthExtra, Pow2;
    if LengthBase(i) <= n {
      lsym, lextra := i, n - LengthBase(i);
    } else {
      LengthSymbols(i - 1);
      lsym, lextra := LengthFrom(i - 1, n);
    }
  }

  lemma {:induction false} DistanceFrom(i: nat, d: nat) returns (dsym: nat, dextra: nat)
    requires i < 30 && DistanceBase(0) <= d < DistanceBase(i) + Pow2(DistanceExtra(i))
    ensures dsym <= i && dextra < Pow2(DistanceExtra(dsym)) && DistanceBase(dsym) + dextra == d
    decreases i
  {
    hide DistanceBase, DistanceExtra, Pow2;
    if DistanceBase(i) <= d {
      dsym, dextra := i, d - DistanceBase(i);
    } else {
      DistanceSymbols(i - 1);
      dsym, dextra := DistanceFrom(i - 1, d);
    }
  }

  lemma {:induction false} LengthsGrow(i: nat)
    requires i < 28
    ensures 3 <= LengthBase(i) && LengthBase(i) + Pow2(LengthExtra(i)) <= 259
    decreases 28 - i
  {
    hide LengthBase, LengthExtra, Pow2;
    LengthSymbols(i);
    if i < 27 {
      LengthsGrow(i + 1);
    }
    LengthsStart(i);
  }

  lemma {:induction false} LengthsStart(i: nat)
    requires i < 28
    ensures 3 <= LengthBase(i)
  {
    hide LengthBase, LengthExtra, Pow2;
    LengthSymbols(0);
    if i > 0 {
      LengthSymbols(i - 1);
      LengthsStart(i - 1);
    }
  }

  lemma {:induction false} DistancesEnd(i: nat)
    requires i < 30
    ensures DistanceBase(i) + Pow2(DistanceExtra(i)) <= 32769
    decreases 30 - i
  {
    hide DistanceBase, DistanceExtra, Pow2;
    DistanceSymbols(i);
    if i < 29 {
      DistancesEnd(i + 1);
    }
  }

  /** The order in which code length code lengths are sent, and its inverse. */
  const ORDER: seq<nat> := [16, 17, 18, 0, 8, 7, 9, 6, 10, 5, 11, 4, 12, 3, 13, 2, 14, 1, 15]
  const PLACE: seq<nat> := [3, 17, 15, 13, 11, 9, 7, 5, 4, 6, 8, 10, 12, 14, 16, 18, 0, 1, 2]

  lemma OrderIsPermutation()
    ensures |ORDER| == |PLACE| == 19
    ensures forall i :: 0 <= i < 19 ==> ORDER[i] < 19 && PLACE[ORDER[i]] == i
    ensures forall y :: 0 <= y < 19 ==> PLACE[y] < 19 && ORDER[PLACE[y]] == y
  {
  }

  /** The three run symbols first, then 0, then outwards from 8 to 1 and 15. */
  lemma OrderIs(i: nat)
    requires i < 19
    ensures ORDER[i] ==
            if i < 3 then 16 + i else if i == 3 then 0 else if i % 2 == 0 then 6 + i / 2 else 8 - (i - 3) / 2
  {
  }

  // ----- tokens --------------------------------------------------------------

  /** A literal byte, or a copy given by its symbols and extra bits. */
  datatype Token = Literal(b: byte) | Copy(lsym: nat, lextra: nat, dsym: nat, dextra: nat) {
    ghost predicate Known() {
      Copy? ==> lsym < 29 && dsym < 30
    }

    function Length(): nat
      requires Copy? && Known()
    {
      LengthBase(lsym) + lextra
    }

    function Distance(): (d: nat)
      requires Copy? && Known()
      ensures d >= 1
    {
      DistanceBase(dsym) + dextra
    }
  }

  /** A copy of n bytes from d back, with extra bits in range. */
  ghost predicate Says(t: Token, n: nat, d: nat) {
    && t.Copy? && t.Known() && t.Length() == n && t.Distance() == d
    && t.lextra < Pow2(LengthExtra(t.lsym)) && t.dextra < Pow2(DistanceExtra(t.dsym))
  }

  /** Exactly the lengths from 3 to 258 and the distances from 1 to 32768 can be
      said. */
  lemma EveryCopy(n: nat, d: nat)
    ensures (exists t :: Says(t, n, d)) <==> 3 <= n <= 258 && 1 <= d <= 32768
  {
    hide LengthBase, LengthExtra, DistanceBase, DistanceExtra, Pow2;
    LengthSymbols(27);
    LengthExtras(27);
    SmallPowers();
    DistanceSymbols(29);
    if 3 <= n <= 258 && 1 <= d <= 32768 {
      var lsym, lextra := LengthFrom(27, n);
      var dsym, dextra := DistanceFrom(29, d);
      assert Says(Copy(lsym, lextra, dsym, dextra), n, d);
    }
    forall t | Says(t, n, d) ensures 3 <= n <= 258 && 1 <= d <= 32768 {
      if t.lsym < 28 {
        LengthsGrow(t.lsym);
      }
      DistancesEnd(t.dsym);
    }
  }

  ghost predicate HasCode(ls: seq<nat>, y: nat) {
    y < |ls| && ls[y] != 0
  }

  ghost predicate TokenOk(ll: seq<nat>, dl: seq<nat>, t: Token) {
    match t
    case Literal(b) => HasCode(ll, b)
    case Copy(lsym, lextra, dsym, dextra) =>
      && t.Known()
      && HasCode(ll, 257 + lsym) && lextra < Pow2(LengthExtra(lsym))
      && HasCode(dl, dsym) && dextra < Pow2(DistanceExtra(dsym))
  }

  ghost function EncodeToken(ll: seq<nat>, dl: seq<nat>, t: Token): (w: seq<bit>)
    requires TokenOk(ll, dl, t)
  {
    match t
    case Literal(b) => Codeword(ll, b)
    case Copy(lsym, lextra, dsym, dextra) =>
      (Codeword(ll, 257 + lsym) + LsbBits(lextra, LengthExtra(lsym))) +
      (Codeword(dl, dsym) + LsbBits(dextra, DistanceExtra(dsym)))
  }

  /** len bytes copied from dist back, the copy feeding on itself when it is
      longer than the distance. */
  ghost function CopyBytes(out: seq<byte>, dist: nat, len: nat): (c: seq<byte>)
    requires 1 <= dist <= |out|
    ensures |c| == len
    ensures forall i :: 0 <= i < len ==> c[i] == out[|out| - dist + i % dist]
  {
    seq(len, i requires 0 <= i < len => out[|out| - dist + i % dist])
  }

  /** The distance of a copy reaches no further back than the output goes. */
  ghost predicate Reaches(t: Token, n: nat) {
    t.Known() && (t.Copy? ==> t.Distance() <= n)
  }

  ghost function Chunk(t: Token, out: seq<byte>): seq<byte>
    requires Reaches(t, |out|)
  {
    match t
    case Literal(b) => [b]
    case Copy(_, _, _, _) => CopyBytes(out, t.Distance(), t.Length())
  }

  ghost predicate TokensOk(ll: seq<nat>, dl: seq<nat>, ts: seq<Token>, out: seq<byte>)
    decreases |ts|
  {
    ts != [] ==>
      && TokenOk(ll, dl, ts[0]) && Reaches(ts[0], |out|)
      && TokensOk(ll, dl, ts[1..], out + Chunk(ts[0], out))
  }

  ghost function EncodeTokens(ll: seq<nat>, dl: seq<nat>, ts: seq<Token>, out: seq<byte>): (w: seq<bit>)
    requires TokensOk(ll, dl, ts, out) && HasCode(ll, 256)
    decreases |ts|
  {
    if ts == [] then Codeword(ll, 256)
    else EncodeToken(ll, dl, ts[0]) + EncodeTokens(ll, dl, ts[1..], out + Chunk(ts[0], out))
  }

  ghost function ExpandTokens(ll: seq<nat>, dl: seq<nat>, ts: seq<Token>, out: seq<byte>): (r: seq<byte>)
    requires TokensOk(ll, dl, ts, out)
    ensures out <= r
    decreases |ts|
  {
    if ts == [] then out else ExpandTokens(ll, dl, ts[1..], out + Chunk(ts[0], out))
  }

  // ----- code descriptions ---------------------------------------------------

  /** One item of the run-length code for code lengths: a length, a repeat of
      the last length, or one of two kinds of runs of zeros. */
  datatype Item = Single(l: nat) | Repeat(extra: nat) | Zeros(extra: nat) | ManyZeros(extra: nat) {
    function Sym(): nat {
      match this
      case Single(l) => l
      case Repeat(_) => 16
      case Zeros(_) => 17
      case ManyZeros(_) => 18
    }

    function ExtraBits(): nat {
      match this
      case Single(_) => 0
      case Repeat(_) => 2
      case Zeros(_) => 3
      case ManyZeros(_) => 7
    }

    function Extra(): nat {
      if Single? then 0 else extra
    }

    /** How many lengths the item stands for. */
    function Run(): (n: nat)
      ensures n >= 1
    {
      match this
      case Single(_) => 1
      case Repeat(e) => 3 + e
      case Zeros(e) => 3 + e
      case ManyZeros(e) => 11 + e
    }

    /** The length it repeats, after the lengths acc. */
    function Value(acc: seq<nat>): nat
      requires Repeat? ==> acc != []
    {
      match this
      case Single(l) => l
      case Repeat(_) => acc[|acc| - 1]
      case _ => 0
    }
  }

  /** A repeat stands for 3 to 6 lengths, short zeros for 3 to 10, long zeros for
      11 to 138; each of these numbers by exactly one item. */
  lemma ItemRuns(it: Item)
    requires it.Extra() < Pow2(it.ExtraBits())
    ensures it.Single? ==> it.Run() == 1
    ensures it.Repeat? ==> it.Sym() == 16 && 3 <= it.Run() <= 6 && it == Repeat(it.Run() - 3)
    ensures it.Zeros? ==> it.Sym() == 17 && 3 <= it.Run() <= 10 && it == Zeros(it.Run() - 3)
    ensures it.ManyZeros? ==> it.Sym() == 18 && 11 <= it.Run() <= 138 && it == ManyZeros(it.Run() - 11)
  {
    SmallPowers();
  }

  lemma EveryRun(n: nat)
    ensures 3 <= n <= 6 ==> Repeat(n - 3).Run() == n && n - 3 < Pow2(Repeat(n - 3).ExtraBits())
    ensures 3 <= n <= 10 ==> Zeros(n - 3).Run() == n && n - 3 < Pow2(Zeros(n - 3).ExtraBits())
    ensures 11 <= n <= 138 ==> ManyZeros(n - 11).Run() == n && n - 11 < Pow2(ManyZeros(n - 11).ExtraBits())
  {
    SmallPowers();
  }

  ghost predicate ItemOk(cl: seq<nat>, it: Item) {
    && (it.Single? ==> it.l < 16)
    && HasCode(cl, it.Sym())
    && it.Extra() < Pow2(it.ExtraBits())
  }

  ghost function EncodeItem(cl: seq<nat>, it: Item): seq<bit>
    requires ItemOk(cl, it)
  {
    Codeword(cl, it.Sym()) + LsbBits(it.Extra(), it.ExtraBits())
  }

  function Repeated(v: nat, n: nat): (r: seq<nat>)
    ensures |r| == n && forall i :: 0 <= i < n ==> r[i] == v
  {
    seq(n, i => v)
  }

  function AddRun(it: Item, acc: seq<nat>): (r: seq<nat>)
    requires it.Repeat? ==> acc != []
    ensures |r| == |acc| + it.Run()
  {
    acc + Repeated(it.Value(acc), it.Run())
  }

  /** Items that describe exactly the lengths missing from acc to want. */
  ghost predicate ItemsOk(cl: seq<nat>, items: seq<Item>, acc: seq<nat>, want: nat)
    decreases |items|
  {
    if items == [] then |acc| == want
    else
      && |acc| < want && ItemOk(cl, items[0]) && (items[0].Repeat? ==> acc != [])
      && |acc| + items[0].Run() <= want
      && ItemsOk(cl, items[1..], AddRun(items[0], acc), want)
  }

  ghost function EncodeItems(cl: seq<nat>, items: seq<Item>, acc: seq<nat>, want: nat): seq<bit>
    requires ItemsOk(cl, items, acc, want)
    decreases |items|
  {
    if items == [] then []
    else EncodeItem(cl, items[0]) + EncodeItems(cl, items[1..], AddRun(items[0], acc), want)
  }

  ghost function ExpandItems(cl: seq<nat>, items: seq<Item>, acc: seq<nat>, want: nat): (r: seq<nat>)
    requires ItemsOk(cl, items, acc, want)
    ensures |r| == want
    decreases |items|
  {
    if items == [] then acc else ExpandItems(cl, items[1..], AddRun(items[0], acc), want)
  }

  /** Code length code lengths as sent, put where ORDER says; missing ones are 0. */
  function Scatter(raw: seq<nat>): (cl: seq<nat>)
    ensures |cl| == 19
  {
    OrderIsPermutation();
    seq(19, y requires 0 <= y < 19 => if PLACE[y] < |raw| then raw[PLACE[y]] else 0)
  }

  /** The i-th length sent belongs to symbol ORDER[i]; the others have none. */
  lemma ScatterIs(raw: seq<nat>, i: nat)
    requires i < 19
    ensures Scatter(raw)[ORDER[i]] == if i < |raw| then raw[i] else 0
  {
    OrderIsPermutation();
  }

  ghost predicate RawOk(raw: seq<nat>) {
    forall i :: 0 <= i < |raw| ==> raw[i] < 8
  }

  function EncodeRaw(raw: seq<nat>): (w: seq<bit>)
    ensures |w| == 3 * |raw|
  {
    if raw == [] then [] else LsbBits(raw[0], 3) + EncodeRaw(raw[1..])
  }

  lemma ScatterLengths(raw: seq<nat>)
    requires RawOk(raw)
    ensures Lengths(Scatter(raw))
  {
    OrderIsPermutation();
  }

  ghost predicate Complete(ls: seq<nat>) {
    KraftSum(ls) == Pow2(MAXBITS)
  }

  /** A single used symbol, with a one-bit code. */
  ghost predicate OneBit(ls: seq<nat>) {
    exists y: nat :: OnlySymbol(ls, y)
  }

  ghost predicate OnlySymbol(ls: seq<nat>, y: nat) {
    && y < |ls| && ls[y] == 1
    && forall i :: 0 <= i < |ls| && i != y ==> ls[i] == 0
  }

  /** Literal/length codes a dynamic block may use. */
  ghost predicate LiteralCodeOk(ll: seq<nat>) {
    |ll| > 256 && ll[256] != 0 && (Complete(ll) || OnlySymbol(ll, 256))
  }

  /** Distance codes a dynamic block may use. */
  ghost predicate DistanceCodeOk(dl: seq<nat>) {
    Complete(dl) || Unused(dl) || OneBit(dl)
  }

  datatype Header = Header(nlen: nat, ndist: nat, raw: seq<nat>, items: seq<Item>)

  ghost predicate HeaderItemsOk(h: Header) {
    && 257 <= h.nlen <= MAXLCODES && 1 <= h.ndist <= MAXDCODES
    && 4 <= |h.raw| <= 19 && RawOk(h.raw)
    && Complete(Scatter(h.raw))
    && ItemsOk(Scatter(h.raw), h.items, [], h.nlen + h.ndist)
  }

  /** All code lengths of the block, literal/length first. */
  ghost function HeaderLengths(h: Header): (ls: seq<nat>)
    requires HeaderItemsOk(h)
    ensures |ls| == h.nlen + h.ndist
  {
    ExpandItems(Scatter(h.raw), h.items, [], h.nlen + h.ndist)
  }

  ghost predicate HeaderOk(h: Header) {
    && HeaderItemsOk(h)
    && LiteralCodeOk(HeaderLengths(h)[..h.nlen])
    && DistanceCodeOk(HeaderLengths(h)[h.nlen..])
  }

  ghost function EncodeHeader(h: Header): seq<bit>
    requires HeaderItemsOk(h)
  {
    ((LsbBits(h.nlen - 257, 5) + LsbBits(h.ndist - 1, 5)) + LsbBits(|h.raw| - 4, 4)) +
    (EncodeRaw(h.raw) + EncodeItems(Scatter(h.raw), h.items, [], h.nlen + h.ndist))
  }

  // ----- blocks --------------------------------------------------------------

  /** The fixed code lengths of section 3.2.6 of RFC 1951. */
  function FixedLiteral(): (ls: seq<nat>)
    ensures |ls| == FIXLCODES
  {
    seq(FIXLCODES, y => if y < 144 then 8 else if y < 256 then 9 else if y < 280 then 7 else 8)
  }

  function FixedDistance(): (ls: seq<nat>)
    ensures |ls| == MAXDCODES
  {
    seq(MAXDCODES, y => 5)
  }

  datatype Block =
    | Stored(pad: seq<bit>, data: seq<byte>)
    | Fixed(tokens: seq<Token>)
    | Dynamic(header: Header, tokens: seq<Token>)

  /** Bits to the next byte boundary. */
  function ToBoundary(pos: nat): (n: nat)
    ensures n < 8 && (pos + n) % 8 == 0
  {
    (8 - pos % 8) % 8
  }

  ghost predicate BlockOk(b: Block, pos: nat, out: seq<byte>) {
    match b
    case Stored(pad, data) => |pad| == ToBoundary(pos) && |data| < 65536
    case Fixed(ts) => TokensOk(FixedLiteral(), FixedDistance(), ts, out)
    case Dynamic(h, ts) =>
      HeaderOk(h) &&
      TokensOk(HeaderLengths(h)[..h.nlen], HeaderLengths(h)[h.nlen..], ts, out)
  }

  function BlockType(b: Block): nat {
    match b
    case Stored(_, _) => 0
    case Fixed(_) => 1
    case Dynamic(_, _) => 2
  }

  /** The length of a stored block and its one's complement. */
  function StoredLength(len: nat): (w: seq<bit>)
    requires len < 65536
    ensures |w| == 32
  {
    LsbBits(len, 16) + LsbBits(65535 - len, 16)
  }

  ghost function EncodeBlock(b: Block, pos: nat, out: seq<byte>): seq<bit>
    requires BlockOk(b, pos, out)
  {
    match b
    case Stored(pad, data) =>
      pad + (StoredLength(|data|) + BitsOf(data))
    case Fixed(ts) =>
      EncodeTokens(FixedLiteral(), FixedDistance(), ts, out)
    case Dynamic(h, ts) =>
      EncodeHeader(h) +
      EncodeTokens(HeaderLengths(h)[..h.nlen], HeaderLengths(h)[h.nlen..], ts, out)
  }

  ghost function ExpandBlock(b: Block, pos: nat, out: seq<byte>): (r: seq<byte>)
    requires BlockOk(b, pos, out)
    ensures out <= r
  {
    match b
    case Stored(pad, data) => out + data
    case Fixed(ts) => ExpandTokens(FixedLiteral(), FixedDistance(), ts, out)
    case Dynamic(h, ts) =>
      ExpandTokens(HeaderLengths(h)[..h.nlen], HeaderLengths(h)[h.nlen..], ts, out)
  }

  // ----- streams -------------------------------------------------------------

  /** The bits of a block or stream and all output after it, if it is legal. */
  datatype Encoded = Illegal | Encoded(bits: seq<bit>, out: seq<byte>)

  /** A block with its three header bits at bit position pos, after output out. */
  ghost function EncodeMarked(b: Block, last: bit, pos: nat, out: seq<byte>): (e: Encoded)
    ensures e.Encoded? ==> |e.bits| >= 3
  {
    if BlockOk(b, pos + 3, out) then
      Encoded(([last] + LsbBits(BlockType(b), 2)) + EncodeBlock(b, pos + 3, out), ExpandBlock(b, pos + 3, out))
    else Illegal
  }

  /** A non-empty list of blocks, the last one marked as such. */
  ghost function Encode(bs: seq<Block>, pos: nat, out: seq<byte>): (e: Encoded)
    decreases |bs|
  {
    if bs == [] then Illegal
    else if |bs| == 1 then EncodeMarked(bs[0], 1, pos, out)
    else
      match EncodeMarked(bs[0], 0, pos, out)
      case Illegal => Illegal
      case Encoded(w, r) =>
        match Encode(bs[1..], pos + |w|, r)
        case Illegal => Illegal
        case Encoded(w', r') => Encoded(w + w', r')
  }

  /** The bits are an encoding of some blocks that stand for out. */
  ghost predicate StandsFor(w: seq<bit>, out: seq<byte>) {
    exists bs :: Encode(bs, 0, []) == Encoded(w, out)
  }
}
