/**
  The deflate format as a decoder: what zip/puff.c promises to do with every
  bit sequence, including what it reports and how far it got on bad data.
  All functions read from a bit position of a fixed stream.
 */
module Inflate {
  import opened Bits
  import opened Huffman
  import opened Deflate

  /** Output space: none to mind when scanning, else a number of bytes. */
  datatype Cap = Unbounded | Room(n: nat) {
    predicate Fits(k: nat) {
      Room? ==> k <= n
    }
  }

  /** Return code, bytes produced, and bit position reached. The position
      matters only for codes <= 0. */
  datatype Outcome = Outcome(err: int, out: seq<byte>, pos: nat)

  datatype Step = Emit(t: Token, pos: nat) | EndOfBlock(pos: nat) | Fail(err: int, pos: nat)

  ghost predicate Codes(ll: seq<nat>, dl: seq<nat>) {
    Decodable(ll) && Decodable(dl) && |ll| <= FIXLCODES && |dl| <= MAXDCODES
  }

  /** The next token of a compressed block when n bytes are out already. */
  ghost function ReadToken(ll: seq<nat>, dl: seq<nat>, s: seq<bit>, pos: nat, n: nat): (r: Step)
    requires |dl| <= MAXDCODES
    ensures r.Emit? ==> Reaches(r.t, n)
    ensures !r.Fail? ==> pos < r.pos <= |s|
    ensures r.Fail? ==> r.err in {2, -10, -11} && (r.err != 2 ==> r.pos <= |s|)
  {
    match ReadSymbol(ll, s, pos)
    case OutOfInput => Fail(2, pos)
    case NoCode => Fail(-10, pos + MAXBITS)
    case Symbol(y, p) =>
      if y < 256 then Emit(Literal(y), p)
      else if y == 256 then EndOfBlock(p)
      else if y - 257 >= 29 then Fail(-10, p)
      else ReadCopy(dl, s, y - 257, p, n)
  }

  ghost function ReadCopy(dl: seq<nat>, s: seq<bit>, lsym: nat, pos: nat, n: nat): (r: Step)
    requires |dl| <= MAXDCODES && lsym < 29 && pos <= |s|
    ensures r.Emit? ==> r.t.Copy? && r.t.lsym == lsym && Reaches(r.t, n)
    ensures !r.EndOfBlock?
    ensures r.Emit? ==> pos <= r.pos <= |s|
    ensures r.Fail? ==> r.err in {2, -10, -11} && (r.err != 2 ==> r.pos <= |s|)
  {
    var p := pos + LengthExtra(lsym);
    if p > |s| then Fail(2, pos)
    else
      match ReadSymbol(dl, s, p)
      case OutOfInput => Fail(2, pos)
      case NoCode => Fail(-10, p + MAXBITS)
      case Symbol(d, p1) =>
        var p2 := p1 + DistanceExtra(d);
        if p2 > |s| then Fail(2, pos)
        else
          var t := Copy(lsym, Field(s, pos, LengthExtra(lsym)), d, Field(s, p1, DistanceExtra(d)));
          if t.Distance() > n then Fail(-11, p2) else Emit(t, p2)
  }

  /** A compressed block after its code description. */
  ghost function InflateCodes(ll: seq<nat>, dl: seq<nat>, s: seq<bit>, pos: nat, out: seq<byte>, cap: Cap): (r: Outcome)
    requires |dl| <= MAXDCODES && pos <= |s|
    ensures r.err <= 0 ==> r.pos <= |s|
    ensures r.err == 0 ==> pos <= r.pos
    ensures out <= r.out
    decreases |s| - pos
  {
    match ReadToken(ll, dl, s, pos, |out|)
    case Fail(err, p) => Outcome(err, out, p)
    case EndOfBlock(p) => Outcome(0, out, p)
    case Emit(t, p) =>
      var c := Chunk(t, out);
      if !cap.Fits(|out| + |c|) then Outcome(1, out, p)
      else InflateCodes(ll, dl, s, p, out + c, cap)
  }

  /** A stored block after its type. */
  ghost function InflateStored(s: seq<bit>, pos: nat, out: seq<byte>, cap: Cap): (r: Outcome)
    requires pos <= |s|
    ensures r.err <= 0 ==> r.pos <= |s|
    ensures r.err == 0 ==> pos <= r.pos
    ensures out <= r.out
  {
    InflateAligned(s, pos + ToBoundary(pos), out, cap)
  }

  /** A stored block from the byte boundary p on. */
  ghost function InflateAligned(s: seq<bit>, p: nat, out: seq<byte>, cap: Cap): (r: Outcome)
    ensures r.err <= 0 ==> p <= r.pos <= |s|
    ensures out <= r.out
  {
    if p + 32 > |s| then Outcome(2, out, p)
    else
      var len := Field(s, p, 16);
      if Field(s, p + 16, 8) != 255 - len % 256 then Outcome(-2, out, p + 24)
      else if Field(s, p + 24, 8) != 255 - len / 256 then Outcome(-2, out, p + 32)
      else if p + 32 + 8 * len > |s| then Outcome(2, out, p)
      else if !cap.Fits(|out| + len) then Outcome(1, out, p)
      else Outcome(0, out + Bytes(s, p + 32, len), p + 32 + 8 * len)
  }

  datatype ItemStep = GotItem(item: Item, pos: nat) | BadItem(err: int, pos: nat)

  /** The next run-length item when n lengths are known already. */
  ghost function ReadItem(cl: seq<nat>, s: seq<bit>, pos: nat, n: nat): (r: ItemStep)
    requires |cl| == 19
    ensures r.GotItem? ==> pos < r.pos <= |s| && (r.item.Repeat? ==> n > 0)
    ensures r.BadItem? ==> r.err in {2, -5, -10} && (r.err != 2 ==> r.pos <= |s|)
  {
    match ReadSymbol(cl, s, pos)
    case OutOfInput => BadItem(2, pos)
    case NoCode => BadItem(-10, pos + MAXBITS)
    case Symbol(y, p) =>
      if y < 16 then GotItem(Single(y), p)
      else if y == 16 && n == 0 then BadItem(-5, p)
      else
        var k := if y == 16 then 2 else if y == 17 then 3 else 7;
        if p + k > |s| then BadItem(2, pos)
        else
          var e := Field(s, p, k);
          GotItem(if y == 16 then Repeat(e) else if y == 17 then Zeros(e) else ManyZeros(e), p + k)
  }

  datatype LengthsRead = GotLengths(ls: seq<nat>, pos: nat) | BadLengths(err: int, pos: nat)

  /** Run-length items until want lengths are known. */
  ghost function ReadLengths(cl: seq<nat>, s: seq<bit>, pos: nat, acc: seq<nat>, want: nat): (r: LengthsRead)
    requires |cl| == 19 && pos <= |s| && |acc| <= want
    ensures r.GotLengths? ==> |r.ls| == want && pos <= r.pos <= |s|
    ensures r.BadLengths? ==> r.err in {2, -5, -6, -10} && (r.err != 2 ==> r.pos <= |s|)
    decreases |s| - pos
  {
    if |acc| == want then GotLengths(acc, pos)
    else
      match ReadItem(cl, s, pos, |acc|)
      case BadItem(err, p) => BadLengths(err, p)
      case GotItem(it, p) =>
        if |acc| + it.Run() > want then BadLengths(-6, p)
        else ReadLengths(cl, s, p, AddRun(it, acc), want)
  }

  function ReadRaw(s: seq<bit>, pos: nat, n: nat): (raw: seq<nat>)
    requires pos + 3 * n <= |s|
    ensures |raw| == n
    decreases n
  {
    if n == 0 then [] else [Field(s, pos, 3)] + ReadRaw(s, pos + 3, n - 1)
  }

  datatype HeaderRead = GotHeader(nlen: nat, ls: seq<nat>, pos: nat) | BadHeader(err: int, pos: nat)

  /** The code description of a dynamic block. */
  ghost function ReadHeader(s: seq<bit>, pos: nat): (r: HeaderRead)
    requires pos <= |s|
    ensures r.GotHeader? ==> r.nlen <= |r.ls| <= r.nlen + MAXDCODES && pos <= r.pos <= |s|
    ensures r.BadHeader? ==> r.err != 0 && r.err != 1 && r.err <= 2 && (r.err != 2 ==> r.pos <= |s|)
  {
    if pos + 14 > |s| then BadHeader(2, pos)
    else
      var nlen := Field(s, pos, 5) + 257;
      var ndist := Field(s, pos + 5, 5) + 1;
      var ncode := Field(s, pos + 10, 4) + 4;
      var p := pos + 14 + 3 * ncode;
      if nlen > MAXLCODES || ndist > MAXDCODES then BadHeader(-3, pos + 14)
      else if p > |s| then BadHeader(2, pos)
      else ReadHeaderCodes(Scatter(ReadRaw(s, pos + 14, ncode)), s, p, nlen, ndist)
  }

  ghost function ReadHeaderCodes(cl: seq<nat>, s: seq<bit>, pos: nat, nlen: nat, ndist: nat): (r: HeaderRead)
    requires |cl| == 19 && pos <= |s| && 256 < nlen
    ensures r.GotHeader? ==> r.nlen == nlen && |r.ls| == nlen + ndist && pos <= r.pos <= |s|
    ensures r.BadHeader? ==> r.err != 0 && r.err != 1 && r.err <= 2 && (r.err != 2 ==> r.pos <= |s|)
  {
    if !Complete(cl) && !Unused(cl) then BadHeader(-4, pos)
    else
      match ReadLengths(cl, s, pos, [], nlen + ndist)
      case BadLengths(err, p) => BadHeader(err, p)
      case GotLengths(ls, p) =>
        if ls[256] == 0 then BadHeader(-9, p)
        else if !LiteralCodeOk(ls[..nlen]) then BadHeader(-7, p)
        else if !DistanceCodeOk(ls[nlen..]) then BadHeader(-8, p)
        else GotHeader(nlen, ls, p)
  }

  ghost function InflateDynamic(s: seq<bit>, pos: nat, out: seq<byte>, cap: Cap): (r: Outcome)
    requires pos <= |s|
    ensures r.err <= 0 ==> r.pos <= |s|
    ensures r.err == 0 ==> pos <= r.pos
    ensures out <= r.out
  {
    match ReadHeader(s, pos)
    case BadHeader(err, p) => Outcome(err, out, p)
    case GotHeader(nlen, ls, p) => InflateCodes(ls[..nlen], ls[nlen..], s, p, out, cap)
  }

  ghost function InflateBlock(kind: nat, s: seq<bit>, pos: nat, out: seq<byte>, cap: Cap): (r: Outcome)
    requires pos <= |s|
    ensures r.err <= 0 ==> r.pos <= |s|
    ensures r.err == 0 ==> pos <= r.pos
    ensures out <= r.out
  {
    if kind == 0 then InflateStored(s, pos, out, cap)
    else if kind == 1 then InflateCodes(FixedLiteral(), FixedDistance(), s, pos, out, cap)
    else if kind == 2 then InflateDynamic(s, pos, out, cap)
    else Outcome(-1, out, pos)
  }

  /** Blocks from bit position pos on, until the last one or an error. */
  ghost function InflateFrom(s: seq<bit>, pos: nat, out: seq<byte>, cap: Cap): (r: Outcome)
    requires pos <= |s|
    ensures r.err <= 0 ==> r.pos <= |s|
    ensures r.err == 0 ==> pos <= r.pos
    ensures out <= r.out
    decreases |s| - pos
  {
    if pos + 3 > |s| then Outcome(2, out, pos)
    else
      var r := InflateBlock(Field(s, pos + 1, 2), s, pos + 3, out, cap);
      if r.err != 0 || s[pos] == 1 then r
      else InflateFrom(s, r.pos, r.out, cap)
  }

  ghost function Inflated(s: seq<bit>, cap: Cap): Outcome {
    InflateFrom(s, 0, [], cap)
  }
}
