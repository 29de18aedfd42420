/**
  The decoder is the exact inverse of the grammar: a stream inflates to some
  output, consuming some bits, if and only if those bits encode a list of
  blocks that expands to that output.
 */
module Exactness {
  import opened Bits
  import opened Huffman
  import opened Deflate
  import opened Inflate

  // ----- tokens --------------------------------------------------------------

  lemma CopyAt(ll: seq<nat>, dl: seq<nat>, s: seq<bit>, pos: nat, t: Token)
    requires t.Copy? && TokenOk(ll, dl, t)
    ensures var p := pos + ll[257 + t.lsym];
            var p1 := p + LengthExtra(t.lsym);
            var p2 := p1 + dl[t.dsym];
            && |EncodeToken(ll, dl, t)| == p2 + DistanceExtra(t.dsym) - pos
            && (At(s, pos, EncodeToken(ll, dl, t)) <==>
                At(s, pos, Codeword(ll, 257 + t.lsym)) && At(s, p, LsbBits(t.lextra, LengthExtra(t.lsym))) &&
                At(s, p1, Codeword(dl, t.dsym)) && At(s, p2, LsbBits(t.dextra, DistanceExtra(t.dsym))))
  {
    hide Codeword, LsbBits, At, Pow2, LengthExtra, DistanceExtra;
    var a, b := Codeword(ll, 257 + t.lsym), LsbBits(t.lextra, LengthExtra(t.lsym));
    var c, d := Codeword(dl, t.dsym), LsbBits(t.dextra, DistanceExtra(t.dsym));
    AtConcat(s, pos, a + b, c + d);
    AtConcat(s, pos, a, b);
    AtConcat(s, pos + |a + b|, c, d);
  }

  lemma TokenComplete(ll: seq<nat>, dl: seq<nat>, s: seq<bit>, pos: nat, n: nat, t: Token)
    requires Codes(ll, dl) && TokenOk(ll, dl, t) && Reaches(t, n)
    requires At(s, pos, EncodeToken(ll, dl, t))
    ensures ReadToken(ll, dl, s, pos, n) == Emit(t, pos + |EncodeToken(ll, dl, t)|)
  {
    hide ReadSymbol, Codeword, Decodable, At, ReadCopy, LsbBits, Pow2, Field, Matches, LengthBase, LengthExtra,
      DistanceBase, DistanceExtra;
    match t
    case Literal(b) =>
      ReadSymbolExact(ll, s, pos, b);
    case Copy(lsym, _, _, _) =>
      CopyAt(ll, dl, s, pos, t);
      ReadSymbolExact(ll, s, pos, 257 + lsym);
      CopyComplete(dl, s, pos + ll[257 + lsym], n, t);
  }

  lemma CopyComplete(dl: seq<nat>, s: seq<bit>, pos: nat, n: nat, t: Token)
    requires Decodable(dl) && |dl| <= MAXDCODES && pos <= |s|
    requires t.Copy? && Reaches(t, n) && HasCode(dl, t.dsym)
    requires t.lextra < Pow2(LengthExtra(t.lsym)) && t.dextra < Pow2(DistanceExtra(t.dsym))
    requires At(s, pos, LsbBits(t.lextra, LengthExtra(t.lsym)))
    requires At(s, pos + LengthExtra(t.lsym), Codeword(dl, t.dsym))
    requires At(s, pos + LengthExtra(t.lsym) + dl[t.dsym], LsbBits(t.dextra, DistanceExtra(t.dsym)))
    ensures ReadCopy(dl, s, t.lsym, pos, n)
         == Emit(t, pos + LengthExtra(t.lsym) + dl[t.dsym] + DistanceExtra(t.dsym))
  {
    hide ReadSymbol, Codeword, Decodable, At, Field, LsbBits, Pow2, LengthBase, LengthExtra, DistanceBase,
      DistanceExtra;
    FieldExact(s, pos, LengthExtra(t.lsym), t.lextra);
    ReadSymbolExact(dl, s, pos + LengthExtra(t.lsym), t.dsym);
    FieldExact(s, pos + LengthExtra(t.lsym) + dl[t.dsym], DistanceExtra(t.dsym), t.dextra);
  }

  lemma TokenSound(ll: seq<nat>, dl: seq<nat>, s: seq<bit>, pos: nat, n: nat)
    requires Codes(ll, dl) && ReadToken(ll, dl, s, pos, n).Emit?
    ensures var r := ReadToken(ll, dl, s, pos, n);
            TokenOk(ll, dl, r.t) && At(s, pos, EncodeToken(ll, dl, r.t)) &&
            r.pos == pos + |EncodeToken(ll, dl, r.t)|
  {
    hide ReadSymbol, Codeword, Decodable, Field, At, LsbBits, Pow2, ReadCopy, LengthBase, LengthExtra, DistanceBase,
      DistanceExtra;
    var r := ReadToken(ll, dl, s, pos, n);
    match r.t
    case Literal(_) =>
    case Copy(lsym, _, _, _) =>
      CopySound(dl, s, lsym, pos + ll[257 + lsym], n);
      assert TokenOk(ll, dl, r.t);
      hide EncodeToken;
      CopyAt(ll, dl, s, pos, r.t);
  }

  lemma CopySound(dl: seq<nat>, s: seq<bit>, lsym: nat, pos: nat, n: nat)
    requires |dl| <= MAXDCODES && lsym < 29 && pos <= |s| && ReadCopy(dl, s, lsym, pos, n).Emit?
    ensures var r := ReadCopy(dl, s, lsym, pos, n);
            var t := r.t;
            && t.Copy? && t.lsym == lsym && Reaches(t, n) && HasCode(dl, t.dsym)
            && t.lextra < Pow2(LengthExtra(lsym)) && t.dextra < Pow2(DistanceExtra(t.dsym))
            && At(s, pos, LsbBits(t.lextra, LengthExtra(lsym)))
            && At(s, pos + LengthExtra(lsym), Codeword(dl, t.dsym))
            && At(s, pos + LengthExtra(lsym) + dl[t.dsym], LsbBits(t.dextra, DistanceExtra(t.dsym)))
            && r.pos == pos + LengthExtra(lsym) + dl[t.dsym] + DistanceExtra(t.dsym)
  {
    hide ReadSymbol, Codeword, Field, At, LsbBits, Pow2, LengthBase, LengthExtra, DistanceBase, DistanceExtra;
    var t := ReadCopy(dl, s, lsym, pos, n).t;
    FieldExact(s, pos, LengthExtra(lsym), t.lextra);
    FieldExact(s, pos + LengthExtra(lsym) + dl[t.dsym], DistanceExtra(t.dsym), t.dextra);
  }

  // ----- the tokens of a block -----------------------------------------------

  lemma EndComplete(ll: seq<nat>, dl: seq<nat>, s: seq<bit>, pos: nat, n: nat)
    requires Codes(ll, dl) && HasCode(ll, 256) && At(s, pos, Codeword(ll, 256))
    ensures ReadToken(ll, dl, s, pos, n) == EndOfBlock(pos + ll[256])
  {
    hide ReadSymbol, Codeword, At, Decodable;
    ReadSymbolExact(ll, s, pos, 256);
  }

  /** One token more or less, for the decoder and for the grammar. */
  lemma CodesStep(ll: seq<nat>, dl: seq<nat>, s: seq<bit>, pos: nat, out: seq<byte>, t: Token, p: nat)
    requires |dl| <= MAXDCODES && pos <= |s| && ReadToken(ll, dl, s, pos, |out|) == Emit(t, p)
    ensures p <= |s| && Reaches(t, |out|)
    ensures InflateCodes(ll, dl, s, pos, out, Unbounded) == InflateCodes(ll, dl, s, p, out + Chunk(t, out), Unbounded)
  {
    hide ReadToken, Chunk;
  }

  lemma TokensStep(ll: seq<nat>, dl: seq<nat>, ts: seq<Token>, out: seq<byte>)
    requires TokensOk(ll, dl, ts, out) && HasCode(ll, 256) && ts != []
    ensures TokenOk(ll, dl, ts[0]) && Reaches(ts[0], |out|)
    ensures var out' := out + Chunk(ts[0], out);
            && TokensOk(ll, dl, ts[1..], out')
            && EncodeTokens(ll, dl, ts, out) == EncodeToken(ll, dl, ts[0]) + EncodeTokens(ll, dl, ts[1..], out')
            && ExpandTokens(ll, dl, ts, out) == ExpandTokens(ll, dl, ts[1..], out')
  {
    hide EncodeToken, Chunk, TokenOk, Reaches;
  }

  lemma {:induction false} CodesComplete(ll: seq<nat>, dl: seq<nat>, s: seq<bit>, pos: nat, ts: seq<Token>,
                                         out: seq<byte>)
    requires Codes(ll, dl) && HasCode(ll, 256) && TokensOk(ll, dl, ts, out)
    requires pos <= |s| && At(s, pos, EncodeTokens(ll, dl, ts, out))
    ensures InflateCodes(ll, dl, s, pos, out, Unbounded)
         == Outcome(0, ExpandTokens(ll, dl, ts, out), pos + |EncodeTokens(ll, dl, ts, out)|)
    decreases |ts|
  {
    hide EncodeToken, TokenOk, Chunk, ReadToken, Reaches, Codeword, At, Decodable;
    if ts == [] {
      EndComplete(ll, dl, s, pos, |out|);
    } else {
      hide InflateCodes, EncodeTokens, ExpandTokens, TokensOk;
      TokensStep(ll, dl, ts, out);
      var w, out' := EncodeToken(ll, dl, ts[0]), out + Chunk(ts[0], out);
      AtConcat(s, pos, w, EncodeTokens(ll, dl, ts[1..], out'));
      TokenComplete(ll, dl, s, pos, |out|, ts[0]);
      CodesStep(ll, dl, s, pos, out, ts[0], pos + |w|);
      CodesComplete(ll, dl, s, pos + |w|, ts[1..], out');
    }
  }

  lemma {:induction false} CodesSound(ll: seq<nat>, dl: seq<nat>, s: seq<bit>, pos: nat, out: seq<byte>)
    returns (ts: seq<Token>)
    requires Codes(ll, dl) && pos <= |s| && InflateCodes(ll, dl, s, pos, out, Unbounded).err == 0
    ensures TokensOk(ll, dl, ts, out) && HasCode(ll, 256)
    ensures var r := InflateCodes(ll, dl, s, pos, out, Unbounded);
            && At(s, pos, EncodeTokens(ll, dl, ts, out))
            && r.pos == pos + |EncodeTokens(ll, dl, ts, out)|
            && r.out == ExpandTokens(ll, dl, ts, out)
    decreases |s| - pos
  {
    hide EncodeToken, TokenOk, Chunk, Decodable, Reaches, ReadCopy;
    match ReadToken(ll, dl, s, pos, |out|)
    case EndOfBlock(p) =>
      ts := [];
    case Emit(t, p) =>
      TokenSound(ll, dl, s, pos, |out|);
      var out' := out + Chunk(t, out);
      var rest := CodesSound(ll, dl, s, p, out');
      ts := [t] + rest;
      assert ts[1..] == rest;
      AtConcat(s, pos, EncodeToken(ll, dl, t), EncodeTokens(ll, dl, rest, out'));
  }

  // ----- code descriptions ---------------------------------------------------

  lemma ItemComplete(cl: seq<nat>, s: seq<bit>, pos: nat, n: nat, it: Item)
    requires |cl| == 19 && Decodable(cl) && ItemOk(cl, it) && (it.Repeat? ==> n > 0)
    requires At(s, pos, EncodeItem(cl, it))
    ensures ReadItem(cl, s, pos, n) == GotItem(it, pos + |EncodeItem(cl, it)|)
  {
    hide ReadSymbol, Codeword, Decodable, At, Field, LsbBits, Pow2;
    var y := it.Sym();
    AtConcat(s, pos, Codeword(cl, y), LsbBits(it.Extra(), it.ExtraBits()));
    ReadSymbolExact(cl, s, pos, y);
    FieldExact(s, pos + cl[y], it.ExtraBits(), it.Extra());
  }

  lemma ItemSound(cl: seq<nat>, s: seq<bit>, pos: nat, n: nat)
    requires |cl| == 19 && ReadItem(cl, s, pos, n).GotItem?
    ensures var r := ReadItem(cl, s, pos, n);
            ItemOk(cl, r.item) && At(s, pos, EncodeItem(cl, r.item)) && r.pos == pos + |EncodeItem(cl, r.item)|
  {
    hide ReadSymbol, Codeword, At, Field, LsbBits, Pow2;
    var it := ReadItem(cl, s, pos, n).item;
    assert Pow2(0) == 1 by {
      NoBits();
    }
    var y := it.Sym();
    FieldExact(s, pos + cl[y], it.ExtraBits(), it.Extra());
    if it.Single? {
      EmptyField(s, pos + cl[y]);
    }
    AtConcat(s, pos, Codeword(cl, y), LsbBits(it.Extra(), it.ExtraBits()));
  }

  lemma NoBits()
    ensures Pow2(0) == 1
  {
  }

  lemma EmptyField(s: seq<bit>, pos: nat)
    requires pos <= |s|
    ensures Field(s, pos, 0) == 0
  {
  }

  lemma {:induction false} LengthsComplete(cl: seq<nat>, s: seq<bit>, pos: nat, items: seq<Item>, acc: seq<nat>,
                                           want: nat)
    requires |cl| == 19 && Decodable(cl) && ItemsOk(cl, items, acc, want)
    requires pos <= |s| && |acc| <= want && At(s, pos, EncodeItems(cl, items, acc, want))
    ensures ReadLengths(cl, s, pos, acc, want)
         == GotLengths(ExpandItems(cl, items, acc, want), pos + |EncodeItems(cl, items, acc, want)|)
    decreases |items|
  {
    hide EncodeItem, ItemOk, AddRun, Decodable, ReadItem, At;
    if items == [] {
    } else {
      var w, acc' := EncodeItem(cl, items[0]), AddRun(items[0], acc);
      AtConcat(s, pos, w, EncodeItems(cl, items[1..], acc', want));
      ItemComplete(cl, s, pos, |acc|, items[0]);
      LengthsComplete(cl, s, pos + |w|, items[1..], acc', want);
    }
  }

  lemma {:induction false} LengthsSound(cl: seq<nat>, s: seq<bit>, pos: nat, acc: seq<nat>, want: nat)
    returns (items: seq<Item>)
    requires |cl| == 19 && pos <= |s| && |acc| <= want && ReadLengths(cl, s, pos, acc, want).GotLengths?
    ensures ItemsOk(cl, items, acc, want)
    ensures var r := ReadLengths(cl, s, pos, acc, want);
            && At(s, pos, EncodeItems(cl, items, acc, want))
            && r.pos == pos + |EncodeItems(cl, items, acc, want)|
            && r.ls == ExpandItems(cl, items, acc, want)
    decreases |s| - pos
  {
    hide EncodeItem, ItemOk, AddRun, ReadItem;
    if |acc| == want {
      items := [];
    } else {
      var r := ReadItem(cl, s, pos, |acc|);
      ItemSound(cl, s, pos, |acc|);
      var acc' := AddRun(r.item, acc);
      var rest := LengthsSound(cl, s, r.pos, acc', want);
      items := [r.item] + rest;
      assert items[1..] == rest;
      AtConcat(s, pos, EncodeItem(cl, r.item), EncodeItems(cl, rest, acc', want));
    }
  }

  lemma {:induction false} RawExact(s: seq<bit>, pos: nat, raw: seq<nat>)
    requires pos + 3 * |raw| <= |s|
    ensures RawOk(raw) && At(s, pos, EncodeRaw(raw)) <==> ReadRaw(s, pos, |raw|) == raw
    decreases raw
  {
    hide At, LsbBits, Field;
    if raw == [] {
      EmptyAt(s, pos);
    } else {
      var h, t := raw[0], raw[1..];
      assert Pow2(3) == 8;
      RawExact(s, pos + 3, t);
      AtConcat(s, pos, LsbBits(h, 3), EncodeRaw(t));
      assert raw == [h] + t;
      assert RawOk(raw) <==> h < 8 && RawOk(t) by {
        if RawOk(raw) {
          forall i | 0 <= i < |t| ensures t[i] < 8 { assert t[i] == raw[i + 1]; }
        }
      }
      if h < 8 {
        FieldExact(s, pos, 3, h);
      }
    }
  }

  lemma EmptyAt(s: seq<bit>, pos: nat)
    requires pos <= |s|
    ensures At(s, pos, [])
  {
  }

  lemma HeaderAt(h: Header, s: seq<bit>, pos: nat)
    requires HeaderItemsOk(h)
    ensures var cl := Scatter(h.raw);
            var p := pos + 14 + 3 * |h.raw|;
            var w := EncodeItems(cl, h.items, [], h.nlen + h.ndist);
            && |EncodeHeader(h)| == 14 + 3 * |h.raw| + |w|
            && (At(s, pos, EncodeHeader(h)) <==>
                && pos + 14 <= |s| && Field(s, pos, 5) == h.nlen - 257
                && Field(s, pos + 5, 5) == h.ndist - 1 && Field(s, pos + 10, 4) == |h.raw| - 4
                && p <= |s| && ReadRaw(s, pos + 14, |h.raw|) == h.raw && At(s, p, w))
  {
    hide At, LsbBits, Field, EncodeRaw, ReadRaw, EncodeItems, ItemsOk, Scatter, RawOk, Complete;
    var a, b, c := LsbBits(h.nlen - 257, 5), LsbBits(h.ndist - 1, 5), LsbBits(|h.raw| - 4, 4);
    var d, e := EncodeRaw(h.raw), EncodeItems(Scatter(h.raw), h.items, [], h.nlen + h.ndist);
    AtConcat(s, pos, (a + b) + c, d + e);
    AtConcat(s, pos, a + b, c);
    AtConcat(s, pos, a, b);
    AtConcat(s, pos + 14, d, e);
    assert Pow2(5) == 32 && Pow2(4) == 16;
    FieldExact(s, pos, 5, h.nlen - 257);
    FieldExact(s, pos + 5, 5, h.ndist - 1);
    FieldExact(s, pos + 10, 4, |h.raw| - 4);
    if pos + 14 + 3 * |h.raw| <= |s| {
      RawExact(s, pos + 14, h.raw);
    } else {
      TooLong(s, pos + 14, d);
    }
  }

  lemma TooLong(s: seq<bit>, pos: nat, w: seq<bit>)
    requires pos + |w| > |s|
    ensures !At(s, pos, w)
  {
  }

  lemma ScatterDecodable(raw: seq<nat>)
    requires RawOk(raw) && (Complete(Scatter(raw)) || Unused(Scatter(raw)))
    ensures Decodable(Scatter(raw))
  {
    ScatterLengths(raw);
    hide Scatter;
    if Unused(Scatter(raw)) {
      UnusedKraft(Scatter(raw), MAXBITS);
    }
  }

  lemma {:induction false} UnusedKraft(ls: seq<nat>, m: nat)
    requires Unused(ls)
    ensures Kraft(ls, m) == 0
  {
    if ls == [] {
    } else {
      UnusedKraft(ls[..|ls| - 1], m);
    }
  }

  lemma HeaderComplete(s: seq<bit>, pos: nat, h: Header)
    requires HeaderOk(h) && pos <= |s| && At(s, pos, EncodeHeader(h))
    ensures ReadHeader(s, pos) == GotHeader(h.nlen, HeaderLengths(h), pos + |EncodeHeader(h)|)
  {
    hide At, LsbBits, Field, EncodeRaw, ReadRaw, EncodeItems, ItemsOk, ExpandItems, Scatter, RawOk, Complete, Unused,
      EncodeHeader, ReadLengths, Decodable, DistanceCodeOk;
    var cl, p := Scatter(h.raw), pos + 14 + 3 * |h.raw|;
    HeaderAt(h, s, pos);
    ScatterDecodable(h.raw);
    LengthsComplete(cl, s, p, h.items, [], h.nlen + h.ndist);
  }

  lemma HeaderSound(s: seq<bit>, pos: nat) returns (h: Header)
    requires pos <= |s| && ReadHeader(s, pos).GotHeader?
    ensures HeaderOk(h) && At(s, pos, EncodeHeader(h))
    ensures ReadHeader(s, pos) == GotHeader(h.nlen, HeaderLengths(h), pos + |EncodeHeader(h)|)
  {
    hide At, LsbBits, Field, EncodeRaw, ReadRaw, EncodeItems, ItemsOk, ExpandItems, Scatter, RawOk, Complete, Unused,
      EncodeHeader, ReadLengths, Decodable, DistanceCodeOk;
    var nlen, ndist, ncode := Field(s, pos, 5) + 257, Field(s, pos + 5, 5) + 1, Field(s, pos + 10, 4) + 4;
    assert Pow2(4) == 16;
    var raw := ReadRaw(s, pos + 14, ncode);
    var cl, p := Scatter(raw), pos + 14 + 3 * ncode;
    RawExact(s, pos + 14, raw);
    var items := LengthsSound(cl, s, p, [], nlen + ndist);
    if Unused(cl) {
      ScatterDecodable(raw);
      UnusedReadsNothing(cl, items, nlen + ndist);
    }
    h := Header(nlen, ndist, raw, items);
    HeaderAt(h, s, pos);
  }

  /** The empty code, which construct() calls complete, describes nothing. */
  lemma UnusedReadsNothing(cl: seq<nat>, items: seq<Item>, want: nat)
    requires Unused(cl) && ItemsOk(cl, items, [], want)
    ensures want == 0
  {
  }

  // ----- code lengths stay usable --------------------------------------------

  lemma {:induction false} ItemsLengths(cl: seq<nat>, items: seq<Item>, acc: seq<nat>, want: nat)
    requires ItemsOk(cl, items, acc, want) && Lengths(acc)
    ensures Lengths(ExpandItems(cl, items, acc, want))
    decreases |items|
  {
    hide Codeword;
    if items == [] {
    } else {
      assert Lengths(AddRun(items[0], acc));
      ItemsLengths(cl, items[1..], AddRun(items[0], acc), want);
    }
  }

  lemma {:induction false} OnlySymbolKraft(ls: seq<nat>, y: nat, m: nat)
    requires OnlySymbol(ls, y) && m >= 1
    ensures Kraft(ls, m) == Pow2(m - 1)
  {
    var n := |ls| - 1;
    if y == n {
      UnusedKraft(ls[..n], m);
    } else {
      OnlySymbolKraft(ls[..n], y, m);
    }
  }

  lemma OneBitKraft(ls: seq<nat>, y: nat)
    requires OnlySymbol(ls, y)
    ensures KraftSum(ls) < Pow2(MAXBITS)
  {
    OnlySymbolKraft(ls, y, MAXBITS);
    assert Pow2(MAXBITS) == 2 * Pow2(MAXBITS - 1);
  }

  lemma DescribedCodes(ls: seq<nat>, nlen: nat)
    requires Lengths(ls) && nlen <= MAXLCODES && nlen <= |ls| <= nlen + MAXDCODES
    requires LiteralCodeOk(ls[..nlen]) && DistanceCodeOk(ls[nlen..])
    ensures Codes(ls[..nlen], ls[nlen..])
  {
    var ll, dl := ls[..nlen], ls[nlen..];
    assert Lengths(ll) && Lengths(dl);
    hide Kraft;
    if !Complete(ll) {
      OneBitKraft(ll, 256);
    }
    if Unused(dl) {
      UnusedKraft(dl, MAXBITS);
    } else if !Complete(dl) {
      var y: nat :| OnlySymbol(dl, y);
      OneBitKraft(dl, y);
    }
  }

  lemma HeaderCodes(h: Header)
    requires HeaderOk(h)
    ensures Codes(HeaderLengths(h)[..h.nlen], HeaderLengths(h)[h.nlen..])
    ensures HasCode(HeaderLengths(h)[..h.nlen], 256)
  {
    hide ItemsOk, ExpandItems, Scatter, Complete, Codes, DistanceCodeOk;
    ItemsLengths(Scatter(h.raw), h.items, [], h.nlen + h.ndist);
    DescribedCodes(HeaderLengths(h), h.nlen);
  }

  lemma KraftAppend(ls: seq<nat>, v: nat, m: nat)
    requires 1 <= v <= m
    ensures Kraft(ls + [v], m) == Kraft(ls, m) + Pow2(m - v)
  {
    hide Pow2;
    assert (ls + [v])[..|ls|] == ls;
  }

  lemma {:induction false} KraftRun(ls: seq<nat>, v: nat, n: nat, m: nat)
    requires 1 <= v <= m
    ensures Kraft(ls + Repeated(v, n), m) == Kraft(ls, m) + n * Pow2(m - v)
    decreases n
  {
    hide Kraft, Pow2, Repeated;
    if n == 0 {
      assert ls + Repeated(v, n) == ls;
    } else {
      KraftRun(ls, v, n - 1, m);
      assert ls + Repeated(v, n) == ls + Repeated(v, n - 1) + [v];
      KraftAppend(ls + Repeated(v, n - 1), v, m);
      Distribute(n, Pow2(m - v));
    }
  }

  lemma Distribute(n: int, p: int)
    ensures (n - 1) * p + p == n * p
  {
  }

  lemma FixedRuns()
    ensures FixedLiteral() == [] + Repeated(8, 144) + Repeated(9, 112) + Repeated(7, 24) + Repeated(8, 8)
    ensures FixedDistance() == [] + Repeated(5, 30)
    ensures Lengths(FixedLiteral()) && Lengths(FixedDistance())
  {
  }

  lemma FixedLiteralComplete()
    ensures Complete(FixedLiteral())
  {
    var a, b, c, d := Repeated(8, 144), Repeated(9, 112), Repeated(7, 24), Repeated(8, 8);
    FixedRuns();
    assert Pow2(7) == 128 && Pow2(6) == 64 && Pow2(8) == 256 && Pow2(15) == 32768;
    hide Kraft, Pow2, Repeated, FixedLiteral, FixedDistance;
    UnusedKraft([], MAXBITS);
    KraftRun([], 8, 144, MAXBITS);
    KraftRun([] + a, 9, 112, MAXBITS);
    KraftRun([] + a + b, 7, 24, MAXBITS);
    KraftRun([] + a + b + c, 8, 8, MAXBITS);
  }

  lemma FixedDistanceDecodable()
    ensures Decodable(FixedDistance())
  {
    FixedRuns();
    assert Pow2(10) == 1024 && Pow2(15) == 32768;
    hide Kraft, Pow2, Repeated, FixedLiteral, FixedDistance;
    UnusedKraft([], MAXBITS);
    KraftRun([], 5, 30, MAXBITS);
  }

  lemma FixedCodes()
    ensures Codes(FixedLiteral(), FixedDistance())
    ensures HasCode(FixedLiteral(), 256)
  {
    FixedRuns();
    FixedLiteralComplete();
    FixedDistanceDecodable();
    hide KraftSum, Pow2;
  }

  // ----- stored blocks -------------------------------------------------------

  lemma Halves(s: seq<bit>, p: nat)
    requires p + 16 <= |s|
    ensures Field(s, p, 16) == Field(s, p, 8) + 256 * Field(s, p + 8, 8)
    ensures Field(s, p, 8) < 256 && Field(s, p + 8, 8) < 256
  {
    Pow2Eight();
    hide Lsb;
    assert s[p..p + 16] == s[p..p + 8] + s[p + 8..p + 16];
    LsbAppend(s[p..p + 8], s[p + 8..p + 16]);
  }

  /** Comparing the two halves with the complement compares the whole. */
  lemma ComplementHalves(s: seq<bit>, p: nat, len: nat)
    requires p + 16 <= |s| && len < 65536
    ensures Field(s, p, 16) == 65535 - len <==>
            Field(s, p, 8) == 255 - len % 256 && Field(s, p + 8, 8) == 255 - len / 256
  {
    Halves(s, p);
  }

  /** Length, complement and bytes of a stored block stand at p. */
  ghost predicate StoredBody(s: seq<bit>, p: nat, data: seq<byte>) {
    && p + 32 + 8 * |data| <= |s|
    && Field(s, p, 16) == |data| && Field(s, p + 16, 16) == 65535 - |data|
    && Bytes(s, p + 32, |data|) == data
  }

  lemma StoredBodyAt(s: seq<bit>, p: nat, data: seq<byte>)
    requires |data| < 65536
    ensures At(s, p, StoredLength(|data|) + BitsOf(data)) <==> StoredBody(s, p, data)
  {
    hide At, StoredLength, BitsOf, Bytes, Field;
    AtConcat(s, p, StoredLength(|data|), BitsOf(data));
    StoredLengthAt(s, p, |data|);
    BytesExact(s, p + 32, data);
  }

  lemma StoredAt(s: seq<bit>, pos: nat, pad: seq<bit>, data: seq<byte>, out: seq<byte>)
    requires BlockOk(Stored(pad, data), pos, out)
    ensures var w := EncodeBlock(Stored(pad, data), pos, out);
            && |w| == |pad| + 32 + 8 * |data|
            && (At(s, pos, w) <==> At(s, pos, pad) && StoredBody(s, pos + |pad|, data))
  {
    hide At, StoredLength, BitsOf, StoredBody, ToBoundary;
    AtConcat(s, pos, pad, StoredLength(|data|) + BitsOf(data));
    StoredBodyAt(s, pos + |pad|, data);
  }

  lemma StoredLengthAt(s: seq<bit>, p: nat, len: nat)
    requires len < 65536
    ensures At(s, p, StoredLength(len)) <==>
            p + 32 <= |s| && Field(s, p, 16) == len && Field(s, p + 16, 16) == 65535 - len
  {
    hide At, LsbBits, Field, Lsb, Pow2;
    SixteenBits();
    AtConcat(s, p, LsbBits(len, 16), LsbBits(65535 - len, 16));
    FieldExact(s, p, 16, len);
    FieldExact(s, p + 16, 16, 65535 - len);
  }

  lemma SixteenBits()
    ensures Pow2(16) == 65536
  {
    Pow2Eight();
    Pow2Add(8, 8);
  }

  lemma StoredReads(s: seq<bit>, pos: nat, out: seq<byte>, data: seq<byte>)
    requires pos <= |s| && |data| < 65536 && StoredBody(s, pos + ToBoundary(pos), data)
    ensures InflateStored(s, pos, out, Unbounded)
         == Outcome(0, out + data, pos + ToBoundary(pos) + 32 + 8 * |data|)
  {
    hide InflateAligned, StoredBody, ToBoundary;
    AlignedReads(s, pos + ToBoundary(pos), out, data);
  }

  lemma AlignedReads(s: seq<bit>, p: nat, out: seq<byte>, data: seq<byte>)
    requires |data| < 65536 && StoredBody(s, p, data)
    ensures InflateAligned(s, p, out, Unbounded) == Outcome(0, out + data, p + 32 + 8 * |data|)
  {
    hide Bytes, Field;
    ComplementHalves(s, p + 16, |data|);
  }

  lemma StoredRead(s: seq<bit>, pos: nat, out: seq<byte>) returns (data: seq<byte>)
    requires pos <= |s| && InflateStored(s, pos, out, Unbounded).err == 0
    ensures |data| < 65536 && StoredBody(s, pos + ToBoundary(pos), data)
  {
    hide Bytes, Field, ToBoundary;
    var p := pos + ToBoundary(pos);
    SixteenBits();
    data := Bytes(s, p + 32, Field(s, p, 16));
    ComplementHalves(s, p + 16, |data|);
  }

  lemma StoredComplete(s: seq<bit>, pos: nat, pad: seq<bit>, data: seq<byte>, out: seq<byte>)
    requires pos <= |s| && BlockOk(Stored(pad, data), pos, out)
    requires At(s, pos, EncodeBlock(Stored(pad, data), pos, out))
    ensures InflateStored(s, pos, out, Unbounded)
         == Outcome(0, out + data, pos + |EncodeBlock(Stored(pad, data), pos, out)|)
  {
    hide At, EncodeBlock, StoredBody, ToBoundary, InflateStored;
    StoredAt(s, pos, pad, data, out);
    StoredReads(s, pos, out, data);
  }

  lemma StoredSound(s: seq<bit>, pos: nat, out: seq<byte>) returns (b: Block)
    requires pos <= |s| && InflateStored(s, pos, out, Unbounded).err == 0
    ensures b.Stored? && BlockOk(b, pos, out) && At(s, pos, EncodeBlock(b, pos, out))
    ensures InflateStored(s, pos, out, Unbounded)
         == Outcome(0, ExpandBlock(b, pos, out), pos + |EncodeBlock(b, pos, out)|)
  {
    hide EncodeBlock, StoredBody, ToBoundary, InflateStored;
    var data := StoredRead(s, pos, out);
    assert pos + ToBoundary(pos) <= |s| by {
      BodyFits(s, pos + ToBoundary(pos), data);
    }
    b := Stored(s[pos..pos + ToBoundary(pos)], data);
    StoredAt(s, pos, b.pad, data, out);
    StoredReads(s, pos, out, data);
  }

  lemma BodyFits(s: seq<bit>, p: nat, data: seq<byte>)
    requires StoredBody(s, p, data)
    ensures p <= |s|
  {
  }

  // ----- blocks and streams --------------------------------------------------

  lemma BlockComplete(s: seq<bit>, pos: nat, b: Block, out: seq<byte>)
    requires pos <= |s| && BlockOk(b, pos, out) && At(s, pos, EncodeBlock(b, pos, out))
    ensures InflateBlock(BlockType(b), s, pos, out, Unbounded)
         == Outcome(0, ExpandBlock(b, pos, out), pos + |EncodeBlock(b, pos, out)|)
  {
    hide At, TokensOk, EncodeTokens, ExpandTokens, InflateCodes, InflateStored, HeaderItemsOk, HeaderLengths,
      EncodeHeader, ReadHeader, Codes, HasCode, ToBoundary, BitsOf, LsbBits;
    match b
    case Stored(pad, data) =>
      StoredComplete(s, pos, pad, data, out);
    case Fixed(ts) =>
      FixedCodes();
      CodesComplete(FixedLiteral(), FixedDistance(), s, pos, ts, out);
    case Dynamic(h, ts) =>
      HeaderCodes(h);
      var ll, dl, w := HeaderLengths(h)[..h.nlen], HeaderLengths(h)[h.nlen..], EncodeHeader(h);
      AtConcat(s, pos, w, EncodeTokens(ll, dl, ts, out));
      HeaderComplete(s, pos, h);
      CodesComplete(ll, dl, s, pos + |w|, ts, out);
  }

  lemma BlockSound(kind: nat, s: seq<bit>, pos: nat, out: seq<byte>) returns (b: Block)
    requires pos <= |s| && InflateBlock(kind, s, pos, out, Unbounded).err == 0
    ensures BlockType(b) == kind && BlockOk(b, pos, out) && At(s, pos, EncodeBlock(b, pos, out))
    ensures InflateBlock(kind, s, pos, out, Unbounded)
         == Outcome(0, ExpandBlock(b, pos, out), pos + |EncodeBlock(b, pos, out)|)
  {
    hide At, TokensOk, EncodeTokens, ExpandTokens, InflateCodes, InflateStored, HeaderItemsOk, HeaderLengths,
      EncodeHeader, ReadHeader, Codes, HasCode, ToBoundary, BitsOf, LsbBits;
    if kind == 0 {
      b := StoredSound(s, pos, out);
    } else if kind == 1 {
      FixedCodes();
      var ts := CodesSound(FixedLiteral(), FixedDistance(), s, pos, out);
      b := Fixed(ts);
    } else {
      var h := HeaderSound(s, pos);
      HeaderCodes(h);
      var ll, dl, w := HeaderLengths(h)[..h.nlen], HeaderLengths(h)[h.nlen..], EncodeHeader(h);
      var ts := CodesSound(ll, dl, s, pos + |w|, out);
      b := Dynamic(h, ts);
      AtConcat(s, pos, w, EncodeTokens(ll, dl, ts, out));
    }
  }

  /** The three bits in front of a block. */
  lemma MarkAt(s: seq<bit>, pos: nat, last: bit, kind: nat)
    requires kind < 4
    ensures At(s, pos, [last] + LsbBits(kind, 2)) <==>
            pos + 3 <= |s| && s[pos] == last && Field(s, pos + 1, 2) == kind
  {
    AtConcat(s, pos, [last], LsbBits(kind, 2));
    assert Pow2(2) == 4;
    FieldExact(s, pos + 1, 2, kind);
    hide LsbBits, Field;
    assert At(s, pos, [last]) <==> pos + 1 <= |s| && s[pos] == last;
  }

  lemma MarkedComplete(s: seq<bit>, pos: nat, b: Block, last: bit, out: seq<byte>)
    requires pos <= |s| && EncodeMarked(b, last, pos, out).Encoded?
    requires At(s, pos, EncodeMarked(b, last, pos, out).bits)
    ensures var e := EncodeMarked(b, last, pos, out);
            && pos + 3 <= |s| && s[pos] == last
            && InflateBlock(Field(s, pos + 1, 2), s, pos + 3, out, Unbounded) == Outcome(0, e.out, pos + |e.bits|)
  {
    hide At, BlockOk, EncodeBlock, ExpandBlock, InflateBlock, LsbBits, Field;
    AtConcat(s, pos, [last] + LsbBits(BlockType(b), 2), EncodeBlock(b, pos + 3, out));
    MarkAt(s, pos, last, BlockType(b));
    BlockComplete(s, pos + 3, b, out);
  }

  lemma MarkedSound(s: seq<bit>, pos: nat, out: seq<byte>) returns (b: Block)
    requires pos + 3 <= |s| && InflateBlock(Field(s, pos + 1, 2), s, pos + 3, out, Unbounded).err == 0
    ensures var e := EncodeMarked(b, s[pos], pos, out);
            && e.Encoded? && At(s, pos, e.bits)
            && InflateBlock(Field(s, pos + 1, 2), s, pos + 3, out, Unbounded) == Outcome(0, e.out, pos + |e.bits|)
  {
    hide At, BlockOk, EncodeBlock, ExpandBlock, InflateBlock, LsbBits, Field;
    b := BlockSound(Field(s, pos + 1, 2), s, pos + 3, out);
    MarkAt(s, pos, s[pos], BlockType(b));
    AtConcat(s, pos, [s[pos]] + LsbBits(BlockType(b), 2), EncodeBlock(b, pos + 3, out));
  }

  lemma {:induction false} StreamComplete(s: seq<bit>, pos: nat, bs: seq<Block>, out: seq<byte>)
    requires pos <= |s| && Encode(bs, pos, out).Encoded? && At(s, pos, Encode(bs, pos, out).bits)
    ensures var e := Encode(bs, pos, out);
            InflateFrom(s, pos, out, Unbounded) == Outcome(0, e.out, pos + |e.bits|)
    decreases |bs|
  {
    hide At, EncodeMarked, InflateBlock, Field;
    if |bs| == 1 {
      MarkedComplete(s, pos, bs[0], 1, out);
    } else {
      var e := EncodeMarked(bs[0], 0, pos, out);
      AtConcat(s, pos, e.bits, Encode(bs[1..], pos + |e.bits|, e.out).bits);
      MarkedComplete(s, pos, bs[0], 0, out);
      StreamComplete(s, pos + |e.bits|, bs[1..], e.out);
    }
  }

  lemma {:induction false} StreamSound(s: seq<bit>, pos: nat, out: seq<byte>) returns (bs: seq<Block>)
    requires pos <= |s| && InflateFrom(s, pos, out, Unbounded).err == 0
    ensures var e := Encode(bs, pos, out);
            && e.Encoded? && At(s, pos, e.bits)
            && InflateFrom(s, pos, out, Unbounded) == Outcome(0, e.out, pos + |e.bits|)
    decreases |s| - pos
  {
    hide At, EncodeMarked, InflateBlock, Field;
    var b := MarkedSound(s, pos, out);
    if s[pos] == 1 {
      bs := [b];
    } else {
      var e := EncodeMarked(b, 0, pos, out);
      var rest := StreamSound(s, pos + |e.bits|, e.out);
      bs := [b] + rest;
      assert bs[1..] == rest && rest != [];
      AtConcat(s, pos, e.bits, Encode(rest, pos + |e.bits|, e.out).bits);
    }
  }

  /** Bits w, whatever follows them, inflate to out exactly when they encode
      blocks that stand for out. */
  lemma InflateExact(s: seq<bit>, k: nat, out: seq<byte>)
    requires k <= |s|
    ensures Inflated(s, Unbounded) == Outcome(0, out, k) <==> StandsFor(s[..k], out)
  {
    hide Encode, InflateFrom;
    if Inflated(s, Unbounded) == Outcome(0, out, k) {
      var bs := StreamSound(s, 0, []);
      assert Encode(bs, 0, []) == Encoded(s[..k], out);
    }
    if StandsFor(s[..k], out) {
      var bs :| Encode(bs, 0, []) == Encoded(s[..k], out);
      StreamComplete(s, 0, bs, []);
    }
  }
}
