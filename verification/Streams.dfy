/**
  How outcomes depend on the input and on the output space: bits past those
  consumed do not matter, missing bits are reported as such, and a scan
  predicts every writing run.
 */
module Streams {
  import opened Bits
  import opened Huffman
  import opened Deflate
  import opened Inflate
  import opened Exactness

  // ----- more input changes nothing but "out of input" -----------------------

  lemma FieldStable(s: seq<bit>, t: seq<bit>, pos: nat, n: nat)
    requires pos + n <= |s|
    ensures Field(s + t, pos, n) == Field(s, pos, n)
  {
    assert (s + t)[pos..pos + n] == s[pos..pos + n];
  }

  lemma {:induction false} BytesStable(s: seq<bit>, t: seq<bit>, pos: nat, n: nat)
    requires pos + 8 * n <= |s|
    ensures Bytes(s + t, pos, n) == Bytes(s, pos, n)
    decreases n
  {
    hide Field;
    if n == 0 {
    } else {
      FieldStable(s, t, pos, 8);
      BytesStable(s, t, pos + 8, n - 1);
    }
  }

  lemma {:induction false} RawStable(s: seq<bit>, t: seq<bit>, pos: nat, n: nat)
    requires pos + 3 * n <= |s|
    ensures ReadRaw(s + t, pos, n) == ReadRaw(s, pos, n)
    decreases n
  {
    hide Field;
    if n == 0 {
    } else {
      FieldStable(s, t, pos, 3);
      RawStable(s, t, pos + 3, n - 1);
    }
  }

  lemma CopyStable(dl: seq<nat>, s: seq<bit>, t: seq<bit>, lsym: nat, pos: nat, n: nat)
    requires Decodable(dl) && |dl| <= MAXDCODES && lsym < 29 && pos <= |s|
    requires var r := ReadCopy(dl, s, lsym, pos, n); r.Fail? ==> r.err != 2
    ensures ReadCopy(dl, s + t, lsym, pos, n) == ReadCopy(dl, s, lsym, pos, n)
  {
    hide ReadSymbol, Field, Decodable, LengthBase, LengthExtra, DistanceBase, DistanceExtra;
    var p := pos + LengthExtra(lsym);
    FieldStable(s, t, pos, LengthExtra(lsym));
    ReadSymbolStable(dl, s, t, p);
    var y := ReadSymbol(dl, s, p);
    if y.Symbol? {
      FieldStable(s, t, y.pos, DistanceExtra(y.sym));
    }
  }

  lemma TokenStable(ll: seq<nat>, dl: seq<nat>, s: seq<bit>, t: seq<bit>, pos: nat, n: nat)
    requires Codes(ll, dl)
    requires var r := ReadToken(ll, dl, s, pos, n); r.Fail? ==> r.err != 2
    ensures ReadToken(ll, dl, s + t, pos, n) == ReadToken(ll, dl, s, pos, n)
  {
    hide ReadSymbol, ReadCopy, Decodable;
    ReadSymbolStable(ll, s, t, pos);
    var y := ReadSymbol(ll, s, pos);
    if y.Symbol? && 256 < y.sym < 286 {
      CopyStable(dl, s, t, y.sym - 257, y.pos, n);
    }
  }

  lemma {:induction false} CodesStable(ll: seq<nat>, dl: seq<nat>, s: seq<bit>, t: seq<bit>, pos: nat,
                                       out: seq<byte>, cap: Cap)
    requires Codes(ll, dl) && pos <= |s| && InflateCodes(ll, dl, s, pos, out, cap).err != 2
    ensures InflateCodes(ll, dl, s + t, pos, out, cap) == InflateCodes(ll, dl, s, pos, out, cap)
    decreases |s| - pos
  {
    hide ReadToken, Codes, Chunk, Reaches;
    assert |dl| <= MAXDCODES by {
      CodesSize(ll, dl);
    }
    TokenStable(ll, dl, s, t, pos, |out|);
    var r := ReadToken(ll, dl, s, pos, |out|);
    if r.Emit? && cap.Fits(|out| + |Chunk(r.t, out)|) {
      CodesStable(ll, dl, s, t, r.pos, out + Chunk(r.t, out), cap);
    }
  }

  lemma CodesSize(ll: seq<nat>, dl: seq<nat>)
    requires Codes(ll, dl)
    ensures |dl| <= MAXDCODES
  {
  }

  lemma StoredStable(s: seq<bit>, t: seq<bit>, pos: nat, out: seq<byte>, cap: Cap)
    requires pos <= |s| && InflateStored(s, pos, out, cap).err != 2
    ensures InflateStored(s + t, pos, out, cap) == InflateStored(s, pos, out, cap)
  {
    hide Field, Bytes, ToBoundary;
    var p := pos + ToBoundary(pos);
    FieldStable(s, t, p, 16);
    FieldStable(s, t, p + 16, 8);
    FieldStable(s, t, p + 24, 8);
    var len := Field(s, p, 16);
    if p + 32 + 8 * len <= |s| {
      BytesStable(s, t, p + 32, len);
    }
  }

  lemma ItemStable(cl: seq<nat>, s: seq<bit>, t: seq<bit>, pos: nat, n: nat)
    requires |cl| == 19 && Decodable(cl)
    requires var r := ReadItem(cl, s, pos, n); r.BadItem? ==> r.err != 2
    ensures ReadItem(cl, s + t, pos, n) == ReadItem(cl, s, pos, n)
  {
    hide ReadSymbol, Field, Decodable;
    ReadSymbolStable(cl, s, t, pos);
    var y := ReadSymbol(cl, s, pos);
    if y.Symbol? && y.sym >= 16 && !(y.sym == 16 && n == 0) {
      FieldStable(s, t, y.pos, if y.sym == 16 then 2 else if y.sym == 17 then 3 else 7);
    }
  }

  lemma {:induction false} LengthsStable(cl: seq<nat>, s: seq<bit>, t: seq<bit>, pos: nat, acc: seq<nat>, want: nat)
    requires |cl| == 19 && Decodable(cl) && pos <= |s| && |acc| <= want
    requires var r := ReadLengths(cl, s, pos, acc, want); r.BadLengths? ==> r.err != 2
    ensures ReadLengths(cl, s + t, pos, acc, want) == ReadLengths(cl, s, pos, acc, want)
    decreases |s| - pos
  {
    hide ReadItem, Decodable, AddRun;
    if |acc| < want {
      ItemStable(cl, s, t, pos, |acc|);
      var r := ReadItem(cl, s, pos, |acc|);
      if r.GotItem? && |acc| + r.item.Run() <= want {
        LengthsStable(cl, s, t, r.pos, AddRun(r.item, acc), want);
      }
    }
  }

  lemma HeaderStable(s: seq<bit>, t: seq<bit>, pos: nat)
    requires pos <= |s|
    requires var r := ReadHeader(s, pos); r.BadHeader? ==> r.err != 2
    ensures ReadHeader(s + t, pos) == ReadHeader(s, pos)
  {
    hide Field, ReadRaw, ReadLengths, Scatter, Complete, Unused, Decodable, At, EncodeRaw, RawOk;
    FieldStable(s, t, pos, 5);
    FieldStable(s, t, pos + 5, 5);
    FieldStable(s, t, pos + 10, 4);
    var nlen, ndist, ncode := Field(s, pos, 5) + 257, Field(s, pos + 5, 5) + 1, Field(s, pos + 10, 4) + 4;
    var p := pos + 14 + 3 * ncode;
    if nlen <= MAXLCODES && ndist <= MAXDCODES && p <= |s| {
      RawStable(s, t, pos + 14, ncode);
      var raw := ReadRaw(s, pos + 14, ncode);
      RawExact(s, pos + 14, raw);
      if Complete(Scatter(raw)) || Unused(Scatter(raw)) {
        ScatterDecodable(raw);
        LengthsStable(Scatter(raw), s, t, p, [], nlen + ndist);
      }
    }
  }

  lemma DynamicStable(s: seq<bit>, t: seq<bit>, pos: nat, out: seq<byte>, cap: Cap)
    requires pos <= |s| && InflateDynamic(s, pos, out, cap).err != 2
    ensures InflateDynamic(s + t, pos, out, cap) == InflateDynamic(s, pos, out, cap)
  {
    hide ReadHeader, InflateCodes, HeaderOk, HeaderItemsOk, EncodeHeader, HeaderLengths;
    HeaderStable(s, t, pos);
    var r := ReadHeader(s, pos);
    if r.GotHeader? {
      var h := HeaderSound(s, pos);
      HeaderCodes(h);
      CodesStable(r.ls[..r.nlen], r.ls[r.nlen..], s, t, r.pos, out, cap);
    }
  }

  lemma BlockStable(kind: nat, s: seq<bit>, t: seq<bit>, pos: nat, out: seq<byte>, cap: Cap)
    requires pos <= |s| && InflateBlock(kind, s, pos, out, cap).err != 2
    ensures InflateBlock(kind, s + t, pos, out, cap) == InflateBlock(kind, s, pos, out, cap)
  {
    hide InflateStored, InflateCodes, InflateDynamic, Codes;
    if kind == 0 {
      StoredStable(s, t, pos, out, cap);
    } else if kind == 1 {
      FixedCodes();
      CodesStable(FixedLiteral(), FixedDistance(), s, t, pos, out, cap);
    } else if kind == 2 {
      DynamicStable(s, t, pos, out, cap);
    }
  }

  lemma {:induction false} FromStable(s: seq<bit>, t: seq<bit>, pos: nat, out: seq<byte>, cap: Cap)
    requires pos <= |s| && InflateFrom(s, pos, out, cap).err != 2
    ensures InflateFrom(s + t, pos, out, cap) == InflateFrom(s, pos, out, cap)
    decreases |s| - pos
  {
    hide InflateBlock, Field;
    FieldStable(s, t, pos + 1, 2);
    var kind := Field(s, pos + 1, 2);
    BlockStable(kind, s, t, pos + 3, out, cap);
    var r := InflateBlock(kind, s, pos + 3, out, cap);
    if r.err == 0 && s[pos] != 1 {
      FromStable(s, t, r.pos, r.out, cap);
    }
  }

  // ----- the output space decides only "out of space" ------------------------

  /** What a run with room for n bytes does, seen from the unbounded run u. */
  ghost predicate Capped(u: Outcome, r: Outcome, n: nat) {
    if |u.out| <= n then r == u else r.err == 1 && |r.out| <= n && r.out <= u.out
  }

  lemma {:induction false} CodesCapped(ll: seq<nat>, dl: seq<nat>, s: seq<bit>, pos: nat, out: seq<byte>, n: nat)
    requires |dl| <= MAXDCODES && pos <= |s| && |out| <= n
    ensures Capped(InflateCodes(ll, dl, s, pos, out, Unbounded), InflateCodes(ll, dl, s, pos, out, Room(n)), n)
    decreases |s| - pos
  {
    hide ReadToken, Chunk, Reaches;
    var r := ReadToken(ll, dl, s, pos, |out|);
    if r.Emit? {
      var out' := out + Chunk(r.t, out);
      if |out'| <= n {
        CodesCapped(ll, dl, s, r.pos, out', n);
      } else {
        assert out <= out' <= InflateCodes(ll, dl, s, r.pos, out', Unbounded).out;
      }
    }
  }

  lemma BlockCapped(kind: nat, s: seq<bit>, pos: nat, out: seq<byte>, n: nat)
    requires pos <= |s| && |out| <= n
    ensures Capped(InflateBlock(kind, s, pos, out, Unbounded), InflateBlock(kind, s, pos, out, Room(n)), n)
  {
    hide InflateCodes, ReadHeader, Field, ToBoundary;
    if kind == 1 {
      CodesCapped(FixedLiteral(), FixedDistance(), s, pos, out, n);
    } else if kind == 2 {
      var h := ReadHeader(s, pos);
      if h.GotHeader? {
        CodesCapped(h.ls[..h.nlen], h.ls[h.nlen..], s, h.pos, out, n);
      }
    }
  }

  lemma {:induction false} FromCapped(s: seq<bit>, pos: nat, out: seq<byte>, n: nat)
    requires pos <= |s| && |out| <= n
    ensures Capped(InflateFrom(s, pos, out, Unbounded), InflateFrom(s, pos, out, Room(n)), n)
    decreases |s| - pos
  {
    hide InflateBlock, Field;
    if pos + 3 <= |s| {
      var kind := Field(s, pos + 1, 2);
      BlockCapped(kind, s, pos + 3, out, n);
      var u := InflateBlock(kind, s, pos + 3, out, Unbounded);
      var r := InflateBlock(kind, s, pos + 3, out, Room(n));
      if |u.out| <= n && u.err == 0 && s[pos] != 1 {
        FromCapped(s, u.pos, u.out, n);
      } else if u.err == 0 && s[pos] != 1 {
        assert r.out <= u.out <= InflateFrom(s, u.pos, u.out, Unbounded).out;
      }
    }
  }

  // ----- what callers of puff() rely on --------------------------------------

  /** A scan that ends with code r after N bytes predicts the writing run: the
      same result with at least N bytes of room, code 1 with fewer. */
  lemma ScanPredictsWrite(s: seq<bit>, n: nat)
    ensures var u := Inflated(s, Unbounded);
            && (n >= |u.out| ==> Inflated(s, Room(n)) == u)
            && (n < |u.out| ==> Inflated(s, Room(n)).err == 1)
  {
    hide InflateFrom;
    FromCapped(s, 0, [], n);
  }

  /** With any output space: success is exactly that the bits consumed encode
      blocks standing for the output, and that the output fits. */
  lemma InflatesExactly(s: seq<bit>, cap: Cap, k: nat, out: seq<byte>)
    requires k <= |s|
    ensures Inflated(s, cap) == Outcome(0, out, k) <==>
            cap.Fits(|out|) && StandsFor(s[..k], out)
  {
    hide InflateFrom, StandsFor;
    InflateExact(s, k, out);
    if cap.Room? {
      ScanPredictsWrite(s, cap.n);
    }
  }

  /** Bytes touched to get to a bit position. */
  function BytesUsed(pos: nat): nat {
    (pos + 7) / 8
  }

  /** No encoding is a proper prefix of another, and the bits fix the bytes they stand for. */
  lemma SelfDelimiting(bs: seq<Block>, bs': seq<Block>, w: seq<bit>, w': seq<bit>, out: seq<byte>, out': seq<byte>)
    requires Encode(bs, 0, []) == Encoded(w, out)
    requires Encode(bs', 0, []) == Encoded(w', out')
    requires w <= w'
    ensures w == w' && out == out'
  {
    hide InflateFrom, Encode;
    assert w'[..|w|] == w && w'[..|w'|] == w';
    InflateExact(w', |w|, out);
    InflateExact(w', |w'|, out');
  }

  lemma CutSucceeds(s: seq<bit>, m: nat, cap: Cap)
    requires m <= |s| && Inflated(s, cap).err == 0 && Inflated(s, cap).pos <= m
    ensures Inflated(s[..m], cap) == Inflated(s, cap)
  {
    hide InflateFrom, Encode;
    var u := Inflated(s, Unbounded);
    if cap.Room? {
      ScanPredictsWrite(s, cap.n);
      ScanPredictsWrite(s[..m], cap.n);
    }
    InflateExact(s, u.pos, u.out);
    assert s[..m][..u.pos] == s[..u.pos];
    InflateExact(s[..m], u.pos, u.out);
  }

  lemma CommonPrefix(s: seq<bit>, s': seq<bit>, m: nat, cap: Cap)
    requires m <= |s| && m <= |s'| && s[..m] == s'[..m]
    requires Inflated(s, cap).err == 0 && Inflated(s, cap).pos <= m
    ensures Inflated(s', cap) == Inflated(s, cap)
  {
    hide InflateFrom;
    CutSucceeds(s, m, cap);
    FromStable(s'[..m], s'[m..], 0, [], cap);
    assert s'[..m] + s'[m..] == s';
  }

  lemma CutFails(s: seq<bit>, m: nat, cap: Cap)
    requires m <= |s| && Inflated(s, cap).err == 0 && m < Inflated(s, cap).pos
    ensures Inflated(s[..m], cap).err == 2
  {
    hide InflateFrom;
    assert s[..m] + s[m..] == s;
    if Inflated(s[..m], cap).err != 2 {
      FromStable(s[..m], s[m..], 0, [], cap);
    }
  }

  lemma BytesCover(pos: nat, m: nat)
    ensures BytesUsed(pos) <= m <==> pos <= 8 * m
  {
  }

  /** Inputs that agree on the bytes a successful run consumed inflate alike. */
  lemma PrefixDetermines(a: seq<byte>, b: seq<byte>, cap: Cap, k: nat)
    requires Inflated(BitsOf(a), cap).err == 0
    requires k == BytesUsed(Inflated(BitsOf(a), cap).pos)
    requires k <= |a| && k <= |b| && a[..k] == b[..k]
    ensures Inflated(BitsOf(b), cap) == Inflated(BitsOf(a), cap)
  {
    hide Inflated, BitsOf, BytesUsed;
    BitsOfPrefix(a, k);
    BitsOfPrefix(b, k);
    BytesCover(Inflated(BitsOf(a), cap).pos, k);
    CommonPrefix(BitsOf(a), BitsOf(b), 8 * k, cap);
  }

  /** Cutting off any byte a successful run consumed is reported as missing
      input. */
  lemma TruncationIsReported(a: seq<byte>, cap: Cap, m: nat)
    requires Inflated(BitsOf(a), cap).err == 0
    requires m <= |a| && m < BytesUsed(Inflated(BitsOf(a), cap).pos)
    ensures Inflated(BitsOf(a[..m]), cap).err == 2
  {
    hide Inflated, BitsOf, BytesUsed;
    BitsOfPrefix(a, m);
    BytesCover(Inflated(BitsOf(a), cap).pos, m);
    CutFails(BitsOf(a), 8 * m, cap);
  }
}
