/**
  construct() of zip/puff.c: the decoding tables of a canonical code, built by
  counting sort, and what its return value says about the code.
 */
module Tables {
  import opened Bits
  import opened Huffman
  import opened Deflate
  import opened Exactness

  /** struct huffman: how many symbols have each length, and the symbols in
      canonical order. */
  class Code {
    const count: array<nat>
    const symbol: array<nat>

    constructor (n: nat)
      ensures Valid() && symbol.Length == n
      ensures fresh(count) && fresh(symbol)
    {
      count := new nat[MAXBITS + 1];
      symbol := new nat[n];
    }

    ghost predicate Valid() {
      count.Length == MAXBITS + 1 && count != symbol
    }

    ghost predicate For(ls: seq<nat>)
      reads count, symbol
    {
      Valid() && Represents(ls, count[..], symbol[..])
    }

    /** The memory of the tables is not the given array's. */
    ghost predicate Apart(a: object?) {
      count as object != a && symbol as object != a
    }
  }

  lemma {:induction false} CountAll(ls: seq<nat>)
    ensures Count(ls, 0) == |ls| <==> Unused(ls)
  {
    if ls == [] {
    } else {
      var m := ls[..|ls| - 1];
      CountAll(m);
      assert Unused(ls) <==> Unused(m) && ls[|ls| - 1] == 0 by {
        assert ls == m + [ls[|ls| - 1]];
      }
    }
  }

  /** What construct() may return for a vector of lengths. */
  ghost predicate Left(ls: seq<nat>, left: int) {
    if Unused(ls) then left == 0
    else if KraftSum(ls) <= Pow2(MAXBITS) then left == Pow2(MAXBITS) - KraftSum(ls)
    else left < 0
  }

  lemma LeftAt(ls: seq<nat>, l: nat, left: int)
    requires 1 <= l <= MAXBITS && !Unused(ls)
    requires left == Pow2(l) - End(ls, l)
    ensures left < 0 ==> Left(ls, left)
    ensures l == MAXBITS ==> Left(ls, left)
  {
    hide Unused, Pow2;
    EndBounded(ls, l);
    KraftIsEnd(ls, MAXBITS);
  }

  lemma CountStep(ls: seq<nat>, i: nat, l: nat)
    requires i < |ls|
    ensures Count(ls[..i + 1], l) == Count(ls[..i], l) + (if ls[i] == l then 1 else 0)
  {
    assert ls[..i + 1][..i] == ls[..i];
  }

  lemma SortedStep(ls: seq<nat>, before: seq<nat>, after: seq<nat>, i: nat)
    requires Lengths(ls) && i < |ls| <= |before| && Sorted(ls, before, i)
    requires ls[i] != 0 && Slot(ls, i) < |before| && after == before[Slot(ls, i) := i]
    ensures Sorted(ls, after, i + 1)
  {
    forall y | 0 <= y < i && ls[y] != 0
      ensures Slot(ls, y) != Slot(ls, i)
    {
      if ls[i] < ls[y] {
        SlotOrder(ls, i, y);
      } else {
        SlotOrder(ls, y, i);
      }
    }
  }

  lemma NothingSorted(ls: seq<nat>, symbol: seq<nat>)
    ensures Sorted(ls, symbol, 0)
  {
  }

  lemma NothingToSort(ls: seq<nat>, symbol: seq<nat>, i: nat)
    requires i < |ls| && ls[i] == 0 && Sorted(ls, symbol, i)
    ensures Sorted(ls, symbol, i + 1)
  {
  }

  method CountLengths(h: Code, length: seq<nat>)
    requires h.Valid() && Lengths(length)
    modifies h.count
    ensures forall l :: 0 <= l <= MAXBITS ==> h.count[l] == Count(length, l)
  {
    for len := 0 to MAXBITS + 1
      invariant forall l :: 0 <= l < len ==> h.count[l] == 0
    {
      h.count[len] := 0;
    }
    for symbol := 0 to |length|
      invariant forall l :: 0 <= l <= MAXBITS ==> h.count[l] == Count(length[..symbol], l)
    {
      forall l | 0 <= l <= MAXBITS
        ensures Count(length[..symbol + 1], l) == Count(length[..symbol], l) + (if length[symbol] == l then 1 else 0)
      {
        CountStep(length, symbol, l);
      }
      hide Count;
      h.count[length[symbol]] := h.count[length[symbol]] + 1;
    }
    assert length[..|length|] == length;
  }

  /** The next free slot of every length when the symbols below i are placed. */
  ghost predicate Offsets(ls: seq<nat>, offs: seq<nat>, i: nat)
    requires i <= |ls|
  {
    |offs| == MAXBITS + 1 &&
    forall l :: 1 <= l <= MAXBITS ==> offs[l] == Base(ls, l) + Count(ls[..i], l)
  }

  lemma OffsetsStep(ls: seq<nat>, offs: seq<nat>, i: nat)
    requires i < |ls| && Lengths(ls) && Offsets(ls, offs, i)
    ensures ls[i] == 0 ==> Offsets(ls, offs, i + 1)
    ensures ls[i] != 0 ==> offs[ls[i]] == Slot(ls, i) && Offsets(ls, offs[ls[i] := offs[ls[i]] + 1], i + 1)
  {
    forall l | 1 <= l <= MAXBITS
      ensures Count(ls[..i + 1], l) == Count(ls[..i], l) + (if ls[i] == l then 1 else 0)
    {
      CountStep(ls, i, l);
    }
    hide Count, Base;
  }

  lemma BaseStep(ls: seq<nat>, l: nat)
    requires l >= 1
    ensures Base(ls, 1) == 0 && Base(ls, l + 1) == Base(ls, l) + Count(ls, l)
  {
  }

  lemma NoOffsets(ls: seq<nat>, offs: seq<nat>)
    requires |offs| == MAXBITS + 1 && forall l :: 1 <= l <= MAXBITS ==> offs[l] == Base(ls, l)
    ensures Offsets(ls, offs, 0)
  {
    hide Base;
    assert ls[..0] == [];
  }

  method MakeOffsets(h: Code, length: seq<nat>) returns (offs: array<nat>)
    requires h.Valid() && forall l :: 0 <= l <= MAXBITS ==> h.count[l] == Count(length, l)
    ensures fresh(offs) && offs.Length == MAXBITS + 1 && Offsets(length, offs[..], 0)
  {
    hide Base, Count, Offsets;
    offs := new nat[MAXBITS + 1];
    offs[1] := 0;
    BaseStep(length, 1);
    for len := 1 to MAXBITS
      invariant forall l :: 1 <= l <= len ==> offs[l] == Base(length, l)
    {
      BaseStep(length, len);
      offs[len + 1] := offs[len] + h.count[len];
    }
    NoOffsets(length, offs[..]);
  }

  method SortSymbols(h: Code, length: seq<nat>)
    requires h.Valid() && Lengths(length) && |length| <= h.symbol.Length
    requires forall l :: 0 <= l <= MAXBITS ==> h.count[l] == Count(length, l)
    modifies h.symbol
    ensures Sorted(length, h.symbol[..], |length|)
  {
    hide Offsets, Sorted, Count, Slot;
    var offs := MakeOffsets(h, length);
    assert Sorted(length, h.symbol[..], 0) by {
      NothingSorted(length, h.symbol[..]);
    }
    for symbol := 0 to |length|
      invariant offs.Length == MAXBITS + 1 && Offsets(length, offs[..], symbol)
      invariant Sorted(length, h.symbol[..], symbol)
    {
      OffsetsStep(length, offs[..], symbol);
      if length[symbol] == 0 {
        NothingToSort(length, h.symbol[..], symbol);
      } else {
        SlotBound(length, symbol);
        SortedStep(length, h.symbol[..], h.symbol[..][Slot(length, symbol) := symbol], symbol);
        h.symbol[offs[length[symbol]]] := symbol;
        offs[length[symbol]] := offs[length[symbol]] + 1;
      }
    }
  }

  lemma UnusedResult(ls: seq<nat>, symbol: seq<nat>)
    ensures Unused(ls) ==> Left(ls, 0) && Sorted(ls, symbol, |ls|)
  {
  }

  /** construct() returns a non-negative value exactly for the codes that can be
      decoded: those whose Kraft sum is at most one. */
  lemma NonNegativeIsDecodable(ls: seq<nat>, left: int)
    requires Lengths(ls) && Left(ls, left)
    ensures left >= 0 <==> Decodable(ls)
  {
    hide KraftSum, Pow2;
    if Unused(ls) {
      assert KraftSum(ls) == 0 by {
        UnusedSum(ls);
      }
    }
  }

  lemma UnusedSum(ls: seq<nat>)
    requires Unused(ls)
    ensures KraftSum(ls) == 0
  {
    UnusedKraft(ls, MAXBITS);
  }

  /** Zero for a complete or an empty code, negative for an over-subscribed one,
      positive for an incomplete one; the tables are usable unless negative. */
  method Construct(h: Code, length: seq<nat>) returns (left: int)
    requires h.Valid() && Lengths(length) && |length| <= h.symbol.Length
    modifies h.count, h.symbol
    ensures forall l :: 0 <= l <= MAXBITS ==> h.count[l] == Count(length, l)
    ensures Left(length, left)
    ensures left >= 0 ==> h.For(length)
  {
    hide Count, Left, Sorted, Unused;
    CountLengths(h, length);
    CountAll(length);
    assert Unused(length) ==> Left(length, 0) && Sorted(length, h.symbol[..], |length|) by {
      UnusedResult(length, h.symbol[..]);
    }
    if h.count[0] == |length| {
      return 0;
    }
    left := 1;
    for len := 1 to MAXBITS + 1
      invariant left == Pow2(len - 1) - End(length, len - 1)
      invariant left >= 0
    {
      left := 2 * left - h.count[len];
      if left < 0 {
        LeftAt(length, len, left);
        return left;
      }
    }
    LeftAt(length, MAXBITS, left);
    SortSymbols(h, length);
  }

  // ----- which codes dynamic() accepts ---------------------------------------

  ghost predicate ZeroOne(ls: seq<nat>) {
    forall i :: 0 <= i < |ls| ==> ls[i] <= 1
  }

  lemma {:induction false} ZeroOneCounts(ls: seq<nat>)
    ensures Count(ls, 0) + Count(ls, 1) <= |ls|
    ensures Count(ls, 0) + Count(ls, 1) == |ls| <==> ZeroOne(ls)
  {
    if ls == [] {
    } else {
      var m := ls[..|ls| - 1];
      ZeroOneCounts(m);
      assert ZeroOne(ls) <==> ZeroOne(m) && ls[|ls| - 1] <= 1 by {
        assert ls == m + [ls[|ls| - 1]];
      }
    }
  }

  lemma {:induction false} ZeroOneKraft(ls: seq<nat>, m: nat)
    requires ZeroOne(ls) && m >= 1
    ensures Kraft(ls, m) == Count(ls, 1) * Pow2(m - 1)
  {
    if ls == [] {
    } else {
      ZeroOneKraft(ls[..|ls| - 1], m);
      Distribute(Count(ls, 1), Pow2(m - 1));
    }
  }

  lemma OneIsOnly(ls: seq<nat>)
    requires ZeroOne(ls) && Count(ls, 1) == 1
    ensures OnlySymbol(ls, Nth(ls, 1, 0))
  {
    var y := Nth(ls, 1, 0);
    forall i | 0 <= i < |ls| && i != y
      ensures ls[i] == 0
    {
      if ls[i] == 1 {
        if i < y {
          RankStrict(ls, i, y);
        } else {
          RankStrict(ls, y, i);
          CountPrefix(ls, i, 1);
        }
      }
    }
  }

  /** The test dynamic() makes on construct()'s result accepts exactly complete
      codes, the empty code, and a single one-bit code. */
  lemma AcceptedCodes(ls: seq<nat>, left: int)
    requires Lengths(ls) && Left(ls, left)
    ensures left == 0 || (left > 0 && |ls| == Count(ls, 0) + Count(ls, 1)) <==> DistanceCodeOk(ls)
  {
    hide KraftSum, Pow2, Count;
    ZeroOneCounts(ls);
    if OneBit(ls) {
      var y: nat :| OnlySymbol(ls, y);
      OneBitKraft(ls, y);
    }
    if left > 0 && ZeroOne(ls) {
      SingleOneBit(ls);
    }
  }

  lemma SingleOneBit(ls: seq<nat>)
    requires ZeroOne(ls) && !Unused(ls) && KraftSum(ls) < Pow2(MAXBITS)
    ensures OneBit(ls)
  {
    hide Kraft, Count;
    ZeroOneCounts(ls);
    CountAll(ls);
    ZeroOneKraft(ls, MAXBITS);
    assert Pow2(MAXBITS) == 2 * Pow2(MAXBITS - 1);
    hide Pow2;
    BelowTwo(Count(ls, 1), Pow2(MAXBITS - 1));
    OneIsOnly(ls);
  }

  lemma BelowTwo(c: nat, p: nat)
    requires c * p < 2 * p
    ensures c < 2
  {
    assert (c - 2) * p < 0;
  }

  lemma AcceptedLiteralCodes(ls: seq<nat>, left: int)
    requires Lengths(ls) && Left(ls, left) && |ls| > 256 && ls[256] != 0
    ensures left == 0 || (left > 0 && |ls| == Count(ls, 0) + Count(ls, 1)) <==> LiteralCodeOk(ls)
  {
    AcceptedCodes(ls, left);
    hide Left, Complete;
    if OneBit(ls) {
      var y: nat :| OnlySymbol(ls, y);
      assert y == 256;
    }
  }
}
