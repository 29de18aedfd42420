/**
  Canonical Huffman codes as section 3.2.2 of RFC 1951 defines them from a
  vector of code lengths (0 means "symbol not used"), and the walk over the
  count and symbol tables by which zip/puff.c decodes them.
 */
module Huffman {
  import opened Bits

  const MAXBITS := 15

  ghost predicate Lengths(ls: seq<nat>) {
    forall i :: 0 <= i < |ls| ==> ls[i] <= MAXBITS
  }

  /** How many symbols have length l. */
  function Count(ls: seq<nat>, l: nat): (n: nat)
    ensures n <= |ls|
  {
    if ls == [] then 0
    else Count(ls[..|ls| - 1], l) + (if ls[|ls| - 1] == l then 1 else 0)
  }

  /** The first code of length l, step 2 of section 3.2.2 of RFC 1951. */
  function FirstCode(ls: seq<nat>, l: nat): nat
  {
    if l == 0 then 0
    else 2 * (FirstCode(ls, l - 1) + (if l == 1 then 0 else Count(ls, l - 1)))
  }

  /** The code of symbol y, step 3: consecutive in symbol order within a length. */
  function CodeValue(ls: seq<nat>, y: nat): nat
    requires y < |ls|
  {
    FirstCode(ls, ls[y]) + Count(ls[..y], ls[y])
  }

  function Codeword(ls: seq<nat>, y: nat): (w: seq<bit>)
    requires y < |ls|
    ensures |w| == ls[y]
  {
    MsbBits(CodeValue(ls, y), ls[y])
  }

  /** The code space taken by the used symbols, in units of 2^-m. */
  function Kraft(ls: seq<nat>, m: nat): nat {
    if ls == [] then 0
    else
      var l := ls[|ls| - 1];
      Kraft(ls[..|ls| - 1], m) + (if 1 <= l <= m then Pow2(m - l) else 0)
  }

  function KraftSum(ls: seq<nat>): nat {
    Kraft(ls, MAXBITS)
  }

  ghost predicate Decodable(ls: seq<nat>) {
    Lengths(ls) && KraftSum(ls) <= Pow2(MAXBITS)
  }

  ghost predicate Unused(ls: seq<nat>) {
    forall i :: 0 <= i < |ls| ==> ls[i] == 0
  }

  /** Codes of length at most l, counted as codes of length exactly l. */
  function End(ls: seq<nat>, l: nat): nat
  {
    if l == 0 then 0 else 2 * End(ls, l - 1) + Count(ls, l)
  }

  lemma {:induction false} EndIsFirstPlusCount(ls: seq<nat>, l: nat)
    requires l > 0
    ensures FirstCode(ls, l) == 2 * End(ls, l - 1)
    ensures End(ls, l) == FirstCode(ls, l) + Count(ls, l)
    decreases l
  {
    if l == 1 {
      assert FirstCode(ls, 0) == 0;
    } else {
      EndIsFirstPlusCount(ls, l - 1);
    }
  }

  lemma {:induction false} EndAppend(ls: seq<nat>, x: nat, l: nat)
    ensures End(ls + [x], l) == End(ls, l) + (if 1 <= x <= l then Pow2(l - x) else 0)
    decreases l
  {
    assert (ls + [x])[..|ls|] == ls;
    if l == 0 {
    } else {
      EndAppend(ls, x, l - 1);
      if 1 <= x < l {
        assert Pow2(l - x) == 2 * Pow2(l - 1 - x);
      }
    }
  }

  /** The code space used is what the last code of the last length leaves. */
  lemma {:induction false} KraftIsEnd(ls: seq<nat>, m: nat)
    ensures Kraft(ls, m) == End(ls, m)
  {
    if ls == [] {
      EndEmpty(m);
    } else {
      var n := |ls| - 1;
      KraftIsEnd(ls[..n], m);
      EndAppend(ls[..n], ls[n], m);
      assert ls == ls[..n] + [ls[n]];
    }
  }

  lemma {:induction false} EndEmpty(l: nat)
    ensures End([], l) == 0
    decreases l
  {
    if l == 0 {
    } else {
      EndEmpty(l - 1);
    }
  }

  /** Once a length is over-subscribed every longer one is. */
  lemma {:induction false} OverStays(ls: seq<nat>, k: nat, l: nat)
    requires k <= l && End(ls, k) > Pow2(k)
    ensures End(ls, l) > Pow2(l)
  {
    if k == l {
    } else {
      OverStays(ls, k, l - 1);
    }
  }

  lemma EndBounded(ls: seq<nat>, l: nat)
    requires l <= MAXBITS
    ensures End(ls, l) > Pow2(l) ==> KraftSum(ls) > Pow2(MAXBITS)
  {
    KraftIsEnd(ls, MAXBITS);
    if End(ls, l) > Pow2(l) {
      OverStays(ls, l, MAXBITS);
    }
  }

  lemma {:induction false} CountPrefix(ls: seq<nat>, i: nat, l: nat)
    requires i <= |ls|
    ensures Count(ls[..i], l) <= Count(ls, l)
    ensures i < |ls| && ls[i] == l ==> Count(ls[..i], l) < Count(ls, l)
  {
    if i == |ls| {
      assert ls[..i] == ls;
    } else {
      var m := ls[..|ls| - 1];
      if i < |m| {
        CountPrefix(m, i, l);
        assert m[..i] == ls[..i];
      }
    }
  }

  /** Codes of a used symbol lie between the first code and the end of its length. */
  lemma CodeRange(ls: seq<nat>, y: nat)
    requires Decodable(ls) && y < |ls| && ls[y] != 0
    ensures FirstCode(ls, ls[y]) <= CodeValue(ls, y) < End(ls, ls[y]) <= Pow2(ls[y])
  {
    CountPrefix(ls, y, ls[y]);
    EndIsFirstPlusCount(ls, ls[y]);
    EndBounded(ls, ls[y]);
  }

  /** A codeword stands in the stream exactly when its value does. */
  lemma CodewordAt(ls: seq<nat>, s: seq<bit>, pos: nat, y: nat)
    requires Decodable(ls) && y < |ls| && ls[y] != 0
    ensures At(s, pos, Codeword(ls, y)) <==>
            pos + ls[y] <= |s| && Value(s, pos, ls[y]) == CodeValue(ls, y)
  {
    CodeRange(ls, y);
    ValueExact(s, pos, ls[y], CodeValue(ls, y));
  }

  /** Bits whose value reaches the codes of length l are past all codes of
      every shorter length. */
  lemma {:induction false} PastShorter(ls: seq<nat>, s: seq<bit>, pos: nat, k: nat, l: nat)
    requires k < l && pos + l <= |s| && Value(s, pos, l) >= FirstCode(ls, l)
    ensures Value(s, pos, k) >= End(ls, k)
    decreases l
  {
    EndIsFirstPlusCount(ls, l);
    if k < l - 1 {
      EndIsFirstPlusCount(ls, l - 1);
      PastShorter(ls, s, pos, k, l - 1);
    }
  }

  lemma RankStrict(ls: seq<nat>, a: nat, b: nat)
    requires a < b < |ls| && ls[a] == ls[b]
    ensures Count(ls[..a], ls[a]) < Count(ls[..b], ls[b])
  {
    assert ls[..b][..a] == ls[..a];
    CountPrefix(ls[..b], a, ls[a]);
  }

  /** Two codewords at one place are the same symbol's. */
  lemma MatchUnique(ls: seq<nat>, s: seq<bit>, pos: nat, a: nat, b: nat)
    requires Decodable(ls)
    requires Matches(ls, s, pos, a) && Matches(ls, s, pos, b)
    ensures a == b
  {
    CodewordAt(ls, s, pos, a);
    CodewordAt(ls, s, pos, b);
    CodeRange(ls, a);
    CodeRange(ls, b);
    if ls[a] < ls[b] {
      PastShorter(ls, s, pos, ls[a], ls[b]);
    } else if ls[b] < ls[a] {
      PastShorter(ls, s, pos, ls[b], ls[a]);
    } else if a < b {
      RankStrict(ls, a, b);
    } else if b < a {
      RankStrict(ls, b, a);
    }
  }

  /** The canonical code is prefix-free. */
  lemma PrefixFree(ls: seq<nat>, a: nat, b: nat)
    requires Decodable(ls)
    requires a < |ls| && b < |ls| && ls[a] != 0 && ls[b] != 0 && a != b
    ensures !(Codeword(ls, a) <= Codeword(ls, b))
  {
    if Codeword(ls, a) <= Codeword(ls, b) {
      var w := Codeword(ls, b);
      assert At(w, 0, w);
      MatchUnique(ls, w, 0, a, b);
    }
  }

  /** The codeword of used symbol y stands in s at pos. */
  ghost predicate Matches(ls: seq<nat>, s: seq<bit>, pos: nat, y: nat) {
    y < |ls| && ls[y] != 0 && At(s, pos, Codeword(ls, y))
  }

  datatype SymbolRead = Symbol(sym: nat, pos: nat) | NoCode | OutOfInput

  /** What the next symbol of the stream is, by definition of the code. Fifteen
      bits that begin with no codeword are an invalid code. */
  ghost function ReadSymbol(ls: seq<nat>, s: seq<bit>, pos: nat): (r: SymbolRead)
    ensures r.Symbol? ==> Matches(ls, s, pos, r.sym) && r.pos == pos + ls[r.sym] <= |s|
    ensures r.NoCode? ==> pos + MAXBITS <= |s|
  {
    if exists y: nat :: Matches(ls, s, pos, y) then
      var y: nat :| Matches(ls, s, pos, y);
      Symbol(y, pos + ls[y])
    else if pos + MAXBITS <= |s| then NoCode
    else OutOfInput
  }

  /** Reading the codeword of a used symbol, whatever follows, gives the symbol
      back and consumes exactly its length. */
  lemma ReadSymbolExact(ls: seq<nat>, s: seq<bit>, pos: nat, y: nat)
    requires Decodable(ls) && y < |ls| && ls[y] != 0
    ensures At(s, pos, Codeword(ls, y)) <==> ReadSymbol(ls, s, pos) == Symbol(y, pos + ls[y])
  {
    if Matches(ls, s, pos, y) {
      MatchUnique(ls, s, pos, y, ReadSymbol(ls, s, pos).sym);
    }
  }

  // ----- the decoding tables -------------------------------------------------

  /** Slots of the symbol table taken by lengths 1 up to but not including l. */
  function Base(ls: seq<nat>, l: nat): nat
  {
    if l <= 1 then 0 else Base(ls, l - 1) + Count(ls, l - 1)
  }

  /** Where the counting sort puts used symbol y. */
  function Slot(ls: seq<nat>, y: nat): nat
    requires y < |ls|
  {
    Base(ls, ls[y]) + Count(ls[..y], ls[y])
  }

  lemma {:induction false} BaseMono(ls: seq<nat>, k: nat, l: nat)
    requires 1 <= k < l
    ensures Base(ls, k) + Count(ls, k) <= Base(ls, l)
    decreases l
  {
    if k == l - 1 {
    } else {
      BaseMono(ls, k, l - 1);
    }
  }

  lemma {:induction false} BaseAppend(ls: seq<nat>, x: nat, l: nat)
    ensures Base(ls + [x], l) == Base(ls, l) + (if 1 <= x < l then 1 else 0)
    decreases l
  {
    assert (ls + [x])[..|ls|] == ls;
    if l <= 1 {
    } else {
      BaseAppend(ls, x, l - 1);
    }
  }

  lemma {:induction false} BaseTotal(ls: seq<nat>)
    requires Lengths(ls)
    ensures Base(ls, MAXBITS + 1) + Count(ls, 0) == |ls|
  {
    if ls == [] {
      BaseEmpty(MAXBITS + 1);
    } else {
      var n := |ls| - 1;
      BaseTotal(ls[..n]);
      BaseAppend(ls[..n], ls[n], MAXBITS + 1);
      assert ls == ls[..n] + [ls[n]];
    }
  }

  lemma {:induction false} BaseEmpty(l: nat)
    ensures Base([], l) == 0
    decreases l
  {
    if l <= 1 {
    } else {
      BaseEmpty(l - 1);
    }
  }

  /** Slots are ordered as (length, symbol) pairs are. */
  lemma SlotOrder(ls: seq<nat>, a: nat, b: nat)
    requires a < |ls| && b < |ls| && ls[a] != 0
    requires ls[a] < ls[b] || (ls[a] == ls[b] && a < b)
    ensures Slot(ls, a) < Slot(ls, b)
  {
    if ls[a] == ls[b] {
      RankStrict(ls, a, b);
    } else {
      CountPrefix(ls, a, ls[a]);
      BaseMono(ls, ls[a], ls[b]);
    }
  }

  lemma SlotBound(ls: seq<nat>, y: nat)
    requires Lengths(ls) && y < |ls| && ls[y] != 0
    ensures Base(ls, ls[y]) <= Slot(ls, y) < Base(ls, ls[y]) + Count(ls, ls[y]) <= Base(ls, MAXBITS + 1) <= |ls|
  {
    CountPrefix(ls, y, ls[y]);
    BaseMono(ls, ls[y], MAXBITS + 1);
    BaseTotal(ls);
  }

  /** The r-th symbol of length l. */
  function Nth(ls: seq<nat>, l: nat, r: nat): (y: nat)
    requires r < Count(ls, l)
    ensures y < |ls| && ls[y] == l && Count(ls[..y], l) == r
  {
    var n := |ls| - 1;
    if ls[n] == l && Count(ls[..n], l) == r then n
    else
      var y := Nth(ls[..n], l, r);
      assert ls[..n][..y] == ls[..y];
      y
  }

  /** The tables construct() leaves for a usable code. */
  ghost predicate Represents(ls: seq<nat>, count: seq<int>, symbol: seq<nat>) {
    && Lengths(ls)
    && |count| == MAXBITS + 1
    && (forall l :: 0 <= l <= MAXBITS ==> count[l] == Count(ls, l))
    && Sorted(ls, symbol, |ls|)
  }

  /** Every used symbol below n sits in its slot. */
  ghost predicate Sorted(ls: seq<nat>, symbol: seq<nat>, n: nat)
    requires n <= |ls|
  {
    forall y {:trigger Slot(ls, y)} :: 0 <= y < n && ls[y] != 0 ==>
      Slot(ls, y) < |symbol| && symbol[Slot(ls, y)] == y
  }

  /** Every slot below the number of used symbols is the slot of one of them. */
  lemma {:induction false} SlotOnto(ls: seq<nat>, k: nat, l: nat) returns (y: nat)
    requires k < Base(ls, l)
    ensures y < |ls| && ls[y] != 0 && Slot(ls, y) == k
    decreases l
  {
    if k < Base(ls, l - 1) {
      y := SlotOnto(ls, k, l - 1);
    } else {
      y := Nth(ls, l - 1, k - Base(ls, l - 1));
    }
  }

  /** The symbol table is the used symbols, each once, in strict (length,
      symbol) order. */
  lemma StableCountingSort(ls: seq<nat>, count: seq<int>, symbol: seq<nat>)
    requires Represents(ls, count, symbol)
    ensures var n := |ls| - count[0];
            && n <= |symbol|
            && (set y | 0 <= y < |ls| && ls[y] != 0) == (set y | y in symbol[..n])
            && forall i, j :: 0 <= i < j < n ==>
                 && symbol[i] < |ls| && symbol[j] < |ls|
                 && (ls[symbol[i]] < ls[symbol[j]] || (ls[symbol[i]] == ls[symbol[j]] && symbol[i] < symbol[j]))
  {
    hide Base, Slot;
    BaseTotal(ls);
    var n := |ls| - count[0];
    assert n == Base(ls, MAXBITS + 1);
    forall k | 0 <= k < n
      ensures k < |symbol| && symbol[k] < |ls| && ls[symbol[k]] != 0 && Slot(ls, symbol[k]) == k
    {
      var y := SlotOnto(ls, k, MAXBITS + 1);
    }
    if n > 0 {
      var y := SlotOnto(ls, n - 1, MAXBITS + 1);
    }
    forall y | 0 <= y < |ls| && ls[y] != 0
      ensures y in symbol[..n]
    {
      SlotBound(ls, y);
      assert symbol[..n][Slot(ls, y)] == y;
    }
    forall i, j | 0 <= i < j < n
      ensures ls[symbol[i]] < ls[symbol[j]] || (ls[symbol[i]] == ls[symbol[j]] && symbol[i] < symbol[j])
    {
      var a, b := symbol[i], symbol[j];
      if ls[b] < ls[a] || (ls[a] == ls[b] && b < a) {
        SlotOrder(ls, b, a);
      }
    }
  }

  // ----- the walk ------------------------------------------------------------

  function SumBelow(count: seq<int>, l: nat): int
    requires l <= |count|
  {
    if l <= 1 then 0 else SumBelow(count, l - 1) + count[l - 1]
  }

  /** A table decode() may be given: non-negative counts that the symbol table
      has room for. */
  ghost predicate Table(count: seq<int>, symbol: seq<nat>) {
    && |count| == MAXBITS + 1
    && (forall l :: 0 <= l <= MAXBITS ==> count[l] >= 0)
    && SumBelow(count, MAXBITS + 1) <= |symbol|
  }

  lemma {:induction false} SumBelowMono(count: seq<int>, k: nat, l: nat)
    requires 1 <= k <= l <= |count|
    requires forall i :: 0 <= i < |count| ==> count[i] >= 0
    ensures 0 <= SumBelow(count, k) <= SumBelow(count, l)
    decreases l
  {
    if k == l {
      if k > 1 {
        SumBelowMono(count, k - 1, k - 1);
      }
    } else {
      SumBelowMono(count, k, l - 1);
    }
  }

  /** The walk of decode(): at length len, having read len - 1 bits of value
      code / 2, with first the first code of that length. */
  ghost function Walk(count: seq<int>, symbol: seq<nat>, s: seq<bit>, pos: nat,
                      len: nat, code: int, first: int): (r: SymbolRead)
    requires Table(count, symbol)
    requires 1 <= len <= MAXBITS + 1 && first <= code
    ensures r.Symbol? ==> pos < r.pos <= |s| && r.pos <= pos + MAXBITS + 1 - len
    decreases MAXBITS + 1 - len
  {
    if len > MAXBITS then NoCode
    else if pos >= |s| then OutOfInput
    else
      var c := code + s[pos];
      if c - count[len] < first then
        SumBelowMono(count, len, len);
        SumBelowMono(count, len + 1, MAXBITS + 1);
        Symbol(symbol[SumBelow(count, len) + (c - first)], pos + 1)
      else
        Walk(count, symbol, s, pos + 1, len + 1, 2 * c, 2 * (first + count[len]))
  }

  lemma {:induction false} BaseIsSum(ls: seq<nat>, count: seq<int>, l: nat)
    requires |count| == MAXBITS + 1 && l <= |count|
    requires forall i :: 0 <= i <= MAXBITS ==> count[i] == Count(ls, i)
    ensures SumBelow(count, l) == Base(ls, l)
    decreases l
  {
    if l <= 1 {
    } else {
      BaseIsSum(ls, count, l - 1);
    }
  }

  lemma RepresentsTable(ls: seq<nat>, count: seq<int>, symbol: seq<nat>)
    requires Represents(ls, count, symbol)
    ensures Table(count, symbol)
  {
    BaseIsSum(ls, count, MAXBITS + 1);
    StableCountingSort(ls, count, symbol);
    BaseTotal(ls);
  }

  /** No codeword shorter than len stands at pos. */
  ghost predicate NoneShorter(ls: seq<nat>, s: seq<bit>, pos: nat, len: nat) {
    forall y: nat :: Matches(ls, s, pos, y) ==> ls[y] >= len
  }

  /** Every code value from the first up to the end of its length belongs to a
      symbol, and the symbol table lists the symbols in code order. */
  lemma NthCode(ls: seq<nat>, l: nat, c: nat) returns (y: nat)
    requires 1 <= l && FirstCode(ls, l) <= c < FirstCode(ls, l) + Count(ls, l)
    ensures y < |ls| && ls[y] == l && CodeValue(ls, y) == c
    ensures Slot(ls, y) == Base(ls, l) + (c - FirstCode(ls, l))
  {
    y := Nth(ls, l, c - FirstCode(ls, l));
  }

  /** Where the walk is after len - 1 bits from start fit no codeword. */
  ghost predicate Walking(ls: seq<nat>, s: seq<bit>, start: nat, len: nat, code: int, first: int) {
    && 1 <= len <= MAXBITS + 1 && start + len - 1 <= |s|
    && NoneShorter(ls, s, start, len)
    && code == 2 * Value(s, start, len - 1)
    && first == FirstCode(ls, len) <= code
  }

  /** A value past the end of its length is no codeword of that length. */
  lemma PastLength(ls: seq<nat>, s: seq<bit>, pos: nat, len: nat)
    requires Decodable(ls) && 1 <= len && pos + len <= |s|
    requires NoneShorter(ls, s, pos, len) && Value(s, pos, len) >= End(ls, len)
    ensures NoneShorter(ls, s, pos, len + 1)
  {
    hide Decodable, Codeword, At, CodeValue, FirstCode, End, Pow2, Value;
    forall y: nat | Matches(ls, s, pos, y)
      ensures ls[y] >= len + 1
    {
      CodeRange(ls, y);
      CodewordAt(ls, s, pos, y);
    }
  }

  /** A value below the end of its length is the codeword of the symbol that
      the table lists there. */
  lemma InLength(ls: seq<nat>, count: seq<int>, symbol: seq<nat>, s: seq<bit>, pos: nat, len: nat)
    requires Decodable(ls) && Represents(ls, count, symbol)
    requires 1 <= len <= MAXBITS && pos + len <= |s|
    requires FirstCode(ls, len) <= Value(s, pos, len) < FirstCode(ls, len) + Count(ls, len)
    ensures var i := SumBelow(count, len) + (Value(s, pos, len) - FirstCode(ls, len));
            0 <= i < |symbol| && ReadSymbol(ls, s, pos) == Symbol(symbol[i], pos + len)
  {
    hide ReadSymbol, Decodable, Codeword, At, CodeValue, FirstCode, Value, Slot, Base, SumBelow, Count;
    var y := NthCode(ls, len, Value(s, pos, len));
    BaseIsSum(ls, count, len);
    CodewordAt(ls, s, pos, y);
    ReadSymbolExact(ls, s, pos, y);
  }

  lemma WalkMiss(ls: seq<nat>, s: seq<bit>, start: nat, len: nat, code: int, first: int)
    requires Decodable(ls) && Walking(ls, s, start, len, code, first)
    requires len <= MAXBITS && start + len <= |s|
    requires code + s[start + len - 1] - Count(ls, len) >= first
    ensures Walking(ls, s, start, len + 1, 2 * (code + s[start + len - 1]), 2 * (first + Count(ls, len)))
  {
    hide NoneShorter, Decodable, Count;
    EndIsFirstPlusCount(ls, len);
    PastLength(ls, s, start, len);
  }

  lemma WalkHit(ls: seq<nat>, count: seq<int>, symbol: seq<nat>, s: seq<bit>, start: nat, len: nat, code: int,
                first: int)
    requires Decodable(ls) && Represents(ls, count, symbol) && Table(count, symbol)
    requires Walking(ls, s, start, len, code, first) && len <= MAXBITS && start + len <= |s|
    requires code + s[start + len - 1] - count[len] < first
    ensures Walk(count, symbol, s, start + len - 1, len, code, first) == ReadSymbol(ls, s, start)
  {
    hide ReadSymbol, NoneShorter, Decodable, FirstCode, SumBelow, Count, Sorted, Table;
    InLength(ls, count, symbol, s, start, len);
  }

  lemma WalkOn(count: seq<int>, symbol: seq<nat>, s: seq<bit>, pos: nat, len: nat, code: int, first: int)
    requires Table(count, symbol) && 1 <= len <= MAXBITS && pos < |s|
    requires first <= code && first <= code + s[pos] - count[len]
    ensures Walk(count, symbol, s, pos, len, code, first)
         == Walk(count, symbol, s, pos + 1, len + 1, 2 * (code + s[pos]), 2 * (first + count[len]))
  {
  }

  /** With every length or every bit used up there is no symbol to read. */
  lemma WalkStuck(ls: seq<nat>, count: seq<int>, symbol: seq<nat>, s: seq<bit>, start: nat, len: nat, code: int,
                  first: int)
    requires Lengths(ls) && Table(count, symbol) && Walking(ls, s, start, len, code, first)
    requires len > MAXBITS || start + len - 1 == |s|
    ensures Walk(count, symbol, s, start + len - 1, len, code, first) == ReadSymbol(ls, s, start)
  {
  }

  lemma {:induction false} WalkFrom(ls: seq<nat>, count: seq<int>, symbol: seq<nat>, s: seq<bit>, start: nat,
                                    len: nat, code: int, first: int)
    requires Decodable(ls) && Represents(ls, count, symbol) && Table(count, symbol)
    requires Walking(ls, s, start, len, code, first)
    ensures Walk(count, symbol, s, start + len - 1, len, code, first) == ReadSymbol(ls, s, start)
    decreases MAXBITS + 1 - len
  {
    hide Walk, ReadSymbol, NoneShorter, Decodable, FirstCode, Value, SumBelow, Count, Sorted;
    if len > MAXBITS || start + len - 1 == |s| {
      WalkStuck(ls, count, symbol, s, start, len, code, first);
    } else if code + s[start + len - 1] - count[len] < first {
      WalkHit(ls, count, symbol, s, start, len, code, first);
    } else {
      var c, f := code + s[start + len - 1], first + count[len];
      WalkMiss(ls, s, start, len, code, first);
      WalkFrom(ls, count, symbol, s, start, len + 1, 2 * c, 2 * f);
      WalkOn(count, symbol, s, start + len - 1, len, code, first);
    }
  }

  /** Decoding with the tables of a code reads exactly its codewords. */
  lemma WalkReadsSymbol(ls: seq<nat>, count: seq<int>, symbol: seq<nat>, s: seq<bit>, pos: nat)
    requires Decodable(ls) && Represents(ls, count, symbol) && pos <= |s|
    ensures Table(count, symbol)
    ensures Walk(count, symbol, s, pos, 1, 0, 0) == ReadSymbol(ls, s, pos)
  {
    hide Walk, ReadSymbol, Decodable, Represents, At, Codeword;
    RepresentsTable(ls, count, symbol);
    assert FirstCode(ls, 0) == 0;
    WalkFrom(ls, count, symbol, s, pos, 1, 0, 0);
  }

  /** A complete code resolves every stream of enough bits to a symbol. */
  lemma CompleteNeverFails(ls: seq<nat>, s: seq<bit>, pos: nat)
    requires Lengths(ls) && KraftSum(ls) == Pow2(MAXBITS)
    ensures ReadSymbol(ls, s, pos) != NoCode
  {
    hide Pow2, Kraft, End, Codeword, At, Value, Msb;
    if ReadSymbol(ls, s, pos) == NoCode {
      KraftIsEnd(ls, MAXBITS);
      NoneAt(ls, s, pos, MAXBITS);
      ValueIsMsb(s, pos, MAXBITS);
    }
  }

  lemma {:induction false} NoneAt(ls: seq<nat>, s: seq<bit>, pos: nat, len: nat)
    requires Decodable(ls) && len <= MAXBITS && pos + len <= |s|
    requires forall y: nat :: !Matches(ls, s, pos, y)
    ensures End(ls, len) <= Value(s, pos, len)
    decreases len
  {
    if len == 0 {
    } else {
      NoneAt(ls, s, pos, len - 1);
      EndIsFirstPlusCount(ls, len);
      if Value(s, pos, len) < End(ls, len) {
        var y := NthCode(ls, len, Value(s, pos, len));
        CodewordAt(ls, s, pos, y);
        assert Matches(ls, s, pos, y);
      }
    }
  }

  /** An incomplete code rejects some stream, in particular one of fifteen ones. */
  lemma IncompleteCanFail(ls: seq<nat>, s: seq<bit>)
    requires Lengths(ls) && KraftSum(ls) < Pow2(MAXBITS)
    requires |s| == MAXBITS && forall i :: 0 <= i < MAXBITS ==> s[i] == 1
    ensures ReadSymbol(ls, s, 0) == NoCode
  {
    hide ReadSymbol, Value, Pow2, KraftSum;
    forall y: nat
      ensures !Matches(ls, s, 0, y)
    {
      if Matches(ls, s, 0, y) {
        CodewordAt(ls, s, 0, y);
        CodeRange(ls, y);
        OnesAreLast(s, ls[y]);
        NotFull(ls, ls[y]);
      }
    }
    NothingMatches(ls, s);
  }

  lemma {:induction false} OnesAreLast(s: seq<bit>, l: nat)
    requires l <= |s| && forall i :: 0 <= i < |s| ==> s[i] == 1
    ensures Value(s, 0, l) == Pow2(l) - 1
  {
    if l > 0 {
      OnesAreLast(s, l - 1);
    }
  }

  lemma {:induction false} FullStays(ls: seq<nat>, k: nat, l: nat)
    requires k <= l && End(ls, k) >= Pow2(k)
    ensures End(ls, l) >= Pow2(l)
    decreases l
  {
    if k < l {
      FullStays(ls, k, l - 1);
    }
  }

  lemma NotFull(ls: seq<nat>, l: nat)
    requires l <= MAXBITS && KraftSum(ls) < Pow2(MAXBITS)
    ensures End(ls, l) < Pow2(l)
  {
    hide Pow2;
    KraftIsEnd(ls, MAXBITS);
    if End(ls, l) >= Pow2(l) {
      FullStays(ls, l, MAXBITS);
    }
  }

  lemma NothingMatches(ls: seq<nat>, s: seq<bit>)
    requires |s| == MAXBITS && forall y: nat :: !Matches(ls, s, 0, y)
    ensures ReadSymbol(ls, s, 0) == NoCode
  {
  }

  /** decode() answers with a symbol exactly when that symbol's codeword is next,
      whatever follows it, and consumes exactly the codeword. */
  lemma DecodeExact(ls: seq<nat>, count: seq<int>, symbol: seq<nat>, s: seq<bit>, pos: nat, y: nat)
    requires Decodable(ls) && Represents(ls, count, symbol) && pos <= |s| && y < |ls| && ls[y] != 0
    ensures Table(count, symbol)
    ensures At(s, pos, Codeword(ls, y)) <==>
            Walk(count, symbol, s, pos, 1, 0, 0) == Symbol(y, pos + ls[y])
  {
    hide Walk, ReadSymbol, Represents, Decodable, Codeword, At;
    WalkReadsSymbol(ls, count, symbol, s, pos);
    ReadSymbolExact(ls, s, pos, y);
  }

  /** A symbol, or an invalid code, is decided by the bits already there. */
  lemma ReadSymbolStable(ls: seq<nat>, s: seq<bit>, t: seq<bit>, pos: nat)
    requires Decodable(ls)
    requires ReadSymbol(ls, s, pos) != OutOfInput
    ensures ReadSymbol(ls, s + t, pos) == ReadSymbol(ls, s, pos)
  {
    var r := ReadSymbol(ls, s, pos);
    forall y: nat | y < |ls| && ls[y] != 0
      ensures pos + ls[y] <= |s| ==> (Matches(ls, s, pos, y) <==> Matches(ls, s + t, pos, y))
    {
      if pos + ls[y] <= |s| {
        assert (s + t)[pos..pos + ls[y]] == s[pos..pos + ls[y]];
      }
    }
    if r.Symbol? {
      ReadSymbolExact(ls, s + t, pos, r.sym);
    }
  }
}
