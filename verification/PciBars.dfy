/**
  Base address allocation of brd_amigaone.c and brd_sam460.c: addr_for_bar() in
  32-bit arithmetic, the probing of a device's base address registers, and the
  bus scan that drives it.
 */
module PciBars {
  import opened Bits
  import opened Rounding

  const WORD: nat := 0x1_0000_0000

  // ----- powers of two -------------------------------------------------------

  ghost predicate PowerOfTwo(n: nat) {
    exists k: nat :: k < 32 && n == Pow2(k)
  }

  lemma Regroup(a: int, b: int, c: int)
    ensures c * (a * b) == a * (b * c)
  {
  }

  lemma PowerDivides(n: nat, k: nat, j: nat, c: nat)
    requires n == Pow2(j) && j <= k
    ensures (c * Pow2(k)) % n == 0
  {
    hide Pow2;
    Pow2Add(j, k - j);
    Regroup(Pow2(j), Pow2(k - j), c);
    DivModUnique(c * Pow2(k), n, Pow2(k - j) * c, 0);
  }

  lemma {:induction false} PowerGrows(k: nat, j: nat)
    requires k < j
    ensures Pow2(k) < Pow2(j)
    decreases j
  {
    if k < j - 1 {
      PowerGrows(k, j - 1);
    }
  }

  /** A power of two divides every multiple of a larger one. */
  lemma MultipleOfPower(n: nat, k: nat, c: nat)
    requires PowerOfTwo(n) && n <= Pow2(k)
    ensures n > 0 && (c * Pow2(k)) % n == 0
  {
    var j: nat :| j < 32 && n == Pow2(j);
    if k < j {
      PowerGrows(k, j);
    }
    PowerDivides(n, k, j, c);
  }

  // ----- the allocator -------------------------------------------------------

  datatype Granted = Granted(base: nat, avail: nat) | Refused

  /** addr_for_bar() in unbounded integers. */
  function Alloc(avail: nat, limit: nat, size: nat): Granted
    requires size > 0
  {
    var r: nat := RoundUp(avail, size);
    if r + size > limit then Refused else Granted(r, r + size)
  }

  /** ROUND_UP() as compiled. */
  function Round32(n: nat, d: nat): (r: nat)
    requires d > 0
  {
    var m := (n + d - 1) % WORD;
    m - m % d
  }

  /** addr_for_bar() as compiled: every sum is taken modulo 2^32, and a base of
      zero stands for refusal. */
  function Alloc32(avail: nat, limit: nat, size: nat): (r: (nat, nat)) {
    if size == 0 then (0, avail)
    else
      var r := Round32(avail, size);
      if (r + size) % WORD > limit then (0, avail) else (r, (r + size) % WORD)
  }

  /** What Alloc32 returns where Alloc answers g. */
  function As32(g: Granted, avail: nat): (nat, nat) {
    match g
    case Refused => (0, avail)
    case Granted(base, next) => (base, next)
  }

  lemma Powers()
    ensures Pow2(2) == 4 && Pow2(4) == 16 && Pow2(24) == 0x100_0000
    ensures Pow2(29) == 0x2000_0000 && Pow2(31) == 0x8000_0000
  {
    assert Pow2(5) == 32 && Pow2(7) == 128;
    Pow2Eight();
    Pow2Add(8, 8);
    Pow2Add(16, 8);
    Pow2Add(24, 5);
    Pow2Add(24, 7);
  }

  lemma SizeBound(size: nat)
    requires PowerOfTwo(size)
    ensures 0 < size <= WORD / 2
  {
    hide Pow2;
    var j: nat :| j < 32 && size == Pow2(j);
    Powers();
    if j < 31 {
      PowerGrows(j, 31);
    }
  }

  lemma WordMultiple(size: nat)
    requires PowerOfTwo(size)
    ensures 0 < size <= WORD / 2 && WORD % size == 0
  {
    hide Pow2;
    SizeBound(size);
    Powers();
    MultipleOfPower(size, 31, 2);
  }

  lemma ModShift(m: nat, size: nat)
    requires size > 0 && WORD % size == 0 && m >= WORD
    ensures m % size == (m - WORD) % size
  {
    var q, r := (m - WORD) / size, (m - WORD) % size;
    assert WORD == size * (WORD / size);
    assert size * (WORD / size + q) == size * (WORD / size) + size * q;
    DivModUnique(m, size, WORD / size + q, r);
  }

  lemma Round32NoCarry(avail: nat, size: nat)
    requires size > 0 && avail + size - 1 < WORD
    ensures Round32(avail, size) == RoundUp(avail, size) <= avail + size - 1
  {
    var m := avail + size - 1;
    DivModUnique(m, WORD, 0, m);
  }

  lemma Round32Carry(avail: nat, size: nat)
    requires 0 < size <= WORD && WORD % size == 0 && avail < WORD <= avail + size - 1
    ensures Round32(avail, size) == RoundUp(avail, size) - WORD
  {
    var m := avail + size - 1;
    DivModUnique(m, WORD, 1, m - WORD);
    ModShift(m, size);
  }

  lemma Round32Is(avail: nat, size: nat)
    requires PowerOfTwo(size) && avail < WORD
    ensures size > 0 && 0 <= RoundUp(avail, size) <= WORD
    ensures RoundUp(avail, size) < WORD ==>
              Round32(avail, size) == RoundUp(avail, size) && RoundUp(avail, size) + size <= WORD
    ensures RoundUp(avail, size) == WORD ==> Round32(avail, size) == 0 && avail > WORD - size
  {
    hide RoundUp, Round32, PowerOfTwo;
    WordMultiple(size);
    RoundUpBelow(avail, size, WORD);
    if avail + size - 1 >= WORD {
      Round32Carry(avail, size);
    } else {
      Round32NoCarry(avail, size);
      MultipleGap(RoundUp(avail, size), size);
    }
  }

  lemma ModWord(x: nat)
    requires x <= WORD
    ensures x % WORD == if x == WORD then 0 else x
  {
  }

  /** The 32-bit allocator is the unbounded one exactly when the rounded base
      plus the size stays below 2^32, or when rounding alone reaches 2^32 and
      the size is larger than the whole window. */
  lemma Alloc32Exact(avail: nat, limit: nat, size: nat)
    requires PowerOfTwo(size) && avail < WORD && limit < WORD
    ensures size > 0
    ensures var r := RoundUp(avail, size);
            Alloc32(avail, limit, size) == As32(Alloc(avail, limit, size), avail) <==>
            r + size < WORD || (r == WORD && size > limit)
  {
    hide RoundUp, Round32, PowerOfTwo;
    SizeBound(size);
    Round32Is(avail, size);
    ModWord(Round32(avail, size) + size);
  }

  lemma MultipleGap(r: nat, size: nat)
    requires size > 0 && r % size == 0 && WORD % size == 0 && r < WORD
    ensures r + size <= WORD
  {
    assert r == size * (r / size) && WORD == size * (WORD / size);
    MulSign(size, WORD / size - r / size);
    assert size * (WORD / size - r / size) == WORD - r;
  }

  // ----- boards --------------------------------------------------------------

  /** I/O window from iostart to ioend, memory window from memstart to memend,
      and the largest BAR for which nothing can wrap. */
  datatype Board = Board(iostart: nat, ioend: nat, memstart: nat, memend: nat, largest: nat)

  const AMIGAONE := Board(0x800000, 0xc00000, 0x8000_0000, 0xfd00_0000, 0x100_0000)
  const SAM460 := Board(0x100, 0x10000, 0x8000_0000, 0xa000_0000, 0x2000_0000)

  datatype Avail = Avail(io: nat, mem: nat)

  /** A register's wish: its config address, kind of space, attribute bits and
      size. */
  datatype Request = Request(reg: nat, io: bool, kind: nat, size: nat)

  /** A register that was given base, and the value written to it. */
  datatype Grant = Grant(reg: nat, io: bool, base: nat, size: nat, value: nat)

  function Limit(b: Board, io: bool): nat {
    if io then b.ioend else b.memend
  }

  function Next(a: Avail, io: bool): nat {
    if io then a.io else a.mem
  }

  function Advance(a: Avail, io: bool, next: nat): Avail {
    if io then a.(io := next) else a.(mem := next)
  }

  predicate Known(b: Board) {
    b == AMIGAONE || b == SAM460
  }

  ghost predicate Within(b: Board, a: Avail) {
    b.iostart <= a.io <= b.ioend && b.memstart <= a.mem <= b.memend
  }

  // ----- a run of requests ---------------------------------------------------

  datatype Run = Run(avail: Avail, grants: seq<Grant>)

  function Serve(b: Board, st: Run, q: Request): Run {
    if q.size == 0 then st
    else
      match Alloc(Next(st.avail, q.io), Limit(b, q.io), q.size)
      case Refused => st
      case Granted(base, next) =>
        Run(Advance(st.avail, q.io, next), st.grants + [Grant(q.reg, q.io, base, q.size, base + q.kind)])
  }

  function ServeAll(b: Board, st: Run, qs: seq<Request>): Run
    decreases qs
  {
    if qs == [] then st else ServeAll(b, Serve(b, st, qs[0]), qs[1..])
  }

  lemma {:induction false} ServeConcat(b: Board, st: Run, ps: seq<Request>, qs: seq<Request>)
    ensures ServeAll(b, st, ps + qs) == ServeAll(b, ServeAll(b, st, ps), qs)
    decreases ps
  {
    hide Serve;
    if ps == [] {
      assert ps + qs == qs;
    } else {
      assert (ps + qs)[1..] == ps[1..] + qs;
      ServeConcat(b, Serve(b, st, ps[0]), ps[1..], qs);
    }
  }

  function Start(b: Board): Run {
    Run(Avail(b.iostart, b.memstart), [])
  }

  ghost predicate Apart(g: Grant, h: Grant) {
    g.io != h.io || g.base + g.size <= h.base || h.base + h.size <= g.base
  }

  /** Grants are aligned, inside their window, below the free address of their
      kind, and pairwise disjoint. */
  ghost predicate WellPlaced(b: Board, st: Run) {
    && Within(b, st.avail)
    && (forall i :: 0 <= i < |st.grants| ==> InWindow(b, st, st.grants[i]))
    && (forall i, j :: 0 <= i < j < |st.grants| ==> Apart(st.grants[i], st.grants[j]))
  }

  ghost predicate InWindow(b: Board, st: Run, g: Grant) {
    && g.size > 0 && g.base % g.size == 0
    && (if g.io then b.iostart else b.memstart) <= g.base
    && g.base + g.size <= Next(st.avail, g.io) <= Limit(b, g.io)
  }

  lemma ServeKeeps(b: Board, st: Run, q: Request)
    requires WellPlaced(b, st)
    ensures WellPlaced(b, Serve(b, st, q))
  {
    var st' := Serve(b, st, q);
    if st' != st {
      hide RoundUp;
      var n := |st.grants|;
      forall i | 0 <= i <= n
        ensures InWindow(b, st', st'.grants[i])
        ensures i < n ==> Apart(st'.grants[i], st'.grants[n])
      {
        if i < n {
          assert st'.grants[i] == st.grants[i];
          assert InWindow(b, st, st.grants[i]);
        }
      }
      forall i, j | 0 <= i < j <= n
        ensures Apart(st'.grants[i], st'.grants[j])
      {
        if j < n {
          assert st'.grants[i] == st.grants[i] && st'.grants[j] == st.grants[j];
        }
      }
    }
  }

  /** Over any run of requests no two grants overlap. */
  lemma {:induction false} RunIsWellPlaced(b: Board, st: Run, qs: seq<Request>)
    requires WellPlaced(b, st)
    ensures WellPlaced(b, ServeAll(b, st, qs))
    decreases qs
  {
    hide Serve, WellPlaced;
    if qs != [] {
      ServeKeeps(b, st, qs[0]);
      RunIsWellPlaced(b, Serve(b, st, qs[0]), qs[1..]);
    }
  }

  // ----- the same run in 32-bit arithmetic -----------------------------------

  /** addr_for_bar() and what is written after it: nothing for a base of zero. */
  function Serve32(b: Board, st: Run, q: Request): Run {
    var (base, next) := Alloc32(Next(st.avail, q.io), Limit(b, q.io), q.size);
    Run(Advance(st.avail, q.io, next),
        if base == 0 then st.grants else st.grants + [Grant(q.reg, q.io, base, q.size, base + q.kind)])
  }

  function ServeAll32(b: Board, st: Run, qs: seq<Request>): Run
    decreases qs
  {
    if qs == [] then st else ServeAll32(b, Serve32(b, st, qs[0]), qs[1..])
  }

  lemma {:induction false} ServeConcat32(b: Board, st: Run, ps: seq<Request>, qs: seq<Request>)
    ensures ServeAll32(b, st, ps + qs) == ServeAll32(b, ServeAll32(b, st, ps), qs)
    decreases ps
  {
    hide Serve32;
    if ps == [] {
      assert ps + qs == qs;
    } else {
      assert (ps + qs)[1..] == ps[1..] + qs;
      ServeConcat32(b, Serve32(b, st, ps[0]), ps[1..], qs);
    }
  }

  /** A request does not wrap, or wraps where it is refused all the same. */
  predicate Safe(b: Board, a: Avail, q: Request) {
    q.size > 0 ==>
      var r := RoundUp(Next(a, q.io), q.size);
      r + q.size < WORD || (r == WORD && q.size > Limit(b, q.io))
  }

  /** Every request of a run is safe where the run has got to. */
  predicate SafeRun(b: Board, st: Run, qs: seq<Request>)
    decreases qs
  {
    qs != [] ==> Safe(b, st.avail, qs[0]) && SafeRun(b, Serve(b, st, qs[0]), qs[1..])
  }

  ghost predicate Sized(qs: seq<Request>) {
    forall i :: 0 <= i < |qs| ==> PowerOfTwo(qs[i].size)
  }

  /** What the 32-bit allocator does with an unsafe request: the free address
      goes to zero, or back to the size of a request that gets nothing. */
  lemma UnsafeStep(b: Board, st: Run, q: Request)
    requires Known(b) && Within(b, st.avail) && PowerOfTwo(q.size) && !Safe(b, st.avail, q)
    ensures var next := Next(Serve32(b, st, q).avail, q.io);
            next == 0 || (!q.io && next == q.size <= b.memstart && WORD - q.size < st.avail.mem)
  {
    hide RoundUp, Round32, PowerOfTwo;
    SizeBound(q.size);
    Round32Is(Next(st.avail, q.io), q.size);
    ModWord(Round32(Next(st.avail, q.io), q.size) + q.size);
  }

  lemma SafeStep(b: Board, st: Run, q: Request)
    requires Known(b) && Within(b, st.avail) && PowerOfTwo(q.size) && Safe(b, st.avail, q)
    ensures Serve32(b, st, q) == Serve(b, st, q)
  {
    hide RoundUp, Alloc32, PowerOfTwo;
    Alloc32Exact(Next(st.avail, q.io), Limit(b, q.io), q.size);
  }

  lemma UnsafeDiffers(b: Board, st: Run, q: Request)
    requires Known(b) && Within(b, st.avail) && PowerOfTwo(q.size) && !Safe(b, st.avail, q)
    ensures Serve32(b, st, q) != Serve(b, st, q)
  {
    hide RoundUp, Serve32, PowerOfTwo;
    SizeBound(q.size);
    UnsafeStep(b, st, q);
  }

  lemma Placed(b: Board, st: Run)
    requires WellPlaced(b, st)
    ensures Within(b, st.avail)
  {
  }

  /** Safe runs do not wrap anywhere. */
  lemma {:induction false} SafeRunAgrees(b: Board, st: Run, qs: seq<Request>)
    requires Known(b) && WellPlaced(b, st) && Sized(qs) && SafeRun(b, st, qs)
    ensures ServeAll32(b, st, qs) == ServeAll(b, st, qs)
    decreases qs
  {
    hide Serve, Serve32, WellPlaced, PowerOfTwo, Safe;
    if qs != [] {
      Placed(b, st);
      SafeStep(b, st, qs[0]);
      ServeKeeps(b, st, qs[0]);
      SafeRunAgrees(b, Serve(b, st, qs[0]), qs[1..]);
    }
  }

  lemma {:induction false} SafePrefix(b: Board, st: Run, qs: seq<Request>, k: nat)
    requires k <= |qs| && SafeRun(b, st, qs)
    ensures SafeRun(b, st, qs[..k])
    decreases k
  {
    hide Serve, Safe;
    if k > 0 {
      SafePrefix(b, Serve(b, st, qs[0]), qs[1..], k - 1);
      assert qs[..k][1..] == qs[1..][..k - 1];
    }
  }

  /** A run that is not safe has a first request that is not. */
  lemma {:induction false} FirstUnsafe(b: Board, st: Run, qs: seq<Request>) returns (k: nat)
    requires !SafeRun(b, st, qs)
    ensures k < |qs| && SafeRun(b, st, qs[..k]) && !Safe(b, ServeAll(b, st, qs[..k]).avail, qs[k])
    decreases qs
  {
    hide Serve, Safe;
    if Safe(b, st.avail, qs[0]) {
      var j := FirstUnsafe(b, Serve(b, st, qs[0]), qs[1..]);
      k := j + 1;
      assert qs[..k][1..] == qs[1..][..j];
    } else {
      k := 0;
    }
  }

  /** The request after a safe start of a run, in both kinds of arithmetic. */
  lemma AfterSafe(b: Board, st: Run, qs: seq<Request>, k: nat)
    requires Known(b) && WellPlaced(b, st) && Sized(qs) && k < |qs| && SafeRun(b, st, qs[..k])
    ensures var mid := ServeAll(b, st, qs[..k]);
            && WellPlaced(b, mid)
            && ServeAll32(b, st, qs[..k + 1]) == Serve32(b, mid, qs[k])
            && ServeAll(b, st, qs[..k + 1]) == Serve(b, mid, qs[k])
  {
    hide Serve, Serve32, WellPlaced, PowerOfTwo, Safe, SafeRun;
    assert qs[..k + 1] == qs[..k] + [qs[k]];
    SafeRunAgrees(b, st, qs[..k]);
    RunIsWellPlaced(b, st, qs[..k]);
    ServeConcat(b, st, qs[..k], [qs[k]]);
    ServeConcat32(b, st, qs[..k], [qs[k]]);
  }

  /** The 32-bit run is the unbounded one at every moment exactly when it is
      safe. */
  lemma RunExact(b: Board, st: Run, qs: seq<Request>)
    requires Known(b) && WellPlaced(b, st) && Sized(qs)
    ensures SafeRun(b, st, qs) <==>
            forall k :: 0 <= k <= |qs| ==> ServeAll32(b, st, qs[..k]) == ServeAll(b, st, qs[..k])
  {
    hide Serve, Serve32, WellPlaced, PowerOfTwo, Safe, SafeRun, ServeAll, ServeAll32;
    if SafeRun(b, st, qs) {
      forall k | 0 <= k <= |qs| ensures ServeAll32(b, st, qs[..k]) == ServeAll(b, st, qs[..k]) {
        SafePrefix(b, st, qs, k);
        SafeRunAgrees(b, st, qs[..k]);
      }
    } else {
      var k := FirstUnsafe(b, st, qs);
      AfterSafe(b, st, qs, k);
      var mid := ServeAll(b, st, qs[..k]);
      Placed(b, mid);
      UnsafeDiffers(b, mid, qs[k]);
    }
  }

  /** Memory was given out up to the free address. */
  ghost predicate Tight(b: Board, st: Run) {
    st.avail.mem > b.memstart ==>
      exists i :: 0 <= i < |st.grants| && !st.grants[i].io && st.grants[i].base + st.grants[i].size == st.avail.mem
  }

  lemma TightStep(b: Board, st: Run, q: Request)
    requires Tight(b, st)
    ensures Tight(b, Serve(b, st, q))
  {
    hide RoundUp;
    var st' := Serve(b, st, q);
    if st' != st {
      var n := |st.grants|;
      assert st'.grants[n].io == q.io;
      assert !q.io ==> st'.grants[n].base + st'.grants[n].size == st'.avail.mem;
      if q.io && st.avail.mem > b.memstart {
        var i :| 0 <= i < n && !st.grants[i].io && st.grants[i].base + st.grants[i].size == st.avail.mem;
        assert st'.grants[i] == st.grants[i];
      }
    }
  }

  lemma {:induction false} RunIsTight(b: Board, st: Run, qs: seq<Request>)
    requires Tight(b, st)
    ensures Tight(b, ServeAll(b, st, qs))
    decreases qs
  {
    hide Serve, Tight;
    if qs != [] {
      TightStep(b, st, qs[0]);
      RunIsTight(b, Serve(b, st, qs[0]), qs[1..]);
    }
  }

  /** An unsafe request leaves the free address outside its window or below
      memory already given out. */
  lemma UnsafeMisplaces(b: Board, st: Run, q: Request)
    requires Known(b) && Within(b, st.avail) && Tight(b, st) && PowerOfTwo(q.size) && !Safe(b, st.avail, q)
    ensures !WellPlaced(b, Serve32(b, st, q))
  {
    hide RoundUp, PowerOfTwo, Alloc32;
    UnsafeStep(b, st, q);
    var st' := Serve32(b, st, q);
    if Within(b, st'.avail) {
      var i :| 0 <= i < |st.grants| && !st.grants[i].io && st.grants[i].base + st.grants[i].size == st.avail.mem;
      assert st'.grants[i] == st.grants[i];
      assert !InWindow(b, st', st'.grants[i]);
    }
  }

  /** From the start, the 32-bit run keeps all grants aligned, in their windows,
      disjoint and below the free addresses exactly when it is safe. */
  lemma PlacedExactly(b: Board, qs: seq<Request>)
    requires Known(b) && Sized(qs)
    ensures SafeRun(b, Start(b), qs) <==>
            forall k :: 0 <= k <= |qs| ==> WellPlaced(b, ServeAll32(b, Start(b), qs[..k]))
  {
    hide Serve, Serve32, PowerOfTwo, Safe, SafeRun, ServeAll, ServeAll32, WellPlaced;
    var st := Start(b);
    StartIsPlaced(b);
    if SafeRun(b, st, qs) {
      forall k | 0 <= k <= |qs| ensures WellPlaced(b, ServeAll32(b, st, qs[..k])) {
        SafePrefix(b, st, qs, k);
        SafeRunAgrees(b, st, qs[..k]);
        RunIsWellPlaced(b, st, qs[..k]);
      }
    } else {
      var k := FirstUnsafe(b, st, qs);
      AfterSafe(b, st, qs, k);
      var mid := ServeAll(b, st, qs[..k]);
      Placed(b, mid);
      RunIsTight(b, st, qs[..k]);
      UnsafeMisplaces(b, mid, qs[k]);
    }
  }

  lemma StartIsPlaced(b: Board)
    requires Known(b)
    ensures WellPlaced(b, Start(b))
  {
  }

  /** In every state a scan can reach, no request up to the board's largest
      size wraps around. */
  lemma NoWrap(b: Board, a: Avail, q: Request)
    requires Known(b) && Within(b, a) && PowerOfTwo(q.size) && q.size <= b.largest
    ensures q.size > 0 && RoundUp(Next(a, q.io), q.size) + q.size < WORD
  {
    hide Pow2, RoundUp, PowerOfTwo;
    SizeBound(q.size);
    Powers();
    if !q.io {
      if b == AMIGAONE {
        MultipleOfPower(q.size, 24, 253);
      } else {
        MultipleOfPower(q.size, 29, 5);
      }
      RoundUpBelow(a.mem, q.size, b.memend);
    }
  }

  /** So runs with no larger request are safe, whatever their length and order. */
  lemma {:induction false} SmallIsSafe(b: Board, st: Run, qs: seq<Request>)
    requires Known(b) && WellPlaced(b, st) && Sized(qs)
    requires forall i :: 0 <= i < |qs| ==> qs[i].size <= b.largest
    ensures SafeRun(b, st, qs)
    decreases qs
  {
    hide Serve, WellPlaced, PowerOfTwo, RoundUp;
    if qs != [] {
      Placed(b, st);
      NoWrap(b, st.avail, qs[0]);
      ServeKeeps(b, st, qs[0]);
      SmallIsSafe(b, Serve(b, st, qs[0]), qs[1..]);
    }
  }

  // ----- base address registers ----------------------------------------------

  /** A register: not implemented, I/O space, or memory space with its four
      attribute bits. */
  datatype Bar = NoBar | IoBar(size: nat) | MemBar(size: nat, attr: nat)

  ghost predicate BarOk(bar: Bar) {
    match bar
    case NoBar => true
    case IoBar(size) => PowerOfTwo(size) && 4 <= size
    case MemBar(size, attr) => PowerOfTwo(size) && 16 <= size && attr < 16 && attr % 2 == 0
  }

  /** What a register reads after all ones were written to it: the bits that
      address inside the BAR stay zero, the attribute bits read as they are. */
  function ReadBack(bar: Bar): int {
    match bar
    case NoBar => 0
    case IoBar(size) => WORD - size + 1
    case MemBar(size, attr) => WORD - size + attr
  }

  /** Type and size from the value read: bar & mask, and ~(bar & ~mask) + 1. */
  function ProbeType(v: nat): nat {
    if v % 2 == 1 then v % 4 else v % 16
  }

  function ProbeSize(v: nat): nat {
    if v % 2 == 1 then (WORD - (v - v % 4)) % WORD else (WORD - (v - v % 16)) % WORD
  }

  /** BAR_MEM_LIMIT_64 in the type. */
  predicate Wide(kind: nat) {
    kind / 4 % 2 == 1
  }

  lemma SmallPowers(size: nat, k: nat)
    requires PowerOfTwo(size) && Pow2(k) <= size
    ensures size % Pow2(k) == 0
  {
    var j: nat :| j < 32 && size == Pow2(j);
    if j < k {
      PowerGrows(j, k);
    }
    PowerDivides(Pow2(k), j, k, 1);
  }

  lemma ProbeValue(size: nat, attr: nat)
    requires 0 < size <= WORD / 2
    requires if attr % 2 == 1 then size % 4 == 0 && attr == 1 else size % 16 == 0 && attr < 16
    ensures ProbeSize(WORD - size + attr) == size && ProbeType(WORD - size + attr) == attr
    ensures (WORD - size + attr) % 2 == attr % 2
  {
    var v: nat := WORD - size + attr;
    var d := if attr % 2 == 1 then 4 else 16;
    var q := WORD / d - size / d;
    assert v == d * q + attr;
    DivModUnique(v, d, q, attr);
    assert v == 2 * (d / 2 * q + attr / 2) + attr % 2;
    DivModUnique(v, 2, d / 2 * q + attr / 2, attr % 2);
    assert v - v % d == WORD - size;
    DivModUnique(size, WORD, 0, size);
  }

  /** Probing recovers the kind, attributes and size of every register. */
  lemma ProbeRecovers(bar: Bar)
    requires BarOk(bar) && bar != NoBar
    ensures var v := ReadBack(bar);
            && 0 < v < WORD
            && ProbeSize(v) == bar.size
            && ProbeType(v) == (if bar.IoBar? then 1 else bar.attr)
            && (v % 2 == 1 <==> bar.IoBar?)
  {
    hide Pow2, PowerOfTwo, ProbeSize, ProbeType;
    SizeBound(bar.size);
    Powers();
    SmallPowers(bar.size, if bar.IoBar? then 2 else 4);
    ProbeValue(bar.size, if bar.IoBar? then 1 else bar.attr);
  }

  /** PCI_DEV() on bus 0, and PCI_BAR() of it. */
  function Device(slot: nat, fn: nat): nat {
    0x8000_0000 + slot * 0x800 + fn * 0x100
  }

  function Register(dev: nat, i: nat): nat {
    dev + 0x10 + 4 * i
  }

  /** The requests of one device: a 64-bit register takes the next one too. */
  function BarRequests(dev: nat, bars: seq<Bar>, i: nat): seq<Request>
    decreases |bars| - i
  {
    if i >= |bars| then []
    else
      match bars[i]
      case NoBar => BarRequests(dev, bars, i + 1)
      case IoBar(size) => [Request(Register(dev, i), true, 1, size)] + BarRequests(dev, bars, i + 1)
      case MemBar(size, attr) =>
        [Request(Register(dev, i), false, attr, size)] + BarRequests(dev, bars, if Wide(attr) then i + 2 else i + 1)
  }

  /** A function of the bus: nothing there, or six registers. */
  datatype Function = Absent | Present(bars: seq<Bar>)

  /** A slot: functions past the first are looked at only if its header says
      multifunction. */
  datatype Slot = Slot(multi: bool, functions: seq<Function>)

  /** The south bridge functions of AmigaOne whose registers are left alone. */
  predicate LeftAlone(b: Board, slot: nat, fn: nat) {
    b == AMIGAONE && slot == 7 && fn in {0, 1, 4, 6}
  }

  function DeviceRequests(b: Board, slot: nat, fn: nat, f: Function): seq<Request> {
    if f.Absent? || LeftAlone(b, slot, fn) then [] else BarRequests(Device(slot, fn), f.bars, 0)
  }

  function OtherRequests(b: Board, slot: nat, fs: seq<Function>, fn: nat): seq<Request>
    decreases |fs| - fn
  {
    if fn >= |fs| then [] else DeviceRequests(b, slot, fn, fs[fn]) + OtherRequests(b, slot, fs, fn + 1)
  }

  function SlotRequests(b: Board, slot: nat, s: Slot): seq<Request>
    requires |s.functions| >= 1
  {
    DeviceRequests(b, slot, 0, s.functions[0]) + if s.multi then OtherRequests(b, slot, s.functions, 1) else []
  }

  ghost predicate FunctionOk(f: Function) {
    f.Present? ==> |f.bars| == 6 && forall i :: 0 <= i < 6 ==> BarOk(f.bars[i])
  }

  ghost predicate SlotOk(s: Slot) {
    |s.functions| == 8 && forall j :: 0 <= j < 8 ==> FunctionOk(s.functions[j])
  }

  ghost predicate BusOk(slots: seq<Slot>) {
    forall i :: 0 <= i < |slots| ==> SlotOk(slots[i])
  }

  function BusRequests(b: Board, slots: seq<Slot>, i: nat): seq<Request>
    requires forall k :: 0 <= k < |slots| ==> |slots[k].functions| >= 1
    decreases |slots| - i
  {
    if i >= |slots| then [] else SlotRequests(b, i, slots[i]) + BusRequests(b, slots, i + 1)
  }

  // ----- the scan ------------------------------------------------------------

  class Allocator {
    const b: Board
    var ioavail: nat
    var memavail: nat

    /** Registers written with an address, in order. */
    var grants: seq<Grant>

    /** setup_pci_params() */
    constructor (b: Board)
      ensures this.b == b && State() == Start(b)
    {
      this.b := b;
      ioavail := b.iostart;
      memavail := b.memstart;
      grants := [];
    }

    ghost function State(): Run
      reads this
    {
      Run(Avail(ioavail, memavail), grants)
    }

    /** addr_for_bar() */
    method AddrForBar(kind: nat, size: nat) returns (ret: nat)
      modifies this`ioavail, this`memavail
      ensures kind == 1 ==> (ret, ioavail) == Alloc32(old(ioavail), b.ioend, size) && memavail == old(memavail)
      ensures kind != 1 ==> (ret, memavail) == Alloc32(old(memavail), b.memend, size) && ioavail == old(ioavail)
    {
      if size == 0 {
        return 0;
      }
      if kind == 1 {
        ret := Round32(ioavail, size);
        if (ret + size) % WORD > b.ioend {
          return 0;
        }
        ioavail := (ret + size) % WORD;
      } else {
        ret := Round32(memavail, size);
        if (ret + size) % WORD > b.memend {
          return 0;
        }
        memavail := (ret + size) % WORD;
      }
    }

    /** One register of the loop in setup_pci_device(): probe, allocate, write. */
    method SetupBar(reg: nat, bar: Bar) returns (kind: nat)
      requires BarOk(bar) && bar != NoBar
      modifies this
      ensures kind == (if bar.IoBar? then 1 else bar.attr)
      ensures State() == Serve32(b, old(State()), Request(reg, bar.IoBar?, kind, bar.size))
    {
      hide PowerOfTwo, RoundUp, Round32, ReadBack, ProbeType, ProbeSize;
      ProbeRecovers(bar);
      var v := ReadBack(bar);
      kind := ProbeType(v);
      var size := ProbeSize(v);
      var base := AddrForBar(kind, size);
      if base != 0 {
        grants := grants + [Grant(reg, v % 2 == 1, base, size, base + kind)];
      }
    }

    /** The loop over the registers of a device. */
    method SetupDevice(dev: nat, bars: seq<Bar>)
      requires |bars| == 6 && forall i :: 0 <= i < 6 ==> BarOk(bars[i])
      modifies this
      ensures State() == ServeAll32(b, old(State()), BarRequests(dev, bars, 0))
    {
      hide Serve32, BarOk;
      ghost var want := ServeAll32(b, State(), BarRequests(dev, bars, 0));
      var i := 0;
      while i < 6
        invariant 0 <= i
        invariant want == ServeAll32(b, State(), BarRequests(dev, bars, i))
      {
        if ReadBack(bars[i]) == 0 {
          NoBarReadsZero(bars[i]);
        } else {
          FirstRequest(dev, bars, i);
          var kind := SetupBar(Register(dev, i), bars[i]);
          if Wide(kind) {
            i := i + 1;
          }
        }
        i := i + 1;
      }
    }

    method SetupFunction(slot: nat, fn: nat, f: Function)
      requires FunctionOk(f)
      modifies this
      ensures State() == ServeAll32(b, old(State()), DeviceRequests(b, slot, fn, f))
    {
      if f.Absent? {
        return;
      }
      if b == AMIGAONE && slot == 7 {
        if fn == 0 || fn == 1 || fn == 4 || fn == 6 {
          return;
        }
      }
      SetupDevice(Device(slot, fn), f.bars);
    }

    method SetupSlot(slot: nat, s: Slot)
      requires SlotOk(s)
      modifies this
      ensures State() == ServeAll32(b, old(State()), SlotRequests(b, slot, s))
    {
      hide DeviceRequests, Serve32, FunctionOk, ServeAll32;
      ghost var st := State();
      ghost var first := DeviceRequests(b, slot, 0, s.functions[0]);
      SetupFunction(slot, 0, s.functions[0]);
      ServeConcat32(b, st, first, if s.multi then OtherRequests(b, slot, s.functions, 1) else []);
      if s.multi {
        ghost var want := ServeAll32(b, State(), OtherRequests(b, slot, s.functions, 1));
        for j := 1 to 8
          invariant want == ServeAll32(b, State(), OtherRequests(b, slot, s.functions, j))
        {
          ServeConcat32(b, State(), DeviceRequests(b, slot, j, s.functions[j]),
                        OtherRequests(b, slot, s.functions, j + 1));
          SetupFunction(slot, j, s.functions[j]);
        }
        ServeNone32(b, State());
      } else {
        ServeNone32(b, State());
      }
    }

    /** The bus scan of amigaone_setup() and sam460_setup(). */
    method SetupBus(slots: seq<Slot>)
      requires Known(b) && State() == Start(b) && |slots| == 32 && BusOk(slots)
      modifies this
      ensures State() == ServeAll32(b, Start(b), BusRequests(b, slots, 0))
      ensures SafeRun(b, Start(b), BusRequests(b, slots, 0)) ==>
                State() == ServeAll(b, Start(b), BusRequests(b, slots, 0)) && WellPlaced(b, State())
    {
      hide SlotRequests, Serve32, SlotOk, ServeAll32, WellPlaced, SafeRun, ServeAll;
      HaveFunctions(slots);
      ghost var qs := BusRequests(b, slots, 0);
      for i := 0 to 32
        invariant ServeAll32(b, Start(b), qs) == ServeAll32(b, State(), BusRequests(b, slots, i))
      {
        ServeConcat32(b, State(), SlotRequests(b, i, slots[i]), BusRequests(b, slots, i + 1));
        SetupSlot(i, slots[i]);
      }
      ServeNone32(b, State());
      if SafeRun(b, Start(b), qs) {
        StartIsPlaced(b);
        BusSized(b, slots, 0);
        SafeRunAgrees(b, Start(b), qs);
        RunIsWellPlaced(b, Start(b), qs);
      }
    }
  }

  lemma {:induction false} BarsSized(dev: nat, bars: seq<Bar>, i: nat)
    requires forall j :: 0 <= j < |bars| ==> BarOk(bars[j])
    ensures Sized(BarRequests(dev, bars, i))
    decreases |bars| - i
  {
    hide PowerOfTwo, Wide;
    if i < |bars| {
      assert BarOk(bars[i]);
      BarsSized(dev, bars, i + 1);
      BarsSized(dev, bars, i + 2);
    }
  }

  lemma DeviceSized(b: Board, slot: nat, fn: nat, f: Function)
    requires FunctionOk(f)
    ensures Sized(DeviceRequests(b, slot, fn, f))
  {
    if f.Present? {
      BarsSized(Device(slot, fn), f.bars, 0);
    }
  }

  lemma {:induction false} OthersSized(b: Board, slot: nat, fs: seq<Function>, fn: nat)
    requires forall j :: 0 <= j < |fs| ==> FunctionOk(fs[j])
    ensures Sized(OtherRequests(b, slot, fs, fn))
    decreases |fs| - fn
  {
    hide PowerOfTwo, DeviceRequests, FunctionOk;
    if fn < |fs| {
      DeviceSized(b, slot, fn, fs[fn]);
      OthersSized(b, slot, fs, fn + 1);
    }
  }

  lemma SlotSized(b: Board, slot: nat, s: Slot)
    requires SlotOk(s)
    ensures Sized(SlotRequests(b, slot, s))
  {
    hide PowerOfTwo, DeviceRequests, OtherRequests, FunctionOk;
    DeviceSized(b, slot, 0, s.functions[0]);
    OthersSized(b, slot, s.functions, 1);
  }

  /** All requests of a bus are for powers of two. */
  lemma {:induction false} BusSized(b: Board, slots: seq<Slot>, i: nat)
    requires BusOk(slots) && forall k :: 0 <= k < |slots| ==> |slots[k].functions| >= 1
    ensures Sized(BusRequests(b, slots, i))
    decreases |slots| - i
  {
    hide PowerOfTwo, SlotRequests, SlotOk;
    if i < |slots| {
      SlotSized(b, i, slots[i]);
      BusSized(b, slots, i + 1);
    }
  }

  lemma HaveFunctions(slots: seq<Slot>)
    requires BusOk(slots)
    ensures forall k :: 0 <= k < |slots| ==> |slots[k].functions| >= 1
  {
    forall k | 0 <= k < |slots| ensures |slots[k].functions| >= 1 {
      assert SlotOk(slots[k]);
    }
  }

  lemma ServeNone32(b: Board, st: Run)
    ensures ServeAll32(b, st, []) == st
  {
  }

  lemma NoBarReadsZero(bar: Bar)
    requires BarOk(bar) && ReadBack(bar) == 0
    ensures bar == NoBar
  {
    if bar != NoBar {
      ProbeRecovers(bar);
    }
  }

  lemma FirstRequest(dev: nat, bars: seq<Bar>, i: nat)
    requires i < |bars| && bars[i] != NoBar
    ensures var kind := if bars[i].IoBar? then 1 else bars[i].attr;
            var qs := BarRequests(dev, bars, i);
            && qs != [] && qs[0] == Request(Register(dev, i), bars[i].IoBar?, kind, bars[i].size)
            && qs[1..] == BarRequests(dev, bars, if Wide(kind) then i + 2 else i + 1)
  {
  }

  // ----- which registers, where ----------------------------------------------

  /** The type of a memory register says 64 bits in its third bit. */
  lemma WideIs(prefetch: bit, wide: bit, low: bit)
    ensures Wide(8 * prefetch + 4 * wide + 2 * low) <==> wide == 1
  {
  }

  /** The upper half of a 64-bit register, which is none of its own. */
  ghost predicate Upper(bars: seq<Bar>, i: nat)
    requires i <= |bars|
  {
    i > 0 && bars[i - 1].MemBar? && bars[i - 1].attr in {4, 6, 12, 14} && !Upper(bars, i - 1)
  }

  ghost predicate Asks(qs: seq<Request>, reg: nat) {
    exists n :: 0 <= n < |qs| && qs[n].reg == reg
  }

  lemma {:induction false} AskedFrom(dev: nat, bars: seq<Bar>, j: nat, n: nat)
    requires n < |BarRequests(dev, bars, j)|
    ensures BarRequests(dev, bars, j)[n].reg >= dev + 0x10 + 4 * j
    decreases |bars| - j
  {
    hide Wide;
    if bars[j] == NoBar {
      AskedFrom(dev, bars, j + 1, n);
    } else if n > 0 {
      FirstRequest(dev, bars, j);
      var next := if bars[j].MemBar? && Wide(bars[j].attr) then j + 2 else j + 1;
      IoIsNotWide();
      assert BarRequests(dev, bars, j)[n] == BarRequests(dev, bars, next)[n - 1];
      AskedFrom(dev, bars, next, n - 1);
    }
  }

  lemma IoIsNotWide()
    ensures !Wide(1)
  {
  }

  lemma AsksStep(dev: nat, bars: seq<Bar>, j: nat, i: nat)
    requires j < |bars| && bars[j] != NoBar
    ensures var next := if bars[j].MemBar? && Wide(bars[j].attr) then j + 2 else j + 1;
            Asks(BarRequests(dev, bars, j), dev + 0x10 + 4 * i) <==>
            i == j || Asks(BarRequests(dev, bars, next), dev + 0x10 + 4 * i)
  {
    hide Wide;
    IoIsNotWide();
    FirstRequest(dev, bars, j);
    var next := if bars[j].MemBar? && Wide(bars[j].attr) then j + 2 else j + 1;
    var qs, tail := BarRequests(dev, bars, j), BarRequests(dev, bars, next);
    assert qs == [qs[0]] + tail;
    assert qs[0].reg == dev + 0x10 + 4 * j;
    if n :| 0 <= n < |tail| && tail[n].reg == dev + 0x10 + 4 * i {
      assert qs[n + 1].reg == dev + 0x10 + 4 * i;
    }
  }

  lemma {:induction false} RequestedFrom(dev: nat, bars: seq<Bar>, j: nat, i: nat)
    requires j <= i < |bars| && !Upper(bars, j) && forall n :: 0 <= n < |bars| ==> BarOk(bars[n])
    ensures Asks(BarRequests(dev, bars, j), dev + 0x10 + 4 * i) <==> bars[i] != NoBar && !Upper(bars, i)
    decreases |bars| - j
  {
    hide PowerOfTwo;
    var next := if bars[j].MemBar? && Wide(bars[j].attr) then j + 2 else j + 1;
    assert BarOk(bars[j]);
    assert bars[j].MemBar? ==> (Wide(bars[j].attr) <==> bars[j].attr in {4, 6, 12, 14});
    hide Wide;
    if bars[j] != NoBar {
      AsksStep(dev, bars, j, i);
    }
    if next <= i {
      RequestedFrom(dev, bars, next, i);
    } else {
      forall n | 0 <= n < |BarRequests(dev, bars, next)|
        ensures BarRequests(dev, bars, next)[n].reg != dev + 0x10 + 4 * i
      {
        AskedFrom(dev, bars, next, n);
      }
    }
  }

  /** Register i of a device is asked for exactly when it is there and is not the
      upper half of a 64-bit one. */
  lemma RequestedExactly(dev: nat, bars: seq<Bar>, i: nat)
    requires i < |bars| && forall n :: 0 <= n < |bars| ==> BarOk(bars[n])
    ensures Asks(BarRequests(dev, bars, 0), dev + 0x10 + 4 * i) <==> bars[i] != NoBar && !Upper(bars, i)
  {
    hide BarOk, BarRequests, Asks;
    RequestedFrom(dev, bars, 0, i);
  }

  /** Slot, function and register are found again in an address, as PCI_SLOT(),
      PCI_FUNC() and PCI_BAR() have them: different registers, different
      addresses. */
  lemma AddressParts(slot: nat, fn: nat, i: nat)
    requires slot < 32 && fn < 8 && i < 6
    ensures var a := Register(Device(slot, fn), i);
            && a / 0x8000_0000 == 1 && a / 0x1_0000 % 256 == 0
            && a / 0x800 % 32 == slot && a / 0x100 % 8 == fn && a % 0x100 == 0x10 + 4 * i
  {
    var a, r := Register(Device(slot, fn), i), 0x10 + 4 * i;
    DivModUnique(a, 0x8000_0000, 1, 0x800 * slot + 0x100 * fn + r);
    DivModUnique(a, 0x1_0000, 0x8000, 0x800 * slot + 0x100 * fn + r);
    DivModUnique(0x8000, 256, 0x80, 0);
    DivModUnique(a, 0x800, 0x10_0000 + slot, 0x100 * fn + r);
    DivModUnique(0x10_0000 + slot, 32, 0x8000, slot);
    DivModUnique(a, 0x100, 0x80_0000 + 8 * slot + fn, r);
    DivModUnique(0x80_0000 + 8 * slot + fn, 8, 0x10_0000 + slot, fn);
  }

  /** On AmigaOne four functions of slot 7 get no addresses; all others do. */
  lemma Served(b: Board, slot: nat, fn: nat, bars: seq<Bar>)
    requires Known(b)
    ensures DeviceRequests(b, slot, fn, Absent) == []
    ensures DeviceRequests(b, slot, fn, Present(bars)) ==
            if b == AMIGAONE && slot == 7 && (fn == 0 || fn == 1 || fn == 4 || fn == 6) then []
            else BarRequests(Device(slot, fn), bars, 0)
  {
    hide BarRequests;
  }

  /** The windows of both boards, and that a request gets nothing exactly when it
      does not fit into what is left of its window. */
  lemma Windows(st: Run, q: Request)
    requires q.size > 0
    ensures Start(AMIGAONE).avail == Avail(0x80_0000, 0x8000_0000)
    ensures Start(SAM460).avail == Avail(0x100, 0x8000_0000)
    ensures Serve(AMIGAONE, st, q) == st <==>
            RoundUp(Next(st.avail, q.io), q.size) + q.size > if q.io then 0xc0_0000 else 0xfd00_0000
    ensures Serve(SAM460, st, q) == st <==>
            RoundUp(Next(st.avail, q.io), q.size) + q.size > if q.io then 0x1_0000 else 0xa000_0000
  {
    hide RoundUp;
  }

  // ----- scans that go wrong -------------------------------------------------

  /** A slot with a card of one function whose first registers ask for memory of
      these sizes. */
  function Card(sizes: seq<nat>): Slot {
    var bars := seq(6, i requires 0 <= i < 6 => if i < |sizes| then MemBar(sizes[i], 0) else NoBar);
    Slot(false, [Present(bars)] + seq(7, i => Absent))
  }

  /** A bus with these cards in its first slots and nothing after them. */
  function Bus(cards: seq<seq<nat>>): (slots: seq<Slot>)
    ensures |slots| == 32 && forall i :: 0 <= i < 32 ==> |slots[i].functions| == 8
  {
    seq(32, i requires 0 <= i < 32 => if i < |cards| then Card(cards[i]) else Slot(false, seq(8, j => Absent)))
  }

  function MemoryRequests(dev: nat, sizes: seq<nat>, j: nat): seq<Request>
    decreases |sizes| - j
  {
    if j >= |sizes| then []
    else [Request(Register(dev, j), false, 0, sizes[j])] + MemoryRequests(dev, sizes, j + 1)
  }

  lemma {:induction false} CardRequests(dev: nat, sizes: seq<nat>, j: nat)
    requires |sizes| <= 6
    ensures BarRequests(dev, Card(sizes).functions[0].bars, j) == MemoryRequests(dev, sizes, j)
    decreases 6 - j
  {
    hide Register;
    var bars := Card(sizes).functions[0].bars;
    assert |bars| == 6;
    if j < 6 {
      CardRequests(dev, sizes, j + 1);
      assert !Wide(0);
    }
  }

  lemma {:induction false} NoMoreCards(cards: seq<seq<nat>>, i: nat)
    requires i >= |cards|
    ensures BusRequests(AMIGAONE, Bus(cards), i) == []
    decreases 32 - i
  {
    if i < 32 {
      NoMoreCards(cards, i + 1);
    }
  }

  lemma NextCard(cards: seq<seq<nat>>, i: nat)
    requires i < |cards| && i < 7 && |cards[i]| <= 6
    ensures BusRequests(AMIGAONE, Bus(cards), i) ==
            MemoryRequests(Device(i, 0), cards[i], 0) + BusRequests(AMIGAONE, Bus(cards), i + 1)
  {
    hide BarRequests, MemoryRequests, BusRequests;
    CardRequests(Device(i, 0), cards[i], 0);
    var slots := Bus(cards);
    assert SlotRequests(AMIGAONE, i, slots[i]) == MemoryRequests(Device(i, 0), cards[i], 0);
    BusStep(AMIGAONE, slots, i);
  }

  lemma BusStep(b: Board, slots: seq<Slot>, i: nat)
    requires (forall k :: 0 <= k < |slots| ==> |slots[k].functions| >= 1) && i < |slots|
    ensures BusRequests(b, slots, i) == SlotRequests(b, i, slots[i]) + BusRequests(b, slots, i + 1)
  {
  }

  /** A register that is served at the free address. */
  lemma CardStep(st: Run, dev: nat, sizes: seq<nat>, j: nat, rest: seq<Request>) returns (st': Run)
    requires j < |sizes| && sizes[j] > 0
    requires 0 < st.avail.mem && st.avail.mem + sizes[j] <= AMIGAONE.memend && st.avail.mem % sizes[j] == 0
    ensures st'.avail.mem == st.avail.mem + sizes[j]
    ensures st'.grants == st.grants + [Grant(Register(dev, j), false, st.avail.mem, sizes[j], st.avail.mem)]
    ensures var qs, qs' := MemoryRequests(dev, sizes, j) + rest, MemoryRequests(dev, sizes, j + 1) + rest;
            && ServeAll32(AMIGAONE, st, qs) == ServeAll32(AMIGAONE, st', qs')
            && (SafeRun(AMIGAONE, st, qs) <==> SafeRun(AMIGAONE, st', qs'))
  {
    hide RoundUp, Round32, Register;
    var q := FirstOf(dev, sizes, j, rest);
    AlignedRound(st.avail.mem, sizes[j]);
    ModWord(st.avail.mem + sizes[j]);
    st' := Serve32(AMIGAONE, st, q);
  }

  lemma FirstOf(dev: nat, sizes: seq<nat>, j: nat, rest: seq<Request>) returns (q: Request)
    requires j < |sizes|
    ensures q == Request(Register(dev, j), false, 0, sizes[j])
    ensures var qs := MemoryRequests(dev, sizes, j) + rest;
            qs != [] && qs[0] == q && qs[1..] == MemoryRequests(dev, sizes, j + 1) + rest
  {
    hide Register;
    q := Request(Register(dev, j), false, 0, sizes[j]);
    assert MemoryRequests(dev, sizes, j) == [q] + MemoryRequests(dev, sizes, j + 1);
  }

  lemma AlignedRound(n: nat, d: nat)
    requires d > 0 && n % d == 0 && n + d < WORD
    ensures RoundUp(n, d) == Round32(n, d) == n
  {
    DivModUnique(n + d - 1, d, n / d, d - 1);
    Round32NoCarry(n, d);
  }

  const SIX: seq<nat> := [0x4000_0000, 0x2000_0000, 0x1000_0000, 0x800_0000, 0x400_0000, 0x80_0000]
  const ONE: seq<nat> := [0x200_0000]
  const THREE: seq<nat> := [16, 0x8000_0000, 16]

  lemma LargePowers(n: nat)
    requires n in SIX || n in ONE || n in THREE
    ensures PowerOfTwo(n)
  {
    Powers();
    assert Pow2(31) == 2 * Pow2(30) && Pow2(29) == 2 * Pow2(28) && Pow2(28) == 2 * Pow2(27);
    assert Pow2(27) == 2 * Pow2(26) && Pow2(26) == 2 * Pow2(25) && Pow2(24) == 2 * Pow2(23);
  }

  lemma BusIsOk(cards: seq<seq<nat>>)
    requires forall i :: 0 <= i < |cards| ==> cards[i] == SIX || cards[i] == ONE || cards[i] == THREE
    ensures BusOk(Bus(cards))
  {
    hide PowerOfTwo;
    forall i | 0 <= i < 32
      ensures SlotOk(Bus(cards)[i])
    {
      if i < |cards| {
        forall n | n in cards[i] ensures PowerOfTwo(n) && n >= 16 {
          LargePowers(n);
        }
      }
    }
  }

  /** The bound of AmigaOne is sharp: with six registers that fit and one of
      twice that size the scan hands out memory outside the window and forgets
      what it gave. */
  lemma WrapHappens()
    ensures var slots := Bus([SIX, ONE]);
            var qs := BusRequests(AMIGAONE, slots, 0);
            var st := ServeAll32(AMIGAONE, Start(AMIGAONE), qs);
            && BusOk(slots) && ONE[0] == 2 * AMIGAONE.largest
            && st.avail.mem == 0 && |st.grants| == 7
            && st.grants[6].base == 0xfe00_0000 && st.grants[6].size == ONE[0]
            && !SafeRun(AMIGAONE, Start(AMIGAONE), qs)
  {
    hide Serve32, Serve, Safe, MemoryRequests, BusRequests, BusOk, Bus, Register;
    var cards := [SIX, ONE];
    BusIsOk(cards);
    NextCard(cards, 0);
    NextCard(cards, 1);
    NoMoreCards(cards, 2);
    var st := SixServed(MemoryRequests(Device(1, 0), ONE, 0) + []);
    var q := FirstOf(Device(1, 0), ONE, 0, []);
    NoMoreRegisters(Device(1, 0), ONE, []);
    WrapStep(st, q);
  }

  lemma SixServed(rest: seq<Request>) returns (st: Run)
    ensures st.avail.mem == 0xfc80_0000 && |st.grants| == 6
    ensures var qs := MemoryRequests(Device(0, 0), SIX, 0) + rest;
            && ServeAll32(AMIGAONE, Start(AMIGAONE), qs) == ServeAll32(AMIGAONE, st, rest)
            && (SafeRun(AMIGAONE, Start(AMIGAONE), qs) <==> SafeRun(AMIGAONE, st, rest))
  {
    hide ServeAll32, SafeRun, MemoryRequests, Register;
    var dev := Device(0, 0);
    st := CardStep(Start(AMIGAONE), dev, SIX, 0, rest);
    st := CardStep(st, dev, SIX, 1, rest);
    st := CardStep(st, dev, SIX, 2, rest);
    st := CardStep(st, dev, SIX, 3, rest);
    st := CardStep(st, dev, SIX, 4, rest);
    st := CardStep(st, dev, SIX, 5, rest);
    NoMoreRegisters(dev, SIX, rest);
  }

  lemma NoMoreRegisters(dev: nat, sizes: seq<nat>, rest: seq<Request>)
    ensures MemoryRequests(dev, sizes, |sizes|) + rest == rest
  {
  }

  lemma WrapStep(st: Run, q: Request)
    requires st.avail.mem == 0xfc80_0000 && !q.io && q.kind == 0 && q.size == 0x200_0000
    ensures var st' := Serve32(AMIGAONE, st, q);
            st'.avail.mem == 0 && st'.grants == st.grants + [Grant(q.reg, false, 0xfe00_0000, q.size, 0xfe00_0000)]
    ensures !Safe(AMIGAONE, st.avail, q)
  {
  }

  /** A register of half the address space can put the free address back to the
      start of the window, so that two registers get the same address. */
  lemma OverlapHappens()
    ensures var slots := Bus([THREE]);
            var qs := BusRequests(AMIGAONE, slots, 0);
            var st := ServeAll32(AMIGAONE, Start(AMIGAONE), qs);
            && BusOk(slots)
            && |st.grants| == 2 && st.grants[0].base == st.grants[1].base == AMIGAONE.memstart
            && !Apart(st.grants[0], st.grants[1])
            && !SafeRun(AMIGAONE, Start(AMIGAONE), qs)
  {
    hide Serve32, Serve, Safe, MemoryRequests, BusRequests, BusOk, Bus, Register;
    var cards, dev := [THREE], Device(0, 0);
    BusIsOk(cards);
    NextCard(cards, 0);
    NoMoreCards(cards, 1);
    var s1 := CardStep(Start(AMIGAONE), dev, THREE, 0, []);
    var q := FirstOf(dev, THREE, 1, []);
    RewindStep(s1, q);
    var s2 := Serve32(AMIGAONE, s1, q);
    var s3 := CardStep(s2, dev, THREE, 2, []);
    NoMoreRegisters(dev, THREE, []);
  }

  lemma RewindStep(st: Run, q: Request)
    requires st.avail.mem == 0x8000_0010 && !q.io && q.size == 0x8000_0000
    ensures Serve32(AMIGAONE, st, q) == st.(avail := st.avail.(mem := q.size)) && !Safe(AMIGAONE, st.avail, q)
  {
  }
}
