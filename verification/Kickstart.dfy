/**
  Loading Kickstart modules (boot_aos.c): load_module_from_zip() as a step on
  what has been placed so far, the layout that any run of such steps leaves, and
  what memory holds after the images, names, structs and links were written.
 */
module Kickstart {
  import opened Bits
  import opened Options
  import opened ByteMemory
  import opened AosList
  import opened Rounding

  const KICKLIST_ADDR: nat := 0xec00000
  const LIST_SIZE: nat := 12
  const MODULE_SIZE: nat := 36
  const SLASH: byte := 47

  /** What brd.claim() grants, the load address of the first module, and the
      archive members that can be found and extracted, with their bytes. */
  datatype Board = Board(claim: (nat, nat) -> bool, execAddr: nat, files: map<seq<byte>, seq<byte>>) {
    /** brd.claim(): the memory asked for, or nothing. */
    predicate Claim(addr: nat, size: nat) {
      addr < SPACE && size < SPACE && addr + size <= SPACE && claim(addr, size)
    }
  }

  /** A loaded module: its struct, its data, and what the struct says. */
  datatype Module = Module(addr: nat, data: nat, bytes: seq<byte>, name: seq<byte>, id: byte) {
    function NameAddr(): nat {
      addr + MODULE_SIZE
    }

    function End(): nat {
      addr + MODULE_SIZE + |name| + 1
    }

    function DataEnd(): nat {
      data + |bytes|
    }
  }

  /** The next free address and the modules loaded, in list order. */
  datatype Kick = Kick(avail: nat, mods: seq<Module>)

  /** The part of a path after its last slash. */
  function BaseName(path: seq<byte>): (name: seq<byte>)
    ensures |name| <= |path| && SLASH !in name
  {
    if path == [] || path[|path| - 1] == SLASH then []
    else BaseName(path[..|path| - 1]) + [path[|path| - 1]]
  }

  /** The name is what follows the last slash (47), or the whole path. */
  lemma {:induction false} BaseNameIs(path: seq<byte>, i: nat)
    requires i <= |path| && 47 !in path[i..] && (i == 0 || path[i - 1] == 47)
    ensures BaseName(path) == path[i..]
    decreases |path|
  {
    if i < |path| {
      var n := |path| - 1;
      assert path[n] == path[i..][n - i];
      assert path[..n][i..] == path[i..][..n - i];
      assert path[i..] == path[..n][i..] + [path[n]];
      BaseNameIs(path[..n], i);
    }
  }

  /** load_module_from_zip(), as boot_aos_zipkick() calls it: the first module
      goes to the exec address with its struct in the kicklist area, the others
      go to the kicklist area with their struct after the data. */
  function Load(b: Board, k: Kick, path: seq<byte>): Option<Kick> {
    var name := BaseName(path);
    if name == [] || path !in b.files then None
    else
      var bytes := b.files[path];
      if k.mods == [] then
        var clen := RoundUp(MODULE_SIZE + |name| + 1, 32);
        if !b.Claim(b.execAddr, |bytes|) || !b.Claim(k.avail, clen) then None
        else Some(Kick(k.avail + clen, [Module(k.avail, b.execAddr, bytes, name, 1)]))
      else
        var off := RoundUp(|bytes|, 4);
        var clen := RoundUp(off + MODULE_SIZE + |name| + 1, 32);
        if !b.Claim(k.avail, clen) then None
        else Some(Kick(k.avail + clen, k.mods + [Module(k.avail + off, k.avail, bytes, name, 2)]))
  }

  /** The board's answer to a request for memory that it can have. */
  ghost predicate Granted(b: Board, addr: nat, size: nat) {
    addr < 0x1_0000_0000 && size < 0x1_0000_0000 && addr + size <= 0x1_0000_0000 && b.claim(addr, size)
  }

  /** A load succeeds exactly when the path has a name, the archive has the path,
      and the board grants what is needed: the image and then 37 bytes more than
      the name for the first module, both in one for the others. */
  lemma LoadsExactly(b: Board, k: Kick, path: seq<byte>)
    ensures Load(b, k, path).Some? <==>
            && path != [] && path[|path| - 1] != 47 && path in b.files
            && var n, size := |b.files[path]|, 37 + |BaseName(path)|;
               if k.mods == [] then Granted(b, b.execAddr, n) && Granted(b, k.avail, RoundUp(size, 32))
               else Granted(b, k.avail, RoundUp(RoundUp(n, 4) + size, 32))
  {
    hide RoundUp;
  }

  /** Where a load puts things, in bytes: the first struct at 0xec0000c, later
      ones at the next multiple of four after their image; the name 36 bytes into
      the struct; the free address a multiple of 32 bytes further, with less than
      32 left over. */
  lemma LoadPlacement(b: Board, k: Kick, path: seq<byte>)
    requires Load(b, k, path).Some?
    ensures path in b.files && START == Kick(0xec0000c, [])
    ensures var k' := Load(b, k, path).value;
            && |k'.mods| == |k.mods| + 1
            && var m, used := k'.mods[|k.mods|], k'.avail - k.avail;
               && m.bytes == b.files[path] && m.name == BaseName(path) && m.NameAddr() == m.addr + 36
               && used % 32 == 0 && m.End() <= k'.avail < m.End() + 32
               && if k.mods == [] then m.addr == k.avail && m.data == b.execAddr && m.id == 1
                  else
                    && m.data == k.avail && m.id == 2
                    && (m.addr - k.avail) % 4 == 0 && m.data + |m.bytes| <= m.addr < m.data + |m.bytes| + 4
  {
    hide BaseName, RoundUp;
  }

  // ----- layout --------------------------------------------------------------

  datatype Region = Region(base: nat, size: nat)

  ghost predicate Disjoint(a: Region, b: Region) {
    a.base + a.size <= b.base || b.base + b.size <= a.base
  }

  function ModuleRegions(m: Module): (r: seq<Region>)
    ensures |r| == 3
  {
    [Region(m.data, |m.bytes|), Region(m.addr, MODULE_SIZE), Region(m.NameAddr(), |m.name| + 1)]
  }

  /** Everything a run has placed: list header, data, structs and names. */
  function Regions(mods: seq<Module>): (r: seq<Region>)
    ensures |r| == 1 + 3 * |mods|
  {
    if mods == [] then [Region(KICKLIST_ADDR, LIST_SIZE)]
    else Regions(mods[..|mods| - 1]) + ModuleRegions(mods[|mods| - 1])
  }

  ghost predicate AllDisjoint(r: seq<Region>) {
    forall i, j :: 0 <= i < j < |r| ==> Disjoint(r[i], r[j])
  }

  const START: Kick := Kick(KICKLIST_ADDR + LIST_SIZE, [])

  /** A run of loads from the empty list. */
  function LoadAll(b: Board, paths: seq<seq<byte>>): Option<Kick> {
    if paths == [] then Some(START)
    else
      match LoadAll(b, paths[..|paths| - 1])
      case None => None
      case Some(k) => Load(b, k, paths[|paths| - 1])
  }

  /** Structs are aligned and follow one another, data before struct, from the
      list header up to the free address; only the first module's data is
      elsewhere. */
  ghost predicate Laid(b: Board, k: Kick) {
    && KICKLIST_ADDR + LIST_SIZE <= k.avail <= SPACE && k.avail % 4 == 0
    && (k.mods == [] ==> k == START)
    && (forall i :: 0 <= i < |k.mods| ==> Placed(b, k, i))
    && (forall i, j :: 0 <= i < j < |k.mods| ==> k.mods[i].End() <= k.mods[j].data)
  }

  ghost predicate Placed(b: Board, k: Kick, i: nat)
    requires i < |k.mods|
  {
    var m := k.mods[i];
    && m.addr % 4 == 0 && KICKLIST_ADDR + LIST_SIZE <= m.addr && m.End() <= k.avail
    && m.data < SPACE && |m.bytes| < SPACE && m.DataEnd() <= SPACE
    && (if i == 0 then m.data == b.execAddr && m.id == 1
        else KICKLIST_ADDR + LIST_SIZE <= m.data && m.DataEnd() <= m.addr && m.id == 2)
  }

  /** The module that a load adds is placed between the old and the new free
      address. */
  lemma LoadPlaces(b: Board, k: Kick, path: seq<byte>)
    requires KICKLIST_ADDR + LIST_SIZE <= k.avail <= SPACE && k.avail % 4 == 0 && Load(b, k, path).Some?
    ensures var k', n := Load(b, k, path).value, |k.mods|;
            && |k'.mods| == n + 1 && k'.mods[..n] == k.mods
            && k.avail <= k'.avail <= SPACE && k'.avail % 4 == 0
            && Placed(b, k', n) && (n > 0 ==> k.avail <= k'.mods[n].data)
  {
    hide BaseName, RoundUp;
    var name, size := BaseName(path), |b.files[path]|;
    if k.mods == [] {
      FourDivides(k.avail, RoundUp(MODULE_SIZE + |name| + 1, 32));
    } else {
      FourDivides(k.avail, RoundUp(size, 4));
      FourDivides(k.avail, RoundUp(RoundUp(size, 4) + MODULE_SIZE + |name| + 1, 32));
    }
  }

  /** Every load keeps the layout. */
  lemma LoadKeepsLaid(b: Board, k: Kick, path: seq<byte>)
    requires Laid(b, k) && Load(b, k, path).Some?
    ensures Laid(b, Load(b, k, path).value)
  {
    hide Load;
    var k', n := Load(b, k, path).value, |k.mods|;
    LoadPlaces(b, k, path);
    forall i | 0 <= i < n
      ensures k'.mods[i] == k.mods[i] && Placed(b, k, i)
    {
      assert k'.mods[..n][i] == k.mods[i];
    }
  }

  lemma FourDivides(a: nat, c: nat)
    requires a % 4 == 0 && c >= 0
    ensures c % 32 == 0 ==> (a + c) % 4 == 0
    ensures c % 4 == 0 ==> (a + c) % 4 == 0
  {
  }

  lemma {:induction false} RunIsLaid(b: Board, paths: seq<seq<byte>>)
    requires LoadAll(b, paths).Some?
    ensures var k := LoadAll(b, paths).value;
            && Laid(b, k) && |k.mods| == |paths|
            && (paths != [] ==> paths[0] in b.files && k.mods[0].bytes == b.files[paths[0]])
    decreases |paths|
  {
    hide Laid, BaseName, RoundUp;
    if paths == [] {
      StartIsLaid(b);
    } else {
      var rest, p := paths[..|paths| - 1], paths[|paths| - 1];
      RunIsLaid(b, rest);
      LoadKeepsLaid(b, LoadAll(b, rest).value, p);
    }
  }

  lemma StartIsLaid(b: Board)
    ensures Laid(b, START)
  {
  }

  /** Everything placed by the first n modules ends where they end. */
  ghost predicate Below(r: seq<Region>, top: nat) {
    forall i :: 0 <= i < |r| ==> r[i].base + r[i].size <= top
  }

  lemma Stack(r: seq<Region>, t: seq<Region>)
    requires AllDisjoint(r) && AllDisjoint(t)
    requires forall i, j :: 0 <= i < |r| && 0 <= j < |t| ==> Disjoint(r[i], t[j])
    ensures AllDisjoint(r + t)
  {
  }

  lemma {:induction false} RegionsDisjoint(b: Board, k: Kick, n: nat)
    requires Laid(b, k) && n <= |k.mods|
    requires k.mods != [] ==> b.execAddr + |k.mods[0].bytes| <= KICKLIST_ADDR
    ensures AllDisjoint(Regions(k.mods[..n]))
    ensures Below(Regions(k.mods[..n]), if n == 0 then KICKLIST_ADDR + LIST_SIZE else k.mods[n - 1].End())
    decreases n
  {
    if n == 0 {
    } else {
      RegionsDisjoint(b, k, n - 1);
      var r, t := Regions(k.mods[..n - 1]), ModuleRegions(k.mods[n - 1]);
      assert k.mods[..n][..n - 1] == k.mods[..n - 1];
      assert Regions(k.mods[..n]) == r + t;
      assert Placed(b, k, n - 1);
      if n == 1 {
        assert k.mods[..0] == [];
        assert r == [Region(KICKLIST_ADDR, LIST_SIZE)];
      } else {
        assert k.mods[n - 2].End() <= k.mods[n - 1].data;
      }
      Stack(r, t);
    }
  }

  /** Over any run on a board whose exec address is below the kicklist area:
      list header, data, structs and names are pairwise disjoint exactly when
      the first module's image ends below that area. Structs are aligned, and
      every name with its terminator fits below the free address. */
  lemma RunLayout(b: Board, paths: seq<seq<byte>>)
    requires LoadAll(b, paths).Some? && paths != [] && b.execAddr < KICKLIST_ADDR
    ensures var k := LoadAll(b, paths).value;
            && paths[0] in b.files
            && (AllDisjoint(Regions(k.mods)) <==> b.execAddr + |b.files[paths[0]]| <= KICKLIST_ADDR)
            && forall i :: 0 <= i < |k.mods| ==> k.mods[i].addr % 4 == 0 && k.mods[i].End() <= k.avail
  {
    hide LoadAll, Regions, RoundUp;
    RunIsLaid(b, paths);
    var k := LoadAll(b, paths).value;
    forall i | 0 <= i < |k.mods|
      ensures k.mods[i].addr % 4 == 0 && k.mods[i].End() <= k.avail
    {
      assert Placed(b, k, i);
    }
    assert Placed(b, k, 0);
    if b.execAddr + |k.mods[0].bytes| <= KICKLIST_ADDR {
      RegionsDisjoint(b, k, |k.mods|);
      assert k.mods[..|k.mods|] == k.mods;
    } else {
      FirstRegions(k.mods);
      assert !Disjoint(Regions(k.mods)[0], Regions(k.mods)[1]);
    }
  }

  lemma {:induction false} FirstRegions(mods: seq<Module>)
    requires mods != []
    ensures Regions(mods)[0] == Region(KICKLIST_ADDR, LIST_SIZE)
    ensures Regions(mods)[1] == Region(mods[0].data, |mods[0].bytes|)
    decreases |mods|
  {
    var rest := mods[..|mods| - 1];
    if rest != [] {
      FirstRegions(rest);
    }
  }

  // ----- what is written -----------------------------------------------------

  function Addresses(mods: seq<Module>): (r: seq<nat>)
    ensures |r| == |mods| && forall i :: 0 <= i < |mods| ==> r[i] == mods[i].addr
  {
    seq(|mods|, i requires 0 <= i < |mods| => mods[i].addr)
  }

  /** The fields of the struct that add_module() sets, links apart. */
  function StoreFields(w: Memory, m: Module): Memory {
    var w1 := Write(w, m.NameAddr(), m.name + [0]);
    var w2 := Poke(Poke(w1, m.addr + 8, m.NameAddr()), m.addr + 12, NULL);
    var w3 := Write(w2, m.addr + 16, [0, 2, 0, 3]);
    var w4 := Poke(Poke(w3, m.addr + 20, m.addr + 20), m.addr + 24, m.addr + 24);
    Poke(Poke(w4, m.addr + 28, m.data), m.addr + 32, |m.bytes|)
  }

  /** Everything a load writes: the image, the struct with its name, the list
      links, and the id of the first module. */
  function Install(w: Memory, m: Module): Memory {
    var v := AddTail(StoreFields(Write(w, m.data, m.bytes), m), KICKLIST_ADDR, m.addr);
    if m.id == 1 then Write(v, m.addr + 16, [0, 1]) else v
  }

  /** Memory after a run that started with w. */
  function RunMemory(w: Memory, mods: seq<Module>): Memory {
    if mods == [] then Init(w, KICKLIST_ADDR)
    else Install(RunMemory(w, mods[..|mods| - 1]), mods[|mods| - 1])
  }

  lemma RunStep(w: Memory, mods: seq<Module>, m: Module)
    ensures RunMemory(w, mods + [m]) == Install(RunMemory(w, mods), m)
  {
    hide Install;
    assert (mods + [m])[..|mods|] == mods;
  }

  // ----- what memory holds ---------------------------------------------------

  ghost predicate HasFields(w: Memory, m: Module) {
    && Peek(w, m.addr + 8) == m.addr + 36 && Peek(w, m.addr + 12) == 0
    && Peek(w, m.addr + 20) == m.addr + 20 && Peek(w, m.addr + 24) == m.addr + 24
    && Peek(w, m.addr + 28) == m.data && Peek(w, m.addr + 32) == |m.bytes|
  }

  /** Struct (links apart), name and image of m are in memory. */
  ghost predicate Stored(w: Memory, m: Module) {
    && HasFields(w, m) && Has(w, m.addr + 16, [0, m.id, 0, 3])
    && Has(w, m.NameAddr(), m.name + [0]) && Has(w, m.data, m.bytes)
  }

  /** Memory holds the list of exactly these modules, and each of them. */
  ghost predicate Holds(w: Memory, mods: seq<Module>) {
    && IsList(w, KICKLIST_ADDR, Addresses(mods))
    && forall i :: 0 <= i < |mods| ==> Stored(w, mods[i])
  }

  /** The first image ends below the kicklist area. */
  ghost predicate Fits(b: Board, k: Kick) {
    k.mods != [] ==> b.execAddr + |k.mods[0].bytes| <= KICKLIST_ADDR
  }

  /** Bytes that Stored speaks of. */
  ghost predicate Owned(m: Module, x: nat) {
    m.addr + 8 <= x < m.End() || m.data <= x < m.DataEnd()
  }

  lemma StoredFrame(w: Memory, v: Memory, m: Module)
    requires Stored(w, m) && forall x: nat :: Owned(m, x) ==> w(x) == v(x)
    ensures Stored(v, m)
  {
    hide Peek, Has;
    assert forall x: nat :: m.addr + 8 <= x < m.addr + 36 ==> Owned(m, x);
    PeekSame(w, v, m.addr + 8);
    PeekSame(w, v, m.addr + 12);
    PeekSame(w, v, m.addr + 20);
    PeekSame(w, v, m.addr + 24);
    PeekSame(w, v, m.addr + 28);
    PeekSame(w, v, m.addr + 32);
    HasSame(w, v, m.addr + 16, [0, m.id, 0, 3]);
    HasSame(w, v, m.NameAddr(), m.name + [0]);
    HasSame(w, v, m.data, m.bytes);
  }

  // ----- writing it keeps what is there --------------------------------------

  ghost predicate InRange(m: Module) {
    m.End() <= SPACE && m.data < SPACE && |m.bytes| < SPACE
  }

  lemma FieldsWritten(w: Memory, m: Module)
    requires InRange(m)
    ensures var v := StoreFields(w, m);
            HasFields(v, m) && Has(v, m.addr + 16, [0, 2, 0, 3]) && Has(v, m.NameAddr(), m.name + [0])
  {
    hide Peek, ByteOf;
    var w1 := Write(w, m.NameAddr(), m.name + [0]);
    var p1 := Poke(w1, m.addr + 8, m.NameAddr());
    var p2 := Poke(p1, m.addr + 12, NULL);
    var w3 := Write(p2, m.addr + 16, [0, 2, 0, 3]);
    var p3 := Poke(w3, m.addr + 20, m.addr + 20);
    var p4 := Poke(p3, m.addr + 24, m.addr + 24);
    var p5 := Poke(p4, m.addr + 28, m.data);
    var v := Poke(p5, m.addr + 32, |m.bytes|);
    PeekPoke(w1, m.addr + 8, m.NameAddr());
    PeekSame(p1, v, m.addr + 8);
    PeekPoke(p1, m.addr + 12, NULL);
    PeekSame(p2, v, m.addr + 12);
    PeekPoke(w3, m.addr + 20, m.addr + 20);
    PeekSame(p3, v, m.addr + 20);
    PeekPoke(p3, m.addr + 24, m.addr + 24);
    PeekSame(p4, v, m.addr + 24);
    PeekPoke(p4, m.addr + 28, m.data);
    PeekSame(p5, v, m.addr + 28);
    PeekPoke(p5, m.addr + 32, |m.bytes|);
    HasSame(w3, v, m.addr + 16, [0, 2, 0, 3]);
    HasSame(w1, v, m.NameAddr(), m.name + [0]);
  }

  lemma FieldsFrame(w: Memory, m: Module, x: nat)
    requires !(m.addr + 8 <= x < m.End())
    ensures StoreFields(w, m)(x) == w(x)
  {
    hide ByteOf;
  }

  /** Image and struct, before the links. */
  lemma BodyWritten(w: Memory, m: Module)
    requires InRange(m) && (m.DataEnd() <= m.addr || m.End() <= m.data)
    ensures var v := StoreFields(Write(w, m.data, m.bytes), m);
            && Stored(v, m.(id := 2))
            && forall x: nat :: !Owned(m, x) ==> v(x) == w(x)
  {
    hide Peek, StoreFields;
    var w1 := Write(w, m.data, m.bytes);
    var v := StoreFields(w1, m);
    FieldsWritten(w1, m);
    forall x: nat | !(m.addr + 8 <= x < m.End())
      ensures v(x) == w1(x)
    {
      FieldsFrame(w1, m, x);
    }
    HasSame(w1, v, m.data, m.bytes);
  }

  /** The last node before the i-th module, as alist_add_tail() sees it. */
  function TailBefore(mods: seq<Module>, n: nat): nat
    requires n <= |mods|
  {
    if n == 0 then KICKLIST_ADDR else mods[n - 1].addr
  }

  /** What the i-th module owns is clear of the header, of all links, and of
      everything that the n-th module is written to. */
  lemma OwnedApart(b: Board, k: Kick, i: nat, n: nat, x: nat)
    requires Laid(b, k) && Fits(b, k) && i <= n < |k.mods| && Owned(k.mods[i], x)
    ensures !Touched(KICKLIST_ADDR, k.mods[n].addr, TailBefore(k.mods, n), x)
    ensures i < n ==> !Owned(k.mods[n], x)
  {
    assert Placed(b, k, i) && Placed(b, k, n);
    if n > 0 {
      assert Placed(b, k, n - 1);
      assert k.mods[n - 1].End() <= k.mods[n].data;
      if i < n - 1 {
        assert k.mods[i].End() <= k.mods[n - 1].data;
      }
    }
  }

  /** Header and links are clear of what a module owns. */
  lemma LinksApart(b: Board, k: Kick, i: nat, n: nat, x: nat)
    requires Laid(b, k) && Fits(b, k) && i <= n < |k.mods|
    requires KICKLIST_ADDR <= x < KICKLIST_ADDR + LIST_SIZE || k.mods[i].addr <= x < k.mods[i].addr + 8
    ensures !Owned(k.mods[n], x)
  {
    assert Placed(b, k, i) && Placed(b, k, n);
    if i < n {
      assert k.mods[i].End() <= k.mods[n].data;
    }
  }

  lemma LaidSeparate(b: Board, k: Kick)
    requires Laid(b, k)
    ensures Separate(KICKLIST_ADDR, Addresses(k.mods))
  {
    forall i | 0 <= i < |k.mods|
      ensures KICKLIST_ADDR + LIST_SIZE <= k.mods[i].addr && k.mods[i].End() <= SPACE
    {
      assert Placed(b, k, i);
    }
    forall i, j | 0 <= i < j < |k.mods|
      ensures k.mods[i].addr + 8 <= k.mods[j].addr
    {
      assert Placed(b, k, j);
    }
  }

  lemma BodyKeeps(b: Board, w: Memory, k: Kick, n: nat)
    requires Laid(b, k) && Fits(b, k) && n < |k.mods| && Holds(w, k.mods[..n])
    ensures var v := StoreFields(Write(w, k.mods[n].data, k.mods[n].bytes), k.mods[n]);
            && IsList(v, KICKLIST_ADDR, Addresses(k.mods[..n]))
            && (forall i :: 0 <= i < n ==> Stored(v, k.mods[i]))
            && Stored(v, k.mods[n].(id := 2))
  {
    hide Laid, Fits, Stored, IsList, StoreFields, Owned;
    var m, old' := k.mods[n], k.mods[..n];
    ModuleInRange(b, k, n);
    BodyWritten(w, m);
    var v := StoreFields(Write(w, m.data, m.bytes), m);
    forall i | 0 <= i < n
      ensures Stored(v, k.mods[i])
    {
      assert Stored(w, old'[i]);
      forall x: nat | Owned(k.mods[i], x) ensures w(x) == v(x) {
        OwnedApart(b, k, i, n, x);
      }
      StoredFrame(w, v, k.mods[i]);
    }
    forall x: nat | KICKLIST_ADDR <= x < KICKLIST_ADDR + LIST_SIZE ensures w(x) == v(x) {
      LinksApart(b, k, n, n, x);
    }
    forall i, x: nat | 0 <= i < n && k.mods[i].addr <= x < k.mods[i].addr + 8 ensures w(x) == v(x) {
      LinksApart(b, k, i, n, x);
    }
    ListFrame(w, v, KICKLIST_ADDR, Addresses(old'));
  }

  lemma ModuleInRange(b: Board, k: Kick, n: nat)
    requires Laid(b, k) && Fits(b, k) && n < |k.mods|
    ensures var m := k.mods[n];
            InRange(m) && (m.DataEnd() <= m.addr || m.End() <= m.data) && m.id == (if n == 0 then 1 else 2)
  {
    assert Placed(b, k, n);
  }

  lemma HasFour(w: Memory, a: nat, id: byte)
    ensures Has(w, a, [0, id, 0, 3]) <==> w(a) == 0 && w(a + 1) == id && w(a + 2) == 0 && w(a + 3) == 3
  {
    var bs: seq<byte> := [0, id, 0, 3];
    assert Has(w, a, bs) ==> w(a + 0) == bs[0] && w(a + 1) == bs[1] && w(a + 2) == bs[2] && w(a + 3) == bs[3];
  }

  lemma IdWritten(w: Memory, m: Module)
    requires Stored(w, m.(id := 2)) && m.id == 1 && (m.DataEnd() <= m.addr || m.End() <= m.data)
    ensures Stored(Write(w, m.addr + 16, [0, 1]), m)
  {
    hide Peek, Has;
    var v := Write(w, m.addr + 16, [0, 1]);
    assert forall x: nat :: x < m.addr + 16 || m.addr + 18 <= x ==> v(x) == w(x);
    assert v(m.addr + 16) == 0 && v(m.addr + 17) == 1;
    hide Write;
    PeekSame(w, v, m.addr + 8);
    PeekSame(w, v, m.addr + 12);
    PeekSame(w, v, m.addr + 20);
    PeekSame(w, v, m.addr + 24);
    PeekSame(w, v, m.addr + 28);
    PeekSame(w, v, m.addr + 32);
    HasSame(w, v, m.NameAddr(), m.name + [0]);
    HasSame(w, v, m.data, m.bytes);
    HasFour(w, m.addr + 16, 2);
    HasFour(v, m.addr + 16, 1);
  }

  /** Linking the n-th module keeps all of them. */
  lemma LinkKeeps(b: Board, v: Memory, k: Kick, n: nat)
    requires Laid(b, k) && Fits(b, k) && n < |k.mods|
    requires IsList(v, KICKLIST_ADDR, Addresses(k.mods[..n]))
    requires forall i :: 0 <= i < n ==> Stored(v, k.mods[i])
    requires Stored(v, k.mods[n].(id := 2))
    ensures var a := AddTail(v, KICKLIST_ADDR, k.mods[n].addr);
            && IsList(a, KICKLIST_ADDR, Addresses(k.mods[..n + 1]))
            && (forall i :: 0 <= i < n ==> Stored(a, k.mods[i]))
            && Stored(a, k.mods[n].(id := 2))
  {
    hide Laid, Fits, Stored, IsList, AddTail, Owned, Separate, Touched;
    var m, nodes := k.mods[n], Addresses(k.mods[..n]);
    LaidSeparate(b, k);
    SeparatePrefix(KICKLIST_ADDR, Addresses(k.mods), n + 1);
    assert Addresses(k.mods)[..n + 1] == nodes + [m.addr] == Addresses(k.mods[..n + 1]);
    AddTailAppends(v, KICKLIST_ADDR, nodes, m.addr);
    var a := AddTail(v, KICKLIST_ADDR, m.addr);
    forall i, x: nat | 0 <= i <= n && Owned(k.mods[i], x) ensures v(x) == a(x) {
      OwnedApart(b, k, i, n, x);
    }
    forall i | 0 <= i < n
      ensures Stored(a, k.mods[i])
    {
      StoredFrame(v, a, k.mods[i]);
    }
    OwnedWithId(m, 2);
    StoredFrame(v, a, m.(id := 2));
  }

  lemma OwnedWithId(m: Module, id: byte)
    ensures forall x: nat :: Owned(m.(id := id), x) <==> Owned(m, x)
  {
  }

  /** A load into memory that holds the modules so far leaves it holding the new
      one too, and all images as they were extracted. */
  lemma InstallHolds(b: Board, w: Memory, k: Kick, n: nat)
    requires Laid(b, k) && Fits(b, k) && n < |k.mods| && Holds(w, k.mods[..n])
    ensures Holds(Install(w, k.mods[n]), k.mods[..n + 1])
  {
    hide Laid, Fits, Stored, IsList, StoreFields, Owned, AddTail, Write;
    var m := k.mods[n];
    ModuleInRange(b, k, n);
    BodyKeeps(b, w, k, n);
    var v := StoreFields(Write(w, m.data, m.bytes), m);
    LinkKeeps(b, v, k, n);
    var a := AddTail(v, KICKLIST_ADDR, m.addr);
    if n == 0 {
      FirstId(b, a, k);
    } else {
      assert m == m.(id := 2);
    }
  }

  lemma FirstId(b: Board, a: Memory, k: Kick)
    requires Laid(b, k) && Fits(b, k) && k.mods != [] && k.mods[0].id == 1
    requires IsList(a, KICKLIST_ADDR, Addresses(k.mods[..1])) && Stored(a, k.mods[0].(id := 2))
    ensures Holds(Write(a, k.mods[0].addr + 16, [0, 1]), k.mods[..1])
  {
    hide Laid, Fits, Stored, IsList;
    var m := k.mods[0];
    ModuleInRange(b, k, 0);
    IdWritten(a, m);
    LastApart(b, k);
    ListFrame(a, Write(a, m.addr + 16, [0, 1]), KICKLIST_ADDR, Addresses(k.mods[..1]));
  }

  lemma LastApart(b: Board, k: Kick)
    requires Laid(b, k) && k.mods != []
    ensures KICKLIST_ADDR + LIST_SIZE <= k.mods[0].addr
  {
    assert Placed(b, k, 0);
  }

  /** Over any run whose first image ends below the kicklist area, memory holds
      the list, the structs and names, and every image. */
  lemma {:induction false} RunHolds(b: Board, w: Memory, k: Kick, n: nat)
    requires Laid(b, k) && Fits(b, k) && n <= |k.mods|
    ensures Holds(RunMemory(w, k.mods[..n]), k.mods[..n])
    decreases n
  {
    hide Laid, Fits, Stored, IsList, Install, Init;
    if n == 0 {
      InitIsEmpty(w, KICKLIST_ADDR);
      assert Addresses(k.mods[..0]) == [];
    } else {
      RunHolds(b, w, k, n - 1);
      InstallHolds(b, RunMemory(w, k.mods[..n - 1]), k, n - 1);
      assert k.mods[..n][..n - 1] == k.mods[..n - 1];
    }
  }

  // ----- and exactly then ----------------------------------------------------

  /** The same modules with other contents of the first image. */
  function WithImage(mods: seq<Module>, bytes: seq<byte>): seq<Module>
    requires mods != []
  {
    [mods[0].(bytes := bytes)] + mods[1..]
  }

  ghost predicate HoldsWith(w: Memory, mods: seq<Module>, bytes: seq<byte>)
    requires mods != []
  {
    Holds(RunMemory(w, WithImage(mods, bytes)), WithImage(mods, bytes))
  }

  lemma LaidWith(b: Board, k: Kick, bytes: seq<byte>)
    requires Laid(b, k) && k.mods != [] && |bytes| == |k.mods[0].bytes|
    ensures Laid(b, k.(mods := WithImage(k.mods, bytes)))
    ensures Fits(b, k.(mods := WithImage(k.mods, bytes))) <==> Fits(b, k)
  {
    var k' := k.(mods := WithImage(k.mods, bytes));
    assert forall i :: 0 < i < |k.mods| ==> k'.mods[i] == k.mods[i];
    forall i | 0 <= i < |k'.mods|
      ensures Placed(b, k', i)
    {
      assert Placed(b, k, i);
    }
  }

  /** The header's first and last word after a load, if l_tailpred is t when the
      links are written. */
  lemma HeaderAfter(w: Memory, m: Module, t: nat)
    requires KICKLIST_ADDR + LIST_SIZE <= m.addr && m.End() <= SPACE
    requires m.DataEnd() <= KICKLIST_ADDR + 8 || KICKLIST_ADDR + LIST_SIZE <= m.data
    requires t == Peek(w, KICKLIST_ADDR + 8)
    requires t == KICKLIST_ADDR || (KICKLIST_ADDR + LIST_SIZE <= t && t + 4 <= m.addr)
    ensures t == KICKLIST_ADDR ==> Peek(Install(w, m), KICKLIST_ADDR) == m.addr
    ensures t != KICKLIST_ADDR && KICKLIST_ADDR + LIST_SIZE <= m.data ==>
              Peek(Install(w, m), KICKLIST_ADDR) == Peek(w, KICKLIST_ADDR)
  {
    hide Peek, StoreFields, AddTail;
    var v := StoreFields(Write(w, m.data, m.bytes), m);
    forall x: nat | x < m.addr ensures v(x) == Write(w, m.data, m.bytes)(x) {
      FieldsFrame(Write(w, m.data, m.bytes), m, x);
    }
    PeekSame(w, v, KICKLIST_ADDR + 8);
    AddTailWords(v, KICKLIST_ADDR, m.addr, t);
    if KICKLIST_ADDR + LIST_SIZE <= m.data {
      PeekSame(w, v, KICKLIST_ADDR);
    }
    PeekSame(AddTail(v, KICKLIST_ADDR, m.addr), Install(w, m), KICKLIST_ADDR);
  }

  /** Whatever is loaded, l_tailpred is then the last struct. */
  lemma TailAfter(w: Memory, m: Module)
    requires KICKLIST_ADDR + LIST_SIZE <= m.addr < SPACE
    ensures Peek(Install(w, m), KICKLIST_ADDR + 8) == m.addr
  {
    hide Peek, StoreFields, ByteOf;
    var v := StoreFields(Write(w, m.data, m.bytes), m);
    var w1 := Poke(v, m.addr, KICKLIST_ADDR + 4);
    var w2 := Poke(w1, m.addr + 4, Peek(w1, KICKLIST_ADDR + 8));
    var w3 := Poke(w2, Peek(w2, KICKLIST_ADDR + 8), m.addr);
    PeekPoke(w3, KICKLIST_ADDR + 8, m.addr);
    PeekSame(Poke(w3, KICKLIST_ADDR + 8, m.addr), Install(w, m), KICKLIST_ADDR + 8);
  }

  /** After any run, wherever its first image is: the header's last word is the
      last struct, and its first word the first struct if the image does not
      reach that last word. */
  lemma {:induction false} RunHeader(b: Board, w: Memory, k: Kick, n: nat)
    requires Laid(b, k) && 1 <= n <= |k.mods|
    ensures var v := RunMemory(w, k.mods[..n]);
            && Peek(v, KICKLIST_ADDR + 8) == k.mods[n - 1].addr
            && (k.mods[0].DataEnd() <= KICKLIST_ADDR + 8 ==> Peek(v, KICKLIST_ADDR) == k.mods[0].addr)
    decreases n
  {
    hide Install, Init, Peek;
    var m, w' := k.mods[n - 1], RunMemory(w, k.mods[..n - 1]);
    assert k.mods[..n][..n - 1] == k.mods[..n - 1];
    assert Placed(b, k, n - 1);
    TailAfter(w', m);
    if k.mods[0].DataEnd() <= KICKLIST_ADDR + 8 {
      if n == 1 {
        assert k.mods[..0] == [];
        InitIsEmpty(w, KICKLIST_ADDR);
        Ends(w', KICKLIST_ADDR, []);
        HeaderAfter(w', m, KICKLIST_ADDR);
      } else {
        assert Placed(b, k, n - 2);
        assert k.mods[n - 2].End() <= m.data;
        RunHeader(b, w, k, n - 1);
        HeaderAfter(w', m, k.mods[n - 2].addr);
      }
    }
  }

  lemma TopByte(w: Memory, a: nat)
    requires Peek(w, a) >= 0x100_0000
    ensures w(a) != 0
  {
  }

  /** Memory holds everything for all contents of the first image exactly when
      that image ends below the kicklist area. */
  lemma MemoryExact(b: Board, w: Memory, k: Kick)
    requires Laid(b, k) && k.mods != [] && b.execAddr < KICKLIST_ADDR
    ensures Fits(b, k) <==>
            forall bytes: seq<byte> :: |bytes| == |k.mods[0].bytes| ==> HoldsWith(w, k.mods, bytes)
  {
    hide Laid, Holds, RunMemory, Peek;
    if Fits(b, k) {
      forall bytes: seq<byte> | |bytes| == |k.mods[0].bytes| ensures HoldsWith(w, k.mods, bytes) {
        LaidWith(b, k, bytes);
        var k' := k.(mods := WithImage(k.mods, bytes));
        RunHolds(b, w, k', |k'.mods|);
        assert k'.mods[..|k'.mods|] == k'.mods;
      }
    } else {
      var zeros: seq<byte> := seq(|k.mods[0].bytes|, i => 0);
      ZerosSpoil(b, w, k, zeros);
    }
  }

  /** An image of zeros that reaches into the kicklist area is overwritten. */
  lemma ZerosSpoil(b: Board, w: Memory, k: Kick, zeros: seq<byte>)
    requires Laid(b, k) && k.mods != [] && b.execAddr < KICKLIST_ADDR && !Fits(b, k)
    requires |zeros| == |k.mods[0].bytes| && forall i :: 0 <= i < |zeros| ==> zeros[i] == 0
    ensures !HoldsWith(w, k.mods, zeros)
  {
    hide RunMemory, Peek, Laid;
    LaidWith(b, k, zeros);
    var k' := k.(mods := WithImage(k.mods, zeros));
    var n, m := |k'.mods|, k'.mods[0];
    var v := RunMemory(w, k'.mods);
    assert k'.mods[..n] == k'.mods;
    RunHeader(b, w, k', n);
    StructsHigh(b, k', 0);
    StructsHigh(b, k', n - 1);
    var a := if m.DataEnd() <= KICKLIST_ADDR + 8 then KICKLIST_ADDR else KICKLIST_ADDR + 8;
    TopByte(v, a);
    var i := a - m.data;
    assert m.bytes[i] == 0 && v(m.data + i) != 0;
    assert !Stored(v, m);
  }

  lemma StructsHigh(b: Board, k: Kick, i: nat)
    requires Laid(b, k) && i < |k.mods|
    ensures k.mods[i].addr >= KICKLIST_ADDR && (i == 0 ==> k.mods[i].data == b.execAddr)
  {
    assert Placed(b, k, i);
  }

  /** An image of zeros over the whole header leaves no list. */
  lemma ZerosUnlink(b: Board, w: Memory, k: Kick)
    requires Laid(b, k) && |k.mods| == 1 && k.mods[0].data <= KICKLIST_ADDR
    requires KICKLIST_ADDR + LIST_SIZE <= k.mods[0].DataEnd()
    requires forall i :: 0 <= i < |k.mods[0].bytes| ==> k.mods[0].bytes[i] == 0
    ensures !IsList(RunMemory(w, k.mods), KICKLIST_ADDR, Addresses(k.mods))
  {
    hide Peek, StoreFields, AddTail;
    var m := k.mods[0];
    assert Placed(b, k, 0);
    assert k.mods[..0] == [];
    var w0 := Init(w, KICKLIST_ADDR);
    var v := StoreFields(Write(w0, m.data, m.bytes), m);
    assert RunMemory(w, k.mods) == Install(w0, m);
    forall x: nat | KICKLIST_ADDR <= x < KICKLIST_ADDR + LIST_SIZE ensures v(x) == 0 {
      FieldsFrame(Write(w0, m.data, m.bytes), m, x);
    }
    PeekZero(v, KICKLIST_ADDR);
    PeekZero(v, KICKLIST_ADDR + 8);
    AddTailWords(v, KICKLIST_ADDR, m.addr, 0);
    PeekSame(AddTail(v, KICKLIST_ADDR, m.addr), Install(w0, m), KICKLIST_ADDR);
    if IsList(RunMemory(w, k.mods), KICKLIST_ADDR, Addresses(k.mods)) {
      Ends(RunMemory(w, k.mods), KICKLIST_ADDR, Addresses(k.mods));
    }
  }

  lemma PeekZero(w: Memory, a: nat)
    requires forall x: nat :: a <= x < a + 4 ==> w(x) == 0
    ensures Peek(w, a) == 0
  {
  }

  // ----- the loader ----------------------------------------------------------

  class Loader {
    const b: Board
    const start: Memory
    const ram: Ram
    var kick: Kick

    /** The claimed and initialized list header. */
    constructor (b: Board, start: Memory)
      ensures this.b == b && this.start == start && kick == START && Valid() && fresh(ram)
    {
      this.b := b;
      this.start := start;
      ram := new Ram(start);
      kick := START;
      new;
      ram.ListInit(KICKLIST_ADDR);
    }

    /** Memory is what the loads so far have made of it. */
    ghost predicate Valid()
      reads this, ram
    {
      ram.w == RunMemory(start, kick.mods)
    }

    /** The emptiness test of the parser. */
    method Empty() returns (e: bool)
      requires Valid()
      ensures e <==> Peek(ram.w, Peek(ram.w, KICKLIST_ADDR)) == NULL
      ensures Laid(b, kick) && Fits(b, kick) ==> (e <==> kick.mods == [])
    {
      hide Peek, Laid, Fits, RunMemory;
      if Laid(b, kick) && Fits(b, kick) {
        RunHolds(b, start, kick, |kick.mods|);
        assert kick.mods[..|kick.mods|] == kick.mods;
        EmptyTest(ram.w, KICKLIST_ADDR, Addresses(kick.mods));
      }
      e := Peek(ram.w, Peek(ram.w, KICKLIST_ADDR)) == NULL;
    }

    /** add_module() */
    method AddModule(m: Module)
      modifies ram
      ensures ram.w == AddTail(StoreFields(old(ram.w), m), KICKLIST_ADDR, m.addr)
    {
      hide AddTail, Poke, Write;
      ram.w := Write(ram.w, m.NameAddr(), m.name + [0]);
      ram.w := Poke(ram.w, m.addr + 8, m.NameAddr());
      ram.w := Poke(ram.w, m.addr + 12, NULL);
      ram.w := Write(ram.w, m.addr + 16, [0, 2, 0, 3]);
      ram.w := Poke(ram.w, m.addr + 20, m.addr + 20);
      ram.w := Poke(ram.w, m.addr + 24, m.addr + 24);
      ram.w := Poke(ram.w, m.addr + 28, m.data);
      ram.w := Poke(ram.w, m.addr + 32, |m.bytes|);
      ram.ListAddTail(KICKLIST_ADDR, m.addr);
    }

    /** load_module_from_zip(): module data goes to data, or to the free address
        if data is null. The result is the bytes claimed in the kicklist area,
        or 0. */
    method LoadModule(path: seq<byte>, data: nat) returns (inc: nat)
      requires Valid()
      modifies this`kick, ram
      ensures inc == 0 ==>
                && kick == old(kick)
                && (ram.w == old(ram.w) || (path in b.files && ram.w == Write(old(ram.w), data, b.files[path])))
      ensures inc > 0 ==>
                Valid() && |kick.mods| == |old(kick).mods| + 1 && kick.mods[..|old(kick).mods|] == old(kick).mods
      ensures b.execAddr != NULL && data == (if old(kick).mods == [] then b.execAddr else NULL) ==>
                match Load(b, old(kick), path)
                case None => inc == 0
                case Some(k) => inc > 0 && kick == k && k.avail == old(kick).avail + inc
    {
      hide RoundUp, BaseName, Write, StoreFields, AddTail, RunMemory;
      var name, avail := BaseName(path), kick.avail;
      if name == [] {
        return 0;
      }
      if path !in b.files {
        return 0;
      }
      var bytes := b.files[path];
      var clen, mod := |bytes|, avail;
      if data == NULL {
        clen := RoundUp(clen, 4);
        mod := avail + clen;
        clen := RoundUp(clen + MODULE_SIZE + |name| + 1, 32);
      }
      var bin := if data != NULL then data else avail;
      if !b.Claim(bin, clen) {
        return 0;
      }
      ram.w := Write(ram.w, bin, bytes);
      if data != NULL {
        clen := RoundUp(MODULE_SIZE + |name| + 1, 32);
        if !b.Claim(avail, clen) {
          return 0;
        }
      }
      var m := Module(mod, bin, bytes, name, if data != NULL then 1 else 2);
      AddModule(m);
      if data != NULL {
        ram.w := Write(ram.w, mod + 16, [0, 1]);
      }
      RunStep(start, kick.mods, m);
      kick := Kick(avail + clen, kick.mods + [m]);
      inc := clen;
    }
  }
}
