/**
  The AmigaOS list of include/aoslist.h in memory. The header's three words are
  two list nodes that overlap: its first two words are the node before the
  first, its last two the node after the last.
 */
module AosList {
  import opened Bits
  import opened ByteMemory

  const NULL := 0

  /** Words of a node (n_succ at n, n_pred at n + 4) clear of the header's three
      words. */
  ghost predicate Clear(l: nat, n: nat) {
    n + 8 <= l || l + 12 <= n
  }

  /** Nodes in memory, clear of the header and of one another. */
  ghost predicate Separate(l: nat, nodes: seq<nat>) {
    && l + 12 <= SPACE
    && (forall i :: 0 <= i < |nodes| ==> Clear(l, nodes[i]) && nodes[i] != NULL && nodes[i] + 8 <= SPACE)
    && (forall i, j :: 0 <= i < j < |nodes| ==> nodes[i] + 8 <= nodes[j] || nodes[j] + 8 <= nodes[i])
  }

  /** The header seen as nodes at both ends. */
  function Ring(l: nat, nodes: seq<nat>): (r: seq<nat>)
    ensures |r| == |nodes| + 2
  {
    [l] + nodes + [l + 4]
  }

  ghost predicate Linked(w: Memory, a: nat, b: nat) {
    Peek(w, a) == b && Peek(w, b + 4) == a
  }

  /** Memory holds the list of these nodes at l. */
  ghost predicate IsList(w: Memory, l: nat, nodes: seq<nat>) {
    && Separate(l, nodes)
    && Peek(w, l + 4) == NULL
    && forall i :: 0 <= i <= |nodes| ==> Linked(w, Ring(l, nodes)[i], Ring(l, nodes)[i + 1])
  }

  /** alist_init() */
  function Init(w: Memory, l: nat): (v: Memory) {
    Poke(Poke(Poke(w, l, l + 4), l + 4, NULL), l + 8, l)
  }

  lemma InitIsEmpty(w: Memory, l: nat)
    requires l + 12 <= SPACE
    ensures IsList(Init(w, l), l, [])
  {
    hide Peek, Poke;
    var w1 := Poke(w, l, l + 4);
    var w2 := Poke(w1, l + 4, NULL);
    PeekPoke(w, l, l + 4);
    PokeElsewhere(w1, l + 4, NULL, l);
    PokeElsewhere(w2, l + 8, l, l);
    PeekPoke(w1, l + 4, NULL);
    PokeElsewhere(w2, l + 8, l, l + 4);
    PeekPoke(w2, l + 8, l);
    assert Ring(l, []) == [l, l + 4];
  }

  lemma Ends(w: Memory, l: nat, nodes: seq<nat>)
    requires IsList(w, l, nodes)
    ensures Peek(w, l) == (if nodes == [] then l + 4 else nodes[0])
    ensures Peek(w, l + 8) == (if nodes == [] then l else nodes[|nodes| - 1])
  {
    hide Peek;
    var r := Ring(l, nodes);
    assert Linked(w, r[0], r[1]);
    assert Linked(w, r[|nodes|], r[|nodes| + 1]);
  }

  /** alist_add_tail() */
  function AddTail(w: Memory, l: nat, n: nat): (v: Memory) {
    var w1 := Poke(w, n, l + 4);
    var w2 := Poke(w1, n + 4, Peek(w1, l + 8));
    Poke(Poke(w2, Peek(w2, l + 8), n), l + 8, n)
  }

  /** The bytes that alist_add_tail() writes when l_tailpred is t. */
  ghost predicate Touched(l: nat, n: nat, t: nat, x: nat) {
    n <= x < n + 8 || t <= x < t + 4 || l + 8 <= x < l + 12
  }

  /** Two words that do not overlap. */
  ghost predicate Apart(a: nat, b: nat) {
    a + 4 <= b || b + 4 <= a
  }

  /** The words after alist_add_tail(), wherever l_tailpred points as long as it
      is clear of the node and of itself. */
  lemma AddTailWords(w: Memory, l: nat, n: nat, t: nat)
    requires Clear(l, n) && n < SPACE && l + 4 < SPACE && t == Peek(w, l + 8)
    requires Apart(t, n) && Apart(t, n + 4) && Apart(t, l + 8)
    ensures var v := AddTail(w, l, n);
            && Peek(v, n) == l + 4 && Peek(v, n + 4) == t && Peek(v, t) == n && Peek(v, l + 8) == n
            && forall a: nat :: Apart(a, n) && Apart(a, n + 4) && Apart(a, t) && Apart(a, l + 8) ==>
                 Peek(v, a) == Peek(w, a)
  {
    hide Peek, Poke;
    var w1 := Poke(w, n, l + 4);
    PokeElsewhere(w, n, l + 4, l + 8);
    var w2 := Poke(w1, n + 4, t);
    PokeElsewhere(w1, n + 4, t, l + 8);
    var w3 := Poke(w2, t, n);
    PeekPoke(w, n, l + 4);
    PeekPoke(w1, n + 4, t);
    PeekPoke(w2, t, n);
    PeekPoke(w3, l + 8, n);
    PokeElsewhere(w1, n + 4, t, n);
    PokeElsewhere(w2, t, n, n);
    PokeElsewhere(w3, l + 8, n, n);
    PokeElsewhere(w2, t, n, n + 4);
    PokeElsewhere(w3, l + 8, n, n + 4);
    PokeElsewhere(w3, l + 8, n, t);
    forall a: nat | Apart(a, n) && Apart(a, n + 4) && Apart(a, t) && Apart(a, l + 8)
      ensures Peek(AddTail(w, l, n), a) == Peek(w, a)
    {
      PokeElsewhere(w, n, l + 4, a);
      PokeElsewhere(w1, n + 4, t, a);
      PokeElsewhere(w2, t, n, a);
      PokeElsewhere(w3, l + 8, n, a);
    }
  }

  /** Nothing else changes. */
  lemma AddTailBytes(w: Memory, l: nat, n: nat, x: nat)
    requires Clear(l, n) && !Touched(l, n, Peek(w, l + 8), x)
    ensures AddTail(w, l, n)(x) == w(x)
  {
    hide Peek;
    var w1 := Poke(w, n, l + 4);
    PokeElsewhere(w, n, l + 4, l + 8);
    PokeElsewhere(w1, n + 4, Peek(w1, l + 8), l + 8);
  }

  lemma TailApart(l: nat, nodes: seq<nat>, n: nat, i: nat)
    requires Separate(l, nodes + [n]) && i < |nodes|
    ensures Clear(l, nodes[i]) && Clear(l, n)
    ensures nodes[i] + 8 <= n || n + 8 <= nodes[i]
    ensures i < |nodes| - 1 ==>
              nodes[i] + 8 <= nodes[|nodes| - 1] || nodes[|nodes| - 1] + 8 <= nodes[i]
  {
    var all := nodes + [n];
    assert all[i] == nodes[i] && all[|nodes|] == n;
    if i < |nodes| - 1 {
      assert all[|nodes| - 1] == nodes[|nodes| - 1];
    }
  }

  /** What AddTailWords asks for holds of a list. */
  lemma TailIsClear(w: Memory, l: nat, nodes: seq<nat>, n: nat)
    requires IsList(w, l, nodes) && Separate(l, nodes + [n])
    ensures var t := Peek(w, l + 8);
            && t == (if nodes == [] then l else nodes[|nodes| - 1])
            && Clear(l, n) && n != NULL && n + 8 <= SPACE && Apart(t, n) && Apart(t, n + 4) && Apart(t, l + 8)
  {
    hide Peek;
    Ends(w, l, nodes);
    assert Clear(l, (nodes + [n])[|nodes|]);
    if nodes != [] {
      TailApart(l, nodes, n, |nodes| - 1);
    }
  }

  lemma AddedLink(w: Memory, l: nat, nodes: seq<nat>, n: nat, i: nat)
    requires IsList(w, l, nodes) && Separate(l, nodes + [n]) && i <= |nodes| + 1
    ensures var r := Ring(l, nodes + [n]); Linked(AddTail(w, l, n), r[i], r[i + 1])
  {
    hide Peek, Poke, AddTail;
    var old', r, t := Ring(l, nodes), Ring(l, nodes + [n]), Peek(w, l + 8);
    TailIsClear(w, l, nodes, n);
    AddTailWords(w, l, n, t);
    if i < |nodes| {
      assert r[i] == old'[i] && r[i + 1] == old'[i + 1] == nodes[i];
      assert Linked(w, old'[i], old'[i + 1]);
      TailApart(l, nodes, n, i);
      if i > 0 {
        assert old'[i] == nodes[i - 1];
        TailApart(l, nodes, n, i - 1);
      }
    } else if i == |nodes| {
      assert r[i] == t && r[i + 1] == n;
    } else {
      assert r[i] == n && r[i + 1] == l + 4;
    }
  }

  /** Adding a node keeps the list, with the node at its end, and touches only
      the node, the header's tail and the old last node's successor. */
  lemma AddTailAppends(w: Memory, l: nat, nodes: seq<nat>, n: nat)
    requires IsList(w, l, nodes) && Separate(l, nodes + [n])
    ensures IsList(AddTail(w, l, n), l, nodes + [n])
    ensures forall x: nat :: !Touched(l, n, if nodes == [] then l else nodes[|nodes| - 1], x) ==>
              AddTail(w, l, n)(x) == w(x)
  {
    hide Peek, Poke, AddTail;
    TailIsClear(w, l, nodes, n);
    var v, all := AddTail(w, l, n), nodes + [n];
    forall i | 0 <= i <= |all|
      ensures Linked(v, Ring(l, all)[i], Ring(l, all)[i + 1])
    {
      AddedLink(w, l, nodes, n, i);
    }
    AddTailWords(w, l, n, Peek(w, l + 8));
    assert nodes != [] ==> Clear(l, nodes[|nodes| - 1]);
    forall x: nat | !Touched(l, n, if nodes == [] then l else nodes[|nodes| - 1], x)
      ensures v(x) == w(x)
    {
      AddTailBytes(w, l, n, x);
    }
  }

  /** A list depends on its header and its nodes only. */
  lemma ListFrame(w: Memory, v: Memory, l: nat, nodes: seq<nat>)
    requires IsList(w, l, nodes)
    requires forall x: nat :: l <= x < l + 12 ==> w(x) == v(x)
    requires forall i, x: nat :: 0 <= i < |nodes| && nodes[i] <= x < nodes[i] + 8 ==> w(x) == v(x)
    ensures IsList(v, l, nodes)
  {
    hide Peek;
    var r := Ring(l, nodes);
    PeekSame(w, v, l + 4);
    forall i | 0 <= i <= |nodes|
      ensures Linked(v, r[i], r[i + 1])
    {
      assert Linked(w, r[i], r[i + 1]);
      assert if i == 0 then r[i] == l else r[i] == nodes[i - 1];
      assert if i == |nodes| then r[i + 1] == l + 4 else r[i + 1] == nodes[i];
      PeekSame(w, v, r[i]);
      PeekSame(w, v, r[i + 1] + 4);
    }
  }

  /** The emptiness test of boot_aos.c. */
  lemma EmptyTest(w: Memory, l: nat, nodes: seq<nat>)
    requires IsList(w, l, nodes)
    ensures Peek(w, Peek(w, l)) == 0 <==> nodes == []
  {
    hide Peek;
    Ends(w, l, nodes);
    var r := Ring(l, nodes);
    if nodes != [] {
      assert Linked(w, r[1], r[2]);
      assert r[2] != NULL;
    }
  }

  /** Following n_succ from l_head until a node without successor. */
  method Forward(w: Memory, l: nat, ghost nodes: seq<nat>) returns (visited: seq<nat>)
    requires IsList(w, l, nodes)
    ensures visited == nodes
  {
    hide Peek;
    Ends(w, l, nodes);
    ghost var r := Ring(l, nodes);
    visited := [];
    var n := Peek(w, l);
    while true
      invariant |visited| <= |nodes| && visited == nodes[..|visited|]
      invariant n == r[|visited| + 1]
      decreases |nodes| - |visited|
    {
      if |visited| < |nodes| {
        assert Linked(w, r[|visited| + 1], r[|visited| + 2]);
      }
      if Peek(w, n) == NULL {
        return;
      }
      visited := visited + [n];
      n := Peek(w, n);
    }
  }

  /** Following n_pred from l_tailpred until the header. */
  method Backward(w: Memory, l: nat, ghost nodes: seq<nat>) returns (visited: seq<nat>)
    requires IsList(w, l, nodes)
    ensures |visited| == |nodes| && forall i :: 0 <= i < |nodes| ==> visited[i] == nodes[|nodes| - 1 - i]
  {
    hide Peek;
    Ends(w, l, nodes);
    ghost var r := Ring(l, nodes);
    visited := [];
    var n := Peek(w, l + 8);
    ghost var k := |nodes|;
    while n != l
      invariant 0 <= k <= |nodes| && |visited| == |nodes| - k && n == r[k]
      invariant forall i :: 0 <= i < |visited| ==> visited[i] == nodes[|nodes| - 1 - i]
      decreases k
    {
      assert Linked(w, r[k - 1], r[k]);
      visited := visited + [n];
      n := Peek(w, n + 4);
      k := k - 1;
    }
  }

  class Ram {
    var w: Memory

    constructor (w: Memory)
      ensures this.w == w
    {
      this.w := w;
    }

    /** alist_init() */
    method ListInit(l: nat)
      modifies this
      ensures w == Init(old(w), l)
      ensures l + 12 <= SPACE ==> IsList(w, l, [])
    {
      hide Poke, IsList;
      if l + 12 <= SPACE {
        InitIsEmpty(w, l);
      }
      w := Poke(w, l, l + 4);
      w := Poke(w, l + 4, NULL);
      w := Poke(w, l + 8, l);
    }

    /** alist_add_tail(), in whatever state memory is; on a list it appends. */
    method ListAddTail(l: nat, n: nat)
      modifies this
      ensures w == AddTail(old(w), l, n)
      ensures forall nodes :: IsList(old(w), l, nodes) && Separate(l, nodes + [n]) ==> IsList(w, l, nodes + [n])
    {
      hide Poke, Peek, IsList, Separate;
      forall nodes | IsList(w, l, nodes) && Separate(l, nodes + [n])
        ensures IsList(AddTail(w, l, n), l, nodes + [n])
      {
        AddTailAppends(w, l, nodes, n);
      }
      w := Poke(w, n, l + 4);
      w := Poke(w, n + 4, Peek(w, l + 8));
      w := Poke(w, Peek(w, l + 8), n);
      w := Poke(w, l + 8, n);
    }

    /** Any run of these on fresh nodes is the list of the nodes, in order. */
    method Build(l: nat, nodes: seq<nat>)
      requires Separate(l, nodes)
      modifies this
      ensures IsList(w, l, nodes)
    {
      hide AddTail, Init, Linked;
      ListInit(l);
      for i := 0 to |nodes|
        invariant IsList(w, l, nodes[..i])
      {
        assert nodes[..i + 1] == nodes[..i] + [nodes[i]];
        SeparatePrefix(l, nodes, i + 1);
        ListAddTail(l, nodes[i]);
      }
      assert nodes[..|nodes|] == nodes;
    }
  }

  lemma SeparatePrefix(l: nat, nodes: seq<nat>, k: nat)
    requires Separate(l, nodes) && k <= |nodes|
    ensures Separate(l, nodes[..k])
  {
  }
}
