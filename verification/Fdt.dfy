/**
  The flattened device tree reader of fdt.c: trees, their serialization
  (sections 5.2 to 5.4 of the Devicetree Specification), the token scan of
  fdt_find_prop(), and what that scan finds in a tree.
 */
module Fdt {
  import opened Bits
  import opened Options
  import opened CStrings
  import opened Rounding

  /** A property: name, where the strings block has it, and value. */
  datatype Prop = Prop(name: seq<byte>, nameoff: nat, data: seq<byte>)

  datatype Node = Node(name: seq<byte>, props: seq<Prop>, children: seq<Node>)

  datatype Token = BeginNode(name: seq<byte>) | EndNode | Property(p: Prop) | Nop | End

  // ----- trees as tokens -----------------------------------------------------

  function PropTokens(ps: seq<Prop>): seq<Token> {
    if ps == [] then [] else [Property(ps[0])] + PropTokens(ps[1..])
  }

  /** A node: its properties come before its children. */
  function Tokens(n: Node): seq<Token>
    decreases n, 1
  {
    [BeginNode(n.name)] + (PropTokens(n.props) + (Forest(n.children) + [EndNode]))
  }

  function Forest(ns: seq<Node>): seq<Token>
    decreases ns, 0
  {
    if ns == [] then [] else Tokens(ns[0]) + Forest(ns[1..])
  }

  function WithoutNops(ts: seq<Token>): seq<Token> {
    if ts == [] then []
    else if ts[0] == Nop then WithoutNops(ts[1..])
    else [ts[0]] + WithoutNops(ts[1..])
  }

  // ----- the scan ------------------------------------------------------------

  /** The state machine of fdt_find_prop() on tokens. */
  function Scan(ts: seq<Token>, depth: int, target: bool, node: seq<byte>, prop: seq<byte>): Option<seq<byte>> {
    if ts == [] then None
    else
      match ts[0]
      case BeginNode(n) => Scan(ts[1..], depth + 1, target || (depth + 1 == 2 && n == node), node, prop)
      case EndNode =>
        if (depth == 2 && target) || depth - 1 < 0 then None
        else Scan(ts[1..], depth - 1, false, node, prop)
      case Property(p) =>
        if target && p.name == prop then Some(p.data) else Scan(ts[1..], depth, target, node, prop)
      case Nop => Scan(ts[1..], depth, target, node, prop)
      case End => None
  }

  /** The first property called prop. */
  function FirstProp(ps: seq<Prop>, prop: seq<byte>): Option<seq<byte>> {
    if ps == [] then None
    else if ps[0].name == prop then Some(ps[0].data)
    else FirstProp(ps[1..], prop)
  }

  /** The first property called prop in n, else in its first child, and so on. */
  function Chain(n: Node, prop: seq<byte>): Option<seq<byte>> {
    var own := FirstProp(n.props, prop);
    if own.Some? || n.children == [] then own else Chain(n.children[0], prop)
  }

  /** What the scan finds among the nodes below the root. */
  function Lookup(ns: seq<Node>, node: seq<byte>, prop: seq<byte>): Option<seq<byte>> {
    if ns == [] then None
    else if ns[0].name == node && (Chain(ns[0], prop).Some? || ns[0].children == []) then Chain(ns[0], prop)
    else Lookup(ns[1..], node, prop)
  }

  lemma {:induction false} NopsIgnored(ts: seq<Token>, depth: int, target: bool, node: seq<byte>, prop: seq<byte>)
    ensures Scan(WithoutNops(ts), depth, target, node, prop) == Scan(ts, depth, target, node, prop)
    decreases ts
  {
    if ts == [] {
    } else {
      var rest := WithoutNops(ts[1..]);
      assert ts[0] != Nop ==> WithoutNops(ts)[1..] == rest;
      match ts[0]
      case BeginNode(n) => NopsIgnored(ts[1..], depth + 1, target || (depth + 1 == 2 && n == node), node, prop);
      case EndNode => NopsIgnored(ts[1..], depth - 1, false, node, prop);
      case Property(p) => NopsIgnored(ts[1..], depth, target, node, prop);
      case Nop => NopsIgnored(ts[1..], depth, target, node, prop);
      case End =>
    }
  }

  lemma {:induction false} ScanProps(ps: seq<Prop>, rest: seq<Token>, depth: int, target: bool, node: seq<byte>,
                                     prop: seq<byte>)
    ensures Scan(PropTokens(ps) + rest, depth, target, node, prop) ==
            if target && FirstProp(ps, prop).Some? then FirstProp(ps, prop)
            else Scan(rest, depth, target, node, prop)
    decreases ps
  {
    if ps == [] {
      assert PropTokens(ps) + rest == rest;
    } else {
      ScanProps(ps[1..], rest, depth, target, node, prop);
      assert (PropTokens(ps) + rest)[1..] == PropTokens(ps[1..]) + rest;
    }
  }

  lemma Unroll(n: Node, rest: seq<Token>)
    ensures Tokens(n) + rest != [] && (Tokens(n) + rest)[0] == BeginNode(n.name)
    ensures (Tokens(n) + rest)[1..] == PropTokens(n.props) + (Forest(n.children) + ([EndNode] + rest))
  {
  }

  lemma UnrollForest(ns: seq<Node>, rest: seq<Token>)
    ensures ns == [] ==> Forest(ns) + rest == rest
    ensures ns != [] ==> Forest(ns) + rest == Tokens(ns[0]) + (Forest(ns[1..]) + rest)
  {
  }

  /** Below depth 2 a node is searched only if the flag is still set, and then
      along its first children; afterwards the flag is clear. */
  lemma {:induction false} ScanDeep(n: Node, rest: seq<Token>, depth: int, target: bool, node: seq<byte>,
                                    prop: seq<byte>)
    requires depth >= 2
    ensures Scan(Tokens(n) + rest, depth, target, node, prop) ==
            if target && Chain(n, prop).Some? then Chain(n, prop)
            else Scan(rest, depth, false, node, prop)
    decreases n, 1
  {
    Unroll(n, rest);
    var after := [EndNode] + rest;
    ScanProps(n.props, Forest(n.children) + after, depth + 1, target, node, prop);
    ScanDeepForest(n.children, after, depth + 1, target, node, prop);
    assert after[1..] == rest;
  }

  lemma {:induction false} ScanDeepForest(ns: seq<Node>, rest: seq<Token>, depth: int, target: bool, node: seq<byte>,
                                          prop: seq<byte>)
    requires depth >= 2
    ensures Scan(Forest(ns) + rest, depth, target, node, prop) ==
            if target && ns != [] && Chain(ns[0], prop).Some? then Chain(ns[0], prop)
            else Scan(rest, depth, target && ns == [], node, prop)
    decreases ns, 0
  {
    UnrollForest(ns, rest);
    if ns != [] {
      ScanDeep(ns[0], Forest(ns[1..]) + rest, depth, target, node, prop);
      ScanDeepForest(ns[1..], rest, depth, false, node, prop);
    }
  }

  lemma ScanTop(n: Node, rest: seq<Token>, node: seq<byte>, prop: seq<byte>)
    ensures Scan(Tokens(n) + rest, 1, false, node, prop) ==
            if n.name == node && (Chain(n, prop).Some? || n.children == []) then Chain(n, prop)
            else Scan(rest, 1, false, node, prop)
  {
    hide Tokens, Forest, PropTokens, FirstProp;
    Unroll(n, rest);
    var after, target := [EndNode] + rest, n.name == node;
    ScanProps(n.props, Forest(n.children) + after, 2, target, node, prop);
    ScanDeepForest(n.children, after, 2, target, node, prop);
    assert after[1..] == rest;
  }

  lemma {:induction false} ScanTopForest(ns: seq<Node>, rest: seq<Token>, node: seq<byte>, prop: seq<byte>)
    requires Scan(rest, 1, false, node, prop) == None
    ensures Scan(Forest(ns) + rest, 1, false, node, prop) == Lookup(ns, node, prop)
    decreases ns
  {
    UnrollForest(ns, rest);
    if ns != [] {
      ScanTop(ns[0], Forest(ns[1..]) + rest, node, prop);
      ScanTopForest(ns[1..], rest, node, prop);
    }
  }

  /** The scan of a whole tree, with NOP tokens anywhere, is the lookup. */
  lemma ScanIsLookup(ts: seq<Token>, root: Node, node: seq<byte>, prop: seq<byte>)
    requires WithoutNops(ts) == Tokens(root) + [End]
    ensures Scan(ts, 0, false, node, prop) == Lookup(root.children, node, prop)
  {
    hide Tokens, Forest, PropTokens, WithoutNops, Lookup;
    NopsIgnored(ts, 0, false, node, prop);
    Unroll(root, [End]);
    var after := [EndNode] + [End];
    assert Scan(after, 1, false, node, prop) == None;
    ScanProps(root.props, Forest(root.children) + after, 1, false, node, prop);
    ScanTopForest(root.children, after, node, prop);
  }

  // ----- what callers want, and when they get it -----------------------------

  /** The property a caller asks for: of the first node with that name. */
  function Wanted(ns: seq<Node>, node: seq<byte>, prop: seq<byte>): Option<seq<byte>> {
    if ns == [] then None
    else if ns[0].name == node then FirstProp(ns[0].props, prop)
    else Wanted(ns[1..], node, prop)
  }

  ghost predicate DistinctNames(ns: seq<Node>) {
    forall i, j :: 0 <= i < j < |ns| ==> ns[i].name != ns[j].name
  }

  ghost predicate HasProp(n: Node, prop: seq<byte>) {
    exists i :: 0 <= i < |n.props| && n.props[i].name == prop
  }

  /** The node reached by going k times to the first child has the property. */
  ghost predicate HasAt(n: Node, k: nat, prop: seq<byte>)
    decreases k
  {
    if k == 0 then HasProp(n, prop) else n.children != [] && HasAt(n.children[0], k - 1, prop)
  }

  /** No node with that name lacks the property while its first child, or that
      one's first child and so on, has one of the same name. */
  ghost predicate NotShadowed(ns: seq<Node>, node: seq<byte>, prop: seq<byte>) {
    forall i, k: nat :: 0 <= i < |ns| && ns[i].name == node && HasAt(ns[i], k, prop) ==> HasProp(ns[i], prop)
  }

  lemma {:induction false} FirstPropExact(ps: seq<Prop>, prop: seq<byte>)
    ensures FirstProp(ps, prop).Some? <==> exists i :: 0 <= i < |ps| && ps[i].name == prop
    decreases ps
  {
    if ps != [] {
      assert ps == [ps[0]] + ps[1..];
      FirstPropExact(ps[1..], prop);
    }
  }

  lemma {:induction false} HasAtIsFound(n: Node, k: nat, prop: seq<byte>)
    requires HasAt(n, k, prop)
    ensures Chain(n, prop).Some?
    decreases k
  {
    FirstPropExact(n.props, prop);
    if k > 0 {
      HasAtIsFound(n.children[0], k - 1, prop);
    }
  }

  lemma {:induction false} FoundIsHasAt(n: Node, prop: seq<byte>) returns (k: nat)
    requires Chain(n, prop).Some?
    ensures HasAt(n, k, prop)
    decreases n
  {
    FirstPropExact(n.props, prop);
    if HasProp(n, prop) {
      k := 0;
    } else {
      var j := FoundIsHasAt(n.children[0], prop);
      k := j + 1;
    }
  }

  /** Searching along first children finds something exactly when one of them has
      the property. */
  lemma ChainExact(n: Node, prop: seq<byte>)
    ensures Chain(n, prop).Some? <==> exists k: nat :: HasAt(n, k, prop)
  {
    hide Chain;
    if Chain(n, prop).Some? {
      var k := FoundIsHasAt(n, prop);
      assert HasAt(n, k, prop);
    } else {
      forall k: nat ensures !HasAt(n, k, prop) {
        if HasAt(n, k, prop) {
          HasAtIsFound(n, k, prop);
        }
      }
    }
  }

  lemma {:induction false} AbsentNode(ns: seq<Node>, node: seq<byte>, prop: seq<byte>)
    requires forall i :: 0 <= i < |ns| ==> ns[i].name != node
    ensures Lookup(ns, node, prop) == None && Wanted(ns, node, prop) == None
    decreases ns
  {
    if ns != [] {
      AbsentNode(ns[1..], node, prop);
    }
  }

  /** With distinct node names the scan returns what was asked for exactly when
      no descendant shadows a missing property. */
  lemma {:induction false} LookupExact(ns: seq<Node>, node: seq<byte>, prop: seq<byte>)
    requires DistinctNames(ns)
    ensures Lookup(ns, node, prop) == Wanted(ns, node, prop) <==> NotShadowed(ns, node, prop)
    decreases ns
  {
    hide Chain, FirstProp, HasAt, HasProp;
    if ns == [] {
    } else if ns[0].name == node {
      OwnFirst(ns[0], prop);
      ChainExact(ns[0], prop);
      FirstIsOwn(ns[0], prop);
      assert NotShadowed(ns, node, prop) <==> (Chain(ns[0], prop).Some? ==> HasProp(ns[0], prop)) by {
        if Chain(ns[0], prop).Some? ==> HasProp(ns[0], prop) {
          forall i, k: nat | 0 <= i < |ns| && ns[i].name == node && HasAt(ns[i], k, prop)
            ensures HasProp(ns[i], prop)
          {
            HasAtIsFound(ns[0], k, prop);
          }
        }
      }
      forall i | 0 <= i < |ns[1..]|
        ensures ns[1..][i].name != node
      {
        assert ns[1..][i] == ns[i + 1];
      }
      AbsentNode(ns[1..], node, prop);
    } else {
      var rest := ns[1..];
      forall i, j | 0 <= i < j < |rest|
        ensures rest[i].name != rest[j].name
      {
        assert rest[i] == ns[i + 1] && rest[j] == ns[j + 1];
      }
      LookupExact(rest, node, prop);
      assert NotShadowed(ns, node, prop) <==> NotShadowed(rest, node, prop) by {
        assert ns == [ns[0]] + rest;
        if NotShadowed(rest, node, prop) {
          forall i, k: nat | 0 <= i < |ns| && ns[i].name == node && HasAt(ns[i], k, prop)
            ensures HasProp(ns[i], prop)
          {
            assert ns[i] == rest[i - 1];
          }
        }
      }
    }
  }

  lemma FirstIsOwn(n: Node, prop: seq<byte>)
    ensures FirstProp(n.props, prop).Some? <==> HasProp(n, prop)
  {
    FirstPropExact(n.props, prop);
  }

  lemma OwnFirst(n: Node, prop: seq<byte>)
    ensures FirstProp(n.props, prop).Some? ==> Chain(n, prop) == FirstProp(n.props, prop)
    ensures FirstProp(n.props, prop).None? && n.children == [] ==> Chain(n, prop) == None
  {
  }

  /** Nodes that have the property, and leaves that lack it, are never shadowed. */
  lemma NeverShadowed(ns: seq<Node>, node: seq<byte>, prop: seq<byte>)
    requires forall i :: 0 <= i < |ns| && ns[i].name == node ==> HasProp(ns[i], prop) || ns[i].children == []
    ensures NotShadowed(ns, node, prop)
  {
  }

  /** A node without the property whose child has it: the scan answers with the
      child's value. */
  lemma ShadowingHappens()
    ensures var child := Node([2], [Prop([7], 0, [42])], []);
            var ns := [Node([1], [], [child])];
            Lookup(ns, [1], [7]) == Some([42]) && Wanted(ns, [1], [7]) == None
  {
    var child := Node([2], [Prop([7], 0, [42])], []);
    var n := Node([1], [], [child]);
    assert FirstProp(child.props, [7]) == Some([42]);
    assert Chain(n, [7]) == Chain(child, [7]);
  }

  // ----- bytes ---------------------------------------------------------------

  function Be32Bytes(v: nat): (b: seq<byte>)
    requires v < 0x1_0000_0000
    ensures |b| == 4
  {
    [v / 256 / 256 / 256, v / 256 / 256 % 256, v / 256 % 256, v % 256]
  }

  /** fdt32(). */
  function Be32(blob: seq<byte>, p: nat): (v: nat)
    requires p + 4 <= |blob|
    ensures v < 0x1_0000_0000
  {
    (blob[p] as int) * 0x100_0000 + (blob[p + 1] as int) * 0x1_0000 + (blob[p + 2] as int) * 256 + blob[p + 3] as int
  }

  lemma Be32RoundTrip(blob: seq<byte>, p: nat, v: nat)
    requires v < 0x1_0000_0000 && p + 4 <= |blob| && blob[p..p + 4] == Be32Bytes(v)
    ensures Be32(blob, p) == v
  {
    var b := Be32Bytes(v);
    assert blob[p] == b[0] && blob[p + 1] == b[1] && blob[p + 2] == b[2] && blob[p + 3] == b[3];
  }

  /** ALIGN4(). */
  function Align4(n: nat): (r: nat)
    ensures n <= r < n + 4 && r % 4 == 0
  {
    RoundUp(n, 4)
  }

  function Padding(n: nat): (z: seq<byte>)
    ensures |z| == Align4(n) - n
  {
    seq(Align4(n) - n, i => 0)
  }

  ghost predicate TokenOk(t: Token) {
    match t
    case BeginNode(name) => Text(name)
    case Property(p) => p.nameoff < 0x1_0000_0000 && |p.data| < 0x8000_0000
    case _ => true
  }

  /** A token of the structure block; everything is a multiple of four bytes. */
  ghost function TokenBytes(t: Token): seq<byte>
    requires TokenOk(t)
  {
    match t
    case BeginNode(name) => Be32Bytes(1) + (name + [0] + Padding(|name| + 1))
    case EndNode => Be32Bytes(2)
    case Property(p) =>
      Be32Bytes(3) + (Be32Bytes(|p.data|) + (Be32Bytes(p.nameoff) + (p.data + Padding(|p.data|))))
    case Nop => Be32Bytes(4)
    case End => Be32Bytes(9)
  }

  ghost function Serialize(ts: seq<Token>): seq<byte>
    requires forall i :: 0 <= i < |ts| ==> TokenOk(ts[i])
  {
    if ts == [] then [] else TokenBytes(ts[0]) + Serialize(ts[1..])
  }

  /** A blob that holds the tokens ts: the structure block where the header
      says, and every property name, with its NUL, in the strings block. */
  ghost predicate Blob(blob: seq<byte>, ts: seq<Token>) {
    && |blob| >= 40
    && (forall i :: 0 <= i < |ts| ==> TokenOk(ts[i]))
    && Be32(blob, 8) + |Serialize(ts)| <= |blob|
    && blob[Be32(blob, 8)..Be32(blob, 8) + |Serialize(ts)|] == Serialize(ts)
    && forall i :: 0 <= i < |ts| && ts[i].Property? ==>
         var off := Be32(blob, 12) + ts[i].p.nameoff;
         off + |ts[i].p.name| < |blob| && CString(blob, off) == ts[i].p.name && blob[off + |ts[i].p.name|] == 0
  }

  /** The tokens from ts[i] on stand at p. */
  ghost predicate Stands(blob: seq<byte>, p: nat, ts: seq<Token>)
    requires forall i :: 0 <= i < |ts| ==> TokenOk(ts[i])
  {
    p + |Serialize(ts)| <= |blob| && blob[p..p + |Serialize(ts)|] == Serialize(ts)
  }

  lemma StandsStep(blob: seq<byte>, p: nat, ts: seq<Token>)
    requires forall i :: 0 <= i < |ts| ==> TokenOk(ts[i])
    requires ts != [] && Stands(blob, p, ts)
    ensures var w := TokenBytes(ts[0]);
            && p + |w| <= |blob| && blob[p..p + |w|] == w
            && Stands(blob, p + |w|, ts[1..])
  {
    hide TokenBytes, TokenOk;
    var w, rest := TokenBytes(ts[0]), Serialize(ts[1..]);
    assert Serialize(ts) == w + rest;
    Split(blob, p, w, rest);
  }

  lemma Split(blob: seq<byte>, p: nat, a: seq<byte>, b: seq<byte>)
    requires p + |a| + |b| <= |blob| && blob[p..p + |a| + |b|] == a + b
    ensures blob[p..p + |a|] == a && blob[p + |a|..p + |a| + |b|] == b
  {
    var all := blob[p..p + |a| + |b|];
    assert all[..|a|] == blob[p..p + |a|] && all[|a|..] == blob[p + |a|..p + |a| + |b|];
  }

  function Tag(t: Token): nat {
    match t
    case BeginNode(_) => 1
    case EndNode => 2
    case Property(_) => 3
    case Nop => 4
    case End => 9
  }

  /** What fdt_find_prop() reads when token t stands at p. */
  lemma ReadToken(blob: seq<byte>, p: nat, t: Token)
    requires TokenOk(t) && p + |TokenBytes(t)| <= |blob| && blob[p..p + |TokenBytes(t)|] == TokenBytes(t)
    ensures p + 4 <= |blob| && Be32(blob, p) == Tag(t)
    ensures t.EndNode? || t.Nop? || t.End? ==> |TokenBytes(t)| == 4
    ensures t.BeginNode? ==>
              && StrLen(blob, p + 4) == |t.name| && |TokenBytes(t)| == 4 + Align4(|t.name| + 1)
              && CString(blob, p + 4) == t.name
    ensures t.Property? ==>
              && |TokenBytes(t)| == 12 + Align4(|t.p.data|) && p + 12 + |t.p.data| <= |blob|
              && Be32(blob, p + 4) == |t.p.data| && Be32(blob, p + 8) == t.p.nameoff
              && blob[p + 12..p + 12 + |t.p.data|] == t.p.data
  {
    hide Be32, Be32Bytes, Align4, Padding, StrLen;
    match t
    case BeginNode(name) =>
      Split(blob, p, Be32Bytes(1), name + [0] + Padding(|name| + 1));
      Be32RoundTrip(blob, p, 1);
      Split(blob, p + 4, name + [0], Padding(|name| + 1));
      Split(blob, p + 4, name, [0]);
      StrLenIs(blob, p + 4, name);
    case Property(q) =>
      var d, z := q.data, Padding(|q.data|);
      Split(blob, p, Be32Bytes(3), Be32Bytes(|d|) + (Be32Bytes(q.nameoff) + (d + z)));
      Split(blob, p + 4, Be32Bytes(|d|), Be32Bytes(q.nameoff) + (d + z));
      Split(blob, p + 8, Be32Bytes(q.nameoff), d + z);
      Split(blob, p + 12, d, z);
      Be32RoundTrip(blob, p, 3);
      Be32RoundTrip(blob, p + 4, |d|);
      Be32RoundTrip(blob, p + 8, q.nameoff);
    case EndNode => Be32RoundTrip(blob, p, 2);
    case Nop => Be32RoundTrip(blob, p, 4);
    case End => Be32RoundTrip(blob, p, 9);
  }

  /** Where a property value is in the blob, as a pointer and a length. */
  datatype Found = NotFound | At(off: nat, len: nat)

  ghost predicate Delivers(blob: seq<byte>, r: Found, v: Option<seq<byte>>) {
    match v
    case None => r == NotFound
    case Some(d) => r.At? && r.off + r.len <= |blob| && blob[r.off..r.off + r.len] == d
  }

  ghost predicate BlobOf(blob: seq<byte>, ts: seq<Token>, root: Node) {
    Blob(blob, ts) && WithoutNops(ts) == Tokens(root) + [End]
  }

  /** fdt_find_prop() on a blob that holds a tree. */
  method FindProp(blob: seq<byte>, node: seq<byte>, prop: seq<byte>, ghost ts: seq<Token>, ghost root: Node)
    returns (r: Found)
    requires BlobOf(blob, ts, root)
    ensures Delivers(blob, r, Lookup(root.children, node, prop))
  {
    ScanIsLookup(ts, root, node, prop);
    assert (Tokens(root) + [End])[|Tokens(root)|] == End;
    EndStays(ts);
    hide Tokens, WithoutNops, Blob, Lookup, Scan;
    r := ScanBlob(blob, node, prop, ts);
  }

  /** The scan of one token. */
  lemma ScanStep(ts: seq<Token>, depth: int, target: bool, node: seq<byte>, prop: seq<byte>)
    requires ts != []
    ensures Scan(ts, depth, target, node, prop) ==
            match ts[0]
            case BeginNode(n) => Scan(ts[1..], depth + 1, target || (depth + 1 == 2 && n == node), node, prop)
            case EndNode =>
              if (depth == 2 && target) || depth - 1 < 0 then None
              else Scan(ts[1..], depth - 1, false, node, prop)
            case Property(p) =>
              if target && p.name == prop then Some(p.data) else Scan(ts[1..], depth, target, node, prop)
            case Nop => Scan(ts[1..], depth, target, node, prop)
            case End => None
  {
  }

  /** The tokens ts, with an End among them, are what is left to read at p. */
  ghost predicate Reading(blob: seq<byte>, p: nat, ts: seq<Token>) {
    && |blob| >= 40 && End in ts
    && (forall i :: 0 <= i < |ts| ==> TokenOk(ts[i]))
    && Stands(blob, p, ts)
    && forall i :: 0 <= i < |ts| && ts[i].Property? ==>
         var off := Be32(blob, 12) + ts[i].p.nameoff; off < |blob| && CString(blob, off) == ts[i].p.name
  }

  lemma ReadingStarts(blob: seq<byte>, ts: seq<Token>)
    requires Blob(blob, ts) && End in ts
    ensures |blob| >= 40 && Reading(blob, Be32(blob, 8), ts)
  {
    hide Be32, CString, Serialize, TokenOk;
  }

  lemma ReadingStep(blob: seq<byte>, p: nat, ts: seq<Token>)
    requires Reading(blob, p, ts)
    ensures |blob| >= 40 && ts != [] && TokenOk(ts[0])
    ensures p + |TokenBytes(ts[0])| <= |blob| && blob[p..p + |TokenBytes(ts[0])|] == TokenBytes(ts[0])
    ensures ts[0].Property? ==>
              var off := Be32(blob, 12) + ts[0].p.nameoff; off < |blob| && CString(blob, off) == ts[0].p.name
    ensures ts[0] != End ==> Reading(blob, p + |TokenBytes(ts[0])|, ts[1..])
  {
    hide Be32, CString, TokenBytes, TokenOk, Stands;
    StandsStep(blob, p, ts);
    assert ts == [ts[0]] + ts[1..];
  }

  /** The loop of fdt_find_prop(). */
  method ScanBlob(blob: seq<byte>, node: seq<byte>, prop: seq<byte>, ghost ts: seq<Token>) returns (r: Found)
    requires Blob(blob, ts) && End in ts
    ensures Delivers(blob, r, Scan(ts, 0, false, node, prop))
  {
    hide Be32, Align4, StrLen, TokenBytes, TokenOk, CString, Scan, Reading, Blob;
    ReadingStarts(blob, ts);
    var strings := Be32(blob, 12);
    var p: nat := Be32(blob, 8);
    var depth, target := 0, false;
    ghost var rest, want := ts, Scan(ts, 0, false, node, prop);
    while true
      invariant Reading(blob, p, rest)
      invariant want == Scan(rest, depth, target, node, prop)
      decreases |rest|
    {
      ReadingStep(blob, p, rest);
      ScanStep(rest, depth, target, node, prop);
      ReadToken(blob, p, rest[0]);
      var tag := Be32(blob, p);
      var q := p + 4;
      if tag == 1 {
        var nlen := StrLen(blob, q);
        p := q + Align4(nlen + 1);
        depth := depth + 1;
        if depth == 2 && CString(blob, q) == node {
          target := true;
        }
      } else if tag == 2 {
        if depth == 2 && target {
          return NotFound;
        }
        depth := depth - 1;
        target := false;
        if depth < 0 {
          return NotFound;
        }
        p := q;
      } else if tag == 3 {
        var len := Be32(blob, q);
        var nameoff := Be32(blob, q + 4);
        p := q + 8 + Align4(len);
        if target && CString(blob, strings + nameoff) == prop {
          return At(q + 8, len);
        }
      } else if tag == 4 {
        p := q;
      } else {
        return NotFound;
      }
      rest := rest[1..];
    }
  }

  lemma {:induction false} EndStays(ts: seq<Token>)
    requires End in WithoutNops(ts)
    ensures End in ts
  {
    if ts != [] && ts[0] != End {
      if ts[0] != Nop {
        assert WithoutNops(ts)[1..] == WithoutNops(ts[1..]);
      }
      EndStays(ts[1..]);
    }
  }

  // ----- getters -------------------------------------------------------------

  /** Where the idx-th cell ends, as fdt_get_prop_u32_idx() computes it: a 32-bit
      product taken as a signed number. */
  function CellEnd(idx: int): int {
    var u := 4 * (idx + 1) % 0x1_0000_0000;
    if u < 0x8000_0000 then u else u - 0x1_0000_0000
  }

  /** A value of n bytes passes the test exactly when it has the cell. */
  predicate LengthTestRight(idx: int, n: nat) {
    n >= CellEnd(idx) <==> idx >= 0 && n >= 4 * (idx + 1)
  }

  /** The test for a long enough value is right for every value exactly for
      indices from 0 to 0x1ffffffe. */
  lemma IndexExact(idx: int)
    requires -0x8000_0000 <= idx < 0x7fff_ffff
    ensures 0 <= idx < 0x1fff_ffff <==>
            forall n: nat :: n < 0x8000_0000 ==> LengthTestRight(idx, n)
    ensures 0 <= idx < 0x1fff_ffff ==> CellEnd(idx) == 4 * (idx + 1)
  {
    if !(0 <= idx < 0x1fff_ffff) {
      var n: nat := if CellEnd(idx) < 0 then 0 else CellEnd(idx);
      assert n < 0x8000_0000 && !LengthTestRight(idx, n);
    }
  }

  /** fdt_get_prop_u32_idx(): the idx-th 32-bit cell, if the value is that long.
      An index out of range may make it read elsewhere, where memory holds
      whatever elsewhere is. */
  method GetPropU32Idx(blob: seq<byte>, node: seq<byte>, prop: seq<byte>, idx: int, elsewhere: nat,
                       ghost ts: seq<Token>, ghost root: Node)
    returns (err: int, out: nat)
    requires BlobOf(blob, ts, root) && -0x8000_0000 <= idx < 0x7fff_ffff
    ensures match Lookup(root.children, node, prop)
            case None => err == -1
            case Some(d) =>
              && err == (if |d| < CellEnd(idx) then -1 else 0)
              && (0 <= idx < 0x1fff_ffff ==>
                    if |d| < 4 * (idx + 1) then err == -1
                    else
                      && err == 0
                      && out == 0x100_0000 * (d[4 * idx] as int) + 0x1_0000 * (d[4 * idx + 1] as int)
                              + 0x100 * (d[4 * idx + 2] as int) + (d[4 * idx + 3] as int))
  {
    hide BlobOf, Lookup, CellEnd;
    IndexExact(idx);
    var r := FindProp(blob, node, prop, ts, root);
    if r == NotFound || r.len < CellEnd(idx) {
      return -1, 0;
    }
    err := 0;
    out := if 0 <= idx < 0x1fff_ffff then Be32(blob, r.off + 4 * idx) else elsewhere;
  }

  /** fdt_get_prop_str(): the value cut to fit, and a terminating NUL. */
  method GetPropStr(blob: seq<byte>, node: seq<byte>, prop: seq<byte>, buf: array<byte>, ghost ts: seq<Token>,
                    ghost root: Node)
    returns (n: int)
    requires BlobOf(blob, ts, root) && buf.Length >= 1
    modifies buf
    ensures match Lookup(root.children, node, prop)
            case None => n == -1 && buf[..] == old(buf[..])
            case Some(d) =>
              if d == [] then n == -1 && buf[..] == old(buf[..])
              else
                && n == (if |d| < buf.Length then |d| else buf.Length - 1)
                && buf[..n] == d[..n] && buf[n] == 0
                && buf[n + 1..] == old(buf[..])[n + 1..]
  {
    hide BlobOf, Lookup;
    var r := FindProp(blob, node, prop, ts, root);
    if r == NotFound || r.len < 1 {
      return -1;
    }
    n := if r.len < buf.Length then r.len else buf.Length - 1;
    ghost var d := blob[r.off..r.off + r.len];
    var k := 0;
    while k < n
      invariant 0 <= k <= n && buf[..k] == d[..k]
      invariant forall i :: k <= i < buf.Length ==> buf[i] == old(buf[i])
    {
      buf[k] := blob[r.off + k];
      k := k + 1;
      assert buf[..k] == buf[..k - 1] + [d[k - 1]];
    }
    buf[n] := 0;
  }
}
