/**
  The zip directory of zip/zip.c: the search for the end record, the chain of
  central headers, and lookup by name. Memory is a total map, as the code reads
  what it finds; numbers in records are little endian, signatures are compared
  as the bytes P, K and two more (sections 4.3.12 and 4.3.16 of the PKWARE
  APPNOTE).
 */
module ZipDirectory {
  import opened Bits
  import opened Options
  import opened CStrings

  type Memory = nat -> byte

  const END_RECORD: nat := 22
  const LOCAL_HEADER: nat := 30
  const CENTRAL_HEADER: nat := 46

  /** LE16() and LE32() of a field. */
  function Le16(m: Memory, p: nat): nat {
    (m(p) as int) + 256 * (m(p + 1) as int)
  }

  function Le32(m: Memory, p: nat): nat {
    Le16(m, p) + 0x10000 * Le16(m, p + 2)
  }

  /** The bytes of a number, low one first. */
  ghost predicate Number16(m: Memory, p: nat, v: nat) {
    m(p) == v % 256 && m(p + 1) == v / 256
  }

  ghost predicate Number32(m: Memory, p: nat, v: nat) {
    && m(p) == v % 256 && m(p + 1) == v / 256 % 256
    && m(p + 2) == v / 256 / 256 % 256 && m(p + 3) == v / 256 / 256 / 256
  }

  lemma Le16Exact(m: Memory, p: nat, v: nat)
    ensures Le16(m, p) == v <==> Number16(m, p, v)
  {
  }

  lemma Le32Exact(m: Memory, p: nat, v: nat)
    ensures Le32(m, p) == v <==> Number32(m, p, v)
  {
    hide Le16;
    var q := v / 256;
    var h := q / 256;
    assert v == 256 * q + v % 256 && q == 256 * h + q % 256;
    Le16Exact(m, p, v % 256 + 256 * (q % 256));
    Le16Exact(m, p + 2, h);
    Le16Bound(m, p);
    HalvesOf(v, Le16(m, p), Le16(m, p + 2), h);
  }

  lemma Le16Bound(m: Memory, p: nat)
    ensures Le16(m, p) < 0x10000
  {
  }

  lemma HalvesOf(v: nat, low: nat, high: nat, h: nat)
    requires low < 0x10000 && h == v / 256 / 256
    ensures low + 0x10000 * high == v <==> high == h && low == v % 256 + 256 * (v / 256 % 256)
  {
    var q := v / 256;
    assert v == 256 * q + v % 256 && q == 256 * h + q % 256;
  }

  lemma SameNumber(m: Memory, p: nat, q: nat)
    ensures Le16(m, p) == Le16(m, q) <==> m(p) == m(q) && m(p + 1) == m(q + 1)
  {
  }

  /** BE32() of a field, as signatures are read. */
  function Be32(m: Memory, p: nat): nat {
    0x100_0000 * (m(p) as int) + 0x1_0000 * (m(p + 1) as int) + 0x100 * (m(p + 2) as int) + (m(p + 3) as int)
  }

  ghost predicate Signature(m: Memory, p: nat, a: byte, b: byte) {
    m(p) == 0x50 && m(p + 1) == 0x4b && m(p + 2) == a && m(p + 3) == b
  }

  lemma SignatureIs(m: Memory, p: nat, a: byte, b: byte)
    ensures Signature(m, p, a, b) <==> Be32(m, p) == 0x504b_0000 + 0x100 * (a as int) + (b as int)
  {
  }

  ghost predicate EndAt(m: Memory, p: nat) {
    Signature(m, p, 5, 6)
  }

  function Slice(m: Memory, p: nat, n: nat): (s: seq<byte>)
    ensures |s| == n && forall i :: 0 <= i < n ==> s[i] == m(p + i)
  {
    seq(n, i requires 0 <= i < n => m(p + i))
  }

  // ----- the end record ------------------------------------------------------

  /** zip_findLen(): up to the end of the first end record after the first local
      header, whose 30 bytes come first. */
  method FindLen(m: Memory, maxlen: nat) returns (len: nat)
    ensures len == 0 <==>
              !Signature(m, 0, 3, 4) || forall i :: 30 <= i < maxlen ==> !EndAt(m, i)
    ensures len > 0 ==>
              var i := len - 22;
              && 30 <= i < maxlen && EndAt(m, i)
              && forall j :: 30 <= j < i ==> !EndAt(m, j)
  {
    hide Be32;
    SignatureIs(m, 0, 3, 4);
    if Be32(m, 0) == 0x504b_0304 {
      var i := LOCAL_HEADER;
      while i < maxlen
        invariant LOCAL_HEADER <= i
        invariant forall j :: LOCAL_HEADER <= j < i ==> !EndAt(m, j)
      {
        SignatureIs(m, i, 5, 6);
        if Be32(m, i) == 0x504b_0506 {
          assert EndAt(m, i);
          return i + END_RECORD;
        }
        i := i + 1;
      }
    }
    len := 0;
  }

  /** The end record of 22 bytes that a search back from the end of len bytes
      meets first. */
  ghost predicate LastEnd(m: Memory, len: nat, er: nat) {
    er + 22 <= len && EndAt(m, er) && forall i :: er < i && i + 22 <= len ==> !EndAt(m, i)
  }

  /** Both disk numbers are zero, and all entries are on this disk. */
  ghost predicate SingleDisk(m: Memory, er: nat) {
    && m(er + 4) == m(er + 5) == m(er + 6) == m(er + 7) == 0
    && m(er + 10) == m(er + 8) && m(er + 11) == m(er + 9)
  }

  // ----- the central directory -----------------------------------------------

  /** A central header: name, length of the extra field and of the comment. */
  datatype Entry = Entry(name: seq<byte>, extra: nat, comment: nat)

  ghost predicate EntryAt(m: Memory, p: nat, e: Entry) {
    && Signature(m, p, 1, 2)
    && Number16(m, p + 28, |e.name|) && Number16(m, p + 30, e.extra) && Number16(m, p + 32, e.comment)
    && forall i :: 0 <= i < |e.name| ==> m(p + 46 + i) == e.name[i]
  }

  function After(p: nat, e: Entry): nat {
    p + 46 + |e.name| + e.extra + e.comment
  }

  /** What the code reads of a header. */
  lemma EntryFields(m: Memory, p: nat, e: Entry)
    requires EntryAt(m, p, e)
    ensures Be32(m, p) == 0x504b_0102
    ensures Le16(m, p + 28) == |e.name| && Le16(m, p + 30) == e.extra && Le16(m, p + 32) == e.comment
    ensures Slice(m, p + CENTRAL_HEADER, |e.name|) == e.name
  {
    SignatureIs(m, p, 1, 2);
    Le16Exact(m, p + 28, |e.name|);
    Le16Exact(m, p + 30, e.extra);
    Le16Exact(m, p + 32, e.comment);
  }

  /** Central headers one after the other from p on, each starting before len. */
  ghost predicate Directory(m: Memory, len: nat, p: nat, es: seq<Entry>)
    decreases es
  {
    es != [] ==> p < len && EntryAt(m, p, es[0]) && Directory(m, len, After(p, es[0]), es[1..])
  }

  /** Where the i-th header is. */
  function HeaderAt(p: nat, es: seq<Entry>, i: nat): nat
    requires i <= |es|
    decreases i
  {
    if i == 0 then p else HeaderAt(After(p, es[0]), es[1..], i - 1)
  }

  /** What zip_file_find() looks for: the first entry with the name, unless a
      name too long for its buffer comes first. */
  function Find(es: seq<Entry>, name: seq<byte>): (r: Option<nat>)
    ensures r.Some? ==> r.value < |es|
  {
    if es == [] || |es[0].name| > 255 then None
    else if es[0].name == name then Some(0)
    else
      match Find(es[1..], name)
      case None => None
      case Some(i) => Some(i + 1)
  }

  /** The first entry of the name. */
  ghost predicate First(es: seq<Entry>, name: seq<byte>, i: nat) {
    i < |es| && es[i].name == name && forall j :: 0 <= j < i ==> es[j].name != name
  }

  /** With names that fit, lookup finds the first entry of that name, if any. */
  lemma {:induction false} FindsFirst(es: seq<Entry>, name: seq<byte>, i: nat)
    requires forall j :: 0 <= j < |es| ==> |es[j].name| <= 255
    ensures Find(es, name) == Some(i) <==> First(es, name, i)
    decreases es
  {
    if es != [] && es[0].name != name && i > 0 {
      var t := es[1..];
      assert forall j :: 0 <= j < |t| ==> t[j] == es[j + 1];
      FindsFirst(t, name, i - 1);
      if First(t, name, i - 1) {
        forall j | 0 <= j < i ensures es[j].name != name {
          assert j > 0 ==> es[j] == t[j - 1];
        }
      }
    }
  }

  /** strcmp() of a name copied to a buffer, when the lengths agree. */
  lemma {:induction false} SameString(bytes: seq<byte>, name: seq<byte>, p: nat)
    requires Text(name) && |bytes| == |name| && p <= |name|
    ensures CString(bytes + [0], p) == name[p..] <==> bytes[p..] == name[p..]
    decreases |name| - p
  {
    var buf := bytes + [0];
    if p == |name| {
    } else if bytes[p] == 0 {
      assert StrLen(buf, p) == 0;
      assert bytes[p..][0] != name[p..][0];
    } else {
      SameString(bytes, name, p + 1);
      assert CString(buf, p) == [bytes[p]] + CString(buf, p + 1);
      assert bytes[p..] == [bytes[p]] + bytes[p + 1..] && name[p..] == [name[p]] + name[p + 1..];
    }
  }

  class Zip {
    const m: Memory
    var len: nat
    var er: Option<nat>
    var gfh: Option<nat>

    constructor (m: Memory)
      ensures this.m == m && er == None
    {
      this.m := m;
      er, gfh := None, None;
    }

    /** zip_openBuffer() */
    method OpenBuffer(ziplen: nat) returns (ok: bool)
      modifies this
      ensures ok <==> ziplen > 22 && exists e :: LastEnd(m, ziplen, e) && SingleDisk(m, e)
      ensures ok ==> er.Some? && LastEnd(m, ziplen, er.value) && SingleDisk(m, er.value) && len == ziplen && gfh == None
      ensures !ok ==> er == old(er) && gfh == old(gfh) && len == old(len)
    {
      hide Be32, Le16, Signature;
      if ziplen <= END_RECORD {
        return false;
      }
      var i := ziplen - END_RECORD;
      while i >= 0
        invariant -1 <= i <= ziplen - END_RECORD
        invariant forall j :: i < j && j + END_RECORD <= ziplen ==> !EndAt(m, j)
        invariant er == old(er) && gfh == old(gfh) && len == old(len)
      {
        SignatureIs(m, i, 5, 6);
        if Be32(m, i) == 0x504b_0506 {
          break;
        }
        i := i - 1;
      }
      if i < 0 {
        return false;
      }
      assert LastEnd(m, ziplen, i);
      assert forall e: nat :: LastEnd(m, ziplen, e) ==> e == i;
      Le16Exact(m, i + 4, 0);
      Le16Exact(m, i + 6, 0);
      SameNumber(m, i + 10, i + 8);
      if Le16(m, i + 4) != 0 || Le16(m, i + 6) != 0 || Le16(m, i + 10) != Le16(m, i + 8) {
        return false;
      }
      len, er, gfh := ziplen, Some(i), None;
      ok := true;
    }

    /** Where zip_readdir() looks next. */
    function NextHeader(): (next: nat)
      requires er.Some?
      reads this
      ensures gfh.None? ==> Number32(m, er.value + 16, next)
      ensures gfh.Some? ==>
                forall e :: EntryAt(m, gfh.value, e) ==> next == gfh.value + 46 + |e.name| + e.extra
    {
      match gfh
      case None =>
        Le32Exact(m, er.value + 16, Le32(m, er.value + 16));
        Le32(m, er.value + 16)
      case Some(p) =>
        assert forall e :: EntryAt(m, p, e) ==> Le16(m, p + 28) == |e.name| && Le16(m, p + 30) == e.extra by {
          forall e | EntryAt(m, p, e) ensures Le16(m, p + 28) == |e.name| && Le16(m, p + 30) == e.extra {
            EntryFields(m, p, e);
          }
        }
        p + CENTRAL_HEADER + Le16(m, p + 28) + Le16(m, p + 30)
    }

    /** zip_readdir() */
    method ReadDir() returns (ok: bool)
      requires er.Some?
      modifies this`gfh
      ensures ok <==> old(NextHeader()) < len && Signature(m, old(NextHeader()), 1, 2)
      ensures ok ==> gfh == Some(old(NextHeader()))
      ensures !ok ==> gfh == if old(NextHeader()) < len then None else old(gfh)
    {
      var offs := NextHeader();
      if offs >= len {
        return false;
      }
      gfh := Some(offs);
      SignatureIs(m, offs, 1, 2);
      if Be32(m, offs) != 0x504b_0102 {
        gfh := None;
        return false;
      }
      ok := true;
    }

    /** The comparison in zip_file_find() for the header that gfh points at. */
    method NameIs(name: seq<byte>, fnlen: nat) returns (same: bool)
      requires gfh.Some? && Text(name)
      ensures same <==> Slice(m, gfh.value + CENTRAL_HEADER, fnlen) == name
    {
      hide StrLen;
      if fnlen != |name| {
        return false;
      }
      var bytes := Slice(m, gfh.value + CENTRAL_HEADER, fnlen);
      SameString(bytes, name, 0);
      assert bytes[0..] == bytes && name[0..] == name;
      same := CString(bytes + [0], 0) == name;
    }

    /** zip_file_find(), whatever the memory holds. */
    method FileFind(name: seq<byte>) returns (ok: bool)
      requires er.Some? && Text(name)
      modifies this`gfh
      ensures ok <==> Walk(m, len, Le32(m, er.value + 16), Le16(m, er.value + 10), name).Some?
      ensures ok ==> gfh == Walk(m, len, Le32(m, er.value + 16), Le16(m, er.value + 10), name)
      ensures forall p, es :: Archive(m, len, er.value, p, es) ==> PointsAtFirst(if ok then gfh else None, p, es, name)
    {
      hide Le16, Le32, Signature, Slice, Archive, PointsAtFirst;
      gfh := None;
      LookupInArchives(m, len, er.value, name);
      var n := Le16(m, er.value + 10);
      ghost var want := Walk(m, len, Le32(m, er.value + 16), n, name);
      for i := 0 to n
        invariant want == Walk(m, len, NextHeader(), n - i, name)
      {
        var more := ReadDir();
        if !more {
          return false;
        }
        var fnlen := Le16(m, gfh.value + 28);
        if fnlen > 255 {
          return false;
        }
        var same := NameIs(name, fnlen);
        if same {
          return true;
        }
      }
      ok := false;
    }
  }

  /** What zip_file_find() does with n headers from p on: each header is taken to
      start where the previous one's extra field ends. */
  ghost function Walk(m: Memory, len: nat, p: nat, n: nat, name: seq<byte>): Option<nat>
    decreases n
  {
    if n == 0 || p >= len || !Signature(m, p, 1, 2) || Le16(m, p + 28) > 255 then None
    else if Slice(m, p + CENTRAL_HEADER, Le16(m, p + 28)) == name then Some(p)
    else Walk(m, len, p + CENTRAL_HEADER + Le16(m, p + 28) + Le16(m, p + 30), n - 1, name)
  }

  /** Find, as the address of a header. */
  function FoundAt(p: nat, es: seq<Entry>, name: seq<byte>): Option<nat> {
    match Find(es, name)
    case None => None
    case Some(i) => Some(HeaderAt(p, es, i))
  }

  /** No comment that a walk can meet begins like a central header. */
  ghost predicate PlainComments(m: Memory, p: nat, es: seq<Entry>)
    decreases es
  {
    es != [] ==>
      && (es[0].comment > 0 && |es| > 1 ==> !Signature(m, p + CENTRAL_HEADER + |es[0].name| + es[0].extra, 1, 2))
      && PlainComments(m, After(p, es[0]), es[1..])
  }

  /** The entries that a lookup passes have no comments. */
  predicate Uncommented(es: seq<Entry>, n: nat)
    requires n <= |es|
  {
    forall j :: 0 <= j < n ==> es[j].comment == 0
  }

  /** The walk finds what Find names, at that entry's header, if no entry before
      it has a comment; and unless a comment looks like a header, only then. */
  lemma {:induction false} WalkExact(m: Memory, len: nat, p: nat, es: seq<Entry>, name: seq<byte>)
    requires Directory(m, len, p, es)
    ensures var w, f := Walk(m, len, p, |es|, name), Find(es, name);
            && (f.Some? && Uncommented(es, f.value) ==> w == FoundAt(p, es, name))
            && (PlainComments(m, p, es) ==>
                  && (w == FoundAt(p, es, name) <==> f.None? || Uncommented(es, f.value))
                  && (w == None || w == FoundAt(p, es, name)))
    decreases es
  {
    hide Le16, Number16, Slice;
    if es != [] {
      EntryFields(m, p, es[0]);
    }
    hide Signature, EntryAt;
    if es != [] && es[0].name != name && |es[0].name| <= 255 {
      var t, q := es[1..], After(p, es[0]);
      WalkExact(m, len, q, t, name);
      match Find(t, name)
      case None =>
      case Some(i) =>
        assert es[0].comment == 0 && Uncommented(t, i) <==> Uncommented(es, i + 1) by {
          forall j | 0 < j <= i ensures es[j] == t[j - 1] {
          }
          if es[0].comment == 0 && Uncommented(t, i) {
            forall j | 0 <= j < i + 1 ensures es[j].comment == 0 {
            }
          }
          if Uncommented(es, i + 1) {
            forall j | 0 <= j < i ensures t[j].comment == 0 {
              assert t[j] == es[j + 1];
            }
          }
        }
    }
  }

  lemma {:induction false} NoComments(m: Memory, p: nat, es: seq<Entry>)
    requires es != [] ==> Uncommented(es, |es| - 1)
    ensures PlainComments(m, p, es)
    decreases es
  {
    hide Signature;
    if |es| > 1 {
      NoComments(m, After(p, es[0]), es[1..]);
    }
  }

  /** In a directory without comments, except perhaps on the last entry, every
      lookup is right. */
  lemma WalkFinds(m: Memory, len: nat, p: nat, es: seq<Entry>, name: seq<byte>)
    requires Directory(m, len, p, es)
    requires es != [] ==> Uncommented(es, |es| - 1)
    ensures Walk(m, len, p, |es|, name) == FoundAt(p, es, name)
  {
    hide Walk, Directory;
    NoComments(m, p, es);
    WalkExact(m, len, p, es, name);
  }

  /** Something if there is an entry of the name, and then the first one's header. */
  ghost predicate PointsAtFirst(w: Option<nat>, p: nat, es: seq<Entry>, name: seq<byte>) {
    && (w.Some? <==> exists j :: 0 <= j < |es| && es[j].name == name)
    && forall i :: First(es, name, i) ==> w == Some(HeaderAt(p, es, i))
  }

  /** The whole promise: with names that fit, lookup succeeds exactly for the
      names of entries, and points at the header of the first one. */
  lemma LookupFindsFirst(m: Memory, len: nat, p: nat, es: seq<Entry>, name: seq<byte>)
    requires Directory(m, len, p, es) && (es != [] ==> Uncommented(es, |es| - 1))
    requires forall j :: 0 <= j < |es| ==> |es[j].name| <= 255
    ensures PointsAtFirst(Walk(m, len, p, |es|, name), p, es, name)
  {
    hide Walk, Directory;
    WalkFinds(m, len, p, es, name);
    forall i: nat ensures Find(es, name) == Some(i) <==> First(es, name, i) {
      FindsFirst(es, name, i);
    }
    if j :| 0 <= j < |es| && es[j].name == name {
      var i := Earliest(es, name, j);
    }
    if Find(es, name).Some? {
      assert First(es, name, Find(es, name).value);
    }
  }

  lemma {:induction false} Earliest(es: seq<Entry>, name: seq<byte>, j: nat) returns (i: nat)
    requires j < |es| && es[j].name == name
    ensures First(es, name, i)
    decreases j
  {
    if k :| 0 <= k < j && es[k].name == name {
      i := Earliest(es, name, k);
    } else {
      i := j;
    }
  }

  /** A directory where and as long as the end record says, without comments
      (except perhaps on the last entry) and with names of at most 255 bytes. */
  ghost predicate Archive(m: Memory, len: nat, er: nat, p: nat, es: seq<Entry>) {
    && Number16(m, er + 10, |es|) && Number32(m, er + 16, p) && Directory(m, len, p, es)
    && (es != [] ==> Uncommented(es, |es| - 1))
    && forall j :: 0 <= j < |es| ==> |es[j].name| <= 255
  }

  lemma LookupInArchives(m: Memory, len: nat, er: nat, name: seq<byte>)
    ensures var w := Walk(m, len, Le32(m, er + 16), Le16(m, er + 10), name);
            forall p, es :: Archive(m, len, er, p, es) ==> PointsAtFirst(w, p, es, name)
  {
    hide Walk, Directory, PointsAtFirst, Le16, Le32, Number16, Number32;
    forall p, es | Archive(m, len, er, p, es)
      ensures PointsAtFirst(Walk(m, len, Le32(m, er + 16), Le16(m, er + 10), name), p, es, name)
    {
      Le16Exact(m, er + 10, |es|);
      Le32Exact(m, er + 16, p);
      LookupFindsFirst(m, len, p, es, name);
    }
  }

  const COMMENTED := Entry([0x61], 0, 1)
  const PLAIN := Entry([0x62], 0, 0)

  /** An archive of the directory alone: entry "a" with a one-byte comment, entry
      "b", and the end record. */
  function CommentedArchive(p: nat): byte {
    if p == 0 || p == 48 || p == 95 then 0x50
    else if p == 1 || p == 49 || p == 96 then 0x4b
    else if p == 2 || p == 50 || p == 28 || p == 76 || p == 32 then 1
    else if p == 3 || p == 51 || p == 103 || p == 105 then 2
    else if p == 97 then 5
    else if p == 98 then 6
    else if p == 46 then 0x61
    else if p == 94 then 0x62
    else 0
  }

  /** In it entry "b" is not found. */
  lemma CommentHides()
    ensures var m: Memory := CommentedArchive;
            var es := [COMMENTED, PLAIN];
            && LastEnd(m, 117, 95) && SingleDisk(m, 95) && Le32(m, 95 + 16) == 0 && Le16(m, 95 + 10) == |es|
            && Directory(m, 117, 0, es) && PlainComments(m, 0, es)
            && Find(es, PLAIN.name) == Some(1) && Walk(m, 117, 0, |es|, PLAIN.name) == None
  {
    hide EntryAt, LastEnd, SingleDisk, Signature, Le16, Le32, CommentedArchive;
    var m: Memory := CommentedArchive;
    CommentedEntries();
    CommentedEnd();
    var es := [COMMENTED, PLAIN];
    assert es[1..] == [PLAIN] && es[1..][1..] == [];
    assert Find(es[1..], PLAIN.name) == Some(0);
    assert es[0].comment == 1 && !Uncommented(es, 1);
    assert After(0, COMMENTED) == 48;
    assert Directory(m, 117, 48, [PLAIN]) && PlainComments(m, 48, [PLAIN]);
    WalkExact(m, 117, 0, es, PLAIN.name);
  }

  lemma CommentedEntries()
    ensures EntryAt(CommentedArchive, 0, COMMENTED) && EntryAt(CommentedArchive, 48, PLAIN)
    ensures !Signature(CommentedArchive, 47, 1, 2)
  {
    OneByteName(CommentedArchive, 0, COMMENTED);
    OneByteName(CommentedArchive, 48, PLAIN);
  }

  lemma OneByteName(m: Memory, p: nat, e: Entry)
    requires Signature(m, p, 1, 2) && |e.name| == 1 && m(p + CENTRAL_HEADER) == e.name[0]
    requires m(p + 28) == 1 && m(p + 29) == m(p + 30) == m(p + 31) == m(p + 33) == 0
    requires e.extra == 0 && e.comment == m(p + 32) as int
    ensures EntryAt(m, p, e)
  {
    assert Slice(m, p + CENTRAL_HEADER, 1) == [m(p + CENTRAL_HEADER)] == e.name;
  }

  lemma CommentedEnd()
    ensures LastEnd(CommentedArchive, 117, 95) && SingleDisk(CommentedArchive, 95)
    ensures Le32(CommentedArchive, 95 + 16) == 0 && Le16(CommentedArchive, 95 + 10) == 2
  {
  }

  /** Opening at the length that zip_findLen() reports selects the end record it
      found. */
  method OpenFound(m: Memory, maxlen: nat) returns (found: nat, ok: bool, z: Zip)
    ensures found > 0 ==>
              found > 22 && EndAt(m, found - 22) && (ok <==> SingleDisk(m, found - 22))
    ensures found > 0 && ok ==> z.er == Some(found - 22)
  {
    found := FindLen(m, maxlen);
    z := new Zip(m);
    ok := z.OpenBuffer(found);
    if found > 0 {
      assert LastEnd(m, found, found - END_RECORD);
    }
  }
}
