/** NUL-terminated strings in a block of bytes. */
module CStrings {
  import opened Bits

  /** A C string: bytes other than NUL. */
  ghost predicate Text(s: seq<byte>) {
    forall i :: 0 <= i < |s| ==> s[i] != 0
  }

  /** strlen(), within the block. */
  function StrLen(blob: seq<byte>, p: nat): (n: nat)
    ensures p <= |blob| ==> p + n <= |blob|
    decreases |blob| - p
  {
    if p >= |blob| || blob[p] == 0 then 0 else 1 + StrLen(blob, p + 1)
  }

  lemma {:induction false} StrLenIs(blob: seq<byte>, p: nat, name: seq<byte>)
    requires Text(name) && p + |name| < |blob| && blob[p..p + |name|] == name && blob[p + |name|] == 0
    ensures StrLen(blob, p) == |name|
    decreases |name|
  {
    if name == [] {
    } else {
      assert blob[p] == name[0];
      assert blob[p + 1..p + |name|] == name[1..];
      StrLenIs(blob, p + 1, name[1..]);
    }
  }

  /** The C string at p. */
  function CString(blob: seq<byte>, p: nat): seq<byte>
    requires p <= |blob|
  {
    blob[p..p + StrLen(blob, p)]
  }
}
