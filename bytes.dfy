/** Octets and the slice operations the responder performs on byte buffers. */
module Bytes {

  /** One element of a Python `bytes` or `bytearray`. */
  type byte = x: int | 0 <= x < 0x100

  /** `bytearray(n)`: n zero bytes. */
  function Zeros(n: nat): (z: seq<byte>)
    ensures |z| == n
    ensures forall k :: 0 <= k < n ==> z[k] == 0
  {
    seq(n, _ => 0)
  }

  /** The buffer s after the slice assignment `s[off:off+len(src)] = src`,
      where the slice and src have the same length. */
  function Splice(s: seq<byte>, off: nat, src: seq<byte>): (r: seq<byte>)
    requires off + |src| <= |s|
    ensures |r| == |s|
    ensures forall k :: 0 <= k < |s| && (k < off || off + |src| <= k) ==> r[k] == s[k]
    ensures forall k :: 0 <= k < |src| ==> r[off + k] == src[k]
  {
    s[..off] + src + s[off + |src|..]
  }

  /** The slice assignment `a[off:off+len(src)] = src` on a bytearray, done in place. */
  method CopyInto(a: array<byte>, off: nat, src: seq<byte>)
    requires off + |src| <= a.Length
    modifies a
    ensures a[..] == Splice(old(a[..]), off, src)
  {
    for k := 0 to |src|
      invariant forall j :: 0 <= j < a.Length && (j < off || off + k <= j) ==> a[j] == old(a[j])
      invariant forall j :: 0 <= j < k ==> a[off + j] == src[j]
    {
      a[off + k] := src[k];
    }
    ghost var want := Splice(old(a[..]), off, src);
    assert forall j :: 0 <= j < a.Length ==> a[..][j] == want[j] by {
      forall j | 0 <= j < a.Length
        ensures a[..][j] == want[j]
      {
        if off <= j < off + |src| {
          assert a[off + (j - off)] == src[j - off];
        }
      }
    }
  }

  /** Writing src at offset off into a buffer holding the first e bytes of
      `full` and zeros after them, where full has zeros from e to off and src
      from off on: afterwards the buffer holds full up to the end of src. */
  method WriteNext(a: array<byte>, ghost full: seq<byte>, ghost e: nat, off: nat, src: seq<byte>)
    requires a.Length == |full| && e <= off && off + |src| <= |full|
    requires a[..] == full[..e] + Zeros(|full| - e)
    requires forall k :: e <= k < off ==> full[k] == 0
    requires full[off..off + |src|] == src
    modifies a
    ensures a[..] == full[..off + |src|] + Zeros(|full| - off - |src|)
  {
    CopyInto(a, off, src);
    ghost var want := full[..off + |src|] + Zeros(|full| - off - |src|);
    forall k | 0 <= k < a.Length
      ensures a[k] == want[k]
    {
      if off <= k < off + |src| {
        assert a[off + (k - off)] == src[k - off];
      }
    }
    assert a[..] == want;
  }

  /** Writing w just after the written prefix of a zero-filled buffer
      appends w to that prefix. */
  method WriteAfter(a: array<byte>, ghost prefix: seq<byte>, n: nat, w: seq<byte>)
    requires n == |prefix| && n + |w| <= a.Length
    requires a[..] == prefix + Zeros(a.Length - |prefix|)
    modifies a
    ensures a[..] == prefix + w + Zeros(a.Length - |prefix| - |w|)
  {
    CopyInto(a, n, w);
    ghost var want := prefix + w + Zeros(a.Length - n - |w|);
    forall k | 0 <= k < a.Length
      ensures a[k] == want[k]
    {
      if n <= k < n + |w| {
        assert a[n + (k - n)] == w[k - n];
      }
    }
    assert a[..] == want;
  }
}
