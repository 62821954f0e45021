/** The buffer scanners of qemu-img.c: compare_buffers and find_nonzero. */
module Buffers {
  import opened Bytes

  function ChunkSize(chsize: nat): nat {
    if chsize == 0 then BDRV_SECTOR_SIZE else chsize
  }

  /** The chunk of at most `ch` bytes starting at `c` is the same in both buffers. */
  predicate ChunkSame(a: seq<byte>, b: seq<byte>, c: nat, ch: nat)
    requires |a| == |b| && c <= |a|
  {
    a[c..Min(c + ch, |a|)] == b[c..Min(c + ch, |a|)]
  }

  /** All chunks that start below `n` differ, or none does. */
  ghost predicate Uniform(a: seq<byte>, b: seq<byte>, ch: nat, n: nat, differ: bool)
    requires |a| == |b| && ch > 0 && n <= |a|
  {
    forall c :: 0 <= c < n && c % ch == 0 ==> (ChunkSame(a, b, c, ch) <==> !differ)
  }

  /** compare_buffers: whether the first chunks differ, and how long a prefix of whole chunks
      agrees with the first one on that. */
  method CompareBuffers(a: seq<byte>, b: seq<byte>, chsize: nat) returns (differ: bool, pnum: nat)
    requires |a| == |b| > 0
    ensures 0 < pnum <= |a|
    ensures pnum < |a| ==> pnum % ChunkSize(chsize) == 0
    ensures Uniform(a, b, ChunkSize(chsize), pnum, differ)
    ensures pnum < |a| ==> (ChunkSame(a, b, pnum, ChunkSize(chsize)) <==> differ)
  {
    var ch := ChunkSize(chsize);
    var i := Min(|a|, ch);
    differ := a[..i] != b[..i];
    assert a[0..i] == a[..i] && b[0..i] == b[..i];
    OneMoreChunk(a, b, ch, 0, differ);
    while i < |a|
      invariant 0 < i <= |a|
      invariant i < |a| ==> i % ch == 0
      invariant Uniform(a, b, ch, i, differ)
      decreases |a| - i
    {
      var len := Min(|a| - i, ch);
      if (a[i..i + len] != b[i..i + len]) != differ {
        break;
      }
      OneMoreChunk(a, b, ch, i, differ);
      i := i + len;
    }
    pnum := i;
  }

  /** A uniform prefix and one more chunk of the same kind. */
  lemma OneMoreChunk(a: seq<byte>, b: seq<byte>, ch: nat, i: nat, differ: bool)
    requires |a| == |b| && ch > 0 && i < |a| && i % ch == 0
    requires Uniform(a, b, ch, i, differ) && (ChunkSame(a, b, i, ch) <==> !differ)
    ensures Uniform(a, b, ch, Min(i + ch, |a|), differ) && (i + ch < |a| ==> (i + ch) % ch == 0)
  {
    OneMore(i, ch);
    BetweenMultiples(i, Min(i + ch, |a|), ch);
  }

  lemma BetweenMultiples(lo: nat, hi: nat, ch: nat)
    requires ch > 0 && lo % ch == 0 && hi <= lo + ch
    ensures forall c :: lo < c < hi ==> c % ch != 0
  {
    forall c | lo < c < hi ensures c % ch != 0 {
      AlignedSum(lo, c - lo, ch);
      DivModUnique(c - lo, ch, 0, c - lo);
    }
  }

  /** A run of equal chunks is a run of equal bytes. */
  lemma SameChunksSameBytes(a: seq<byte>, b: seq<byte>, ch: nat, pnum: nat)
    requires |a| == |b| && ch > 0 && pnum <= |a|
    requires Uniform(a, b, ch, pnum, false)
    ensures a[..pnum] == b[..pnum]
  {
    forall p | 0 <= p < pnum ensures a[p] == b[p] {
      var c := AlignDown(p, ch);
      AlignedBounds(p, ch);
      assert ChunkSame(a, b, c, ch);
      var e := Min(c + ch, |a|);
      assert a[c..e][p - c] == b[c..e][p - c];
    }
  }

  /** find_nonzero: -1 exactly for an all-zero buffer, otherwise the start of the first sector
      that holds a non-zero byte. */
  method FindNonzero(buf: seq<byte>) returns (idx: int)
    ensures idx == -1 <==> AllZero(buf)
    ensures idx != -1 ==> 0 <= idx < |buf| && idx % BDRV_SECTOR_SIZE == 0 && AllZero(buf[..idx])
    ensures idx != -1 ==> !AllZero(buf[idx..Min(idx + BDRV_SECTOR_SIZE, |buf|)])
  {
    var end := AlignDown(|buf|, BDRV_SECTOR_SIZE);
    var i := 0;
    while i < end
      invariant 0 <= i <= end && i % BDRV_SECTOR_SIZE == 0 && AllZero(buf[..i])
    {
      if !AllZero(buf[i..i + BDRV_SECTOR_SIZE]) {
        NonzeroInside(buf, i, i + BDRV_SECTOR_SIZE);
        return i;
      }
      ZeroPieces(buf, i, i + BDRV_SECTOR_SIZE);
      i := i + BDRV_SECTOR_SIZE;
    }
    assert buf[i..i + (|buf| - end)] == buf[i..];
    if i < |buf| && !AllZero(buf[i..i + (|buf| - end)]) {
      NonzeroInside(buf, i, |buf|);
      return i;
    }
    ZeroPieces(buf, i, |buf|);
    assert buf[..|buf|] == buf;
    return -1;
  }

  lemma NonzeroInside(buf: seq<byte>, lo: nat, hi: nat)
    requires lo <= hi <= |buf| && !AllZero(buf[lo..hi])
    ensures !AllZero(buf)
  {
    var k :| 0 <= k < hi - lo && buf[lo..hi][k] != 0;
    assert buf[lo + k] != 0;
  }

  lemma ZeroPieces(buf: seq<byte>, lo: nat, hi: nat)
    requires lo <= hi <= |buf| && AllZero(buf[..lo]) && AllZero(buf[lo..hi])
    ensures AllZero(buf[..hi])
  {
    forall k | 0 <= k < hi ensures buf[..hi][k] == 0 {
      if k < lo { assert buf[..lo][k] == 0; } else { assert buf[lo..hi][k - lo] == 0; }
    }
  }
}
