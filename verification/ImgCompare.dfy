/** qemu-img compare: img_compare and check_empty_sectors in qemu-img.c. */
module ImgCompare {
  import opened Bytes
  import opened Buffers

  /** A block status: BDRV_BLOCK_ALLOCATED, BDRV_BLOCK_ZERO and all other bits. */
  datatype Status = Status(alloc: bool, zero: bool, others: int)

  /** An image: content and status of every byte, and the offsets at which asking for the block
      status or reading fails. */
  datatype Image = Image(bytes: seq<byte>, stat: seq<Status>, statusFaults: set<nat>, readFaults: set<nat>) {
    /** What is zero, or unallocated down to the bottom of the chain, reads as zero. */
    ghost predicate Valid() {
      && |stat| == |bytes|
      && forall p :: 0 <= p < |bytes| && (stat[p].zero || !stat[p].alloc) ==> bytes[p] == 0
    }

    predicate Sound() { statusFaults == {} && readFaults == {} }
  }

  /** The shorter image padded with zeros equals the longer one. */
  ghost predicate SameContent(a: Image, b: Image) {
    forall p: nat :: p < |a.bytes| || p < |b.bytes| ==> Pad(a.bytes, p) == Pad(b.bytes, p)
  }

  ghost predicate Identical(a: Image, b: Image, strict: bool) {
    && SameContent(a, b)
    && (strict ==> |a.bytes| == |b.bytes| && a.stat == b.stat)
  }

  /** bdrv_block_status_above(bs, NULL, ...): the status of any non-empty uniform prefix. */
  method BlockStatus(a: Image, offset: nat, bytes: nat) returns (ok: bool, status: Status, pnum: nat)
    requires a.Valid() && 0 < bytes && offset + bytes <= |a.bytes|
    ensures ok <==> offset !in a.statusFaults
    ensures ok ==> 0 < pnum <= bytes && forall p :: offset <= p < offset + pnum ==> a.stat[p] == status
  {
    status := a.stat[offset];
    pnum :| 0 < pnum <= bytes && forall p :: offset <= p < offset + pnum ==> a.stat[p] == status;
    ok := offset !in a.statusFaults;
  }

  /** check_empty_sectors: 0 if the range reads as zeros, 1 if not, 4 if it cannot be read. */
  method CheckEmptySectors(a: Image, offset: nat, bytes: nat) returns (ret: int)
    requires a.Valid() && offset + bytes <= |a.bytes|
    ensures ret == (if offset in a.readFaults then 4 else if AllZero(a.bytes[offset..offset + bytes]) then 0 else 1)
  {
    if offset in a.readFaults {
      return 4;
    }
    var idx := FindNonzero(a.bytes[offset..offset + bytes]);
    ret := if idx >= 0 then 1 else 0;
  }

  /** The body of the first loop once both statuses are known. */
  method CompareChunk(a: Image, b: Image, offset: nat, s1: Status, s2: Status, len: nat) returns (ret: int, chunk: nat)
    requires a.Valid() && b.Valid() && 0 < len && offset + len <= |a.bytes| && offset + len <= |b.bytes|
    requires forall p :: offset <= p < offset + len ==> a.stat[p] == s1 && b.stat[p] == s2
    ensures ret in {0, 1, 4} && 0 < chunk <= len
    ensures ret != 4 ==> (ret == 0 <==> a.bytes[offset..offset + chunk] == b.bytes[offset..offset + chunk])
    ensures ret == 4 ==> offset in a.readFaults || offset in b.readFaults
  {
    chunk := len;
    ret := 0;
    if s1.zero && s2.zero {
      SkippedSame(a, b, offset, chunk);
    } else if s1.alloc == s2.alloc {
      if s1.alloc {
        chunk := Min(chunk, IO_BUF_SIZE);
        if offset in a.readFaults || offset in b.readFaults {
          return 4, chunk;
        }
        var buf1, buf2 := a.bytes[offset..offset + chunk], b.bytes[offset..offset + chunk];
        var differ, pnum := CompareBuffers(buf1, buf2, 0);
        if !differ {
          SameChunksSameBytes(buf1, buf2, BDRV_SECTOR_SIZE, pnum);
        } else {
          assert !ChunkSame(buf1, buf2, 0, BDRV_SECTOR_SIZE);
        }
        if differ || pnum != chunk {
          ret := 1;
        }
      } else {
        SkippedSame(a, b, offset, chunk);
      }
    } else {
      chunk := Min(chunk, IO_BUF_SIZE);
      if s1.alloc {
        ret := CheckEmptySectors(a, offset, chunk);
        EmptySame(b, a, offset, chunk);
      } else {
        ret := CheckEmptySectors(b, offset, chunk);
        EmptySame(a, b, offset, chunk);
      }
    }
  }

  lemma SkippedSame(a: Image, b: Image, offset: nat, chunk: nat)
    requires a.Valid() && b.Valid() && offset + chunk <= |a.bytes| && offset + chunk <= |b.bytes|
    requires forall p :: offset <= p < offset + chunk ==>
                           (a.stat[p].zero || !a.stat[p].alloc) && (b.stat[p].zero || !b.stat[p].alloc)
    ensures a.bytes[offset..offset + chunk] == b.bytes[offset..offset + chunk]
  {
  }

  lemma EmptySame(a: Image, b: Image, offset: nat, chunk: nat)
    requires a.Valid() && b.Valid() && offset + chunk <= |a.bytes| && offset + chunk <= |b.bytes|
    requires forall p :: offset <= p < offset + chunk ==> !a.stat[p].alloc
    ensures AllZero(b.bytes[offset..offset + chunk]) <==>
              a.bytes[offset..offset + chunk] == b.bytes[offset..offset + chunk]
  {
    var x, y := a.bytes[offset..offset + chunk], b.bytes[offset..offset + chunk];
    assert forall k :: 0 <= k < chunk ==> x[k] == 0;
  }

  /** The second loop: the longer image must be empty beyond the shorter one. */
  method CheckTail(a: Image, start: nat) returns (ret: int)
    requires a.Valid() && start <= |a.bytes|
    ensures ret in {0, 1, 3, 4}
    ensures ret in {0, 1} ==> (ret == 0 <==> AllZero(a.bytes[start..]))
    ensures a.Sound() ==> ret in {0, 1}
  {
    var offset := start;
    while offset < |a.bytes|
      invariant start <= offset <= |a.bytes| && AllZero(a.bytes[start..offset])
    {
      var ok, status, chunk := BlockStatus(a, offset, |a.bytes| - offset);
      if !ok {
        return 3;
      }
      if status.alloc && !status.zero {
        chunk := Min(chunk, IO_BUF_SIZE);
        ret := CheckEmptySectors(a, offset, chunk);
        if ret != 0 {
          TailNonzero(a.bytes, start, offset, chunk);
          return;
        }
      }
      TailZero(a.bytes, start, offset, chunk);
      offset := offset + chunk;
    }
    assert a.bytes[start..offset] == a.bytes[start..];
    ret := 0;
  }

  lemma TailNonzero(s: seq<byte>, start: nat, offset: nat, chunk: nat)
    requires start <= offset && offset + chunk <= |s|
    ensures !AllZero(s[offset..offset + chunk]) ==> !AllZero(s[start..])
  {
    if !AllZero(s[offset..offset + chunk]) {
      var k :| 0 <= k < chunk && s[offset..offset + chunk][k] != 0;
      assert s[start..][offset + k - start] != 0;
    }
  }

  lemma TailZero(s: seq<byte>, start: nat, offset: nat, chunk: nat)
    requires start <= offset && offset + chunk <= |s|
    requires AllZero(s[start..offset]) && forall p :: offset <= p < offset + chunk ==> s[p] == 0
    ensures AllZero(s[start..offset + chunk])
  {
    var t := s[start..offset + chunk];
    forall k | 0 <= k < |t| ensures t[k] == 0 {
      if start + k < offset { assert s[start..offset][k] == 0; }
    }
  }

  /** The images agree below `n`. */
  ghost predicate AgreeBelow(a: Image, b: Image, n: nat, strict: bool)
    requires a.Valid() && b.Valid() && n <= |a.bytes| && n <= |b.bytes|
  {
    forall p :: 0 <= p < n ==> a.bytes[p] == b.bytes[p] && (strict ==> a.stat[p] == b.stat[p])
  }

  /** The first loop: the part both images have. */
  method CompareCommon(a: Image, b: Image, strict: bool) returns (ret: int)
    requires a.Valid() && b.Valid()
    ensures ret in {0, 1, 3, 4}
    ensures ret in {0, 1} ==> (ret == 0 <==> AgreeBelow(a, b, Min(|a.bytes|, |b.bytes|), strict))
    ensures a.Sound() && b.Sound() ==> ret in {0, 1}
  {
    var total := Min(|a.bytes|, |b.bytes|);
    var offset := 0;
    while offset < total
      invariant 0 <= offset <= total && AgreeBelow(a, b, offset, strict)
    {
      var ok1, s1, pnum1 := BlockStatus(a, offset, |a.bytes| - offset);
      if !ok1 {
        return 3;
      }
      var ok2, s2, pnum2 := BlockStatus(b, offset, |b.bytes| - offset);
      if !ok2 {
        return 3;
      }
      if strict && s1 != s2 {
        assert a.stat[offset] != b.stat[offset];
        return 1;
      }
      var chunk;
      ret, chunk := CompareChunk(a, b, offset, s1, s2, Min(pnum1, pnum2));
      if ret != 0 {
        if ret == 1 {
          var k :| 0 <= k < chunk && a.bytes[offset..offset + chunk][k] != b.bytes[offset..offset + chunk][k];
          assert a.bytes[offset + k] != b.bytes[offset + k];
        }
        return;
      }
      ChunkAgrees(a.bytes, b.bytes, offset, chunk);
      offset := offset + chunk;
    }
    ret := 0;
  }

  lemma ChunkAgrees(x: seq<byte>, y: seq<byte>, offset: nat, chunk: nat)
    requires offset + chunk <= |x| && offset + chunk <= |y| && x[offset..offset + chunk] == y[offset..offset + chunk]
    ensures forall p :: offset <= p < offset + chunk ==> x[p] == y[p]
  {
    forall p | offset <= p < offset + chunk ensures x[p] == y[p] {
      assert x[offset..offset + chunk][p - offset] == y[offset..offset + chunk][p - offset];
    }
  }

  /** img_compare: 0 exactly for identical and 1 exactly for different images; 3 or 4 only when
      something could not be read. */
  method ImgCompare(a: Image, b: Image, strict: bool) returns (ret: int)
    requires a.Valid() && b.Valid()
    ensures ret in {0, 1, 3, 4}
    ensures ret == 0 ==> Identical(a, b, strict)
    ensures ret == 1 ==> !Identical(a, b, strict)
    ensures a.Sound() && b.Sound() ==> ret in {0, 1}
  {
    if strict && |a.bytes| != |b.bytes| {
      return 1;
    }
    ret := CompareCommon(a, b, strict);
    Symmetric(a, b, strict);
    if |a.bytes| >= |b.bytes| { CommonAndTail(a, b, strict); } else { CommonAndTail(b, a, strict); }
    if ret != 0 {
      return;
    }
    if |a.bytes| > |b.bytes| {
      ret := CheckTail(a, |b.bytes|);
    } else if |b.bytes| > |a.bytes| {
      ret := CheckTail(b, |a.bytes|);
    }
  }

  /** Equality up to zero padding is equality of the common part and a zero tail. */
  lemma CommonAndTail(a: Image, b: Image, strict: bool)
    requires a.Valid() && b.Valid() && |a.bytes| >= |b.bytes| && (strict ==> |a.bytes| == |b.bytes|)
    ensures Identical(a, b, strict) <==> AgreeBelow(a, b, |b.bytes|, strict) && AllZero(a.bytes[|b.bytes|..])
  {
    var n := |b.bytes|;
    if Identical(a, b, strict) {
      var tail := a.bytes[n..];
      forall k | 0 <= k < |tail| ensures tail[k] == 0 {
        assert Pad(a.bytes, n + k) == Pad(b.bytes, n + k);
      }
      forall p | 0 <= p < n ensures a.bytes[p] == b.bytes[p] {
        assert Pad(a.bytes, p) == Pad(b.bytes, p);
      }
    }
    if AgreeBelow(a, b, n, strict) && AllZero(a.bytes[n..]) {
      forall p: nat | p < |a.bytes| || p < n ensures Pad(a.bytes, p) == Pad(b.bytes, p) {
        if p >= n { assert a.bytes[n..][p - n] == 0; }
      }
      assert strict ==> a.stat == b.stat;
    }
  }

  lemma Symmetric(a: Image, b: Image, strict: bool)
    requires a.Valid() && b.Valid()
    ensures Identical(a, b, strict) <==> Identical(b, a, strict)
    ensures forall n: nat :: n <= |a.bytes| && n <= |b.bytes| ==>
                               (AgreeBelow(a, b, n, strict) <==> AgreeBelow(b, a, n, strict))
  {
  }
}
