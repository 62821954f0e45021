/** Safe rebase: the copy loop of img_rebase in qemu-img.c. */
module Rebase {
  import opened Bytes
  import opened Buffers

  predicate SameBlock(p: nat, q: nat, align: nat)
    requires align > 0
  {
    p / align == q / align
  }

  /** The overlay allocates whole blocks of `align` bytes. */
  ghost predicate Granular(alloc: seq<bool>, align: nat)
    requires align > 0
  {
    forall p, q :: 0 <= p < |alloc| && 0 <= q < |alloc| && SameBlock(p, q, align) ==> alloc[p] == alloc[q]
  }

  /** Nothing in [lo, hi) is allocated. */
  predicate Unallocated(alloc: seq<bool>, lo: nat, hi: nat) {
    hi <= |alloc| && forall p :: lo <= p < hi ==> !alloc[p]
  }

  /** The image being rebased: which bytes it holds itself, and their values. */
  class Overlay {
    var alloc: seq<bool>
    var data: seq<byte>

    predicate Valid()
      reads this
    {
      |alloc| == |data|
    }

    function Size(): nat
      reads this
    {
      |data|
    }

    /** What a guest reads at `p` when the image sits on `backing`. */
    function Visible(backing: seq<byte>, p: nat): byte
      reads this
      requires Valid() && p < Size()
    {
      if alloc[p] then data[p] else Pad(backing, p)
    }

    /** bdrv_is_allocated: any driver answer for a prefix of the range; may fail. */
    method IsAllocated(offset: nat, bytes: nat) returns (ret: int, pnum: nat)
      requires Valid() && 0 < bytes && offset + bytes <= Size()
      ensures ret >= 0 ==> 0 < pnum <= bytes && forall p :: offset <= p < offset + pnum ==> (alloc[p] <==> ret > 0)
    {
      if * {
        return -5, 0;
      }
      pnum :| 0 < pnum <= bytes && forall p :: offset <= p < offset + pnum ==> alloc[p] == alloc[offset];
      ret := if alloc[offset] then 1 else 0;
    }

    /** blk_pwrite: the range becomes allocated and holds `buf`; may fail without effect. */
    method PWrite(offset: nat, buf: seq<byte>) returns (ret: int)
      requires Valid() && offset + |buf| <= Size()
      modifies this
      ensures Valid() && Size() == old(Size())
      ensures ret < 0 ==> alloc == old(alloc) && data == old(data)
      ensures ret >= 0 ==> forall p :: 0 <= p < Size() ==>
                if offset <= p < offset + |buf| then alloc[p] && data[p] == buf[p - offset]
                else alloc[p] == old(alloc[p]) && data[p] == old(data[p])
    {
      if * {
        return -5;
      }
      alloc := alloc[..offset] + seq(|buf|, _ => true) + alloc[offset + |buf|..];
      data := data[..offset] + buf + data[offset + |buf|..];
      ret := 0;
    }
  }

  lemma BlockInside(lo: nat, hi: nat, align: nat, size: nat, p: nat, q: nat)
    requires align > 0 && lo % align == 0 && lo <= p < hi && q < size
    requires hi % align == 0 || hi == size
    requires SameBlock(p, q, align)
    ensures lo <= q < hi
  {
    if q < lo {
      assert q / align < lo / align by { DivisionOrder(q, lo, align); }
      assert lo / align <= p / align by { DivisionMonotone(lo, p, align); }
    } else if q >= hi {
      assert p / align < hi / align by { DivisionOrder(p, hi, align); }
      assert hi / align <= q / align by { DivisionMonotone(hi, q, align); }
    }
  }

  lemma DivisionMonotone(x: nat, y: nat, a: nat)
    requires a > 0 && x <= y
    ensures x / a <= y / a
  {
    var d := x / a - y / a;
    assert d * a == (x / a) * a - (y / a) * a;
    assert d >= 1 ==> d * a >= a;
  }

  lemma DivisionOrder(x: nat, y: nat, a: nat)
    requires a > 0 && x < y && y % a == 0
    ensures x / a < y / a
  {
    var d := x / a - y / a;
    assert d * a == (x / a) * a - (y / a) * a;
    assert d >= 0 ==> d * a >= 0;
  }

  /** Some byte of the block around `p` differs between the two backing files. */
  ghost predicate BlockDiffers(before: seq<byte>, after: seq<byte>, p: nat, align: nat, size: nat)
    requires align > 0
  {
    exists q :: 0 <= q < size && SameBlock(p, q, align) && Pad(before, q) != Pad(after, q)
  }

  /** The overlay (alloc, data) after some copying, compared with (alloc0, data0) before it: what
      was allocated stays, what is new holds the old backing's bytes and was worth copying. */
  ghost predicate CopiedFrom(alloc0: seq<bool>, data0: seq<byte>, alloc: seq<bool>, data: seq<byte>,
                             before: seq<byte>, after: seq<byte>, align: nat)
    requires align > 0
  {
    && |alloc0| == |data0| == |alloc| == |data|
    && (forall p :: 0 <= p < |alloc| && alloc0[p] ==> alloc[p] && data[p] == data0[p])
    && (forall p :: 0 <= p < |alloc| && alloc[p] && !alloc0[p] ==>
          data[p] == Pad(before, p) && BlockDiffers(before, after, p, align, |alloc|))
  }

  /** Where the copy is not needed any more. */
  ghost predicate Settled(alloc: seq<bool>, before: seq<byte>, after: seq<byte>, lo: nat, hi: nat) {
    hi <= |alloc| && forall p :: lo <= p < hi ==> alloc[p] || Pad(before, p) == Pad(after, p)
  }

  lemma GranularAfterWrite(alloc: seq<bool>, alloc': seq<bool>, lo: nat, hi: nat, align: nat)
    requires align > 0 && lo <= hi <= |alloc| == |alloc'| && Granular(alloc, align)
    requires lo % align == 0 && (hi % align == 0 || hi == |alloc|)
    requires forall p :: 0 <= p < |alloc| ==> alloc'[p] == (lo <= p < hi || alloc[p])
    ensures Granular(alloc', align)
  {
    forall p, q | 0 <= p < |alloc| && 0 <= q < |alloc| && SameBlock(p, q, align) ensures alloc'[p] == alloc'[q] {
      if lo <= p < hi { BlockInside(lo, hi, align, |alloc|, p, q); }
      if lo <= q < hi { BlockInside(lo, hi, align, |alloc|, q, p); }
    }
  }

  /** blk_pread of `n` bytes at `lo`, with zeros past the end of the file. */
  function ReadPadded(image: seq<byte>, lo: nat, n: nat): (buf: seq<byte>)
    ensures |buf| == n
    ensures forall k :: 0 <= k < n ==> buf[k] == Pad(image, lo + k)
  {
    var have := Min(n, Max(0, |image| - lo));
    (if have == 0 then [] else image[lo..lo + have]) + Zeros(n - have)
  }

  lemma RunDiffers(before: seq<byte>, after: seq<byte>, lo: nat, bufA: seq<byte>, bufB: seq<byte>,
                   pnum: nat, align: nat, size: nat, p: nat)
    requires align > 0 && lo % align == 0 && |bufA| == |bufB| && pnum <= |bufA| && lo + |bufA| <= size
    requires forall k :: 0 <= k < |bufA| ==> bufA[k] == Pad(before, lo + k) && bufB[k] == Pad(after, lo + k)
    requires Uniform(bufA, bufB, align, pnum, true)
    requires lo <= p < lo + pnum
    ensures BlockDiffers(before, after, p, align, size)
  {
    var c := AlignDown(p - lo, align);
    AlignedBounds(p - lo, align);
    assert !ChunkSame(bufA, bufB, c, align);
    var e := Min(c + align, |bufA|);
    var k :| 0 <= k < e - c && bufA[c..e][k] != bufB[c..e][k];
    var q := lo + c + k;
    AlignedSum(lo, c, align);
    AlignedSum(lo + c, k, align);
    AlignedSum(lo + c, p - lo - c, align);
    DivModUnique(k, align, 0, k);
    DivModUnique(p - lo - c, align, 0, p - lo - c);
    assert SameBlock(p, q, align) && Pad(before, q) != Pad(after, q);
  }

  /** Write the bytes [lo, lo + |buf|) of the old backing into the overlay: the body of the inner
      loop for one run of differing chunks. */
  method CopyRun(o: Overlay, before: seq<byte>, ghost after: seq<byte>, lo: nat, buf: seq<byte>,
                 align: nat) returns (ret: int)
    requires o.Valid() && align > 0 && Granular(o.alloc, align)
    requires lo % align == 0 && lo + |buf| <= o.Size() && ((lo + |buf|) % align == 0 || lo + |buf| == o.Size())
    requires Unallocated(o.alloc, lo, lo + |buf|)
    requires forall k :: 0 <= k < |buf| ==> buf[k] == Pad(before, lo + k)
    requires forall p :: lo <= p < lo + |buf| ==> BlockDiffers(before, after, p, align, o.Size())
    modifies o
    ensures o.Valid() && o.Size() == old(o.Size()) && Granular(o.alloc, align)
    ensures CopiedFrom(old(o.alloc), old(o.data), o.alloc, o.data, before, after, align)
    ensures forall p :: 0 <= p < o.Size() && !(lo <= p < lo + |buf|) ==> o.alloc[p] == old(o.alloc[p])
    ensures ret >= 0 ==> forall p :: lo <= p < lo + |buf| ==> o.alloc[p]
  {
    ret := o.PWrite(lo, buf);
    if ret >= 0 {
      GranularAfterWrite(old(o.alloc), o.alloc, lo, lo + |buf|, align);
    }
  }

  lemma CopiedTrans(a0: seq<bool>, d0: seq<byte>, a1: seq<bool>, d1: seq<byte>, a2: seq<bool>, d2: seq<byte>,
                    before: seq<byte>, after: seq<byte>, align: nat)
    requires align > 0 && CopiedFrom(a0, d0, a1, d1, before, after, align)
    requires CopiedFrom(a1, d1, a2, d2, before, after, align)
    ensures CopiedFrom(a0, d0, a2, d2, before, after, align)
  {
  }

  /** One turn of the inner loop: the longest run of chunks from `written` on that all differ or are
      all the same between the backings; a differing run is copied. */
  method CopyTurn(o: Overlay, before: seq<byte>, after: seq<byte>, lo: nat, written: nat, bufOld: seq<byte>,
                  bufNew: seq<byte>, eof: bool, align: nat) returns (ret: int, pnum: nat)
    requires o.Valid() && align > 0 && Granular(o.alloc, align)
    requires written < |bufOld| == |bufNew| && (lo + written) % align == 0 && lo + |bufOld| <= o.Size()
    requires (lo + |bufOld|) % align == 0 || lo + |bufOld| == o.Size()
    requires forall k :: 0 <= k < |bufOld| ==> bufOld[k] == Pad(before, lo + k) && bufNew[k] == Pad(after, lo + k)
    requires Unallocated(o.alloc, lo + written, lo + |bufOld|)
    requires eof ==> lo + written >= |before|
    modifies o
    ensures o.Valid() && o.Size() == old(o.Size()) && Granular(o.alloc, align)
    ensures CopiedFrom(old(o.alloc), old(o.data), o.alloc, o.data, before, after, align)
    ensures 0 < pnum <= |bufOld| - written && (written + pnum < |bufOld| ==> (lo + written + pnum) % align == 0)
    ensures forall p :: 0 <= p < o.Size() && !(lo + written <= p < lo + written + pnum) ==>
              o.alloc[p] == old(o.alloc[p])
    ensures ret >= 0 ==> Settled(o.alloc, before, after, lo + written, lo + written + pnum)
  {
    var at, restOld, restNew, differ := lo + written, bufOld[written..], bufNew[written..], false;
    differ, pnum := CompareBuffers(restOld, restNew, align);
    AlignedSum(at, pnum, align);
    ret := 0;
    if differ {
      forall p | at <= p < at + pnum ensures BlockDiffers(before, after, p, align, o.Size()) {
        RunDiffers(before, after, at, restOld, restNew, pnum, align, o.Size(), p);
      }
      if eof {
        ret := CopyRun(o, before, after, at, Zeros(pnum), align);
      } else {
        ret := CopyRun(o, before, after, at, restOld[..pnum], align);
      }
    } else {
      SameRun(before, after, at, restOld, restNew, pnum, align);
    }
  }

  /** The inner loop of img_rebase: compare the two backings over [lo, lo + n) in chunks of
      `align` bytes and copy the chunks that differ. */
  method CopyDiffering(o: Overlay, before: seq<byte>, after: seq<byte>, lo: nat, n: nat, align: nat) returns (ret: int)
    requires o.Valid() && align > 0 && Granular(o.alloc, align)
    requires 0 < n <= IO_BUF_SIZE && lo % align == 0 && lo + n <= o.Size()
    requires ((lo + n) % align == 0 || lo + n == o.Size())
    requires Unallocated(o.alloc, lo, lo + n)
    modifies o
    ensures o.Valid() && o.Size() == old(o.Size()) && Granular(o.alloc, align)
    ensures CopiedFrom(old(o.alloc), old(o.data), o.alloc, o.data, before, after, align)
    ensures ret >= 0 ==> Settled(o.alloc, before, after, lo, lo + n)
  {
    if * {
      return -5;  // reading a backing file failed
    }
    var bufOld, bufNew := ReadPadded(before, lo, n), ReadPadded(after, lo, n);
    var eof := Min(n, Max(0, |before| - lo)) == 0;
    var written := 0;
    ret := 0;
    while written < n
      invariant written <= n && (written < n ==> (lo + written) % align == 0)
      invariant o.Valid() && o.Size() == old(o.Size()) && Granular(o.alloc, align)
      invariant CopiedFrom(old(o.alloc), old(o.data), o.alloc, o.data, before, after, align)
      invariant Unallocated(o.alloc, lo + written, lo + n)
      invariant Settled(o.alloc, before, after, lo, lo + written)
      invariant eof ==> lo + written >= |before|
      invariant ret >= 0
    {
      ghost var alloc1, data1 := o.alloc, o.data;
      var pnum;
      ret, pnum := CopyTurn(o, before, after, lo, written, bufOld, bufNew, eof, align);
      CopiedTrans(old(o.alloc), old(o.data), alloc1, data1, o.alloc, o.data, before, after, align);
      if ret < 0 {
        return;
      }
      written := written + pnum;
      assert written <= IO_BUF_SIZE;
      if lo + written >= |before| {
        eof := true;
      }
    }
  }

  lemma SameRun(before: seq<byte>, after: seq<byte>, lo: nat, bufA: seq<byte>, bufB: seq<byte>, pnum: nat, align: nat)
    requires align > 0 && |bufA| == |bufB| && pnum <= |bufA|
    requires forall k :: 0 <= k < |bufA| ==> bufA[k] == Pad(before, lo + k) && bufB[k] == Pad(after, lo + k)
    requires Uniform(bufA, bufB, align, pnum, false)
    ensures forall p :: lo <= p < lo + pnum ==> Pad(before, p) == Pad(after, p)
  {
    SameChunksSameBytes(bufA, bufB, align, pnum);
    forall p | lo <= p < lo + pnum ensures Pad(before, p) == Pad(after, p) {
      assert bufA[..pnum][p - lo] == bufB[..pnum][p - lo];
    }
  }

  // ---------------------------------------------------------------- aligning a request

  /** The start of a request at `offset` once it is extended to block boundaries. */
  function ExtendedStart(offset: nat, align: nat): nat
    requires align > 0
  {
    AlignDown(offset, align)
  }

  /** The length of the extended request, cut at the end of the image and at the buffer size. */
  function ExtendedLength(offset: nat, n: nat, align: nat, size: nat): int
    requires align > 0
  {
    var lo := ExtendedStart(offset, align);
    var len := n + (offset - lo);
    var len' := len + (AlignUp(lo + len, align) - (lo + len));
    Min(len', Min(size - lo, IO_BUF_SIZE))
  }

  /** Aligning the offset backwards never makes the loop stall or go back, whatever the request,
      exactly when a block fits into the buffer. */
  lemma ProgressExactlyWhen(align: nat)
    requires align > 0
    ensures (forall offset: nat, n: nat, size: nat :: 0 < n && offset + n <= size ==>
               ExtendedStart(offset, align) + ExtendedLength(offset, n, align, size) > offset)
       <==> align <= IO_BUF_SIZE
  {
    if align > IO_BUF_SIZE {
      var offset: nat, n: nat, size: nat := IO_BUF_SIZE, 1, align;
      DivModUnique(offset, align, 0, offset);
      assert 0 < n && offset + n <= size;
      assert !(ExtendedStart(offset, align) + ExtendedLength(offset, n, align, size) > offset);
    }
  }

  /** With larger blocks, a turn that starts at 0 and does not skip leads to the buffer size, and
      every such turn that starts there leads back to it. */
  lemma StallsAtBufferSize(align: nat, n: nat, size: nat)
    requires align > IO_BUF_SIZE && size > IO_BUF_SIZE && 0 < n
    ensures n <= size ==> ExtendedStart(0, align) + ExtendedLength(0, n, align, size) == IO_BUF_SIZE
    ensures IO_BUF_SIZE + n <= size ==>
              ExtendedStart(IO_BUF_SIZE, align) + ExtendedLength(IO_BUF_SIZE, n, align, size) == IO_BUF_SIZE
  {
    DivModUnique(IO_BUF_SIZE, align, 0, IO_BUF_SIZE);
    assert ExtendedStart(0, align) == 0 && ExtendedStart(IO_BUF_SIZE, align) == 0;
    LastBlock(n, align);
    LastBlock(IO_BUF_SIZE + n, align);
  }

  /** Equal buffers are one run of equal chunks. */
  lemma AgreeingRun(a: seq<byte>, b: seq<byte>, ch: nat, differ: bool, pnum: nat)
    requires a == b && ch > 0 && 0 < pnum <= |a| && Uniform(a, b, ch, pnum, differ)
    requires pnum < |a| ==> (ChunkSame(a, b, pnum, ch) <==> differ)
    ensures !differ && pnum == |a|
  {
    assert ChunkSame(a, b, 0, ch);
  }

  /** A turn without a common chain that stalls: while the first block is larger than the buffer and
      unallocated and the backings agree over the first buffer, the turns from 0 and from the
      buffer size write nothing, so the overlay stays as it is, and both lead to the buffer size. */
  method StalledTurn(o: Overlay, before: seq<byte>, after: seq<byte>, offset: nat, align: nat)
    returns (ret: int, next: nat)
    requires o.Valid() && o.Size() > IO_BUF_SIZE && align > IO_BUF_SIZE
    requires Unallocated(o.alloc, 0, Min(align, o.Size()))
    requires forall p :: 0 <= p < IO_BUF_SIZE ==> Pad(before, p) == Pad(after, p)
    requires offset == 0 || offset == IO_BUF_SIZE
    ensures ret >= 0 ==> next == IO_BUF_SIZE
  {
    next := offset;
    var n := Min(IO_BUF_SIZE, o.Size() - offset);
    ret, n := o.IsAllocated(offset, n);
    if ret < 0 {
      return;
    }
    assert !o.alloc[offset];
    StallsAtBufferSize(align, n, o.Size());
    var lo, len := ExtendedStart(offset, align), ExtendedLength(offset, n, align, o.Size());
    DivModUnique(IO_BUF_SIZE, align, 0, IO_BUF_SIZE);
    var bufOld, bufNew := ReadPadded(before, lo, len), ReadPadded(after, lo, len);
    var differ, pnum := CompareBuffers(bufOld, bufNew, align);
    AgreeingRun(bufOld, bufNew, align, differ, pnum);
    next := lo + pnum;
  }

  lemma ExtendedAligned(offset: nat, n: nat, align: nat, size: nat)
    requires 0 < align <= IO_BUF_SIZE && IO_BUF_SIZE % align == 0 && 0 < n && offset + n <= size
    ensures var lo, len := ExtendedStart(offset, align), ExtendedLength(offset, n, align, size);
            && 0 < len <= IO_BUF_SIZE && lo % align == 0 && lo + len <= size
            && ((lo + len) % align == 0 || lo + len == size)
            && lo + len > offset
  {
    var lo := ExtendedStart(offset, align);
    AlignedBounds(offset, align);
    AlignedBounds(offset + n, align);
    assert lo + (n + (offset - lo)) == offset + n;
    AlignedSum(lo, IO_BUF_SIZE, align);
  }

  lemma BufferHoldsBlocks(align: nat)
    requires PowerOfTwo(align) && align <= IO_BUF_SIZE
    ensures align > 0 && IO_BUF_SIZE % align == 0
  {
    IoBufIsPower();
    PowersDivide(align, IO_BUF_SIZE);
  }

  /** The assertion after the extension: with whole blocks allocated, the extension of an
      unallocated range is unallocated. */
  lemma ExtensionUnallocated(alloc: seq<bool>, offset: nat, n: nat, align: nat)
    requires 0 < align <= IO_BUF_SIZE && IO_BUF_SIZE % align == 0 && 0 < n && offset + n <= |alloc|
    requires Granular(alloc, align) && Unallocated(alloc, offset, offset + n)
    ensures var lo := ExtendedStart(offset, align);
            Unallocated(alloc, lo, lo + ExtendedLength(offset, n, align, |alloc|))
  {
    var lo, len := ExtendedStart(offset, align), ExtendedLength(offset, n, align, |alloc|);
    ExtendedAligned(offset, n, align, |alloc|);
    forall q | lo <= q < lo + len ensures !alloc[q] {
      if q < offset {
        InBlock(lo, q, align); InBlock(lo, offset, align);
        assert SameBlock(q, offset, align);
      } else if q >= offset + n {
        var last := offset + n - 1;
        var up := AlignUp(offset + n, align);
        assert q < up;
        var base := AlignDown(last, align);
        AlignedBounds(last, align);
        LastBlock(offset + n, align);
        InBlock(base, last, align); InBlock(base, q, align);
        assert SameBlock(q, last, align);
      }
    }
  }

  ghost predicate RequestExtends(alloc: seq<bool>, offset: nat, n: nat, align: nat)
    requires align > 0
  {
    var lo := ExtendedStart(offset, align);
    var len := ExtendedLength(offset, n, align, |alloc|);
    0 < n && Unallocated(alloc, offset, offset + n) ==> 0 <= len && Unallocated(alloc, lo, lo + len)
  }

  /** That assertion can never fail exactly when the write alignment is an allocation granularity
      of the overlay. */
  lemma AssertionExactlyWhen(alloc: seq<bool>, align: nat)
    requires 0 < align <= IO_BUF_SIZE && IO_BUF_SIZE % align == 0
    ensures (forall offset: nat, n: nat :: RequestExtends(alloc, offset, n, align)) <==> Granular(alloc, align)
  {
    if Granular(alloc, align) {
      forall offset: nat, n: nat ensures RequestExtends(alloc, offset, n, align) {
        if 0 < n && Unallocated(alloc, offset, offset + n) {
          ExtendedAligned(offset, n, align, |alloc|);
          ExtensionUnallocated(alloc, offset, n, align);
        }
      }
    } else {
      var p, q :| 0 <= p < |alloc| && 0 <= q < |alloc| && SameBlock(p, q, align) && alloc[p] && !alloc[q];
      ExtendedAligned(q, 1, align, |alloc|);
      var lo, len := ExtendedStart(q, align), ExtendedLength(q, 1, align, |alloc|);
      BlockInside(lo, lo + len, align, |alloc|, q, p);
      assert Unallocated(alloc, q, q + 1) && !Unallocated(alloc, lo, lo + len);
      assert !RequestExtends(alloc, q, 1, align);
    }
  }

  lemma InBlock(lo: nat, q: nat, align: nat)
    requires align > 0 && lo % align == 0 && lo <= q < lo + align
    ensures q / align == lo / align
  {
    AlignedSum(lo, q - lo, align);
    DivModUnique(q - lo, align, 0, q - lo);
  }

  lemma LastBlock(x: nat, align: nat)
    requires align > 0 && x > 0
    ensures AlignUp(x, align) == AlignDown(x - 1, align) + align
  {
    var q, r := x / align, x % align;
    if r == 0 {
      assert (q - 1) * align == q * align - align;
      DivModUnique(x - 1, align, q - 1, align - 1);
    } else {
      DivModUnique(x - 1, align, q, r - 1);
    }
  }

  // ---------------------------------------------------------------- the outer loop

  /** bdrv_is_allocated_above between the old backing and a new backing further down its chain:
      "not allocated" for a prefix of the range means that both backings read the same there; an
      empty prefix is reported past the end of the old backing.  May fail. */
  method AllocatedAbove(before: seq<byte>, after: seq<byte>, offset: nat, bytes: nat) returns (ret: int, pnum: nat)
    ensures ret >= 0 ==> pnum <= bytes
    ensures ret == 0 ==> forall p :: offset <= p < offset + pnum ==> Pad(before, p) == Pad(after, p)
  {
    if * {
      return -5, 0;
    }
    pnum :| pnum <= bytes;
    if * {
      ret := 1;
    } else {
      ret := if forall p :: offset <= p < offset + pnum ==> Pad(before, p) == Pad(after, p) then 0 else 1;
    }
  }

  /** The next range from `offset` on, and whether there is nothing to do for it: it is allocated in
      the overlay, or has not changed since the new backing. */
  method NextRange(o: Overlay, before: seq<byte>, after: seq<byte>, prefix: bool, offset: nat)
    returns (ret: int, n: nat, skip: bool)
    requires o.Valid() && offset < o.Size()
    ensures ret >= 0 ==> 0 < n && offset + n <= o.Size()
    ensures ret >= 0 ==> if skip then Settled(o.alloc, before, after, offset, offset + n)
                         else Unallocated(o.alloc, offset, offset + n)
  {
    skip := true;
    n := Min(IO_BUF_SIZE, o.Size() - offset);
    ret, n := o.IsAllocated(offset, n);
    if ret != 0 {
      return;
    }
    if prefix {
      var bytes := n;
      ret, n := AllocatedAbove(before, after, offset, n);
      if ret < 0 || (ret == 0 && n > 0) {
        return;
      }
      if n == 0 {
        n := bytes;
      }
    }
    skip := false;
  }

  /** The copy loop of a safe rebase from `before` to `after`.  `prefix` says that the new backing
      is part of the old backing's chain. */
  method SafeRebase(o: Overlay, before: seq<byte>, after: seq<byte>, prefix: bool, align: nat) returns (ret: int)
    requires o.Valid() && PowerOfTwo(align) && 0 < align <= IO_BUF_SIZE && Granular(o.alloc, align)
    modifies o
    ensures o.Valid() && o.Size() == old(o.Size()) && Granular(o.alloc, align)
    ensures CopiedFrom(old(o.alloc), old(o.data), o.alloc, o.data, before, after, align)
    ensures ret >= 0 ==> Settled(o.alloc, before, after, 0, o.Size())
    // the image's content is unchanged, even after a failure half way
    ensures forall p :: 0 <= p < o.Size() ==> o.Visible(before, p) == old(o.Visible(before, p))
    // and the backing file can now be switched
    ensures ret >= 0 ==> forall p :: 0 <= p < o.Size() ==> o.Visible(after, p) == old(o.Visible(before, p))
  {
    var size := o.Size();
    var offset := 0;
    ret := 0;
    BufferHoldsBlocks(align);
    while offset < size
      invariant 0 <= offset <= size == o.Size() && o.Valid() && o.Size() == old(o.Size()) && Granular(o.alloc, align)
      invariant CopiedFrom(old(o.alloc), old(o.data), o.alloc, o.data, before, after, align)
      invariant Settled(o.alloc, before, after, 0, offset)
      invariant ret >= 0
      decreases size - offset
    {
      var n, skip;
      ret, n, skip := NextRange(o, before, after, prefix, offset);
      if ret < 0 {
        return;
      }
      if skip {
        offset := offset + n;
        continue;
      }
      ExtendedAligned(offset, n, align, size);
      ExtensionUnallocated(o.alloc, offset, n, align);
      var lo, len := ExtendedStart(offset, align), ExtendedLength(offset, n, align, size);
      assert Unallocated(o.alloc, lo, lo + len);
      ghost var alloc1, data1 := o.alloc, o.data;
      ret := CopyDiffering(o, before, after, lo, len, align);
      CopiedTrans(old(o.alloc), old(o.data), alloc1, data1, o.alloc, o.data, before, after, align);
      if ret < 0 {
        return;
      }
      offset := lo + len;
    }
  }
}
