/** The copy operations of qemu-img convert without a target backing file: convert_select_part,
    convert_iteration_sectors, convert_co_read and convert_co_write. */
module Convert {
  import opened Bytes
  import opened Sparse

  const BDRV_REQUEST_MAX_SECTORS: nat := 4194303

  datatype CopyStatus = BlkData | BlkZero

  /** The source images one after the other. */
  function Concat(src: seq<seq<Sector>>): seq<Sector> {
    if src == [] then [] else src[0] + Concat(src[1..])
  }

  /** Where source number `k` starts. */
  function Offset(src: seq<seq<Sector>>, k: nat): nat
    requires k <= |src|
  {
    if k == 0 then 0 else |src[0]| + Offset(src[1..], k - 1)
  }

  lemma {:induction false} OffsetStep(src: seq<seq<Sector>>, k: nat)
    requires k < |src|
    ensures Offset(src, k + 1) == Offset(src, k) + |src[k]| <= |Concat(src)|
  {
    if k > 0 { OffsetStep(src[1..], k - 1); }
  }

  lemma {:induction false} OffsetEnd(src: seq<seq<Sector>>)
    ensures Offset(src, |src|) == |Concat(src)|
  {
    if src != [] { OffsetEnd(src[1..]); }
  }

  lemma SliceLeft(a: seq<Sector>, b: seq<Sector>, lo: nat, hi: nat)
    requires lo <= hi <= |a|
    ensures (a + b)[lo..hi] == a[lo..hi]
  {
  }

  lemma SliceRight(a: seq<Sector>, b: seq<Sector>, lo: nat, hi: nat)
    requires lo <= hi <= |b|
    ensures (a + b)[|a| + lo..|a| + hi] == b[lo..hi]
  {
  }

  /** Part of one source, seen in the concatenation. */
  lemma {:induction false} PartOfConcat(src: seq<seq<Sector>>, k: nat, j: nat, n: nat)
    requires k < |src| && j + n <= |src[k]|
    ensures Offset(src, k) + j + n <= |Concat(src)|
    ensures Concat(src)[Offset(src, k) + j..Offset(src, k) + j + n] == src[k][j..j + n]
  {
    var rest := src[1..];
    if k == 0 {
      SliceLeft(src[0], Concat(rest), j, j + n);
    } else {
      PartOfConcat(rest, k - 1, j, n);
      var at := Offset(rest, k - 1) + j;
      SliceRight(src[0], Concat(rest), at, at + n);
    }
  }

  /** What has been read and the next part of `all`. */
  lemma ReadMore(all: seq<Sector>, from: nat, buf: seq<Sector>, part: seq<Sector>)
    requires from + |buf| + |part| <= |all| && buf == all[from..from + |buf|]
    requires part == all[from + |buf|..from + |buf| + |part|]
    ensures buf + part == all[from..from + |buf + part|]
  {
  }

  lemma ZeroPart(all: seq<Sector>, from: nat, part: seq<Sector>)
    requires from + |part| <= |all| && part == all[from..from + |part|] && ZeroSectors(part)
    ensures forall p :: from <= p < from + |part| ==> all[p] == ZERO
  {
    forall p | from <= p < from + |part| ensures all[p] == ZERO {
      assert part[p - from] == ZERO;
    }
  }

  lemma WholeClusters(n: nat, cluster: nat, left: nat)
    requires 0 < n <= left && cluster > 0
    ensures n < cluster ==> Min(cluster, left) == left || Min(cluster, left) % cluster == 0
    ensures n >= cluster ==> 0 < AlignDown(n, cluster) <= n && AlignDown(n, cluster) % cluster == 0
  {
    OneMore(0, cluster);
    AlignedBounds(n, cluster);
  }

  /** The part of ImgConvertState these operations use. */
  class ConvertState {
    const src: seq<seq<Sector>>
    const srcAlignment: seq<nat>
    const hasZeroInit: bool
    const compressed: bool
    const minSparse: nat
    const alignment: nat
    const clusterSectors: nat
    const bufSectors: nat
    var status: CopyStatus
    var sectorNextStatus: nat
    var target: seq<Sector>

    ghost predicate Valid()
      reads this
    {
      && |srcAlignment| == |src| && (forall k :: 0 <= k < |src| ==> srcAlignment[k] > 0)
      && alignment > 0 && bufSectors > 0
      && (compressed ==> 0 < clusterSectors == bufSectors)
      && |target| == Total()
      && sectorNextStatus <= Total()
    }

    function Total(): nat { |Concat(src)| }

    /** The remembered status is right for what it still covers from `pos` on. */
    ghost predicate CacheOk(pos: nat)
      reads this
      requires Valid()
    {
      status == BlkZero ==> forall p :: pos <= p < sectorNextStatus ==> Concat(src)[p] == ZERO
    }

    constructor (src: seq<seq<Sector>>, srcAlignment: seq<nat>, hasZeroInit: bool, compressed: bool, minSparse: nat,
                 alignment: nat, clusterSectors: nat, bufSectors: nat, target: seq<Sector>)
      requires |srcAlignment| == |src| && (forall k :: 0 <= k < |src| ==> srcAlignment[k] > 0)
      requires alignment > 0 && bufSectors > 0 && (compressed ==> 0 < clusterSectors == bufSectors)
      requires |target| == |Concat(src)|
      ensures Valid() && CacheOk(0) && this.src == src && this.target == target
      ensures this.hasZeroInit == hasZeroInit && this.compressed == compressed && this.minSparse == minSparse
    {
      this.src, this.srcAlignment := src, srcAlignment;
      this.hasZeroInit, this.compressed, this.minSparse := hasZeroInit, compressed, minSparse;
      this.alignment, this.clusterSectors, this.bufSectors := alignment, clusterSectors, bufSectors;
      this.target := target;
      this.status, this.sectorNextStatus := BlkData, 0;
    }

    /** convert_select_part: the source a sector lies in, skipping empty sources. */
    method SelectPart(sectorNum: nat) returns (cur: nat, offset: nat)
      requires sectorNum < Total()
      ensures cur < |src| && offset == Offset(src, cur) && offset <= sectorNum < offset + |src[cur]|
    {
      cur, offset := 0, 0;
      OffsetEnd(src);
      while sectorNum - offset >= |src[cur]|
        invariant cur < |src| && offset == Offset(src, cur) <= sectorNum
        decreases |src| - cur
      {
        OffsetStep(src, cur);
        offset := offset + |src[cur]|;
        cur := cur + 1;
        assert cur < |src|;
      }
    }

    /** bdrv_block_status_above for whole sectors of source `cur`: the status of any non-empty
        prefix within the source; what is reported as zero reads as zero.  May fail. */
    method BlockStatus(cur: nat, start: nat, count: nat) returns (ok: bool, zero: bool, n: nat)
      requires cur < |src| && start < |src[cur]| && count > 0
      ensures ok ==> 0 < n <= count && start + n <= |src[cur]|
      ensures ok && zero ==> ZeroSectors(src[cur][start..start + n])
    {
      ok := *;
      n :| 0 < n <= count && start + n <= |src[cur]|;
      zero := ZeroSectors(src[cur][start..start + n]);
      if * {
        zero := false;
      }
    }

    /** The query part of convert_iteration_sectors: refresh the remembered status. */
    method QueryStatus(sectorNum: nat, want: nat) returns (ok: bool, n: nat)
      requires Valid() && sectorNum < Total() && 0 < want
      modifies this`status, this`sectorNextStatus
      ensures Valid() && (ok ==> CacheOk(sectorNum))
      ensures ok ==> 0 < n <= want && sectorNum + n == sectorNextStatus
      ensures !ok ==> status == old(status) && sectorNextStatus == old(sectorNextStatus)
    {
      var cur, offset := SelectPart(sectorNum);
      var zero;
      ok, zero, n := BlockStatus(cur, sectorNum - offset, want);
      if !ok {
        return;
      }
      if zero {
        PartOfConcat(src, cur, sectorNum - offset, n);
        ZeroPart(Concat(src), sectorNum, src[cur][sectorNum - offset..sectorNum - offset + n]);
      }
      OffsetStep(src, cur);
      var tail := (sectorNum - offset + n) % srcAlignment[cur];
      if n > tail {
        n := n - tail;
      }
      status := if zero then BlkZero else BlkData;
      sectorNextStatus := sectorNum + n;
    }

    /** convert_iteration_sectors: how many sectors to copy next and how.  The step is positive and
        stays inside the image; BlkZero is only said of zero sectors; data fits the buffer; and a
        compressed copy proceeds by whole clusters. */
    method IterationSectors(sectorNum: nat) returns (ok: bool, n: nat)
      requires Valid() && sectorNum < Total() && CacheOk(sectorNum)
      modifies this`status, this`sectorNextStatus
      ensures Valid() && CacheOk(sectorNum)
      ensures ok ==> 0 < n <= Total() - sectorNum
      ensures ok && status == BlkZero ==> forall p :: sectorNum <= p < sectorNum + n ==> Concat(src)[p] == ZERO
      ensures ok && status == BlkData ==> n <= bufSectors
      ensures ok && compressed ==> n % clusterSectors == 0 || sectorNum + n == Total()
      ensures !ok ==> status == old(status) && sectorNextStatus == old(sectorNextStatus)
    {
      n := Min(Total() - sectorNum, BDRV_REQUEST_MAX_SECTORS);
      ok := true;
      if sectorNextStatus <= sectorNum {
        ok, n := QueryStatus(sectorNum, n);
        if !ok {
          return;
        }
      }
      n := Min(n, sectorNextStatus - sectorNum);
      if status == BlkData {
        n := Min(n, bufSectors);
      }
      if compressed {
        WholeClusters(n, clusterSectors, Total() - sectorNum);
        if n < clusterSectors {
          n := Min(clusterSectors, Total() - sectorNum);
          status := BlkData;
        } else {
          n := AlignDown(n, clusterSectors);
        }
      }
    }

    /** convert_co_read: the sectors of the concatenation, across source boundaries. */
    method CoRead(sectorNum: nat, nbSectors: nat) returns (ok: bool, buf: seq<Sector>)
      requires nbSectors <= bufSectors && sectorNum + nbSectors <= Total()
      ensures ok ==> buf == Concat(src)[sectorNum..sectorNum + nbSectors]
    {
      buf := [];
      ok := true;
      while |buf| < nbSectors
        invariant |buf| <= nbSectors && buf == Concat(src)[sectorNum..sectorNum + |buf|]
      {
        var part;
        ok, part := ReadPart(sectorNum + |buf|, nbSectors - |buf|);
        if !ok {
          return;
        }
        ReadMore(Concat(src), sectorNum, buf, part);
        buf := buf + part;
      }
    }

    /** One turn of convert_co_read: what one source holds of the range; may fail. */
    method ReadPart(at: nat, want: nat) returns (ok: bool, part: seq<Sector>)
      requires 0 < want && at + want <= Total()
      ensures ok ==> 0 < |part| <= want && part == Concat(src)[at..at + |part|]
    {
      var cur, offset := SelectPart(at);
      var n := Min(want, |src[cur]| - (at - offset));
      PartOfConcat(src, cur, at - offset, n);
      part := src[cur][at - offset..at - offset + n];
      ok := *;
    }

    /** blk_co_pwrite or blk_co_pwrite_zeroes of whole sectors; may fail without effect. */
    method Write(at: nat, data: seq<Sector>) returns (ok: bool)
      requires at + |data| <= |target|
      modifies this`target
      ensures ok ==> target == old(target)[..at] + data + old(target)[at + |data|..]
      ensures !ok ==> target == old(target)
    {
      ok := *;
      if ok {
        target := target[..at] + data + target[at + |data|..];
      }
    }

    /** What [at, at + n) is to hold: the buffer, or zeros. */
    static function Wanted(buf: seq<Sector>, status: CopyStatus, i: nat): Sector
      requires status == BlkData ==> i < |buf|
    {
      if status == BlkData then buf[i] else ZERO
    }

    /** One turn of convert_co_write: the next `n` sectors now read as wanted, nothing else
        changed. */
    method WriteTurn(sectorNum: nat, nbSectors: nat, buf: seq<Sector>, status: CopyStatus) returns (ok: bool, n: nat)
      requires alignment > 0 && 0 < nbSectors && sectorNum + nbSectors <= |target|
      requires status == BlkData ==> |buf| == nbSectors
      requires hasZeroInit ==> forall p :: sectorNum <= p < sectorNum + nbSectors ==> target[p] == ZERO
      modifies this`target
      ensures |target| == old(|target|) && 0 < n <= nbSectors
      ensures forall p :: 0 <= p < |target| && !(sectorNum <= p < sectorNum + n) ==> target[p] == old(target[p])
      ensures ok ==> forall p :: sectorNum <= p < sectorNum + n ==> target[p] == Wanted(buf, status, p - sectorNum)
    {
      n := nbSectors;
      if status == BlkData {
        var data := minSparse == 0;
        if !data && !compressed {
          data, n := IsAllocatedSectorsMin(buf, minSparse, sectorNum, alignment);
        } else if !data {
          data := !ZeroSectors(buf);
          assert !data ==> buf[..n] == buf;
        }
        if data {
          ok := Write(sectorNum, buf[..n]);
          return;
        }
        assert forall i :: 0 <= i < n ==> buf[..n][i] == buf[i] == ZERO;
      }
      ok := true;
      if !hasZeroInit {
        ok := Write(sectorNum, seq(n, _ => ZERO));
      }
    }

    /** convert_co_write: on success the whole range reads as wanted, whether data is written,
        zeros are written or zeros are skipped. */
    method CoWrite(sectorNum: nat, nbSectors: nat, buf: seq<Sector>, status: CopyStatus) returns (ok: bool)
      requires alignment > 0 && sectorNum + nbSectors <= |target|
      requires status == BlkData ==> |buf| == nbSectors
      requires hasZeroInit ==> forall p :: sectorNum <= p < sectorNum + nbSectors ==> target[p] == ZERO
      modifies this`target
      ensures |target| == old(|target|)
      ensures forall p :: 0 <= p < |target| && !(sectorNum <= p < sectorNum + nbSectors) ==> target[p] == old(target[p])
      ensures ok ==>
                forall p :: sectorNum <= p < sectorNum + nbSectors ==> target[p] == Wanted(buf, status, p - sectorNum)
    {
      var done := 0;
      ok := true;
      while done < nbSectors
        invariant done <= nbSectors && |target| == old(|target|) && ok
        invariant forall p :: 0 <= p < |target| && !(sectorNum <= p < sectorNum + done) ==> target[p] == old(target[p])
        invariant forall p :: sectorNum <= p < sectorNum + done ==> target[p] == Wanted(buf, status, p - sectorNum)
      {
        var n;
        ok, n := WriteTurn(sectorNum + done, nbSectors - done, if status == BlkData then buf[done..] else [], status);
        if !ok {
          return;
        }
        done := done + n;
      }
    }

    /** convert_do_copy with a single coroutine: a successful conversion reproduces the sources. */
    method Copy() returns (ok: bool)
      requires Valid() && CacheOk(0) && (hasZeroInit ==> ZeroSectors(target))
      modifies this`status, this`sectorNextStatus, this`target
      ensures |target| == Total()
      ensures ok ==> target == Concat(src)
    {
      var sectorNum := 0;
      ok := true;
      while sectorNum < Total()
        invariant sectorNum <= Total() && Valid() && CacheOk(sectorNum)
        invariant forall p :: 0 <= p < sectorNum ==> target[p] == Concat(src)[p]
        invariant hasZeroInit ==> forall p :: sectorNum <= p < Total() ==> target[p] == ZERO
        invariant ok
      {
        var n, buf := 0, [];
        ok, n := IterationSectors(sectorNum);
        if !ok {
          return;
        }
        var status := this.status;
        if minSparse == 0 && status == BlkZero {
          n := Min(n, bufSectors);
        }
        if status == BlkData {
          ok, buf := CoRead(sectorNum, n);
          if !ok {
            return;
          }
        } else if minSparse == 0 {
          status := BlkData;
          buf := seq(n, _ => ZERO);
        }
        PieceWanted(Concat(src), sectorNum, n, buf, status, this.status);
        ok := CoWrite(sectorNum, n, buf, status);
        if !ok {
          return;
        }
        sectorNum := sectorNum + n;
      }
      assert target == Concat(src);
    }

    /** Writing what the iteration announced writes the piece of the source. */
    static lemma PieceWanted(source: seq<Sector>, at: nat, n: nat, buf: seq<Sector>, status: CopyStatus,
                             found: CopyStatus)
      requires at + n <= |source|
      requires found == BlkZero ==> forall p :: at <= p < at + n ==> source[p] == ZERO
      requires status == BlkData ==> |buf| == n && (found == BlkData ==> buf == source[at..at + n])
      requires status == BlkData && found == BlkZero ==> ZeroSectors(buf)
      requires status == BlkZero ==> found == BlkZero
      ensures forall p :: at <= p < at + n ==> Wanted(buf, status, p - at) == source[p]
    {
    }
  }
}
