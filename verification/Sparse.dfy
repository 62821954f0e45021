/** Sparse detection of qemu-img convert: is_allocated_sectors and is_allocated_sectors_min. */
module Sparse {
  import opened Bytes

  type Sector = s: seq<byte> | |s| == BDRV_SECTOR_SIZE witness Zeros(BDRV_SECTOR_SIZE)

  const ZERO: Sector := Zeros(BDRV_SECTOR_SIZE)

  predicate ZeroSectors(buf: seq<Sector>) {
    forall i :: 0 <= i < |buf| ==> buf[i] == ZERO
  }

  /** The buffer starts with zero sectors and no aligned boundary lies behind its first sector and
      in front of, or at, the first non-zero one. */
  predicate UnalignedHead(buf: seq<Sector>, sectorNum: nat, alignment: nat)
    requires alignment > 0
  {
    exists z :: 0 < z < |buf| && buf[z] != ZERO && ZeroSectors(buf[..z]) && z <= (sectorNum + z) % alignment
  }

  const ONE: Sector := Zeros(BDRV_SECTOR_SIZE)[0 := 1]

  /** The comment on is_allocated_sectors, that it is true if and only if the first sector is not
      zero, fails here: one zero sector in front of data, with blocks of eight sectors. */
  lemma ZeroHeadIsData()
    ensures [ZERO, ONE][0] == ZERO && UnalignedHead([ZERO, ONE], 0, 8)
  {
    var buf := [ZERO, ONE];
    assert buf[1][0] != ZERO[0];
    assert 0 < 1 < |buf| && buf[1] != ZERO && ZeroSectors(buf[..1]);
  }

  /** For a given position it is right about every buffer if and only if the first sector is the
      last one of its block. */
  lemma CommentHoldsExactlyWhen(sectorNum: nat, alignment: nat)
    requires alignment > 0
    ensures (forall buf :: buf != [] && buf[0] == ZERO ==> !UnalignedHead(buf, sectorNum, alignment))
       <==> (sectorNum + 1) % alignment == 0
  {
    if (sectorNum + 1) % alignment == 0 {
      forall buf ensures !UnalignedHead(buf, sectorNum, alignment) {
        forall z | 0 < z < |buf| && buf[z] != ZERO ensures !(z <= (sectorNum + z) % alignment) {
          NextBlock(sectorNum, z, alignment);
        }
      }
    } else {
      var buf := [ZERO, ONE];
      assert buf[1][0] != ZERO[0];
      assert 0 < 1 < |buf| && buf[1] != ZERO && ZeroSectors(buf[..1]);
      assert UnalignedHead(buf, sectorNum, alignment);
    }
  }

  lemma NextBlock(x: nat, z: nat, a: nat)
    requires a > 0 && z > 0 && (x + 1) % a == 0
    ensures (x + z) % a < z
  {
    AlignedSum(x + 1, z - 1, a);
    assert x + 1 + (z - 1) == x + z;
    ModBelow(z - 1, a);
  }

  lemma ModBelow(y: nat, a: nat)
    requires a > 0
    ensures y % a <= y
  {
    if y < a { DivModUnique(y, a, 0, y); }
  }

  /** The number of leading sectors of `buf` that are zero, or all non-zero, like the first one. */
  method SameAsFirst(buf: seq<Sector>) returns (i: nat)
    requires |buf| > 0
    ensures 0 < i <= |buf|
    ensures forall k :: 0 <= k < i ==> (buf[k] == ZERO <==> buf[0] == ZERO)
    ensures i < |buf| ==> (buf[i] == ZERO <==> buf[0] != ZERO)
  {
    var isZero := buf[0] == ZERO;
    i := 1;
    while i < |buf|
      invariant 0 < i <= |buf| && forall k :: 0 <= k < i ==> (buf[k] == ZERO <==> isZero)
    {
      if isZero != (buf[i] == ZERO) {
        return;
      }
      i := i + 1;
    }
  }

  /** is_allocated_sectors.  A "no" answer covers zero sectors only, and as many as fit before the
      last aligned boundary in front of the first non-zero one; any answer ends at an aligned
      sector or at the end of the buffer; and "yes" is given exactly for a non-zero first sector
      and for a zero head that reaches no aligned boundary. */
  method IsAllocatedSectors(buf: seq<Sector>, sectorNum: nat, alignment: nat) returns (data: bool, pnum: nat)
    requires alignment > 0
    ensures buf == [] ==> !data && pnum == 0
    ensures buf != [] ==> 0 < pnum <= |buf|
    ensures !data ==> ZeroSectors(buf[..pnum])
    ensures buf != [] ==> pnum == |buf| || (sectorNum + pnum) % alignment == 0
    ensures !data && pnum < |buf| ==>
              exists z :: pnum <= z < |buf| && z < pnum + alignment && buf[z] != ZERO && ZeroSectors(buf[..z])
    ensures data <==> buf != [] && (buf[0] != ZERO || UnalignedHead(buf, sectorNum, alignment))
  {
    if |buf| == 0 {
      return false, 0;
    }
    var isZero := buf[0] == ZERO;
    var i := SameAsFirst(buf);
    if i == |buf| {
      return !isZero, i;
    }
    assert isZero ==> buf[i] != ZERO && ZeroSectors(buf[..i]);
    var tail := (sectorNum + i) % alignment;
    if tail != 0 {
      if isZero && i <= tail {
        isZero := false;
      }
      if !isZero {
        RoundUp(sectorNum + i, alignment);
        i := i + (alignment - tail);
        i := Min(i, |buf|);
      } else {
        RoundDown(sectorNum + i, alignment);
        i := i - tail;
      }
    }
    return !isZero, i;
  }

  lemma RoundUp(x: nat, a: nat)
    requires a > 0
    ensures (x + (a - x % a)) % a == 0
  {
    DivModUnique(x + (a - x % a), a, x / a + 1, 0);
  }

  lemma RoundDown(x: nat, a: nat)
    requires a > 0
    ensures (x - x % a) % a == 0
  {
    DivModUnique(x - x % a, a, x / a, 0);
  }

  /** is_allocated_sectors for the part of `buf` from `at` on. */
  method NextRun(buf: seq<Sector>, at: nat, sectorNum: nat, alignment: nat) returns (data: bool, pnum: nat)
    requires alignment > 0 && at < |buf|
    ensures 0 < pnum <= |buf| - at
    ensures !data ==> forall k :: at <= k < at + pnum ==> buf[k] == ZERO
    ensures at + pnum == |buf| || (sectorNum + at + pnum) % alignment == 0
  {
    var rest := buf[at..];
    data, pnum := IsAllocatedSectors(rest, sectorNum + at, alignment);
    if !data { ZeroRun(buf, at, rest, pnum); }
  }

  lemma ZeroRun(buf: seq<Sector>, at: nat, rest: seq<Sector>, n: nat)
    requires at <= |buf| && rest == buf[at..] && n <= |rest| && ZeroSectors(rest[..n])
    ensures forall k :: at <= k < at + n ==> buf[k] == ZERO
  {
    forall k | at <= k < at + n ensures buf[k] == ZERO {
      assert rest[..n][k - at] == ZERO;
    }
  }

  lemma ZeroSlice(buf: seq<Sector>, lo: nat, hi: nat)
    requires lo <= hi <= |buf| && forall k :: lo <= k < hi ==> buf[k] == ZERO
    ensures ZeroSectors(buf[lo..hi])
  {
  }

  /** is_allocated_sectors_min.  It answers "yes" exactly when is_allocated_sectors does.  A "no"
      answer covers zero sectors only.  A "yes" answer ends aligned or at the end of the buffer, and
      only in front of `min` zero sectors or where nothing but zeros is left. */
  method IsAllocatedSectorsMin(buf: seq<Sector>, min: nat, sectorNum: nat, alignment: nat)
    returns (data: bool, pnum: nat)
    requires alignment > 0
    ensures buf == [] ==> !data && pnum == 0
    ensures buf != [] ==> 0 < pnum <= |buf|
    ensures !data ==> ZeroSectors(buf[..pnum])
    ensures buf != [] ==> pnum == |buf| || (sectorNum + pnum) % alignment == 0
    ensures data <==> buf != [] && (buf[0] != ZERO || UnalignedHead(buf, sectorNum, alignment))
    ensures data ==> ZeroSectors(buf[pnum..Min(|buf|, pnum + min)])
  {
    var min' := if |buf| < min then |buf| else min;
    data, pnum := IsAllocatedSectors(buf, sectorNum, alignment);
    if !data {
      return;
    }
    pnum := LastUsed(buf, pnum, min', sectorNum, alignment);
    ZeroSlice(buf, pnum, Min(|buf|, pnum + min));
  }

  /** The loop of is_allocated_sectors_min: short runs of zeros between data are taken for data. */
  method LastUsed(buf: seq<Sector>, start: nat, min: nat, sectorNum: nat, alignment: nat) returns (used: nat)
    requires alignment > 0 && min <= |buf| && 0 < start <= |buf|
    requires start == |buf| || (sectorNum + start) % alignment == 0
    ensures start <= used <= |buf| && (used == |buf| || (sectorNum + used) % alignment == 0)
    ensures forall k :: used <= k < |buf| && k < used + min ==> buf[k] == ZERO
  {
    used := start;
    var checked := start;
    while checked < |buf|
      invariant start <= used <= checked <= |buf|
      invariant used == |buf| || (sectorNum + used) % alignment == 0
      invariant forall k :: used <= k < checked ==> buf[k] == ZERO
      decreases |buf| - checked
    {
      var more, n := NextRun(buf, checked, sectorNum, alignment);
      checked := checked + n;
      if more {
        used := checked;
      } else if n >= min {
        break;
      }
    }
  }
}
