/** Bytes, zero padding and alignment, as the image tools of qemu-img.c use them. */
module Bytes {
  type byte = x: int | 0 <= x < 256

  const BDRV_SECTOR_SIZE: nat := 512
  const IO_BUF_SIZE: nat := 2 * 1024 * 1024

  function Min(a: int, b: int): int { if a <= b then a else b }
  function Max(a: int, b: int): int { if a <= b then b else a }

  /** What reading byte `p` of an image yields when images are extended with zeros. */
  function Pad(image: seq<byte>, p: nat): byte {
    if p < |image| then image[p] else 0
  }

  predicate AllZero(buf: seq<byte>) {
    forall i :: 0 <= i < |buf| ==> buf[i] == 0
  }

  function Zeros(n: nat): (s: seq<byte>)
    ensures |s| == n && AllZero(s)
  {
    seq(n, _ => 0)
  }

  /** QEMU_ALIGN_DOWN and QEMU_ALIGN_UP */
  function AlignDown(x: nat, a: nat): (r: nat)
    requires a > 0
    ensures r <= x < r + a
  {
    x - x % a
  }

  function AlignUp(x: nat, a: nat): (r: nat)
    requires a > 0
    ensures x <= r < x + a
  {
    if x % a == 0 then x else x - x % a + a
  }

  predicate PowerOfTwo(a: nat) {
    a == 1 || (a > 0 && a % 2 == 0 && PowerOfTwo(a / 2))
  }

  lemma {:induction false} AddMultiple(x: nat, a: nat, k: nat)
    requires a > 0
    ensures (x + k * a) % a == x % a && (x + k * a) / a == x / a + k
  {
    if k > 0 {
      AddMultiple(x, a, k - 1);
      assert x + k * a == (x + (k - 1) * a) + a;
      OneMore(x + (k - 1) * a, a);
    }
  }

  lemma OneMore(x: nat, a: nat)
    requires a > 0
    ensures (x + a) % a == x % a && (x + a) / a == x / a + 1
  {
    var q, r := x / a, x % a;
    assert x + a == (q + 1) * a + r;
    DivModUnique(x + a, a, q + 1, r);
  }

  lemma DivModUnique(x: int, a: nat, q: int, r: int)
    requires a > 0 && x == q * a + r && 0 <= r < a
    ensures x / a == q && x % a == r
  {
    var d := x / a - q;
    assert d * a == r - x % a;
    assert d >= 1 ==> d * a >= a;
    assert d <= -1 ==> d * a + a <= 0;
  }

  lemma AlignedSum(x: nat, y: nat, a: nat)
    requires a > 0 && x % a == 0
    ensures (x + y) % a == y % a && (x + y) / a == x / a + y / a
  {
    assert x == (x / a) * a;
    AddMultiple(y, a, x / a);
  }

  lemma AlignedBounds(x: nat, a: nat)
    requires a > 0
    ensures AlignDown(x, a) % a == 0 && AlignUp(x, a) % a == 0
  {
    DivModUnique(x - x % a, a, x / a, 0);
    if x % a != 0 { DivModUnique(x - x % a + a, a, x / a + 1, 0); }
  }

  /** A power of two that is no larger divides a larger one. */
  lemma {:induction false} PowersDivide(a: nat, b: nat)
    requires PowerOfTwo(a) && PowerOfTwo(b) && a <= b
    ensures a > 0 && b % a == 0
  {
    if a > 1 {
      PowersDivide(a / 2, b / 2);
      var q := (b / 2) / (a / 2);
      assert b / 2 == q * (a / 2);
      DivModUnique(b, a, q, 0);
    } else {
      DivModUnique(b, 1, b, 0);
    }
  }

  lemma Doubled(a: nat, b: nat)
    requires PowerOfTwo(a) && b == 2 * a
    ensures PowerOfTwo(b)
  {
  }

  lemma IoBufIsPower()
    ensures PowerOfTwo(IO_BUF_SIZE)
  {
    var a := 1;
    while a < IO_BUF_SIZE
      invariant PowerOfTwo(a) && a in {1, 8, 64, 512, 4096, 32768, 262144, IO_BUF_SIZE}
      decreases IO_BUF_SIZE - a
    {
      Doubled(a, 2 * a);
      Doubled(2 * a, 4 * a);
      Doubled(4 * a, 8 * a);
      a := 8 * a;
    }
  }
}
