/** qemu-img map: entry_mergeable and the JSON loop of img_map in qemu-img.c. */
module ImgMap {
  import opened Basics

  /** The allocation flags of a byte or of an entry. */
  datatype Flags = Flags(data: bool, zero: bool, compressed: bool, depth: nat, present: bool)

  /** What is known of one guest byte: flags, the file it lies in and its offset there. */
  datatype ByteStatus = ByteStatus(flags: Flags, filename: Option<string>, host: Option<int>)

  /** MapEntry; `offset` stands for has_offset and offset. */
  datatype MapEntry = MapEntry(start: int, length: int, flags: Flags, filename: Option<string>, offset: Option<int>)

  function Shift(host: Option<int>, k: int): Option<int> {
    match host
    case None => None
    case Some(o) => Some(o + k)
  }

  /** What an entry says about its byte number `k`. */
  function ByteOf(e: MapEntry, k: int): ByteStatus {
    ByteStatus(e.flags, e.filename, Shift(e.offset, k))
  }

  /** entry_mergeable */
  predicate Mergeable(curr: MapEntry, next: MapEntry) {
    && curr.length != 0
    && curr.flags == next.flags
    && curr.filename == next.filename
    && curr.offset.Some? == next.offset.Some?
    && (curr.offset.Some? ==> curr.offset.value + curr.length == next.offset.value)
  }

  /** get_block_status: an entry for any non-empty prefix of the range that it describes
      truthfully; may fail. */
  method GetBlockStatus(img: seq<ByteStatus>, offset: nat, bytes: nat) returns (ok: bool, e: MapEntry)
    requires 0 < bytes && offset + bytes <= |img|
    ensures ok ==> e.start == offset && 0 < e.length <= bytes
    ensures ok ==> forall k :: 0 <= k < e.length ==> img[offset + k] == ByteOf(e, k)
  {
    var b := img[offset];
    e := MapEntry(offset, 1, b.flags, b.filename, b.host);
    var n :| 0 < n <= bytes && forall k :: 0 <= k < n ==> img[offset + k] == ByteOf(e, k);
    ghost var e1 := e;
    e := e.(length := n);
    assert forall k :: ByteOf(e, k) == ByteOf(e1, k);
    ok := *;
  }

  // ---------------------------------------------------------------- the encoding, byte by byte

  /** Byte status `b` carries on where `a` stops. */
  predicate Continues(a: ByteStatus, b: ByteStatus) {
    a.flags == b.flags && a.filename == b.filename && b.host == Shift(a.host, 1)
  }

  /** The end of the longest run that starts at `s`. */
  function RunEnd(img: seq<ByteStatus>, s: nat, n: nat): (e: nat)
    requires s < n <= |img|
    ensures s < e <= n
    decreases n - s
  {
    if s + 1 < n && Continues(img[s], img[s + 1]) then RunEnd(img, s + 1, n) else s + 1
  }

  function EntryOf(img: seq<ByteStatus>, s: nat, e: nat): MapEntry
    requires s < e <= |img|
  {
    MapEntry(s, e - s, img[s].flags, img[s].filename, img[s].host)
  }

  /** The longest runs of [s, n), one after the other. */
  function Runs(img: seq<ByteStatus>, s: nat, n: nat): seq<MapEntry>
    requires n <= |img|
    decreases n - s
  {
    if s >= n then [] else [EntryOf(img, s, RunEnd(img, s, n))] + Runs(img, RunEnd(img, s, n), n)
  }

  /** Every byte of [s, e) continues its predecessor. */
  ghost predicate Unbroken(img: seq<ByteStatus>, s: nat, e: nat) {
    s < e <= |img| && forall k :: s <= k < e - 1 ==> Continues(img[k], img[k + 1])
  }

  lemma {:induction false} RunEndUnbroken(img: seq<ByteStatus>, s: nat, e: nat, n: nat)
    requires n <= |img| && e <= n && Unbroken(img, s, e) && (e < n ==> !Continues(img[e - 1], img[e]))
    ensures RunEnd(img, s, n) == e
    decreases e - s
  {
    if s + 1 < e {
      assert Continues(img[s], img[s + 1]);
      RunEndUnbroken(img, s + 1, e, n);
    }
  }

  lemma FirstRun(img: seq<ByteStatus>, s: nat, e: nat, n: nat)
    requires n <= |img| && e <= n && Unbroken(img, s, e) && (e < n ==> !Continues(img[e - 1], img[e]))
    ensures Runs(img, s, n) == [EntryOf(img, s, e)] + Runs(img, e, n)
  {
    RunEndUnbroken(img, s, e, n);
  }

  lemma {:induction false} RunEndIsMaximal(img: seq<ByteStatus>, s: nat, n: nat)
    requires s < n <= |img|
    ensures Unbroken(img, s, RunEnd(img, s, n))
    ensures RunEnd(img, s, n) < n ==> !Continues(img[RunEnd(img, s, n) - 1], img[RunEnd(img, s, n)])
    decreases n - s
  {
    if s + 1 < n && Continues(img[s], img[s + 1]) {
      RunEndIsMaximal(img, s + 1, n);
    }
  }

  lemma {:induction false} UnbrokenBytes(img: seq<ByteStatus>, s: nat, e: nat, k: nat)
    requires Unbroken(img, s, e) && s + k < e
    ensures img[s + k] == ByteOf(EntryOf(img, s, e), k)
    decreases k
  {
    if k > 0 {
      UnbrokenBytes(img, s, e, k - 1);
      assert Continues(img[s + k - 1], img[s + k - 1 + 1]);
    }
  }

  lemma EntryUnbroken(img: seq<ByteStatus>, e: MapEntry, s: nat)
    requires 0 < e.length && s + e.length <= |img|
    requires forall k :: 0 <= k < e.length ==> img[s + k] == ByteOf(e, k)
    ensures Unbroken(img, s, s + e.length) && (e.start == s ==> e == EntryOf(img, s, s + e.length))
  {
    forall k | s <= k < s + e.length - 1 ensures Continues(img[k], img[k + 1]) {
      assert img[s + (k - s)] == ByteOf(e, k - s) && img[s + (k - s + 1)] == ByteOf(e, k - s + 1);
    }
    assert img[s + 0] == ByteOf(e, 0);
  }

  /** Merging entries is continuing runs. */
  lemma MergeIsContinue(img: seq<ByteStatus>, s: nat, m: nat, e: nat)
    requires Unbroken(img, s, m) && m < e <= |img|
    ensures Mergeable(EntryOf(img, s, m), EntryOf(img, m, e)) <==> Continues(img[m - 1], img[m])
  {
    UnbrokenBytes(img, s, m, m - 1 - s);
  }

  // ---------------------------------------------------------------- the loop

  /** The loop of img_map with JSON output over [start, length): the entries it prints. */
  method MapJson(img: seq<ByteStatus>, start: nat, length: nat) returns (ok: bool, out: seq<MapEntry>)
    requires length <= |img|
    ensures ok && start < length ==> out == Runs(img, start, length)
    ensures start >= length ==> ok && |out| == 1 && out[0].start == start && out[0].length == 0
    ensures !ok ==> out <= Runs(img, start, length)
  {
    var curr := MapEntry(start, 0, Flags(false, false, false, 0, false), None, None);
    out := [];
    while curr.start + curr.length < length
      invariant Midway(img, start, length, out, curr)
      decreases length - (curr.start + curr.length)
    {
      var offset := curr.start + curr.length;
      var got, next := GetBlockStatus(img, offset, length - offset);
      if !got {
        return false, out;
      }
      OneMoreEntry(img, start, length, out, curr, next);
      if Mergeable(curr, next) {
        curr := curr.(length := curr.length + next.length);
        continue;
      }
      if curr.length > 0 {
        out := out + [curr];
      }
      curr := next;
    }
    if curr.length > 0 {
      FirstRun(img, curr.start, length, length);
    }
    out := out + [curr];
    ok := true;
  }

  /** Where the loop stands: `out` is printed and `curr` is the beginning of the next run. */
  ghost predicate Midway(img: seq<ByteStatus>, start: nat, n: nat, out: seq<MapEntry>, curr: MapEntry)
    requires n <= |img|
  {
    if curr.length == 0 then curr.start == start && out == []
    else
      && start <= curr.start && 0 < curr.length && curr.start + curr.length <= n
      && Unbroken(img, curr.start, curr.start + curr.length)
      && curr == EntryOf(img, curr.start, curr.start + curr.length)
      && Runs(img, start, n) == out + Runs(img, curr.start, n)
  }

  /** The next answer extends the run or closes it. */
  lemma OneMoreEntry(img: seq<ByteStatus>, start: nat, n: nat, out: seq<MapEntry>, curr: MapEntry, next: MapEntry)
    requires n <= |img| && Midway(img, start, n, out, curr)
    requires next.start == curr.start + curr.length && 0 < next.length <= n - next.start
    requires forall k :: 0 <= k < next.length ==> img[next.start + k] == ByteOf(next, k)
    ensures if Mergeable(curr, next) then Midway(img, start, n, out, curr.(length := curr.length + next.length))
            else Midway(img, start, n, if curr.length > 0 then out + [curr] else out, next)
  {
    var offset := next.start;
    EntryUnbroken(img, next, offset);
    if curr.length > 0 {
      MergeIsContinue(img, curr.start, offset, offset + next.length);
      if Mergeable(curr, next) {
        JoinUnbroken(img, curr.start, offset, offset + next.length);
      } else {
        FirstRun(img, curr.start, offset, n);
        assert out + ([curr] + Runs(img, offset, n)) == out + [curr] + Runs(img, offset, n);
      }
    }
  }

  lemma JoinUnbroken(img: seq<ByteStatus>, s: nat, m: nat, e: nat)
    requires Unbroken(img, s, m) && Unbroken(img, m, e) && Continues(img[m - 1], img[m])
    ensures Unbroken(img, s, e)
  {
    forall k | s <= k < e - 1 ensures Continues(img[k], img[k + 1]) {
      if k == m - 1 { assert img[k + 1] == img[m]; }
    }
  }

  // ---------------------------------------------------------------- what the encoding is

  /** `out` cuts [s, n) into non-empty entries, each truthful for its bytes, and no two
      neighbours could be merged. */
  ghost predicate MaximalEncoding(out: seq<MapEntry>, img: seq<ByteStatus>, s: nat, n: nat)
    requires n <= |img|
  {
    if s >= n then out == []
    else
      && out != []
      && out[0].start == s && 0 < out[0].length <= n - s
      && (forall k :: 0 <= k < out[0].length ==> img[s + k] == ByteOf(out[0], k))
      && (|out| > 1 ==> !Mergeable(out[0], out[1]))
      && MaximalEncoding(out[1..], img, s + out[0].length, n)
  }

  lemma {:induction false} RunsAreMaximal(img: seq<ByteStatus>, s: nat, n: nat)
    requires n <= |img|
    ensures MaximalEncoding(Runs(img, s, n), img, s, n)
    decreases n - s
  {
    if s < n {
      var e := RunEnd(img, s, n);
      RunIsMaximal(img, s, n);
      RunsAreMaximal(img, e, n);
      assert Runs(img, s, n)[1..] == Runs(img, e, n);
    }
  }

  /** A run is truthful for its bytes and cannot be merged with the next one. */
  lemma RunIsMaximal(img: seq<ByteStatus>, s: nat, n: nat)
    requires s < n <= |img|
    ensures var e := RunEnd(img, s, n);
            && (forall k :: 0 <= k < e - s ==> img[s + k] == ByteOf(EntryOf(img, s, e), k))
            && (e < n ==> !Mergeable(EntryOf(img, s, e), EntryOf(img, e, RunEnd(img, e, n))))
  {
    var e := RunEnd(img, s, n);
    RunEndIsMaximal(img, s, n);
    forall k | 0 <= k < e - s ensures img[s + k] == ByteOf(EntryOf(img, s, e), k) {
      UnbrokenBytes(img, s, e, k);
    }
    if e < n {
      MergeIsContinue(img, s, e, RunEnd(img, e, n));
    }
  }

  /** There is only one such encoding, so the output does not depend on how the drivers cut
      their answers. */
  lemma {:induction false} MaximalIsUnique(out: seq<MapEntry>, img: seq<ByteStatus>, s: nat, n: nat)
    requires n <= |img| && MaximalEncoding(out, img, s, n)
    ensures out == Runs(img, s, n)
    decreases n - s
  {
    if s < n {
      FirstIsRun(out, img, s, n);
      MaximalIsUnique(out[1..], img, s + out[0].length, n);
      assert out == [out[0]] + out[1..];
    }
  }

  lemma FirstIsRun(out: seq<MapEntry>, img: seq<ByteStatus>, s: nat, n: nat)
    requires s < n <= |img| && MaximalEncoding(out, img, s, n)
    ensures RunEnd(img, s, n) == s + out[0].length && out[0] == EntryOf(img, s, RunEnd(img, s, n))
  {
    var e := s + out[0].length;
    EntryUnbroken(img, out[0], s);
    if e < n {
      var rest := out[1..];
      assert MaximalEncoding(rest, img, e, n) && rest[0] == out[1];
      EntryUnbroken(img, out[1], e);
      MergeIsContinue(img, s, e, e + out[1].length);
    }
    RunEndUnbroken(img, s, e, n);
  }
}
