/** The coroutines of qemu-img convert, convert_co_do_copy, as an interleaving transition system:
    a coroutine is at one of its switching points, and one piece of code between two of them is
    one step.  The pieces that are claimed, read and written are those of module Convert. */
module ConvertCoroutines {
  import opened Sparse

  /** ImgConvertState.ret: -EINPROGRESS, 0 or an error. */
  datatype Ret = InProgress | Success | Failed

  /** What never changes: the concatenated sources, keeping writes in order, a target that
      starts out zeroed. */
  datatype Config = Config(source: seq<Sector>, inOrder: bool, zeroInit: bool)

  /** Where a coroutine is, and the piece [at, at + n) it has claimed.  `Ordering` is just before
      the loop that keeps writes in order, `Waiting` inside it; `Finishing` is just before
      wr_offs is advanced. */
  datatype Co =
    | NotStarted | Ready | Claiming | ClaimFailed
    | Reading(at: nat, n: nat)
    | Ordering(at: nat, n: nat)
    | Waiting(at: nat, n: nat)
    | Writing(at: nat, n: nat, done: nat)
    | Finishing(at: nat, n: nat)
    | Done

  /** `lock` is the coroutine holding the mutex or -1; `owner` records for every sector the
      coroutine that has claimed and not yet finished it, or -1. */
  datatype State = State(ret: Ret, sectorNum: nat, wrOffs: nat, lock: int, cos: seq<Co>, target: seq<Sector>,
                         owner: seq<int>)

  predicate HasPiece(co: Co) {
    co.Reading? || co.Ordering? || co.Waiting? || co.Writing? || co.Finishing?
  }

  // ---------------------------------------------------------------- steps

  /** `t` is `s` with [lo, hi) replaced by the same range of `from`. */
  ghost predicate Overlaid(s: seq<Sector>, t: seq<Sector>, lo: nat, hi: nat, from: seq<Sector>) {
    && |t| == |s| && hi <= |s| && hi <= |from|
    && forall p :: 0 <= p < |s| ==> t[p] == if lo <= p < hi then from[p] else s[p]
  }

  ghost predicate Owned(s: seq<int>, t: seq<int>, lo: nat, hi: nat, who: int) {
    |t| == |s| && forall p :: 0 <= p < |s| ==> t[p] == if lo <= p < hi then who else s[p]
  }

  function Put(s: State, i: nat, co: Co): State
    requires i < |s.cos|
  {
    s.(cos := s.cos[i := co])
  }

  predicate Idle(co: Co) { co.NotStarted? || co.Done? }

  /** The end of convert_co_do_copy: the last coroutine turns -EINPROGRESS into success. */
  ghost predicate Exit(s: State, i: nat, s': State)
    requires i < |s.cos|
  {
    var t := Put(s, i, Done);
    s' == if s.ret == InProgress && forall j :: 0 <= j < |t.cos| ==> Idle(t.cos[j]) then t.(ret := Success) else t
  }

  /** Top of the loop, and taking the next piece under the lock. */
  ghost predicate ClaimStep(c: Config, s: State, i: nat, s': State)
    requires i < |s.cos|
  {
    match s.cos[i]
    case NotStarted => s' == Put(s, i, Ready)
    case Ready =>
      s.lock == -1 &&
      if s.ret != InProgress || s.sectorNum >= |c.source| then Exit(s, i, s') else s' == Put(s, i, Claiming).(lock := i)
    case Claiming =>
      || s' == Put(s, i, ClaimFailed).(lock := -1)
      || (exists n: nat :: 0 < n <= |c.source| - s.sectorNum && Claimed(s, i, n, s'))
    case ClaimFailed => Exit(s.(ret := Failed), i, s')
    case _ => false
  }

  ghost predicate Claimed(s: State, i: nat, n: nat, s': State)
    requires i < |s.cos|
  {
    && Owned(s.owner, s'.owner, s.sectorNum, s.sectorNum + n, i)
    && s' == Put(s, i, Reading(s.sectorNum, n)).(lock := -1, sectorNum := s.sectorNum + n, owner := s'.owner)
  }

  /** After the wait loop: write, unless some coroutine has failed. */
  function AfterWait(ret: Ret, at: nat, n: nat): Co {
    if ret == InProgress then Writing(at, n, 0) else Finishing(at, n)
  }

  /** Reading the piece, and keeping writes in order. */
  ghost predicate ReadStep(c: Config, s: State, i: nat, s': State)
    requires i < |s.cos|
  {
    match s.cos[i]
    case Reading(at, n) =>
      s' == Put(s, i, Ordering(at, n)) || s' == Put(s, i, Ordering(at, n)).(ret := Failed)
    case Ordering(at, n) =>
      s' == Put(s, i, if c.inOrder && s.wrOffs != at && s.ret == InProgress then Waiting(at, n)
                      else AfterWait(s.ret, at, n))
    case _ => false
  }

  /** Turns of convert_co_write; a failing write may leave anything in the rest of the piece. */
  ghost predicate WriteStep(c: Config, s: State, i: nat, s': State)
    requires i < |s.cos|
  {
    match s.cos[i]
    case Writing(at, n, done) =>
      if done == n then s' == Put(s, i, Finishing(at, n))
      else
        || (exists m: nat :: 0 < m <= n - done && Wrote(c, s, i, at, n, done, m, s'))
        || (Overlaid(s.target, s'.target, at + done, at + n, s'.target)
            && s' == Put(s, i, Finishing(at, n)).(ret := Failed, target := s'.target))
    case _ => false
  }

  /** The next `m` sectors are written, or skipped because they are zero and the target is too. */
  ghost predicate Wrote(c: Config, s: State, i: nat, at: nat, n: nat, done: nat, m: nat, s': State)
    requires i < |s.cos|
  {
    && s' == Put(s, i, Writing(at, n, done + m)).(target := s'.target)
    && (|| Overlaid(s.target, s'.target, at + done, at + done + m, c.source)
        || (c.zeroInit && s'.target == s.target && at + done + m <= |c.source|
            && forall p :: at + done <= p < at + done + m ==> c.source[p] == ZERO))
  }

  /** Coroutine `w` waits for sector `end`; -1 says that none does. */
  ghost predicate WaitsFor(s: State, w: int, end: nat) {
    if w == -1 then forall j :: 0 <= j < |s.cos| ==> !(s.cos[j].Waiting? && s.cos[j].at == end)
    else 0 <= w < |s.cos| && s.cos[w].Waiting? && s.cos[w].at == end
  }

  /** The piece of `i` is finished; with ordered writes wr_offs advances and the coroutine that
      waits for it is entered. */
  ghost predicate Finished(c: Config, s: State, i: nat, w: int, s': State)
    requires i < |s.cos| && s.cos[i].Finishing?
  {
    var Finishing(at, n) := s.cos[i];
    var t := Put(s, i, Ready).(owner := s'.owner);
    && Owned(s.owner, s'.owner, at, at + n, -1)
    && if !c.inOrder then w == -1 && s' == t
       else
         && WaitsFor(s, w, at + n)
         && s' == (if w == -1 then t else Put(t, w, AfterWait(s.ret, at + n, s.cos[w].n))).(wrOffs := at + n)
  }

  ghost predicate FinishStep(c: Config, s: State, i: nat, s': State)
    requires i < |s.cos|
  {
    s.cos[i].Finishing? && exists w :: Finished(c, s, i, w, s')
  }

  ghost predicate Step(c: Config, s: State, i: nat, s': State) {
    && i < |s.cos|
    && (ClaimStep(c, s, i, s') || ReadStep(c, s, i, s') || WriteStep(c, s, i, s') || FinishStep(c, s, i, s'))
  }

  ghost predicate Init(c: Config, s: State) {
    && s.ret == InProgress && s.sectorNum == 0 && s.wrOffs == 0 && s.lock == -1
    && (forall i :: 0 <= i < |s.cos| ==> s.cos[i] == NotStarted)
    && |s.target| == |s.owner| == |c.source|
    && (forall p :: 0 <= p < |s.owner| ==> s.owner[p] == -1 && (c.zeroInit ==> s.target[p] == ZERO))
  }

  ghost predicate Run(c: Config, run: seq<State>, who: seq<nat>) {
    && |run| == |who| + 1
    && Init(c, run[0])
    && forall k :: 0 <= k < |who| ==> Step(c, run[k], who[k], run[k + 1])
  }

  // ---------------------------------------------------------------- what holds in every state

  /** What is already in the target of a piece, and that the rest is still untouched. */
  ghost predicate PieceOk(c: Config, target: seq<Sector>, co: Co)
    requires HasPiece(co) && |target| == |c.source| && co.at + co.n <= |c.source|
  {
    var done := if co.Writing? then co.done else 0;
    && done <= co.n
    && (forall p :: co.at <= p < co.at + done ==> target[p] == c.source[p])
    && (c.zeroInit && !co.Finishing? ==> forall p :: co.at + done <= p < co.at + co.n ==> target[p] == ZERO)
  }

  ghost predicate CoOk(c: Config, s: State, i: nat)
    requires i < |s.cos| && Shape(c, s)
  {
    var co := s.cos[i];
    && (s.lock == i <==> co.Claiming?)
    && (co.Claiming? ==> s.sectorNum < |c.source|)
    && (s.ret == Success ==> !co.Claiming? && !co.ClaimFailed? && !HasPiece(co))
    && (HasPiece(co) ==>
          && 0 < co.n && co.at + co.n <= s.sectorNum
          && (forall p :: co.at <= p < co.at + co.n ==> s.owner[p] == i)
          && PieceOk(c, s.target, co))
    && (co.Waiting? ==> c.inOrder && co.at > 0 && s.owner[co.at - 1] >= 0)
    && (co.Finishing? && s.ret != Failed ==> forall p :: co.at <= p < co.at + co.n ==> s.target[p] == c.source[p])
    && (c.inOrder && s.ret == InProgress && (co.Writing? || co.Finishing?) ==> co.at == s.wrOffs)
  }

  ghost predicate SectorOk(c: Config, s: State, p: nat)
    requires p < |c.source| && Shape(c, s)
  {
    var o := s.owner[p];
    && -1 <= o < |s.cos|
    && (o >= 0 ==> HasPiece(s.cos[o]) && s.cos[o].at <= p < s.cos[o].at + s.cos[o].n)
    && (p >= s.sectorNum ==> o == -1 && (c.zeroInit ==> s.target[p] == ZERO))
    && (s.ret != Failed && p < s.sectorNum && o == -1 ==> s.target[p] == c.source[p])
    && (c.inOrder && s.ret == InProgress && p < s.sectorNum ==> (o == -1 <==> p < s.wrOffs))
  }

  predicate Shape(c: Config, s: State) {
    && |s.target| == |s.owner| == |c.source|
    && s.sectorNum <= |c.source|
    && -1 <= s.lock < |s.cos|
    && (s.ret == Success ==> s.sectorNum == |c.source|)
    && (c.inOrder && s.ret == InProgress ==> s.wrOffs <= s.sectorNum)
  }

  ghost predicate Inv(c: Config, s: State) {
    && Shape(c, s)
    && (forall i :: 0 <= i < |s.cos| ==> CoOk(c, s, i))
    && (forall p :: 0 <= p < |c.source| ==> SectorOk(c, s, p))
    && (c.inOrder ==>
          forall i, j :: 0 <= i < |s.cos| && 0 <= j < |s.cos| && s.cos[i].Writing? && s.cos[j].Writing? ==> i == j)
  }

  lemma InitInv(c: Config, s: State)
    requires Init(c, s)
    ensures Inv(c, s)
  {
  }

  /** Pieces of different coroutines do not overlap. */
  lemma Disjoint(c: Config, s: State, i: nat, j: nat)
    requires Inv(c, s) && i < |s.cos| && j < |s.cos| && i != j && HasPiece(s.cos[i]) && HasPiece(s.cos[j])
    ensures s.cos[i].at + s.cos[i].n <= s.cos[j].at || s.cos[j].at + s.cos[j].n <= s.cos[i].at
  {
    assert CoOk(c, s, i) && CoOk(c, s, j);
    var p := if s.cos[i].at < s.cos[j].at then s.cos[j].at else s.cos[i].at;
    assert SectorOk(c, s, p);
  }

  /** The step only moves coroutine `i`, and maybe takes or releases the lock for it, or fails. */
  predicate OnlyMoves(s: State, i: nat, s': State) {
    && i < |s.cos| == |s'.cos| && s' == Put(s, i, s'.cos[i]).(lock := s'.lock, ret := s'.ret)
    && (s'.ret == s.ret || s'.ret == Failed)
    && (s'.lock == s.lock || (s.lock == -1 && s'.lock == i) || (s.lock == i && s'.lock == -1))
  }

  lemma MoveOther(c: Config, s: State, i: nat, s': State, j: nat)
    requires Shape(c, s) && j < |s.cos| && j != i && CoOk(c, s, j) && OnlyMoves(s, i, s')
    ensures Shape(c, s') && CoOk(c, s', j)
  {
    assert s'.cos[j] == s.cos[j];
  }

  lemma ReadOwn(c: Config, s: State, i: nat, s': State)
    requires Inv(c, s) && i < |s.cos| && ReadStep(c, s, i, s')
    ensures Shape(c, s') && CoOk(c, s', i)
  {
    assert CoOk(c, s, i);
    var at := s.cos[i].at;
    assert SectorOk(c, s, at);
    assert at > 0 ==> SectorOk(c, s, at - 1);
  }

  lemma ReadWriter(c: Config, s: State, i: nat, s': State, j: nat)
    requires Inv(c, s) && i < |s.cos| && j < |s.cos| && i != j && ReadStep(c, s, i, s') && c.inOrder
    requires s'.cos[i].Writing?
    ensures !s.cos[j].Writing?
  {
    assert CoOk(c, s, i) && CoOk(c, s, j);
    if s.cos[j].Writing? { Disjoint(c, s, i, j); }
  }

  lemma ReadKeeps(c: Config, s: State, i: nat, s': State)
    requires Inv(c, s) && i < |s.cos| && ReadStep(c, s, i, s')
    ensures Inv(c, s')
  {
    assert CoOk(c, s, i);
    forall p | 0 <= p < |c.source| ensures SectorOk(c, s', p) { assert SectorOk(c, s, p); }
    ReadOwn(c, s, i, s');
    forall j | 0 <= j < |s.cos| && j != i ensures CoOk(c, s', j) { MoveOther(c, s, i, s', j); }
    forall j | 0 <= j < |s.cos| && j != i && c.inOrder && s'.cos[i].Writing? ensures !s'.cos[j].Writing? {
      ReadWriter(c, s, i, s', j);
    }
  }

  lemma ExitKeeps(c: Config, s: State, i: nat, s': State)
    requires Inv(c, s) && i < |s.cos| && Exit(s, i, s')
    requires if s.cos[i].Ready? then s.ret != InProgress || s.sectorNum >= |c.source|
             else s.cos[i].ClaimFailed? && s.ret == Failed
    ensures Inv(c, s')
  {
    assert CoOk(c, s, i);
    forall j | 0 <= j < |s.cos| ensures CoOk(c, s', j) {
      assert CoOk(c, s, j);
      assert s'.ret == Success && s.ret == InProgress ==> Idle(s'.cos[j]);
    }
    forall p | 0 <= p < |c.source| ensures SectorOk(c, s', p) { assert SectorOk(c, s, p); }
  }

  lemma FailKeeps(c: Config, s: State)
    requires Inv(c, s) && s.ret != Success
    ensures Inv(c, s.(ret := Failed))
  {
    forall j | 0 <= j < |s.cos| ensures CoOk(c, s.(ret := Failed), j) { assert CoOk(c, s, j); }
    forall p | 0 <= p < |c.source| ensures SectorOk(c, s.(ret := Failed), p) { assert SectorOk(c, s, p); }
  }

  lemma ClaimedKeeps(c: Config, s: State, i: nat, n: nat, s': State)
    requires Inv(c, s) && i < |s.cos| && s.cos[i].Claiming? && 0 < n <= |c.source| - s.sectorNum && Claimed(s, i, n, s')
    ensures Inv(c, s')
  {
    assert CoOk(c, s, i);
    forall p | 0 <= p < |c.source| ensures SectorOk(c, s', p) { assert SectorOk(c, s, p); }
    forall j | 0 <= j < |s.cos| ensures CoOk(c, s', j) {
      assert CoOk(c, s, j);
      if j == i {
        forall p | s.sectorNum <= p < s.sectorNum + n ensures c.zeroInit ==> s.target[p] == ZERO {
          assert SectorOk(c, s, p);
        }
      }
    }
  }

  /** Starting, taking the lock, and failing under it. */
  lemma StandbyKeeps(c: Config, s: State, i: nat, s': State)
    requires Inv(c, s) && OnlyMoves(s, i, s') && s'.ret == s.ret && (s.ret == Success ==> s'.cos[i].Ready?)
    requires !HasPiece(s.cos[i]) && !HasPiece(s'.cos[i]) && (s'.lock == i <==> s'.cos[i].Claiming?)
    requires s'.cos[i].Claiming? ==> s.sectorNum < |c.source|
    ensures Inv(c, s')
  {
    assert CoOk(c, s, i);
    forall j | 0 <= j < |s.cos| && j != i ensures CoOk(c, s', j) { MoveOther(c, s, i, s', j); }
    forall p | 0 <= p < |c.source| ensures SectorOk(c, s', p) { assert SectorOk(c, s, p); }
  }

  lemma ClaimKeeps(c: Config, s: State, i: nat, s': State)
    requires Inv(c, s) && i < |s.cos| && ClaimStep(c, s, i, s')
    ensures Inv(c, s')
  {
    assert CoOk(c, s, i);
    if s.cos[i].Ready? && (s.ret != InProgress || s.sectorNum >= |c.source|) {
      ExitKeeps(c, s, i, s');
    } else if s.cos[i].ClaimFailed? {
      FailKeeps(c, s);
      ExitKeeps(c, s.(ret := Failed), i, s');
    } else if s.cos[i].Claiming? && s'.cos[i].Reading? {
      var n: nat :| 0 < n <= |c.source| - s.sectorNum && Claimed(s, i, n, s');
      ClaimedKeeps(c, s, i, n, s');
    } else {
      StandbyKeeps(c, s, i, s');
    }
  }

  /** A write touches coroutine `i` and the target inside its piece only. */
  ghost predicate OnlyPiece(s: State, i: nat, s': State)
    requires i < |s.cos| && HasPiece(s.cos[i])
  {
    && s'.sectorNum == s.sectorNum && s'.wrOffs == s.wrOffs && s'.lock == s.lock && s'.owner == s.owner
    && (s'.ret == s.ret || s'.ret == Failed)
    && |s'.cos| == |s.cos| && (forall k :: 0 <= k < |s.cos| && k != i ==> s'.cos[k] == s.cos[k])
    && |s'.target| == |s.target|
    && (forall p :: 0 <= p < |s.target| && !(s.cos[i].at <= p < s.cos[i].at + s.cos[i].n) ==>
                      s'.target[p] == s.target[p])
  }

  lemma WriteIsLocal(c: Config, s: State, i: nat, s': State)
    requires i < |s.cos| && WriteStep(c, s, i, s') && s.cos[i].done <= s.cos[i].n
    ensures OnlyPiece(s, i, s')
  {
  }

  lemma WriteOther(c: Config, s: State, i: nat, s': State, j: nat)
    requires Inv(c, s) && i < |s.cos| && j < |s.cos| && i != j && HasPiece(s.cos[i]) && OnlyPiece(s, i, s')
    ensures Shape(c, s') && CoOk(c, s', j)
  {
    assert CoOk(c, s, i) && CoOk(c, s, j);
    if HasPiece(s.cos[j]) { Disjoint(c, s, i, j); }
  }

  lemma WriteOwn(c: Config, s: State, i: nat, s': State)
    requires Inv(c, s) && i < |s.cos| && WriteStep(c, s, i, s')
    ensures Shape(c, s') && CoOk(c, s', i)
  {
    assert CoOk(c, s, i);
    var co := s.cos[i];
    if m: nat :| 0 < m <= co.n - co.done && Wrote(c, s, i, co.at, co.n, co.done, m, s') {
      WroteOwn(c, s, i, m, s');
    }
  }

  lemma WroteOwn(c: Config, s: State, i: nat, m: nat, s': State)
    requires Shape(c, s) && i < |s.cos| && CoOk(c, s, i) && s.cos[i].Writing?
    requires var co := s.cos[i]; 0 < m <= co.n - co.done && Wrote(c, s, i, co.at, co.n, co.done, m, s')
    ensures Shape(c, s') && CoOk(c, s', i)
  {
  }

  lemma WriteSector(c: Config, s: State, i: nat, s': State, p: nat)
    requires Inv(c, s) && i < |s.cos| && WriteStep(c, s, i, s') && p < |c.source|
    ensures Shape(c, s') && SectorOk(c, s', p)
  {
    assert CoOk(c, s, i) && SectorOk(c, s, p);
  }

  lemma WriteKeeps(c: Config, s: State, i: nat, s': State)
    requires Inv(c, s) && i < |s.cos| && WriteStep(c, s, i, s')
    ensures Inv(c, s')
  {
    assert CoOk(c, s, i);
    WriteIsLocal(c, s, i, s');
    forall p | 0 <= p < |c.source| ensures Shape(c, s') && SectorOk(c, s', p) { WriteSector(c, s, i, s', p); }
    forall j | 0 <= j < |s.cos| ensures Shape(c, s') && CoOk(c, s', j) {
      if j == i { WriteOwn(c, s, i, s'); } else { WriteOther(c, s, i, s', j); }
    }
  }

  /** A waiting coroutine stands right behind the piece of another active coroutine. */
  lemma WaiterBehind(c: Config, s: State, i: nat, j: nat)
    requires Inv(c, s) && i < |s.cos| && j < |s.cos| && HasPiece(s.cos[i]) && s.cos[j].Waiting?
    ensures 0 < s.cos[j].at <= |s.owner|
    ensures s.owner[s.cos[j].at - 1] == i <==> s.cos[i].at + s.cos[i].n == s.cos[j].at
  {
    assert CoOk(c, s, i) && CoOk(c, s, j);
    var q := s.cos[j].at;
    assert SectorOk(c, s, q - 1) && SectorOk(c, s, q);
    if s.owner[q - 1] == i { assert s.owner[q] == j; }
  }

  /** The finished coroutine and the one that is entered. */
  lemma FinishOwn(c: Config, s: State, i: nat, w: int, s': State, j: nat)
    requires Inv(c, s) && i < |s.cos| && (j == i || j == w) && s.cos[i].Finishing? && Finished(c, s, i, w, s')
    ensures Shape(c, s') && j < |s.cos| && CoOk(c, s', j)
  {
    assert CoOk(c, s, i);
    if j == w {
      assert CoOk(c, s, w);
      Disjoint(c, s, i, w);
    }
  }

  lemma FinishOther(c: Config, s: State, i: nat, w: int, s': State, j: nat)
    requires Inv(c, s) && i < |s.cos| && j < |s.cos| && s.cos[i].Finishing? && Finished(c, s, i, w, s')
    requires j != i && j != w
    ensures Shape(c, s') && CoOk(c, s', j)
  {
    assert CoOk(c, s, i) && CoOk(c, s, j);
    if HasPiece(s.cos[j]) {
      Disjoint(c, s, i, j);
      if s.cos[j].Waiting? {
        WaiterBehind(c, s, i, j);
        if w != -1 { assert CoOk(c, s, w); Disjoint(c, s, w, j); }
      }
    }
  }

  lemma FinishSector(c: Config, s: State, i: nat, w: int, s': State, p: nat)
    requires Inv(c, s) && i < |s.cos| && p < |c.source| && s.cos[i].Finishing? && Finished(c, s, i, w, s')
    ensures Shape(c, s') && SectorOk(c, s', p)
  {
    assert CoOk(c, s, i) && SectorOk(c, s, p);
  }

  lemma FinishWriter(c: Config, s: State, i: nat, w: int, s': State, j: nat)
    requires Inv(c, s) && i < |s.cos| && j < |s.cos| && s.cos[i].Finishing? && Finished(c, s, i, w, s')
    requires c.inOrder && s.ret == InProgress
    ensures !s.cos[j].Writing?
  {
    assert CoOk(c, s, i) && CoOk(c, s, j);
    if s.cos[j].Writing? { Disjoint(c, s, i, j); }
  }

  lemma FinishKeeps(c: Config, s: State, i: nat, s': State)
    requires Inv(c, s) && i < |s.cos| && FinishStep(c, s, i, s')
    ensures Inv(c, s')
  {
    var w :| Finished(c, s, i, w, s');
    assert CoOk(c, s, i);
    forall p | 0 <= p < |c.source| ensures Shape(c, s') && SectorOk(c, s', p) { FinishSector(c, s, i, w, s', p); }
    forall j | 0 <= j < |s.cos| ensures Shape(c, s') && CoOk(c, s', j) {
      if j == i || j == w { FinishOwn(c, s, i, w, s', j); } else { FinishOther(c, s, i, w, s', j); }
    }
    forall j | 0 <= j < |s.cos| && c.inOrder && s.ret == InProgress ensures !s.cos[j].Writing? {
      FinishWriter(c, s, i, w, s', j);
    }
  }

  lemma {:induction false} EveryStateInv(c: Config, run: seq<State>, who: seq<nat>, t: nat)
    requires Run(c, run, who) && t < |run|
    ensures Inv(c, run[t])
  {
    if t == 0 {
      InitInv(c, run[0]);
    } else {
      var k := t - 1;
      EveryStateInv(c, run, who, k);
      assert Step(c, run[k], who[k], run[k + 1]);
      StepKeeps(c, run[k], who[k], run[k + 1]);
    }
  }

  lemma StepKeeps(c: Config, s: State, i: nat, s': State)
    requires Inv(c, s) && Step(c, s, i, s')
    ensures Inv(c, s')
  {
    if ClaimStep(c, s, i, s') {
      ClaimKeeps(c, s, i, s');
    } else if ReadStep(c, s, i, s') {
      ReadKeeps(c, s, i, s');
    } else if WriteStep(c, s, i, s') {
      WriteKeeps(c, s, i, s');
    } else {
      FinishKeeps(c, s, i, s');
    }
  }

  // ---------------------------------------------------------------- the theorems

  /** Whatever the interleaving and the number of coroutines, a conversion that ends with success
      has reproduced the sources. */
  lemma SuccessCopiesAll(c: Config, run: seq<State>, who: seq<nat>, t: nat)
    requires Run(c, run, who) && t < |run| && run[t].ret == Success
    ensures run[t].target == c.source
  {
    EveryStateInv(c, run, who, t);
    var s := run[t];
    forall j | 0 <= j < |s.cos| ensures !HasPiece(s.cos[j]) { assert CoOk(c, s, j); }
    forall p | 0 <= p < |c.source| ensures s.target[p] == c.source[p] { assert SectorOk(c, s, p); }
  }

  /** With ordered writes at most one coroutine writes, and as long as nothing has failed it is
      exactly at the frontier: all sectors in front of the next one it writes are copied. */
  lemma WritesInOrder(c: Config, run: seq<State>, who: seq<nat>, t: nat, i: nat)
    requires Run(c, run, who) && t < |run| && c.inOrder && i < |run[t].cos| && run[t].cos[i].Writing?
    ensures forall j :: 0 <= j < |run[t].cos| && run[t].cos[j].Writing? ==> j == i
    ensures var s := run[t];
            s.ret == InProgress ==>
              && s.cos[i].at == s.wrOffs && |s.target| == |c.source|
              && s.cos[i].at + s.cos[i].done <= |c.source|
              && forall p :: 0 <= p < s.cos[i].at + s.cos[i].done ==> s.target[p] == c.source[p]
  {
    EveryStateInv(c, run, who, t);
    var s := run[t];
    assert CoOk(c, s, i);
    if s.ret == InProgress {
      forall p | 0 <= p < s.cos[i].at + s.cos[i].done ensures s.target[p] == c.source[p] {
        assert SectorOk(c, s, p);
      }
    }
  }

  predicate EndsAt(co: Co, end: nat) { co.Finishing? && co.at + co.n == end }

  /** A waiting coroutine is never forgotten, not even after an error: the piece in front of it
      belongs to a coroutine that has yet to finish it, and finishing it enters the waiting one. */
  lemma WaiterIsWoken(c: Config, run: seq<State>, who: seq<nat>, t: nat, i: nat)
    requires Run(c, run, who) && t < |run| && i < |run[t].cos| && run[t].cos[i].Waiting?
    ensures exists k :: 0 <= k < |run[t].cos| && HasPiece(run[t].cos[k])
                        && run[t].cos[k].at + run[t].cos[k].n == run[t].cos[i].at
    ensures forall k: nat, s' | Step(c, run[t], k, s') && EndsAt(run[t].cos[k], run[t].cos[i].at) :: !s'.cos[i].Waiting?
  {
    EveryStateInv(c, run, who, t);
    var s := run[t];
    assert CoOk(c, s, i);
    var k := s.owner[s.cos[i].at - 1];
    assert SectorOk(c, s, s.cos[i].at - 1);
    WaiterBehind(c, s, k, i);
    forall k: nat, s' | Step(c, s, k, s') && EndsAt(s.cos[k], s.cos[i].at)
      ensures !s'.cos[i].Waiting?
    {
      var w :| Finished(c, s, k, w, s');
      assert w != -1;
      assert CoOk(c, s, w);
      if w != i { Disjoint(c, s, w, i); }
    }
  }

  /** And the coroutines never all wait for one another: while one waits, another one with a
      piece further down does not. */
  lemma {:induction false} SomeoneMoves(c: Config, s: State, i: nat)
    requires Inv(c, s) && i < |s.cos| && s.cos[i].Waiting?
    ensures exists k :: 0 <= k < |s.cos| && HasPiece(s.cos[k]) && !s.cos[k].Waiting? && s.cos[k].at < s.cos[i].at
    decreases s.cos[i].at
  {
    assert CoOk(c, s, i);
    var k := s.owner[s.cos[i].at - 1];
    assert SectorOk(c, s, s.cos[i].at - 1);
    if s.cos[k].Waiting? {
      SomeoneMoves(c, s, k);
    }
  }
}
