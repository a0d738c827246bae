/**
  The per-conversation sequence allocator of internal/logic/session/allocator.go as a
  transition system over its atomic operations.
 */
module Allocator {
  import opened Options

  type Worker = nat

  /** The watermark advances in steps of 1000. */
  const STRIDE: nat := 1000

  /** `covSeq`: the two atomic counters. */
  datatype CovSeq = CovSeq(current: nat, watermark: nat)

  /** Where a goroutine is inside Allocate; each point is named by what it does next. */
  datatype Pc =
    | Probe                                // read a.seqs under the read lock
    | Lock                                 // take a.mu and look again
    | LoadRow                              // holding a.mu: SELECT the conversation row
    | LoadMax(row: nat)                    // holding a.mu: SELECT MAX(seq)
    | CreateFresh                          // holding a.mu: EnsureConversation, publish (0, 0)
    | LoadCurrent                          // top of the retry loop
    | LoadWatermark(cur: nat)
    | Decide(cur: nat, wm: nat)            // conditional UPDATE, or compare-and-swap
    | StoreExtended(cur: nat, wm: nat)     // UPDATE hit: store wm + 1000
    | SwapExtended(cur: nat)               // compare-and-swap after extending
    | Reload                               // UPDATE missed: SELECT the row again
    | StoreReloaded(row: nat)
    | Ensure                               // row missing: EnsureConversation, retry

  /** One seq handed out: in which process lifetime, to whom, and the watermark on disk then. */
  datatype Issue = Issue(epoch: nat, worker: Worker, n: nat, persisted: nat)

  /**
    One conversation: its row in `conversations`, the seqs of its committed messages, the
    allocator entry in memory, and any number of goroutines inside Allocate.
   */
  datatype State = State(
    row: Option<nat>,            // conversations.current_watermark, None when there is no row
    stored: set<nat>,            // seqs of the committed messages of this conversation
    mem: Option<CovSeq>,         // a.seqs[covID]
    lock: Option<Worker>,        // holder of a.mu
    workers: map<Worker, Pc>,
    // history
    epoch: nat,                  // number of restarts so far
    log: seq<Issue>,             // everything ever handed out, in order
    mark: nat,                   // |log| at the last restart
    base: nat)                   // the value of `current` the entry in memory started from

  /** How far LoadAll got at startup (its failure is not fatal). */
  datatype Preload = Nothing | RowsOnly | Complete

  /**
    Every atomic load, store and compare-and-swap, and every SQL statement, is a step of its own,
    chosen by an action, so that a list of actions is one interleaving.
   */
  datatype Action =
    | Begin(w: Worker)                     // a goroutine calls Allocate
    | Go(w: Worker)                        // it performs the operation it is at
    | Fail(w: Worker)                      // that operation is SQL and returns an error
    | CreateRow                            // the group service creates the row
    | Commit(n: nat)                       // the batch writer commits a message
    | Restart(preload: Preload)            // the process dies, starts again and runs LoadAll

  const INITIAL := State(None, {}, None, None, map[], 0, [], 0, 0)

  function RowValue(s: State): nat {
    if s.row.Some? then s.row.value else 0
  }

  /** MAX(seq) over the committed messages, None on an empty set. */
  ghost function MaxOf(ns: set<nat>): (m: Option<nat>)
    ensures m.None? <==> ns == {}
    ensures m.Some? ==> m.value in ns && forall n :: n in ns ==> n <= m.value
  {
    if ns == {} then None else MaxExists(ns); var m :| m in ns && forall n :: n in ns ==> n <= m; Some(m)
  }

  lemma {:induction false} MaxExists(ns: set<nat>)
    requires ns != {}
    ensures exists m :: m in ns && forall n :: n in ns ==> n <= m
  {
    var x :| x in ns;
    var rest := ns - {x};
    if rest == {} {
      assert forall n :: n in ns ==> n == x || n in rest;
    } else {
      MaxExists(rest);
      var m :| m in rest && forall n :: n in rest ==> n <= m;
      var top := if x <= m then m else x;
      assert top in ns;
      forall n | n in ns ensures n <= top {
        assert n == x || n in rest;
      }
    }
  }

  // ----- the steps -----

  function At(s: State, w: Worker, pc: Pc): State {
    s.(workers := s.workers[w := pc])
  }

  function Leave(s: State, w: Worker): State {
    s.(workers := s.workers - {w})
  }

  /** getOrCreate publishes its entry and releases a.mu. */
  function Publish(s: State, w: Worker, cs: CovSeq): State {
    At(s.(mem := Some(cs), lock := None, base := cs.current), w, LoadCurrent)
  }

  /** EnsureConversation: the row exists afterwards, with watermark 0 if it is new. */
  function EnsureRow(s: State): State {
    if s.row.None? then s.(row := Some(0)) else s
  }

  /** current.CompareAndSwap(cur, cur + 1): on success the caller returns cur + 1. */
  function Swap(s: State, w: Worker, cur: nat): State
    requires s.mem.Some?
  {
    if s.mem.value.current == cur then
      Leave(s.(mem := Some(s.mem.value.(current := cur + 1)),
               log := s.log + [Issue(s.epoch, w, cur + 1, RowValue(s))]), w)
    else
      At(s, w, LoadCurrent)
  }

  ghost function Perform(s: State, w: Worker): Option<State>
    requires w in s.workers
  {
    match s.workers[w]
    case Probe =>
      if s.lock.Some? then None
      else Some(At(s, w, if s.mem.Some? then LoadCurrent else Lock))
    case Lock =>
      if s.lock.Some? then None
      else if s.mem.Some? then Some(At(s, w, LoadCurrent))
      else Some(At(s.(lock := Some(w)), w, LoadRow))
    case LoadRow =>
      Some(At(s, w, if s.row.Some? then LoadMax(s.row.value) else CreateFresh))
    case LoadMax(row) =>
      var m := MaxOf(s.stored);
      if m.Some? && m.value > row then Some(Publish(s, w, CovSeq(m.value, m.value)))
      else Some(Publish(s, w, CovSeq(row, row)))
    case CreateFresh => Some(Publish(EnsureRow(s), w, CovSeq(0, 0)))
    case LoadCurrent =>
      if s.mem.None? then None else Some(At(s, w, LoadWatermark(s.mem.value.current)))
    case LoadWatermark(cur) =>
      if s.mem.None? then None else Some(At(s, w, Decide(cur, s.mem.value.watermark)))
    case Decide(cur, wm) =>
      if s.mem.None? then None
      else if cur + 1 > wm then
        if s.row == Some(wm) then Some(At(s.(row := Some(wm + STRIDE)), w, StoreExtended(cur, wm)))
        else Some(At(s, w, Reload))
      else Some(Swap(s, w, cur))
    case StoreExtended(cur, wm) =>
      if s.mem.None? then None
      else Some(At(s.(mem := Some(s.mem.value.(watermark := wm + STRIDE))), w, SwapExtended(cur)))
    case SwapExtended(cur) =>
      if s.mem.None? then None else Some(Swap(s, w, cur))
    case Reload =>
      Some(At(s, w, if s.row.Some? then StoreReloaded(s.row.value) else Ensure))
    case StoreReloaded(row) =>
      if s.mem.None? then None
      else Some(At(s.(mem := Some(s.mem.value.(watermark := row))), w, LoadCurrent))
    case Ensure => Some(At(EnsureRow(s), w, LoadCurrent))
  }

  /** The SQL statement a goroutine is at returns an error. */
  function PerformFailed(s: State, w: Worker): Option<State>
    requires w in s.workers
  {
    match s.workers[w]
    case LoadRow => Some(At(s, w, CreateFresh))                       // any error reads as "absent"
    case LoadMax(row) => Some(Publish(s, w, CovSeq(row, row)))        // the error is not looked at
    case CreateFresh => Some(Publish(s, w, CovSeq(0, 0)))             // the error is dropped
    case Decide(cur, wm) => if cur + 1 > wm then Some(Leave(s, w)) else None
    case Reload => Some(Leave(s, w))
    case Ensure => Some(Leave(s, w))
    case _ => None
  }

  /** What LoadAll leaves in memory for this conversation. */
  ghost function Preloaded(s: State, preload: Preload): Option<CovSeq> {
    match preload
    case Nothing => None
    case RowsOnly => if s.row.Some? then Some(CovSeq(s.row.value, s.row.value)) else None
    case Complete =>
      match MaxOf(s.stored)
      case None => if s.row.Some? then Some(CovSeq(s.row.value, s.row.value)) else None
      case Some(m) =>
        var top := if m > RowValue(s) then m else RowValue(s);
        Some(CovSeq(top, top))
  }

  ghost function Restarted(s: State, preload: Preload): State {
    var cs := Preloaded(s, preload);
    State(s.row, s.stored, cs, None, map[], s.epoch + 1, s.log, |s.log|, if cs.Some? then cs.value.current else 0)
  }

  predicate Issued(s: State, n: nat) {
    exists i :: 0 <= i < |s.log| && s.log[i].n == n
  }

  ghost function Step(s: State, a: Action): Option<State> {
    match a
    case Begin(w) => if w in s.workers then None else Some(At(s, w, Probe))
    case Go(w) => if w in s.workers then Perform(s, w) else None
    case Fail(w) => if w in s.workers then PerformFailed(s, w) else None
    case CreateRow => Some(EnsureRow(s))
    case Commit(n) => if Issued(s, n) then Some(s.(stored := s.stored + {n})) else None
    case Restart(preload) => Some(Restarted(s, preload))
  }

  /** Runs a list of actions; None when one of them is not enabled. */
  ghost function Run(s: State, actions: seq<Action>): Option<State>
    decreases |actions|
  {
    if actions == [] then Some(s)
    else
      match Step(s, actions[0])
      case None => None
      case Some(s') => Run(s', actions[1..])
  }

  // ----- the promises -----

  /** Everything handed out, over all lifetimes, is strictly increasing: nothing twice, no rewind. */
  ghost predicate Increasing(log: seq<Issue>) {
    forall i, j :: 0 <= i < j < |log| ==> log[i].n < log[j].n && log[i].epoch <= log[j].epoch
  }

  /** Within one lifetime the seqs are consecutive. */
  ghost predicate GapFree(log: seq<Issue>) {
    forall i, j :: 0 <= i < j < |log| && log[i].epoch == log[j].epoch ==> log[j].n == log[i].n + (j - i)
  }

  /** The watermark covering a seq is on disk before the seq is returned. */
  ghost predicate Covered(log: seq<Issue>) {
    forall i :: 0 <= i < |log| ==> 1 <= log[i].n <= log[i].persisted
  }

  ghost predicate Safe(s: State) {
    Increasing(s.log) && GapFree(s.log) && Covered(s.log)
  }

  // ----- the invariant -----

  ghost predicate PcOk(s: State, w: Worker, pc: Pc) {
    match pc
    case Probe => true
    case Lock => true
    case LoadRow => s.mem.None? && s.lock == Some(w)
    case LoadMax(row) => s.mem.None? && s.lock == Some(w) && s.row == Some(row)
    case CreateFresh => s.mem.None? && s.lock == Some(w) && s.log == []
    case LoadCurrent => s.mem.Some?
    case LoadWatermark(cur) => s.mem.Some? && cur <= s.mem.value.current
    case Decide(cur, wm) => s.mem.Some? && cur <= s.mem.value.current && wm <= RowValue(s)
    case StoreExtended(cur, wm) => s.mem.Some? && cur <= s.mem.value.current && cur == wm && wm + STRIDE <= RowValue(s)
    case SwapExtended(cur) => s.mem.Some? && cur <= s.mem.value.current && cur + 1 <= RowValue(s)
    case Reload => s.mem.Some?
    case StoreReloaded(row) => s.mem.Some? && row <= RowValue(s)
    case Ensure => s.mem.Some?
  }

  ghost predicate LogOk(s: State) {
    && s.mark <= |s.log|
    && (forall i :: 0 <= i < |s.log| ==> s.log[i].persisted <= RowValue(s) && s.log[i].epoch <= s.epoch)
    && (forall i :: 0 <= i < |s.log| ==> (s.log[i].epoch == s.epoch <==> s.mark <= i))
    && (s.mem.None? ==> s.mark == |s.log|)
    && (s.mem.Some? ==>
          && s.mem.value.current == s.base + (|s.log| - s.mark)
          && (forall i :: 0 <= i < s.mark ==> s.log[i].n <= s.base)
          && (forall i :: s.mark <= i < |s.log| ==> s.log[i].n == s.base + 1 + (i - s.mark)))
  }

  ghost predicate MemOk(s: State) {
    && (s.mem.Some? ==> s.mem.value.current <= RowValue(s) && s.mem.value.watermark <= RowValue(s))
    && (s.mem.Some? ==> s.lock.None?)
    && (forall n :: n in s.stored ==> Issued(s, n))
    && (forall w :: w in s.workers ==> PcOk(s, w, s.workers[w]))
  }

  ghost predicate Inv(s: State) {
    Safe(s) && LogOk(s) && MemOk(s)
  }

  /** A failed read of the row is harmless only while nothing has been handed out. */
  ghost predicate Benign(s: State, a: Action) {
    a.Fail? && a.w in s.workers && s.workers[a.w] == LoadRow ==> s.log == []
  }

  ghost predicate AllBenign(s: State, actions: seq<Action>)
    decreases |actions|
  {
    actions != [] && Step(s, actions[0]).Some? ==>
      Benign(s, actions[0]) && AllBenign(Step(s, actions[0]).value, actions[1..])
  }

  lemma IssuedUpTo(s: State, n: nat)
    requires Inv(s) && Issued(s, n)
    ensures 1 <= n <= RowValue(s)
    ensures s.mem.Some? ==> n <= s.mem.value.current
  {
    var i :| 0 <= i < |s.log| && s.log[i].n == n;
    assert s.log[i].n <= s.log[i].persisted <= RowValue(s);
  }

  lemma StoredUpTo(s: State)
    requires Inv(s)
    ensures MaxOf(s.stored).Some? ==> MaxOf(s.stored).value <= RowValue(s)
  {
    if MaxOf(s.stored).Some? {
      IssuedUpTo(s, MaxOf(s.stored).value);
    }
  }

  /** What a goroutine knows survives every step of another one. */
  lemma PcFrame(s: State, s': State, w: Worker, pc: Pc)
    requires PcOk(s, w, pc)
    requires RowValue(s) <= RowValue(s')
    requires s.mem.Some? ==> s'.mem.Some? && s.mem.value.current <= s'.mem.value.current
    requires s.mem.None? ==> s'.mem.None? && s'.log == s.log && (s.lock.Some? ==> s'.lock == s.lock)
    requires s.mem.None? && s.row.Some? ==> s'.row == s.row
    ensures PcOk(s', w, pc)
  {
  }

  /** A step that leaves the log alone and moves one goroutine keeps the invariant. */
  lemma QuietStep(s: State, s': State, w: Worker)
    requires Inv(s)
    requires s'.log == s.log && s'.mark == s.mark && s'.base == s.base && s'.epoch == s.epoch && s'.stored == s.stored
    requires RowValue(s) <= RowValue(s') && (s.mem.None? && s.row.Some? ==> s'.row == s.row)
    requires s.mem.Some? <==> s'.mem.Some?
    requires s.mem.Some? ==>
      s'.mem.value.current == s.mem.value.current && s'.mem.value.watermark <= RowValue(s') && s'.lock.None?
    requires s.mem.None? && s.lock.Some? ==> s'.lock == s.lock
    requires forall v :: v in s'.workers && v != w ==> v in s.workers && s'.workers[v] == s.workers[v]
    requires w in s'.workers ==> PcOk(s', w, s'.workers[w])
    ensures Inv(s')
  {
    forall v | v in s'.workers ensures PcOk(s', v, s'.workers[v]) {
      if v != w {
        PcFrame(s, s', v, s'.workers[v]);
      }
    }
    forall n | n in s'.stored ensures Issued(s', n) {
      assert Issued(s, n);
    }
  }

  lemma AppendKeepsOrder(log: seq<Issue>, x: Issue)
    requires Increasing(log) && GapFree(log) && Covered(log)
    requires forall i :: 0 <= i < |log| ==> log[i].n < x.n && log[i].epoch <= x.epoch
    requires forall i :: 0 <= i < |log| && log[i].epoch == x.epoch ==> x.n == log[i].n + (|log| - i)
    requires 1 <= x.n <= x.persisted
    ensures Increasing(log + [x]) && GapFree(log + [x]) && Covered(log + [x])
  {
  }

  lemma SwapKeepsOrder(s: State, w: Worker)
    requires Safe(s) && LogOk(s) && s.mem.Some? && w in s.workers
    requires s.mem.value.current + 1 <= RowValue(s)
    ensures Safe(Swap(s, w, s.mem.value.current))
  {
    var x := Issue(s.epoch, w, s.mem.value.current + 1, RowValue(s));
    forall i | 0 <= i < |s.log|
      ensures s.log[i].n < x.n && s.log[i].epoch <= x.epoch
      ensures s.log[i].epoch == x.epoch ==> x.n == s.log[i].n + (|s.log| - i)
    {
      assert s.log[i].epoch == s.epoch <==> s.mark <= i;
    }
    AppendKeepsOrder(s.log, x);
    assert Swap(s, w, s.mem.value.current).log == s.log + [x];
  }

  lemma SwapKeepsLog(s: State, w: Worker)
    requires LogOk(s) && s.mem.Some? && w in s.workers
    requires s.mem.value.current + 1 <= RowValue(s)
    ensures LogOk(Swap(s, w, s.mem.value.current))
  {
  }

  lemma SwapKeepsInv(s: State, w: Worker, cur: nat)
    requires Inv(s) && s.mem.Some? && w in s.workers
    requires cur <= s.mem.value.current && cur + 1 <= RowValue(s)
    ensures Inv(Swap(s, w, cur))
  {
    var s' := Swap(s, w, cur);
    if s.mem.value.current == cur {
      SwapKeepsOrder(s, w);
      SwapKeepsLog(s, w);
      forall n | n in s'.stored ensures Issued(s', n) {
        var i :| 0 <= i < |s.log| && s.log[i].n == n;
        assert s'.log[i].n == n;
      }
      forall v | v in s'.workers ensures PcOk(s', v, s'.workers[v]) {
        PcFrame(s, s', v, s.workers[v]);
      }
    } else {
      QuietStep(s, s', w);
    }
  }

  lemma PublishKeepsInv(s: State, w: Worker, cs: CovSeq)
    requires Inv(s) && s.mem.None? && s.lock == Some(w) && w in s.workers
    requires cs.current == cs.watermark <= RowValue(s)
    requires cs.current == RowValue(s) || s.log == []
    ensures Inv(Publish(s, w, cs))
  {
    var s' := Publish(s, w, cs);
    forall i | 0 <= i < s'.mark ensures s'.log[i].n <= s'.base {
      assert s.log[i].n <= s.log[i].persisted;
    }
    forall n | n in s'.stored ensures Issued(s', n) {
      assert Issued(s, n);
    }
    forall v | v in s'.workers ensures PcOk(s', v, s'.workers[v]) {
      assert v != w ==> PcOk(s, v, s.workers[v]);
    }
  }

  lemma GetOrCreateKeepsInv(s: State, w: Worker)
    requires Inv(s) && w in s.workers && Perform(s, w).Some?
    requires s.workers[w].Probe? || s.workers[w].Lock? || s.workers[w].LoadRow? || s.workers[w].LoadMax?
      || s.workers[w].CreateFresh?
    ensures Inv(Perform(s, w).value)
  {
    var s' := Perform(s, w).value;
    assert PcOk(s, w, s.workers[w]);
    match s.workers[w]
    case LoadRow =>
      if s.log != [] { IssuedUpTo(s, s.log[0].n); }
      QuietStep(s, s', w);
    case LoadMax(row) => StoredUpTo(s); PublishKeepsInv(s, w, CovSeq(row, row));
    case CreateFresh =>
      var s1 := EnsureRow(s);
      QuietStep(s, s1, w);
      PublishKeepsInv(s1, w, CovSeq(0, 0));
    case _ => QuietStep(s, s', w);
  }

  lemma LoadsKeepInv(s: State, w: Worker)
    requires Inv(s) && w in s.workers && Perform(s, w).Some?
    requires s.workers[w].LoadCurrent? || s.workers[w].LoadWatermark? || s.workers[w].Reload? || s.workers[w].Ensure?
    ensures Inv(Perform(s, w).value)
  {
    assert PcOk(s, w, s.workers[w]);
    QuietStep(s, Perform(s, w).value, w);
  }

  lemma StoresKeepInv(s: State, w: Worker)
    requires Inv(s) && w in s.workers && Perform(s, w).Some?
    requires s.workers[w].StoreExtended? || s.workers[w].StoreReloaded?
    ensures Inv(Perform(s, w).value)
  {
    assert PcOk(s, w, s.workers[w]);
    QuietStep(s, Perform(s, w).value, w);
  }

  lemma DecisionKeepsInv(s: State, w: Worker)
    requires Inv(s) && w in s.workers && Perform(s, w).Some?
    requires s.workers[w].Decide? || s.workers[w].SwapExtended?
    ensures Inv(Perform(s, w).value)
  {
    assert PcOk(s, w, s.workers[w]);
    match s.workers[w]
    case Decide(cur, wm) =>
      if cur + 1 > wm { QuietStep(s, Perform(s, w).value, w); } else { SwapKeepsInv(s, w, cur); }
    case SwapExtended(cur) => SwapKeepsInv(s, w, cur);
  }

  lemma PerformKeepsInv(s: State, w: Worker)
    requires Inv(s) && w in s.workers && Perform(s, w).Some?
    ensures Inv(Perform(s, w).value)
  {
    match s.workers[w]
    case Decide(_, _) => DecisionKeepsInv(s, w);
    case SwapExtended(_) => DecisionKeepsInv(s, w);
    case StoreExtended(_, _) => StoresKeepInv(s, w);
    case StoreReloaded(_) => StoresKeepInv(s, w);
    case LoadCurrent => LoadsKeepInv(s, w);
    case LoadWatermark(_) => LoadsKeepInv(s, w);
    case Reload => LoadsKeepInv(s, w);
    case Ensure => LoadsKeepInv(s, w);
    case _ => GetOrCreateKeepsInv(s, w);
  }

  lemma FailKeepsInv(s: State, w: Worker)
    requires Inv(s) && w in s.workers && PerformFailed(s, w).Some?
    requires s.workers[w] == LoadRow ==> s.log == []
    ensures Inv(PerformFailed(s, w).value)
  {
    var s' := PerformFailed(s, w).value;
    assert PcOk(s, w, s.workers[w]);
    match s.workers[w]
    case LoadMax(row) => PublishKeepsInv(s, w, CovSeq(row, row));
    case CreateFresh => PublishKeepsInv(s, w, CovSeq(0, 0));
    case _ => QuietStep(s, s', w);
  }

  lemma IssuedSame(s: State, s': State, n: nat)
    requires s'.log == s.log && Issued(s, n)
    ensures Issued(s', n)
  {
  }

  lemma RestartKeepsInv(s: State, preload: Preload)
    requires Inv(s)
    ensures Inv(Restarted(s, preload))
  {
    StoredUpTo(s);
    hide MaxOf;
    hide Issued;
    var s' := Restarted(s, preload);
    forall n | n in s'.stored ensures Issued(s', n) {
      IssuedSame(s, s', n);
    }
    forall i | 0 <= i < s'.mark ensures s'.log[i].n <= RowValue(s) {
      assert s.log[i].n <= s.log[i].persisted;
    }
  }

  /** The row was created, or a message under an issued seq was committed. */
  lemma QuietDatabaseStep(s: State, s': State)
    requires Inv(s) && s' == s.(row := s'.row, stored := s'.stored) && RowValue(s') == RowValue(s)
      && (s.row.Some? ==> s'.row == s.row)
    requires forall n :: n in s'.stored ==> n in s.stored || Issued(s, n)
    ensures Inv(s')
  {
    forall v | v in s'.workers ensures PcOk(s', v, s'.workers[v]) { PcFrame(s, s', v, s.workers[v]); }
    forall n | n in s'.stored ensures Issued(s', n) { assert Issued(s, n); }
  }

  lemma StepKeepsInv(s: State, a: Action)
    requires Inv(s) && Step(s, a).Some? && Benign(s, a)
    ensures Inv(Step(s, a).value)
  {
    var s' := Step(s, a).value;
    match a
    case Begin(w) => QuietStep(s, s', w);
    case Go(w) => PerformKeepsInv(s, w);
    case Fail(w) => FailKeepsInv(s, w);
    case CreateRow => QuietDatabaseStep(s, s');
    case Commit(n) => QuietDatabaseStep(s, s');
    case Restart(preload) => RestartKeepsInv(s, preload);
  }

  lemma {:induction false} RunSnoc(s0: State, actions: seq<Action>, a: Action)
    requires Run(s0, actions).Some?
    ensures Run(s0, actions + [a]) == Step(Run(s0, actions).value, a)
    decreases |actions|
  {
    if actions == [] {
      assert [] + [a] == [a] && [a][1..] == [];
    } else {
      assert (actions + [a])[1..] == actions[1..] + [a];
      RunSnoc(Step(s0, actions[0]).value, actions[1..], a);
    }
  }

  lemma {:induction false} RunKeepsInv(s: State, actions: seq<Action>)
    requires Inv(s) && Run(s, actions).Some? && AllBenign(s, actions)
    ensures Inv(Run(s, actions).value)
    decreases |actions|
  {
    if actions != [] {
      StepKeepsInv(s, actions[0]);
      RunKeepsInv(Step(s, actions[0]).value, actions[1..]);
    }
  }

  /** This lifetime has handed out exactly the seqs base + 1, base + 2, and so on up to `current`. */
  ghost predicate Consecutive(s: State) {
    && s.mark <= |s.log|
    && (forall i :: s.mark <= i < |s.log| ==> s.log[i].n == s.base + 1 + (i - s.mark))
    && (s.mem.Some? ==> s.mem.value.current == s.base + (|s.log| - s.mark))
    && (s.mem.None? ==> s.mark == |s.log|)
  }

  /**
    Every interleaving of any number of Allocate calls, failed statements, crashes and
    restarts hands out strictly increasing seqs, in one process lifetime the consecutive range
    just above the value loaded, each covered by the watermark on disk when it is returned,
    provided the row of the conversation is never read unsuccessfully once a seq is out.
   */
  lemma SeqsNeverRepeat(actions: seq<Action>)
    requires Run(INITIAL, actions).Some? && AllBenign(INITIAL, actions)
    ensures Safe(Run(INITIAL, actions).value) && Consecutive(Run(INITIAL, actions).value)
  {
    RunKeepsInv(INITIAL, actions);
  }

  /** max(watermark, MAX(seq)). */
  ghost function Highest(s: State): nat {
    var m := MaxOf(s.stored);
    if m.Some? && m.value > RowValue(s) then m.value else RowValue(s)
  }

  /**
    Where a lifetime starts: whichever step loads the counter, it loads max(watermark, MAX(seq)),
    or nothing has ever been handed out and it starts at 0.
   */
  lemma LifetimeStarts(s: State, a: Action)
    requires Inv(s) && Step(s, a).Some? && Benign(s, a) && (s.mem.None? || a.Restart?) && Step(s, a).value.mem.Some?
    ensures var s' := Step(s, a).value;
      && s'.log == s.log && s'.mark == |s.log| && s'.base == s'.mem.value.current
      && s'.mem.value.watermark == s'.mem.value.current
      && (s'.base == Highest(s) || (s.log == [] && s'.base == 0))
  {
    StoredUpTo(s);
    hide MaxOf;
    if a.Go? || a.Fail? {
      assert PcOk(s, a.w, s.workers[a.w]);
    }
  }

  /**
    What may happen to the row on disk: it is created with watermark 0, or advanced by 1000 by a
    call that found the watermark it had read used up, and the row still carrying that watermark.
   */
  lemma RowMoves(s: State, a: Action)
    requires Step(s, a).Some? && Step(s, a).value.row != s.row
    ensures var row := Step(s, a).value.row;
      || (s.row.None? && row == Some(0))
      || (a.Go? && s.workers[a.w].Decide? && s.workers[a.w].cur >= s.workers[a.w].wm
          && s.row == Some(s.workers[a.w].wm) && row == Some(s.workers[a.w].wm + 1000))
  {
  }

  // ----- the proviso is needed -----

  lemma {:induction false} BenignSnoc(s0: State, actions: seq<Action>, a: Action)
    requires Run(s0, actions).Some? && AllBenign(s0, actions)
    requires var s := Run(s0, actions).value; Step(s, a).Some? && Benign(s, a)
    ensures AllBenign(s0, actions + [a])
    decreases |actions|
  {
    if actions == [] {
      assert [] + [a] == [a] && [a][1..] == [];
    } else {
      assert (actions + [a])[1..] == actions[1..] + [a];
      BenignSnoc(Step(s0, actions[0]).value, actions[1..], a);
    }
  }

  /** A harmless run from the start ends in s. */
  ghost predicate Reachable(s: State) {
    exists actions :: Run(INITIAL, actions) == Some(s) && AllBenign(INITIAL, actions)
  }

  lemma ReachOn(s: State, a: Action, s': State)
    requires Reachable(s) && Step(s, a) == Some(s') && Benign(s, a)
    ensures Reachable(s')
  {
    var actions :| Run(INITIAL, actions) == Some(s) && AllBenign(INITIAL, actions);
    RunSnoc(INITIAL, actions, a);
    BenignSnoc(INITIAL, actions, a);
  }

  /** The only goroutine, in the first process lifetime. */
  function Alone(row: Option<nat>, mem: Option<CovSeq>, lock: Option<Worker>, pc: Pc): State {
    State(row, {}, mem, lock, map[0 := pc], 0, [], 0, 0)
  }

  /** Goroutine w performs its next k operations. */
  function Goes(w: Worker, k: nat): seq<Action> {
    if k == 0 then [] else [Go(w)] + Goes(w, k - 1)
  }

  lemma GoOnce(s: State, w: Worker, k: nat)
    requires k > 0 && w in s.workers && Perform(s, w).Some?
    ensures Run(s, Goes(w, k)) == Run(Perform(s, w).value, Goes(w, k - 1))
  {
    assert Goes(w, k)[1..] == Goes(w, k - 1);
  }

  /** Its next operation takes it to `next`, and leaves the rest as in `s`. */
  lemma AloneGoes(pc: Pc, from: State, s: State, next: Pc, k: nat)
    requires k > 0 && from.workers == map[0 := pc] && s.workers == map[0 := pc]
    requires Perform(from, 0) == Some(At(s, 0, next))
    ensures Run(from, Goes(0, k)) == Run(s.(workers := map[0 := next]), Goes(0, k - 1))
  {
    assert s.workers[0 := next] == map[0 := next];
    GoOnce(from, 0, k);
  }

  /** The first call ever creates the row ... */
  lemma FirstCallCreates(k: nat)
    requires k >= 4
    ensures Run(Alone(None, None, None, Probe), Goes(0, k))
         == Run(Alone(Some(0), Some(CovSeq(0, 0)), None, LoadCurrent), Goes(0, k - 4))
  {
    hide Run;
    AloneGoes(Probe, Alone(None, None, None, Probe), Alone(None, None, None, Probe), Lock, k);
    AloneGoes(Lock, Alone(None, None, None, Lock), Alone(None, None, Some(0), Lock), LoadRow, k - 1);
    AloneGoes(LoadRow, Alone(None, None, Some(0), LoadRow), Alone(None, None, Some(0), LoadRow), CreateFresh, k - 2);
    AloneGoes(CreateFresh, Alone(None, None, Some(0), CreateFresh),
              Alone(Some(0), Some(CovSeq(0, 0)), None, CreateFresh), LoadCurrent, k - 3);
  }

  /** ... extends its watermark, and is about to take 1. */
  lemma FirstCallExtends(k: nat)
    requires k >= 8
    ensures Run(Alone(None, None, None, Probe), Goes(0, k))
         == Run(Alone(Some(STRIDE), Some(CovSeq(0, STRIDE)), None, SwapExtended(0)), Goes(0, k - 8))
  {
    hide Run;
    FirstCallCreates(k);
    var unused, extended := Some(CovSeq(0, 0)), Some(CovSeq(0, STRIDE));
    AloneGoes(LoadCurrent, Alone(Some(0), unused, None, LoadCurrent),
              Alone(Some(0), unused, None, LoadCurrent), LoadWatermark(0), k - 4);
    AloneGoes(LoadWatermark(0), Alone(Some(0), unused, None, LoadWatermark(0)),
              Alone(Some(0), unused, None, LoadWatermark(0)), Decide(0, 0), k - 5);
    AloneGoes(Decide(0, 0), Alone(Some(0), unused, None, Decide(0, 0)),
              Alone(Some(STRIDE), unused, None, Decide(0, 0)), StoreExtended(0, 0), k - 6);
    AloneGoes(StoreExtended(0, 0), Alone(Some(STRIDE), unused, None, StoreExtended(0, 0)),
              Alone(Some(STRIDE), extended, None, StoreExtended(0, 0)), SwapExtended(0), k - 7);
  }

  /** After the first call: seq 1 is out. */
  function OneOut(stored: set<nat>): State {
    State(Some(STRIDE), stored, Some(CovSeq(1, STRIDE)), None, map[], 0, [Issue(0, 0, 1, STRIDE)], 0, 0)
  }

  lemma TakesOne()
    ensures Perform(Alone(Some(STRIDE), Some(CovSeq(0, STRIDE)), None, SwapExtended(0)), 0) == Some(OneOut({}))
  {
    assert map[0 := SwapExtended(0)] - {0} == map[];
    assert [] + [Issue(0, 0, 1, STRIDE)] == [Issue(0, 0, 1, STRIDE)];
  }

  /** The next goroutine finds the watermark far enough ... */
  lemma NextCallDecides(stored: set<nat>)
    ensures var s := OneOut(stored);
      Step(s, Begin(1)) == Some(At(s, 1, Probe))
        && Run(At(s, 1, Probe), Goes(1, 3)) == Some(At(s, 1, Decide(1, STRIDE)))
  {
    var s := OneOut(stored).(workers := map[1 := Probe]);
    assert At(OneOut(stored), 1, Probe) == s
      && OneOut(stored).workers[1 := Decide(1, STRIDE)] == s.workers[1 := Decide(1, STRIDE)];
    assert s == At(s, 1, Probe);
    GoOn(s, 1, Probe, LoadCurrent, 3);
    GoOnTwice(s, 1, LoadCurrent, LoadWatermark(1), Decide(1, STRIDE), 2);
  }

  /** ... and takes 2. */
  lemma NextCallTakesTwo(stored: set<nat>)
    ensures var s := At(OneOut(stored), 1, Decide(1, STRIDE));
      Step(s, Go(1)).Some? && Step(s, Go(1)).value.log == s.log + [Issue(0, 1, 2, STRIDE)]
  {
  }

  lemma {:induction false} ReachGoes(s: State, w: Worker, k: nat)
    requires Reachable(s) && Run(s, Goes(w, k)).Some?
    ensures Reachable(Run(s, Goes(w, k)).value)
    decreases k
  {
    if k > 0 {
      ReachOn(s, Go(w), Perform(s, w).value);
      hide Reachable;
      GoOnce(s, w, k);
      ReachGoes(Perform(s, w).value, w, k - 1);
    }
  }

  lemma FirstCall()
    ensures Reachable(OneOut({}))
  {
    assert Run(INITIAL, []) == Some(INITIAL) && AllBenign(INITIAL, []);
    assert INITIAL.workers[0 := Probe] == map[0 := Probe];
    var s := Alone(None, None, None, Probe);
    ReachOn(INITIAL, Begin(0), s);
    FirstCallExtends(9);
    TakesOne();
    GoOnce(Alone(Some(STRIDE), Some(CovSeq(0, STRIDE)), None, SwapExtended(0)), 0, 1);
    ReachGoes(s, 0, 9);
  }

  /** The process dies and starts again, its LoadAll fails, and the next call is about to read the row. */
  lemma ReadAfterRestart()
    ensures exists s :: Reachable(s) && s.workers == map[0 := LoadRow] && s.log == [Issue(0, 0, 1, STRIDE)]
  {
    FirstCall();
    var s2 := State(Some(STRIDE), {}, None, None, map[], 1, [Issue(0, 0, 1, STRIDE)], 1, 0);
    ReachOn(OneOut({}), Restart(Nothing), s2);
    hide Reachable;
    var s3 := s2.(workers := map[0 := Probe]);
    assert s2.workers[0 := Probe] == s3.workers;
    ReachOn(s2, Begin(0), s3);
    AloneGoes(Probe, s3, s3, Lock, 2);
    var s4 := s2.(workers := map[0 := Lock]);
    AloneGoes(Lock, s4, s4.(lock := Some(0)), LoadRow, 1);
    ReachGoes(s3, 0, 2);
    assert Reachable(s2.(workers := map[0 := LoadRow], lock := Some(0)));
  }

  /** An operation of w that only moves w on. */
  lemma GoOn(s: State, w: Worker, p: Pc, q: Pc, k: nat)
    requires k > 0 && w in s.workers
    requires Perform(At(s, w, p), w) == Some(At(At(s, w, p), w, q))
    ensures Run(At(s, w, p), Goes(w, k)) == Run(At(s, w, q), Goes(w, k - 1))
  {
    GoOnce(At(s, w, p), w, k);
    assert s.workers[w := p][w := q] == s.workers[w := q];
  }

  /** Two operations of w that only move w on. */
  lemma GoOnTwice(s: State, w: Worker, p: Pc, q: Pc, r: Pc, k: nat)
    requires k >= 2 && w in s.workers
    requires Perform(At(s, w, p), w) == Some(At(At(s, w, p), w, q))
    requires Perform(At(s, w, q), w) == Some(At(At(s, w, q), w, r))
    ensures Run(At(s, w, p), Goes(w, k)) == Run(At(s, w, r), Goes(w, k - 2))
  {
    GoOn(s, w, p, q, k);
    GoOn(s, w, q, r, k - 1);
  }

  /** A goroutine alone whose entry was published as (0, 0) finds its UPDATE missing ... */
  lemma MissFromZero(s: State, w: Worker, k: nat)
    requires w in s.workers && s.mem == Some(CovSeq(0, 0)) && RowValue(s) >= 1 && k >= 4
    ensures Run(At(s, w, LoadCurrent), Goes(w, k)) == Run(At(s, w, StoreReloaded(RowValue(s))), Goes(w, k - 4))
  {
    GoOnTwice(s, w, LoadCurrent, LoadWatermark(0), Decide(0, 0), k);
    GoOnTwice(s, w, Decide(0, 0), Reload, StoreReloaded(RowValue(s)), k - 2);
  }

  /** ... stores the reloaded watermark, and takes 1. */
  lemma TakeFirst(s: State, w: Worker, wm: nat, k: nat)
    requires w in s.workers && s.mem == Some(CovSeq(0, wm)) && wm >= 1 && k == 3
    ensures var end := Run(At(s, w, LoadCurrent), Goes(w, k));
      end.Some? && end.value.log == s.log + [Issue(s.epoch, w, 1, RowValue(s))]
  {
    GoOnTwice(s, w, LoadCurrent, LoadWatermark(0), Decide(0, wm), k);
    GoOnce(At(s, w, Decide(0, wm)), w, k - 2);
  }

  lemma ReloadFromZero(s: State, w: Worker, k: nat)
    requires w in s.workers && s.mem == Some(CovSeq(0, 0)) && RowValue(s) >= 1 && k == 8
    ensures var end := Run(At(s, w, LoadCurrent), Goes(w, k));
      end.Some? && end.value.log == s.log + [Issue(s.epoch, w, 1, RowValue(s))]
  {
    MissFromZero(s, w, k);
    var s1 := At(s, w, StoreReloaded(RowValue(s)));
    GoOnce(s1, w, k - 4);
    var s2 := s.(mem := Some(CovSeq(0, RowValue(s))));
    assert s1.workers[w := LoadCurrent] == s.workers[w := LoadCurrent];
    assert Perform(s1, w) == Some(At(s2, w, LoadCurrent));
    TakeFirst(s2, w, RowValue(s), k - 5);
  }

  /**
    The proviso is exact: once a seq is out, a failed read of the row makes the same call
    return 1, which is not above what was handed out before. (`SameSeqTwice` has a whole run.)
   */
  lemma FailedReadRewinds(s: State, w: Worker)
    requires Inv(s) && w in s.workers && s.workers[w] == LoadRow && s.log != []
    ensures var end := Run(s, [Fail(w)] + Goes(w, 9));
      end.Some? && |end.value.log| == |s.log| + 1 && end.value.log[|s.log|].n == 1 && !Increasing(end.value.log)
  {
    assert PcOk(s, w, LoadRow) && 1 <= s.log[0].n <= s.log[0].persisted <= RowValue(s);
    var s0 := PerformFailed(s, w).value;
    assert ([Fail(w)] + Goes(w, 9))[1..] == Goes(w, 9);
    GoOnce(s0, w, 9);
    var s1 := Perform(s0, w).value;
    assert s1.workers[w := LoadCurrent] == s1.workers;
    ReloadFromZero(s1, w, 8);
    var log := Run(s, [Fail(w)] + Goes(w, 9)).value.log;
    assert log[0].n >= log[|s.log|].n;
  }

  ghost predicate HandsOutOneTwice(s: State, actions: seq<Action>) {
    var end := Run(s, actions);
    end.Some? && |end.value.log| == 2 && end.value.log[0].n == 1 == end.value.log[1].n
  }

  lemma RewindsFromOne(s: State)
    requires Inv(s) && s.workers == map[0 := LoadRow] && s.log == [Issue(0, 0, 1, STRIDE)]
    ensures HandsOutOneTwice(s, [Fail(0)] + Goes(0, 9))
  {
    FailedReadRewinds(s, 0);
    RunLogGrows(s, [Fail(0)] + Goes(0, 9));
    hide Run;
    hide Inv;
    var end := Run(s, [Fail(0)] + Goes(0, 9)).value;
    assert end.log[..1] == s.log && end.log[0] == end.log[..1][0];
  }

  /** A run on which one failed read, right after a restart, has the code hand out seq 1 twice. */
  lemma SameSeqTwice()
    ensures exists s, actions :: Reachable(s) && HandsOutOneTwice(s, actions)
  {
    ReadAfterRestart();
    var s :| Reachable(s) && s.workers == map[0 := LoadRow] && s.log == [Issue(0, 0, 1, STRIDE)];
    var past :| Run(INITIAL, past) == Some(s) && AllBenign(INITIAL, past);
    RunKeepsInv(INITIAL, past);
    RewindsFromOne(s);
  }

  lemma {:induction false} RunLogGrows(s: State, actions: seq<Action>)
    requires Run(s, actions).Some?
    ensures var end := Run(s, actions).value; |s.log| <= |end.log| && end.log[..|s.log|] == s.log
    decreases |actions|
  {
    if actions != [] {
      StepLog(s, actions[0]);
      var s1 := Step(s, actions[0]).value;
      RunLogGrows(s1, actions[1..]);
      var end := Run(s, actions).value;
      assert end.log[..|s1.log|][..|s.log|] == end.log[..|s.log|];
    }
  }

  // ----- what the message pipeline needs -----

  /** The log only grows, by at most one entry per step, and only its own caller gets it. */
  lemma StepLog(s: State, a: Action)
    requires Step(s, a).Some?
    ensures var s' := Step(s, a).value;
      && (s'.log == s.log
        || (a.Go? && |s'.log| == |s.log| + 1 && s'.log[..|s.log|] == s.log && s'.log[|s.log|].worker == a.w))
      && (s'.stored == s.stored || a.Commit?)
  {
  }

  lemma StepRemembers(s: State, a: Action)
    requires Step(s, a).Some?
    ensures forall n :: Issued(s, n) ==> Issued(Step(s, a).value, n)
  {
    StepLog(s, a);
    var s' := Step(s, a).value;
    forall n | Issued(s, n) ensures Issued(s', n) {
      var i :| 0 <= i < |s.log| && s.log[i].n == n;
      assert s'.log[..|s.log|][i] == s.log[i] == s'.log[i];
    }
  }

  /** What one step hands out has never been handed out before. */
  lemma FreshlyIssued(s: State, s': State)
    requires Inv(s') && |s'.log| == |s.log| + 1 && s'.log[..|s.log|] == s.log
    ensures !Issued(s, s'.log[|s.log|].n) && Issued(s', s'.log[|s.log|].n)
    ensures forall n :: Issued(s, n) ==> Issued(s', n)
  {
    forall i | 0 <= i < |s.log| ensures s.log[i].n < s'.log[|s.log|].n && s'.log[i] == s.log[i] {
      assert s'.log[..|s.log|][i] == s.log[i];
    }
  }

  /** Committing messages whose seqs were handed out is harmless. */
  lemma StoredChanges(s: State, stored: set<nat>)
    requires Inv(s) && forall n :: n in stored ==> Issued(s, n)
    ensures Inv(s.(stored := stored))
  {
    var s' := s.(stored := stored);
    forall w | w in s'.workers ensures PcOk(s', w, s'.workers[w]) {
      PcFrame(s, s', w, s.workers[w]);
    }
    forall n | n in stored ensures Issued(s', n) {
      assert Issued(s, n);
    }
  }
}
