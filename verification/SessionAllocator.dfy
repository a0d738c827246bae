/**
  The allocator object of internal/logic/session/allocator.go with its map of counters and the
  tables it reads and writes, run by one caller at a time: every operation of its code is a step
  of the machine in `Allocator`, so what the machine promises for all interleavings holds for it.
 */
module SessionAllocator {
  import opened Options
  import A = Allocator
  import M = Messages

  /** The calling goroutine. */
  const ME: A.Worker := 0

  /** The caller is at this point of Allocate. */
  ghost predicate Here(s: A.State, pc: A.Pc) {
    s.workers == map[ME := pc]
  }

  ghost predicate Reaches(s0: A.State, trace: seq<A.Action>, s: A.State) {
    A.Run(s0, trace) == Some(s) && A.Inv(s)
  }

  /** One more operation of the caller. */
  lemma Moves(s0: A.State, trace: seq<A.Action>, s: A.State, a: A.Action)
    requires Reaches(s0, trace, s) && A.Step(s, a).Some? && A.Benign(s, a)
    ensures Reaches(s0, trace + [a], A.Step(s, a).value)
  {
    A.RunSnoc(s0, trace, a);
    A.StepKeepsInv(s, a);
  }

  /** The last operation of getOrCreate without a row. */
  lemma CreateStep(from: A.State, fails: bool)
    requires Here(from, A.CreateFresh)
    ensures var a := if fails then A.Fail(ME) else A.Go(ME);
      && A.Benign(from, a) && A.Step(from, a).Some?
      && var s := A.Step(from, a).value;
        && Here(s, A.LoadCurrent) && s.lock.None? && s.mem == Some(A.CovSeq(0, 0))
        && s.row == (if fails || from.row.Some? then from.row else Some(0))
        && s.stored == from.stored && s.log == from.log && s.epoch == from.epoch
  {
  }

  /** What a call that returns r adds to the log. */
  function Issues(s0: A.State, s: A.State, r: Option<nat>): seq<A.Issue> {
    match r case None => [] case Some(n) => [A.Issue(s0.epoch, ME, n, A.RowValue(s))]
  }

  /** Which of the SQL statements of a call fail, should the call get to them. */
  datatype Faults = Faults(
    row: bool,                             // getOrCreate: SELECT the conversation row
    maximum: bool,                         // getOrCreate: SELECT MAX(seq)
    create: bool,                          // getOrCreate: EnsureConversation
    update: bool,                          // the conditional UPDATE of the watermark
    reload: bool,                          // SELECT the row again, after the UPDATE missed
    ensure: bool)                          // EnsureConversation, after the row was missing

  /**
    Which calls fail, given the counters and the row at the top of the retry loop: those that have used up
    what is reserved and whose UPDATE fails, or misses without the row being read or created then.
   */
  predicate Errs(e: A.CovSeq, row: Option<nat>, f: Faults) {
    && e.current >= e.watermark
    && (f.update || (row != Some(e.watermark) && (f.reload || (row.None? && f.ensure))))
  }

  class SessionAllocator {
    var rows: map<string, nat>               // conversations: cov_id to current_watermark
    var messages: M.Table
    var seqs: map<string, A.CovSeq>
    ghost var convs: map<string, A.State>    // the machine of every conversation seen so far

    ghost function Conv(cov: string): A.State
      reads this`convs
    {
      if cov in convs then convs[cov] else A.INITIAL
    }

    function Row(cov: string): Option<nat>
      reads this`rows
    {
      if cov in rows then Some(rows[cov]) else None
    }

    function Mem(cov: string): Option<A.CovSeq>
      reads this`seqs
    {
      if cov in seqs then Some(seqs[cov]) else None
    }

    /** Between calls: tables and counters are those of the machine, nobody is inside Allocate. */
    ghost predicate Sound(cov: string)
      reads this
    {
      A.Inv(Conv(cov)) && Conv(cov).workers == map[] && Conv(cov).lock.None? && Tracks(cov, Conv(cov))
    }

    ghost predicate Valid()
      reads this
    {
      forall cov :: Sound(cov)
    }

    /** During a call, for the conversation it is about. */
    ghost predicate Tracks(cov: string, s: A.State)
      reads this`rows, this`seqs, this`messages
    {
      s.row == Row(cov) && s.mem == Mem(cov) && s.stored == M.SeqsOf(messages, cov)
    }

    /** The counters a call works with, and the row by then. */
    ghost function Opened(cov: string, f: Faults): (A.CovSeq, Option<nat>)
      reads this`rows, this`seqs, this`messages
    {
      if cov in seqs then (seqs[cov], Row(cov))
      else if cov in rows && !f.row then
        ((if f.maximum then RowOnly(cov) else Loaded(cov)).value, Row(cov))
      else (A.CovSeq(0, 0), if cov in rows || f.create then Row(cov) else Some(0))
    }

    constructor ()
      ensures Valid() && rows == map[] && messages == [] && seqs == map[] && convs == map[]
    {
      rows, messages, seqs, convs := map[], [], map[], map[];
      new;
      assert M.SeqsOf(messages, "") == {};
      assert forall cov :: M.SeqsOf([], cov) == {};
      assert A.Inv(A.INITIAL);
    }

    /** MAX(seq) of a conversation. */
    method MaxSeq(cov: string) returns (m: Option<nat>)
      ensures m == A.MaxOf(M.SeqsOf(messages, cov))
    {
      m := None;
      var i := 0;
      while i < |messages|
        invariant 0 <= i <= |messages|
        invariant m.None? ==> forall j :: 0 <= j < i ==> messages[j].cov != cov
        invariant m.Some? ==>
          m.value in M.SeqsOf(messages, cov)
          && forall j :: 0 <= j < i && messages[j].cov == cov ==> messages[j].n <= m.value
      {
        if messages[i].cov == cov && (m.None? || messages[i].n > m.value) {
          m := Some(messages[i].n);
        }
        i := i + 1;
      }
    }

    /** EnsureConversation. */
    method EnsureConversation(cov: string)
      modifies this`rows
      ensures rows == if cov in old(rows) then old(rows) else old(rows)[cov := 0]
    {
      if cov !in rows {
        rows := rows[cov := 0];
      }
    }

    /** The caller is at this point of getOrCreate and holds the lock. */
    ghost predicate Loading(cov: string, s0: A.State, trace: seq<A.Action>, s: A.State, pc: A.Pc)
      reads this`rows, this`seqs, this`messages
    {
      && Reaches(s0, trace, s) && Here(s, pc) && s.lock == Some(ME) && Tracks(cov, s) && cov !in seqs
      && s.log == s0.log && s.epoch == s0.epoch
    }

    /** The next operation, which fails or not. */
    ghost method Next(s0: A.State, trace0: seq<A.Action>, from: A.State, fails: bool)
      returns (s: A.State, trace: seq<A.Action>)
      requires Reaches(s0, trace0, from)
      requires var a := if fails then A.Fail(ME) else A.Go(ME); A.Step(from, a).Some? && A.Benign(from, a)
      ensures A.Step(from, if fails then A.Fail(ME) else A.Go(ME)) == Some(s) && Reaches(s0, trace, s)
    {
      var a := if fails then A.Fail(ME) else A.Go(ME);
      Moves(s0, trace0, from, a);
      s, trace := A.Step(from, a).value, trace0 + [a];
    }

    /** Up to the read of the row, or to the end of getOrCreate when the entry is there. */
    ghost method Enter(cov: string, s0: A.State) returns (s: A.State, trace: seq<A.Action>)
      requires A.Inv(s0) && s0.workers == map[] && s0.lock.None? && Tracks(cov, s0)
      ensures if cov in seqs then At(cov, s0, trace, s, A.LoadCurrent) else Loading(cov, s0, trace, s, A.LoadRow)
    {
      hide A.Inv;
      assert A.Run(s0, []) == Some(s0);
      hide A.Run;
      Moves(s0, [], s0, A.Begin(ME));
      s, trace := A.Step(s0, A.Begin(ME)).value, [] + [A.Begin(ME)];
      s, trace := Next(s0, trace, s, false);
      if cov !in seqs {
        s, trace := Next(s0, trace, s, false);
      }
    }

    /** The row was read: the entry starts at max(watermark, MAX(seq)), at the watermark if MAX(seq) cannot be read. */
    method LoadEntry(cov: string, faults: Faults, ghost s0: A.State, ghost trace0: seq<A.Action>, ghost from: A.State)
      returns (ghost s: A.State, ghost trace: seq<A.Action>)
      requires Loading(cov, s0, trace0, from, A.LoadRow) && !faults.row && cov in rows
      modifies this`seqs
      ensures At(cov, s0, trace, s, A.LoadCurrent) && OthersSame(cov) && seqs[cov] == old(Opened(cov, faults).0)
    {
      hide A.Inv;
      hide A.Run;
      hide Reaches;
      hide M.SeqsOf;
      hide A.MaxOf;
      s, trace := Next(s0, trace0, from, false);
      var maxSeq := None;
      if !faults.maximum {
        maxSeq := MaxSeq(cov);
      }
      if maxSeq.Some? && maxSeq.value > rows[cov] {
        seqs := seqs[cov := A.CovSeq(maxSeq.value, maxSeq.value)];
      } else {
        seqs := seqs[cov := A.CovSeq(rows[cov], rows[cov])];
      }
      s, trace := Next(s0, trace, s, faults.maximum);
    }

    /** There is no row, or it could not be read. */
    ghost method FindNone(cov: string, faults: Faults, s0: A.State, trace0: seq<A.Action>, from: A.State)
      returns (s: A.State, trace: seq<A.Action>)
      requires Loading(cov, s0, trace0, from, A.LoadRow) && (faults.row || cov !in rows)
      requires faults.row ==> s0.log == []
      ensures Loading(cov, s0, trace, s, A.CreateFresh)
    {
      hide A.Inv;
      hide A.Run;
      hide Reaches;
      s, trace := Next(s0, trace0, from, faults.row);
    }

    /** Then the entry starts at 0, whether a row could be created or not. */
    method CreateEntry(cov: string, faults: Faults, ghost s0: A.State, ghost trace0: seq<A.Action>, ghost from: A.State)
      returns (ghost s: A.State, ghost trace: seq<A.Action>)
      requires Loading(cov, s0, trace0, from, A.LoadRow) && (faults.row || cov !in rows)
      requires faults.row ==> s0.log == []
      modifies this`rows, this`seqs
      ensures At(cov, s0, trace, s, A.LoadCurrent) && OthersSame(cov)
      ensures (seqs[cov], Row(cov)) == old(Opened(cov, faults))
    {
      hide A.Inv;
      hide A.Run;
      hide Reaches;
      hide M.SeqsOf;
      hide A.MaxOf;
      s, trace := FindNone(cov, faults, s0, trace0, from);
      CreateStep(s, faults.create);
      hide A.Step;
      hide A.Benign;
      hide Here;
      if !faults.create {
        EnsureConversation(cov);
      }
      seqs := seqs[cov := A.CovSeq(0, 0)];
      s, trace := Next(s0, trace, s, faults.create);
    }

    /**
      getOrCreate: the entry in memory, loaded or created on first use. The machine runs from the
      call to the top of the retry loop; nothing is handed out.
     */
    method GetOrCreate(cov: string, faults: Faults, ghost s0: A.State)
      returns (ghost s: A.State, ghost trace: seq<A.Action>)
      requires A.Inv(s0) && s0.workers == map[] && s0.lock.None? && Tracks(cov, s0)
      requires faults.row && cov !in seqs ==> s0.log == []
      modifies this`rows, this`seqs
      ensures At(cov, s0, trace, s, A.LoadCurrent) && OthersSame(cov)
      ensures (seqs[cov], Row(cov)) == old(Opened(cov, faults))
    {
      s, trace := Enter(cov, s0);
      hide A.Inv;
      hide Reaches;
      hide Here;
      if cov in seqs {
        return;
      }
      if !faults.row && cov in rows {
        s, trace := LoadEntry(cov, faults, s0, trace, s);
      } else {
        s, trace := CreateEntry(cov, faults, s0, trace, s);
      }
    }

    /** How far the watermark in memory is from the one on disk: an upper bound on the retries. */
    ghost function Distance(cov: string): nat
      requires cov in seqs
      reads this`rows, this`seqs
    {
      if cov !in rows then 2 else if rows[cov] != seqs[cov].watermark then 1 else 0
    }

    /** What a call must leave behind. */
    ghost predicate Returned(cov: string, s0: A.State, trace: seq<A.Action>, s: A.State, r: Option<nat>)
      reads this`rows, this`seqs, this`messages
    {
      && Reaches(s0, trace, s) && s.workers == map[] && s.lock.None? && Tracks(cov, s)
      && s.log == s0.log + Issues(s0, s, r)
    }

    /** The caller is at this point of Allocate; nothing has been handed out yet. */
    ghost predicate At(cov: string, s0: A.State, trace: seq<A.Action>, s: A.State, pc: A.Pc)
      reads this`rows, this`seqs, this`messages
    {
      Reaches(s0, trace, s) && Here(s, pc) && s.lock.None? && Tracks(cov, s) && cov in seqs && s.log == s0.log
        && s.epoch == s0.epoch
    }

    /** Other conversations are untouched. */
    twostate predicate OthersSame(cov: string)
      reads this
    {
      forall c :: c != cov ==> Row(c) == old(Row(c)) && Mem(c) == old(Mem(c))
    }

    /** The two loads at the top of the retry loop. */
    method Peek(cov: string, ghost s0: A.State, ghost trace0: seq<A.Action>, ghost from: A.State)
      returns (cur: nat, wm: nat, ghost s: A.State, ghost trace: seq<A.Action>)
      requires At(cov, s0, trace0, from, A.LoadCurrent)
      ensures At(cov, s0, trace, s, A.Decide(cur, wm)) && seqs[cov] == A.CovSeq(cur, wm)
    {
      hide A.Inv;
      cur := seqs[cov].current;
      Moves(s0, trace0, from, A.Go(ME));
      s, trace := A.Step(from, A.Go(ME)).value, trace0 + [A.Go(ME)];
      wm := seqs[cov].watermark;
      Moves(s0, trace, s, A.Go(ME));
      s, trace := A.Step(s, A.Go(ME)).value, trace + [A.Go(ME)];
    }

    /** The conditional UPDATE hits: the row first, then the counter in memory. */
    method Extend(cov: string, cur: nat, wm: nat, ghost s0: A.State, ghost trace0: seq<A.Action>, ghost from: A.State)
      returns (ghost s: A.State, ghost trace: seq<A.Action>)
      requires At(cov, s0, trace0, from, A.Decide(cur, wm)) && cur + 1 > wm && Row(cov) == Some(wm)
      modifies this`rows, this`seqs
      ensures At(cov, s0, trace, s, A.SwapExtended(cur)) && seqs[cov].current == old(seqs[cov].current)
        && OthersSame(cov)
    {
      hide A.Inv;
      rows := rows[cov := wm + A.STRIDE];
      Moves(s0, trace0, from, A.Go(ME));
      s, trace := A.Step(from, A.Go(ME)).value, trace0 + [A.Go(ME)];
      seqs := seqs[cov := seqs[cov].(watermark := wm + A.STRIDE)];
      Moves(s0, trace, s, A.Go(ME));
      s, trace := A.Step(s, A.Go(ME)).value, trace + [A.Go(ME)];
    }

    /** The conditional UPDATE misses. */
    ghost method Miss(cov: string, cur: nat, wm: nat, s0: A.State, trace0: seq<A.Action>, from: A.State)
      returns (s: A.State, trace: seq<A.Action>)
      requires At(cov, s0, trace0, from, A.Decide(cur, wm)) && cur + 1 > wm && Row(cov) != Some(wm)
      ensures At(cov, s0, trace, s, A.Reload)
    {
      hide A.Inv;
      hide A.Run;
      s, trace := Next(s0, trace0, from, false);
    }

    /** The row is read again. */
    ghost method Reread(cov: string, s0: A.State, trace0: seq<A.Action>, from: A.State)
      returns (s: A.State, trace: seq<A.Action>)
      requires At(cov, s0, trace0, from, A.Reload)
      ensures At(cov, s0, trace, s, if cov in rows then A.StoreReloaded(rows[cov]) else A.Ensure)
    {
      hide A.Inv;
      hide A.Run;
      s, trace := Next(s0, trace0, from, false);
    }

    method TakeOver(cov: string, ghost s0: A.State, ghost trace0: seq<A.Action>, ghost from: A.State)
      returns (ghost s: A.State, ghost trace: seq<A.Action>)
      requires cov in rows && At(cov, s0, trace0, from, A.StoreReloaded(rows[cov]))
      modifies this`seqs
      ensures At(cov, s0, trace, s, A.LoadCurrent) && OthersSame(cov)
      ensures seqs[cov] == A.CovSeq(old(seqs[cov].current), rows[cov])
    {
      hide A.Inv;
      hide A.Run;
      Moves(s0, trace0, from, A.Go(ME));
      s, trace := A.Step(from, A.Go(ME)).value, trace0 + [A.Go(ME)];
      seqs := seqs[cov := seqs[cov].(watermark := rows[cov])];
    }

    method CreateMissing(cov: string, ghost s0: A.State, ghost trace0: seq<A.Action>, ghost from: A.State)
      returns (ghost s: A.State, ghost trace: seq<A.Action>)
      requires cov !in rows && At(cov, s0, trace0, from, A.Ensure)
      modifies this`rows
      ensures At(cov, s0, trace, s, A.LoadCurrent) && cov in rows && rows[cov] == 0 && OthersSame(cov)
    {
      hide A.Inv;
      hide A.Run;
      Moves(s0, trace0, from, A.Go(ME));
      s, trace := A.Step(from, A.Go(ME)).value, trace0 + [A.Go(ME)];
      EnsureConversation(cov);
    }

    /** Take over the row's watermark, or create the row; then try again, unless a statement failed. */
    method Reload(cov: string, faults: Faults, cur: nat, wm: nat,
                  ghost s0: A.State, ghost trace0: seq<A.Action>, ghost from: A.State)
      returns (ok: bool, ghost s: A.State, ghost trace: seq<A.Action>)
      requires At(cov, s0, trace0, from, A.Decide(cur, wm)) && cur + 1 > wm && Row(cov) != Some(wm)
        && seqs[cov].watermark == wm
      modifies this`rows, this`seqs
      ensures cov in seqs && OthersSame(cov) && seqs[cov].current == old(seqs[cov].current)
      ensures ok ==> At(cov, s0, trace, s, A.LoadCurrent) && Distance(cov) < old(Distance(cov))
      ensures ok <==> !faults.reload && (old(Row(cov)).Some? || !faults.ensure)
      ensures ok ==> Row(cov) == Some(seqs[cov].watermark)
      ensures !ok ==> Returned(cov, s0, trace, s, None)
    {
      BelowRow(s0, trace0, from);
      hide Reaches;
      hide Here;
      s, trace := Miss(cov, cur, wm, s0, trace0, from);
      if faults.reload {
        s, trace := GiveUp(cov, A.Reload, s0, trace, s);
        return false, s, trace;
      }
      s, trace := Reread(cov, s0, trace, s);
      if cov in rows {
        s, trace := TakeOver(cov, s0, trace, s);
      } else if faults.ensure {
        s, trace := GiveUp(cov, A.Ensure, s0, trace, s);
        return false, s, trace;
      } else {
        s, trace := CreateMissing(cov, s0, trace, s);
      }
      ok := true;
    }

    /** The compare-and-swap, which nobody else can spoil here. */
    method Swap(cov: string, cur: nat, ghost pc: A.Pc, ghost s0: A.State, ghost trace0: seq<A.Action>,
      ghost from: A.State)
      returns (r: Option<nat>, ghost s: A.State, ghost trace: seq<A.Action>)
      requires At(cov, s0, trace0, from, pc) && seqs[cov].current == cur
      requires pc == A.SwapExtended(cur) || exists wm :: pc == A.Decide(cur, wm) && cur + 1 <= wm
      modifies this`seqs
      ensures r == Some(cur + 1) && Returned(cov, s0, trace, s, r) && OthersSame(cov)
    {
      hide A.Inv;
      Moves(s0, trace0, from, A.Go(ME));
      s, trace := A.Step(from, A.Go(ME)).value, trace0 + [A.Go(ME)];
      seqs := seqs[cov := seqs[cov].(current := cur + 1)];
      r := Some(cur + 1);
    }

    /** A statement of the retry loop fails: an error, and nothing changes. */
    ghost method GiveUp(cov: string, pc: A.Pc, s0: A.State, trace0: seq<A.Action>, from: A.State)
      returns (s: A.State, trace: seq<A.Action>)
      requires At(cov, s0, trace0, from, pc) && ((pc.Decide? && pc.cur + 1 > pc.wm) || pc.Reload? || pc.Ensure?)
      ensures Returned(cov, s0, trace, s, None)
    {
      hide A.Inv;
      hide A.Run;
      s, trace := Next(s0, trace0, from, true);
    }

    /** The retry loop of Allocate. */
    method Retry(cov: string, faults: Faults, ghost s0: A.State, ghost trace0: seq<A.Action>, ghost from: A.State)
      returns (r: Option<nat>, ghost s: A.State, ghost trace: seq<A.Action>)
      requires At(cov, s0, trace0, from, A.LoadCurrent)
      modifies this`rows, this`seqs
      ensures Returned(cov, s0, trace, s, r) && OthersSame(cov)
      ensures r == if old(Errs(seqs[cov], Row(cov), faults)) then None else Some(old(seqs[cov].current) + 1)
    {
      hide Reaches;
      hide Here;
      s, trace := from, trace0;
      while true
        invariant At(cov, s0, trace, s, A.LoadCurrent) && OthersSame(cov)
        invariant seqs[cov].current == old(seqs[cov].current)
        invariant Errs(seqs[cov], Row(cov), faults) == old(Errs(seqs[cov], Row(cov), faults))
        decreases Distance(cov)
      {
        var cur, wm;
        cur, wm, s, trace := Peek(cov, s0, trace, s);
        var next := cur + 1;
        if next > wm {
          if faults.update {
            s, trace := GiveUp(cov, A.Decide(cur, wm), s0, trace, s);
            return None, s, trace;
          }
          if cov !in rows || rows[cov] != wm {
            var ok;
            ok, s, trace := Reload(cov, faults, cur, wm, s0, trace, s);
            if !ok {
              return None, s, trace;
            }
            continue;
          }
          s, trace := Extend(cov, cur, wm, s0, trace, s);
          r, s, trace := Swap(cov, cur, A.SwapExtended(cur), s0, trace, s);
          return;
        }
        r, s, trace := Swap(cov, cur, A.Decide(cur, wm), s0, trace, s);
        return;
      }
    }

    /** The watermark in memory never exceeds the one on disk. */
    lemma BelowRow(s0: A.State, trace: seq<A.Action>, s: A.State)
      requires Reaches(s0, trace, s)
      ensures s.mem.Some? ==> s.mem.value.watermark <= A.RowValue(s)
    {
    }

    /**
      Allocate: the call is a run of the machine of its conversation, by one goroutine, that hands out the
      seq after the counter's, or ends with an error exactly when a statement it needs fails; other
      conversations are untouched. A failed read of the row is harmless only before the first seq.
     */
    method Allocate(cov: string, faults: Faults) returns (r: Option<nat>)
      requires Valid()
      requires faults.row && cov !in seqs ==> Conv(cov).log == []
      modifies this
      ensures Valid() && messages == old(messages)
      ensures exists trace :: A.Run(old(Conv(cov)), trace) == Some(Conv(cov))
      ensures Conv(cov).log == old(Conv(cov)).log + Issues(old(Conv(cov)), Conv(cov), r)
      ensures var (e, row) := old(Opened(cov, faults));
        r == if Errs(e, row, faults) then None else Some(e.current + 1)
      ensures r.Some? ==>
        cov in rows && 1 <= r.value <= rows[cov]
        && forall i :: 0 <= i < |old(Conv(cov)).log| ==> old(Conv(cov)).log[i].n < r.value
      ensures r.Some? ==> A.Issued(Conv(cov), r.value) && forall n :: n in M.SeqsOf(messages, cov) ==> n < r.value
      ensures OthersSame(cov) && forall c :: c != cov ==> Conv(c) == old(Conv(c))
    {
      hide A.Inv;
      hide A.Issued;
      hide A.Run;
      ghost var s0 := Conv(cov);
      assert Sound(cov);
      ghost var s, trace;
      s, trace := GetOrCreate(cov, faults, s0);
      r, s, trace := Retry(cov, faults, s0, trace, s);
      convs := convs[cov := s];
      assert Conv(cov) == s && A.Run(s0, trace) == Some(s);
      forall c ensures Sound(c) {
        if c != cov {
          assert old(Sound(c)) && Conv(c) == old(Conv(c)) && Row(c) == old(Row(c)) && Mem(c) == old(Mem(c));
        }
      }
      if r.Some? {
        IssuedAbove(s0, s, r.value);
        AboveStored(s0, s, r.value);
      }
    }

    /** Committed messages have seqs that were handed out before. */
    lemma AboveStored(s0: A.State, s: A.State, n: nat)
      requires A.Inv(s0) && s.log == s0.log + [A.Issue(s0.epoch, ME, n, A.RowValue(s))]
      requires forall i :: 0 <= i < |s0.log| ==> s0.log[i].n < n
      ensures A.Issued(s, n) && forall k :: k in s0.stored ==> k < n
    {
      assert s.log[|s0.log|].n == n;
      forall k | k in s0.stored ensures k < n {
        assert A.Issued(s0, k);
      }
    }

    /** What the machine promises of the last seq handed out. */
    lemma IssuedAbove(s0: A.State, s: A.State, n: nat)
      requires A.Inv(s) && s.log == s0.log + [A.Issue(s0.epoch, ME, n, A.RowValue(s))]
      ensures 1 <= n <= A.RowValue(s) && s.row.Some? && forall i :: 0 <= i < |s0.log| ==> s0.log[i].n < n
    {
      var end := |s0.log|;
      assert s.log[end].n == n;
      forall i | 0 <= i < end ensures s0.log[i].n < n {
        assert s.log[i] == s0.log[i];
      }
    }

    /** The writer commits a message under a seq that was handed out. */
    method Commit(m: M.Message)
      requires Valid() && A.Issued(Conv(m.cov), m.n)
      modifies this`messages, this`convs
      ensures Valid() && messages == old(messages) + [m]
      ensures forall c :: Conv(c).log == old(Conv(c).log)
    {
      hide A.Inv;
      hide A.Issued;
      ghost var s := Conv(m.cov);
      assert Sound(m.cov);
      CommittedSeqs(messages, m);
      CommitKeepsInv(s, m.n);
      messages := messages + [m];
      convs := convs[m.cov := s.(stored := s.stored + {m.n})];
      forall c ensures Sound(c) {
        assert old(Sound(c));
      }
    }

    lemma CommittedSeqs(t: M.Table, m: M.Message)
      ensures forall c :: M.SeqsOf(t + [m], c) == M.SeqsOf(t, c) + if c == m.cov then {m.n} else {}
    {
      forall c ensures M.SeqsOf(t + [m], c) == M.SeqsOf(t, c) + if c == m.cov then {m.n} else {} {
        var t' := t + [m];
        forall n | n in M.SeqsOf(t', c) ensures n in M.SeqsOf(t, c) + (if c == m.cov then {m.n} else {}) {
          var i :| 0 <= i < |t'| && t'[i].cov == c && t'[i].n == n;
          if i < |t| { assert t[i] == t'[i]; }
        }
        forall n | n in M.SeqsOf(t, c) + (if c == m.cov then {m.n} else {}) ensures n in M.SeqsOf(t', c) {
          if n in M.SeqsOf(t, c) {
            var i :| 0 <= i < |t| && t[i].cov == c && t[i].n == n;
            assert t'[i] == t[i];
          } else {
            assert t'[|t|] == m;
          }
        }
      }
    }

    lemma CommitKeepsInv(s: A.State, n: nat)
      requires A.Inv(s) && A.Issued(s, n)
      ensures A.Inv(s.(stored := s.stored + {n}))
    {
      A.StepKeepsInv(s, A.Commit(n));
    }

    // ----- restart -----

    /** The conversations that have messages. */
    function Covs(): set<string>
      reads this`messages
    {
      set i | 0 <= i < |messages| :: messages[i].cov
    }

    /** LoadAll's first loop: an entry for every row. */
    method LoadRows()
      requires seqs == map[]
      modifies this`seqs
      ensures forall c :: Mem(c) == RowOnly(c)
    {
      var todo := rows.Keys;
      while todo != {}
        invariant todo <= rows.Keys
        invariant forall c :: Mem(c) == if c in rows && c !in todo then Some(A.CovSeq(rows[c], rows[c])) else None
        decreases |todo|
      {
        var c :| c in todo;
        seqs := seqs[c := A.CovSeq(rows[c], rows[c])];
        todo := todo - {c};
      }
    }

    /** An entry raised to the greatest committed seq. */
    method Raise(c: string)
      requires c in Covs() && Mem(c) == RowOnly(c)
      modifies this`seqs
      ensures Mem(c) == Loaded(c) && forall d :: d != c ==> Mem(d) == old(Mem(d))
    {
      HasMessages(c);
      var m := MaxSeq(c);
      if c in seqs {
        var cs := seqs[c];
        if m.value > cs.current {
          cs := cs.(current := m.value);
        }
        if m.value > cs.watermark {
          cs := cs.(watermark := m.value);
        }
        seqs := seqs[c := cs];
      } else {
        seqs := seqs[c := A.CovSeq(m.value, m.value)];
      }
    }

    lemma NoMessages(c: string)
      ensures c !in Covs() ==> M.SeqsOf(messages, c) == {} && Loaded(c) == RowOnly(c)
    {
      if c !in Covs() {
        assert M.SeqsOf(messages, c) == {};
      }
    }

    /** LoadAll's second loop: no counter stays below MAX(seq) of its conversation. */
    method LoadMaxima()
      requires forall c :: Mem(c) == RowOnly(c)
      modifies this`seqs
      ensures forall c :: Mem(c) == Loaded(c)
    {
      hide A.MaxOf;
      hide Loaded;
      var todo := Covs();
      while todo != {}
        invariant todo <= Covs()
        invariant forall c :: Mem(c) == if c in Covs() && c !in todo then Loaded(c) else RowOnly(c)
        decreases |todo|
      {
        var c :| c in todo;
        Raise(c);
        todo := todo - {c};
      }
      forall c ensures Mem(c) == Loaded(c) {
        NoMessages(c);
      }
    }

    lemma HasMessages(c: string)
      requires c in Covs()
      ensures A.MaxOf(M.SeqsOf(messages, c)).Some?
    {
      var i :| 0 <= i < |messages| && messages[i].cov == c;
      assert messages[i].n in M.SeqsOf(messages, c);
    }

    /** max(watermark, MAX(seq)), where there is either. */
    ghost function Loaded(c: string): Option<A.CovSeq>
      reads this`rows, this`messages
    {
      match A.MaxOf(M.SeqsOf(messages, c))
      case None => RowOnly(c)
      case Some(m) =>
        var row := if c in rows then rows[c] else 0;
        var top := if m > row then m else row;
        Some(A.CovSeq(top, top))
    }

    /** A new process over the same tables: an empty map, then LoadAll, whose failure is not fatal. */
    method Restart(rowsFail: bool, maxFail: bool)
      requires Valid()
      modifies this
      ensures Valid() && rows == old(rows) && messages == old(messages)
      ensures var preload := if rowsFail then A.Nothing else if maxFail then A.RowsOnly else A.Complete;
        forall c :: c in old(convs) ==> A.Step(old(Conv(c)), A.Restart(preload)) == Some(Conv(c))
    {
      hide A.Inv;
      ghost var preload := if rowsFail then A.Nothing else if maxFail then A.RowsOnly else A.Complete;
      ghost var before := convs;
      assert forall c :: Sound(c);
      seqs := map[];
      if !rowsFail {
        LoadRows();
        if !maxFail {
          LoadMaxima();
        }
      }
      assert forall c ::
               Mem(c) == (match preload case Nothing => None case RowsOnly => RowOnly(c) case Complete => Loaded(c));
      convs := map c | c in before :: A.Restarted(before[c], preload);
      forall c ensures Sound(c) {
        assert old(Sound(c));
        if c in before {
          A.RestartKeepsInv(before[c], preload);
        } else {
          assert Conv(c) == A.INITIAL && M.SeqsOf(messages, c) == {};
        }
      }
    }

    function RowOnly(c: string): Option<A.CovSeq>
      reads this`rows
    {
      if c in rows then Some(A.CovSeq(rows[c], rows[c])) else None
    }
  }
}
