/**
  The router's verdict caches (internal/router/interceptors.go:119-316) with table query, caching,
  service call and invalidation as separate steps: where stale verdicts come from, and how long
  they last.
 */
module VerdictRace {
  import opened Options

  type Key = string
  type Handler = nat
  type Call = nat

  /** One minute, in milliseconds. */
  const TTL: nat := 60000

  /** A handler between its table query and the caching of the verdict; `read` is the step of the query. */
  datatype Probe = Probe(key: Key, allowed: bool, asked: int, read: nat)

  /** A cached verdict; the probe it came from and the step of its caching are history. */
  datatype Entry = Entry(probe: Probe, added: int, put: nat)

  /** A service call committed: when, and at which step. */
  datatype Change = Change(at: int, step: nat)

  datatype Pending = Pending(key: Key, step: nat)

  datatype State = State(
    allowed: set<Key>,                     // what the tables say
    cache: map<Key, Entry>,
    probes: map<Handler, Probe>,
    pending: map<Call, Pending>,           // committed, not invalidated yet
    now: int,
    // history
    steps: nat,
    changes: map<Key, Change>)             // the last commit about each key

  datatype Action =
    | Query(h: Handler, key: Key)          // a miss: the handler reads the table
    | Keep(h: Handler)                     // it caches the verdict
    | Drop(h: Handler)                     // it does not: signaling never caches a denial
    | Commit(c: Call, key: Key, allowed: bool)
    | Invalidate(c: Call)
    | Evict(key: Key)                      // the capacity, or an expired entry
    | Wait(ms: nat)
    | Crash

  function Initial(allowed: set<Key>, now: int): State {
    State(allowed, map[], map[], map[], now, 0, map[])
  }

  function Effect(s: State, a: Action): Option<State> {
    match a
    case Query(h, key) =>
      if h in s.probes then None else Some(s.(probes := s.probes[h := Probe(key, key in s.allowed, s.now, s.steps)]))
    case Keep(h) =>
      if h !in s.probes then None
      else
        var p := s.probes[h];
        Some(s.(cache := s.cache[p.key := Entry(p, s.now, s.steps)], probes := s.probes - {h}))
    case Drop(h) => if h !in s.probes then None else Some(s.(probes := s.probes - {h}))
    case Commit(c, key, allowed) =>
      if c in s.pending then None
      else
        Some(s.(allowed := if allowed then s.allowed + {key} else s.allowed - {key},
                pending := s.pending[c := Pending(key, s.steps)],
                changes := s.changes[key := Change(s.now, s.steps)]))
    case Invalidate(c) =>
      if c !in s.pending then None else Some(s.(cache := s.cache - {s.pending[c].key}, pending := s.pending - {c}))
    case Evict(key) => Some(s.(cache := s.cache - {key}))
    case Wait(ms) => Some(s.(now := s.now + ms))
    case Crash => Some(s.(cache := map[], probes := map[], pending := map[]))
  }

  function Step(s: State, a: Action): Option<State> {
    match Effect(s, a)
    case None => None
    case Some(s') => Some(s'.(steps := s.steps + 1))
  }

  function Run(s: State, actions: seq<Action>): Option<State>
    decreases |actions|
  {
    if actions == [] then Some(s)
    else
      match Step(s, actions[0])
      case None => None
      case Some(s') => Run(s', actions[1..])
  }

  /** What the cache answers now: an entry until one TTL after it was added. */
  function Answer(s: State, key: Key): Option<bool> {
    if key in s.cache && s.now <= s.cache[key].added + TTL then Some(s.cache[key].probe.allowed) else None
  }

  predicate Stale(s: State, key: Key) {
    Answer(s, key).Some? && Answer(s, key) != Some(key in s.allowed)
  }

  // ----- the invariant -----

  /** Read at or after the last change, a verdict is what the tables say. */
  ghost predicate ProbeOk(s: State, p: Probe) {
    && p.read < s.steps && p.asked <= s.now
    && (p.key in s.changes && p.read < s.changes[p.key].step ==> p.asked <= s.changes[p.key].at)
    && (!(p.key in s.changes && p.read < s.changes[p.key].step) ==> p.allowed == (p.key in s.allowed))
  }

  /** The last change of the key has not been followed by its invalidation yet. */
  ghost predicate Awaited(s: State, key: Key) {
    key in s.changes && exists c :: c in s.pending && s.pending[c] == Pending(key, s.changes[key].step)
  }

  ghost predicate EntryOk(s: State, key: Key, e: Entry) {
    && e.probe.key == key && ProbeOk(s, e.probe)
    && e.probe.read < e.put < s.steps && e.added <= s.now
    && (key in s.changes ==> e.put != s.changes[key].step)
    && (key in s.changes && e.put < s.changes[key].step ==> Awaited(s, key))
  }

  ghost predicate Inv(s: State) {
    && (forall k :: k in s.cache ==> EntryOk(s, k, s.cache[k]))
    && (forall h :: h in s.probes ==> ProbeOk(s, s.probes[h]))
    && (forall k :: k in s.changes ==> s.changes[k].step < s.steps && s.changes[k].at <= s.now)
  }

  lemma StepKeepsInv(s: State, a: Action)
    requires Inv(s) && Step(s, a).Some?
    ensures Inv(Step(s, a).value)
  {
    var s' := Step(s, a).value;
    forall h | h in s'.probes ensures ProbeOk(s', s'.probes[h]) {
      assert h in s.probes ==> ProbeOk(s, s.probes[h]);
    }
    forall k | k in s'.cache ensures EntryOk(s', k, s'.cache[k]) {
      EntryStays(s, a, k);
    }
  }

  lemma EntryStays(s: State, a: Action, k: Key)
    requires Inv(s) && Step(s, a).Some? && k in Step(s, a).value.cache
    ensures EntryOk(Step(s, a).value, k, Step(s, a).value.cache[k])
  {
    var s' := Step(s, a).value;
    if a.Keep? && k == s.probes[a.h].key {
      assert ProbeOk(s, s.probes[a.h]);
    } else {
      var e := s.cache[k];
      assert EntryOk(s, k, e);
      if a.Commit? && a.key == k {
        assert s'.pending[a.c] == Pending(k, s'.changes[k].step);
      } else if k in s.changes && e.put < s.changes[k].step {
        var c :| c in s.pending && s.pending[c] == Pending(k, s.changes[k].step);
        assert s'.pending[c] == s.pending[c];
      }
    }
  }

  lemma {:induction false} RunKeepsInv(s: State, actions: seq<Action>)
    requires Inv(s) && Run(s, actions).Some?
    ensures Inv(Run(s, actions).value)
    decreases |actions|
  {
    if actions != [] {
      StepKeepsInv(s, actions[0]);
      RunKeepsInv(Step(s, actions[0]).value, actions[1..]);
    }
  }

  // ----- where a stale verdict comes from -----

  /**
    On every run: a verdict served that is not what the tables say was read before the last change
    of its key, and either was cached after that change (the handler overlapped it), or the
    change is still to be invalidated; and it was cached at most one TTL ago.
   */
  lemma StaleOverlaps(allowed: set<Key>, now: int, actions: seq<Action>, key: Key)
    requires Run(Initial(allowed, now), actions).Some?
    ensures var s := Run(Initial(allowed, now), actions).value;
      Stale(s, key) ==>
        && key in s.cache && key in s.changes
        && var e := s.cache[key];
          && e.probe.read < s.changes[key].step
          && (s.changes[key].step < e.put || Awaited(s, key))
          && s.now <= e.added + TTL
  {
    RunKeepsInv(Initial(allowed, now), actions);
    var s := Run(Initial(allowed, now), actions).value;
    if Stale(s, key) {
      assert EntryOk(s, key, s.cache[key]);
    }
  }

  // ----- how long it can last -----

  /** No handler takes longer than `hold` between its query and the caching. */
  ghost predicate Prompt(s: State, actions: seq<Action>, hold: nat)
    decreases |actions|
  {
    actions != [] && Step(s, actions[0]).Some? ==>
      && (actions[0].Keep? && actions[0].h in s.probes ==> s.now <= s.probes[actions[0].h].asked + hold)
      && Prompt(Step(s, actions[0]).value, actions[1..], hold)
  }

  ghost predicate Held(s: State, hold: nat) {
    forall k :: k in s.cache ==> s.cache[k].added <= s.cache[k].probe.asked + hold
  }

  lemma StepKeepsHeld(s: State, a: Action, hold: nat)
    requires Held(s, hold) && Step(s, a).Some? && (a.Keep? && a.h in s.probes ==> s.now <= s.probes[a.h].asked + hold)
    ensures Held(Step(s, a).value, hold)
  {
  }

  lemma {:induction false} RunKeepsHeld(s: State, actions: seq<Action>, hold: nat)
    requires Held(s, hold) && Run(s, actions).Some? && Prompt(s, actions, hold)
    ensures Held(Run(s, actions).value, hold)
    decreases |actions|
  {
    if actions != [] {
      StepKeepsHeld(s, actions[0], hold);
      hide Step;
      RunKeepsHeld(Step(s, actions[0]).value, actions[1..], hold);
    }
  }

  /**
    If no handler sits on a verdict for longer than `hold`, every verdict served later than `hold`
    plus one TTL after the last change of its key is what the tables say, whatever becomes of
    the invalidations.
   */
  lemma StaleBounded(allowed: set<Key>, now: int, actions: seq<Action>, hold: nat, key: Key)
    requires Run(Initial(allowed, now), actions).Some? && Prompt(Initial(allowed, now), actions, hold)
    ensures var s := Run(Initial(allowed, now), actions).value;
      Stale(s, key) ==> key in s.changes && s.now <= s.changes[key].at + hold + 60000
  {
    RunKeepsInv(Initial(allowed, now), actions);
    RunKeepsHeld(Initial(allowed, now), actions, hold);
    var s := Run(Initial(allowed, now), actions).value;
    if Stale(s, key) {
      assert EntryOk(s, key, s.cache[key]);
    }
  }

  /**
    The bound is reached: a handler reads "allowed", the permission goes and is invalidated, the
    handler caches what it read `hold` later, and one TTL after that the cache still says so.
   */
  lemma StaleServed(key: Key, hold: nat)
    ensures exists actions :: Prompt(Initial({key}, 0), actions, hold) && Run(Initial({key}, 0), actions).Some?
              && ServedLate(Run(Initial({key}, 0), actions).value, key, hold)
  {
    var s0 := Initial({key}, 0);
    var s1 := Step(s0, Query(0, key)).value;
    var s2 := Step(s1, Commit(0, key, false)).value;
    var s3 := Step(s2, Invalidate(0)).value;
    var s4 := Step(s3, Wait(hold)).value;
    var s5 := Step(s4, Keep(0)).value;
    var s6 := Step(s5, Wait(TTL)).value;
    RunCons(s5, Wait(TTL), [], hold);
    RunCons(s4, Keep(0), [Wait(TTL)] + [], hold);
    RunCons(s3, Wait(hold), [Keep(0)] + ([Wait(TTL)] + []), hold);
    RunCons(s2, Invalidate(0), [Wait(hold)] + ([Keep(0)] + ([Wait(TTL)] + [])), hold);
    RunCons(s1, Commit(0, key, false), [Invalidate(0)] + ([Wait(hold)] + ([Keep(0)] + ([Wait(TTL)] + []))), hold);
    RunCons(s0, Query(0, key),
            [Commit(0, key, false)] + ([Invalidate(0)] + ([Wait(hold)] + ([Keep(0)] + ([Wait(TTL)] + [])))), hold);
    assert ServedLate(s6, key, hold);
  }

  ghost predicate ServedLate(s: State, key: Key, hold: nat) {
    Stale(s, key) && s.pending == map[] && key in s.changes && s.now == s.changes[key].at + hold + 60000
  }

  lemma RunCons(s: State, a: Action, rest: seq<Action>, hold: nat)
    requires Step(s, a).Some? && (a.Keep? && a.h in s.probes ==> s.now <= s.probes[a.h].asked + hold)
    ensures Run(s, [a] + rest) == Run(Step(s, a).value, rest)
    ensures Prompt(s, [a] + rest, hold) == Prompt(Step(s, a).value, rest, hold)
  {
    assert ([a] + rest)[1..] == rest;
  }
}
