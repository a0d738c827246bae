/**
  The per-user token bucket of the router (internal/router/interceptors.go:19-65), over real
  numbers: times are seconds and may go backwards.
 */
module RateLimiter {
  import opened Options

  const PER_SEC: real := 10.0
  const BURST: real := 20.0

  datatype Bucket = Bucket(tokens: real, last: real)

  /** One call at time `now` on a bucket: the bucket afterwards, and whether the call is granted. */
  function Call(b: Bucket, now: real): (Bucket, bool) {
    var elapsed := now - b.last;
    var filled :=
      if elapsed > 0.0 then
        var tokens := b.tokens + elapsed * PER_SEC;
        Bucket(if tokens > BURST then BURST else tokens, now)
      else b;
    if filled.tokens < 1.0 then (filled, false) else (filled.(tokens := filled.tokens - 1.0), true)
  }

  function New(now: real): Bucket {
    Bucket(BURST, now)
  }

  predicate BucketOk(b: Bucket) {
    0.0 <= b.tokens <= BURST
  }

  /** The bucket after a stretch of calls, and how many of them were granted. */
  function Calls(b: Bucket, times: seq<real>): (Bucket, nat) {
    if times == [] then (b, 0)
    else
      var end := |times| - 1;
      var (b1, n) := Calls(b, times[..end]);
      var (b2, granted) := Call(b1, times[end]);
      (b2, if granted then n + 1 else n)
  }

  /** Tokens only come from the clock: whatever is granted or left was there or has accrued. */
  lemma {:induction false} TokensConserved(b: Bucket, times: seq<real>)
    requires BucketOk(b)
    ensures var (b', n) := Calls(b, times);
      BucketOk(b') && b'.last >= b.last && n as real + b'.tokens <= b.tokens + PER_SEC * (b'.last - b.last)
  {
    if times != [] {
      var end := |times| - 1;
      TokensConserved(b, times[..end]);
      var (b1, n) := Calls(b, times[..end]);
      OneCall(b1, times[end]);
    }
  }

  lemma OneCall(b: Bucket, now: real)
    requires BucketOk(b)
    ensures var (b', granted) := Call(b, now);
      && BucketOk(b') && b'.last >= b.last
      && (if granted then 1.0 else 0.0) + b'.tokens <= b.tokens + PER_SEC * (b'.last - b.last)
  {
  }

  lemma {:induction false} CallsConcat(b: Bucket, xs: seq<real>, ys: seq<real>)
    ensures var (b1, n) := Calls(b, xs);
      var (b2, m) := Calls(b1, ys);
      Calls(b, xs + ys) == (b2, n + m)
  {
    if ys == [] {
      assert xs + ys == xs;
    } else {
      var end := |ys| - 1;
      CallsConcat(b, xs, ys[..end]);
      assert (xs + ys)[..|xs + ys| - 1] == xs + ys[..end];
    }
  }

  /**
    For any timestamps, even non-monotone: between any two calls of a user's run, at most 20 plus
    10 per second of bucket clock are granted.
   */
  lemma StretchBounded(start: real, times: seq<real>, i: nat, j: nat)
    requires i <= j <= |times|
    ensures var (bi, ni) := Calls(New(start), times[..i]);
      var (bj, nj) := Calls(New(start), times[..j]);
      && ni <= nj && bi.last <= bj.last
      && (nj - ni) as real <= 20.0 + 10.0 * (bj.last - bi.last)
      && BucketOk(bj)
  {
    TokensConserved(New(start), times[..i]);
    var (bi, ni) := Calls(New(start), times[..i]);
    TokensConserved(bi, times[i..j]);
    CallsConcat(New(start), times[..i], times[i..j]);
    assert times[..i] + times[i..j] == times[..j];
  }

  // ----- exactly which calls are refused -----

  /** The bucket clock: the latest time seen. */
  function Latest(start: real, times: seq<real>): real {
    if times == [] then start
    else
      var before := Latest(start, times[..|times| - 1]);
      if times[|times| - 1] > before then times[|times| - 1] else before
  }

  lemma {:induction false} ClockIsLatest(start: real, times: seq<real>)
    ensures Calls(New(start), times).0.last == Latest(start, times)
  {
    if times != [] {
      ClockIsLatest(start, times[..|times| - 1]);
    }
  }

  /** How many of the first i calls of a user are granted. */
  function Granted(start: real, times: seq<real>, i: nat): nat
    requires i <= |times|
  {
    Calls(New(start), times[..i]).1
  }

  /** How far the clock goes from call i to call j. */
  function Advance(start: real, times: seq<real>, i: nat, j: nat): real
    requires i <= j < |times|
  {
    Latest(start, times[..j + 1]) - Latest(start, times[..i + 1])
  }

  /** From call i up to call j, a bucket full at call i would have run dry. */
  ghost predicate RunsDry(start: real, times: seq<real>, i: nat, j: nat)
    requires i <= j < |times|
  {
    (Granted(start, times, j) - Granted(start, times, i)) as real > 19.0 + 10.0 * Advance(start, times, i, j)
  }

  ghost predicate Overdrawn(start: real, times: seq<real>, j: nat)
    requires j < |times|
  {
    exists i: nat :: i <= j && RunsDry(start, times, i, j)
  }

  /** What call j finds in the bucket. */
  function Found(start: real, times: seq<real>, j: nat): real
    requires j < |times|
  {
    var (b, granted) := Call(Calls(New(start), times[..j]).0, times[j]);
    b.tokens + if granted then 1.0 else 0.0
  }

  /** Call j finds what a bucket full at call i has left. */
  ghost predicate FullAt(start: real, times: seq<real>, i: nat, j: nat)
    requires i <= j < |times|
  {
    Found(start, times, j) ==
      20.0 + 10.0 * Advance(start, times, i, j) - (Granted(start, times, j) - Granted(start, times, i)) as real
  }

  lemma OneMore(start: real, times: seq<real>, j: nat)
    requires j < |times|
    ensures var (b, n) := Calls(New(start), times[..j]);
      var (b', granted) := Call(b, times[j]);
      && Calls(New(start), times[..j + 1]) == (b', n + if granted then 1 else 0)
      && b.last == Latest(start, times[..j]) && b'.last == Latest(start, times[..j + 1])
      && (granted <==> Found(start, times, j) >= 1.0)
      && Granted(start, times, j + 1) == Granted(start, times, j) + (if granted then 1 else 0)
  {
    assert times[..j + 1][..j] == times[..j];
    ClockIsLatest(start, times[..j]);
    ClockIsLatest(start, times[..j + 1]);
  }

  /** From one call to the next, tokens accrue with the clock, up to 20. */
  lemma NextFound(start: real, times: seq<real>, j: nat)
    requires j + 1 < |times|
    ensures var left := Found(start, times, j) - (Granted(start, times, j + 1) - Granted(start, times, j)) as real;
      var filled := left + 10.0 * Advance(start, times, j, j + 1);
      && Found(start, times, j + 1) == (if filled > 20.0 then 20.0 else filled)
      && Latest(start, times[..j + 2]) >= Latest(start, times[..j + 1])
  {
    OneMore(start, times, j);
    OneMore(start, times, j + 1);
    TokensConserved(New(start), times[..j + 1]);
  }

  lemma FirstFound(start: real, times: seq<real>)
    requires times != []
    ensures Found(start, times, 0) == 20.0 && FullAt(start, times, 0, 0)
  {
    assert times[..0] == [];
  }

  /** A bucket holds no more than one that was full at call i would. */
  lemma {:induction false} FoundAtMost(start: real, times: seq<real>, i: nat, j: nat)
    requires i <= j < |times|
    ensures Found(start, times, j) <=
      20.0 + 10.0 * Advance(start, times, i, j) - (Granted(start, times, j) - Granted(start, times, i)) as real
    decreases j
  {
    if i < j {
      FoundAtMost(start, times, i, j - 1);
      NextFound(start, times, j - 1);
      AdvanceSplits(start, times, i, j);
      hide Granted;
      hide Found;
      hide Advance;
    } else if j == 0 {
      FirstFound(start, times);
    } else {
      NextFound(start, times, j - 1);
    }
  }

  lemma AdvanceSplits(start: real, times: seq<real>, i: nat, j: nat)
    requires i < j < |times|
    ensures Advance(start, times, i, j) == Advance(start, times, i, j - 1) + Advance(start, times, j - 1, j)
    ensures Advance(start, times, j, j) == 0.0
  {
  }

  /** It was full at some call, and what it holds now is what is left since. */
  lemma {:induction false} FoundExactly(start: real, times: seq<real>, j: nat) returns (i: nat)
    requires j < |times|
    ensures i <= j && FullAt(start, times, i, j)
    decreases j
  {
    if j == 0 {
      FirstFound(start, times);
      i := 0;
    } else {
      i := FoundExactly(start, times, j - 1);
      NextFound(start, times, j - 1);
      AdvanceSplits(start, times, i, j);
      hide Granted;
      hide Found;
      hide Advance;
      if Found(start, times, j) == 20.0 {
        i := j;
      }
    }
  }

  /**
    Exactly which calls are refused, without any bucket: call j of a user, at whatever times, is
    refused when and only when from some earlier call i on more than 19 plus 10 per second of
    clock have been granted.
   */
  lemma RefusalLaw(start: real, times: seq<real>, j: nat)
    requires j < |times|
    ensures Granted(start, times, j + 1) == Granted(start, times, j) <==> Overdrawn(start, times, j)
    ensures Granted(start, times, j + 1) == Granted(start, times, j) ||
      Granted(start, times, j + 1) == Granted(start, times, j) + 1
  {
    OneMore(start, times, j);
    var k := FoundExactly(start, times, j);
    forall i: nat | i <= j && RunsDry(start, times, i, j) ensures Found(start, times, j) < 1.0 {
      FoundAtMost(start, times, i, j);
    }
    if Found(start, times, j) < 1.0 {
      assert RunsDry(start, times, k, j);
    }
  }

  lemma LastRefused(start: real, before: seq<real>, now: real)
    ensures Calls(New(start), before + [now]).1 == Calls(New(start), before).1 <==>
      Overdrawn(start, before + [now], |before|)
  {
    var times := before + [now];
    assert times[..|before|] == before && times[..|before| + 1] == times;
    hide Calls;
    hide Overdrawn;
    assert Granted(start, times, |before|) == Calls(New(start), before).1;
    assert Granted(start, times, |before| + 1) == Calls(New(start), times).1;
    hide Granted;
    RefusalLaw(start, times, |before|);
  }

  /** A call 100 ms or more after the bucket clock is granted. */
  lemma PatienceGranted(b: Bucket, now: real)
    requires BucketOk(b) && now - b.last >= 0.1
    ensures Call(b, now).1
  {
  }

  /** The refusals are real: with the tokens used up, a call at the same instant is refused. */
  lemma {:induction false} BurstExhausted(start: real, times: seq<real>)
    requires forall i :: 0 <= i < |times| ==> times[i] == start
    ensures Calls(New(start), times).1 == if |times| <= 20 then |times| else 20
    ensures Calls(New(start), times).0 == Bucket(BURST - Calls(New(start), times).1 as real, start)
  {
    if times != [] {
      BurstExhausted(start, times[..|times| - 1]);
    }
  }

  class Limiter {
    var buckets: map<string, Bucket>
    ghost var calls: map<string, seq<real>>          // the times of every user's calls so far

    /** Every bucket is what its user's calls have made of a full one. */
    ghost predicate Valid()
      reads this
    {
      && buckets.Keys == calls.Keys
      && forall u :: u in buckets ==> calls[u] != [] && buckets[u] == Calls(New(calls[u][0]), calls[u]).0
    }

    constructor ()
      ensures Valid() && buckets == map[] && calls == map[] && fresh(this)
    {
      buckets, calls := map[], map[];
    }

    ghost function Times(u: string): seq<real>
      reads this
    {
      if u in calls then calls[u] else []
    }

    /** The refill and the attempt to take a token. */
    static method RefillAndTake(bucket: Bucket, now: real) returns (b: Bucket, granted: bool)
      ensures (b, granted) == Call(bucket, now)
    {
      b := bucket;
      var elapsed := now - b.last;
      if elapsed > 0.0 {
        b := Bucket(b.tokens + elapsed * PER_SEC, now);
        if b.tokens > BURST {
          b := b.(tokens := BURST);
        }
      }
      if b.tokens < 1.0 {
        return b, false;
      }
      b := b.(tokens := b.tokens - 1.0);
      granted := true;
    }

    /** allowAt: touches one user's bucket, created full on the first call. */
    method AllowAt(u: string, now: real) returns (granted: bool)
      requires Valid()
      modifies this
      ensures Valid() && calls == old(calls)[u := old(Times(u)) + [now]]
      ensures granted == (Calls(New(calls[u][0]), calls[u]).1 > Calls(New(calls[u][0]), old(Times(u))).1)
      ensures !granted <==> Overdrawn(calls[u][0], calls[u], |calls[u]| - 1)
      ensures forall v :: v != u && v in old(buckets) ==> v in buckets && buckets[v] == old(buckets)[v]
    {
      hide Overdrawn;
      hide Call;
      ghost var before := Times(u);
      var b := if u in buckets then buckets[u] else New(now);
      ghost var first := if u in buckets then before[0] else now;
      assert b == Calls(New(first), before).0;
      assert (before + [now])[..|before|] == before;
      b, granted := RefillAndTake(b, now);
      LastRefused(first, before, now);
      buckets := buckets[u := b];
      calls := calls[u := before + [now]];
      assert calls[u][0] == first;
    }
  }
}
