/**
  The hand-rolled TTL-LRU of the router (internal/router/interceptors.go:119-202): a list of
  keys, most recently used first, and an index from keys to verdicts, both updated in place.
  The ghost list of all verdicts ever added says where an entry comes from: what is in the cache was
  added under that key, and expires one TTL after that.
 */
module VerdictCache {
  import opened Options

  datatype Entry = Entry(allowed: bool, expires: int)

  /** A verdict as it was added: key, verdict, time. */
  datatype Verdict = Verdict(key: string, allowed: bool, at: int)

  function Remove(ll: seq<string>, key: string): (r: seq<string>)
    ensures forall k :: k in r ==> k in ll
  {
    if ll == [] then [] else if ll[0] == key then ll[1..] else [ll[0]] + Remove(ll[1..], key)
  }

  ghost predicate NoRepeats(ll: seq<string>) {
    forall i, j :: 0 <= i < j < |ll| ==> ll[i] != ll[j]
  }

  /** The list has the keys of the index, each once. */
  ghost predicate Indexed(ll: seq<string>, items: map<string, Entry>) {
    NoRepeats(ll) && forall k :: k in ll <==> k in items
  }

  lemma {:induction false} Removed(ll: seq<string>, key: string)
    requires NoRepeats(ll)
    ensures NoRepeats(Remove(ll, key)) && forall k :: k in Remove(ll, key) <==> k in ll && k != key
    ensures |Remove(ll, key)| == if key in ll then |ll| - 1 else |ll|
  {
    if ll != [] {
      Removed(ll[1..], key);
      assert ll == [ll[0]] + ll[1..];
      assert ll[0] !in ll[1..];
    }
  }

  lemma MovedIndexed(ll: seq<string>, items: map<string, Entry>, key: string)
    requires Indexed(ll, items) && key in items
    ensures Indexed([key] + Remove(ll, key), items) && |[key] + Remove(ll, key)| == |ll|
  {
    Removed(ll, key);
  }

  lemma RemovedIndexed(ll: seq<string>, items: map<string, Entry>, key: string)
    requires Indexed(ll, items)
    ensures Indexed(Remove(ll, key), items - {key}) && |Remove(ll, key)| <= |ll|
  {
    Removed(ll, key);
  }

  /** Every entry is one that was added, expiring one TTL later. */
  ghost predicate Added(items: map<string, Entry>, adds: seq<Verdict>, ttl: nat) {
    forall k :: k in items ==> Verdict(k, items[k].allowed, items[k].expires - ttl) in adds
  }

  lemma AddedOne(items: map<string, Entry>, adds: seq<Verdict>, ttl: nat, key: string, allowed: bool, now: int)
    requires Added(items, adds, ttl)
    ensures Added(items[key := Entry(allowed, now + ttl)], adds + [Verdict(key, allowed, now)], ttl)
  {
    var v := Verdict(key, allowed, now);
    assert (adds + [v])[|adds|] == v;
  }

  lemma AddedFewer(items: map<string, Entry>, fewer: map<string, Entry>, adds: seq<Verdict>, ttl: nat)
    requires Added(items, adds, ttl) && forall k :: k in fewer ==> k in items && fewer[k] == items[k]
    ensures Added(fewer, adds, ttl)
  {
  }

  /** What a lookup finds, if anything. */
  predicate Hit(items: map<string, Entry>, key: string, now: int) {
    key in items && now <= items[key].expires
  }

  class Cache {
    const cap: nat
    const ttl: nat
    var ll: seq<string>
    var items: map<string, Entry>
    ghost var adds: seq<Verdict>          // every verdict ever added

    /** List and index agree, the capacity holds, and the entries are genuine. */
    ghost predicate Valid()
      reads this
    {
      Indexed(ll, items) && |ll| <= cap && cap > 0 && ttl > 0 && Added(items, adds, ttl)
    }

    constructor (cap: nat, ttl: nat)
      requires cap > 0 && ttl > 0
      ensures Valid() && ll == [] && items == map[] && adds == [] && fresh(this) && this.cap == cap && this.ttl == ttl
    {
      this.cap, this.ttl, ll, items, adds := cap, ttl, [], map[], [];
    }

    /** A hit is an unexpired entry, and becomes the most recent one; an expired entry is dropped. */
    method Get(key: string, now: int) returns (hit: Option<bool>)
      requires Valid()
      modifies this`ll, this`items
      ensures Valid()
      ensures hit == if key in old(items) && now <= old(items)[key].expires then Some(old(items)[key].allowed) else None
      ensures items == if hit.Some? then old(items) else old(items) - {key}
      ensures ll == if hit.Some? then [key] + Remove(old(ll), key) else Remove(old(ll), key)
      ensures hit.Some? ==> exists at :: Verdict(key, hit.value, at) in adds && now <= at + ttl
    {
      if key !in items || now > items[key].expires {
        Invalidate(key);
        return None;
      }
      var e := items[key];
      assert Verdict(key, e.allowed, e.expires - ttl) in adds;
      MovedIndexed(ll, items, key);
      ll := [key] + Remove(ll, key);
      return Some(e.allowed);
    }

    method Invalidate(key: string)
      requires Valid()
      modifies this`ll, this`items
      ensures Valid()
      ensures items == old(items) - {key} && ll == Remove(old(ll), key)
    {
      hide Indexed;
      RemovedIndexed(ll, items, key);
      ll := Remove(ll, key);
      items := items - {key};
    }

    /** The key becomes the most recent; beyond the capacity the least recent keys go. */
    method Add(key: string, allowed: bool, now: int)
      requires Valid()
      modifies this
      ensures Valid() && adds == old(adds) + [Verdict(key, allowed, now)]
      ensures var all := [key] + Remove(old(ll), key); ll == if |all| <= cap then all else all[..cap]
      ensures forall k :: k in items <==> k in ll
      ensures key in items && items[key] == Entry(allowed, now + ttl)
      ensures forall k :: k in items && k != key ==> k in old(items) && items[k] == old(items)[k]
    {
      hide Indexed;
      hide Added;
      AddedOne(items, adds, ttl, key, allowed, now);
      adds := adds + [Verdict(key, allowed, now)];
      Put(key, Entry(allowed, now + ttl));
      Evict();
      assert ll[0] == key;
      AddedFewer(old(items)[key := Entry(allowed, now + ttl)], items, adds, ttl);
    }

    /** Overwrites the entry or makes one, at the front. */
    method Put(key: string, e: Entry)
      requires Indexed(ll, items)
      modifies this`ll, this`items
      ensures Indexed(ll, items) && ll == [key] + Remove(old(ll), key) && items == old(items)[key := e]
    {
      if key in items {
        MovedIndexed(ll, items, key);
      } else {
        PushedIndexed(ll, items, key, e);
      }
      ll := [key] + Remove(ll, key);
      items := items[key := e];
    }

    /** Keys go from the back while there are too many. */
    method Evict()
      requires Indexed(ll, items)
      modifies this`ll, this`items
      ensures Indexed(ll, items) && ll == if |old(ll)| <= cap then old(ll) else old(ll)[..cap]
      ensures forall k :: k in ll <==> k in items
      ensures forall k :: k in items ==> k in old(items) && items[k] == old(items)[k]
    {
      hide NoRepeats;
      hide Indexed;
      while |ll| > cap
        invariant Indexed(ll, items) && |ll| <= |old(ll)| && ll == old(ll)[..|ll|]
        invariant |old(ll)| <= cap ==> ll == old(ll)
        invariant |old(ll)| > cap ==> |ll| >= cap
        invariant forall k :: k in items ==> k in old(items) && items[k] == old(items)[k]
        decreases |ll|
      {
        var back := ll[|ll| - 1];
        Shorter(ll, items);
        assert old(ll)[..|ll|][..|ll| - 1] == old(ll)[..|ll| - 1];
        ll := ll[..|ll| - 1];
        items := items - {back};
      }
      InIndex(ll, items);
    }
  }

  lemma PushedIndexed(ll: seq<string>, items: map<string, Entry>, key: string, e: Entry)
    requires Indexed(ll, items) && key !in items
    ensures Indexed([key] + Remove(ll, key), items[key := e])
  {
    NothingToRemove(ll, key);
  }

  lemma {:induction false} NothingToRemove(ll: seq<string>, key: string)
    requires key !in ll
    ensures Remove(ll, key) == ll
  {
    if ll != [] {
      NothingToRemove(ll[1..], key);
    }
  }

  lemma InIndex(ll: seq<string>, items: map<string, Entry>)
    requires Indexed(ll, items)
    ensures forall k :: k in ll <==> k in items
  {
  }

  lemma Shorter(ll: seq<string>, items: map<string, Entry>)
    requires Indexed(ll, items) && ll != []
    ensures Indexed(ll[..|ll| - 1], items - {ll[|ll| - 1]})
  {
    var end := |ll| - 1;
    forall k | k in items - {ll[end]} ensures k in ll[..end] {
      var i :| 0 <= i < |ll| && ll[i] == k;
      assert ll[..end][i] == k;
    }
  }
}
