/**
  A database table whose rows carry a pair of key columns: what SELECT, UPDATE and COUNT over the
  key do to it. The relationship tables (`friendships`, `group_members`) are of this kind: the key
  columns have a unique index, and rows are marked as deleted and revived, not removed.
 */
module KeyedTable {
  import opened Options

  datatype Row<V> = Row(a: string, b: string, v: V)

  predicate SameKey<V>(r: Row<V>, a: string, b: string) {
    r.a == a && r.b == b
  }

  /** At most one row per key, soft-deleted rows included. */
  ghost predicate Distinct<V>(t: seq<Row<V>>) {
    forall i, j :: 0 <= i < j < |t| ==> !SameKey(t[i], t[j].a, t[j].b)
  }

  /** SELECT ... WHERE a = ? AND b = ? LIMIT 1. */
  function Find<V>(t: seq<Row<V>>, a: string, b: string): (v: Option<V>)
    ensures v.None? <==> forall i :: 0 <= i < |t| ==> !SameKey(t[i], a, b)
    ensures v.Some? ==> exists i :: 0 <= i < |t| && t[i] == Row(a, b, v.value)
  {
    if t == [] then None
    else if SameKey(t[0], a, b) then Some(t[0].v)
    else
      var v := Find(t[1..], a, b);
      assert forall i :: 0 < i < |t| ==> t[i] == t[1..][i - 1];
      assert forall i :: 0 <= i < |t[1..]| ==> t[1..][i] == t[i + 1];
      v
  }

  /** UPDATE ... SET v = ? WHERE a = ? AND b = ?. */
  function Update<V>(t: seq<Row<V>>, a: string, b: string, v: V): (t': seq<Row<V>>)
    ensures |t'| == |t|
    ensures forall i :: 0 <= i < |t| ==> t'[i] == if SameKey(t[i], a, b) then Row(a, b, v) else t[i]
  {
    seq(|t|, i requires 0 <= i < |t| => if SameKey(t[i], a, b) then Row(a, b, v) else t[i])
  }

  lemma FoundAt<V>(t: seq<Row<V>>, i: nat)
    requires Distinct(t) && i < |t|
    ensures Find(t, t[i].a, t[i].b) == Some(t[i].v)
  {
    var v := Find(t, t[i].a, t[i].b);
    var j :| 0 <= j < |t| && t[j] == Row(t[i].a, t[i].b, v.value);
    assert !(j < i) && !(i < j);
  }

  lemma UpdateFinds<V>(t: seq<Row<V>>, a: string, b: string, v: V)
    requires Distinct(t)
    ensures Distinct(Update(t, a, b, v))
    ensures forall x, y :: Find(Update(t, a, b, v), x, y) ==
              if x == a && y == b && Find(t, a, b).Some? then Some(v) else Find(t, x, y)
  {
    var t' := Update(t, a, b, v);
    forall x, y ensures Find(t', x, y) == if x == a && y == b && Find(t, a, b).Some? then Some(v) else Find(t, x, y) {
      if Find(t, x, y).Some? {
        var i :| 0 <= i < |t| && t[i] == Row(x, y, Find(t, x, y).value);
        FoundAt(t', i);
      } else {
        assert forall i :: 0 <= i < |t'| ==> !SameKey(t'[i], x, y);
      }
    }
  }

  lemma InsertFinds<V>(t: seq<Row<V>>, a: string, b: string, v: V)
    requires Distinct(t) && Find(t, a, b).None?
    ensures Distinct(t + [Row(a, b, v)])
    ensures forall x, y :: Find(t + [Row(a, b, v)], x, y) == if x == a && y == b then Some(v) else Find(t, x, y)
  {
    var t' := t + [Row(a, b, v)];
    forall x, y ensures Find(t', x, y) == if x == a && y == b then Some(v) else Find(t, x, y) {
      if x == a && y == b {
        FoundAt(t', |t|);
      } else if Find(t, x, y).Some? {
        var i :| 0 <= i < |t| && t[i] == Row(x, y, Find(t, x, y).value);
        assert t'[i] == t[i];
        FoundAt(t', i);
      } else {
        assert forall i :: 0 <= i < |t'| ==> !SameKey(t'[i], x, y);
      }
    }
  }

  /** SELECT COUNT(*) ... WHERE a = ? AND (condition on the other columns). */
  function Count<V>(t: seq<Row<V>>, a: string, p: V -> bool): (n: nat)
    ensures n <= |t|
  {
    if t == [] then 0
    else
      var last := t[|t| - 1];
      Count(t[..|t| - 1], a, p) + if last.a == a && p(last.v) then 1 else 0
  }

  lemma CountAppend<V>(t: seq<Row<V>>, r: Row<V>, a: string, p: V -> bool)
    ensures Count(t + [r], a, p) == Count(t, a, p) + if r.a == a && p(r.v) then 1 else 0
  {
    assert (t + [r])[..|t|] == t;
  }

  /** Rows whose key or verdict does not change do not change the count. */
  lemma {:induction false} CountSame<V>(t: seq<Row<V>>, t': seq<Row<V>>, a: string, p: V -> bool)
    requires |t| == |t'|
    requires forall i :: 0 <= i < |t| ==> t[i].a == t'[i].a && (t[i].a == a ==> (p(t[i].v) <==> p(t'[i].v)))
    ensures Count(t, a, p) == Count(t', a, p)
  {
    if t != [] {
      CountSame(t[..|t| - 1], t'[..|t| - 1], a, p);
    }
  }

  lemma FindInit<V>(t: seq<Row<V>>, a: string, b: string)
    requires Distinct(t) && Find(t, a, b).Some? && !SameKey(t[|t| - 1], a, b)
    ensures Distinct(t[..|t| - 1]) && Find(t[..|t| - 1], a, b) == Find(t, a, b)
  {
    var init := t[..|t| - 1];
    var i :| 0 <= i < |t| && t[i] == Row(a, b, Find(t, a, b).value);
    assert init[i] == t[i];
    FoundAt(init, i);
  }

  lemma UpdateInit<V>(t: seq<Row<V>>, a: string, b: string, v: V)
    requires t != []
    ensures var last := |t| - 1;
      Update(t, a, b, v) == Update(t[..last], a, b, v) + [if SameKey(t[last], a, b) then Row(a, b, v) else t[last]]
  {
  }

  lemma CountSnoc<V>(init: seq<Row<V>>, row: Row<V>, a: string, p: V -> bool)
    ensures Count(init + [row], a, p) == Count(init, a, p) + if row.a == a && p(row.v) then 1 else 0
  {
    assert (init + [row])[..|init|] == init;
  }

  /** An update of one row changes the count by what it does to that row. */
  lemma {:induction false} CountUpdate<V>(t: seq<Row<V>>, a: string, b: string, v: V, p: V -> bool)
    requires Distinct(t) && Find(t, a, b).Some?
    ensures Count(Update(t, a, b, v), a, p) + (if p(Find(t, a, b).value) then 1 else 0)
      == Count(t, a, p) + if p(v) then 1 else 0
  {
    var last := |t| - 1;
    var init := t[..last];
    assert t == init + [t[last]];
    UpdateInit(t, a, b, v);
    CountSnoc(init, t[last], a, p);
    CountSnoc(Update(init, a, b, v), if SameKey(t[last], a, b) then Row(a, b, v) else t[last], a, p);
    if SameKey(t[last], a, b) {
      FoundAt(t, last);
      CountSame(Update(init, a, b, v), init, a, p);
    } else {
      FindInit(t, a, b);
      hide *;
      CountUpdate(init, a, b, v, p);
    }
  }

  lemma {:induction false} CountZero<V>(t: seq<Row<V>>, a: string, p: V -> bool)
    requires forall i :: 0 <= i < |t| && t[i].a == a ==> !p(t[i].v)
    ensures Count(t, a, p) == 0
  {
    if t != [] {
      CountZero(t[..|t| - 1], a, p);
    }
  }

  // ----- insert or update -----

  /** Writes the row of a key, inserting it when there is none. */
  function Upsert<V>(t: seq<Row<V>>, a: string, b: string, v: V): seq<Row<V>> {
    if Find(t, a, b).None? then t + [Row(a, b, v)] else Update(t, a, b, v)
  }

  lemma UpsertFinds<V>(t: seq<Row<V>>, a: string, b: string, v: V)
    requires Distinct(t)
    ensures Distinct(Upsert(t, a, b, v))
    ensures forall x, y :: Find(Upsert(t, a, b, v), x, y) == if x == a && y == b then Some(v) else Find(t, x, y)
  {
    if Find(t, a, b).None? { InsertFinds(t, a, b, v); } else { UpdateFinds(t, a, b, v); }
  }

  lemma UpsertCounts<V>(t: seq<Row<V>>, a: string, b: string, v: V, p: V -> bool)
    requires Distinct(t)
    ensures forall x :: x != a ==> Count(Upsert(t, a, b, v), x, p) == Count(t, x, p)
    ensures var was := Find(t, a, b);
      Count(Upsert(t, a, b, v), a, p) + (if was.Some? && p(was.value) then 1 else 0)
        == Count(t, a, p) + if p(v) then 1 else 0
  {
    if Find(t, a, b).None? {
      forall x ensures Count(t + [Row(a, b, v)], x, p) == Count(t, x, p) + if x == a && p(v) then 1 else 0 {
        CountAppend(t, Row(a, b, v), x, p);
      }
    } else {
      CountUpdate(t, a, b, v, p);
      forall x | x != a ensures Count(Update(t, a, b, v), x, p) == Count(t, x, p) {
        CountSame(t, Update(t, a, b, v), x, p);
      }
    }
  }
}
