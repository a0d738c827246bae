/**
  The field iterator of nanopb (proto/nanopb/pb_common.c:122-154, 188-244) over a message
  descriptor, that is, over its tags in ascending order.
 */
module FieldIter {

  ghost predicate Ascending(tags: seq<nat>) {
    forall i, j :: 0 <= i < j < |tags| ==> tags[i] < tags[j]
  }

  lemma NotAfter(tags: seq<nat>, start: nat, t: nat)
    requires Ascending(tags) && start < |tags| && t < tags[start]
    ensures forall j :: start <= j < |tags| ==> tags[j] != t
  {
  }

  lemma NotAtAll(tags: seq<nat>, t: nat)
    requires Ascending(tags) && tags != [] && t > tags[|tags| - 1]
    ensures t !in tags
  {
    forall j | 0 <= j < |tags| ensures tags[j] != t {
      assert j < |tags| - 1 ==> tags[j] < tags[|tags| - 1];
    }
  }

  /** The tags still to be looked at between the cursor and the starting point. */
  ghost predicate Unseen(tags: seq<nat>, start: nat, index: nat, wrapped: bool, t: nat) {
    && start < |tags| && index <= |tags| && tags[start] != t
    && (!wrapped ==> start <= index < |tags| && forall j :: start < j <= index ==> tags[j] != t)
    && (wrapped ==> forall j :: start < j < |tags| ==> tags[j] != t)
    && (wrapped && index < |tags| ==> index < start && forall j :: 0 <= j <= index ==> tags[j] != t)
  }

  lemma SeeNext(tags: seq<nat>, start: nat, index: nat, wrapped: bool, t: nat)
    requires Unseen(tags, start, index, wrapped, t)
    ensures var next := if index + 1 >= |tags| then 0 else index + 1;
      && (tags[next] != t && next != start ==> Unseen(tags, start, next, wrapped || index + 1 >= |tags|, t))
      && (tags[next] != t && next == start ==> t !in tags)
  {
  }

  class Iterator {
    const tags: seq<nat>
    var index: nat
    var tag: nat          // loaded from the descriptor at `index`

    ghost predicate Valid()
      reads this
    {
      Ascending(tags) && index < |tags| && tag == tags[index]
    }

    constructor (tags: seq<nat>)
      requires tags != [] && Ascending(tags)
      ensures Valid() && this.tags == tags && index == 0 && fresh(this)
    {
      this.tags := tags;
      this.index := 0;
      this.tag := tags[0];
    }

    /** advance_iterator: does not load the descriptor. */
    method Advance()
      requires index <= |tags| && tags != []
      modifies this`index
      ensures index == if old(index) + 1 >= |tags| then 0 else old(index) + 1
    {
      index := index + 1;
      if index >= |tags| {
        index := 0;
      }
    }

    /** pb_field_iter_next: false when it has wrapped to the first field. */
    method Next() returns (more: bool)
      requires Valid()
      modifies this
      ensures Valid()
      ensures more == (old(index) + 1 < |tags|) && index == if more then old(index) + 1 else 0
    {
      Advance();
      tag := tags[index];
      more := index != 0;
    }

    /**
      pb_field_iter_find: from wherever the iterator stands, the field with this tag is found
      exactly when there is one; otherwise the iterator ends where it started.
     */
    method Find(t: nat) returns (found: bool)
      requires Valid()
      modifies this
      ensures Valid()
      ensures found == (t in tags)
      ensures if found then tag == t else index == old(index)
    {
      if tag == t {
        return true;
      }
      if t > tags[|tags| - 1] {
        NotAtAll(tags, t);
        return false;
      }
      var start := index;
      ghost var wrapped := t < tag;
      if t < tag {
        NotAfter(tags, start, t);
        index := |tags|;
      }
      hide Ascending;
      while true
        invariant Ascending(tags) && Unseen(tags, start, index, wrapped, t)
        decreases if !wrapped then |tags| - index + start else if index == |tags| then start + 1 else start - index
      {
        SeeNext(tags, start, index, wrapped, t);
        wrapped := wrapped || index + 1 >= |tags|;
        Advance();
        // the descriptor word holds the low six bits of the tag
        if tags[index] % 64 == t % 64 {
          tag := tags[index];
          if tag == t {
            return true;
          }
        }
        if index == start {
          break;
        }
      }
      tag := tags[index];
      return false;
    }
  }
}
