/** The circular list of list.h with its pool of preallocated elements. */
module ListPool {

  type Data = nat  // a pointer; NULL is 0

  datatype PreStatus = Unused | Used | Malloc

  const LIST_PREALLOC_SIZE: nat := 64

  class Element {
    var preStatus: PreStatus
    var prev: Element?
    var next: Element?
    var data: Data

    /** Zeroed memory. */
    constructor ()
      ensures preStatus == Unused && prev == null && next == null && data == 0
    {
      preStatus, prev, next, data := Unused, null, null, 0;
    }
  }

  ghost predicate Distinct(s: seq<Element>) {
    forall i, j | 0 <= i < j < |s| :: s[i] != s[j]
  }

  class List {
    const pool: seq<Element>         // element_prealloc_buf
    ghost const slots: set<Element>  // the same as a set
    var count: int                   // element_prealloc_count
    ghost var ring: seq<Element>     // head and elements in order; empty before the first append
    ghost var live: set<Element>     // the same as a set
    ghost var contents: seq<Data>

    ghost function Nodes(): set<Element>
      reads `live
    {
      slots + live
    }

    ghost predicate PoolOk() {
      && |pool| == LIST_PREALLOC_SIZE && |slots| == LIST_PREALLOC_SIZE && Distinct(pool)
      && (forall i | 0 <= i < |pool| :: pool[i] in slots)
      && (forall e | e in slots :: exists i | 0 <= i < |pool| :: pool[i] == e)
    }

    /** The ring closes in both directions through the head. */
    ghost predicate RingOk()
      reads `ring, `contents, `live, live`next, live`prev, live`data
    {
      && ring != [] && pool != [] && ring[0] == pool[0] && Distinct(ring) && |contents| == |ring| - 1
      && |live| == |ring| && (forall i | 0 <= i < |ring| :: ring[i] in live)
      && (forall i {:trigger ring[i].next} | 0 <= i < |ring| - 1 :: ring[i].next == ring[i + 1])
      && (forall i {:trigger ring[i].prev} | 1 <= i < |ring| :: ring[i].prev == ring[i - 1])
      && ring[|ring| - 1].next == ring[0] && ring[0].prev == ring[|ring| - 1]
      && (forall i {:trigger ring[i].data} | 1 <= i < |ring| :: ring[i].data == contents[i - 1])
    }

    /** Pool slots in use are marked used, all others are free, elements from outside the pool come
        from malloc, and the counter counts the used slots. */
    ghost predicate StatusOk(inUse: set<Element>)
      reads `count, (slots + inUse)`preStatus
    {
      && (forall e | e in slots :: e.preStatus == if e in inUse then Used else Unused)
      && (forall e | e in inUse && e !in slots :: e.preStatus == Malloc)
      && count == |slots * inUse|
    }

    ghost predicate Valid()
      reads this, Nodes()
    {
      && PoolOk()
      && (ring == [] ==> pool[0].next == null && contents == [] && live == {})
      && (ring != [] ==> RingOk() && StatusOk(live))
    }

    constructor ()
      ensures Valid() && ring == [] && fresh(Nodes())
    {
      var p, q := ZeroedPool();
      pool, slots, count, ring, live, contents := p, q, 0, [], {}, [];
    }

    // ----- the ring -----

    /** Link an element before the head, that is at the end. */
    method LinkLast(box: Element, x: Data)
      requires RingOk() && box !in live
      modifies box`next, box`prev, box`data, Nodes()`next, Nodes()`prev, `ring, `live, `contents
      ensures RingOk()
      ensures ring == old(ring) + [box] && live == old(live) + {box} && contents == old(contents) + [x]
    {
      var head := pool[0];
      box.data := x;
      box.next := head;
      box.prev := head.prev;
      head.prev.next := box;
      head.prev := box;
      ring := ring + [box];
      live := live + {box};
      contents := contents + [x];
    }

    /** Unlink the element at position k of the ring. */
    method Unlink(box: Element, ghost k: nat)
      requires RingOk() && 0 < k < |ring| && box == ring[k]
      modifies live`next, live`prev, `ring, `live, `contents
      ensures RingOk()
      ensures ring == old(ring)[..k] + old(ring)[k + 1..] && live == old(live) - {box}
      ensures contents == old(contents)[..k - 1] + old(contents)[k..]
    {
      box.prev.next := box.next;
      box.next.prev := box.prev;
      ring := ring[..k] + ring[k + 1..];
      live := live - {box};
      contents := contents[..k - 1] + contents[k..];
    }

    // ----- the pool -----

    /** PRE_ALLOC: while the counter is below the pool size, the scan does find a free slot. */
    method PreAlloc(ghost inUse: set<Element>) returns (el: Element)
      requires PoolOk() && StatusOk(inUse)
      modifies `count, slots`preStatus
      ensures el !in inUse && StatusOk(inUse + {el})
      ensures el in slots || fresh(el)
      ensures old(count) < 64 ==> el in slots && count == old(count) + 1
      ensures old(count) >= 64 ==> fresh(el) && count == old(count)
    {
      if count >= LIST_PREALLOC_SIZE {
        el := new Element();
        el.preStatus := Malloc;
      } else {
        FreeSlotExists(inUse);
        el := pool[0];
        for i := 0 to LIST_PREALLOC_SIZE
          invariant forall j | 0 <= j < i :: pool[j] in inUse
        {
          el := pool[i];
          if el.preStatus == Unused { break; }
        }
        assert el !in inUse;
        count := count + 1;
        el.preStatus := Used;
      }
      CountInUse(slots, inUse, el);
    }

    lemma FreeSlotExists(inUse: set<Element>)
      requires PoolOk() && StatusOk(inUse) && count < 64
      ensures exists j | 0 <= j < |pool| :: pool[j] !in inUse
    {
      assert slots * inUse != slots;
      var e :| e in slots && e !in inUse;
      var j :| 0 <= j < |pool| && pool[j] == e;
    }

    /** PRE_FREE; neither of its two FATAL cases can happen. */
    method PreFree(el: Element, ghost inUse: set<Element>)
      requires el in inUse && StatusOk(inUse)
      modifies `count, el`preStatus
      ensures StatusOk(inUse - {el})
    {
      assert inUse == (inUse - {el}) + {el};
      CountInUse(slots, inUse - {el}, el);
      if el.preStatus == Used {
        el.preStatus := Unused;
        count := count - 1;
        assert count >= 0;
      } else {
        assert el.preStatus == Malloc;
        el.preStatus := Unused;
      }
    }

    // ----- operations -----

    /** memset of the whole list, then the first slot becomes the head. */
    method Initialise()
      requires PoolOk()
      modifies this, slots
      ensures Valid() && ring == [pool[0]] && live == {pool[0]} && contents == [] && count == 1
    {
      count, ring, live, contents := 0, [pool[0]], {pool[0]}, [];
      for i := 0 to |pool|
        invariant count == 0 && ring == [pool[0]] && live == {pool[0]} && contents == []
        invariant forall j | 0 <= j < i :: pool[j].preStatus == Unused
      {
        pool[i].preStatus, pool[i].prev, pool[i].next, pool[i].data := Unused, null, null, 0;
      }
      var head := pool[0];
      assert head.preStatus == Unused;
      head.preStatus := Used;
      count := count + 1;
      head.next, head.prev := head, head;
      assert slots * live == {head};
    }

    method Append(x: Data)
      requires Valid()
      modifies this, Nodes()
      ensures Valid() && contents == old(contents) + [x] && ring != [] && fresh(Nodes() - old(Nodes()))
    {
      if pool[0].next == null {
        Initialise();
      }
      AppendBox(x);
    }

    method AppendBox(x: Data)
      requires PoolOk() && RingOk() && StatusOk(live)
      modifies this, Nodes()
      ensures RingOk() && StatusOk(live) && contents == old(contents) + [x] && fresh(Nodes() - old(Nodes()))
    {
      var box := PreAlloc(live);
      LinkLast(box, x);
    }

    /** Take the element at position k out of the list and back to the pool; list_remove also clears its data. */
    method Drop(box: Element, clear: bool, ghost k: nat)
      requires RingOk() && StatusOk(live) && 0 < k < |ring| && box == ring[k]
      modifies this, Nodes()
      ensures RingOk() && StatusOk(live) && live <= old(live)
      ensures ring == old(ring)[..k] + old(ring)[k + 1..]
      ensures contents == old(contents)[..k - 1] + old(contents)[k..]
    {
      ghost var inUse := live;
      Unlink(box, k);
      Free(box, clear, inUse);
    }

    method Free(box: Element, clear: bool, ghost inUse: set<Element>)
      requires box in inUse && StatusOk(inUse)
      modifies `count, box`preStatus, box`data
      ensures StatusOk(inUse - {box})
    {
      if clear {
        box.data := 0;
      }
      PreFree(box, inUse);
    }

    /** list_remove; false is FATAL: no list yet, or no such item. */
    method Remove(x: Data) returns (ok: bool)
      requires Valid()
      modifies this, Nodes()
      ensures Valid() && live <= old(live)
      ensures ok <==> x in old(contents)
      ensures contents == RemoveFirst(old(contents), x)
    {
      var head := pool[0];
      if head.next == null { return false; }
      var box: Element := head.next;
      ghost var k := 1;
      while box != head
        invariant RingOk() && StatusOk(live)
        invariant 1 <= k <= |ring| && box == if k < |ring| then ring[k] else head
        invariant x !in contents[..k - 1]
        invariant unchanged(this) && unchanged(Nodes())
        decreases |ring| - k
      {
        if box.data == x {
          RemoveFirstAt(contents, x, k - 1);
          Drop(box, true, k);
          return true;
        }
        assert contents[..k] == contents[..k - 1] + [contents[k - 1]];
        box := box.next;
        k := k + 1;
      }
      RemoveFirstAt(contents, x, |contents|);
      return false;
    }

    /** list_contains; not ok is FATAL: no list yet. */
    method Contains(x: Data) returns (ok: bool, found: bool)
      requires Valid()
      ensures ok <==> ring != []
      ensures found <==> x in contents
    {
      var head := pool[0];
      if head.next == null { return false, false; }
      var box: Element := head.next;
      ghost var k := 1;
      while box != head
        invariant 1 <= k <= |ring| && box == if k < |ring| then ring[k] else head
        invariant x !in contents[..k - 1]
        decreases |ring| - k
      {
        if box.data == x { return true, true; }
        assert contents[..k] == contents[..k - 1] + [contents[k - 1]];
        box := box.next;
        k := k + 1;
      }
      return true, false;
    }

    /** LIST_FOREACH with a body that removes the current element in the i-th visit when gone[i] says so;
        LIST_FOREACH_CLEAR is the case where it always does. Not ok is FATAL: no list yet. */
    method ForEach(gone: seq<bool>) returns (ok: bool, visited: seq<Data>)
      requires Valid() && |gone| >= |contents|
      modifies this, Nodes()
      ensures Valid() && (ok <==> old(ring) != []) && (ok ==> ring != []) && live <= old(live)
      ensures visited == old(contents)
      ensures contents == Keep(old(contents), gone)
    {
      var head := pool[0];
      if head.next == null { return false, []; }
      var box: Element := head.next;
      ok, visited := true, [];
      ghost var kept, rest := [], contents;
      while box != head
        invariant RingOk() && StatusOk(live) && live <= old(live) && At(box, kept, rest)
        invariant Halfway(old(contents), visited, kept, rest, gone)
        decreases |rest|
      {
        HalfwayStep(old(contents), visited, kept, rest, gone);
        var el;
        el, box, kept, rest := Visit(box, gone[|visited|], kept, rest);
        visited := visited + [el];
      }
    }

    /** The loop is at box, with the items `kept` behind it and `rest` from here on. */
    ghost predicate At(box: Element, kept: seq<Data>, rest: seq<Data>)
      reads `ring, `contents
    {
      && contents == kept + rest && |ring| == |contents| + 1 && pool != []
      && (rest != [] ==> box == ring[|kept| + 1] && box != pool[0])
      && (rest == [] ==> box == pool[0])
    }

    /** One iteration: the successor is read first, so the element itself may go. */
    method Visit(box: Element, gone: bool, ghost kept: seq<Data>, ghost rest: seq<Data>)
      returns (el: Data, next: Element, ghost kept': seq<Data>, ghost rest': seq<Data>)
      requires RingOk() && StatusOk(live) && At(box, kept, rest) && rest != []
      modifies this, Nodes()
      ensures RingOk() && StatusOk(live) && live <= old(live) && At(next, kept', rest')
      ensures el == rest[0] && rest' == rest[1..] && kept' == if gone then kept else kept + [el]
    {
      el := box.data;
      next := box.next;
      ghost var k := |kept| + 1;
      rest' := rest[1..];
      if gone {
        assert (kept + rest)[..k - 1] == kept && (kept + rest)[k..] == rest[1..];
        Drop(box, false, k);
        kept' := kept;
      } else {
        kept' := kept + [el];
      }
    }
  }

  // ----- what the operations do to the sequence of items -----

  function RemoveFirst(s: seq<Data>, x: Data): seq<Data> {
    if s == [] then [] else if s[0] == x then s[1..] else [s[0]] + RemoveFirst(s[1..], x)
  }

  lemma {:induction false} RemoveFirstAt(s: seq<Data>, x: Data, k: nat)
    requires k <= |s| && x !in s[..k] && (k < |s| ==> s[k] == x)
    ensures RemoveFirst(s, x) == if k < |s| then s[..k] + s[k + 1..] else s
  {
    if k > 0 {
      assert s[0] in s[..k];
      assert forall y | y in s[1..][..k - 1] :: y in s[..k];
      RemoveFirstAt(s[1..], x, k - 1);
    }
  }

  /** What the visits leave. */
  function Keep(s: seq<Data>, gone: seq<bool>): seq<Data>
    requires |s| <= |gone|
  {
    if s == [] then [] else Keep(s[..|s| - 1], gone) + if gone[|s| - 1] then [] else [s[|s| - 1]]
  }

  /** After LIST_FOREACH_CLEAR only the head is left. */
  lemma {:induction false} KeepNothing(s: seq<Data>, gone: seq<bool>)
    requires |s| <= |gone| && forall i | 0 <= i < |s| :: gone[i]
    ensures Keep(s, gone) == []
  {
    if s != [] {
      KeepNothing(s[..|s| - 1], gone);
    }
  }

  ghost predicate Halfway(all: seq<Data>, visited: seq<Data>, kept: seq<Data>, rest: seq<Data>, gone: seq<bool>) {
    visited + rest == all && |all| <= |gone| && kept == Keep(visited, gone)
  }

  lemma KeepNext(s: seq<Data>, x: Data, gone: seq<bool>)
    requires |s| < |gone|
    ensures Keep(s + [x], gone) == if gone[|s|] then Keep(s, gone) else Keep(s, gone) + [x]
  {
    assert (s + [x])[..|s|] == s;
  }

  lemma Shift(visited: seq<Data>, rest: seq<Data>)
    requires rest != []
    ensures visited + rest == (visited + [rest[0]]) + rest[1..]
  {
    assert rest == [rest[0]] + rest[1..];
  }

  lemma HalfwayStep(all: seq<Data>, visited: seq<Data>, kept: seq<Data>, rest: seq<Data>, gone: seq<bool>)
    requires Halfway(all, visited, kept, rest, gone) && rest != []
    ensures Halfway(all, visited + [rest[0]], if gone[|visited|] then kept else kept + [rest[0]], rest[1..], gone)
  {
    Shift(visited, rest);
    KeepNext(visited, rest[0], gone);
  }

  lemma CountInUse<T>(slots: set<T>, inUse: set<T>, el: T)
    requires el !in inUse
    ensures |slots * (inUse + {el})| == |slots * inUse| + if el in slots then 1 else 0
  {
    if el in slots {
      assert slots * (inUse + {el}) == slots * inUse + {el};
    } else {
      assert slots * (inUse + {el}) == slots * inUse;
    }
  }

  method ZeroedPool() returns (p: seq<Element>, ghost q: set<Element>)
    ensures |p| == LIST_PREALLOC_SIZE && |q| == LIST_PREALLOC_SIZE && Distinct(p)
    ensures forall i | 0 <= i < |p| :: p[i] in q
    ensures forall e | e in q :: fresh(e) && e.next == null && exists i | 0 <= i < |p| :: p[i] == e
  {
    p, q := [], {};
    for i := 0 to LIST_PREALLOC_SIZE
      invariant |p| == i && |q| == i && Distinct(p)
      invariant forall k | 0 <= k < |p| :: p[k] in q
      invariant forall e | e in q :: fresh(e) && e.next == null && exists k | 0 <= k < |p| :: p[k] == e
    {
      var e := new Element();
      ghost var before := p;
      p := p + [e];
      q := q + {e};
      assert p[i] == e;
      assert forall k | 0 <= k < i :: p[k] == before[k];
    }
  }
}
