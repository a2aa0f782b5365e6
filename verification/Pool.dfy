/** The fragment pool of buf.rs: 512-byte fragments on a singly linked free list.

    `free` and `live` are the fragments on the free list and the fragments handed out;
    together they are everything ever created, and no fragment is in both.
  */
module Pool {
  import opened Words

  const FRAGMENT_SIZE := 512
  const POOL_GROW_SIZE := 16

  /** The fixed-size array inside a fragment. */
  type FragmentData = d: seq<u8> | |d| == FRAGMENT_SIZE witness seq(FRAGMENT_SIZE, _ => 0)

  class BufferFragment {
    var next: BufferFragment?
    var start: nat
    var end: nat
    var data: FragmentData

    constructor ()
      ensures next == null && start == 0 && end == 0
    {
      next := null;
      start, end := 0, 0;
      data := seq(FRAGMENT_SIZE, _ => 0);
    }

    method SetRange(start: nat, end: nat)
      modifies this`start, this`end
      ensures this.start == start && this.end == end
    {
      this.start, this.end := start, end;
    }

    /** Unlinked, with an empty range; the data stays. */
    method Reset()
      modifies this`next, this`start, this`end
      ensures next == null && start == 0 && end == 0
    {
      next := null;
      start, end := 0, 0;
    }
  }

  // ---------- chains ----------

  ghost function Set(c: seq<BufferFragment>): set<BufferFragment> { set f | f in c }

  ghost function At(c: seq<BufferFragment>, i: int): BufferFragment? { if 0 <= i < |c| then c[i] else null }

  ghost function First(c: seq<BufferFragment>): BufferFragment? { At(c, 0) }

  /** Following `next` from `head` visits the fragments of `c`, each once, and arrives at `after`. */
  ghost predicate Segment(head: BufferFragment?, c: seq<BufferFragment>, after: BufferFragment?)
    reads c`next
    decreases |c|
  {
    if c == [] then head == after
    else head == c[0] && c[0] !in c[1..] && Segment(c[0].next, c[1..], after)
  }

  lemma SetCons(f: BufferFragment, c: seq<BufferFragment>)
    ensures Set([f] + c) == {f} + Set(c) && ([f] + c)[1..] == c
  {}

  lemma SetConcat(a: seq<BufferFragment>, b: seq<BufferFragment>)
    ensures Set(a + b) == Set(a) + Set(b)
  {}

  /** Disjointness, in the form that framing the links of one list needs. */
  lemma NoneShared(a: seq<BufferFragment>, b: seq<BufferFragment>)
    requires Set(a) !! Set(b)
    ensures forall i :: 0 <= i < |a| ==> a[i] !in b
  {
    assert forall i :: 0 <= i < |a| ==> a[i] in Set(a);
  }

  lemma SetHead(c: seq<BufferFragment>)
    requires c != []
    ensures Set(c) == {c[0]} + Set(c[1..])
  {
    assert c == [c[0]] + c[1..];
  }

  lemma {:induction false} SegmentConcat(head: BufferFragment?, a: seq<BufferFragment>, mid: BufferFragment?,
                                         b: seq<BufferFragment>, after: BufferFragment?)
    requires Segment(head, a, mid) && Segment(mid, b, after) && Set(a) !! Set(b)
    ensures Segment(head, a + b, after) && Set(a + b) == Set(a) + Set(b)
    decreases |a|
  {
    SetConcat(a, b);
    if a == [] {
      assert a + b == b;
    } else {
      SetHead(a);
      SegmentConcat(a[0].next, a[1..], mid, b, after);
      assert (a + b)[1..] == a[1..] + b;
      assert a[0] !in Set(b);
    }
  }

  lemma {:induction false} SegmentSplit(head: BufferFragment?, c: seq<BufferFragment>, k: nat, after: BufferFragment?)
    requires Segment(head, c, after) && k <= |c|
    ensures var mid := if k < |c| then c[k] else after;
            Segment(head, c[..k], mid) && Segment(mid, c[k..], after)
    ensures Set(c[..k]) !! Set(c[k..]) && Set(c) == Set(c[..k]) + Set(c[k..])
    decreases k
  {
    assert c[..k] + c[k..] == c;
    if k == 0 {
    } else {
      SegmentSplit(c[0].next, c[1..], k - 1, after);
      assert c[..k][1..] == c[1..][..k - 1] && c[1..][k - 1..] == c[k..];
      SetHead(c[..k]);
    }
  }

  /** The segment around fragment `k`. */
  lemma SegmentAt(head: BufferFragment?, c: seq<BufferFragment>, k: nat, after: BufferFragment?)
    requires Segment(head, c, after) && k < |c|
    ensures Segment(head, c[..k], c[k]) && Segment(c[k].next, c[k + 1..], after)
    ensures c[k].next == if k + 1 < |c| then c[k + 1] else after
    ensures c[k] !in c[..k] && c[k] !in c[k + 1..] && Set(c[..k]) !! Set(c[k + 1..])
    ensures Set(c) == Set(c[..k]) + {c[k]} + Set(c[k + 1..])
  {
    SegmentSplit(head, c, k, after);
    SetHead(c[k..]);
    assert c[k..][1..] == c[k + 1..];
    assert c[k] in Set(c[k..]);
  }

  /** Two segments joined by fragment `f`. */
  lemma SegmentJoin(head: BufferFragment?, a: seq<BufferFragment>, f: BufferFragment, b: seq<BufferFragment>,
                    after: BufferFragment?)
    requires Segment(head, a, f) && Segment(f.next, b, after)
    requires f !in a && f !in b && Set(a) !! Set(b)
    ensures Segment(head, a + ([f] + b), after) && Set(a + ([f] + b)) == Set(a) + {f} + Set(b)
  {
    SetCons(f, b);
    SegmentConcat(head, a, f, [f] + b, after);
  }

  class FragmentPool {
    var freeList: BufferFragment?
    var buffersCreated: nat
    var buffersAllocated: nat
    var buffersFreed: nat

    ghost var free: seq<BufferFragment>
    ghost var live: set<BufferFragment>

    /** The free list is a proper list, apart from what is live, and the counters count. */
    ghost predicate Valid()
      reads this, free`next
    {
      && Segment(freeList, free, null)
      && Set(free) !! live
      && buffersCreated == |live| + |free|
      && buffersAllocated == buffersFreed + |live|
    }

    constructor ()
      ensures Valid() && free == [] && live == {}
    {
      freeList := null;
      buffersCreated, buffersAllocated, buffersFreed := 0, 0, 0;
      free, live := [], {};
    }

    /** One new fragment in front of the free list. */
    method AddFragment()
      requires Segment(freeList, free, null) && Set(free) !! live
      modifies this`freeList, this`free
      ensures Segment(freeList, free, null) && Set(free) !! live
      ensures |free| == |old(free)| + 1 && free[1..] == old(free) && fresh(free[0])
      ensures fresh(Set(free) - old(Set(free)))
    {
      var frag := new BufferFragment();
      frag.next := freeList;
      freeList := frag;
      SetCons(frag, free);
      free := [frag] + free;
    }

    method Grow()
      requires Valid()
      modifies this`freeList, this`free, this`buffersCreated
      ensures Valid()
      ensures |free| == |old(free)| + POOL_GROW_SIZE
      ensures fresh(Set(free) - old(Set(free)))
    {
      for i := 0 to POOL_GROW_SIZE
        invariant Segment(freeList, free, null) && Set(free) !! live
        invariant |free| == |old(free)| + i
        invariant fresh(Set(free) - old(Set(free)))
        invariant buffersCreated == old(buffersCreated)
      {
        AddFragment();
      }
      buffersCreated := buffersCreated + POOL_GROW_SIZE;
    }

    method Alloc() returns (f: BufferFragment)
      requires Valid()
      modifies this, free
      ensures Valid()
      ensures f !in old(live) && f !in free && live == old(live) + {f}
      ensures f.next == null && f.start == 0 && f.end == 0
      ensures buffersAllocated == old(buffersAllocated) + 1 && buffersFreed == old(buffersFreed)
      ensures if old(free) == [] then |free| == POOL_GROW_SIZE - 1 else [f] + free == old(free)
      ensures fresh(Set(free) + {f} - old(Set(free)))
    {
      if freeList == null {
        Grow();
      }
      f := TakeFirst();
    }

    /** The first fragment comes off the free list. */
    method PopFree() returns (f: BufferFragment)
      requires Segment(freeList, free, null) && free != []
      modifies this`freeList, this`free
      ensures Segment(freeList, free, null)
      ensures f == old(free[0]) && free == old(free[1..]) && f !in free && old(Set(free)) == {f} + Set(free)
    {
      f := freeList;
      SetHead(free);
      freeList := f.next;
      free := free[1..];
    }

    method TakeFirst() returns (f: BufferFragment)
      requires Valid() && free != []
      modifies this, First(free)
      ensures Valid()
      ensures f == old(free[0]) && free == old(free[1..]) && f !in free
      ensures f !in old(live) && live == old(live) + {f}
      ensures f.next == null && f.start == 0 && f.end == 0
      ensures buffersAllocated == old(buffersAllocated) + 1 && buffersFreed == old(buffersFreed)
    {
      f := PopFree();
      assert f !in live;
      buffersAllocated := buffersAllocated + 1;
      live := live + {f};
      f.Reset();
    }

    method Free(f: BufferFragment)
      requires Valid() && f in live
      modifies this, f`next
      ensures Valid()
      ensures free == [f] + old(free) && Set(free) == {f} + old(Set(free)) && live == old(live) - {f}
      ensures buffersAllocated == old(buffersAllocated) && buffersFreed == old(buffersFreed) + 1
    {
      buffersFreed := buffersFreed + 1;
      f.next := freeList;
      freeList := f;
      SetCons(f, free);
      free := [f] + free;
      live := live - {f};
    }

    /** The first fragment of a detached chain goes back. */
    method FreeFirst(frag: BufferFragment, ghost c: seq<BufferFragment>) returns (next: BufferFragment?)
      requires Valid() && c != [] && Segment(frag, c, null) && Set(c) <= live
      modifies this, frag`next
      ensures Valid() && Segment(next, c[1..], null) && Set(c) == {frag} + Set(c[1..]) && Set(c[1..]) <= live
      ensures live - Set(c[1..]) == old(live) - Set(c) && Set(free) + Set(c[1..]) == old(Set(free)) + Set(c)
    {
      SetHead(c);
      next := frag.next;
      Free(frag);
    }

    /** Every fragment of a detached chain goes back, first to last. */
    method FreeChain(head: BufferFragment?, ghost c: seq<BufferFragment>)
      requires Valid() && Segment(head, c, null) && Set(c) <= live
      modifies this, c`next
      ensures Valid() && live == old(live) - Set(c) && Set(free) == old(Set(free)) + Set(c)
    {
      var frag := head;
      ghost var rest := c;
      ghost var others, all := live - Set(c), Set(free) + Set(c);
      while frag != null
        invariant Valid() && Segment(frag, rest, null) && Set(rest) <= live && Set(rest) <= Set(c)
        invariant live - Set(rest) == others && Set(free) + Set(rest) == all
        decreases |rest|
      {
        assert rest != [] && frag == rest[0] && frag in Set(rest) && frag in Set(c);
        frag := FreeFirst(frag, rest);
        rest := rest[1..];
      }
      assert rest == [];
    }
  }
}
