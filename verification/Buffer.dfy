/** The network buffer of buf.rs: a chain of fragments, read as one string of bytes.

    `chain` is the list of fragments in order and `parts` the bytes each of them holds;
    `Valid` ties both to the linked fragments.  What a buffer means is `Bytes()`, and
    every operation is specified by it.  `Others()` are the live fragments of all other
    buffers, which no operation touches.
  */
module Buffer {
  import opened Words
  import opened Parts
  import opened Pool

  /** The fragment's range lies in its array, and `p` is what it holds. */
  ghost predicate Holds(f: BufferFragment, p: seq<u8>)
    reads f`start, f`end, f`data
  {
    f.start <= f.end <= FRAGMENT_SIZE && p == f.data[f.start..f.end]
  }

  /** The fragments of `c` hold `parts`, one each. */
  ghost predicate Holding(c: seq<BufferFragment>, parts: seq<seq<u8>>)
    reads c`start, c`end, c`data
    decreases |c|
  {
    && |c| == |parts|
    && (c != [] ==> Holds(c[0], parts[0]) && Holding(c[1..], parts[1..]))
  }

  lemma {:induction false} HoldingConcat(a: seq<BufferFragment>, p: seq<seq<u8>>, b: seq<BufferFragment>, q: seq<seq<u8>>)
    requires Holding(a, p) && Holding(b, q)
    ensures Holding(a + b, p + q)
    decreases |a|
  {
    if a == [] {
      assert a + b == b && p + q == q;
    } else {
      HoldingConcat(a[1..], p[1..], b, q);
      assert (a + b)[1..] == a[1..] + b && (p + q)[1..] == p[1..] + q;
    }
  }

  lemma TakeAndDrop<T>(s: seq<T>, k: nat)
    requires 0 < k <= |s|
    ensures s[..k] != [] && s[..k][0] == s[0] && s[..k][1..] == s[1..][..k - 1] && s[1..][k - 1..] == s[k..]
  {}

  lemma {:induction false} HoldingSplit(c: seq<BufferFragment>, p: seq<seq<u8>>, k: nat)
    requires Holding(c, p) && k <= |c|
    ensures Holding(c[..k], p[..k]) && Holding(c[k..], p[k..])
    decreases k
  {
    if k > 0 {
      TakeAndDrop(c, k);
      TakeAndDrop(p, k);
      HoldingSplit(c[1..], p[1..], k - 1);
    }
  }

  /** What all fragments but the `k`-th hold. */
  ghost predicate HoldingAround(c: seq<BufferFragment>, p: seq<seq<u8>>, k: nat)
    requires k < |c| == |p|
    reads c[..k]`start, c[..k]`end, c[..k]`data, c[k + 1..]`start, c[k + 1..]`end, c[k + 1..]`data
  {
    Holding(c[..k], p[..k]) && Holding(c[k + 1..], p[k + 1..])
  }

  lemma HoldingApart(c: seq<BufferFragment>, p: seq<seq<u8>>, k: nat)
    requires Holding(c, p) && k < |c|
    ensures HoldingAround(c, p, k) && Holds(c[k], p[k])
  {
    HoldingSplit(c, p, k);
    assert c[k..][1..] == c[k + 1..] && p[k..][1..] == p[k + 1..];
  }

  lemma HoldingJoin(c: seq<BufferFragment>, p: seq<seq<u8>>, k: nat, q: seq<u8>)
    requires k < |c| == |p| && HoldingAround(c, p, k) && Holds(c[k], q)
    ensures Holding(c, p[k := q])
  {
    var r := p[k := q];
    assert ([c[k]] + c[k + 1..])[1..] == c[k + 1..] && ([q] + p[k + 1..])[1..] == p[k + 1..];
    HoldingConcat(c[..k], p[..k], [c[k]] + c[k + 1..], [q] + p[k + 1..]);
    assert c[..k] + ([c[k]] + c[k + 1..]) == c && p[..k] + ([q] + p[k + 1..]) == r;
  }

  lemma HeadZeroed(before: seq<seq<u8>>, after: seq<seq<u8>>, size: nat)
    requires before != [] && size <= |before[0]| && after == before[0 := Splice(before[0], 0, Zeros(size))]
    ensures Flatten(after) == Zeros(size) + (before[0][size..] + Flatten(before[1..]))
  {
    assert after[1..] == before[1..] && after[0] == Zeros(size) + before[0][size..];
  }

  /** The head got `size` bytes longer, or a new head of that length was put in front. */
  ghost predicate HeadGrew(before: seq<seq<u8>>, after: seq<seq<u8>>, size: nat) {
    && after != []
    && (|| (after[1..] == before && |after[0]| == size)
        || (before != [] && after[1..] == before[1..] && |after[0]| == size + |before[0]|))
  }

  lemma HeadGrewNonEmpty(before: seq<seq<u8>>, after: seq<seq<u8>>, size: nat)
    requires HeadGrew(before, after, size) && size > 0 && NonEmptyParts(before)
    ensures NonEmptyParts(after)
  {
    assert forall i :: 1 <= i < |after| ==> after[i] == after[1..][i - 1];
    assert before != [] ==> forall i :: 1 <= i < |before| ==> before[i] == before[1..][i - 1];
  }

  lemma HeadGrewEven(before: seq<seq<u8>>, after: seq<seq<u8>>, size: nat)
    requires HeadGrew(before, after, size) && size % 2 == 0
    ensures EvenButLast(before) ==> EvenButLast(after)
  {
    assert forall i :: 1 <= i < |after| ==> after[i] == after[1..][i - 1];
    assert before != [] ==> forall i :: 1 <= i < |before| ==> before[i] == before[1..][i - 1];
  }

  class NetBuffer {
    const pool: FragmentPool
    var fragments: BufferFragment?
    var length: nat

    ghost var chain: seq<BufferFragment>
    ghost var parts: seq<seq<u8>>

    /** The fragments are properly linked, and hold the parts. */
    ghost predicate Chained()
      reads this, chain
    {
      Segment(fragments, chain, null) && Holding(chain, parts)
    }

    /** All fragments of the chain have been handed out by the pool. */
    ghost predicate Owned()
      reads this, pool, pool.free`next, chain
    {
      pool.Valid() && Set(chain) <= pool.live && Chained()
    }

    /** ... every fragment holds something, and `length` is the sum of what they hold. */
    ghost predicate Valid()
      reads this, pool, pool.free`next, chain
    {
      Owned() && NonEmptyParts(parts) && length == |Bytes()|
    }

    ghost function Bytes(): seq<u8>
      reads this`parts
    {
      Flatten(parts)
    }

    ghost function Others(): set<BufferFragment>
      reads this`chain, pool`live
    {
      pool.live - Set(chain)
    }

    ghost function Footprint(): set<object>
      reads this`chain, pool`free
    {
      {this, pool} + Set(chain) + Set(pool.free)
    }

    constructor (pool: FragmentPool)
      requires pool.Valid()
      ensures Valid() && this.pool == pool && chain == [] && Bytes() == [] && Others() == pool.live
    {
      this.pool := pool;
      fragments := null;
      length := 0;
      chain, parts := [], [];
    }

    lemma FragmentAt(k: nat)
      requires Chained() && k < |chain|
      ensures |parts| == |chain| && HoldingAround(chain, parts, k) && Holds(chain[k], parts[k])
      ensures chain[k].next == At(chain, k + 1)
      ensures chain[k] !in chain[..k] && chain[k] !in chain[k + 1..]
    {
      SegmentAt(fragments, chain, k, null);
      HoldingApart(chain, parts, k);
    }

    // ---------- single fragments ----------

    /** A filled fragment becomes the head of the chain. */
    method Prepend(f: BufferFragment)
      requires Owned() && f in pool.live && f !in chain
      requires f.start <= f.end <= FRAGMENT_SIZE
      modifies this, f`next
      ensures Owned() && length == old(length)
      ensures chain == [f] + old(chain) && parts == [f.data[f.start..f.end]] + old(parts)
      ensures Set(chain) == {f} + old(Set(chain))
    {
      SetCons(f, chain);
      f.next := fragments;
      fragments := f;
      assert ([f.data[f.start..f.end]] + parts)[1..] == parts;
      chain, parts := [f] + chain, [f.data[f.start..f.end]] + parts;
    }

    /** The head of the chain is taken off. */
    method DetachHead() returns (dead: BufferFragment)
      requires Chained() && chain != []
      modifies this, First(chain)`next
      ensures Chained() && length == old(length)
      ensures dead == old(chain)[0] && dead !in chain && old(Set(chain)) == {dead} + Set(chain)
      ensures chain == old(chain)[1..] && parts == old(parts)[1..]
    {
      dead := fragments;
      SetHead(chain);
      fragments := dead.next;
      dead.next := null;
      chain, parts := chain[1..], parts[1..];
    }

    /** The head of the chain goes back to the pool. */
    method UnlinkHead()
      requires Owned() && chain != []
      modifies this, pool, First(chain)`next
      ensures Owned() && length == old(length)
      ensures chain == old(chain)[1..] && parts == old(parts)[1..]
      ensures Others() == old(Others()) && Footprint() == old(Footprint())
    {
      assert fragments in Set(chain) && fragments !in Set(pool.free);
      var dead := DetachHead();
      pool.Free(dead);
    }

    /** Bytes are written inside fragment `k`. */
    method WriteAt(f: BufferFragment, ghost k: nat, offset: nat, bytes: seq<u8>)
      requires Chained() && k < |chain| == |parts| && f == chain[k] && offset + |bytes| <= |parts[k]|
      modifies this`parts, f`data
      ensures Chained()
      ensures parts == old(parts)[k := Splice(old(parts)[k], offset, bytes)]
    {
      FragmentAt(k);
      SpliceInRange(f.data, f.start, f.end, offset, bytes);
      f.data := Splice(f.data, f.start + offset, bytes);
      HoldingJoin(chain, parts, k, Splice(parts[k], offset, bytes));
      parts := parts[k := Splice(parts[k], offset, bytes)];
    }

    /** Bytes are written through header_mut. */
    method WriteHead(offset: nat, bytes: seq<u8>)
      requires Chained() && chain != [] && offset + |bytes| <= |parts[0]|
      modifies this`parts, First(chain)`data
      ensures Chained()
      ensures parts == old(parts)[0 := Splice(old(parts)[0], offset, bytes)]
    {
      WriteAt(fragments, 0, offset, bytes);
    }

    // ---------- alloc_header ----------

    /** A fragment from the pool, not yet in the chain. */
    method Claim() returns (f: BufferFragment)
      requires Owned()
      modifies pool, pool.free
      ensures Owned()
      ensures f in pool.live && f !in chain && f !in pool.free
      ensures f.next == null && f.start == 0 && f.end == 0
      ensures Others() == old(Others()) + {f} && f !in old(Others())
      ensures fresh(Set(pool.free) + {f} - old(Set(pool.free)))
    {
      NoneShared(chain, pool.free);
      f := pool.Alloc();
      assert f !in Set(chain);
    }

    /** A new fragment with the range start..end becomes the head. */
    method NewHead(start: nat, end: nat)
      requires Owned() && start < end <= FRAGMENT_SIZE
      modifies this, pool, pool.free
      ensures Owned() && length == old(length)
      ensures Others() == old(Others()) && fresh(Footprint() - old(Footprint()))
      ensures chain != [] && chain[1..] == old(chain) && chain[0] !in old(chain)
      ensures chain[0].start == start && chain[0].end == end
      ensures parts != [] && parts[1..] == old(parts) && |parts[0]| == end - start
    {
      var f := Claim();
      f.SetRange(start, end);
      Prepend(f);
    }

    /** The head fragment's range grows downwards. */
    method ExtendHead(size: nat)
      requires Chained() && chain != [] && size <= chain[0].start
      modifies this`parts, First(chain)`start
      ensures Chained()
      ensures parts != [] && parts[1..] == old(parts)[1..]
      ensures size <= |parts[0]| && parts[0][size..] == old(parts)[0]
      ensures chain[0].start == old(chain[0].start) - size
    {
      FragmentAt(0);
      var f: BufferFragment := fragments;
      f.start := f.start - size;
      HoldingJoin(chain, parts, 0, f.data[f.start..f.end]);
      parts := parts[0 := f.data[f.start..f.end]];
    }

    /** Room for a header at the head: in the head fragment if its start allows, otherwise in a
        new fragment, at its end. */
    method AddHeadRoom(size: nat)
      requires Owned() && 1 <= size <= FRAGMENT_SIZE
      modifies Footprint()
      ensures Owned() && length == old(length)
      ensures Others() == old(Others()) && fresh(Footprint() - old(Footprint()))
      ensures parts != [] && size <= |parts[0]|
      ensures parts[0][size..] + Flatten(parts[1..]) == old(Bytes())
      ensures HeadGrew(old(parts), parts, size)
    {
      if fragments == null || fragments.start < size {
        NewHead(FRAGMENT_SIZE - size, FRAGMENT_SIZE);
        assert parts[0][size..] + old(Bytes()) == old(Bytes());
      } else {
        ExtendHead(size);
      }
    }

    method AllocHeader(size: nat)
      requires Valid() && 1 <= size <= FRAGMENT_SIZE
      modifies Footprint()
      ensures Valid() && fresh(Footprint() - old(Footprint())) && Others() == old(Others())
      ensures Bytes() == Zeros(size) + old(Bytes())
      ensures parts != [] && size <= |parts[0]|
      ensures EvenButLast(old(parts)) && size % 2 == 0 ==> EvenButLast(parts)
    {
      AddHeadRoom(size);
      ghost var before := parts;
      WriteHead(0, Zeros(size));
      length := length + size;
      HeadZeroed(before, parts, size);
      HeadGrewNonEmpty(old(parts), before, size);
      assert NonEmptyParts(parts);
      if size % 2 == 0 { HeadGrewEven(old(parts), before, size); }
    }

    /** A header put in front: alloc_header, and header_mut to fill it. */
    method PushHeader(bytes: seq<u8>)
      requires Valid() && 1 <= |bytes| <= FRAGMENT_SIZE
      modifies Footprint()
      ensures Valid() && fresh(Footprint() - old(Footprint())) && Others() == old(Others())
      ensures Bytes() == bytes + old(Bytes())
      ensures parts != [] && |bytes| <= |parts[0]|
      ensures EvenButLast(old(parts)) && |bytes| % 2 == 0 ==> EvenButLast(parts)
    {
      AllocHeader(|bytes|);
      WriteValid(0, bytes);
      SpliceFront(Zeros(|bytes|), old(Bytes()), bytes);
    }

    /** Writing through header_mut changes those bytes of the string, and no length. */
    method WriteValid(offset: nat, bytes: seq<u8>)
      requires Valid() && parts != [] && offset + |bytes| <= |parts[0]|
      modifies this`parts, First(chain)`data
      ensures Valid() && SameShape(old(parts), parts) && offset + |bytes| <= |old(Bytes())|
      ensures Bytes() == Splice(old(Bytes()), offset, bytes)
    {
      SpliceFirst(parts, offset, bytes);
      WriteHead(offset, bytes);
    }

    // ---------- new_prealloc ----------

    /** One more fragment in front, for `size` bytes. */
    method AddRoom(size: nat)
      requires Owned() && 0 < size <= FRAGMENT_SIZE && FullButFirst(parts, FRAGMENT_SIZE)
      requires parts != [] ==> |parts[0]| == FRAGMENT_SIZE
      modifies Footprint()
      ensures Owned() && length == old(length)
      ensures Others() == old(Others()) && fresh(Footprint() - old(Footprint()))
      ensures FullButFirst(parts, FRAGMENT_SIZE) && parts != [] && |parts[0]| == size
      ensures |Bytes()| == |old(Bytes())| + size
    {
      ghost var p := parts;
      NewHead(0, size);
      FullCons(parts[0], p, FRAGMENT_SIZE);
      assert parts == [parts[0]] + p;
    }

    /** The loop of new_prealloc.  What the bytes are is left open, as recycled fragments keep
        their data.  The first fragment is the one that may be partial. */
    method AddWhole(length: nat)
      requires Owned() && parts == []
      modifies Footprint()
      ensures Owned() && this.length == old(this.length)
      ensures Others() == old(Others()) && fresh(Footprint() - old(Footprint()))
      ensures FullButFirst(parts, FRAGMENT_SIZE) && |Bytes()| == length && NonEmptyParts(parts)
    {
      var toAdd := length;
      while toAdd > 0
        invariant Owned() && this.length == old(this.length) && toAdd >= 0 && toAdd + |Bytes()| == length
        invariant Others() == old(Others()) && fresh(Footprint() - old(Footprint()))
        invariant FullButFirst(parts, FRAGMENT_SIZE)
        invariant toAdd > 0 && parts != [] ==> |parts[0]| == FRAGMENT_SIZE
      {
        var fragSize := Min(toAdd, FRAGMENT_SIZE);
        AddRoom(fragSize);
        toAdd := toAdd - fragSize;
      }
      FullIsNonEmpty(parts, FRAGMENT_SIZE);
    }

    constructor Prealloc(pool: FragmentPool, length: nat)
      requires pool.Valid()
      modifies pool, pool.free
      ensures Valid() && this.pool == pool && |Bytes()| == length
      ensures FullButFirst(parts, FRAGMENT_SIZE)
      ensures Others() == old(pool.live) && fresh(Footprint() - {pool} - old(Set(pool.free)))
    {
      this.pool := pool;
      fragments := null;
      this.length := length;
      chain, parts := [], [];
      new;
      ghost var free := Set(pool.free);
      assert Footprint() == {this, pool} + free;
      AddWhole(length);
    }

    /** One turn of a scattering read: fragment `k` takes what fits into it. */
    method ScatterNext(frag: BufferFragment, ghost k: nat, rest: seq<u8>) returns (next: BufferFragment?, n: nat)
      requires Chained() && k < |chain| && frag == chain[k] && 0 < |rest| <= |Flatten(parts[k..])|
      modifies this`parts, frag`data
      ensures Chained() && next == At(chain, k + 1) && |parts| == |old(parts)| == |chain|
      ensures n == Min(|old(parts)[k]|, |rest|) && |rest[n..]| <= |Flatten(parts[k + 1..])|
      ensures OverlayFrom(parts, k + 1, rest[n..]) == OverlayFrom(old(parts), k, rest)
    {
      RoomLeft(parts, k, rest);
      FragmentAt(k);
      n := Min(frag.end - frag.start, |rest|);
      WriteAt(frag, k, 0, rest[..n]);
      FragmentAt(k);
      next := frag.next;
    }

    /** What a scattering read does to the fragments it is given: the bytes go into them in order. */
    method Scatter(bytes: seq<u8>)
      requires Chained() && |bytes| <= |Bytes()|
      modifies this`parts, chain`data
      ensures Chained() && parts == Overlay(old(parts), bytes)
    {
      var frag, offset := fragments, 0;
      ghost var k := 0;
      OverlayAll(parts, bytes);
      assert parts[0..] == parts && bytes[0..] == bytes;
      while offset < |bytes|
        invariant 0 <= offset <= |bytes| && k <= |chain| == |parts| && frag == At(chain, k) && Chained()
        invariant OverlayFrom(parts, k, bytes[offset..]) == Overlay(old(parts), bytes)
        invariant |bytes[offset..]| <= |Flatten(parts[k..])|
        decreases |chain| - k
      {
        ghost var rest := bytes[offset..];
        assert k < |parts| by { RoomLeft(parts, k, rest); }
        var n;
        frag, n := ScatterNext(frag, k, bytes[offset..]);
        offset, k := offset + n, k + 1;
        assert bytes[offset..] == rest[n..];
      }
    }

    /** ... seen as one string: the bytes replace its beginning. */
    method Fill(bytes: seq<u8>)
      requires Valid() && |bytes| <= length
      modifies this`parts, chain`data
      ensures Valid() && SameShape(old(parts), parts)
      ensures |bytes| <= |old(Bytes())| && Bytes() == Splice(old(Bytes()), 0, bytes)
    {
      OverlayIsSplice(parts, bytes);
      OverlayShape(parts, bytes);
      Scatter(bytes);
    }

    /** A preallocated buffer of whole fragments is filled, and cut to what arrived. */
    method Arrive(wire: seq<u8>)
      requires Valid() && 0 < |wire| <= length && length % 512 == 0 && FullButFirst(parts, FRAGMENT_SIZE)
      modifies Footprint()
      ensures Valid() && Footprint() == old(Footprint()) && Others() == old(Others()) && Bytes() == wire
      ensures FullButLast(parts, FRAGMENT_SIZE) && parts != [] && |parts[0]| == Min(|wire|, FRAGMENT_SIZE)
    {
      FullWithoutRest(parts);
      var unused := length - |wire|;
      Fill(wire);
      TakeBytesFull(parts, |wire|, FRAGMENT_SIZE);
      TrimTail(unused);
    }

    // ---------- trim_head ----------

    /** The head fragment loses its first `n` bytes, but not all of them. */
    method ShortenHead(n: nat)
      requires Chained() && chain != [] && n < |parts[0]|
      modifies this`parts, First(chain)`start
      ensures Chained() && parts == old(parts)[0 := old(parts)[0][n..]]
    {
      FragmentAt(0);
      var f: BufferFragment := fragments;
      assert parts[0][n..] == f.data[f.start + n..f.end];
      f.start := f.start + n;
      HoldingJoin(chain, parts, 0, parts[0][n..]);
      parts := parts[0 := parts[0][n..]];
    }

    /** Whole fragments go from the head while they fit into `size`. */
    method DropWholeHeads(size: nat) returns (remaining: nat)
      requires Owned() && size <= |Bytes()|
      modifies Footprint()
      ensures Owned() && length == old(length)
      ensures Footprint() == old(Footprint()) && Others() == old(Others())
      ensures DropBytes(parts, remaining) == DropBytes(old(parts), size)
      ensures remaining > 0 ==> parts != [] && remaining < |parts[0]|
    {
      remaining := size;
      ghost var goal := DropBytes(parts, size);
      while remaining > 0
        invariant Owned() && length == old(length)
        invariant Others() == old(Others()) && Footprint() == old(Footprint())
        invariant DropBytes(parts, remaining) == goal && remaining <= |Flatten(parts)|
        decreases |chain|
      {
        assert parts != [] && Holds(chain[0], parts[0]);
        var fragLen := fragments.end - fragments.start;
        if fragLen > remaining {
          break;
        }
        DropWholePart(parts, remaining);
        UnlinkHead();
        remaining := remaining - fragLen;
      }
    }

    method TrimHead(size: nat)
      requires Valid() && size <= length
      modifies Footprint()
      ensures Valid() && Footprint() == old(Footprint()) && Others() == old(Others())
      ensures Bytes() == old(Bytes())[size..]
      ensures parts == DropBytes(old(parts), size)
    {
      DropBytesIsDrop(parts, size);
      DropBytesNonEmpty(parts, size);
      ghost var goal := DropBytes(parts, size);
      var remaining := DropWholeHeads(size);
      if remaining > 0 {
        ShortenHead(remaining);
      }
      assert parts == goal;
      length := length - size;
    }

    // ---------- drop ----------

    /** A buffer that goes out of scope returns every fragment to the pool. */
    method Drop()
      requires Owned()
      modifies Footprint()
      ensures Owned() && Footprint() == old(Footprint()) && Others() == old(Others())
      ensures chain == [] && fragments == null
      ensures pool.live == old(Others()) && Set(pool.free) == old(Set(pool.free)) + old(Set(chain))
    {
      ghost var c := chain;
      var frag := Surrender();
      pool.FreeChain(frag, c);
    }

    /** The chain is given away. */
    method Surrender() returns (head: BufferFragment?)
      requires Chained()
      modifies this`fragments, this`chain, this`parts
      ensures Chained() && chain == [] && Set(chain) == {} && fragments == null && parts == []
      ensures Segment(head, old(chain), null) && Holding(old(chain), old(parts))
    {
      head := fragments;
      fragments := null;
      chain, parts := [], [];
    }

    // ---------- trim_tail ----------

    /** Everything goes, head by head. */
    method UnlinkAll()
      requires Owned()
      modifies Footprint()
      ensures Owned() && length == old(length)
      ensures Footprint() == old(Footprint()) && Others() == old(Others())
      ensures chain == [] && parts == []
    {
      while fragments != null
        invariant Owned() && length == old(length)
        invariant Others() == old(Others()) && Footprint() == old(Footprint())
        decreases |chain|
      {
        UnlinkHead();
      }
    }

    /** The fragment in which the first `n` bytes end, and how many of them it holds. */
    method FindCut(n: nat) returns (last: BufferFragment, remaining: nat, ghost k: nat)
      requires Chained() && 0 < n <= |Bytes()|
      ensures k < |chain| && last == chain[k]
      ensures TakeCuts(parts, n, k, remaining) && remaining <= |parts[k]|
    {
      remaining := n;
      k := 0;
      TakeCutsStart(parts, n);
      assert chain != [];
      last := fragments;
      FragmentAt(0);
      while last.end - last.start < remaining
        invariant k < |chain| && last == chain[k] && TakeCuts(parts, n, k, remaining)
        invariant |parts| == |chain| && Holds(last, parts[k])
        decreases |chain| - k
      {
        TakeCutsNext(parts, n, k, remaining);
        FragmentAt(k);
        FragmentAt(k + 1);
        remaining := remaining - (last.end - last.start);
        last := last.next;
        k := k + 1;
      }
    }

    /** Fragment `k` keeps only its first `remaining` bytes. */
    method CutFragment(last: BufferFragment, remaining: nat, ghost k: nat)
      requires Chained() && k < |chain| && last == chain[k] && |parts| == |chain| && remaining <= |parts[k]|
      modifies this`parts, last`end
      ensures Chained() && parts == old(parts)[k := old(parts)[k][..remaining]]
    {
      FragmentAt(k);
      SliceTake(last.data, last.start, last.end, remaining);
      if last.end - last.start > remaining {
        last.end := last.start + remaining;
      }
      HoldingJoin(chain, parts, k, parts[k][..remaining]);
      parts := parts[k := parts[k][..remaining]];
    }

    /** The chain ends with fragment `k`; what followed comes off. */
    method CutChain(last: BufferFragment, ghost k: nat) returns (frag: BufferFragment?)
      requires Chained() && k < |chain| && last == chain[k]
      modifies this`chain, this`parts, last`next
      ensures Chained() && chain == old(chain)[..k + 1] && parts == old(parts)[..k + 1]
      ensures Segment(frag, old(chain)[k + 1..], null)
      ensures Set(old(chain)[k + 1..]) !! Set(chain) && old(Set(chain)) == Set(chain) + Set(old(chain)[k + 1..])
    {
      SegmentAt(fragments, chain, k, null);
      HoldingSplit(chain, parts, k + 1);
      ghost var a := chain[..k];
      frag := last.next;
      last.next := null;
      assert Set([]) == {};
      SegmentJoin(fragments, a, last, [], null);
      assert a + ([last] + []) == chain[..k + 1];
      chain, parts := chain[..k + 1], parts[..k + 1];
    }

    /** A chain cut off from this buffer goes back to the pool. */
    method FreeTail(frag: BufferFragment?, ghost tail: seq<BufferFragment>)
      requires Owned() && Segment(frag, tail, null) && Set(tail) <= pool.live && Set(chain) !! Set(tail)
      modifies pool, tail`next
      ensures Owned()
      ensures Others() == old(Others()) - Set(tail) && Set(pool.free) == old(Set(pool.free)) + Set(tail)
    {
      NoneShared(chain, tail);
      pool.FreeChain(frag, tail);
    }

    /** Everything after fragment `k` is cut off and freed. */
    method CutAfter(last: BufferFragment, ghost k: nat)
      requires Owned() && k < |chain| && last == chain[k]
      modifies this`chain, this`parts, pool, chain`next
      ensures Owned() && parts == old(parts)[..k + 1]
      ensures Footprint() == old(Footprint()) && Others() == old(Others())
    {
      ghost var tail := chain[k + 1..];
      assert last in Set(chain) && last !in Set(pool.free);
      var frag := CutChain(last, k);
      FreeTail(frag, tail);
    }

    /** The chain keeps its first `n` bytes. */
    method Truncate(n: nat)
      requires Owned() && 0 < n <= |Bytes()|
      modifies Footprint()
      ensures Owned() && length == old(length)
      ensures Footprint() == old(Footprint()) && Others() == old(Others())
      ensures parts == TakeBytes(old(parts), n)
    {
      var last, remaining, k := FindCut(n);
      TakeCutsEnd(parts, n, k, remaining);
      assert last in Set(chain);
      CutFragment(last, remaining, k);
      CutAfter(last, k);
    }

    method TrimTail(size: nat)
      requires Valid() && size <= length
      modifies Footprint()
      ensures Valid() && Footprint() == old(Footprint()) && Others() == old(Others())
      ensures Bytes() == old(Bytes())[..|old(Bytes())| - size]
      ensures parts == TakeBytes(old(parts), |old(Bytes())| - size)
    {
      if size == length {
        UnlinkAll();
        length := 0;
        return;
      }
      length := length - size;
      Truncate(length);
      TakeBytesIsTake(old(parts), length);
      TakeBytesNonEmpty(old(parts), length);
    }

    // ---------- append_from_slice ----------

    /** `last` ends the chain. */
    ghost predicate EndsIn(last: BufferFragment)
      reads this`chain
    {
      chain != [] && last == chain[|chain| - 1]
    }

    method FindLast() returns (last: BufferFragment)
      requires Chained() && chain != []
      ensures EndsIn(last) && last.next == null && |parts| == |chain| && Holds(last, parts[|parts| - 1])
    {
      ghost var i := 0;
      last := fragments;
      FragmentAt(0);
      while last.next != null
        invariant 0 <= i < |chain| && last == chain[i]
        invariant last.next == At(chain, i + 1)
        decreases |chain| - i
      {
        last := last.next;
        i := i + 1;
        FragmentAt(i);
      }
      FragmentAt(i);
    }

    /** A chain of fragments is linked behind the last one. */
    method LinkBehind(last: BufferFragment, head: BufferFragment?, ghost c: seq<BufferFragment>, ghost p: seq<seq<u8>>)
      requires Chained() && EndsIn(last)
      requires Segment(head, c, null) && Holding(c, p) && Set(c) !! Set(chain)
      modifies this`chain, this`parts, last`next
      ensures Chained() && chain == old(chain) + c && parts == old(parts) + p
      ensures Set(chain) == old(Set(chain)) + Set(c)
    {
      ghost var k := |chain| - 1;
      ghost var a := chain[..k];
      SegmentAt(fragments, chain, k, null);
      HoldingConcat(chain, parts, c, p);
      SetConcat(chain, c);
      assert last in Set(chain) && last !in Set(c);
      assert a + ([last] + c) == chain + c;
      last.next := head;
      SegmentJoin(fragments, a, last, c, null);
      chain, parts := chain + c, parts + p;
    }

    /** An empty fragment becomes the only one of an empty chain. */
    method FirstFragment() returns (last: BufferFragment)
      requires Owned() && chain == []
      modifies this, pool, pool.free
      ensures Owned() && length == old(length)
      ensures Others() == old(Others()) && fresh(Footprint() - old(Footprint()))
      ensures chain == [last] && parts == [[]] && last.start == 0 && last.end == 0
    {
      last := Claim();
      Prepend(last);
    }

    /** An empty fragment is linked behind the last one. */
    method LinkLast(last: BufferFragment) returns (f: BufferFragment)
      requires Owned() && EndsIn(last)
      modifies this`chain, this`parts, pool, pool.free, last`next
      ensures Owned() && EndsIn(f)
      ensures Others() == old(Others()) && fresh(Footprint() - old(Footprint()))
      ensures parts == old(parts) + [[]]
      ensures f.start == 0 && f.end == 0
    {
      assert last in Set(chain) && last !in Set(pool.free);
      f := Claim();
      SetCons(f, []);
      ghost var empty: seq<seq<u8>> := [[]];
      assert empty[1..] == [];
      LinkBehind(last, f, [f], empty);
    }

    /** Bytes go behind those of the last fragment, where they fit. */
    method FillLast(last: BufferFragment, bytes: seq<u8>)
      requires Chained() && EndsIn(last) && last.end + |bytes| <= FRAGMENT_SIZE
      modifies this`parts, last`end, last`data
      ensures Chained() && parts != [] && old(parts) != [] && parts == GrowLast(old(parts), bytes)
      ensures last.end == old(last.end) + |bytes|
    {
      ghost var k := |chain| - 1;
      FragmentAt(k);
      SpliceBehind(last.data, last.start, last.end, bytes);
      last.data := Splice(last.data, last.end, bytes);
      last.end := last.end + |bytes|;
      HoldingJoin(chain, parts, k, parts[k] + bytes);
      parts := parts[k := parts[k] + bytes];
    }

    ghost predicate FromStart(last: BufferFragment)
      reads this`parts, last`end
    {
      parts != [] && |parts[|parts| - 1]| == last.end
    }

    /** The last fragment holds bytes from its very start. */
    ghost predicate LastFromStart()
      reads this, chain
    {
      chain != [] ==> FromStart(chain[|chain| - 1])
    }

    /** Every fragment but the last is full, and the last is filled from its start. */
    ghost predicate Packed()
      reads this, chain
    {
      FullButLast(parts, FRAGMENT_SIZE) && LastFromStart()
    }

    /** A new last fragment, if more is to come. */
    method MoveOn(last: BufferFragment, more: bool) returns (newLast: BufferFragment)
      requires Owned() && EndsIn(last) && parts != []
      modifies this`chain, this`parts, pool, pool.free, last`next
      ensures Owned() && EndsIn(newLast)
      ensures Others() == old(Others()) && fresh(Footprint() - old(Footprint()))
      ensures if more then parts == old(parts) + [[]] && newLast.end == 0
              else parts == old(parts) && newLast == last && last.end == old(last.end)
    {
      newLast := last;
      if more {
        newLast := LinkLast(last);
      }
    }

    /** One turn of the loop of append_from_slice: fill the last fragment, and add another if
        bytes are left. */
    method AppendStep(last: BufferFragment, rest: seq<u8>) returns (newLast: BufferFragment, n: nat)
      requires Owned() && EndsIn(last) && last.end <= FRAGMENT_SIZE && rest != []
      modifies this`chain, this`parts, pool, pool.free, last
      ensures Owned() && EndsIn(newLast) && newLast.end <= FRAGMENT_SIZE
      ensures Others() == old(Others()) && fresh(Footprint() - old(Footprint()))
      ensures n == Min(FRAGMENT_SIZE - old(last.end), |rest|)
      ensures n < |rest| ==> newLast.end == 0
      ensures parts != [] && old(parts) != []
      ensures FillParts(parts, newLast.end, rest[n..], FRAGMENT_SIZE)
           == FillParts(old(parts), old(last.end), rest, FRAGMENT_SIZE)
      ensures old(FromStart(last)) ==> FromStart(newLast)
    {
      n := Min(FRAGMENT_SIZE - last.end, |rest|);
      FragmentAt(|chain| - 1);
      FillPartsStep(parts, last.end, rest, FRAGMENT_SIZE);
      FillLast(last, rest[..n]);
      newLast := MoveOn(last, n < |rest|);
    }

    /** The last fragment, or a new one if there is none. */
    method LastFragment() returns (last: BufferFragment)
      requires Owned() && NonEmptyParts(parts)
      modifies this, pool, pool.free
      ensures Owned() && EndsIn(last) && last.end <= FRAGMENT_SIZE && length == old(length)
      ensures Others() == old(Others()) && fresh(Footprint() - old(Footprint()))
      ensures ReadyToFill(old(parts), parts, last.end)
      ensures old(LastFromStart()) ==> FromStart(last)
    {
      if fragments == null {
        last := FirstFragment();
      } else {
        last := FindLast();
      }
    }

    /** ... with the bytes from `offset` on still to come. */
    method AppendTurn(last: BufferFragment, data: seq<u8>, offset: nat) returns (newLast: BufferFragment, newOffset: nat)
      requires Owned() && EndsIn(last) && last.end <= FRAGMENT_SIZE && parts != [] && offset < |data|
      modifies this`chain, this`parts, pool, pool.free, last
      ensures Owned() && EndsIn(newLast) && newLast.end <= FRAGMENT_SIZE && parts != [] && newOffset <= |data|
      ensures Others() == old(Others()) && fresh(Footprint() - old(Footprint()))
      ensures newOffset > offset || (newOffset == offset && newLast.end < old(last.end))
      ensures FillParts(parts, newLast.end, data[newOffset..], FRAGMENT_SIZE)
           == old(FillParts(parts, last.end, data[offset..], FRAGMENT_SIZE))
      ensures old(FromStart(last)) ==> FromStart(newLast)
    {
      var n;
      newLast, n := AppendStep(last, data[offset..]);
      newOffset := offset + n;
      assert data[offset..][n..] == data[newOffset..];
    }

    /** The loop of append_from_slice. */
    method AppendLoop(first: BufferFragment, data: seq<u8>)
      requires Owned() && EndsIn(first) && first.end <= FRAGMENT_SIZE && parts != []
      modifies Footprint()
      ensures Owned() && length == old(length) && parts != []
      ensures Others() == old(Others()) && fresh(Footprint() - old(Footprint()))
      ensures parts == FillParts(old(parts), old(first.end), data, FRAGMENT_SIZE)
      ensures old(FromStart(first)) ==> LastFromStart()
    {
      var last, offset := first, 0;
      ghost var goal, fromStart := FillParts(parts, first.end, data, FRAGMENT_SIZE), FromStart(first);
      ghost var mine, foot := Others(), Footprint();
      assert data[0..] == data;
      while offset < |data|
        invariant 0 <= offset <= |data| && length == old(length) && parts != []
        invariant Owned() && EndsIn(last) && last.end <= FRAGMENT_SIZE
        invariant Others() == mine && fresh(Footprint() - foot)
        invariant FillParts(parts, last.end, data[offset..], FRAGMENT_SIZE) == goal
        invariant fromStart ==> FromStart(last)
        decreases |data| - offset, last.end
      {
        assert last in Set(chain);
        last, offset := AppendTurn(last, data, offset);
      }
    }

    /** The chain after the bytes are appended, before `length` is brought up to date. */
    method AppendToChain(data: seq<u8>)
      requires Owned() && NonEmptyParts(parts) && data != []
      modifies Footprint()
      ensures Owned() && length == old(length)
      ensures Others() == old(Others()) && fresh(Footprint() - old(Footprint()))
      ensures Bytes() == old(Bytes()) + data && NonEmptyParts(parts)
      ensures old(Packed()) ==> Packed()
    {
      ghost var p, packed := parts, Packed();
      var last := LastFragment();
      ghost var ready, end := parts, last.end;
      assert packed ==> FromStart(last);
      FillReady(p, ready, end, data, FRAGMENT_SIZE);
      AppendLoop(last, data);
      assert parts == FillParts(ready, end, data, FRAGMENT_SIZE);
    }

    method AppendFromSlice(data: seq<u8>)
      requires Valid()
      modifies Footprint()
      ensures Valid() && fresh(Footprint() - old(Footprint())) && Others() == old(Others())
      ensures Bytes() == old(Bytes()) + data
      ensures old(Packed()) ==> Packed()
    {
      if data == [] {
        assert Bytes() + data == Bytes();
        return;
      }
      AppendToChain(data);
      length := length + |data|;
    }

    // ---------- append_from_buffer ----------

    /** Another buffer of the same pool that shares no fragment with this one. */
    ghost predicate Beside(other: NetBuffer)
      reads this, pool, pool.free`next, chain, other, other.chain
    {
      && other != this && other.pool == pool && Set(chain) !! Set(other.chain)
      && pool.Valid() && Set(other.chain) <= pool.live && Set(chain) <= pool.live
      && Chained() && NonEmptyParts(parts) && length == |Bytes()|
      && other.Chained() && NonEmptyParts(other.parts) && other.length == |other.Bytes()|
    }

    /** Bytes are appended to this buffer while another one of the same pool looks on. */
    method AppendBeside(data: seq<u8>, other: NetBuffer)
      requires Beside(other)
      modifies Footprint()
      ensures Beside(other) && fresh(Footprint() - old(Footprint())) && Others() == old(Others())
      ensures Bytes() == old(Bytes()) + data
      ensures old(Packed()) ==> Packed()
      ensures unchanged(other, other.chain)
    {
      assert Set(other.chain) <= Others();
      assert forall f :: f in other.chain ==> f in Set(other.chain) && f !in Footprint();
      AppendFromSlice(data);
      assert Set(other.chain) <= Others();
    }

    /** One turn of the loop of append_from_buffer. */
    method AppendNext(other: NetBuffer, iter: BufferIterator) returns (more: bool)
      requires Beside(other) && iter.Valid() && iter.buffer == other && iter !in Footprint()
      modifies Footprint(), iter
      ensures Beside(other) && fresh(Footprint() - old(Footprint())) && Others() == old(Others())
      ensures iter.Valid() && other.parts == old(other.parts) && iter !in Footprint()
      ensures iter.Moved(other.parts, old(iter.index), old(iter.remaining), more)
      ensures if more then var p := other.parts[old(iter.index)];
                           Bytes() == old(Bytes()) + p[..Min(|p|, old(iter.remaining))]
              else Bytes() == old(Bytes())
      ensures old(Packed()) ==> Packed()
    {
      var slice := iter.Next();
      more := slice.Some?;
      if more {
        AppendBeside(slice.value, other);
      }
    }

    /** The iterator on `p` has given this buffer, which held `before`, what it should have. */
    ghost predicate Following(iter: BufferIterator, p: seq<seq<u8>>, before: seq<u8>, limit: nat)
      reads this`parts, iter`index, iter`remaining
    {
      && iter.index <= |p| && iter.remaining == Left(p, iter.index, limit)
      && Bytes() == AndGiven(before, p, iter.index, limit)
    }

    /** ... and one turn later still has. */
    method FollowNext(other: NetBuffer, iter: BufferIterator, ghost p: seq<seq<u8>>, ghost before: seq<u8>,
                      ghost limit: nat) returns (more: bool)
      requires Beside(other) && iter.Valid() && iter.buffer == other && iter !in Footprint()
      requires other.parts == p && Following(iter, p, before, limit)
      modifies Footprint(), iter
      ensures Beside(other) && fresh(Footprint() - old(Footprint())) && Others() == old(Others())
      ensures iter.Valid() && other.parts == p && iter !in Footprint()
      ensures Following(iter, p, before, limit)
      ensures iter.index == old(iter.index) + if more then 1 else 0
      ensures more || iter.index == |p| || iter.remaining == 0
      ensures old(Packed()) ==> Packed()
    {
      more := AppendNext(other, iter);
    }

    /** The loop of append_from_buffer. */
    method AppendRest(other: NetBuffer, iter: BufferIterator, ghost limit: nat)
      requires Beside(other) && iter.Valid() && iter.buffer == other && iter !in Footprint()
      requires iter.index == 0 && iter.remaining == limit
      modifies Footprint(), iter
      ensures Beside(other) && fresh(Footprint() - old(Footprint())) && Others() == old(Others())
      ensures other.parts == old(other.parts) && iter.index <= |other.parts|
      ensures Bytes() == AndGiven(old(Bytes()), other.parts, iter.index, limit)
      ensures iter.index == |other.parts| || Left(other.parts, iter.index, limit) == 0
      ensures old(Packed()) ==> Packed()
    {
      ghost var p, before, packed, mine, foot := other.parts, Bytes(), Packed(), Others(), Footprint();
      var more := true;
      while more
        invariant Beside(other) && fresh(Footprint() - foot) && Others() == mine
        invariant other.parts == p && iter.Valid() && iter !in Footprint()
        invariant Following(iter, p, before, limit)
        invariant more || iter.index == |p| || iter.remaining == 0
        invariant packed ==> Packed()
        decreases |p| - iter.index, more
      {
        more := FollowNext(other, iter, p, before, limit);
      }
    }

    method AppendFromBuffer(other: NetBuffer, limit: nat)
      requires Beside(other)
      modifies Footprint()
      ensures Beside(other) && fresh(Footprint() - old(Footprint())) && Others() == old(Others())
      ensures Bytes() == old(Bytes()) + other.Bytes()[..Min(limit, |other.Bytes()|)]
      ensures old(Packed()) ==> Packed()
    {
      var iter := other.Iter(limit);
      AppendRest(other, iter, limit);
      GivenAll(old(Bytes()), other.parts, iter.index, limit);
    }

    // ---------- append_buffer ----------

    /** The chain of another buffer becomes the end of this one. */
    method Adopt(head: BufferFragment?, ghost c: seq<BufferFragment>, ghost p: seq<seq<u8>>)
      requires Chained() && Segment(head, c, null) && Holding(c, p) && Set(c) !! Set(chain)
      modifies this`fragments, this`chain, this`parts, chain`next
      ensures Chained() && parts == old(parts) + p && Set(chain) == old(Set(chain)) + Set(c)
    {
      if fragments == null {
        fragments := head;
        chain, parts := c, p;
        assert [] + p == p;
      } else {
        var last := FindLast();
        LinkBehind(last, head, c, p);
      }
    }

    /** The fragments of `other` become the end of this buffer; `other` is left without any. */
    method AppendBuffer(other: NetBuffer)
      requires Beside(other)
      modifies this, chain`next, other
      ensures Valid() && other.Owned() && other.chain == [] && other.fragments == null
      ensures Bytes() == old(Bytes()) + old(other.Bytes())
      ensures parts == old(parts) + old(other.parts)
      ensures Others() == old(Others()) - old(Set(other.chain))
      ensures Set(chain) == old(Set(chain)) + old(Set(other.chain))
    {
      FlattenConcat(parts, other.parts);
      NonEmptyConcat(parts, other.parts);
      NoneShared(chain, pool.free);
      length := length + other.length;
      ghost var c, p := other.chain, other.parts;
      var head := other.Surrender();
      Adopt(head, c, p);
    }

    // ---------- reading ----------

    method Header() returns (h: seq<u8>)
      requires Valid() && parts != []
      ensures h == parts[0]
    {
      FragmentAt(0);
      h := fragments.data[fragments.start..fragments.end];
    }

    method Iter(limit: nat) returns (iter: BufferIterator)
      requires Chained()
      ensures fresh(iter) && iter.buffer == this && iter.Valid() && iter.index == 0 && iter.remaining == limit
    {
      iter := new BufferIterator(this, limit);
    }

    /** The next slice goes into `dest` behind the `copied` bytes that are there. */
    method CopyNext(iter: BufferIterator, dest: array<u8>, copied: nat, total: nat) returns (n: nat)
      requires Chained() && NonEmptyParts(parts) && length == |Bytes()|
      requires iter.Valid() && iter.buffer == this && iter.index <= |parts| && total <= Min(dest.Length, length)
      requires copied == Offset(parts, iter.index) < total && length <= iter.remaining + copied
      modifies iter, dest
      ensures iter.Valid() && iter.index == old(iter.index) + 1 <= |parts| && 0 < n <= total - copied
      ensures n == Min(|parts[old(iter.index)]|, total - copied)
      ensures Offset(parts, iter.index) <= length
      ensures iter.remaining == old(iter.remaining) - |parts[old(iter.index)]|
      ensures dest[..] == Splice(old(dest[..]), copied, Bytes()[copied..copied + n])
    {
      ghost var i, b := iter.index, Bytes();
      NextPiece(parts, i, total);
      ghost var p := parts[i];
      assert p != [];
      var slice := iter.Next();
      assert slice.value == p[..|p|] == p;
      n := Min(|slice.value|, total - copied);
      assert b[copied..copied + n] == slice.value[..n];
      CopyIn(dest, copied, slice.value[..n]);
    }

    /** The loop of copy_to_slice. */
    method CopyAll(iter: BufferIterator, dest: array<u8>, total: nat) returns (copied: nat)
      requires Chained() && NonEmptyParts(parts) && length == |Bytes()| && total == Min(dest.Length, length)
      requires iter.Valid() && iter.buffer == this && iter.index == 0 && length <= iter.remaining
      modifies iter, dest
      ensures copied == total && iter.Valid() && iter.index <= |parts| && total <= Offset(parts, iter.index)
      ensures dest[..] == Splice(old(dest[..]), 0, Bytes()[..copied])
    {
      copied := 0;
      ghost var d, b := dest[..], Bytes();
      while copied < total
        invariant copied <= total && iter.Valid() && iter.index <= |parts|
        invariant copied == Min(total, Offset(parts, iter.index)) && Offset(parts, iter.index) <= length
        invariant length <= iter.remaining + Offset(parts, iter.index)
        invariant dest[..] == Filled(d, b, copied)
        decreases total - copied
      {
        var n := CopyNext(iter, dest, copied, total);
        FilledFurther(d, b, copied, n);
        copied := copied + n;
      }
      FilledIsSplice(d, b, copied);
    }

    /** The two assertions at its end are those of the source. */
    method CopyToSlice(dest: array<u8>) returns (copied: nat)
      requires Valid() && length <= USIZE_MAX
      modifies dest
      ensures copied == Min(dest.Length, length)
      ensures dest[..] == Splice(old(dest[..]), 0, Bytes()[..copied])
    {
      var iter := Iter(USIZE_MAX);
      copied := CopyAll(iter, dest, Min(dest.Length, length));
      assert copied == length || copied == dest.Length;
      if copied == length {
        AllRead(parts, iter.index);
        var more := iter.Next();
        assert more == None;
      }
    }
  }

  /** `d` with its first `n` bytes overwritten by those of `bytes`. */
  function Filled(d: seq<u8>, bytes: seq<u8>, n: nat): (r: seq<u8>)
    requires n <= |bytes| && n <= |d|
    ensures |r| == |d|
  {
    if n == 0 then d else Filled(d, bytes, n - 1)[n - 1 := bytes[n - 1]]
  }

  lemma {:induction false} FilledIsSplice(d: seq<u8>, bytes: seq<u8>, n: nat)
    requires n <= |bytes| && n <= |d|
    ensures Filled(d, bytes, n) == Splice(d, 0, bytes[..n])
  {
    if n > 0 {
      FilledIsSplice(d, bytes, n - 1);
    }
  }

  lemma FilledFurther(d: seq<u8>, bytes: seq<u8>, c: nat, n: nat)
    requires c + n <= |bytes| && c + n <= |d|
    ensures Splice(Filled(d, bytes, c), c, bytes[c..c + n]) == Filled(d, bytes, c + n)
  {
    FilledIsSplice(d, bytes, c);
    FilledIsSplice(d, bytes, c + n);
  }

  lemma SpliceOne(d: seq<u8>, offset: nat, bytes: seq<u8>, i: nat)
    requires offset + |bytes| <= |d| && i < |bytes|
    ensures Splice(d, offset, bytes[..i])[offset + i := bytes[i]] == Splice(d, offset, bytes[..i + 1])
  {}

  const USIZE_MAX: nat := 0xffff_ffff_ffff_ffff

  /** copy_from_slice into part of an array. */
  method CopyIn(dest: array<u8>, offset: nat, bytes: seq<u8>)
    requires offset + |bytes| <= dest.Length
    modifies dest
    ensures dest[..] == Splice(old(dest[..]), offset, bytes)
  {
    for i := 0 to |bytes|
      invariant dest[..] == Splice(old(dest[..]), offset, bytes[..i])
    {
      SpliceOne(old(dest[..]), offset, bytes, i);
      ghost var before := dest[..];
      dest[offset + i] := bytes[i];
      assert dest[..] == before[offset + i := bytes[i]];
    }
    assert bytes[..|bytes|] == bytes;
  }

  class BufferIterator {
    const buffer: NetBuffer
    var currentFrag: BufferFragment?
    var remaining: nat
    ghost var index: nat

    ghost predicate Valid()
      reads this, buffer, buffer.chain
    {
      buffer.Chained() && index <= |buffer.chain| && currentFrag == At(buffer.chain, index)
    }

    constructor (buffer: NetBuffer, length: nat)
      requires buffer.Chained()
      ensures this.buffer == buffer && Valid() && index == 0 && remaining == length
    {
      this.buffer := buffer;
      currentFrag := buffer.fragments;
      remaining := length;
      index := 0;
    }

    /** From fragment `i` with `r` bytes to go: one fragment on if `more`, else nothing. */
    ghost predicate Moved(parts: seq<seq<u8>>, i: nat, r: nat, more: bool)
      reads this`index, this`remaining
    {
      && more == (i < |parts| && r > 0)
      && if more then index == i + 1 && remaining == r - Min(|parts[i]|, r) else index == i && remaining == r
    }

    /** The next slice: a whole fragment, or as much of it as remains. */
    method Next() returns (slice: Option<seq<u8>>)
      requires Valid()
      modifies this
      ensures Valid()
      ensures Moved(buffer.parts, old(index), old(remaining), slice.Some?)
      ensures slice.Some? ==> var p := buffer.parts[old(index)]; slice.value == p[..Min(|p|, old(remaining))]
    {
      if currentFrag == null || remaining == 0 {
        return None;
      }
      buffer.FragmentAt(index);
      var n := Min(currentFrag.end - currentFrag.start, remaining);
      slice := Some(currentFrag.data[currentFrag.start..currentFrag.start + n]);
      SliceTake(currentFrag.data, currentFrag.start, currentFrag.end, n);
      remaining := remaining - n;
      currentFrag := currentFrag.next;
      index := index + 1;
    }
  }
}
