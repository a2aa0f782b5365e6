/** Any program over any number of buffers that share the pool.

    What the buffers mean is a list of byte strings, and every operation is given on that list
    by `Apply`.  Whatever operations are run, the heap of linked fragments behaves as the list
    does, and every fragment ever created is on the free list or in exactly one live buffer.
  */
module Heap {
  import opened Words
  import opened Parts
  import opened Pool
  import opened Buffer

  const MRU := 2048

  /** What can be done to a single buffer. */
  datatype Edit =
    | PushHeader(bytes: seq<u8>)
    | TrimHead(size: nat)
    | TrimTail(size: nat)
    | AppendFromSlice(bytes: seq<u8>)

  datatype Op =
    | New
    | Receive(bytes: seq<u8>)
    | Change(i: nat, edit: Edit)
    | AppendFromBuffer(i: nat, j: nat, limit: nat)
    | AppendBuffer(i: nat, j: nat)
    | Drop(i: nat)

  /** What an edit means for a string; None where an assertion of the source would fail. */
  function Edited(s: seq<u8>, edit: Edit): Option<seq<u8>> {
    match edit
    case PushHeader(bytes) => if 1 <= |bytes| <= FRAGMENT_SIZE then Some(bytes + s) else None
    case TrimHead(size) => if size <= |s| then Some(s[size..]) else None
    case TrimTail(size) => if size <= |s| then Some(DropEnd(s, size)) else None
    case AppendFromSlice(bytes) => Some(s + bytes)
  }

  /** What an operation means for strings; None also where there are no such buffers. */
  function Apply(c: seq<seq<u8>>, op: Op): Option<seq<seq<u8>>> {
    match op
    case New => Some(c + [[]])
    case Receive(bytes) => if 0 < |bytes| <= MRU then Some(c + [bytes]) else None
    case Change(i, edit) =>
      if i < |c| && Edited(c[i], edit).Some? then Some(c[i := Edited(c[i], edit).value]) else None
    case AppendFromBuffer(i, j, limit) =>
      if i < |c| && j < |c| && i != j then Some(c[i := c[i] + Prefix(c[j], limit)]) else None
    case AppendBuffer(i, j) =>
      if i < |c| && j < |c| && i != j then Some(Without(c[i := c[i] + c[j]], j)) else None
    case Drop(i) => if i < |c| then Some(Without(c, i)) else None
  }

  function DropEnd(s: seq<u8>, n: nat): seq<u8>
    requires n <= |s|
  {
    s[..|s| - n]
  }

  function Prefix(s: seq<u8>, n: nat): seq<u8> { s[..Min(n, |s|)] }

  function ApplyAll(c: seq<seq<u8>>, ops: seq<Op>): Option<seq<seq<u8>>>
    decreases |ops|
  {
    if ops == [] then Some(c)
    else
      var next := Apply(c, ops[0]);
      if next == None then None else ApplyAll(next.value, ops[1..])
  }

  // ---------- the buffers ----------

  ghost function Heads(bs: seq<NetBuffer>): set<NetBuffer>
    decreases |bs|
  {
    if bs == [] then {} else {bs[0]} + Heads(bs[1..])
  }

  ghost function View(bs: seq<NetBuffer>): (v: seq<seq<u8>>)
    reads bs`parts
    ensures |v| == |bs|
    decreases |bs|
  {
    if bs == [] then [] else [bs[0].Bytes()] + View(bs[1..])
  }

  lemma {:induction false} InHeads(bs: seq<NetBuffer>, b: NetBuffer)
    ensures b in bs <==> b in Heads(bs)
    decreases |bs|
  {
    if bs != [] {
      InHeads(bs[1..], b);
    }
  }

  lemma {:induction false} HeadsConcat(bs: seq<NetBuffer>, b: NetBuffer)
    ensures Heads(bs + [b]) == Heads(bs) + {b}
    decreases |bs|
  {
    if bs != [] {
      assert (bs + [b])[1..] == bs[1..] + [b];
      HeadsConcat(bs[1..], b);
    }
  }

  lemma {:induction false} HeadsWithout(bs: seq<NetBuffer>, i: nat)
    requires i < |bs|
    ensures Heads(Without(bs, i)) <= Heads(bs)
    decreases i
  {
    if i == 0 {
      assert Without(bs, 0) == bs[1..];
    } else {
      WithoutStep(bs, i);
      HeadsWithout(bs[1..], i - 1);
    }
  }

  /** One buffer in good order. */
  ghost predicate Sound(b: NetBuffer)
    reads b, b.chain
  {
    b.Chained() && NonEmptyParts(b.parts) && b.length == |b.Bytes()|
  }

  /** The buffers are distinct and sound, and divide the fragments of `live` among them. */
  ghost predicate Divided(bs: seq<NetBuffer>, pool: FragmentPool, live: set<BufferFragment>)
    reads bs, live
    decreases |bs|
  {
    if bs == [] then live == {}
    else
      && bs[0].pool == pool && bs[0] !in bs[1..] && Set(bs[0].chain) <= live && Sound(bs[0])
      && Divided(bs[1..], pool, live - Set(bs[0].chain))
  }

  lemma WithoutStep<T>(s: seq<T>, i: nat)
    requires 0 < i < |s|
    ensures Without(s, i)[0] == s[0] && Without(s, i)[1..] == Without(s[1..], i - 1) && s[1..][i - 1] == s[i]
  {}

  /** One buffer set apart: the others divide what it does not have. */
  lemma {:induction false} Focus(bs: seq<NetBuffer>, i: nat, pool: FragmentPool, live: set<BufferFragment>)
    requires Divided(bs, pool, live) && i < |bs|
    ensures bs[i].pool == pool && Sound(bs[i]) && Set(bs[i].chain) <= live && bs[i] !in Without(bs, i)
    ensures Divided(Without(bs, i), pool, live - Set(bs[i].chain))
    decreases i
  {
    var c := Set(bs[i].chain);
    if i == 0 {
      assert Without(bs, 0) == bs[1..];
    } else {
      var c0 := Set(bs[0].chain);
      WithoutStep(bs, i);
      Focus(bs[1..], i - 1, pool, live - c0);
      assert live - c0 - c == live - c - c0;
      assert bs[i] in bs[1..];
      assert c0 <= live - c;
    }
  }

  /** ... and put back. */
  lemma {:induction false} Unfocus(bs: seq<NetBuffer>, i: nat, pool: FragmentPool, live: set<BufferFragment>)
    requires i < |bs| && Divided(Without(bs, i), pool, live - Set(bs[i].chain))
    requires bs[i].pool == pool && Sound(bs[i]) && Set(bs[i].chain) <= live && bs[i] !in Without(bs, i)
    ensures Divided(bs, pool, live)
    decreases i
  {
    var c := Set(bs[i].chain);
    if i == 0 {
      assert Without(bs, 0) == bs[1..];
    } else {
      var c0 := Set(bs[0].chain);
      WithoutStep(bs, i);
      assert live - c0 - c == live - c - c0;
      Unfocus(bs[1..], i - 1, pool, live - c0);
      assert bs[0] !in bs[1..] by {
        assert forall k :: 1 <= k < |bs| && k != i ==> bs[k] in Without(bs, i)[1..];
      }
    }
  }

  lemma Appended(bs: seq<NetBuffer>, b: NetBuffer, pool: FragmentPool, live: set<BufferFragment>)
    requires Divided(bs, pool, live - Set(b.chain)) && b !in bs
    requires b.pool == pool && Sound(b) && Set(b.chain) <= live
    ensures Divided(bs + [b], pool, live) && View(bs + [b]) == View(bs) + [b.Bytes()]
    ensures Heads(bs + [b]) == Heads(bs) + {b}
  {
    var n := |bs|;
    var all := bs + [b];
    assert Without(all, n) == bs;
    Unfocus(all, n, pool, live);
    ViewAt(all, n);
    assert View(all) == Without(View(all), n) + [View(all)[n]];
    HeadsConcat(bs, b);
  }

  lemma {:induction false} ViewAt(bs: seq<NetBuffer>, i: nat)
    requires i < |bs|
    ensures View(bs)[i] == bs[i].Bytes()
    ensures View(Without(bs, i)) == Without(View(bs), i)
    decreases i
  {
    if i == 0 {
      assert Without(bs, 0) == bs[1..];
    } else {
      WithoutStep(bs, i);
      WithoutStep(View(bs), i);
      ViewAt(bs[1..], i - 1);
    }
  }

  lemma WithoutSame<T>(v: seq<T>, w: seq<T>, i: nat)
    requires i < |v| == |w| && Without(v, i) == Without(w, i)
    ensures w == v[i := w[i]]
  {
    forall k | 0 <= k < |v| ensures w[k] == v[i := w[i]][k] {
      if k < i {
        assert Without(v, i)[k] == v[k] && Without(w, i)[k] == w[k];
      } else if k > i {
        assert Without(v, i)[k - 1] == v[k] && Without(w, i)[k - 1] == w[k];
      }
    }
  }

  // ---------- one buffer among others ----------

  /** The buffers `rest` and their fragments `mine` are out of reach of an operation on `b`. */
  lemma OutOfReach(b: NetBuffer, rest: seq<NetBuffer>, mine: set<BufferFragment>)
    requires b.Valid() && b !in rest && mine == b.Others()
    ensures forall k :: 0 <= k < |rest| ==> rest[k] !in b.Footprint()
    ensures forall f :: f in mine ==> f !in b.Footprint()
  {}

  method EditBuffer(b: NetBuffer, edit: Edit)
    requires b.Valid() && Edited(b.Bytes(), edit).Some?
    modifies b.Footprint()
    ensures b.Valid() && b.Others() == old(b.Others()) && fresh(b.Footprint() - old(b.Footprint()))
    ensures Some(b.Bytes()) == Edited(old(b.Bytes()), edit)
  {
    match edit
    case PushHeader(bytes) => b.PushHeader(bytes);
    case TrimHead(size) => b.TrimHead(size);
    case TrimTail(size) => b.TrimTail(size);
    case AppendFromSlice(bytes) => b.AppendFromSlice(bytes);
  }

  /** An edit among the buffers `rest`, which divide the fragments `mine`. */
  method EditAmong(b: NetBuffer, edit: Edit, ghost rest: seq<NetBuffer>, ghost mine: set<BufferFragment>)
    requires b.Valid() && Edited(b.Bytes(), edit).Some?
    requires b !in rest && Divided(rest, b.pool, mine) && mine == b.Others()
    modifies b.Footprint()
    ensures b.Valid() && b.Others() == mine && fresh(b.Footprint() - old(b.Footprint()))
    ensures Some(b.Bytes()) == Edited(old(b.Bytes()), edit)
    ensures Divided(rest, b.pool, mine) && View(rest) == old(View(rest))
  {
    OutOfReach(b, rest, mine);
    EditBuffer(b, edit);
  }

  /** append_from_buffer among the buffers `rest`. */
  method AppendFromAmong(b: NetBuffer, c: NetBuffer, limit: nat, ghost rest: seq<NetBuffer>, ghost mine: set<BufferFragment>)
    requires b.Beside(c) && b !in rest && Divided(rest, b.pool, mine) && mine == b.Others()
    modifies b.Footprint()
    ensures b.Valid() && b.Others() == mine && fresh(b.Footprint() - old(b.Footprint()))
    ensures b.Bytes() == old(b.Bytes()) + Prefix(old(c.Bytes()), limit)
    ensures Divided(rest, b.pool, mine) && View(rest) == old(View(rest))
  {
    OutOfReach(b, rest, mine);
    b.AppendFromBuffer(c, limit);
  }

  /** Dropping a buffer among the buffers `rest`. */
  method DropAmong(b: NetBuffer, ghost rest: seq<NetBuffer>, ghost mine: set<BufferFragment>)
    requires b.Valid() && b !in rest && Divided(rest, b.pool, mine) && mine == b.Others()
    modifies b.Footprint()
    ensures b.pool.Valid() && b.pool.live == mine
    ensures Set(b.pool.free) == old(Set(b.pool.free)) + old(Set(b.chain))
    ensures Divided(rest, b.pool, mine) && View(rest) == old(View(rest))
  {
    OutOfReach(b, rest, mine);
    b.Drop();
  }

  /** append_buffer among the buffers `rest`. */
  method AppendAmong(b: NetBuffer, c: NetBuffer, ghost rest: seq<NetBuffer>, ghost mine: set<BufferFragment>)
    requires b.Beside(c) && b !in rest && c !in rest && Divided(rest, b.pool, mine) && mine == b.Others() - Set(c.chain)
    modifies b.Footprint(), c
    ensures b.Valid() && b.Others() == mine && b.Bytes() == old(b.Bytes()) + old(c.Bytes())
    ensures b.pool.free == old(b.pool.free) && b.pool.live == old(b.pool.live)
    ensures Divided(rest, b.pool, mine) && View(rest) == old(View(rest))
  {
    assert forall f :: f in mine ==> f !in b.chain by {
      assert forall f :: f in b.chain ==> f in Set(b.chain);
    }
    b.AppendBuffer(c);
  }

  /** recv_packet among the buffers `rest`. */
  method ReceiveAmong(pool: FragmentPool, wire: seq<u8>, ghost rest: seq<NetBuffer>, ghost mine: set<BufferFragment>)
    returns (b: NetBuffer)
    requires pool.Valid() && 0 < |wire| <= MRU && Divided(rest, pool, mine) && mine == pool.live
    modifies pool, pool.free
    ensures fresh(b) && b !in rest && b.pool == pool && b.Valid() && b.Bytes() == wire
    ensures b.Others() == mine && fresh(b.Footprint() - {pool} - old(Set(pool.free)))
    ensures Divided(rest, pool, mine) && View(rest) == old(View(rest))
  {
    assert forall k :: 0 <= k < |pool.free| ==> pool.free[k] in Set(pool.free);
    b := RecvPacket(pool, wire);
  }

  class Buffers {
    const pool: FragmentPool
    var bufs: seq<NetBuffer>

    /** Every live fragment is in one buffer, and all buffers are in good order. */
    ghost predicate Valid()
      reads this, pool, pool.free`next, bufs, pool.live
    {
      pool.Valid() && Divided(bufs, pool, pool.live)
    }

    ghost function Fragments(): set<BufferFragment>
      reads pool
    {
      Set(pool.free) + pool.live
    }

    ghost function Everything(): set<object>
      reads this, pool
    {
      {this, pool} + Fragments() + Heads(bufs)
    }

    constructor ()
      ensures Valid() && bufs == []
    {
      pool := new FragmentPool();
      bufs := [];
    }

    /** Buffer `i` and the others, side by side. */
    ghost predicate Apart(i: nat)
      requires i < |bufs|
      reads this, pool, pool.free`next, pool.live, bufs, Without(bufs, i)
    {
      var b := bufs[i];
      var rest := Without(bufs, i);
      && b.pool == pool && b in bufs && pool.Valid() && Set(b.chain) <= pool.live && Sound(b)
      && b !in rest && Divided(rest, pool, b.Others())
      && View(bufs)[i] == b.Bytes() && View(rest) == Without(View(bufs), i)
    }

    lemma Separate(i: nat)
      requires Valid() && i < |bufs|
      ensures Apart(i) && bufs[i].Valid() && bufs[i].Footprint() <= Everything() && this !in bufs[i].Footprint()
    {
      Focus(bufs, i, pool, pool.live);
      ViewAt(bufs, i);
      InHeads(bufs, bufs[i]);
    }

    /** Nothing is ours that was neither ours nor new. */
    twostate lemma StillOurs(i: nat)
      requires i < |bufs| && bufs == old(bufs) && bufs[i].pool == pool
      requires old(Set(bufs[i].chain)) <= old(pool.live) && Set(bufs[i].chain) <= pool.live
      requires bufs[i].Others() == old(bufs[i].Others())
      requires fresh(bufs[i].Footprint() - old(bufs[i].Footprint()))
      ensures fresh(Fragments() - old(Fragments())) && fresh(Heads(bufs) - old(Heads(bufs)))
    {
      assert pool.live == bufs[i].Others() + Set(bufs[i].chain);
    }

    /** After an operation on buffer `i` that left the others alone. */
    twostate lemma Changed(i: nat)
      requires i < |bufs| && bufs == old(bufs) && old(Apart(i))
      requires Divided(Without(bufs, i), pool, old(bufs[i].Others()))
      requires View(Without(bufs, i)) == old(View(Without(bufs, i)))
      requires bufs[i].Valid() && bufs[i].Others() == old(bufs[i].Others())
      requires fresh(bufs[i].Footprint() - old(bufs[i].Footprint()))
      ensures Valid() && View(bufs) == old(View(bufs))[i := bufs[i].Bytes()]
      ensures fresh(Fragments() - old(Fragments())) && fresh(Heads(bufs) - old(Heads(bufs)))
    {
      Unfocus(bufs, i, pool, pool.live);
      ViewAt(bufs, i);
      WithoutSame(old(View(bufs)), View(bufs), i);
      StillOurs(i);
    }

    method Change(i: nat, edit: Edit)
      requires Valid() && i < |bufs| && Edited(View(bufs)[i], edit).Some?
      modifies Everything()
      ensures Valid() && fresh(Fragments() - old(Fragments())) && fresh(Heads(bufs) - old(Heads(bufs)))
      ensures View(bufs) == old(View(bufs))[i := Edited(old(View(bufs))[i], edit).value]
    {
      Separate(i);
      EditAmong(bufs[i], edit, Without(bufs, i), bufs[i].Others());
      Changed(i);
    }

    lemma PairBeside(i: nat, j: nat)
      requires Valid() && i < |bufs| && j < |bufs| && i != j
      ensures bufs[i].Beside(bufs[j]) && View(bufs)[j] == bufs[j].Bytes()
    {
      var k := if j < i then j else j - 1;
      Focus(bufs, i, pool, pool.live);
      Focus(Without(bufs, i), k, pool, bufs[i].Others());
      assert Without(bufs, i)[k] == bufs[j] && bufs[j] in Without(bufs, i);
      ViewAt(bufs, j);
    }

    method AppendFromBuffer(i: nat, j: nat, limit: nat)
      requires Valid() && i < |bufs| && j < |bufs| && i != j
      modifies Everything()
      ensures Valid() && fresh(Fragments() - old(Fragments())) && fresh(Heads(bufs) - old(Heads(bufs)))
      ensures View(bufs) == old(View(bufs))[i := old(View(bufs))[i] + Prefix(old(View(bufs))[j], limit)]
    {
      Separate(i);
      PairBeside(i, j);
      AppendFromAmong(bufs[i], bufs[j], limit, Without(bufs, i), bufs[i].Others());
      Changed(i);
    }

    twostate lemma NewIsOurs(new b: NetBuffer)
      requires b.pool == pool && Set(b.chain) <= pool.live
      requires b.Others() == old(pool.live) && fresh(b.Footprint() - {pool} - old(Set(pool.free)))
      ensures fresh(Fragments() - old(Fragments()))
    {
      assert pool.live == b.Others() + Set(b.chain);
    }

    /** A packet arrives beside the buffers there are. */
    method Take(bytes: seq<u8>) returns (b: NetBuffer)
      requires Valid() && 0 < |bytes| <= MRU
      modifies pool, pool.free
      ensures fresh(b) && b !in bufs && b.pool == pool && b.Valid() && b.Bytes() == bytes
      ensures Divided(bufs, pool, b.Others()) && View(bufs) == old(View(bufs))
      ensures fresh(Fragments() - old(Fragments()))
    {
      b := ReceiveAmong(pool, bytes, bufs, pool.live);
      NewIsOurs(b);
    }

    /** A new buffer joins the others. */
    method Install(b: NetBuffer)
      requires pool.Valid() && b.pool == pool && b.Valid() && b !in bufs && Divided(bufs, pool, b.Others())
      modifies this`bufs
      ensures Valid() && bufs == old(bufs) + [b] && View(bufs) == old(View(bufs)) + [b.Bytes()]
      ensures Heads(bufs) == old(Heads(bufs)) + {b}
    {
      Appended(bufs, b, pool, pool.live);
      ghost var all := bufs + [b];
      assert Divided(all, pool, pool.live);
      bufs := bufs + [b];
    }

    method Receive(bytes: seq<u8>)
      requires Valid() && 0 < |bytes| <= MRU
      modifies Everything()
      ensures Valid() && fresh(Fragments() - old(Fragments())) && fresh(Heads(bufs) - old(Heads(bufs)))
      ensures View(bufs) == old(View(bufs)) + [bytes]
    {
      var b := Take(bytes);
      Install(b);
    }

    method New()
      requires Valid()
      modifies this`bufs
      ensures Valid() && fresh(Fragments() - old(Fragments())) && fresh(Heads(bufs) - old(Heads(bufs)))
      ensures View(bufs) == old(View(bufs)) + [[]]
    {
      var b := new NetBuffer(pool);
      Install(b);
    }

    twostate lemma FewerOurs()
      requires Set(pool.free) <= old(Set(pool.free)) + old(pool.live)
      requires pool.live <= old(pool.live) && Heads(bufs) <= old(Heads(bufs))
      ensures fresh(Fragments() - old(Fragments())) && fresh(Heads(bufs) - old(Heads(bufs)))
    {}

    /** Buffer `i` returns its fragments. */
    method DropAt(i: nat)
      requires Valid() && i < |bufs|
      modifies Everything()
      ensures bufs == old(bufs) && pool.Valid() && Divided(Without(bufs, i), pool, pool.live)
      ensures View(Without(bufs, i)) == Without(old(View(bufs)), i)
      ensures Set(pool.free) <= old(Set(pool.free)) + old(pool.live) && pool.live <= old(pool.live)
    {
      Separate(i);
      DropAmong(bufs[i], Without(bufs, i), bufs[i].Others());
    }

    /** Buffer `i` leaves, when the others already divide everything. */
    method Leave(i: nat)
      requires i < |bufs| && pool.Valid() && Divided(Without(bufs, i), pool, pool.live)
      modifies this`bufs
      ensures Valid() && bufs == Without(old(bufs), i) && Heads(bufs) <= old(Heads(bufs))
      ensures View(bufs) == old(View(Without(bufs, i)))
    {
      HeadsWithout(bufs, i);
      ghost var rest := Without(bufs, i);
      bufs := bufs[..i] + bufs[i + 1..];
      assert bufs == rest;
    }

    method Drop(i: nat)
      requires Valid() && i < |bufs|
      modifies Everything()
      ensures Valid() && fresh(Fragments() - old(Fragments())) && fresh(Heads(bufs) - old(Heads(bufs)))
      ensures View(bufs) == Without(old(View(bufs)), i)
    {
      DropAt(i);
      Leave(i);
      FewerOurs();
    }

    /** Buffer `j` becomes the end of buffer `i`; the others are as they were. */
    method MergeBeside(i: nat, j: nat, ghost rest: seq<NetBuffer>)
      requires i < |bufs| && j < |bufs| && bufs[i].Beside(bufs[j]) && bufs[i].pool == pool
      requires bufs[i] !in rest && bufs[j] !in rest && Divided(rest, pool, bufs[i].Others() - Set(bufs[j].chain))
      requires bufs[i].Footprint() <= Everything() && this !in bufs[i].Footprint() && bufs[j] in Everything()
      modifies Everything()
      ensures bufs == old(bufs) && bufs[i].Valid() && bufs[i].pool == pool
      ensures bufs[i].Bytes() == old(bufs[i].Bytes()) + old(bufs[j].Bytes())
      ensures Divided(rest, pool, bufs[i].Others()) && View(rest) == old(View(rest))
      ensures pool.free == old(pool.free) && pool.live == old(pool.live)
    {
      AppendAmong(bufs[i], bufs[j], rest, bufs[i].Others() - Set(bufs[j].chain));
    }

    method MergeAt(i: nat, j: nat)
      requires Valid() && i < |bufs| && j < |bufs| && i != j
      modifies Everything()
      ensures bufs == old(bufs) && pool.Valid() && Divided(Without(bufs, j), pool, pool.live)
      ensures View(Without(bufs, j)) == Without(old(View(bufs)), j)[Shifted(i, j) := old(View(bufs))[i] + old(View(bufs))[j]]
      ensures pool.free == old(pool.free) && pool.live == old(pool.live)
    {
      ghost var k, v, left := Shifted(i, j), View(bufs), Without(bufs, j);
      PairBeside(i, j);
      SeparateTwo(i, j);
      MergeBeside(i, j, Without(left, k));
      Unfocus(left, k, pool, pool.live);
      ViewAt(left, k);
      WithoutSame(Without(v, j), View(left), k);
    }

    /** ... and is consumed, dropped without fragments. */
    method AppendBuffer(i: nat, j: nat)
      requires Valid() && i < |bufs| && j < |bufs| && i != j
      modifies Everything()
      ensures Valid() && fresh(Fragments() - old(Fragments())) && fresh(Heads(bufs) - old(Heads(bufs)))
      ensures View(bufs) == Without(old(View(bufs))[i := old(View(bufs))[i] + old(View(bufs))[j]], j)
    {
      UpdateWithout(View(bufs), i, j, View(bufs)[i] + View(bufs)[j]);
      MergeAt(i, j);
      Leave(j);
      FewerOurs();
    }

    lemma SeparateTwo(i: nat, j: nat)
      requires Valid() && i < |bufs| && j < |bufs| && i != j
      ensures View(bufs)[i] == bufs[i].Bytes() && bufs[i].Footprint() <= Everything() && bufs[j] in Everything()
      ensures this !in bufs[i].Footprint()
      ensures var left := Without(bufs, j); var k := Shifted(i, j);
              && left[k] == bufs[i] && View(left) == Without(View(bufs), j)
              && View(Without(left, k)) == Without(View(left), k)
              && bufs[i] !in Without(left, k) && bufs[j] !in Without(left, k)
              && Divided(Without(left, k), pool, bufs[i].Others() - Set(bufs[j].chain))
    {
      var left, k := Without(bufs, j), Shifted(i, j);
      Focus(bufs, j, pool, pool.live);
      Focus(left, k, pool, bufs[j].Others());
      assert bufs[j].Others() - Set(bufs[i].chain) == bufs[i].Others() - Set(bufs[j].chain);
      ViewAt(bufs, j);
      ViewAt(left, k);
      Separate(i);
      InHeads(bufs, bufs[j]);
    }

    method Do(op: Op)
      requires Valid() && Apply(View(bufs), op).Some?
      modifies Everything()
      ensures Valid() && fresh(Fragments() - old(Fragments())) && fresh(Heads(bufs) - old(Heads(bufs)))
      ensures Apply(old(View(bufs)), op) == Some(View(bufs))
    {
      match op
      case New => New();
      case Receive(bytes) => Receive(bytes);
      case Change(i, edit) => Change(i, edit);
      case AppendFromBuffer(i, j, limit) => AppendFromBuffer(i, j, limit);
      case AppendBuffer(i, j) => AppendBuffer(i, j);
      case Drop(i) => Drop(i);
    }

    /** ANY PROGRAM: the heap of fragments does what the strings do, and the pool stays sound. */
    method Run(ops: seq<Op>)
      requires Valid() && ApplyAll(View(bufs), ops).Some?
      modifies Everything()
      ensures Valid() && ApplyAll(old(View(bufs)), ops) == Some(View(bufs))
      decreases |ops|
    {
      if ops != [] {
        Do(ops[0]);
        Run(ops[1..]);
      }
    }

    /** CONSERVATION: every fragment ever created is free or live, never both, every live one is in
        exactly one buffer, and what was allocated and not freed is live. */
    lemma Conservation(f: BufferFragment)
      requires Valid()
      ensures pool.buffersCreated == |pool.free| + |pool.live|
      ensures pool.buffersAllocated - pool.buffersFreed == |pool.live|
      ensures !(f in pool.free && f in pool.live)
      ensures f in pool.live <==> exists i :: 0 <= i < |bufs| && f in bufs[i].chain
      ensures forall i, j :: 0 <= i < j < |bufs| && f in bufs[i].chain ==> f !in bufs[j].chain
      ensures bufs == [] ==> pool.live == {} && pool.buffersAllocated == pool.buffersFreed
    {
      InOne(bufs, pool, pool.live, f);
      assert f in pool.free ==> f in Set(pool.free);
    }
  }

  lemma {:induction false} InOne(bs: seq<NetBuffer>, pool: FragmentPool, live: set<BufferFragment>, f: BufferFragment)
    requires Divided(bs, pool, live)
    ensures f in live <==> exists i :: 0 <= i < |bs| && f in bs[i].chain
    ensures forall i, j :: 0 <= i < j < |bs| && f in bs[i].chain ==> f !in bs[j].chain
    decreases |bs|
  {
    if bs != [] {
      var rest := bs[1..];
      InOne(rest, pool, live - Set(bs[0].chain), f);
      assert forall i :: 1 <= i < |bs| ==> bs[i] == rest[i - 1];
      assert f in bs[0].chain <==> f in Set(bs[0].chain);
      assert forall i :: 0 <= i < |rest| ==> rest[i] == bs[i + 1];
    }
  }

  /** Where index `i` is once index `j` is gone. */
  function Shifted(i: nat, j: nat): nat
    requires i != j
  {
    if i < j then i else i - 1
  }

  lemma UpdateWithout<T>(v: seq<T>, i: nat, j: nat, x: T)
    requires i < |v| && j < |v| && i != j
    ensures Without(v[i := x], j) == Without(v, j)[Shifted(i, j) := x]
  {}

  /** recv_packet of netif.rs: a preallocated buffer that the device fills, cut to what arrived. */
  method RecvPacket(pool: FragmentPool, wire: seq<u8>) returns (packet: NetBuffer)
    requires pool.Valid() && 0 < |wire| <= MRU
    modifies pool, pool.free
    ensures fresh(packet) && packet.Valid() && packet.pool == pool && packet.Bytes() == wire
    ensures packet.Others() == old(pool.live) && fresh(packet.Footprint() - {pool} - old(Set(pool.free)))
    ensures FullButLast(packet.parts, FRAGMENT_SIZE) && packet.parts != []
    ensures |packet.parts[0]| == Min(|wire|, FRAGMENT_SIZE)
  {
    packet := new NetBuffer.Prealloc(pool, MRU);
    packet.Arrive(wire);
  }
}
