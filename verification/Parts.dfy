/** Byte strings kept in parts, as a fragmented buffer keeps them. */
module Parts {
  import opened Words

  // ---------- byte strings ----------

  function Zeros(n: nat): (s: seq<u8>)
    ensures |s| == n
  {
    seq(n, i => 0)
  }

  function Splice(s: seq<u8>, offset: nat, bytes: seq<u8>): (r: seq<u8>)
    requires offset + |bytes| <= |s|
    ensures |r| == |s|
  {
    s[..offset] + bytes + s[offset + |bytes|..]
  }

  lemma SpliceInRange(d: seq<u8>, start: nat, end: nat, offset: nat, bytes: seq<u8>)
    requires start <= end <= |d| && start + offset + |bytes| <= end
    ensures Splice(d, start + offset, bytes)[start..end] == Splice(d[start..end], offset, bytes)
  {}

  lemma SliceTake(d: seq<u8>, start: nat, end: nat, n: nat)
    requires start <= end <= |d| && n <= end - start
    ensures d[start..end][..n] == d[start..start + n]
  {}

  lemma SpliceBehind(d: seq<u8>, start: nat, end: nat, bytes: seq<u8>)
    requires start <= end && end + |bytes| <= |d|
    ensures Splice(d, end, bytes)[start..end + |bytes|] == d[start..end] + bytes
  {}

  // ---------- parts ----------

  function Flatten(parts: seq<seq<u8>>): seq<u8> {
    if parts == [] then [] else parts[0] + Flatten(parts[1..])
  }

  lemma {:induction false} FlattenConcat(a: seq<seq<u8>>, b: seq<seq<u8>>)
    ensures Flatten(a + b) == Flatten(a) + Flatten(b)
  {
    if a == [] {
      assert a + b == b;
    } else {
      assert (a + b)[0] == a[0] && (a + b)[1..] == a[1..] + b;
      FlattenConcat(a[1..], b);
      assert Flatten(a + b) == a[0] + (Flatten(a[1..]) + Flatten(b));
    }
  }

  lemma FlattenOne(p: seq<u8>)
    ensures Flatten([p]) == p
  {
    assert [p][1..] == [];
  }

  /** The bytes of the first `i` parts are a prefix, and the rest are what follows. */
  lemma FlattenSplit(parts: seq<seq<u8>>, i: nat)
    requires i <= |parts|
    ensures Flatten(parts) == Flatten(parts[..i]) + Flatten(parts[i..])
  {
    var a, b := parts[..i], parts[i..];
    assert a + b == parts;
    FlattenConcat(a, b);
  }

  lemma FlattenAt(parts: seq<seq<u8>>, i: nat)
    requires i < |parts|
    ensures Flatten(parts[i..]) == parts[i] + Flatten(parts[i + 1..])
    ensures Flatten(parts[..i + 1]) == Flatten(parts[..i]) + parts[i]
  {
    assert parts[i..][1..] == parts[i + 1..];
    FlattenConcat(parts[..i], [parts[i]]);
    FlattenOne(parts[i]);
    assert parts[..i + 1] == parts[..i] + [parts[i]];
  }

  ghost predicate NonEmptyParts(parts: seq<seq<u8>>) {
    forall i :: 0 <= i < |parts| ==> parts[i] != []
  }

  /** Every part but the last has even length. */
  predicate EvenButLast(parts: seq<seq<u8>>) {
    forall i :: 0 <= i < |parts| - 1 ==> |parts[i]| % 2 == 0
  }

  ghost predicate SameShape(a: seq<seq<u8>>, b: seq<seq<u8>>) {
    |a| == |b| && forall i :: 0 <= i < |a| ==> |a[i]| == |b[i]|
  }

  lemma SpliceFirst(parts: seq<seq<u8>>, offset: nat, bytes: seq<u8>)
    requires parts != [] && offset + |bytes| <= |parts[0]|
    ensures offset + |bytes| <= |Flatten(parts)|
    ensures var after := parts[0 := Splice(parts[0], offset, bytes)];
            Flatten(after) == Splice(Flatten(parts), offset, bytes) && SameShape(parts, after)
  {
    assert parts[0 := Splice(parts[0], offset, bytes)][1..] == parts[1..];
  }

  lemma SpliceFront(zeros: seq<u8>, rest: seq<u8>, bytes: seq<u8>)
    requires |zeros| == |bytes|
    ensures Splice(zeros + rest, 0, bytes) == bytes + rest
  {}

  // ---------- dropping bytes at either end ----------

  /** The parts without their first `n` bytes: whole parts go while they fit. */
  function DropBytes(parts: seq<seq<u8>>, n: nat): seq<seq<u8>>
    decreases |parts|
  {
    if n == 0 || parts == [] then parts
    else if |parts[0]| > n then parts[0 := parts[0][n..]]
    else DropBytes(parts[1..], n - |parts[0]|)
  }

  lemma {:induction false} DropBytesIsDrop(parts: seq<seq<u8>>, n: nat)
    requires n <= |Flatten(parts)|
    ensures Flatten(DropBytes(parts, n)) == Flatten(parts)[n..]
    decreases |parts|
  {
    if n > 0 && parts != [] {
      if |parts[0]| > n {
        var after := parts[0 := parts[0][n..]];
        assert after[1..] == parts[1..];
      } else {
        DropBytesIsDrop(parts[1..], n - |parts[0]|);
      }
    }
  }

  /** One whole part fewer, and its length fewer to drop. */
  lemma DropWholePart(parts: seq<seq<u8>>, n: nat)
    requires parts != [] && |parts[0]| <= n <= |Flatten(parts)| && n > 0
    ensures DropBytes(parts, n) == DropBytes(parts[1..], n - |parts[0]|)
    ensures n - |parts[0]| <= |Flatten(parts[1..])|
  {}

  /** Dropping an even number of bytes keeps the parts even. */
  lemma {:induction false} DropBytesEven(parts: seq<seq<u8>>, n: nat)
    requires EvenButLast(parts) && n % 2 == 0
    ensures EvenButLast(DropBytes(parts, n))
    decreases |parts|
  {
    if n > 0 && parts != [] && |parts[0]| <= n {
      if |parts| > 1 {
        assert |parts[0]| % 2 == 0;
        DropBytesEven(parts[1..], n - |parts[0]|);
      }
    }
  }

  /** The parts cut down to their first `n` bytes. */
  function TakeBytes(parts: seq<seq<u8>>, n: nat): seq<seq<u8>>
    decreases |parts|
  {
    if n == 0 || parts == [] then []
    else if |parts[0]| >= n then [parts[0][..n]]
    else [parts[0]] + TakeBytes(parts[1..], n - |parts[0]|)
  }

  lemma {:induction false} TakeBytesIsTake(parts: seq<seq<u8>>, n: nat)
    requires n <= |Flatten(parts)|
    ensures Flatten(TakeBytes(parts, n)) == Flatten(parts)[..n]
    decreases |parts|
  {
    if n > 0 && parts != [] {
      if |parts[0]| >= n {
        FlattenOne(parts[0][..n]);
      } else {
        TakeBytesIsTake(parts[1..], n - |parts[0]|);
      }
    }
  }

  lemma {:induction false} TakeBytesEven(parts: seq<seq<u8>>, n: nat)
    requires EvenButLast(parts)
    ensures EvenButLast(TakeBytes(parts, n))
    decreases |parts|
  {
    if n > 0 && parts != [] && |parts[0]| < n {
      TakeBytesEven(parts[1..], n - |parts[0]|);
      var rest := TakeBytes(parts[1..], n - |parts[0]|);
      if |parts| > 1 {
        assert |parts[0]| % 2 == 0;
      }
      var all: seq<seq<u8>> := [parts[0]] + rest;
      forall i | 0 <= i < |all| - 1 ensures |all[i]| % 2 == 0 {
        if i > 0 { assert all[i] == rest[i - 1]; }
      }
    }
  }

  lemma {:induction false} TakeBytesFull(parts: seq<seq<u8>>, n: nat, size: nat)
    requires 0 < n <= |Flatten(parts)| && forall i :: 0 <= i < |parts| ==> |parts[i]| == size
    ensures TakeBytes(parts, n) != [] && |TakeBytes(parts, n)[0]| == Min(n, size)
    ensures FullButLast(TakeBytes(parts, n), size)
    decreases |parts|
  {
    if |parts[0]| < n {
      TakeBytesFull(parts[1..], n - |parts[0]|, size);
    }
  }

  lemma FullIsEven(parts: seq<seq<u8>>, size: nat)
    requires FullButLast(parts, size) && size % 2 == 0
    ensures EvenButLast(parts)
  {}

  lemma {:induction false} DropBytesNonEmpty(parts: seq<seq<u8>>, n: nat)
    requires NonEmptyParts(parts)
    ensures NonEmptyParts(DropBytes(parts, n))
    decreases |parts|
  {
    if n > 0 && parts != [] && |parts[0]| <= n {
      DropBytesNonEmpty(parts[1..], n - |parts[0]|);
    }
  }

  lemma {:induction false} TakeBytesNonEmpty(parts: seq<seq<u8>>, n: nat)
    requires NonEmptyParts(parts)
    ensures NonEmptyParts(TakeBytes(parts, n))
    decreases |parts|
  {
    if n > 0 && parts != [] && |parts[0]| < n {
      TakeBytesNonEmpty(parts[1..], n - |parts[0]|);
    }
  }

  lemma NonEmptyConcat(a: seq<seq<u8>>, b: seq<seq<u8>>)
    requires NonEmptyParts(a) && NonEmptyParts(b)
    ensures NonEmptyParts(a + b)
  {
    assert forall i :: |a| <= i < |a + b| ==> (a + b)[i] == b[i - |a|];
  }

  lemma NonEmptyFlatten(parts: seq<seq<u8>>)
    requires NonEmptyParts(parts)
    ensures Flatten(parts) == [] <==> parts == []
  {
    assert parts != [] ==> parts[0] != [];
  }

  /** Keeping `n` bytes: the first `k` parts whole, and the next one cut to `rest`. */
  ghost predicate TakeCuts(parts: seq<seq<u8>>, n: nat, k: nat, rest: nat) {
    && k < |parts| && 0 < rest <= |Flatten(parts[k..])|
    && TakeBytes(parts, n) == parts[..k] + TakeBytes(parts[k..], rest)
  }

  lemma TakeCutsStart(parts: seq<seq<u8>>, n: nat)
    requires 0 < n <= |Flatten(parts)|
    ensures TakeCuts(parts, n, 0, n)
  {
    assert parts[0..] == parts && parts[..0] == [];
    assert [] + TakeBytes(parts, n) == TakeBytes(parts, n);
  }

  lemma TakeCutsNext(parts: seq<seq<u8>>, n: nat, k: nat, rest: nat)
    requires TakeCuts(parts, n, k, rest) && |parts[k]| < rest
    ensures TakeCuts(parts, n, k + 1, rest - |parts[k]|)
  {
    FlattenAt(parts, k);
    assert parts[|parts|..] == [];
    assert parts[k..][1..] == parts[k + 1..];
    assert parts[..k] + ([parts[k]] + TakeBytes(parts[k + 1..], rest - |parts[k]|))
        == parts[..k + 1] + TakeBytes(parts[k + 1..], rest - |parts[k]|);
  }

  lemma TakeCutsEnd(parts: seq<seq<u8>>, n: nat, k: nat, rest: nat)
    requires TakeCuts(parts, n, k, rest) && rest <= |parts[k]|
    ensures TakeBytes(parts, n) == parts[k := parts[k][..rest]][..k + 1]
  {
    assert parts[k := parts[k][..rest]][..k + 1] == parts[..k] + [parts[k][..rest]];
  }

  // ---------- growing at the end ----------

  /** The last part with `bytes` appended to it. */
  function GrowLast(parts: seq<seq<u8>>, bytes: seq<u8>): (r: seq<seq<u8>>)
    requires parts != []
    ensures |r| == |parts|
  {
    parts[|parts| - 1 := parts[|parts| - 1] + bytes]
  }

  lemma GrowLastFlatten(parts: seq<seq<u8>>, bytes: seq<u8>)
    requires parts != []
    ensures Flatten(GrowLast(parts, bytes)) == Flatten(parts) + bytes
  {
    var i := |parts| - 1;
    FlattenAt(parts, i);
    FlattenAt(GrowLast(parts, bytes), i);
    assert parts[..i + 1] == parts && GrowLast(parts, bytes)[..i + 1] == GrowLast(parts, bytes);
    assert GrowLast(parts, bytes)[..i] == parts[..i];
  }

  lemma EmptyLast(parts: seq<seq<u8>>)
    ensures Flatten(parts + [[]]) == Flatten(parts)
  {
    FlattenConcat(parts, [[]]);
    FlattenOne([]);
  }

  lemma GrowLastNonEmpty(parts: seq<seq<u8>>, bytes: seq<u8>)
    requires parts != [] && NonEmptyParts(parts[..|parts| - 1])
    requires parts[|parts| - 1] != [] || bytes != []
    ensures NonEmptyParts(GrowLast(parts, bytes))
  {
    assert forall i :: 0 <= i < |parts| - 1 ==> GrowLast(parts, bytes)[i] == parts[..|parts| - 1][i];
  }

  /** What the loop of append_from_slice makes of `parts`, whose last part ends at offset `end`
      of a fragment of `size` bytes. */
  function FillParts(parts: seq<seq<u8>>, end: nat, data: seq<u8>, size: nat): seq<seq<u8>>
    requires parts != [] && end <= size && size > 0
    decreases |data|, end
  {
    if data == [] then parts
    else
      var n := Min(size - end, |data|);
      var grown := GrowLast(parts, data[..n]);
      if n == |data| then grown else FillParts(grown + [[]], 0, data[n..], size)
  }

  /** One turn of that loop. */
  lemma FillPartsStep(parts: seq<seq<u8>>, end: nat, data: seq<u8>, size: nat)
    requires parts != [] && end <= size && size > 0 && data != []
    ensures var n := Min(size - end, |data|);
            var grown := GrowLast(parts, data[..n]);
            FillParts(parts, end, data, size)
            == if n == |data| then FillParts(grown, end + n, data[n..], size)
               else FillParts(grown + [[]], 0, data[n..], size)
  {}

  lemma {:induction false} FillPartsAppends(parts: seq<seq<u8>>, end: nat, data: seq<u8>, size: nat)
    requires parts != [] && end <= size && size > 0
    ensures Flatten(FillParts(parts, end, data, size)) == Flatten(parts) + data
    decreases |data|, end
  {
    if data == [] {
      assert Flatten(parts) + data == Flatten(parts);
    } else {
      var n := Min(size - end, |data|);
      var grown := GrowLast(parts, data[..n]);
      GrowLastFlatten(parts, data[..n]);
      assert data[..n] + data[n..] == data;
      if n < |data| {
        FillPartsAppends(grown + [[]], 0, data[n..], size);
        EmptyLast(grown);
      }
    }
  }

  lemma {:induction false} FillPartsNonEmpty(parts: seq<seq<u8>>, end: nat, data: seq<u8>, size: nat)
    requires parts != [] && end <= size && size > 0 && data != []
    requires NonEmptyParts(parts[..|parts| - 1]) && (parts[|parts| - 1] != [] || end == 0)
    ensures NonEmptyParts(FillParts(parts, end, data, size))
    decreases |data|, end
  {
    var n := Min(size - end, |data|);
    var grown := GrowLast(parts, data[..n]);
    GrowLastNonEmpty(parts, data[..n]);
    if n < |data| {
      assert (grown + [[]])[..|grown|] == grown;
      FillPartsNonEmpty(grown + [[]], 0, data[n..], size);
    }
  }

  /** Every part but the last is `size` bytes long. */
  ghost predicate FullButLast(parts: seq<seq<u8>>, size: nat) {
    forall i :: 0 <= i < |parts| - 1 ==> |parts[i]| == size
  }

  /** Parts that start at the beginning of their fragments stay so: all but the last are full. */
  lemma {:induction false} FillPartsFull(parts: seq<seq<u8>>, end: nat, data: seq<u8>, size: nat)
    requires parts != [] && end <= size && size > 0
    requires FullButLast(parts, size) && |parts[|parts| - 1]| == end
    ensures FullButLast(FillParts(parts, end, data, size), size)
    decreases |data|, end
  {
    if data != [] {
      var n := Min(size - end, |data|);
      if n < |data| {
        FillPartsFull(GrowLast(parts, data[..n]) + [[]], 0, data[n..], size);
      }
    }
  }

  /** The parts to which append_from_slice appends: those there are, or one that is still empty. */
  ghost predicate ReadyToFill(parts: seq<seq<u8>>, ready: seq<seq<u8>>, end: nat) {
    if parts == [] then ready == [[]] && end == 0 else ready == parts
  }

  lemma FillReady(parts: seq<seq<u8>>, ready: seq<seq<u8>>, end: nat, data: seq<u8>, size: nat)
    requires NonEmptyParts(parts) && ReadyToFill(parts, ready, end) && end <= size && size > 0 && data != []
    ensures ready != []
    ensures Flatten(FillParts(ready, end, data, size)) == Flatten(parts) + data
    ensures NonEmptyParts(FillParts(ready, end, data, size))
    ensures FullButLast(parts, size) && |ready[|ready| - 1]| == end ==> FullButLast(FillParts(ready, end, data, size), size)
  {
    if parts == [] {
      EmptyLast(parts);
      assert parts + [[]] == ready;
    }
    assert NonEmptyParts(ready[..|ready| - 1]);
    FillPartsAppends(ready, end, data, size);
    FillPartsNonEmpty(ready, end, data, size);
    if FullButLast(parts, size) && |ready[|ready| - 1]| == end {
      FillPartsFull(ready, end, data, size);
    }
  }

  // ---------- whole fragments put in front ----------

  /** Every part behind the first is full, and the first holds what is left over. */
  ghost predicate FullButFirst(parts: seq<seq<u8>>, size: nat) {
    && (forall i :: 1 <= i < |parts| ==> |parts[i]| == size)
    && (parts != [] ==> 0 < |parts[0]| <= size)
  }

  lemma FullCons(p: seq<u8>, parts: seq<seq<u8>>, size: nat)
    requires FullButFirst(parts, size) && (parts != [] ==> |parts[0]| == size) && 0 < |p| <= size
    ensures FullButFirst([p] + parts, size)
  {
    var all := [p] + parts;
    assert forall i :: 1 <= i < |all| ==> all[i] == parts[i - 1];
  }

  lemma {:induction false} WholePartsMultiple(parts: seq<seq<u8>>)
    requires forall i :: 0 <= i < |parts| ==> |parts[i]| == 512
    ensures |Flatten(parts)| % 512 == 0
    decreases |parts|
  {
    if parts != [] {
      WholePartsMultiple(parts[1..]);
      assert |parts[0]| == 512;
    }
  }

  /** A whole number of fragments of 512 bytes leaves no partial one. */
  lemma FullWithoutRest(parts: seq<seq<u8>>)
    requires FullButFirst(parts, 512) && |Flatten(parts)| % 512 == 0
    ensures forall i :: 0 <= i < |parts| ==> |parts[i]| == 512
  {
    if parts != [] {
      WholePartsMultiple(parts[1..]);
      assert |parts[0]| % 512 == 0;
      assert forall i :: 0 <= i < |parts| ==> i == 0 || |parts[i]| == 512;
    }
  }

  lemma FullIsNonEmpty(parts: seq<seq<u8>>, size: nat)
    requires FullButFirst(parts, size) && size > 0
    ensures NonEmptyParts(parts)
  {
    assert forall i :: 0 <= i < |parts| ==> i == 0 || |parts[i]| == size;
  }

  // ---------- writing over parts ----------

  /** The parts with `bytes` written over their beginning. */
  function Overlay(parts: seq<seq<u8>>, bytes: seq<u8>): (r: seq<seq<u8>>)
    ensures |r| == |parts|
    decreases |parts|
  {
    if parts == [] || bytes == [] then parts
    else
      var n := Min(|parts[0]|, |bytes|);
      [Splice(parts[0], 0, bytes[..n])] + Overlay(parts[1..], bytes[n..])
  }

  lemma {:induction false} OverlayKeepsShape(parts: seq<seq<u8>>, bytes: seq<u8>, i: nat)
    requires i < |parts|
    ensures |Overlay(parts, bytes)[i]| == |parts[i]|
    decreases |parts|
  {
    if bytes != [] && i > 0 {
      OverlayKeepsShape(parts[1..], bytes[Min(|parts[0]|, |bytes|)..], i - 1);
    }
  }

  lemma OverlayShape(parts: seq<seq<u8>>, bytes: seq<u8>)
    ensures SameShape(parts, Overlay(parts, bytes))
  {
    forall i | 0 <= i < |parts| ensures |Overlay(parts, bytes)[i]| == |parts[i]| {
      OverlayKeepsShape(parts, bytes, i);
    }
  }

  lemma {:induction false} OverlayIsSplice(parts: seq<seq<u8>>, bytes: seq<u8>)
    requires |bytes| <= |Flatten(parts)|
    ensures Flatten(Overlay(parts, bytes)) == Splice(Flatten(parts), 0, bytes)
    decreases |parts|
  {
    if parts == [] || bytes == [] {
      assert Splice(Flatten(parts), 0, bytes) == Flatten(parts);
    } else {
      var a, b, n := parts[0], Flatten(parts[1..]), Min(|parts[0]|, |bytes|);
      SpliceConcat(a, b, bytes, n);
      OverlayIsSplice(parts[1..], bytes[n..]);
      var r := Overlay(parts, bytes);
      assert r[0] == Splice(a, 0, bytes[..n]) && r[1..] == Overlay(parts[1..], bytes[n..]);
    }
  }

  lemma SpliceConcat(a: seq<u8>, b: seq<u8>, bytes: seq<u8>, n: nat)
    requires |bytes| <= |a + b| && n == Min(|a|, |bytes|)
    ensures |bytes[n..]| <= |b|
    ensures Splice(a, 0, bytes[..n]) + Splice(b, 0, bytes[n..]) == Splice(a + b, 0, bytes)
  {
    if n == |bytes| {
      assert bytes[..n] == bytes && bytes[n..] == [];
    }
  }

  /** The loop of a scattering read, from part `k` on. */
  function OverlayFrom(parts: seq<seq<u8>>, k: nat, rest: seq<u8>): seq<seq<u8>>
    requires k <= |parts|
    decreases |parts| - k
  {
    if rest == [] || k == |parts| then parts
    else
      var n := Min(|parts[k]|, |rest|);
      OverlayFrom(parts[k := Splice(parts[k], 0, rest[..n])], k + 1, rest[n..])
  }

  lemma {:induction false} OverlayFromIsOverlay(parts: seq<seq<u8>>, k: nat, rest: seq<u8>)
    requires k <= |parts|
    ensures OverlayFrom(parts, k, rest) == parts[..k] + Overlay(parts[k..], rest)
    decreases |parts| - k
  {
    if rest == [] || k == |parts| {
      assert parts[..k] + parts[k..] == parts;
    } else {
      var n := Min(|parts[k]|, |rest|);
      var q := parts[k := Splice(parts[k], 0, rest[..n])];
      OverlayFromIsOverlay(q, k + 1, rest[n..]);
      assert q[k + 1..] == parts[k + 1..] && parts[k..][1..] == parts[k + 1..];
      assert q[..k + 1] == parts[..k] + [q[k]];
      assert q[..k + 1] + Overlay(parts[k + 1..], rest[n..]) == parts[..k] + ([q[k]] + Overlay(parts[k + 1..], rest[n..]));
    }
  }

  lemma OverlayAll(parts: seq<seq<u8>>, bytes: seq<u8>)
    ensures OverlayFrom(parts, 0, bytes) == Overlay(parts, bytes)
  {
    OverlayFromIsOverlay(parts, 0, bytes);
    assert parts[0..] == parts && parts[..0] + Overlay(parts, bytes) == Overlay(parts, bytes);
  }

  /** While bytes are left there is a part for them. */
  lemma RoomLeft(parts: seq<seq<u8>>, k: nat, rest: seq<u8>)
    requires k <= |parts| && 0 < |rest| <= |Flatten(parts[k..])|
    ensures k < |parts|
    ensures var n := Min(|parts[k]|, |rest|);
            |rest[n..]| <= |Flatten(parts[k := Splice(parts[k], 0, rest[..n])][k + 1..])|
  {
    assert parts[|parts|..] == [];
    FlattenAt(parts, k);
    var n := Min(|parts[k]|, |rest|);
    assert parts[k := Splice(parts[k], 0, rest[..n])][k + 1..] == parts[k + 1..];
  }

  // ---------- reading part by part ----------

  /** Where part `i` begins. */
  function Offset(parts: seq<seq<u8>>, i: nat): nat
    requires i <= |parts|
  {
    if i == 0 then 0 else Offset(parts, i - 1) + |parts[i - 1]|
  }

  lemma {:induction false} OffsetIsLength(parts: seq<seq<u8>>, i: nat)
    requires i <= |parts|
    ensures Offset(parts, i) == |Flatten(parts[..i])| <= |Flatten(parts)|
  {
    if i > 0 {
      OffsetIsLength(parts, i - 1);
      FlattenAt(parts, i - 1);
    }
    FlattenSplit(parts, i);
  }

  /** Reading on from the beginning of part `i`, up to `total` bytes. */
  lemma NextPiece(parts: seq<seq<u8>>, i: nat, total: nat)
    requires i <= |parts| && Offset(parts, i) < total <= |Flatten(parts)|
    ensures i < |parts| && Offset(parts, i + 1) <= |Flatten(parts)|
    ensures var done := Offset(parts, i);
            var n := Min(|parts[i]|, total - done);
            Flatten(parts)[done..done + n] == parts[i][..n]
  {
    OffsetIsLength(parts, i);
    assert parts[..|parts|] == parts;
    FlattenSplit(parts, i);
    FlattenAt(parts, i);
    OffsetIsLength(parts, i + 1);
  }

  lemma AllRead(parts: seq<seq<u8>>, i: nat)
    requires i <= |parts| && NonEmptyParts(parts) && Offset(parts, i) >= |Flatten(parts)|
    ensures i == |parts|
  {
    OffsetIsLength(parts, i);
    FlattenSplit(parts, i);
    NonEmptyFlatten(parts[i..]);
  }

  /** How many bytes an iterator limited to `limit` has left after `i` parts. */
  function Left(parts: seq<seq<u8>>, i: nat, limit: nat): nat
    requires i <= |parts|
  {
    if i == 0 then limit
    else
      var r := Left(parts, i - 1, limit);
      r - Min(|parts[i - 1]|, r)
  }

  /** `before`, and behind it what that iterator has given after `i` parts. */
  function AndGiven(before: seq<u8>, parts: seq<seq<u8>>, i: nat, limit: nat): seq<u8>
    requires i <= |parts|
  {
    if i == 0 then before
    else AndGiven(before, parts, i - 1, limit) + parts[i - 1][..Min(|parts[i - 1]|, Left(parts, i - 1, limit))]
  }

  lemma {:induction false} LeftIsRest(parts: seq<seq<u8>>, i: nat, limit: nat)
    requires i <= |parts|
    ensures Left(parts, i, limit) == limit - Min(limit, |Flatten(parts[..i])|)
  {
    if i > 0 {
      LeftIsRest(parts, i - 1, limit);
      FlattenAt(parts, i - 1);
    }
  }

  /** What it has given is the first `limit` bytes of those parts. */
  lemma {:induction false} GivenIsPrefix(before: seq<u8>, parts: seq<seq<u8>>, i: nat, limit: nat)
    requires i <= |parts|
    ensures AndGiven(before, parts, i, limit)
         == before + Flatten(parts[..i])[..Min(limit, |Flatten(parts[..i])|)]
  {
    if i == 0 {
      assert before + [] == before;
    } else {
      GivenIsPrefix(before, parts, i - 1, limit);
      LeftIsRest(parts, i - 1, limit);
      var a := Flatten(parts[..i - 1]);
      assert Flatten(parts[..i]) == a + parts[i - 1] by { FlattenAt(parts, i - 1); }
      PrefixFurther(before, a, parts[i - 1], limit);
    }
  }

  lemma PrefixFurther(before: seq<u8>, a: seq<u8>, b: seq<u8>, limit: nat)
    ensures (before + a[..Min(limit, |a|)]) + b[..Min(|b|, limit - Min(limit, |a|))]
         == before + (a + b)[..Min(limit, |a + b|)]
  {
    if limit <= |a| {
      assert (a + b)[..limit] == a[..limit];
    } else {
      assert a[..|a|] == a;
    }
  }

  /** At the end of the parts, or of the limit, it has given the first `limit` bytes of all. */
  lemma GivenAll(before: seq<u8>, parts: seq<seq<u8>>, i: nat, limit: nat)
    requires i <= |parts| && (i == |parts| || Left(parts, i, limit) == 0)
    ensures AndGiven(before, parts, i, limit) == before + Flatten(parts)[..Min(limit, |Flatten(parts)|)]
  {
    GivenIsPrefix(before, parts, i, limit);
    LeftIsRest(parts, i, limit);
    FlattenSplit(parts, i);
    assert parts[..|parts|] == parts;
  }
}
