/**
 The copy loops of the Ethernet driver: a frame in a chain of packet buffers is spread
 over a ring of driver buffers of fixed size, and collected from one.
 */
module EthernetFrames {
  import opened Bytes

  /** `ETH_MAX_PACKET_SIZE`, the size of a driver buffer, and `ETH_TXBUFNB`, their number. */
  const BUF := 1524
  const NB := 4

  function Concat(parts: seq<seq<byte>>): seq<byte> {
    if parts == [] then [] else Concat(parts[..|parts| - 1]) + parts[|parts| - 1]
  }

  function Slot(start: nat, d: nat): (s: nat)
    ensures s < NB
  {
    (start + d) % NB
  }

  /** The first `n` bytes of the frame that starts in buffer `start` of the ring. */
  ghost function Frame(ring: array2<byte>, start: nat, n: nat): (f: seq<byte>)
    requires ring.Length0 == NB && ring.Length1 == BUF
    reads ring
    ensures |f| == n
  {
    seq(n, k requires 0 <= k < n reads ring => ring[Slot(start, k / BUF), k % BUF])
  }

  /** How often the scatter loop moves to the next buffer: not before a byte needs it. */
  function Moves(total: nat): nat { if total == 0 then 0 else (total - 1) / BUF }

  /** The bytes of a frame of length `n` that a longer frame has overwritten. */
  function Lost(n: nat): nat { if n <= NB * BUF then 0 else n - NB * BUF }

  /** The first `n` bytes of the stream have been written: the ring holds the last of them that it has room for. */
  ghost predicate Placed(ring: array2<byte>, start: nat, stream: seq<byte>, n: nat)
    requires ring.Length0 == NB && ring.Length1 == BUF
    reads ring
  {
    n <= |stream| && forall d, o :: 0 <= d && 0 <= o < BUF && Lost(n) <= d * BUF + o < n ==>
      ring[Slot(start, d), o] == stream[d * BUF + o]
  }

  lemma CellOf(k: nat)
    ensures k == k / BUF * BUF + k % BUF && k % BUF < BUF
  {
  }

  lemma PlacedIsFrame(ring: array2<byte>, start: nat, stream: seq<byte>)
    requires ring.Length0 == NB && ring.Length1 == BUF
    requires Placed(ring, start, stream, |stream|)
    ensures Frame(ring, start, |stream|)[Lost(|stream|)..] == stream[Lost(|stream|)..]
  {
    forall k | Lost(|stream|) <= k < |stream| ensures Frame(ring, start, |stream|)[k] == stream[k] {
      CellOf(k);
      assert ring[Slot(start, k / BUF), k % BUF] == stream[k / BUF * BUF + k % BUF];
    }
  }

  /** A byte of the frame lies in the buffer its number leads to, four buffers of 1524 bytes going round. */
  lemma FrameIs(ring: array2<byte>, start: nat, n: nat)
    requires ring.Length0 == NB && ring.Length1 == BUF
    ensures ring.Length0 == 4 && ring.Length1 == 1524
    ensures forall k :: 0 <= k < n ==> Frame(ring, start, n)[k] == ring[(start + k / 1524) % 4, k % 1524]
  {
  }

  /** A frame touches the buffer of its start, and one more for every 1524 bytes but the first. */
  predicate Touches(total: nat, d: nat) { d == 0 || 1524 * d < total }

  lemma TouchesIs(total: nat, d: nat)
    ensures Touches(total, d) <==> d <= Moves(total)
  {
    var moves := Moves(total);
    if total > 0 {
      assert total - 1 == 1524 * moves + (total - 1) % BUF;
    }
  }

  lemma SlotIs(start: nat, d: nat)
    ensures Slot(start, d) == (start + d) % 4
  {
  }

  lemma FreeIs(own: seq<bool>, start: nat, total: nat)
    requires |own| == NB
    ensures FreeUpTo(own, start, Moves(total)) <==> forall d: nat :: Touches(total, d) ==> !own[(start + d) % 4]
  {
    hide Touches, Moves, Slot;
    forall d: nat ensures (Touches(total, d) <==> d <= Moves(total)) && Slot(start, d) == (start + d) % 4 {
      TouchesIs(total, d);
      SlotIs(start, d);
    }
  }

  lemma {:induction false} ConcatJoins(a: seq<seq<byte>>, b: seq<seq<byte>>, p: seq<byte>)
    ensures Concat([]) == [] && Concat([p]) == p && Concat(a + b) == Concat(a) + Concat(b)
  {
    assert [p][..0] == [];
    if b == [] {
      assert a + b == a;
    } else {
      var n := |b| - 1;
      ConcatJoins(a, b[..n], p);
      assert (a + b)[..|a| + n] == a + b[..n];
    }
  }

  /** A byte and the one a whole ring behind it have one place, so nothing else of a long frame is left. */
  lemma FrameWraps(ring: array2<byte>, start: nat, n: nat, k: nat)
    requires ring.Length0 == NB && ring.Length1 == BUF && k + NB * BUF < n
    ensures Frame(ring, start, n)[k] == Frame(ring, start, n)[k + NB * BUF]
  {
    CellOf(k);
    Quotient(k + NB * BUF, k / BUF + NB, k % BUF);
    SlotsRepeat(start, k / BUF);
  }

  lemma SlotsRepeat(start: nat, d: nat)
    ensures Slot(start, d + NB) == Slot(start, d)
  {
  }

  /** Buffers less than a ring apart are different ones. */
  lemma SlotsDiffer(start: nat, d: nat, e: nat)
    requires d < e < d + NB
    ensures Slot(start, d) != Slot(start, e)
  {
  }

  /** A byte the ring still has room for, in an earlier buffer, is not where new bytes are written. */
  lemma StaysClear(start: nat, d: nat, offset: nat, count: nat, e: nat, o: nat)
    requires offset + count <= BUF && o < BUF && e < d && count > 0
    requires Lost(d * BUF + offset + count) <= e * BUF + o
    ensures Slot(start, e) != Slot(start, d) || o < offset || o >= offset + count
  {
    if d < e + NB {
      SlotsDiffer(start, e, d);
    } else {
      assert d * BUF >= (e + NB) * BUF;
    }
  }

  /** Copies part of a packet buffer to the place the frame has reached. */
  method CopyOut(ring: array2<byte>, start: nat, d: nat, offset: nat, part: seq<byte>, ghost stream: seq<byte>)
    requires ring.Length0 == NB && ring.Length1 == BUF
    requires offset + |part| <= BUF
    requires var n := d * BUF + offset;
             Placed(ring, start, stream, n) && n + |part| <= |stream| && stream[n..n + |part|] == part
    modifies ring
    ensures Placed(ring, start, stream, d * BUF + offset + |part|)
  {
    hide Slot;
    ghost var n := d * BUF + offset;
    forall k | 0 <= k < |part| {
      ring[Slot(start, d), offset + k] := part[k];
    }
    forall e: int, o: int | 0 <= e && 0 <= o < BUF && Lost(n + |part|) <= e * BUF + o < n + |part|
      ensures ring[Slot(start, e), o] == stream[e * BUF + o]
    {
      if e == d && o >= offset {
        assert stream[n..n + |part|][o - offset] == part[o - offset];
      } else if e < d && |part| > 0 {
        StaysClear(start, d, offset, |part|, e, o);
      }
    }
  }

  /** Whether the descriptors a frame of `total` bytes touches are all free. */
  ghost predicate FreeUpTo(own: seq<bool>, start: nat, moves: nat)
    requires |own| == NB
  {
    forall d :: 0 <= d <= moves ==> !own[Slot(start, d)]
  }

  lemma PartOfPart(stream: seq<byte>, at: nat, q: seq<byte>, from: nat, to: nat)
    requires at + |q| <= |stream| && stream[at..at + |q|] == q && from <= to <= |q|
    ensures stream[at + from..at + to] == q[from..to]
  {
    forall k | 0 <= k < to - from ensures stream[at + from..at + to][k] == q[from..to][k] {
      assert stream[at..at + |q|][from + k] == q[from + k];
    }
  }

  lemma FreeAt(own: seq<bool>, start: nat, d: nat)
    requires |own| == NB && !own[Slot(start, d)]
    requires d > 0 ==> FreeUpTo(own, start, d - 1) || FreeUpTo(own, start, d)
    ensures FreeUpTo(own, start, d)
  {
  }

  lemma NotFree(own: seq<bool>, start: nat, d: nat, total: nat)
    requires |own| == NB && own[Slot(start, d)] && (d > 0 ==> total > d * BUF)
    ensures !FreeUpTo(own, start, Moves(total))
  {
    if d > 0 {
      assert (total - 1) / BUF >= d;
    }
  }

  lemma MovesSoFar(d: nat, offset: nat)
    requires offset <= BUF && (d > 0 ==> offset > 0)
    ensures Moves(d * BUF + offset) == d
  {
    if d * BUF + offset > 0 {
      var r := if offset > 0 then offset - 1 else 0;
      assert d * BUF + offset - 1 == BUF * d + r;
      Quotient(d * BUF + offset - 1, d, r);
    }
  }

  lemma Quotient(n: nat, q: nat, r: nat)
    requires n == BUF * q + r && r < BUF
    ensures n / BUF == q && n % BUF == r
  {
  }

  lemma ConcatNone(parts: seq<seq<byte>>)
    ensures Concat(parts[..0]) == []
    ensures parts == [] ==> Concat(parts) == []
  {
    assert parts[..0] == [];
  }

  lemma PlacedNone(ring: array2<byte>, start: nat, stream: seq<byte>)
    requires ring.Length0 == NB && ring.Length1 == BUF
    ensures Placed(ring, start, stream, 0)
  {
  }

  lemma ConcatNext(parts: seq<seq<byte>>, i: nat)
    requires i < |parts|
    ensures Concat(parts[..i + 1]) == Concat(parts[..i]) + parts[i]
  {
    assert parts[..i + 1][..i] == parts[..i];
  }

  lemma {:induction false} ConcatPart(parts: seq<seq<byte>>, i: nat)
    requires i < |parts|
    ensures var at := |Concat(parts[..i])|;
            at + |parts[i]| <= |Concat(parts)| && Concat(parts)[at..at + |parts[i]|] == parts[i]
    decreases |parts|
  {
    var n := |parts| - 1;
    if i < n {
      ConcatPart(parts[..n], i);
      assert parts[..n][..i] == parts[..i];
      var at := |Concat(parts[..i])|;
      SliceOfStart(Concat(parts[..n]), parts[n], at, at + |parts[i]|);
    }
  }

  lemma SliceOfStart(a: seq<byte>, b: seq<byte>, from: nat, to: nat)
    requires from <= to <= |a|
    ensures (a + b)[from..to] == a[from..to]
  {
  }

  lemma {:induction false} ConcatGrows(parts: seq<seq<byte>>, i: nat)
    requires i <= |parts|
    ensures |Concat(parts[..i])| <= |Concat(parts)|
    decreases |parts|
  {
    if i < |parts| {
      ConcatGrows(parts[..|parts| - 1], i);
      assert parts[..|parts| - 1][..i] == parts[..i];
    } else {
      assert parts[..i] == parts;
    }
  }

  /** One packet buffer, from the place the frame has reached on: it moves to the next buffer as long as it has to. */
  method CopyPbuf(q: seq<byte>, ring: array2<byte>, own: seq<bool>, start: nat, from: nat, fromOffset: nat,
                  ghost stream: seq<byte>)
      returns (ok: bool, d: nat, bufferOffset: nat)
    requires ring.Length0 == NB && ring.Length1 == BUF && |own| == NB
    requires fromOffset <= BUF && (from > 0 ==> fromOffset > 0)
    requires from * BUF + fromOffset + |q| <= |stream|
    requires stream[from * BUF + fromOffset..from * BUF + fromOffset + |q|] == q
    requires FreeUpTo(own, start, from)
    requires Placed(ring, start, stream, from * BUF + fromOffset)
    modifies ring
    ensures ok ==>
              && bufferOffset <= BUF && (d > 0 ==> bufferOffset > 0)
              && d * BUF + bufferOffset == from * BUF + fromOffset + |q|
              && FreeUpTo(own, start, d)
              && Placed(ring, start, stream, d * BUF + bufferOffset)
    ensures !ok ==> !FreeUpTo(own, start, Moves(|stream|))
  {
    hide Moves, Slot, Placed, FreeUpTo;
    ghost var at := from * BUF + fromOffset;
    d, bufferOffset := from, fromOffset;
    var left, payloadOffset := |q|, 0;
    while left + bufferOffset > BUF
      invariant 0 <= bufferOffset <= BUF && (d > 0 ==> bufferOffset > 0 || left > 0)
      invariant 0 <= payloadOffset <= |q| && left == |q| - payloadOffset
      invariant d * BUF + bufferOffset == at + payloadOffset
      invariant FreeUpTo(own, start, d)
      invariant Placed(ring, start, stream, d * BUF + bufferOffset)
      decreases left, bufferOffset
    {
      var n := BUF - bufferOffset;
      PartOfPart(stream, at, q, payloadOffset, payloadOffset + n);
      CopyOut(ring, start, d, bufferOffset, q[payloadOffset..payloadOffset + n], stream);
      d := d + 1;
      left, payloadOffset := left - n, payloadOffset + n;
      bufferOffset := 0;
      if own[Slot(start, d)] {
        NotFree(own, start, d, |stream|);
        return false, d, bufferOffset;
      }
      FreeAt(own, start, d);
    }
    PartOfPart(stream, at, q, payloadOffset, |q|);
    CopyOut(ring, start, d, bufferOffset, q[payloadOffset..|q|], stream);
    bufferOffset := bufferOffset + left;
    ok := true;
  }

  /**
   Spreads the packet buffers over the ring from buffer `start` on. It succeeds exactly
   if every descriptor it comes to is free; the ring then holds the frame, of one that is too long the end.
   */
  method LowLevelOutput(pbufs: seq<seq<byte>>, ring: array2<byte>, own: seq<bool>, start: nat)
      returns (ok: bool, frameLength: nat)
    requires ring.Length0 == NB && ring.Length1 == BUF && |own| == NB
    modifies ring
    ensures ok <==> pbufs == [] || forall d: nat :: Touches(|Concat(pbufs)|, d) ==> !own[(start + d) % 4]
    ensures ok ==> frameLength == |Concat(pbufs)|
    ensures ok ==> forall k :: 0 <= k < frameLength <= k + 6096 ==>
              ring[(start + k / 1524) % 4, k % 1524] == Concat(pbufs)[k]
    ensures ok ==> Frame(ring, start, frameLength)[Lost(frameLength)..] == Concat(pbufs)[Lost(frameLength)..]
  {
    hide Moves, Slot, Placed, FreeUpTo, Concat, Touches;
    ghost var stream := Concat(pbufs);
    FreeIs(own, start, |stream|);
    ok, frameLength := true, 0;
    var d, bufferOffset := 0, 0;
    ConcatNone(pbufs);
    PlacedNone(ring, start, stream);
    var i := 0;
    while i < |pbufs|
      invariant 0 <= i <= |pbufs|
      invariant 0 <= bufferOffset <= BUF && 0 <= d && (d > 0 ==> bufferOffset > 0)
      invariant frameLength == d * BUF + bufferOffset == |Concat(pbufs[..i])|
      invariant i > 0 ==> FreeUpTo(own, start, d)
      invariant Placed(ring, start, stream, frameLength)
    {
      ConcatPart(pbufs, i);
      ConcatNext(pbufs, i);
      if own[Slot(start, d)] {
        ConcatGrows(pbufs, i);
        NotFree(own, start, d, |stream|);
        return false, frameLength;
      }
      FreeAt(own, start, d);
      ok, d, bufferOffset := CopyPbuf(pbufs[i], ring, own, start, d, bufferOffset, stream);
      if !ok { return; }
      frameLength := frameLength + |pbufs[i]|;
      i := i + 1;
    }
    assert pbufs[..i] == pbufs;
    MovesSoFar(d, bufferOffset);
    PlacedIsFrame(ring, start, stream);
    FrameBytes(ring, start, stream);
  }

  lemma FrameBytes(ring: array2<byte>, start: nat, stream: seq<byte>)
    requires ring.Length0 == NB && ring.Length1 == BUF
    requires Frame(ring, start, |stream|)[Lost(|stream|)..] == stream[Lost(|stream|)..]
    ensures forall k :: 0 <= k < |stream| <= k + 6096 ==> ring[(start + k / 1524) % 4, k % 1524] == stream[k]
  {
    FrameIs(ring, start, |stream|);
    hide Frame;
    var lost := Lost(|stream|);
    forall k | 0 <= k < |stream| <= k + 6096 ensures Frame(ring, start, |stream|)[k] == stream[k] {
      assert Frame(ring, start, |stream|)[lost..][k - lost] == stream[lost..][k - lost];
    }
  }

  /**
   Collects a frame from the ring into freshly allocated packet buffers of the given sizes.
   */
  method LowLevelInput(ring: array2<byte>, start: nat, sizes: seq<nat>) returns (pbufs: seq<seq<byte>>)
    requires ring.Length0 == NB && ring.Length1 == BUF
    ensures |pbufs| == |sizes| && forall i :: 0 <= i < |sizes| ==> |pbufs[i]| == sizes[i]
    ensures Concat(pbufs) == Frame(ring, start, |Concat(pbufs)|)
    ensures ring.Length0 == 4 && ring.Length1 == 1524
    ensures forall k :: 0 <= k < |Concat(pbufs)| ==> Concat(pbufs)[k] == ring[(start + k / 1524) % 4, k % 1524]
  {
    hide Slot, Frame;
    pbufs := [];
    ghost var total: nat := 0;
    FrameNone(ring, start);
    var d, bufferOffset := 0, 0;
    var i := 0;
    while i < |sizes|
      invariant 0 <= i <= |sizes| && |pbufs| == i
      invariant forall k :: 0 <= k < i ==> |pbufs[k]| == sizes[k]
      invariant 0 <= bufferOffset <= BUF && 0 <= d && total == d * BUF + bufferOffset
      invariant Concat(pbufs) == Frame(ring, start, total)
    {
      var left, payloadOffset := sizes[i], 0;
      var payload := [];
      ghost var before := pbufs;
      assert Frame(ring, start, total) + [] == Frame(ring, start, total);
      while left + bufferOffset > BUF
        invariant 0 <= bufferOffset <= BUF && 0 <= d && total == d * BUF + bufferOffset
        invariant 0 <= payloadOffset == |payload| && left == sizes[i] - payloadOffset >= 0
        invariant Concat(before) + payload == Frame(ring, start, total)
        decreases left, bufferOffset
      {
        var n := BUF - bufferOffset;
        var part := CopyIn(ring, start, d, bufferOffset, n);
        GrowFrame(ring, start, Concat(before), payload, part, total);
        payload := payload + part;
        total := total + n;
        d := d + 1;
        left, payloadOffset := left - n, payloadOffset + n;
        bufferOffset := 0;
      }
      var part := CopyIn(ring, start, d, bufferOffset, left);
      GrowFrame(ring, start, Concat(before), payload, part, total);
      payload := payload + part;
      total := total + left;
      bufferOffset := bufferOffset + left;
      pbufs := pbufs + [payload];
      assert pbufs[..|pbufs| - 1] == before;
      i := i + 1;
    }
    FrameIs(ring, start, |Concat(pbufs)|);
  }

  lemma FrameNone(ring: array2<byte>, start: nat)
    requires ring.Length0 == NB && ring.Length1 == BUF
    ensures Frame(ring, start, 0) == []
  {
  }

  /** The bytes of one driver buffer, which continue the frame. */
  method CopyIn(ring: array2<byte>, start: nat, d: nat, offset: nat, n: nat) returns (part: seq<byte>)
    requires ring.Length0 == NB && ring.Length1 == BUF && offset + n <= BUF
    ensures |part| == n
    ensures Frame(ring, start, d * BUF + offset + n) == Frame(ring, start, d * BUF + offset) + part
  {
    part := [];
    for k := 0 to n
      invariant |part| == k && forall i :: 0 <= i < k ==> part[i] == ring[Slot(start, d), offset + i]
    {
      part := part + [ring[Slot(start, d), offset + k]];
    }
    ghost var at := d * BUF + offset;
    forall k | 0 <= k < n ensures Frame(ring, start, at + n)[at + k] == part[k] {
      assert at + k == BUF * d + (offset + k);
      Quotient(at + k, d, offset + k);
    }
    assert Frame(ring, start, at + n)[..at] == Frame(ring, start, at);
  }

  lemma GrowFrame(ring: array2<byte>, start: nat, a: seq<byte>, b: seq<byte>, part: seq<byte>, n: nat)
    requires ring.Length0 == NB && ring.Length1 == BUF
    requires a + b == Frame(ring, start, n) && Frame(ring, start, n + |part|) == Frame(ring, start, n) + part
    ensures a + (b + part) == Frame(ring, start, n + |part|)
  {
    assert a + (b + part) == a + b + part;
  }

  lemma {:induction false} ConcatLength(parts: seq<seq<byte>>, sizes: seq<nat>)
    requires |parts| == |sizes| && forall i :: 0 <= i < |sizes| ==> |parts[i]| == sizes[i]
    ensures |Concat(parts)| == Sum(sizes)
  {
    if parts != [] {
      ConcatLength(parts[..|parts| - 1], sizes[..|sizes| - 1]);
    }
  }

  function Sum(sizes: seq<nat>): nat {
    if sizes == [] then 0 else Sum(sizes[..|sizes| - 1]) + sizes[|sizes| - 1]
  }

  /** A frame spread over a free ring and collected into buffers of the same total size: the bytes it has room for. */
  method ThroughTheRing(pbufs: seq<seq<byte>>, ring: array2<byte>, start: nat, sizes: seq<nat>)
      returns (received: seq<seq<byte>>)
    requires ring.Length0 == NB && ring.Length1 == BUF
    requires |Concat(pbufs)| == Sum(sizes)
    modifies ring
    ensures |received| == |sizes| && forall i :: 0 <= i < |sizes| ==> |received[i]| == sizes[i]
    ensures |Concat(received)| == |Concat(pbufs)|
    ensures var lost := Lost(|Concat(pbufs)|); Concat(received)[lost..] == Concat(pbufs)[lost..]
    ensures |Concat(pbufs)| <= NB * BUF ==> Concat(received) == Concat(pbufs)
  {
    hide Frame;
    var ok, length := LowLevelOutput(pbufs, ring, [false, false, false, false], start);
    received := LowLevelInput(ring, start, sizes);
    ConcatLength(received, sizes);
  }
}
