/** The ring of packets that a file is read into. */
module DataBuffer {

  type Octet = bv8

  datatype Packet = Packet(seqNo: int, hasErrors: bool, data: seq<Octet>)

  /** The largest size_t. */
  const SIZE_MAX: nat := 0xffff_ffff_ffff_ffff

  /** A time of day, or the largest one there is. */
  datatype Timeout = At(seconds: int, micros: int) | Never

  class DataPacket {
    const packet: Packet
    var timeout: Timeout

    constructor (packet: Packet, timeout: Timeout)
      ensures this.packet == packet && this.timeout == timeout
    {
      this.packet, this.timeout := packet, timeout;
    }
  }

  lemma Laps(q: nat, max: nat)
    ensures q >= 2 ==> q * max >= 2 * max
  {
    if q >= 2 {
      assert q * max == 2 * max + (q - 2) * max;
    }
  }

  lemma Wrap(x: nat, max: nat)
    requires x < 2 * max
    ensures x % max == if x < max then x else x - max
  {
    var q := x / max;
    assert x == q * max + x % max;
    Laps(q, max);
  }

  /** The slot `k` places after `first` in a ring of `max`; without any slot, none can be reached. */
  function Place(first: nat, k: nat, max: nat): (i: nat)
    ensures max > 0 ==> i < max
    ensures max == 0 ==> i == 0
  {
    if max == 0 then 0 else (first + k) % max
  }

  /** Two offsets less than a lap apart meet in the same slot only if they are equal. */
  lemma SamePlace(first: nat, d: nat, e: nat, max: nat)
    requires first < max && d < max && e < max
    ensures Place(first, d, max) == Place(first, e, max) <==> d == e
  {
    Wrap(first + d, max);
    Wrap(first + e, max);
  }

  lemma NextPlace(first: nat, k: nat, max: nat)
    requires first < max && k < max
    ensures (Place(first, k, max) + 1) % max == Place(first, k + 1, max) == Place((first + 1) % max, k, max)
  {
    Wrap(first + k, max);
    Wrap(first + k + 1, max);
    Wrap(first + 1, max);
    Wrap((first + k) % max + 1, max);
    Wrap((first + 1) % max + k, max);
  }

  lemma Lap(first: nat, max: nat)
    requires first < max
    ensures Place(first, 0, max) == first == Place(first, max, max)
  {
    Wrap(first, max);
    Wrap(first + max, max);
  }

  lemma PlaceIs(first: nat, k: nat, max: nat)
    requires max > 0
    ensures Place(first, k, max) == (first + k) % max
  {
  }

  class DataBuffer {
    const maxCount: nat
    const data: array<DataPacket?>
    var minSeqNo: int
    var firstIndex: nat
    var freeIndex: nat
    var count: nat

    /** The slot of the k-th stored packet. */
    ghost function Slot(k: nat): (i: nat)
      reads this`firstIndex
      ensures maxCount > 0 ==> i < maxCount
      ensures maxCount == 0 ==> i == 0
    {
      Place(firstIndex, k, maxCount)
    }

    ghost predicate Shape()
      reads this
    {
      && maxCount == data.Length && (if maxCount == 0 then firstIndex == 0 else firstIndex < maxCount)
      && count <= maxCount && freeIndex == Slot(count)
    }

    ghost predicate Valid()
      reads this, data
    {
      Shape() && forall k :: 0 <= k < count ==>
        var p := data[Slot(k)]; p != null && p.packet.seqNo == minSeqNo + k
    }

    /** The stored packets, oldest first. */
    ghost function Contents(): (s: seq<DataPacket>)
      requires Valid()
      reads this, data
      ensures |s| == count && forall k :: 0 <= k < count ==> s[k] == data[Slot(k)] && s[k].packet.seqNo == minSeqNo + k
    {
      seq(count, k requires Valid() && 0 <= k < count reads this, data => var p: DataPacket := data[Slot(k)]; p)
    }

    constructor (maxPacketCount: nat)
      ensures Valid() && fresh(data) && maxCount == maxPacketCount && minSeqNo == 0 && Contents() == []
    {
      maxCount := maxPacketCount;
      data := new DataPacket?[maxPacketCount](_ => null);
      minSeqNo, firstIndex, freeIndex, count := 0, 0, 0, 0;
    }

    method Contains(seqNo: int) returns (found: bool)
      requires Valid()
      ensures found <==> exists p :: p in Contents() && p.packet.seqNo == seqNo
    {
      hide Place;
      var i := seqNo - minSeqNo;
      found := i >= 0 && i < count;
      if found {
        assert Contents()[i] in Contents();
      }
    }

    /** The stored packet with this number, if there is one. */
    method Get(seqNo: int) returns (p: DataPacket?)
      requires Valid()
      ensures if minSeqNo <= seqNo < minSeqNo + count then p == Contents()[seqNo - minSeqNo] else p == null
    {
      hide Place;
      if seqNo < minSeqNo || seqNo >= minSeqNo + count {
        return null;
      }
      PlaceIs(firstIndex, seqNo - minSeqNo, maxCount);
      p := data[(seqNo - minSeqNo + firstIndex) % maxCount];
    }

    /** Append a packet. The assertions of the source hold exactly for the number that continues the
        sequence in a buffer that is not full; `ok` says whether they do. */
    method Put(p: DataPacket) returns (ok: bool)
      requires Valid()
      modifies this, data
      ensures Valid() && minSeqNo == old(minSeqNo)
      ensures ok <==> old(count) < maxCount && p.packet.seqNo == minSeqNo + old(count)
      ensures Contents() == if ok then old(Contents()) + [p] else old(Contents())
    {
      hide Place;
      var d := p.packet.seqNo - minSeqNo;
      if count >= maxCount || d < 0 || d >= maxCount {
        return false;
      }
      PlaceIs(firstIndex, d, maxCount);
      SamePlace(firstIndex, d, count, maxCount);
      if (d + firstIndex) % maxCount != freeIndex {
        return false;
      }
      ghost var was := Contents();
      NextPlace(firstIndex, count, maxCount);
      data[freeIndex] := p;
      freeIndex := freeIndex + 1;
      freeIndex := freeIndex % maxCount;
      count := count + 1;
      forall k | 0 <= k < count
        ensures data[Slot(k)] == (was + [p])[k]
      {
        SamePlace(firstIndex, k, count - 1, maxCount);
      }
      assert Contents() == was + [p];
      ok := true;
    }

    /** One round of freeing. With nothing stored the unsigned count wraps around. */
    method DropFirst()
      requires Shape() && maxCount > 0 && (count > 0 ==> Valid())
      modifies this
      ensures minSeqNo == old(minSeqNo) + 1
      ensures old(count) > 0 ==> Valid() && Contents() == old(Contents())[1..]
      ensures old(count) == 0 ==> count == SIZE_MAX
    {
      hide Place;
      ghost var was, first := if count > 0 then Contents() else [], firstIndex;
      firstIndex := firstIndex + 1;
      firstIndex := firstIndex % maxCount;
      minSeqNo := minSeqNo + 1;
      count := if count == 0 then SIZE_MAX else count - 1;
      if was != [] {
        NextPlace(first, count, maxCount);
        forall k | 0 <= k < count
          ensures data[Slot(k)] == was[k + 1]
        {
          NextPlace(first, k, maxCount);
        }
        assert Contents() == was[1..];
      }
    }

    /** Drop the packets from `start` to `end`. `ok` says whether the assertions of the source hold, `overrun`
        whether a round ran with nothing stored. The assertions let that happen: their bound is one too loose, and
        an `end` just past the last stored packet, and no other, passes them and overruns. A buffer without
        any slot then divides by zero, after which nothing is promised. */
    method FreeBuffer(start: int, end: int) returns (ok: bool, overrun: bool)
      requires Valid()
      modifies this
      ensures ok <==> start == old(minSeqNo) && start <= end <= start + old(count)
      ensures overrun <==> ok && end - start == old(count)
      ensures !ok ==> Valid() && minSeqNo == old(minSeqNo) && Contents() == old(Contents())
      ensures ok && maxCount > 0 ==> minSeqNo == end + 1
      ensures ok && !overrun ==> Valid() && Contents() == old(Contents())[end - start + 1..]
      ensures overrun && maxCount > 0 ==> count == SIZE_MAX && (maxCount < SIZE_MAX ==> !Valid())
    {
      hide Place;
      overrun := false;
      if end < start || start != minSeqNo || end - start > count {
        return false, false;
      }
      for i := start to end + 1
        invariant minSeqNo == i && (overrun <==> i - start > old(count))
        invariant !overrun ==> Valid() && Contents() == old(Contents())[i - start..]
        invariant overrun ==> count == SIZE_MAX
      {
        if count == 0 {
          overrun := true;
          if maxCount == 0 {
            return true, true;
          }
        }
        DropFirst();
      }
      ok := true;
    }

    lemma AtEnd(k: nat)
      requires Shape() && k <= count
      ensures Slot(0) == firstIndex
      ensures if count == maxCount then freeIndex == firstIndex else (Slot(k) == freeIndex <==> k == count)
    {
      if maxCount > 0 {
        Lap(firstIndex, maxCount);
      }
      if count < maxCount {
        SamePlace(firstIndex, k, count, maxCount);
      }
    }

    /** Forget the timeouts of the stored packets. The loop runs from the first index to the free one, so on
        a full buffer, where the two coincide, it does nothing. */
    method ResetTimers()
      requires Valid()
      modifies Contents()
      ensures Valid() && Contents() == old(Contents())
      ensures count < maxCount ==> forall p :: p in Contents() ==> p.timeout == Never
      ensures count == maxCount ==> forall p :: p in Contents() ==> p.timeout == old(p.timeout)
    {
      hide Place;
      ghost var k, all := 0, Contents();
      var i := firstIndex;
      AtEnd(0);
      while i != freeIndex
        invariant Shape() && 0 <= k <= count && i == Slot(k) && (count == maxCount ==> k == 0)
        invariant forall j :: 0 <= j < k ==> all[j].timeout == Never
        invariant count == maxCount ==> forall p :: p in all ==> p.timeout == old(p.timeout)
        decreases count - k
      {
        AtEnd(k);
        NextPlace(firstIndex, k, maxCount);
        data[i].timeout := Never;
        i := (i + 1) % maxCount;
        k := k + 1;
      }
      AtEnd(k);
    }
  }
}
