/** A file cut into segments: the put tool as the producer, the get tool as the consumer over a lossy store. */
module SegmentedFile {
  import opened Wrappers
  import opened Bytes

  const BLOCK_SIZE: nat := 1000
  const PRE_SIGN_DATA_COUNT: nat := 11
  const MAX_RETRY: nat := 3
  const TWO64: nat := 0x1_0000_0000_0000_0000

  type File = seq<byte>

  /** A segment packet: its content and the segment number in its FinalBlockId, if that is set. */
  datatype Packet = Packet(content: seq<byte>, final: Option<nat>)

  function Min(a: nat, b: nat): (m: nat) { if a < b then a else b }

  /** How far the first `k` segments reach. */
  function Reach(file: File, k: nat): (n: nat)
    ensures n <= |file|
  {
    Min(k * BLOCK_SIZE, |file|)
  }

  function Block(file: File, k: nat): (b: seq<byte>) {
    assert k * BLOCK_SIZE <= (k + 1) * BLOCK_SIZE;
    file[Reach(file, k)..Reach(file, k + 1)]
  }

  /** `k` is the number of the last segment. */
  predicate IsLast(file: File, k: nat) { Reach(file, k) < |file| == Reach(file, k + 1) }

  /** What a producer of the file may send for segment `k`. */
  predicate Genuine(file: File, k: nat, p: Packet) {
    && Reach(file, k) < |file|
    && p.content == Block(file, k)
    && (p.final == Some(k) <==> IsLast(file, k))
  }

  lemma ReachSteps(file: File, k: nat)
    ensures Reach(file, k) <= Reach(file, k + 1)
    ensures file[..Reach(file, k)] + Block(file, k) == file[..Reach(file, k + 1)]
  {
  }

  // ----- how many packets are prepared -----

  /** The number of segments of the file. */
  function Segments(file: File): (n: nat)
    ensures forall k: nat :: k < n <==> Reach(file, k) < |file|
  {
    (|file| + BLOCK_SIZE - 1) / BLOCK_SIZE
  }

  /** What a segment is: the file is cut every thousand octets, only the last segment may be shorter, none is empty, and
      exactly the last one carries its own number as the final one. */
  lemma SegmentsAreThousands(file: File, k: nat, p: Packet)
    requires Genuine(file, k, p)
    ensures Segments(file) == (|file| + 999) / 1000 && k < Segments(file)
    ensures p.final == Some(k) <==> k + 1 == Segments(file)
    ensures |p.content| == (if k + 1 < Segments(file) then 1000 else |file| - 1000 * k) > 0
    ensures forall i | 0 <= i < |p.content| :: p.content[i] == file[1000 * k + i]
  {
  }

  /** The number of prepared packets after a request, if `prepared` are there before: the distance to the last packet
      is a difference of 64-bit unsigned numbers. */
  function PreparedAfter(file: File, prepared: nat, request: nat): (n: nat) {
    var ahead := (prepared - 1 - request) % TWO64;
    if prepared == 0 then Min(PRE_SIGN_DATA_COUNT, Segments(file))
    else if prepared >= Segments(file) || ahead >= PRE_SIGN_DATA_COUNT then prepared
    else Min(prepared + PRE_SIGN_DATA_COUNT - ahead, Segments(file))
  }

  /** The counts that occur between requests: none, eleven or more, or all. */
  predicate IsCount(file: File, prepared: nat) {
    prepared == 0 || PRE_SIGN_DATA_COUNT <= prepared <= Segments(file) || prepared == Segments(file)
  }

  /** The documented aim: every segment of the file from the requested one to the eleventh beyond it is prepared. */
  predicate WindowPrepared(file: File, prepared: nat, request: nat) {
    forall k: nat | request <= k <= request + 11 :: Has(file, prepared, k)
  }

  /** Segment `k` is prepared, if the file has it. */
  predicate Has(file: File, prepared: nat, k: nat) { k < Segments(file) ==> k < prepared }

  /** The aim is met if and only if the request is for a prepared segment, or everything fits the first eleven packets,
      or everything is prepared, or there is no such segment. */
  lemma WindowPreparedIff(file: File, prepared: nat, request: nat)
    requires IsCount(file, prepared) && |file| < TWO64 && request < TWO64
    ensures IsCount(file, PreparedAfter(file, prepared, request))
    ensures WindowPrepared(file, PreparedAfter(file, prepared, request), request) <==>
            || request < prepared || (prepared == 0 && Segments(file) <= PRE_SIGN_DATA_COUNT)
            || prepared == Segments(file) || request >= Segments(file)
  {
    var after := PreparedAfter(file, prepared, request);
    AheadIs(prepared, request);
    assert WindowPrepared(file, after, request) ==>
      Has(file, after, request) && (request < PRE_SIGN_DATA_COUNT ==> Has(file, after, PRE_SIGN_DATA_COUNT));
  }

  /** How many packets there are then: eleven at first; up to eleven beyond a prepared segment, and never fewer than before; and
      as many as before for a request beyond them, or when the file ends. */
  lemma PreparedIs(file: File, prepared: nat, request: nat)
    requires IsCount(file, prepared) && |file| < TWO64 && request < TWO64
    ensures PreparedAfter(file, prepared, request) ==
            if prepared == 0 then Min(11, Segments(file))
            else if prepared <= request || request + 12 <= prepared then prepared
            else Min(request + 12, Segments(file))
  {
    AheadIs(prepared, request);
  }

  /** The unsigned difference: exact for a prepared packet, and out of range for a request beyond eleven or more. */
  lemma AheadIs(prepared: nat, request: nat)
    requires prepared < TWO64 && request < TWO64
    ensures 0 < prepared && request < prepared ==> (prepared - 1 - request) % TWO64 == prepared - 1 - request
    ensures PRE_SIGN_DATA_COUNT <= prepared <= request ==> (prepared - 1 - request) % TWO64 >= PRE_SIGN_DATA_COUNT
  {
    if 0 < prepared <= request < TWO64 {
      assert (prepared - 1 - request) % TWO64 == prepared - 1 - request + TWO64;
    }
  }

  /** The number of prepared packets after requests that come one after the other, from `prepared` on. */
  function PreparedAfterAll(file: File, prepared: nat, requests: seq<nat>): (n: nat) {
    if requests == [] then prepared
    else PreparedAfter(file, PreparedAfterAll(file, prepared, requests[..|requests| - 1]), requests[|requests| - 1])
  }

  /** The unanswered request: with eleven or more packets prepared, whoever asks for segments beyond them gets nothing,
      however often, although the file has them. After the first request, segment 11 of every longer file is such a one. */
  lemma {:induction false} RequestsBeyondPrepared(file: File, prepared: nat, requests: seq<nat>)
    requires |file| < TWO64 && PRE_SIGN_DATA_COUNT <= prepared < Segments(file)
    requires forall q | q in requests :: prepared <= q < TWO64
    ensures PreparedAfterAll(file, prepared, requests) == prepared
    ensures PreparedAfter(file, 0, 0) == 11
  {
    if requests != [] {
      var front, last := requests[..|requests| - 1], requests[|requests| - 1];
      assert requests == front + [last] && last in requests;
      assert forall q | q in front :: q in requests;
      RequestsBeyondPrepared(file, prepared, front);
      AheadIs(prepared, last);
    }
  }

  /** Whoever asks for the segments in order, from the first one on, finds each of them prepared: eleven after the first
      request, and up to eleven beyond it after every later one. */
  lemma {:induction false} RequestsInOrder(file: File, requests: seq<nat>)
    requires |file| < TWO64 && |requests| <= Segments(file) && forall i | 0 <= i < |requests| :: requests[i] == i
    ensures var n := PreparedAfterAll(file, 0, requests);
      IsCount(file, n) && (requests != [] ==> n == Min(if |requests| == 1 then 11 else |requests| + 11, Segments(file)))
  {
    if requests != [] {
      var front, last := requests[..|requests| - 1], requests[|requests| - 1];
      RequestsInOrder(file, front);
      WindowPreparedIff(file, PreparedAfterAll(file, 0, front), last);
      AheadIs(PreparedAfterAll(file, 0, front), last);
    }
  }

  class Producer {
    const file: File
    /** How much of the input stream has been read. */
    var position: nat
    var data: map<nat, Packet>
    var currentSegmentNo: nat
    var isFinished: bool

    ghost predicate PacketOK(k: nat)
      reads this
    {
      && k in data && data[k].content == Block(file, k)
      && (data[k].final.Some? ==> isFinished && data[k].final.value == currentSegmentNo - 1)
      && (isFinished && k == currentSegmentNo - 1 ==> data[k].final == Some(k))
    }

    /** The invariant between requests. */
    ghost predicate Valid()
      reads this
    {
      Consistent() && IsCount(file, currentSegmentNo)
    }

    /** The packets are the first segments of the file, in order and without a gap. */
    ghost predicate Consistent()
      reads this
    {
      && |file| < TWO64
      && position == Reach(file, currentSegmentNo)
      && (forall k: nat :: k in data <==> k < currentSegmentNo)
      && (forall k: nat | k < currentSegmentNo :: PacketOK(k))
      && (isFinished <==> currentSegmentNo > 0 && position == |file|)
      && (isFinished ==> IsLast(file, currentSegmentNo - 1))
      && (!isFinished && file != [] ==> currentSegmentNo * BLOCK_SIZE == position < |file|)
      && (file == [] ==> currentSegmentNo == 0)
    }

    constructor (f: File)
      requires |f| < TWO64
      ensures Valid() && file == f && currentSegmentNo == 0
    {
      file, position, data, currentSegmentNo, isFinished := f, 0, map[], 0, false;
    }

    /** One round of the loop of `prepareNextData`; an empty input is an error. */
    method PrepareOne() returns (ok: bool)
      requires Consistent() && !isFinished
      modifies this
      ensures Consistent() && (ok <==> file != [])
      ensures ok ==> currentSegmentNo == old(currentSegmentNo) + 1
      ensures !ok ==> currentSegmentNo == old(currentSegmentNo) && data == old(data)
    {
      var readSize := Min(BLOCK_SIZE, |file| - position);
      if readSize <= 0 { return false; }
      var buffer := file[position..position + readSize];
      position := position + readSize;
      var final := None;
      if position == |file| {
        final := Some(currentSegmentNo);
        isFinished := true;
      }
      data := data[currentSegmentNo := Packet(buffer, final)];
      currentSegmentNo := currentSegmentNo + 1;
      forall k: nat | k < currentSegmentNo ensures PacketOK(k) {
        if k < old(currentSegmentNo) { assert old(PacketOK(k)); }
      }
      return true;
    }

    /** How many packets to prepare; the difference is one of 64-bit unsigned numbers. */
    method CountToPrepare(referenceSegmentNo: nat) returns (n: nat)
      requires Valid() && !isFinished && referenceSegmentNo < TWO64
      ensures PreparedAfter(file, currentSegmentNo, referenceSegmentNo) == Min(currentSegmentNo + n, Segments(file))
      ensures currentSegmentNo == 0 ==> n > 0
    {
      n := PRE_SIGN_DATA_COUNT;
      if data != map[] {
        assert currentSegmentNo > 0 by { var k :| k in data; }
        var maxSegmentNo := currentSegmentNo - 1;
        var ahead := (maxSegmentNo - referenceSegmentNo) % TWO64;
        if ahead >= n { return 0; }
        n := n - ahead;
      } else {
        assert 0 !in data;
      }
    }

    /** `prepareNextData`: an empty input is an error. */
    method PrepareNextData(referenceSegmentNo: nat) returns (ok: bool)
      requires Valid() && referenceSegmentNo < TWO64
      modifies this
      ensures Valid() && (ok <==> file != [])
      ensures currentSegmentNo == PreparedAfter(file, old(currentSegmentNo), referenceSegmentNo)
      ensures currentSegmentNo == old(currentSegmentNo) ==> data == old(data) && isFinished == old(isFinished)
    {
      ghost var before := currentSegmentNo;
      WindowPreparedIff(file, before, referenceSegmentNo);
      if isFinished { return true; }
      var nDataToPrepare := CountToPrepare(referenceSegmentNo);
      var i := 0;
      ok := true;
      while i < nDataToPrepare && !isFinished
        invariant 0 <= i <= nDataToPrepare && Consistent() && currentSegmentNo <= Segments(file)
        invariant file != [] ==> currentSegmentNo == before + i
        invariant file == [] ==> i == 0 && currentSegmentNo == 0
        invariant i == 0 ==> data == old(data) && isFinished == old(isFinished)
      {
        ok := PrepareOne();
        if !ok { return; }
        i := i + 1;
      }
    }

    /** The segments the producer can be asked for now: those it has and, at the start, the first eleven. */
    ghost predicate Answers(segmentNo: nat)
      reads this
    {
      segmentNo < currentSegmentNo || (currentSegmentNo == 0 && segmentNo < PRE_SIGN_DATA_COUNT)
    }

    /** `onInterest`: whatever is sent is a genuine segment, a segment of the file is sent if and only if it can be asked
        for now, and a consumer that asks in order is answered. */
    method OnInterest(segmentNo: nat) returns (ok: bool, reply: Option<Packet>)
      requires Valid() && segmentNo < TWO64
      modifies this
      ensures Valid() && (ok <==> file != [])
      ensures reply.Some? ==> Genuine(file, segmentNo, reply.value)
      ensures reply.Some? <==> ok && old(Answers(segmentNo)) && Reach(file, segmentNo) < |file|
      ensures currentSegmentNo == PreparedAfter(file, old(currentSegmentNo), segmentNo)
      ensures (
        && reply.Some? && Reach(file, segmentNo + 1) < |file| && old(Answers(segmentNo))
        && (old(currentSegmentNo) > 0 || segmentNo + 1 < PRE_SIGN_DATA_COUNT)) ==> Answers(segmentNo + 1)
    {
      reply := None;
      ghost var before := currentSegmentNo;
      AheadIs(before, segmentNo);
      ok := PrepareNextData(segmentNo);
      if !ok || segmentNo !in data { return; }
      if isFinished { MarkFinal(segmentNo); }
      assert PacketOK(segmentNo);
      reply := Some(data[segmentNo]);
    }

    /** The FinalBlockId of a packet is set again when the last one is known. */
    method MarkFinal(segmentNo: nat)
      requires Valid() && isFinished && segmentNo < currentSegmentNo
      modifies this`data
      ensures Valid() && data.Keys == old(data.Keys) && data[segmentNo].final == Some(currentSegmentNo - 1)
    {
      assert PacketOK(segmentNo);
      var final := currentSegmentNo - 1;
      data := data[segmentNo := data[segmentNo].(final := Some(final))];
      forall k: nat | k < currentSegmentNo ensures PacketOK(k) { assert old(PacketOK(k)); }
    }
  }
}
