/** The traffic agent's state in sigma_dut.h: the per-stream statistics
    (`struct sigma_stream`: frame counters and a bounded array of
    `struct sigma_frame_stats` records) and the stream table of
    `struct sigma_dut` (`streams[MAX_SIGMA_STREAMS]`, `num_streams`,
    `next_streamid`). The workers that send and receive frames are not part
    of this model; the operations below are the updates of these fields
    that keep the header's bounds. */
module Traffic {
  import opened Wrappers

  /** `MAX_SIGMA_STREAMS` and `MAX_SIGMA_STATS`. */
  const MAX_SIGMA_STREAMS: nat := 16
  const MAX_SIGMA_STATS: nat := 6000

  /** `unsigned long long` payload byte counters wrap modulo 2^64. */
  const U64_MOD: int := 0x1_0000_0000_0000_0000

  /** `struct sigma_frame_stats`: a frame's sequence number and its local
      and remote timestamps, kept as opaque numbers. */
  datatype FrameStats = FrameStats(
    seqnum: nat,
    localSec: nat, localUsec: nat,
    remoteSec: nat, remoteUsec: nat)

  /** `enum sigma_stream_profile`. */
  datatype StreamProfile = FileTransfer | Multicast | Iptv | Transaction | StartSync | Uapsd

  datatype TrafficError = CapacityExceeded

  function Min(a: int, b: int): int
  {
    if a <= b then a else b
  }

  /** What the statistics array holds after one more received frame: the
      record is appended while there is room and dropped once the array is
      full, so what is already there is never overwritten. */
  function KeepRecord(kept: seq<FrameStats>, f: FrameStats): seq<FrameStats>
  {
    if |kept| < MAX_SIGMA_STATS then kept + [f] else kept
  }

  /** The records kept for a stream that received `frames`, in arrival
      order. */
  function KeptRecords(frames: seq<FrameStats>): seq<FrameStats>
  {
    if frames == [] then []
    else KeepRecord(KeptRecords(frames[..|frames| - 1]), frames[|frames| - 1])
  }

  /** The statistics array holds exactly the first `MAX_SIGMA_STATS`
      frames received (all of them when fewer arrived): never more than its
      capacity, and the oldest records are the ones preserved. */
  lemma {:induction false} KeptRecordsAreOldest(frames: seq<FrameStats>)
    ensures KeptRecords(frames) == frames[..Min(|frames|, MAX_SIGMA_STATS)]
    ensures |KeptRecords(frames)| <= MAX_SIGMA_STATS
  {
    if frames != [] {
      var init := frames[..|frames| - 1];
      KeptRecordsAreOldest(init);
      if |init| < MAX_SIGMA_STATS {
        assert init + [frames[|frames| - 1]] == frames;
      } else {
        assert init[..MAX_SIGMA_STATS] == frames[..MAX_SIGMA_STATS];
      }
    }
  }

  /** `struct sigma_stream`, reduced to what the header fixes about its
      statistics: the frame and byte counters, the records array of
      `MAX_SIGMA_STATS` entries with `num_stats` in use, and the stream's
      id. Addresses, ports, timing parameters, sockets, threads and the
      U-APSD fields are left out. */
  class SigmaStream {
    var profile: StreamProfile
    var sender: bool
    var txFrames: nat
    var rxFrames: nat
    var txPayloadBytes: nat
    var rxPayloadBytes: nat
    var outOfSeqFrames: nat
    const stats: array<FrameStats>
    var numStats: nat
    var streamId: nat
    /** Every frame received so far, in arrival order. */
    ghost var received: seq<FrameStats>

    /** The records array has its fixed size, at most that many records are
        in use, `rx_frames` counts the frames received, the records in use
        are what keeping each received frame while there is room leaves,
        each out-of-sequence frame is one of the received frames, and the
        byte counters are 64-bit values. */
    ghost predicate Valid()
      reads this, stats
    {
      && stats.Length == MAX_SIGMA_STATS
      && numStats <= MAX_SIGMA_STATS
      && numStats <= rxFrames
      && rxFrames == |received|
      && stats[..numStats] == KeptRecords(received)
      && outOfSeqFrames <= rxFrames
      && txPayloadBytes < U64_MOD
      && rxPayloadBytes < U64_MOD
    }

    /** The records kept so far: the first `MAX_SIGMA_STATS` frames
        received (all of them while fewer arrived), in arrival order. */
    ghost function Recorded(): (r: seq<FrameStats>)
      reads this, stats
      requires Valid()
      ensures |r| == numStats <= MAX_SIGMA_STATS
      ensures r == received[..Min(|received|, MAX_SIGMA_STATS)]
    {
      KeptRecordsAreOldest(received);
      stats[..numStats]
    }

    /** The stream has the given id, profile and role, and no traffic yet:
        nothing received or recorded, and every counter zero. */
    ghost predicate IsNew(id: nat, profile: StreamProfile, sender: bool)
      reads this, stats
    {
      && Valid()
      && streamId == id && this.profile == profile && this.sender == sender
      && received == [] && Recorded() == []
      && txFrames == 0 && rxFrames == 0 && outOfSeqFrames == 0
      && txPayloadBytes == 0 && rxPayloadBytes == 0
    }

    /** A stream with the given id and no traffic yet. */
    constructor (id: nat, profile: StreamProfile, sender: bool)
      ensures IsNew(id, profile, sender) && fresh(stats)
    {
      this.profile := profile;
      this.sender := sender;
      txFrames, rxFrames, outOfSeqFrames := 0, 0, 0;
      txPayloadBytes, rxPayloadBytes := 0, 0;
      stats := new FrameStats[MAX_SIGMA_STATS](_ => FrameStats(0, 0, 0, 0, 0));
      numStats := 0;
      streamId := id;
      received := [];
    }

    /** Accounts for one received frame. Whether it arrived out of sequence
        is decided by the receiving worker and passed in. The frame is
        always counted; its record is kept only while the array has room. */
    method RecordRx(f: FrameStats, payloadLen: nat, outOfSequence: bool)
      requires Valid()
      modifies this`rxFrames, this`rxPayloadBytes, this`outOfSeqFrames, this`numStats, this`received, stats
      ensures Valid()
      ensures received == old(received) + [f]
      ensures rxFrames == old(rxFrames) + 1
      ensures rxPayloadBytes == (old(rxPayloadBytes) + payloadLen) % U64_MOD
      ensures outOfSeqFrames == old(outOfSeqFrames) + (if outOfSequence then 1 else 0)
      ensures Recorded() == KeepRecord(old(Recorded()), f)
    {
      rxFrames := rxFrames + 1;
      rxPayloadBytes := (rxPayloadBytes + payloadLen) % U64_MOD;
      if outOfSequence {
        outOfSeqFrames := outOfSeqFrames + 1;
      }
      ghost var kept := stats[..numStats];
      if numStats < MAX_SIGMA_STATS {
        stats[numStats] := f;
        numStats := numStats + 1;
        assert stats[..numStats] == kept + [f];
      }
      assert (received + [f])[..|received|] == received;
      received := received + [f];
    }

    /** Accounts for one sent frame. */
    method RecordTx(payloadLen: nat)
      requires Valid()
      modifies this`txFrames, this`txPayloadBytes
      ensures Valid()
      ensures txFrames == old(txFrames) + 1
      ensures txPayloadBytes == (old(txPayloadBytes) + payloadLen) % U64_MOD
    {
      txFrames := txFrames + 1;
      txPayloadBytes := (txPayloadBytes + payloadLen) % U64_MOD;
    }
  }

  /** The traffic-agent part of `struct sigma_dut`: `MAX_SIGMA_STREAMS`
      slots of which the first `num_streams` are in use, and the id the next
      stream will get. Slots beyond `num_streams` hold no meaningful stream. */
  class TrafficAgent {
    const streams: array<SigmaStream>
    var numStreams: int
    var nextStreamId: nat

    /** The records arrays of the streams in the table. */
    ghost function StatsArrays(): set<object>
      reads this, streams
    {
      set i | 0 <= i < streams.Length :: streams[i].stats
    }

    /** The table has its fixed size, `numStreams` stays within it, every
        stream in use keeps its own invariant, and the streams in use have
        distinct ids, all below `nextStreamId`, and each owns its own
        records array. */
    ghost predicate Valid()
      reads this, streams, streams[..], StatsArrays()
    {
      && streams.Length == MAX_SIGMA_STREAMS
      && 0 <= numStreams <= MAX_SIGMA_STREAMS
      && (forall i :: 0 <= i < numStreams ==> streams[i].Valid())
      && (forall i :: 0 <= i < numStreams ==> streams[i].streamId < nextStreamId)
      && (forall i, j :: 0 <= i < j < numStreams ==> streams[i].streamId != streams[j].streamId)
      && (forall i, j :: 0 <= i < j < numStreams ==> streams[i].stats != streams[j].stats)
    }

    /** The ids of the streams in use, slot by slot. */
    ghost function Ids(): (ids: seq<nat>)
      reads this, streams, streams[..], StatsArrays()
      requires Valid()
      ensures |ids| == numStreams <= MAX_SIGMA_STREAMS
      ensures forall i :: 0 <= i < numStreams ==> ids[i] == streams[i].streamId
    {
      var n := numStreams;
      seq(n, i requires 0 <= i < n && i < streams.Length reads streams, streams[..] => streams[i].streamId)
    }

    /** An agent with no streams in use. */
    constructor ()
      ensures Valid() && fresh(streams)
      ensures Ids() == [] && nextStreamId == 0
    {
      var unused := new SigmaStream(0, FileTransfer, false);
      streams := new SigmaStream[MAX_SIGMA_STREAMS](_ => unused);
      numStreams := 0;
      nextStreamId := 0;
    }

    /** Takes the next free slot for a new stream, which gets the next
        stream id. With all `MAX_SIGMA_STREAMS` slots in use the table is
        left as it is and `CapacityExceeded` is returned. */
    method AddStream(profile: StreamProfile, sender: bool) returns (r: Result<nat, TrafficError>)
      requires Valid()
      modifies this, streams
      ensures Valid()
      ensures r.Failure? <==> old(numStreams) == MAX_SIGMA_STREAMS
      ensures r.Failure? ==> Ids() == old(Ids()) && nextStreamId == old(nextStreamId)
      ensures streams[..old(numStreams)] == old(streams[..numStreams])
      ensures r.Success? ==>
        && r.value == old(numStreams)
        && Ids() == old(Ids()) + [old(nextStreamId)]
        && old(nextStreamId) !in old(Ids())
        && nextStreamId == old(nextStreamId) + 1
        && fresh(streams[r.value]) && fresh(streams[r.value].stats)
        && streams[r.value].IsNew(old(nextStreamId), profile, sender)
    {
      if numStreams == MAX_SIGMA_STREAMS {
        return Failure(CapacityExceeded);
      }
      var s := new SigmaStream(nextStreamId, profile, sender);
      r := Success(numStreams);
      Install(s);
    }

    /** Puts a valid stream carrying the next id into the next free slot
        and advances `numStreams` and `nextStreamId`; the stream objects
        themselves are not touched. */
    method Install(s: SigmaStream)
      requires Valid() && numStreams < MAX_SIGMA_STREAMS
      requires s.Valid() && s.streamId == nextStreamId
      requires forall i :: 0 <= i < numStreams ==> streams[i].stats != s.stats
      modifies this`numStreams, this`nextStreamId, streams
      ensures Valid()
      ensures numStreams == old(numStreams) + 1 && nextStreamId == old(nextStreamId) + 1
      ensures streams[..old(numStreams)] == old(streams[..numStreams])
      ensures streams[old(numStreams)] == s
      ensures Ids() == old(Ids()) + [s.streamId]
      ensures old(nextStreamId) !in old(Ids())
    {
      ghost var before := Ids();
      var k := numStreams;
      ghost var slots := streams[..k];
      streams[k] := s;
      numStreams, nextStreamId := k + 1, nextStreamId + 1;
      assert streams[..k] == slots;
      assert Valid() by {
        assert forall i :: 0 <= i < k ==> streams[i] == slots[i];
        assert forall i :: 0 <= i < k ==> streams[i].streamId == before[i];
      }
      assert Ids() == before + [s.streamId] by {
        assert forall i :: 0 <= i < k ==> streams[i].streamId == before[i];
      }
    }

    /** A frame received on the stream in slot `k`: that stream alone
        records it, and since every stream in use owns its records array,
        the other streams and the table's invariant are unaffected. */
    method RecordRxOn(k: nat, f: FrameStats, payloadLen: nat, outOfSequence: bool)
      requires Valid() && k < numStreams
      modifies streams[k], streams[k].stats
      ensures Valid()
      ensures Ids() == old(Ids())
      ensures streams[k].received == old(streams[k].received) + [f]
      ensures streams[k].Recorded() == KeepRecord(old(streams[k].Recorded()), f)
      ensures streams[k].rxFrames == old(streams[k].rxFrames) + 1
      ensures streams[k].rxPayloadBytes == (old(streams[k].rxPayloadBytes) + payloadLen) % U64_MOD
      ensures streams[k].outOfSeqFrames == old(streams[k].outOfSeqFrames) + (if outOfSequence then 1 else 0)
      ensures streams[k].txFrames == old(streams[k].txFrames)
      ensures streams[k].txPayloadBytes == old(streams[k].txPayloadBytes)
      ensures streams[k].profile == old(streams[k].profile) && streams[k].sender == old(streams[k].sender)
    {
      var s := streams[k];
      ghost var before := Ids();
      s.RecordRx(f, payloadLen, outOfSequence);
      assert Valid() by {
        assert forall i :: 0 <= i < numStreams && i != k ==> streams[i].stats != s.stats;
      }
      assert Ids() == before;
    }

    /** Releases every slot. Stream ids keep increasing afterwards, so an id
        is never handed out twice. */
    method ResetStreams()
      requires Valid()
      modifies this
      ensures Valid()
      ensures Ids() == [] && nextStreamId == old(nextStreamId)
    {
      numStreams := 0;
    }

    /** The slot of the stream in use with the given id, if there is one.
        Ids are distinct, so the slot found is the only one with that id. */
    method FindStream(id: nat) returns (r: Option<nat>)
      requires Valid()
      ensures r.Some? ==> r.value < numStreams && streams[r.value].streamId == id
      ensures r.Some? ==> forall j :: 0 <= j < numStreams && streams[j].streamId == id ==> j == r.value
      ensures r.None? <==> id !in Ids()
    {
      var i := 0;
      while i < numStreams
        invariant 0 <= i <= numStreams
        invariant forall j :: 0 <= j < i ==> streams[j].streamId != id
      {
        if streams[i].streamId == id {
          return Some(i);
        }
        i := i + 1;
      }
      return None;
    }
  }
}
