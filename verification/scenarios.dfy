/** Concrete runs of the receiver: the worked examples of the protocol's
    behaviour, each checked against the model. */
module Scenarios {
  import opened Bytes
  import opened Header
  import opened Receiver
  import WebColors

  /** Two adjacent writes into a configured 6-byte buffer fill it in order. */
  lemma SequentialWrites()
    ensures var s := ConfigureOutput(Init(100, None), 5, 6, false);
      var s1 := WriteToBuffer(s, 5, 0, [1, 2, 3]);
      var s2 := WriteToBuffer(s1, 5, 3, [4, 5, 6]);
      5 in s2.buffers && s2.buffers[5] == [1, 2, 3, 4, 5, 6]
  {
    var s := ConfigureOutput(Init(100, None), 5, 6, false);
    assert Current(s, 5) == Zeros(6);
    var s1 := WriteToBuffer(s, 5, 0, [1, 2, 3]);
    assert s1.buffers[5] == [1, 2, 3, 0, 0, 0] by {
      assert |s1.buffers[5]| == 6;
      assert forall i :: 0 <= i < 6 ==> s1.buffers[5][i] == [1, 2, 3, 0, 0, 0][i];
    }
    var s2 := WriteToBuffer(s1, 5, 3, [4, 5, 6]);
    assert |s2.buffers[5]| == 6;
    assert forall i :: 0 <= i < 6 ==> s2.buffers[5][i] == [1, 2, 3, 4, 5, 6][i];
  }

  /** With capacity 10, a first write to id 7 that would need 11 bytes
      creates no buffer and changes nothing. */
  lemma OversizedFirstWrite()
    ensures var s := Init(10, None);
      var s' := WriteToBuffer(s, 7, 8, [1, 2, 3]);
      s' == s && 7 !in s'.buffers
  {
  }

  /** A status query is answered with one datagram to the sender: the reply
      header for id 251 announcing the 7 status bytes, then those bytes. */
  lemma StatusQuery(addr: Addr)
    ensures var blob: seq<byte> := [1, 2, 3, 4, 5, 6, 7];
      var s := Init(100, Some(blob));
      var query := BuildHeader(0x42, IdStatus, 0, 0);
      ProcessPacket(s, query, addr)
      == Step(s, [Replied(BuildHeader(ReplyFlags, IdStatus, 0, 7) + blob, addr)])
  {
    var blob: seq<byte> := [1, 2, 3, 4, 5, 6, 7];
    var s := Init(100, Some(blob));
    var query := BuildHeader(0x42, IdStatus, 0, 0);
    ParseBuildValid(0x42, IdStatus, 0, 0);
    assert HasFlag(0x42, Query) && !HasFlag(0x42, Reply);
    assert KindOf(query) == QueryPacket;
    Dispatch(s, query, addr);
  }

  /** A pushed broadcast over two 3-byte buffers, ids 1 and 2, both with
      callbacks: each buffer receives the payload and each callback fires
      once with its own buffer, in configuration order. */
  lemma BroadcastPushTwo(s: State, addr: Addr)
    requires Valid(s) && s.order == [1, 2] && s.callbacks == {1, 2}
    requires |s.buffers[1]| == 3 && |s.buffers[2]| == 3
    ensures var packet := BuildHeader(0x41, IdAll, 0, 3) + [9, 8, 7];
      ProcessPacket(s, packet, addr).events == [Fired(1, [9, 8, 7], None), Fired(2, [9, 8, 7], None)]
  {
    var data: seq<byte> := [9, 8, 7];
    var packet := BuildHeader(0x41, IdAll, 0, 3) + data;
    var h := ParseHeader(packet).value;
    assert KindOf(packet) == DataPacket && packet[3] == IdAll
      && h.offset == 0 && h.timecode == None && HasFlag(h.flags1, Push) && Payload(packet, h) == data
    by {
      assert Version(0x41) == 1 && HasFlag(0x41, Push);
      assert !HasFlag(0x41, Time) && !HasFlag(0x41, Reply) && !HasFlag(0x41, Query) && !HasFlag(0x41, Storage);
      ParseFramed(0x41, IdAll, 0, data);
      AfterPrefix(BuildHeader(0x41, IdAll, 0, 3), data);
    }
    Dispatch(s, packet, addr);
    var r := ProcessPacket(s, packet, addr);
    var bufs := r.state.buffers;
    assert bufs[1] == data by { FullOverwrite(s, 1, data); }
    assert bufs[2] == data by { FullOverwrite(s, 2, data); }
    assert r.events == PushTrace([1, 2], {1, 2}, bufs, None);
    PushTraceTwo(bufs, data);
  }

  /** The callbacks fired for ids 1 and 2, both registered. */
  lemma PushTraceTwo(bufs: map<int, seq<byte>>, data: seq<byte>)
    requires {1, 2} <= bufs.Keys && bufs[1] == data && bufs[2] == data
    ensures PushTrace([1, 2], {1, 2}, bufs, None) == [Fired(1, data, None), Fired(2, data, None)]
  {
    var ids: seq<int> := [1, 2];
    assert ids[1..] == [2];
    var last: seq<int> := [2];
    assert last[1..] == [];
    assert PushTrace(last, {1, 2}, bufs, None) == [Fired(2, data, None)] + PushTrace([], {1, 2}, bufs, None);
    assert PushTrace(ids, {1, 2}, bufs, None) == [Fired(1, data, None)] + PushTrace(last, {1, 2}, bufs, None);
  }

  /** A write at offset 0 as long as the buffer replaces its contents. */
  lemma FullOverwrite(s: State, id: int, data: seq<byte>)
    requires Valid(s) && id in s.buffers && |s.buffers[id]| == |data|
    ensures WriteToBuffer(s, id, 0, data).buffers[id] == data
  {
    var w := WriteToBuffer(s, id, 0, data).buffers[id];
    assert |w| == |data|;
    assert forall i :: 0 <= i < |data| ==> w[i] == data[i];
  }

  /** The same with the two ids configured from scratch. */
  lemma BroadcastPush(addr: Addr)
    ensures var s := ConfigureOutput(ConfigureOutput(Init(100, None), 1, 3, true), 2, 3, true);
      var packet := BuildHeader(0x41, IdAll, 0, 3) + [9, 8, 7];
      ProcessPacket(s, packet, addr).events == [Fired(1, [9, 8, 7], None), Fired(2, [9, 8, 7], None)]
  {
    var s := ConfigureOutput(ConfigureOutput(Init(100, None), 1, 3, true), 2, 3, true);
    assert s.order == [1, 2] && s.callbacks == {1, 2};
    BroadcastPushTwo(s, addr);
  }

  /** The web view's display id is configured with exactly one pixel strip
      of bytes, and packet processing never shrinks a buffer, so after a
      `poll` the display buffer is still a full strip, and so is every
      buffer the display callback received during it: each renders without
      the short buffer error.  Repeated polls compose, since the outcome
      satisfies the requirement again. */
  lemma DisplayAlwaysRenders(s: State, queued: seq<Datagram>)
    requires Valid(s) && IdDisplay in s.buffers
    requires |s.buffers[IdDisplay]| >= 3 * WebColors.PixelCount
    ensures var t := Poll(s, queued).state;
      && IdDisplay in t.buffers && |t.buffers[IdDisplay]| >= 3 * WebColors.PixelCount
      && WebColors.ColorsFromBuffer(t.buffers[IdDisplay]).Some?
    ensures forall e :: e in Poll(s, queued).events && e.Fired? && e.id == IdDisplay ==>
      WebColors.ColorsFromBuffer(e.buffer).Some?
  {
    PollGrows(s, queued);
    PollFired(s, queued);
  }
}
