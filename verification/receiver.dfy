/** The `DDPReceiver` of `ddp_receiver.py` as a pure state machine.

    The receiver owns one byte buffer per device id (kept in the insertion
    order of Python's `dict`), a set of ids with a registered callback, an
    optional status blob and the capacity `max_buffer_size`.  Processing a
    datagram is a step `(State, datagram) -> (State, events)`: a sent reply
    and a fired callback are events, so callbacks cannot re-enter the
    receiver here.  `poll` is a fold of that step over the datagrams the
    socket has queued. */
module Receiver {
  import opened Bytes
  import opened Header

  /** Size of the receive buffer `recvfrom_into` fills: a longer datagram
      is truncated to it. */
  const RxBufferSize: nat := 2048

  /** The constructor's default capacity, so `DDPReceiver(sock)` is
      `Init(DefaultMaxBufferSize, None)`: no status blob by default. */
  const DefaultMaxBufferSize: nat := 4096

  /** flags1 of every reply: version 1, REPLY and PUSH. */
  const ReplyFlags: byte := 0x45

  /** A sender address; the receiver only echoes it back. */
  datatype Addr = Addr(host: string, port: int)

  datatype Event =
    | Replied(bytes: seq<byte>, to: Addr)
    | Fired(id: int, buffer: seq<byte>, timecode: Option<nat>)

  datatype State = State(
    buffers: map<int, seq<byte>>,
    order: seq<int>,
    callbacks: set<int>,
    status: Option<seq<byte>>,
    maxBufferSize: int)

  /** The outcome of processing one datagram. */
  datatype Step = Step(state: State, events: seq<Event>)

  predicate Distinct(ids: seq<int>)
  {
    forall i, j :: 0 <= i < j < |ids| ==> ids[i] != ids[j]
  }

  /** `order` lists the buffer keys once each, in insertion order, and only
      ids that own a buffer can own a callback (`configure_output` is the
      only way to register one and it always allocates the buffer). */
  predicate Valid(s: State)
  {
    && Distinct(s.order)
    && (forall id :: id in s.buffers ==> id in s.order)
    && (forall i :: 0 <= i < |s.order| ==> s.order[i] in s.buffers)
    && s.callbacks <= s.buffers.Keys
  }

  /** The constructor: no buffers and no callbacks yet, the given status
      blob and capacity. */
  function Init(maxBufferSize: int, status: Option<seq<byte>>): (s: State)
    ensures Valid(s)
    ensures s.buffers == map[] && s.order == [] && s.callbacks == {}
    ensures s.status == status && s.maxBufferSize == maxBufferSize
  {
    State(map[], [], {}, status, maxBufferSize)
  }

  /** What packet processing may do to a state: no key disappears, no buffer
      shrinks, new keys only join the end of the key order, every buffer that
      is new or longer respects the capacity, and the callbacks, status and
      capacity stay as they were. */
  predicate Grows(s: State, s': State)
  {
    && s'.callbacks == s.callbacks
    && s'.status == s.status
    && s'.maxBufferSize == s.maxBufferSize
    && |s.order| <= |s'.order| && s'.order[..|s.order|] == s.order
    && (forall k :: k in s.buffers ==> k in s'.buffers && |s.buffers[k]| <= |s'.buffers[k]|)
    && (forall k :: k in s'.buffers && (k !in s.buffers || |s.buffers[k]| < |s'.buffers[k]|) ==>
          |s'.buffers[k]| <= s'.maxBufferSize)
  }

  lemma GrowsTransitive(s: State, s': State, s'': State)
    requires Grows(s, s') && Grows(s', s'')
    ensures Grows(s, s'')
  {
    assert s''.order[..|s.order|] == s''.order[..|s'.order|][..|s.order|];
  }

  /** `configure_output`: a zero-filled buffer of exactly `size` bytes
      replaces any previous one (it may be shorter: the capacity is not
      checked here); a new id joins the end of the key order, an existing
      one keeps its place.  With `callback` false (Python's `None`) an
      earlier registration survives. */
  function ConfigureOutput(s: State, id: int, size: nat, callback: bool): (s': State)
    requires Valid(s)
    ensures Valid(s')
    ensures id in s'.buffers && s'.buffers[id] == Zeros(size)
    ensures forall k :: k != id ==> (k in s'.buffers <==> k in s.buffers)
    ensures forall k :: k != id && k in s.buffers ==> s'.buffers[k] == s.buffers[k]
    ensures s'.order == if id in s.buffers then s.order else s.order + [id]
    ensures id in s'.callbacks <==> callback || id in s.callbacks
    ensures forall k :: k != id ==> (k in s'.callbacks <==> k in s.callbacks)
    ensures s'.status == s.status && s'.maxBufferSize == s.maxBufferSize
  {
    var order := if id in s.buffers then s.order else s.order + [id];
    var callbacks := if callback then s.callbacks + {id} else s.callbacks;
    s.(buffers := s.buffers[id := Zeros(size)], order := order, callbacks := callbacks)
  }

  /** `set_status`: the blob replies to status queries from now on. */
  function SetStatus(s: State, status: seq<byte>): (s': State)
    requires Valid(s)
    ensures Valid(s')
    ensures s'.status == Some(status)
    ensures s'.buffers == s.buffers && s'.order == s.order && s'.callbacks == s.callbacks
    ensures s'.maxBufferSize == s.maxBufferSize
  {
    s.(status := Some(status))
  }

  /** The buffer a write to `id` starts from: the existing one, or none. */
  function Current(s: State, id: int): seq<byte>
  {
    if id in s.buffers then s.buffers[id] else []
  }

  /** Whether `_write_to_buffer` accepts a write ending at `end`: without a
      buffer the new one must fit the capacity; with one, the write must
      either stay inside it or the grown buffer must fit the capacity. */
  predicate Fits(s: State, id: int, end: nat)
  {
    if id in s.buffers then end <= |s.buffers[id]| || end <= s.maxBufferSize
    else end <= s.maxBufferSize
  }

  /** `after` is `before` with `data` written at `offset`: it is long enough
      for both, holds `data` at `[offset, offset + |data|)`, keeps every other
      byte of `before` and is zero wherever it extends `before`. */
  predicate WrittenAt(before: seq<byte>, offset: nat, data: seq<byte>, after: seq<byte>)
  {
    && |after| == Max(|before|, offset + |data|)
    && (forall i :: offset <= i < offset + |data| ==> after[i] == data[i - offset])
    && (forall i :: 0 <= i < |after| && !(offset <= i < offset + |data|) ==>
          after[i] == if i < |before| then before[i] else 0)
  }

  /** There is only one way to write `data` at `offset` into `before`. */
  lemma WrittenAtUnique(before: seq<byte>, offset: nat, data: seq<byte>, a: seq<byte>, b: seq<byte>)
    requires WrittenAt(before, offset, data, a) && WrittenAt(before, offset, data, b)
    ensures a == b
  {
    assert forall i :: 0 <= i < |a| ==> a[i] == b[i];
  }

  /** `buf[offset:offset + len(data)] = data` on a buffer already long enough. */
  function Splice(buf: seq<byte>, offset: nat, data: seq<byte>): (r: seq<byte>)
    requires offset + |data| <= |buf|
    ensures WrittenAt(buf, offset, data, r)
  {
    buf[..offset] + data + buf[offset + |data|..]
  }

  /** `_write_to_buffer`.  A write that does not fit is dropped whole and
      changes nothing; otherwise the target buffer (created on first write,
      exactly as long as the write needs) receives `data` at `offset`, its
      length becomes the larger of the old length and the write's end, and
      no other id's buffer changes. */
  function WriteToBuffer(s: State, id: int, offset: nat, data: seq<byte>): (s': State)
    requires Valid(s)
    ensures Valid(s') && Grows(s, s')
    ensures !Fits(s, id, offset + |data|) ==> s' == s
    ensures Fits(s, id, offset + |data|) ==>
      && id in s'.buffers
      && WrittenAt(Current(s, id), offset, data, s'.buffers[id])
      && s'.order == if id in s.buffers then s.order else s.order + [id]
    ensures forall k :: k != id ==> (k in s'.buffers <==> k in s.buffers)
    ensures forall k :: k != id && k in s.buffers ==> s'.buffers[k] == s.buffers[k]
  {
    var end := offset + |data|;
    if id !in s.buffers && end > s.maxBufferSize then s
    else
      var buf := if id in s.buffers then s.buffers[id] else Zeros(end);
      var order := if id in s.buffers then s.order else s.order + [id];
      if end > |buf| && end > s.maxBufferSize then s
      else
        var grown := if end > |buf| then buf + Zeros(end - |buf|) else buf;
        var s' := s.(buffers := s.buffers[id := Splice(grown, offset, data)], order := order);
        assert s'.order[..|s.order|] == s.order;
        s'
  }

  /** `_handle_push`: the callback of `id`, if one is registered, receives
      the whole current buffer of `id` and the header's timecode. */
  function HandlePush(s: State, id: int, timecode: Option<nat>): (events: seq<Event>)
    requires Valid(s)
    ensures id in s.callbacks ==> id in s.buffers && events == [Fired(id, s.buffers[id], timecode)]
    ensures id !in s.callbacks ==> events == []
  {
    if id in s.callbacks then [Fired(id, s.buffers[id], timecode)] else []
  }

  /** `_send_empty_reply`: a bare header that a DDP peer reads as a reply
      (version 1, REPLY and PUSH) from `id` with offset 0 and no payload,
      addressed to the querying sender. */
  function SendEmptyReply(id: byte, addr: Addr): (e: Event)
    ensures e.Replied? && e.to == addr && |e.bytes| == HeaderLen
    ensures e.bytes[1] == 0 && e.bytes[2] == 0
    ensures ParseHeader(e.bytes) == Some(Fields(ReplyFlags, id, 0, 0, HeaderLen, None))
  {
    ReplyFlagBits();
    ParseBuildValid(ReplyFlags, id, 0, 0);
    Replied(BuildHeader(ReplyFlags, id, 0, 0), addr)
  }

  /** The payload a query for `id` is answered with: the status blob for the
      status id when one is set, nothing otherwise. */
  function QueryAnswer(s: State, id: byte): seq<byte>
  {
    if id == IdStatus && s.status.Some? then s.status.value else []
  }

  /** `_handle_query`: one reply to the sender, which a DDP peer decodes as a
      reply from `id` at offset 0 whose length field is the answer's length
      (masked to 16 bits) and whose payload is the answer. */
  function HandleQuery(s: State, id: byte, addr: Addr): (e: Event)
    ensures e.Replied? && e.to == addr
    ensures |e.bytes| == HeaderLen + |QueryAnswer(s, id)|
    ensures e.bytes[..HeaderLen] == BuildHeader(ReplyFlags, id, 0, |QueryAnswer(s, id)|)
    ensures forall i :: HeaderLen <= i < |e.bytes| ==> e.bytes[i] == QueryAnswer(s, id)[i - HeaderLen]
    ensures ParseHeader(e.bytes)
            == Some(Fields(ReplyFlags, id, 0, |QueryAnswer(s, id)| % 0x1_0000, HeaderLen, None))
  {
    if id != IdStatus then
      var e := SendEmptyReply(id, addr);
      assert QueryAnswer(s, id) == [] && |e.bytes| == HeaderLen;
      assert e.bytes[..HeaderLen] == e.bytes;
      e
    else if s.status.None? then
      var e := SendEmptyReply(id, addr);
      assert QueryAnswer(s, id) == [] && |e.bytes| == HeaderLen;
      assert e.bytes[..HeaderLen] == e.bytes;
      e
    else
      var status := s.status.value;
      var header := BuildHeader(ReplyFlags, id, 0, |status|);
      ReplyFlagBits();
      ParseFramed(ReplyFlags, id, 0, status);
      AfterPrefix(header, status);
      assert QueryAnswer(s, id) == status && |header| == HeaderLen;
      assert forall i :: HeaderLen <= i < |header + status| ==> (header + status)[i] == status[i - HeaderLen];
      assert (header + status)[..HeaderLen] == header;
      Replied(header + status, addr)
  }

  /** `packet[header_len : header_len + length]`: Python's slice is clamped
      to the datagram, so a short datagram yields fewer than `length` bytes. */
  function Payload(packet: seq<byte>, h: Fields): (data: seq<byte>)
    requires h.headerLen <= |packet|
    ensures |data| == Min(h.length, |packet| - h.headerLen)
    ensures forall i :: 0 <= i < |data| ==> data[i] == packet[h.headerLen + i]
  {
    packet[h.headerLen .. Min(h.headerLen + h.length, |packet|)]
  }

  /** The fired callbacks of a broadcast: one per id of `ids` that has a
      callback, in the order of `ids`, each with that id's buffer in `bufs`. */
  function PushTrace(ids: seq<int>, callbacks: set<int>, bufs: map<int, seq<byte>>, timecode: Option<nat>): seq<Event>
    requires callbacks <= bufs.Keys
  {
    if ids == [] then []
    else
      var head := if ids[0] in callbacks then [Fired(ids[0], bufs[ids[0]], timecode)] else [];
      head + PushTrace(ids[1..], callbacks, bufs, timecode)
  }

  /** The loop over the snapshot of buffer keys for device id 255: write to
      each target in turn and, with PUSH, fire its callback right after its
      own write. */
  function Broadcast(s: State, targets: seq<int>, offset: nat, data: seq<byte>, push: bool, timecode: Option<nat>): (r: Step)
    requires Valid(s)
    requires forall t :: t in targets ==> t in s.buffers
    ensures Valid(r.state) && Grows(s, r.state)
    ensures r.state.order == s.order
    ensures forall k :: k in r.state.buffers <==> k in s.buffers
    ensures forall e :: e in r.events ==> e.Fired?
    decreases |targets|
  {
    if targets == [] then Step(s, [])
    else
      var s1 := WriteToBuffer(s, targets[0], offset, data);
      var fired := if push then HandlePush(s1, targets[0], timecode) else [];
      var rest := Broadcast(s1, targets[1..], offset, data, push, timecode);
      GrowsTransitive(s, s1, rest.state);
      Step(rest.state, fired + rest.events)
  }

  /** A write to one id leaves what a later write to another id produces
      there unchanged: both start from the same buffer and capacity. */
  lemma WriteOther(s: State, t: int, u: int, offset: nat, data: seq<byte>)
    requires Valid(s) && t != u && u in s.buffers
    ensures WriteToBuffer(WriteToBuffer(s, t, offset, data), u, offset, data).buffers[u]
            == WriteToBuffer(s, u, offset, data).buffers[u]
  {
    var s1 := WriteToBuffer(s, t, offset, data);
    var alone := WriteToBuffer(s, u, offset, data);
    var after := WriteToBuffer(s1, u, offset, data);
    assert Current(s1, u) == Current(s, u);
    if Fits(s, u, offset + |data|) {
      WrittenAtUnique(Current(s, u), offset, data, alone.buffers[u], after.buffers[u]);
    }
  }

  /** Ids outside the targets keep their buffers through a broadcast. */
  lemma {:induction false} BroadcastKeeps(s: State, targets: seq<int>, offset: nat, data: seq<byte>, push: bool, timecode: Option<nat>)
    requires Valid(s)
    requires forall t :: t in targets ==> t in s.buffers
    ensures var r := Broadcast(s, targets, offset, data, push, timecode);
      forall k :: k in s.buffers && k !in targets ==> r.state.buffers[k] == s.buffers[k]
    decreases |targets|
  {
    if targets != [] {
      var s1 := WriteToBuffer(s, targets[0], offset, data);
      BroadcastKeeps(s1, targets[1..], offset, data, push, timecode);
      assert forall k :: k !in targets ==> k != targets[0] && k !in targets[1..];
    }
  }

  /** Each target of a broadcast over distinct ids ends up exactly as if it
      had received the write alone. */
  lemma {:induction false} BroadcastWrites(s: State, targets: seq<int>, offset: nat, data: seq<byte>, push: bool, timecode: Option<nat>)
    requires Valid(s) && Distinct(targets)
    requires forall t :: t in targets ==> t in s.buffers
    ensures var r := Broadcast(s, targets, offset, data, push, timecode);
      forall t :: t in targets ==> r.state.buffers[t] == WriteToBuffer(s, t, offset, data).buffers[t]
    decreases |targets|
  {
    if targets != [] {
      var t := targets[0];
      var s1 := WriteToBuffer(s, t, offset, data);
      var r := Broadcast(s, targets, offset, data, push, timecode);
      var rest := Broadcast(s1, targets[1..], offset, data, push, timecode);
      assert Distinct(targets[1..]);
      assert t !in targets[1..];
      BroadcastWrites(s1, targets[1..], offset, data, push, timecode);
      BroadcastKeeps(s1, targets[1..], offset, data, push, timecode);
      assert r.state == rest.state;
      forall u | u in targets
        ensures r.state.buffers[u] == WriteToBuffer(s, u, offset, data).buffers[u]
      {
        if u != t {
          assert u in targets[1..];
          WriteOther(s, t, u, offset, data);
        }
      }
    }
  }

  /** With PUSH a broadcast over distinct ids fires each target's callback
      once, in target order, with that target's final buffer; without PUSH
      it fires nothing. */
  lemma {:induction false} BroadcastFires(s: State, targets: seq<int>, offset: nat, data: seq<byte>, push: bool, timecode: Option<nat>)
    requires Valid(s) && Distinct(targets)
    requires forall t :: t in targets ==> t in s.buffers
    ensures var r := Broadcast(s, targets, offset, data, push, timecode);
      r.events == if push then PushTrace(targets, s.callbacks, r.state.buffers, timecode) else []
    decreases |targets|
  {
    if targets != [] {
      var t := targets[0];
      var s1 := WriteToBuffer(s, t, offset, data);
      var rest := Broadcast(s1, targets[1..], offset, data, push, timecode);
      assert Distinct(targets[1..]);
      assert t !in targets[1..];
      BroadcastFires(s1, targets[1..], offset, data, push, timecode);
      BroadcastKeeps(s1, targets[1..], offset, data, push, timecode);
      assert rest.state.buffers[t] == s1.buffers[t];
    }
  }

  /** How `_process_packet` treats a datagram: flags are checked in the
      precedence invalid header, REPLY, QUERY, STORAGE; anything else is data. */
  datatype Kind = Invalid | EchoedReply | QueryPacket | StoragePacket | DataPacket

  function KindOf(packet: seq<byte>): Kind
  {
    if Malformed(packet) then Invalid
    else if HasFlag(packet[0], Reply) then EchoedReply
    else if HasFlag(packet[0], Query) then QueryPacket
    else if HasFlag(packet[0], Storage) then StoragePacket
    else DataPacket
  }

  /** `_process_packet`: the header is parsed and the flags are checked in
      the order REPLY, QUERY, STORAGE; a data datagram for id 255 is written
      to every id that has a buffer, in key order, otherwise to its own id;
      with PUSH each written id's callback fires. */
  function ProcessPacket(s: State, packet: seq<byte>, addr: Addr): (r: Step)
    requires Valid(s)
    ensures Valid(r.state) && Grows(s, r.state)
  {
    match ParseHeader(packet)
    case None => Step(s, [])
    case Some(h) =>
      if HasFlag(h.flags1, Reply) then Step(s, [])
      else if HasFlag(h.flags1, Query) then Step(s, [HandleQuery(s, h.deviceId, addr)])
      else if HasFlag(h.flags1, Storage) then Step(s, [])
      else
        var data := Payload(packet, h);
        if h.deviceId == IdAll then Broadcast(s, s.order, h.offset, data, HasFlag(h.flags1, Push), h.timecode)
        else
          var s' := WriteToBuffer(s, h.deviceId, h.offset, data);
          var fired := if HasFlag(h.flags1, Push) then HandlePush(s', h.deviceId, h.timecode) else [];
          Step(s', fired)
  }

  /** What `_process_packet` does with each kind of datagram.  Invalid,
      echoed-reply and storage datagrams change nothing and emit nothing; a
      query changes nothing and emits exactly one reply, to the sender; a
      data datagram emits no reply.  A data datagram for one id is that id's
      write followed, with PUSH, by its callback (if registered) on the
      buffer as written; one for id 255 gives each id that had a buffer the
      write it would have received alone, adds no id, and with PUSH fires
      the callbacks in key order. */
  lemma Dispatch(s: State, packet: seq<byte>, addr: Addr)
    requires Valid(s)
    ensures var r := ProcessPacket(s, packet, addr);
      && (KindOf(packet) in {Invalid, EchoedReply, StoragePacket} ==> r == Step(s, []))
      && (KindOf(packet) == QueryPacket ==>
            r.state == s && r.events == [HandleQuery(s, packet[3], addr)])
      && (KindOf(packet) == DataPacket ==> forall e :: e in r.events ==> e.Fired?)
    ensures KindOf(packet) == DataPacket && packet[3] != IdAll ==>
      var r := ProcessPacket(s, packet, addr);
      var h := ParseHeader(packet).value;
      && r.state == WriteToBuffer(s, h.deviceId, h.offset, Payload(packet, h))
      && r.events == if HasFlag(h.flags1, Push) && h.deviceId in s.callbacks
                     then [Fired(h.deviceId, r.state.buffers[h.deviceId], h.timecode)] else []
    ensures KindOf(packet) == DataPacket && packet[3] == IdAll ==>
      var r := ProcessPacket(s, packet, addr);
      var h := ParseHeader(packet).value;
      && r.state.order == s.order
      && (forall k :: k in r.state.buffers <==> k in s.buffers)
      && (forall k :: k in s.buffers ==>
            r.state.buffers[k] == WriteToBuffer(s, k, h.offset, Payload(packet, h)).buffers[k])
      && r.events == if HasFlag(h.flags1, Push) then PushTrace(s.order, s.callbacks, r.state.buffers, h.timecode) else []
  {
    if KindOf(packet) == DataPacket && packet[3] == IdAll {
      var h := ParseHeader(packet).value;
      var data, push := Payload(packet, h), HasFlag(h.flags1, Push);
      BroadcastWrites(s, s.order, h.offset, data, push, h.timecode);
      BroadcastFires(s, s.order, h.offset, data, push, h.timecode);
    }
  }

  /** A datagram as the socket hands it over: payload and sender. */
  datatype Datagram = Datagram(payload: seq<byte>, sender: Addr)

  /** What `recvfrom_into` leaves in the 2048-byte receive buffer. */
  function Received(d: Datagram): (packet: seq<byte>)
    ensures |packet| == Min(|d.payload|, RxBufferSize)
    ensures packet == d.payload[..|packet|]
  {
    d.payload[..Min(|d.payload|, RxBufferSize)]
  }

  /** One iteration of the `poll` loop: the received bytes are processed
      as a packet from the sender. */
  function Deliver(s: State, d: Datagram): (r: Step)
    requires Valid(s)
    ensures Valid(r.state)
  {
    ProcessPacket(s, Received(d), d.sender)
  }

  /** The outcome of one `poll`: the state, the events in order, the count
      `poll` returns, and how many datagrams it took from the queue (one
      more than it processed when a zero-length datagram ended the drain). */
  datatype PollResult = PollResult(state: State, events: seq<Event>, processed: nat, consumed: nat)

  /** `poll`: process the queued datagrams in arrival order until the queue
      is exhausted (the socket's EAGAIN) or a zero-length datagram arrives,
      and report how many were processed.  `PollStops` and `PollGrows`
      state what it does. */
  function Poll(s: State, queued: seq<Datagram>): (r: PollResult)
    requires Valid(s)
    ensures Valid(r.state)
    ensures r.processed <= r.consumed <= |queued|
    decreases |queued|
  {
    if queued == [] then PollResult(s, [], 0, 0)
    else if |queued[0].payload| == 0 then PollResult(s, [], 0, 1)
    else
      var step := Deliver(s, queued[0]);
      var rest := Poll(step.state, queued[1..]);
      PollResult(rest.state, step.events + rest.events, rest.processed + 1, rest.consumed + 1)
  }

  /** `poll` processes exactly the datagrams before the first zero-length
      one: every processed datagram was non-empty, the one after the last
      processed (if any) was empty, and that empty one is taken from the
      queue too, so the next `poll` starts right after it. */
  lemma {:induction false} PollStops(s: State, queued: seq<Datagram>)
    requires Valid(s)
    ensures var n := Poll(s, queued).processed;
      && (forall i :: 0 <= i < n ==> |queued[i].payload| > 0)
      && (n < |queued| ==> |queued[n].payload| == 0)
      && Poll(s, queued).consumed == if n < |queued| then n + 1 else n
    decreases |queued|
  {
    if queued != [] && |queued[0].payload| != 0 {
      var step := Deliver(s, queued[0]);
      PollStops(step.state, queued[1..]);
      var n := Poll(s, queued).processed;
      assert forall i :: 1 <= i < n ==> queued[i] == queued[1..][i - 1];
    }
  }

  /** A whole `poll` is packet processing too: keys and buffer lengths only
      grow, within the capacity, and the callbacks and status stay put. */
  lemma {:induction false} PollGrows(s: State, queued: seq<Datagram>)
    requires Valid(s)
    ensures Grows(s, Poll(s, queued).state)
    decreases |queued|
  {
    if queued != [] && |queued[0].payload| != 0 {
      var step := Deliver(s, queued[0]);
      PollGrows(step.state, queued[1..]);
      GrowsTransitive(s, step.state, Poll(step.state, queued[1..]).state);
    }
  }

  /** Draining a queue in two `poll` calls, split anywhere before the first
      zero-length datagram, gives the same state, the same events in the
      same order and the same counts as draining it in one. */
  lemma {:induction false} PollSplit(s: State, first: seq<Datagram>, second: seq<Datagram>)
    requires Valid(s)
    requires forall i :: 0 <= i < |first| ==> |first[i].payload| > 0
    ensures var a := Poll(s, first);
      var b := Poll(a.state, second);
      var ab := Poll(s, first + second);
      ab == PollResult(b.state, a.events + b.events, a.processed + b.processed, a.consumed + b.consumed)
    decreases |first|
  {
    if first == [] {
      assert first + second == second;
    } else {
      var q := first + second;
      assert q[0] == first[0];
      assert q[1..] == first[1..] + second;
      var step := Deliver(s, first[0]);
      PollSplit(step.state, first[1..], second);
      var a' := Poll(step.state, first[1..]);
      var b := Poll(a'.state, second);
      assert step.events + (a'.events + b.events) == (step.events + a'.events) + b.events;
    }
  }

  /** `poll` reads nothing past what it took from the queue: polling just
      the consumed datagrams gives the same outcome, so the next `poll`
      continues on `queued[consumed..]` with nothing lost or repeated. */
  lemma {:induction false} PollPrefix(s: State, queued: seq<Datagram>)
    requires Valid(s)
    ensures var r := Poll(s, queued); Poll(s, queued[..r.consumed]) == r
    decreases |queued|
  {
    if queued != [] {
      var r := Poll(s, queued);
      var q := queued[..r.consumed];
      assert q[0] == queued[0];
      if |queued[0].payload| != 0 {
        var step := Deliver(s, queued[0]);
        PollPrefix(step.state, queued[1..]);
        assert q[1..] == queued[1..][..Poll(step.state, queued[1..]).consumed];
      }
    }
  }

  /** Every callback a broadcast fires belongs to a registered id and
      carries that id's buffer in `bufs`. */
  lemma {:induction false} PushTraceFired(ids: seq<int>, callbacks: set<int>, bufs: map<int, seq<byte>>, timecode: Option<nat>)
    requires callbacks <= bufs.Keys
    ensures forall e :: e in PushTrace(ids, callbacks, bufs, timecode) ==>
      e.Fired? && e.id in ids && e.id in callbacks && e.buffer == bufs[e.id] && e.timecode == timecode
    decreases |ids|
  {
    if ids != [] {
      PushTraceFired(ids[1..], callbacks, bufs, timecode);
      assert forall k :: k in ids[1..] ==> k in ids;
    }
  }

  /** A callback fired while processing a datagram belongs to a registered
      id and receives that id's buffer as the datagram left it. */
  lemma StepFired(s: State, packet: seq<byte>, addr: Addr)
    requires Valid(s)
    ensures var r := ProcessPacket(s, packet, addr);
      forall e :: e in r.events && e.Fired? ==>
        e.id in s.callbacks && e.id in r.state.buffers && e.buffer == r.state.buffers[e.id]
  {
    Dispatch(s, packet, addr);
    var r := ProcessPacket(s, packet, addr);
    if KindOf(packet) == DataPacket && packet[3] == IdAll {
      var h := ParseHeader(packet).value;
      PushTraceFired(s.order, s.callbacks, r.state.buffers, h.timecode);
    }
  }

  /** Over a whole `poll`, a fired callback for an id that already had a
      buffer receives a buffer at least as long as that one. */
  lemma {:induction false} PollFired(s: State, queued: seq<Datagram>)
    requires Valid(s)
    ensures forall e :: e in Poll(s, queued).events && e.Fired? && e.id in s.buffers ==>
      |e.buffer| >= |s.buffers[e.id]|
    decreases |queued|
  {
    if queued != [] && |queued[0].payload| != 0 {
      var step := Deliver(s, queued[0]);
      StepFired(s, Received(queued[0]), queued[0].sender);
      PollFired(step.state, queued[1..]);
    }
  }

  /** The flag bits of a reply. */
  lemma ReplyFlagBits()
    ensures Version(ReplyFlags) == 1
    ensures HasFlag(ReplyFlags, Reply) && HasFlag(ReplyFlags, Push)
    ensures !HasFlag(ReplyFlags, Query) && !HasFlag(ReplyFlags, Storage) && !HasFlag(ReplyFlags, Time)
  {
  }

  /** Replies are never acted on: feeding any reply this receiver sends back
      into a receiver changes nothing and emits nothing, so two receivers
      cannot keep answering each other. */
  lemma RepliesIgnored(s: State, t: State, id: byte, from: Addr, addr: Addr)
    requires Valid(s)
    ensures ProcessPacket(s, HandleQuery(t, id, from).bytes, addr) == Step(s, [])
  {
    var bytes := HandleQuery(t, id, from).bytes;
    assert KindOf(bytes) == EchoedReply by {
      assert ParseHeader(bytes).Some? && ParseHeader(bytes).value.flags1 == ReplyFlags;
      ReplyFlagBits();
    }
  }
}
