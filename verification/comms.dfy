/** The scale client (`OmronBLE`) with the radio abstracted away: what it
    subscribes to and writes is recorded as a trace of GATT operations, and
    what the scale notifies back is given as a sequence of notifications. */
module Comms {
  import opened Wrappers
  import opened Bytes
  import opened MeasurementRecord
  import opened Chunks
  import opened Packets

  const UserControlPoint: string := "00002a9f-0000-1000-8000-00805f9b34fb"
  const RecordAccessControlPoint: string := "00002a52-0000-1000-8000-00805f9b34fb"
  const MeasurementWs: string := "8ff2ddfb-4a52-4ce5-85a4-d2f97917792a"

  /** The characteristics notifications are enabled on, in subscription order. */
  const RxChannels: seq<string> := [UserControlPoint, RecordAccessControlPoint, MeasurementWs]

  /** The attribute handle of each of those characteristics; a notification's
      channel is the position of its handle here. */
  const RxHandles: seq<int> := [0x730, 0x610, 0x620]

  /** The client keeps five channel buffers, of which the first three are used. */
  const BufferCount: nat := 5

  /** The channel the body-composition records arrive on. */
  const MeasurementChannel: nat := 2

  /** The most bytes one write carries. */
  const MaxWrite: nat := 16

  /** The two-byte request `get_records` writes last, after the records filter. */
  const FinishRequest: seq<byte> := [0x10, 0x00]

  datatype GattOp =
    | StartNotify(uuid: string)
    | StopNotify(uuid: string)
    | Write(uuid: string, payload: seq<byte>)

  /** A notification from the scale: the handle of its characteristic and its value. */
  datatype Notification = Notification(handle: int, payload: seq<byte>)

  /** The client's state: the notify flag, one buffer per channel (`None`
      until the first notification on it) and the operations sent so far. */
  datatype Client = Client(notifying: bool, buffers: seq<Option<seq<byte>>>, ops: seq<GattOp>)

  predicate Valid(c: Client) {
    |c.buffers| == BufferCount
  }

  /** A client as constructed: not notifying, every buffer `None`, nothing sent. */
  function NewClient(): (c: Client)
    ensures Valid(c) && !c.notifying && c.ops == []
    ensures forall i :: 0 <= i < BufferCount ==> c.buffers[i].None?
  {
    Client(false, [None, None, None, None, None], [])
  }

  /** `list.index`: the first position holding x, or `None` where Python raises. */
  function IndexOf<T(==)>(xs: seq<T>, x: T): (r: Option<nat>)
    ensures r.Some? <==> x in xs
    ensures r.Some? ==> r.value < |xs| && xs[r.value] == x && x !in xs[..r.value]
  {
    if |xs| == 0 then None
    else if xs[0] == x then Some(0)
    else match IndexOf(xs[1..], x)
      case None => None
      case Some(k) => assert xs[..k + 1] == [xs[0]] + xs[1..][..k]; Some(k + 1)
  }

  /** The bytes a buffer holds, an empty run for `None`. */
  function Contents(b: Option<seq<byte>>): seq<byte> {
    if b.None? then [] else b.value
  }

  /** `_callback_for_rx_channels`: the notification's bytes are appended to its
      channel's buffer (they become the buffer when it is still `None`); a
      handle that is not a receive channel raises before any buffer changes. */
  function OnNotify(c: Client, n: Notification): (r: Result<Client>)
    requires Valid(c)
    ensures r.Success? <==> n.handle in RxHandles
    ensures r.Failure? ==> r.error == InvalidValue
    ensures r.Success? ==> Valid(r.value) && r.value.notifying == c.notifying && r.value.ops == c.ops
    ensures r.Success? ==> forall i :: 0 <= i < BufferCount ==>
      r.value.buffers[i] ==
        if i < |RxHandles| && RxHandles[i] == n.handle then Some(Contents(c.buffers[i]) + n.payload)
        else c.buffers[i]
  {
    match IndexOf(RxHandles, n.handle)
    case None => Failure(InvalidValue)
    case Some(k) =>
      assert forall j :: 0 <= j < |RxHandles| ==> (RxHandles[j] == n.handle <==> j == k);
      var updated := if c.buffers[k].None? then n.payload else c.buffers[k].value + n.payload;
      assert updated == Contents(c.buffers[k]) + n.payload;
      Success(c.(buffers := c.buffers[k := Some(updated)]))
  }

  /** The notifications delivered in order. A notification the callback
      rejects raises inside the callback and leaves the client as it was. */
  function Receive(c: Client, ns: seq<Notification>): (r: Client)
    requires Valid(c)
    ensures Valid(r) && r.notifying == c.notifying && r.ops == c.ops
    decreases |ns|
  {
    if |ns| == 0 then c
    else
      var before := Receive(c, ns[..|ns| - 1]);
      match OnNotify(before, ns[|ns| - 1])
      case Success(after) => after
      case Failure(_) => before
  }

  /** Whether any notification came from handle h. */
  predicate Heard(ns: seq<Notification>, h: int) {
    exists k :: 0 <= k < |ns| && ns[k].handle == h
  }

  /** The payloads of the notifications from handle h, concatenated in order. */
  function Collected(ns: seq<Notification>, h: int): seq<byte> {
    if |ns| == 0 then []
    else Collected(ns[..|ns| - 1], h) + (if ns[|ns| - 1].handle == h then ns[|ns| - 1].payload else [])
  }

  lemma HeardLast(ns: seq<Notification>, h: int)
    requires |ns| > 0
    ensures Heard(ns, h) <==> Heard(ns[..|ns| - 1], h) || ns[|ns| - 1].handle == h
  {
    var pre := ns[..|ns| - 1];
    if Heard(ns, h) && ns[|ns| - 1].handle != h {
      var k :| 0 <= k < |ns| && ns[k].handle == h;
      assert pre[k] == ns[k];
    }
    if Heard(pre, h) {
      var k :| 0 <= k < |pre| && pre[k].handle == h;
      assert ns[k] == pre[k];
    }
  }

  /** A channel's buffer after a run of notifications: untouched when nothing
      came on its handle, otherwise what it held followed by every payload
      from that handle in arrival order. The spare buffers never change. */
  lemma {:induction false} ReceiveCollects(c: Client, ns: seq<Notification>, i: nat)
    requires Valid(c) && i < BufferCount
    ensures Receive(c, ns).buffers[i] ==
      if i < |RxHandles| && Heard(ns, RxHandles[i]) then Some(Contents(c.buffers[i]) + Collected(ns, RxHandles[i]))
      else c.buffers[i]
    decreases |ns|
  {
    if |ns| > 0 {
      ReceiveCollects(c, ns[..|ns| - 1], i);
      ReceiveLast(c, ns, i);
      if i < |RxHandles| {
        CollectLast(c.buffers[i], Receive(c, ns[..|ns| - 1]).buffers[i], Receive(c, ns).buffers[i], ns, RxHandles[i]);
      }
    }
  }

  /** The last notification of a run changes buffer i only when it comes on
      channel i's handle, and then appends its payload. */
  lemma ReceiveLast(c: Client, ns: seq<Notification>, i: nat)
    requires Valid(c) && i < BufferCount && |ns| > 0
    ensures var before, last := Receive(c, ns[..|ns| - 1]).buffers[i], ns[|ns| - 1];
      Receive(c, ns).buffers[i] ==
        if i < |RxHandles| && RxHandles[i] == last.handle then Some(Contents(before) + last.payload) else before
  {
    var before := Receive(c, ns[..|ns| - 1]);
    assert Receive(c, ns) == match OnNotify(before, ns[|ns| - 1]) case Success(after) => after case Failure(_) => before;
  }

  /** One more notification keeps a buffer equal to its old contents followed
      by what its handle sent. */
  lemma CollectLast(start: Option<seq<byte>>, before: Option<seq<byte>>, after: Option<seq<byte>>, ns: seq<Notification>, h: int)
    requires |ns| > 0
    requires before == if Heard(ns[..|ns| - 1], h) then Some(Contents(start) + Collected(ns[..|ns| - 1], h)) else start
    requires after == if ns[|ns| - 1].handle == h then Some(Contents(before) + ns[|ns| - 1].payload) else before
    ensures after == if Heard(ns, h) then Some(Contents(start) + Collected(ns, h)) else start
  {
    var pre, last := ns[..|ns| - 1], ns[|ns| - 1];
    HeardLast(ns, h);
    if !Heard(pre, h) {
      NothingCollected(pre, h);
    }
    AppendStep(start, before, after, Heard(pre, h), Collected(pre, h), last.handle == h, last.payload);
  }

  /** The same step with the history reduced to whether anything was heard
      and what was collected. */
  lemma AppendStep(start: Option<seq<byte>>, before: Option<seq<byte>>, after: Option<seq<byte>>,
                   heard: bool, collected: seq<byte>, matches: bool, payload: seq<byte>)
    requires !heard ==> collected == []
    requires before == if heard then Some(Contents(start) + collected) else start
    requires after == if matches then Some(Contents(before) + payload) else before
    ensures after == if heard || matches then Some(Contents(start) + (collected + if matches then payload else [])) else start
  {
    if matches && heard {
      assert Contents(start) + collected + payload == Contents(start) + (collected + payload);
    } else if matches {
      assert collected + payload == payload;
    } else {
      assert collected + [] == collected;
    }
  }

  lemma {:induction false} NothingCollected(ns: seq<Notification>, h: int)
    requires !Heard(ns, h)
    ensures Collected(ns, h) == []
    decreases |ns|
  {
    if |ns| > 0 {
      HeardLast(ns, h);
      NothingCollected(ns[..|ns| - 1], h);
    }
  }

  /** `_enable_rx_channel_notify_and_callback`: subscribe to every receive
      channel, in order, unless the flag says that is already done. */
  function EnableNotify(c: Client): (r: Client)
    ensures r.notifying && r.buffers == c.buffers
  {
    if c.notifying then c
    else c.(notifying := true, ops := c.ops + [StartNotify(RxChannels[0]), StartNotify(RxChannels[1]), StartNotify(RxChannels[2])])
  }

  /** `_disable_rx_channel_notify_and_callback`: unsubscribe every receive
      channel, in order, only when subscribed. */
  function DisableNotify(c: Client): (r: Client)
    ensures !r.notifying && r.buffers == c.buffers
  {
    if !c.notifying then c
    else c.(notifying := false, ops := c.ops + [StopNotify(RxChannels[0]), StopNotify(RxChannels[1]), StopNotify(RxChannels[2])])
  }

  /** The subscription operations for all receive channels. */
  function Subscriptions(): seq<GattOp> {
    [StartNotify(UserControlPoint), StartNotify(RecordAccessControlPoint), StartNotify(MeasurementWs)]
  }

  function Unsubscriptions(): seq<GattOp> {
    [StopNotify(UserControlPoint), StopNotify(RecordAccessControlPoint), StopNotify(MeasurementWs)]
  }

  /** Enabling twice subscribes once; disabling twice unsubscribes once; an
      enable–disable pair subscribes and unsubscribes every channel exactly
      once when the client started unsubscribed. */
  lemma NotifyFlagIdempotent(c: Client)
    ensures EnableNotify(EnableNotify(c)) == EnableNotify(c)
    ensures DisableNotify(DisableNotify(c)) == DisableNotify(c)
    ensures !c.notifying ==> DisableNotify(c) == c
    ensures c.notifying ==> EnableNotify(c) == c
    ensures !c.notifying ==> DisableNotify(EnableNotify(c)).ops == c.ops + Subscriptions() + Unsubscriptions()
  {
  }

  /** `send(char, hex)`: the hex string is decoded (a malformed string raises)
      and at most its first 16 bytes are written. */
  function Send(c: Client, uuid: string, hex: string): (r: Result<Client>)
    ensures r.Success? <==> FromHex(hex).Some?
    ensures r.Success? ==> r.value.notifying == c.notifying && r.value.buffers == c.buffers
    ensures r.Success? ==> exists p :: r.value.ops == c.ops + [Write(uuid, p)] && |p| <= MaxWrite
  {
    match FromHex(hex)
    case None => Failure(InvalidValue)
    case Some(bytes) => Success(c.(ops := c.ops + [Write(uuid, Slice(bytes, 0, MaxWrite))]))
  }

  /** Writing a packet through its hex form: the packet itself is written, cut
      to its first 16 bytes. */
  function Transmit(c: Client, uuid: string, packet: seq<byte>): (r: Client)
    ensures r.notifying == c.notifying && r.buffers == c.buffers
  {
    c.(ops := c.ops + [Write(uuid, if |packet| <= MaxWrite then packet else packet[..MaxWrite])])
  }

  /** `send(char, convert_byte_array_to_hex_string(p))` writes `p[:16]`. */
  lemma SendHexOf(c: Client, uuid: string, packet: seq<byte>)
    ensures Send(c, uuid, ToHex(packet)) == Success(Transmit(c, uuid, packet))
  {
    FromHexToHex(packet);
    if |packet| <= MaxWrite {
      assert Slice(packet, 0, MaxWrite) == packet[0..|packet|] == packet;
    }
  }

  /** The literal `"1000"` decodes to the finishing request. */
  lemma FinishHex()
    ensures FromHex("1000") == Some(FinishRequest)
  {
    assert ToHex([0x00]) == "00";
    assert ToHex(FinishRequest) == "1000";
    FromHexToHex(FinishRequest);
  }

  /** The four requests of `get_records`, in order: consent to the user
      control point, then the count filter, the records filter and the finishing
      `10 00` request to the record access control point. */
  function Requests(c: Client, consent: seq<byte>, from: int): (r: Client)
    ensures r.notifying == c.notifying && r.buffers == c.buffers
  {
    var c1 := Transmit(c, UserControlPoint, consent);
    var c2 := Transmit(c1, RecordAccessControlPoint, Filter(from, true));
    var c3 := Transmit(c2, RecordAccessControlPoint, Filter(from, false));
    Transmit(c3, RecordAccessControlPoint, FinishRequest)
  }

  /** What `get_records` leaves behind: the client and the records or the fault raised. */
  datatype Fetch = Fetch(client: Client, records: Result<seq<Record>>)

  /** The records in a measurement buffer: none for `None` or an empty buffer,
      otherwise one per 35-byte chunk. */
  function RecordsIn(b: Option<seq<byte>>): Result<seq<Record>> {
    if b.None? || |b.value| == 0 then Success([]) else Records(b.value)
  }

  /** `get_records(user, from)`: enable notifications, send the four requests,
      take whatever the scale notified meanwhile, decode the measurement
      channel's buffer and disable notifications. A consent packet that
      cannot be built or a record that cannot be decoded raises, leaving
      notifications enabled. The buffers are not cleared. */
  function GetRecords(c: Client, user: int, from: int, arrivals: seq<Notification>): (f: Fetch)
    requires Valid(c)
    ensures Valid(f.client)
    ensures f.client.notifying <==> f.records.Failure?
  {
    var enabled := EnableNotify(c);
    match Consent(user)
    case Failure(e) => Fetch(enabled, Failure(e))
    case Success(consent) =>
      var received := Receive(Requests(enabled, consent, from), arrivals);
      match RecordsIn(received.buffers[MeasurementChannel])
      case Failure(e) => Fetch(received, Failure(e))
      case Success(rs) => Fetch(DisableNotify(received), Success(rs))
  }

  /** The operations `get_records` sends once it has a consent packet: the
      subscriptions if the client was not yet subscribed, the four requests
      in their fixed order, and the unsubscriptions if the records decoded. */
  lemma GetRecordsWriteOrder(c: Client, user: int, from: int, arrivals: seq<Notification>)
    requires Valid(c) && 0 <= user < 256
    ensures var f := GetRecords(c, user, from, arrivals);
      f.client.ops ==
        c.ops + (if c.notifying then [] else Subscriptions())
        + [Write(UserControlPoint, [0x02, user, 0x0E, 0x02]),
           Write(RecordAccessControlPoint, Filter(from, true)),
           Write(RecordAccessControlPoint, Filter(from, false)),
           Write(RecordAccessControlPoint, [0x10, 0x00])]
        + (if f.records.Success? then Unsubscriptions() else [])
  {
    ConsentRoundTrip(user);
  }

  /** A user index that does not fit a byte raises before anything is written. */
  lemma GetRecordsRejectsUser(c: Client, user: int, from: int, arrivals: seq<Notification>)
    requires Valid(c) && !(0 <= user < 256)
    ensures GetRecords(c, user, from, arrivals) == Fetch(EnableNotify(c), Failure(InvalidValue))
  {
  }

  /** Once the consent packet is built, the records are those in the
      measurement buffer after the requests and the notifications. */
  lemma GetRecordsReadsBuffer(c: Client, user: int, from: int, arrivals: seq<Notification>)
    requires Valid(c) && 0 <= user < 256
    ensures GetRecords(c, user, from, arrivals).records ==
      RecordsIn(Receive(Requests(EnableNotify(c), Consent(user).value, from), arrivals).buffers[MeasurementChannel])
  {
  }

  /** On a fresh client, `get_records` decodes exactly the bytes notified on
      the measurement handle, concatenated in arrival order, and none when
      nothing was notified there. */
  lemma GetRecordsFromNewClient(user: int, from: int, arrivals: seq<Notification>)
    requires 0 <= user < 256
    ensures var data := Collected(arrivals, RxHandles[MeasurementChannel]);
      GetRecords(NewClient(), user, from, arrivals).records == (if data == [] then Success([]) else Records(data))
  {
    var h := RxHandles[MeasurementChannel];
    var requested := Requests(EnableNotify(NewClient()), Consent(user).value, from);
    GetRecordsReadsBuffer(NewClient(), user, from, arrivals);
    ReceiveCollects(requested, arrivals, MeasurementChannel);
    assert requested.buffers == NewClient().buffers;
    var data := Collected(arrivals, h);
    var b := Receive(requested, arrivals).buffers[MeasurementChannel];
    if Heard(arrivals, h) {
      assert b == Some([] + data) && [] + data == data;
    } else {
      NothingCollected(arrivals, h);
      assert b == None;
    }
  }

  /** On a fresh client, record k comes from `data[35k:35k+19]` and
      `data[35k+19:35k+35]` of the measurement bytes, ceil(n / 35) of them,
      and the call fails exactly when some chunk does not decode. */
  lemma GetRecordsChunks(user: int, from: int, arrivals: seq<Notification>)
    requires 0 <= user < 256
    ensures var data := Collected(arrivals, RxHandles[MeasurementChannel]);
      var rs := GetRecords(NewClient(), user, from, arrivals).records;
      && (rs.Success? <==>
            forall k :: 0 <= k < ChunkCount(|data|) ==> FromBuffers(FirstHalf(data, k), SecondHalf(data, k)).Success?)
      && (rs.Success? ==>
            && |rs.value| == ChunkCount(|data|)
            && forall k :: 0 <= k < ChunkCount(|data|) ==>
                 rs.value[k] == FromBuffers(FirstHalf(data, k), SecondHalf(data, k)).value)
  {
    var data := Collected(arrivals, RxHandles[MeasurementChannel]);
    GetRecordsFromNewClient(user, from, arrivals);
    RecordsArePerChunk(data);
  }
}
