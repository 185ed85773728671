// TorStream: one application byte stream multiplexed over a Tor circuit. The
// circuit is reduced to what the stream does to it (the relay cells it asks
// the circuit to send, in order, and the circuit's table of stream ids); the
// listener to the callbacks it receives. Locking and waiting are not modelled.
module TorStreams {
  import opened Bytes

  datatype StreamState = Connecting | Ready | Destroyed

  /** The relay commands a stream emits (section 6.1 of tor-spec.txt). */
  datatype RelayCommand = RelayData | RelayEnd | RelaySendme

  /** One call `circ.send(payload, command, isControl, streamId)`; a null payload is `None`. */
  datatype RelayCell = RelayCell(payload: Option<seq<byte>>, command: RelayCommand, control: bool, streamId: int)

  /** The TorStreamListener callbacks. */
  datatype ListenerEvent = DataArrived | Connected | Disconnected

  datatype StreamError = StreamDestroyed

  datatype Result<T> = Ok(value: T) | Err(error: StreamError)

  datatype Outcome = Pass | Fail(error: StreamError)

  /** Relay-cell payload left for data: 509 less command, recognized, stream id, digest and length. */
  const MAX_DATA_LEN: nat := 509 - 1 - 2 - 2 - 4 - 2
  /** Stream-level flow control (section 7.4 of tor-spec.txt). */
  const RECV_WINDOW_START: int := 500
  const RECV_WINDOW_LOW: int := 450
  const RECV_WINDOW_INCREMENT: int := 50
  /** END reason DONE (section 6.3 of tor-spec.txt). */
  const END_REASON_DONE: byte := 6

  /** The circuit as a stream sees it. */
  class Circuit {
    var sent: seq<RelayCell>
    var streams: set<int>

    constructor (streams: set<int>)
      ensures sent == [] && this.streams == streams
    {
      sent := [];
      this.streams := streams;
    }

    /** `send(payload, command, isControl, streamId)`: the cell goes out after those before it. */
    method Send(payload: Option<seq<byte>>, command: RelayCommand, control: bool, streamId: int)
      modifies this`sent
      ensures sent == old(sent) + [RelayCell(payload, command, control, streamId)]
    {
      sent := sent + [RelayCell(payload, command, control, streamId)];
    }

    /** `streams.remove(streamId)`. */
    method RemoveStream(streamId: int)
      modifies this`streams
      ensures streams == old(streams) - {streamId}
    {
      streams := streams - {streamId};
    }
  }

  /** A listener, as the callbacks it has received in order. */
  class Listener {
    var events: seq<ListenerEvent>

    constructor ()
      ensures events == []
    {
      events := [];
    }

    method Notify(event: ListenerEvent)
      modifies this
      ensures events == old(events) + [event]
    {
      events := events + [event];
    }
  }

  /** `(short) x`: the low 16 bits of x read as a signed value. */
  function ToShort(x: int): (r: int)
    ensures -32768 <= r < 32768 && (x - r) % 65536 == 0
  {
    (x + 32768) % 65536 - 32768
  }

  // ---------------------------------------------------------------------------
  // Chunking of outgoing data

  /** ceil(len / 498): the number of DATA cells for len bytes. */
  function NumChunks(len: nat): nat
  {
    (len + MAX_DATA_LEN - 1) / MAX_DATA_LEN
  }

  /** Chunk k: bytes [498k, min(498k + 498, |b|)). */
  function Chunk(b: seq<byte>, k: nat): seq<byte>
    requires k < NumChunks(|b|)
  {
    b[MAX_DATA_LEN * k..Min(MAX_DATA_LEN * k + MAX_DATA_LEN, |b|)]
  }

  function Chunks(b: seq<byte>): seq<seq<byte>>
  {
    seq(NumChunks(|b|), k requires 0 <= k < NumChunks(|b|) => Chunk(b, k))
  }

  /** The DATA cells `send(b)` hands the circuit. */
  function DataCells(b: seq<byte>, streamId: int): seq<RelayCell>
  {
    seq(NumChunks(|b|), k requires 0 <= k < NumChunks(|b|) =>
      RelayCell(Some(Chunk(b, k)), RelayData, false, ToShort(streamId)))
  }

  function Concat(chunks: seq<seq<byte>>): seq<byte>
  {
    if chunks == [] then [] else chunks[0] + Concat(chunks[1..])
  }

  /** Past the first chunk, the chunks of b are the chunks of b[498..]. */
  lemma ChunksTail(b: seq<byte>)
    requires |b| > MAX_DATA_LEN
    ensures Chunks(b) == [b[..MAX_DATA_LEN]] + Chunks(b[MAX_DATA_LEN..])
  {
    var rest := b[MAX_DATA_LEN..];
    assert NumChunks(|rest|) == NumChunks(|b|) - 1;
    assert Chunks(b)[0] == Chunk(b, 0) == b[..MAX_DATA_LEN];
    forall k | 0 <= k < NumChunks(|rest|)
      ensures Chunks(b)[k + 1] == Chunks(rest)[k]
    {
      assert Chunk(b, k + 1) == Chunk(rest, k);
    }
  }

  /** The payloads of `send(b)` put back together give b, in order. */
  lemma {:induction false} ChunksConcat(b: seq<byte>)
    ensures Concat(Chunks(b)) == b
    decreases |b|
  {
    if |b| > MAX_DATA_LEN {
      ChunksTail(b);
      ChunksConcat(b[MAX_DATA_LEN..]);
      assert b == b[..MAX_DATA_LEN] + b[MAX_DATA_LEN..];
    } else if b != [] {
      assert NumChunks(|b|) == 1 && Chunk(b, 0) == b;
      assert Chunks(b) == [b];
    } else {
      assert Chunks(b) == [];
    }
  }

  /** ceil(|b|/498) chunks, none empty, none over 498 bytes, all but the last exactly 498,
      and together they are b; no bytes, no chunk. */
  lemma ChunksShape(b: seq<byte>)
    ensures |Chunks(b)| == NumChunks(|b|)
    ensures MAX_DATA_LEN * (|Chunks(b)| - 1) < |b| <= MAX_DATA_LEN * |Chunks(b)|
    ensures forall k :: 0 <= k < |Chunks(b)| ==> 0 < |Chunks(b)[k]| <= MAX_DATA_LEN
    ensures forall k :: 0 <= k < |Chunks(b)| - 1 ==> |Chunks(b)[k]| == MAX_DATA_LEN
    ensures Concat(Chunks(b)) == b
    ensures b == [] <==> Chunks(b) == []
  {
    ChunksConcat(b);
  }

  /** The DATA cells of send(b) carry the chunks of b, one each and in order, under the
      stream id cut to 16 bits. */
  lemma DataCellsCarryChunks(b: seq<byte>, streamId: int)
    ensures |DataCells(b, streamId)| == |Chunks(b)|
    ensures forall k :: 0 <= k < |Chunks(b)| ==>
              DataCells(b, streamId)[k] == RelayCell(Some(Chunks(b)[k]), RelayData, false, ToShort(streamId))
  {
  }

  /** The example of a 1200-byte send: three DATA cells of 498, 498 and 204 bytes. */
  lemma SendOf1200Bytes(b: seq<byte>)
    requires |b| == 1200
    ensures |Chunks(b)| == 3
    ensures |Chunks(b)[0]| == 498 && |Chunks(b)[1]| == 498 && |Chunks(b)[2]| == 204
  {
  }

  // ---------------------------------------------------------------------------
  // Stream-level flow control

  /** One delivery: the window after it, and whether a SENDME went out. */
  function AfterDelivery(window: int): (int, bool)
  {
    if window - 1 < RECV_WINDOW_LOW then (window - 1 + RECV_WINDOW_INCREMENT, true) else (window - 1, false)
  }

  /** Window and number of SENDMEs after n deliveries starting from `window`. */
  function Deliveries(window: int, n: nat): (int, nat)
  {
    if n == 0 then (window, 0)
    else
      var (w, sendmes) := Deliveries(window, n - 1);
      var (w', sent) := AfterDelivery(w);
      (w', sendmes + if sent then 1 else 0)
  }

  /** From a fresh stream, the n-th delivery leaves the window at 499 - (n-1) mod 50 and
      (n-1)/50 SENDMEs sent: the first on the 51st delivery, then one every 50. */
  lemma {:induction false} FreshStreamDeliveries(n: nat)
    requires n >= 1
    ensures Deliveries(RECV_WINDOW_START, n) == (499 - (n - 1) % 50, (n - 1) / 50)
  {
    if n > 1 {
      FreshStreamDeliveries(n - 1);
      if (n - 2) % 50 == 49 {
        assert (n - 1) % 50 == 0 && (n - 1) / 50 == (n - 2) / 50 + 1;
      } else {
        assert (n - 1) % 50 == (n - 2) % 50 + 1 && (n - 1) / 50 == (n - 2) / 50;
      }
    }
  }

  /** The window of a fresh stream stays within [450, 500], and within [450, 499] once
      something has been delivered. */
  lemma FreshStreamWindowRange(n: nat)
    ensures RECV_WINDOW_LOW <= Deliveries(RECV_WINDOW_START, n).0 <= RECV_WINDOW_START
    ensures n >= 1 ==> Deliveries(RECV_WINDOW_START, n).0 < RECV_WINDOW_START
  {
    if n >= 1 {
      FreshStreamDeliveries(n);
    }
  }

  /** How many bytes `recv.get(bytes)` hands out of `available`; negative means all. */
  function Available(bytes: int, available: nat): nat
  {
    if bytes < 0 then available else Min(bytes, available)
  }

  class TorStream {
    const streamId: int
    const circ: Circuit
    const listener: Listener?

    var state: StreamState
    var recv: seq<byte>
    var recvWindow: int
    /** How many times data was delivered, and how many SENDMEs that caused. */
    ghost var delivered: nat
    ghost var sendmes: nat

    ghost predicate Valid()
      reads this`recvWindow, this`sendmes, this`delivered
    {
      (recvWindow, sendmes) == Deliveries(RECV_WINDOW_START, delivered)
    }

    constructor (streamId: int, circ: Circuit, list: Listener?)
      ensures Valid()
      ensures this.streamId == streamId && this.circ == circ && listener == list
      ensures state == Connecting && recv == [] && recvWindow == RECV_WINDOW_START && delivered == 0
    {
      this.streamId := streamId;
      this.circ := circ;
      listener := list;
      state := Connecting;
      recv := [];
      recvWindow := RECV_WINDOW_START;
      delivered, sendmes := 0, 0;
    }

    method SetState(newState: StreamState)
      modifies this`state
      ensures state == newState
    {
      state := newState;
    }

    /** recv(bytes, block): fails on an empty, destroyed stream; otherwise hands out and
        removes the first `bytes` buffered bytes (all of them for a negative count).
        A blocking call is modelled only where it returns without waiting. */
    method Recv(bytes: int, block: bool) returns (r: Result<seq<byte>>)
      requires block ==> recv != [] || state == Destroyed
      modifies this`recv
      ensures old(recv) == [] && state == Destroyed ==> r == Err(StreamDestroyed) && recv == old(recv)
      ensures !(old(recv) == [] && state == Destroyed) ==>
                var k := Available(bytes, |old(recv)|);
                r == Ok(old(recv)[..k]) && recv == old(recv)[k..]
    {
      if recv == [] && state == Destroyed {
        return Err(StreamDestroyed);
      }
      var k := Available(bytes, |recv|);
      r := Ok(recv[..k]);
      recv := recv[k..];
    }

    /** send(b): fails on a destroyed stream; otherwise hands the circuit b as DATA cells of
        at most 498 bytes, in order. */
    method Send(b: seq<byte>) returns (r: Outcome)
      modifies circ`sent
      ensures state == Destroyed ==> r == Fail(StreamDestroyed) && circ.sent == old(circ.sent)
      ensures state != Destroyed ==> r == Pass && circ.sent == old(circ.sent) + DataCells(b, streamId)
    {
      if state == Destroyed {
        return Fail(StreamDestroyed);
      }
      var i := 0;
      ghost var k := 0;
      while i < NumChunks(|b|) * MAX_DATA_LEN
        invariant i == MAX_DATA_LEN * k && k <= NumChunks(|b|)
        invariant circ.sent == old(circ.sent) + DataCells(b, streamId)[..k]
      {
        var data := b[i..Min(|b|, i + MAX_DATA_LEN)];
        assert data == Chunk(b, k);
        circ.Send(Some(data), RelayData, false, ToShort(streamId));
        assert DataCells(b, streamId)[..k + 1] == DataCells(b, streamId)[..k] + [DataCells(b, streamId)[k]];
        i := i + MAX_DATA_LEN;
        k := k + 1;
      }
      assert DataCells(b, streamId)[..k] == DataCells(b, streamId);
      return Pass;
    }

    /** destroy(): the first call marks the stream destroyed, sends END (reason DONE) and
        leaves the circuit's stream table; later calls do nothing. */
    method Destroy()
      modifies this`state, circ
      ensures state == Destroyed
      ensures old(state) == Destroyed ==> circ.sent == old(circ.sent) && circ.streams == old(circ.streams)
      ensures old(state) != Destroyed ==>
                circ.sent == old(circ.sent) + [RelayCell(Some([END_REASON_DONE]), RelayEnd, false, ToShort(streamId))] &&
                circ.streams == old(circ.streams) - {streamId}
    {
      if state == Destroyed {
        return;
      }
      SetState(Destroyed);
      circ.Send(Some([END_REASON_DONE]), RelayEnd, false, ToShort(streamId));
      circ.RemoveStream(streamId);
    }

    /** _putRecved(b): one delivery of flow-control credit (a SENDME and 50 more when the
        window falls below 450), then b joins the tail of the buffer and the listener hears. */
    method PutRecved(b: seq<byte>)
      requires Valid()
      modifies this`recvWindow, this`recv, this`delivered, this`sendmes, circ`sent, listener
      ensures Valid() && delivered == old(delivered) + 1
      ensures recvWindow == AfterDelivery(old(recvWindow)).0
      ensures circ.sent == old(circ.sent) +
                if AfterDelivery(old(recvWindow)).1 then [RelayCell(None, RelaySendme, false, ToShort(streamId))] else []
      ensures recv == old(recv) + b
      ensures listener != null ==> listener.events == old(listener.events) + [DataArrived]
    {
      recvWindow := recvWindow - 1;
      delivered := delivered + 1;
      if recvWindow < RECV_WINDOW_LOW {
        circ.Send(None, RelaySendme, false, ToShort(streamId));
        recvWindow := recvWindow + RECV_WINDOW_INCREMENT;
        sendmes := sendmes + 1;
      }
      recv := recv + b;
      if listener != null {
        listener.Notify(DataArrived);
      }
    }

    /** notifyDisconnect(): destroyed, whatever the state, and the listener hears. */
    method NotifyDisconnect()
      modifies this`state, listener
      ensures state == Destroyed
      ensures listener != null ==> listener.events == old(listener.events) + [Disconnected]
    {
      SetState(Destroyed);
      if listener != null {
        listener.Notify(Disconnected);
      }
    }

    /** notifyConnect(): ready, whatever the state (a destroyed stream too), and the listener hears. */
    method NotifyConnect()
      modifies this`state, listener
      ensures state == Ready
      ensures listener != null ==> listener.events == old(listener.events) + [Connected]
    {
      SetState(Ready);
      if listener != null {
        listener.Notify(Connected);
      }
    }
  }

  /** A stream that has had data delivered keeps its window in [450, 499] and has sent
      (delivered - 1) / 50 SENDMEs. */
  lemma DeliveredStreamWindow(s: TorStream)
    requires s.Valid() && s.delivered >= 1
    ensures RECV_WINDOW_LOW <= s.recvWindow < RECV_WINDOW_START
    ensures s.sendmes == (s.delivered - 1) / 50
  {
    FreshStreamDeliveries(s.delivered);
  }
}
