// TN records in their ring, and the stream that fills them from a socket.

module TnStream {
  import opened Bytes
  import opened Options
  import opened TnBuffer
  import opened TnFraming

  class Record {
    var data: Bytes
    var curPos: nat
    var next: Record?
    var prev: Record?

    constructor ()
      ensures data == [] && curPos == 0 && next == null && prev == null
    {
      data, curPos, next, prev := [], 0, null, null;
    }

    /** tnX_record_get_byte; running past the end is what its assertion is for. */
    method GetByte() returns (b: Byte)
      requires curPos < |data|
      modifies this`curPos
      ensures curPos == old(curPos) + 1 && b == data[old(curPos)]
    {
      curPos := curPos + 1;
      b := data[curPos - 1];
    }
  }

  // ----- the circular doubly linked list

  function After(i: nat, n: nat): nat {
    if i + 1 == n then 0 else i + 1
  }

  /** `list` is the first of `nodes`, and next and prev run around `nodes` in the two directions. */
  ghost predicate Ring(list: Record?, nodes: seq<Record>)
    reads nodes
  {
    && (if nodes == [] then list == null else list == nodes[0])
    && (forall i, j :: 0 <= i < j < |nodes| ==> nodes[i] != nodes[j])
    && (forall i :: 0 <= i < |nodes| ==> nodes[i].next == nodes[After(i, |nodes|)])
    && (forall i :: 0 <= i < |nodes| ==> nodes[After(i, |nodes|)].prev == nodes[i])
  }

  method ListAdd(list: Record?, record: Record, ghost nodes: seq<Record>) returns (r: Record)
    requires Ring(list, nodes) && record !in nodes
    modifies nodes, record
    ensures Ring(r, nodes + [record])
    ensures forall x :: x in nodes || x == record ==> x.data == old(x.data) && x.curPos == old(x.curPos)
  {
    if list == null {
      record.prev := record;
      record.next := record;
      return record;
    }
    assert After(|nodes| - 1, |nodes|) == 0;
    record.next := list;
    record.prev := list.prev;
    record.prev.next := record;
    record.next.prev := record;
    r := list;
    ghost var all := nodes + [record];
    forall i | 0 <= i < |all|
      ensures all[i].next == all[After(i, |all|)] && all[After(i, |all|)].prev == all[i]
    {
      assert i < |nodes| - 1 ==> After(i, |nodes|) == i + 1 == After(i, |all|);
    }
  }

  method ListRemove(list: Record?, record: Record, ghost nodes: seq<Record>, ghost k: nat) returns (r: Record?)
    requires Ring(list, nodes) && k < |nodes| && record == nodes[k]
    modifies nodes
    ensures Ring(r, nodes[..k] + nodes[k + 1..]) && record.next == null && record.prev == null
    ensures forall x :: x in nodes ==> x.data == old(x.data) && x.curPos == old(x.curPos)
  {
    if list == null {
      return null;
    }
    if list.next == list {
      assert |nodes| == 1 by {
        assert After(0, |nodes|) == 0;
      }
      record.prev := null;
      record.next := null;
      return null;
    }
    r := list;
    if r == record {
      r := r.next;
    }
    Unlink(record, nodes, k);
    RingWithout(r, nodes, k);
  }

  function Before(i: nat, n: nat): nat
    requires i < n
  {
    if i == 0 then n - 1 else i - 1
  }

  /** The pointers after the `k`-th node has been taken out of the ring. */
  ghost predicate Unlinked(nodes: seq<Record>, k: nat)
    requires k < |nodes|
    reads nodes
  {
    var n := |nodes|;
    && nodes[Before(k, n)].next == nodes[After(k, n)] && nodes[After(k, n)].prev == nodes[Before(k, n)]
    && forall i :: 0 <= i < n && i != k && After(i, n) != k ==>
         nodes[i].next == nodes[After(i, n)] && nodes[After(i, n)].prev == nodes[i]
  }

  method Unlink(record: Record, ghost nodes: seq<Record>, ghost k: nat)
    requires |nodes| >= 2 && Ring(nodes[0], nodes) && k < |nodes| && record == nodes[k]
    modifies nodes
    ensures Unlinked(nodes, k) && record.next == null && record.prev == null
    ensures forall x :: x in nodes ==> x.data == old(x.data) && x.curPos == old(x.curPos)
  {
    ghost var n := |nodes|;
    ghost var j, a := nodes[Before(k, n)], nodes[After(k, n)];
    assert After(Before(k, n), n) == k;
    assert record.next == a && record.prev == j && j != record && a != record;
    record.next.prev := record.prev;
    record.prev.next := record.next;
    record.next := null;
    record.prev := null;
    forall i | 0 <= i < n && i != k && After(i, n) != k
      ensures nodes[i].next == nodes[After(i, n)] && nodes[After(i, n)].prev == nodes[i]
    {
      assert nodes[i] != j && nodes[After(i, n)] != a;
    }
  }

  lemma RingWithout(r: Record, nodes: seq<Record>, k: nat)
    requires |nodes| >= 2 && k < |nodes| && Unlinked(nodes, k) && r == nodes[if k == 0 then 1 else 0]
    requires forall i, j :: 0 <= i < j < |nodes| ==> nodes[i] != nodes[j]
    ensures Ring(r, nodes[..k] + nodes[k + 1..])
  {
    var n, rest := |nodes|, nodes[..k] + nodes[k + 1..];
    forall i | 0 <= i < n - 1
      ensures rest[i].next == rest[After(i, n - 1)] && rest[After(i, n - 1)].prev == rest[i]
    {
      WithoutOne(nodes, k, i);
    }
    forall i, j | 0 <= i < j < n - 1
      ensures rest[i] != rest[j]
    {
      WithoutOne(nodes, k, i);
      WithoutOne(nodes, k, j);
    }
    WithoutOne(nodes, k, 0);
  }

  /** The places of the nodes that are left when the `k`-th is taken out, and of their neighbours. */
  lemma WithoutOne(nodes: seq<Record>, k: nat, i: nat)
    requires k < |nodes| && i < |nodes| - 1
    ensures var n, x := |nodes|, if i < k then i else i + 1;
            && (nodes[..k] + nodes[k + 1..])[i] == nodes[x] && x != k
            && (nodes[..k] + nodes[k + 1..])[After(i, n - 1)] ==
               nodes[if After(x, n) == k then After(k, n) else After(x, n)]
  {
  }

  /** tnX_record_list_destroy: the records in the order they are freed. */
  method ListDestroy(list: Record?, ghost nodes: seq<Record>) returns (freed: seq<Record>)
    requires Ring(list, nodes)
    ensures freed == nodes
  {
    freed := [];
    if list != null {
      var iter := list;
      while true
        invariant |freed| < |nodes| && freed == nodes[..|freed|] && iter == nodes[|freed|]
        decreases |nodes| - |freed|
      {
        var next := iter.next;
        freed := freed + [iter];
        iter := next;
        if iter == list {
          break;
        }
      }
    }
  }

  lemma RingHead(list: Record?, nodes: seq<Record>)
    requires Ring(list, nodes) && nodes != []
    ensures list == nodes[0] && nodes[0] !in nodes[1..]
  {
  }

  // ----- the stream

  datatype StreamState = StateNoData | StateData | StateIac | StateVerb | StateSb | StateSbIac

  /** The state as it counts between calls: NO_DATA only says that the byte just read was no data. */
  function PhaseOf(s: StreamState): Phase {
    match s
    case StateNoData => InData
    case StateData => InData
    case StateIac => HaveIac
    case StateVerb => HaveVerb
    case StateSb => HaveSb
    case StateSbIac => HaveSbIac
  }

  datatype StreamType = Tn5250 | Tn3270

  ghost function Payloads(nodes: seq<Record>): (r: seq<Bytes>)
    reads nodes
    ensures |r| == |nodes|
    ensures forall i :: 0 <= i < |nodes| ==> r[i] == nodes[i].data
  {
    seq(|nodes|, i requires 0 <= i < |nodes| reads nodes => nodes[i].data)
  }

  class Stream {
    var state: StreamState
    var currentRecord: Record?
    var records: Record?
    var recordCount: int
    var sbBuf: Bytes
    var streamType: StreamType
    var incoming: Bytes          // what the socket has to give, and whether it is closed behind that
    var closed: bool

    ghost var queue: seq<Record>
    ghost var subs: seq<Bytes>

    ghost predicate Valid()
      reads this, queue
    {
      && Ring(records, queue) && recordCount == |queue|
      && (currentRecord != null ==> currentRecord !in queue)
    }

    /** The stream as the framing sees it. */
    ghost function View(): Receiver
      reads this, queue, currentRecord
    {
      var current := if currentRecord == null then None else Some(currentRecord.data);
      Receiver(PhaseOf(state), current, Payloads(queue), sbBuf, subs)
    }

    constructor (streamType: StreamType)
      ensures Valid() && View() == START && queue == [] && incoming == [] && !closed
      ensures this.streamType == streamType
    {
      state, currentRecord, records, recordCount, sbBuf := StateData, null, null, 0, [];
      this.streamType, incoming, closed := streamType, [], false;
      queue, subs := [], [];
    }

    /** telnet_stream_get_next: a byte, -1 without one, -2 on a closed socket. */
    method GetNext() returns (c: int)
      modifies this`incoming
      ensures if old(incoming) == [] then incoming == [] && c == (if closed then -2 else -1)
              else c == old(incoming)[0] && incoming == old(incoming)[1..]
    {
      if incoming == [] {
        return if closed then -2 else -1;
      }
      c := incoming[0];
      incoming := incoming[1..];
    }

    /** What the parser has come to: the state, the subnegotiation collected, and those handed over. */
    ghost predicate Parsed(rx: Receiver)
      reads `state, `sbBuf, `subs
    {
      rx.phase == PhaseOf(state) && rx.sb == sbBuf && rx.subs == subs
    }

    /**
     * telnet_stream_get_byte: reads on, through negotiation, to the next data byte or end of record, or
     * as far as there is input. Replies to negotiation are not part of it.
     */
    method GetByte(ghost rx: Receiver) returns (c: int, ghost used: Bytes, ghost rx': Receiver)
      requires Parsed(rx)
      modifies this`state, this`sbBuf, this`subs, this`incoming
      ensures old(incoming) == used + incoming && Parsed(rx') && rx' == Seen(rx, rx')
      ensures c == -1 || c == -2 ==> incoming == [] && c == (if closed then -2 else -1) && rx' == Feed(rx, used)
      ensures c == -END_OF_RECORD ==> Feed(rx, used) == rx'.EndRecord()
      ensures c >= 0 ==> c < 256 && Feed(rx, used) == rx'.Put(c)
      ensures c >= 0 || c == -END_OF_RECORD ==> |used| > 0 && rx'.phase == InData
      ensures c >= 0 || c == -1 || c == -2 || c == -END_OF_RECORD
    {
      hide Feed, Step;
      used := [];
      rx' := rx;
      FeedNone(rx);
      while true
        invariant old(incoming) == used + incoming
        invariant Parsed(rx') && rx' == Feed(rx, used) && rx' == Seen(rx, rx')
        decreases |incoming|
      {
        if state == StateNoData {
          state := StateData;
        }
        c := GetNext();
        if c < 0 {
          return;
        }
        FeedOne(rx, used, c);
        used := used + [c];
        c, rx' := Parse(c, rx');
        if c == -END_OF_RECORD || state == StateData {
          return;
        }
      }
    }

    /** `rx'` as `rx` with what the parser alone can change. */
    ghost function Seen(rx: Receiver, rx': Receiver): Receiver {
      rx.(phase := rx'.phase, sb := rx'.sb, subs := rx'.subs)
    }

    lemma FeedNone(rx: Receiver)
      ensures Feed(rx, []) == rx
    {
    }

    lemma FeedOne(rx: Receiver, used: Bytes, c: Byte)
      ensures Feed(rx, used + [c]) == Step(Feed(rx, used), c)
    {
      assert (used + [c])[..|used|] == used;
    }

    /** The switch of telnet_stream_get_byte: what one byte does to the state. */
    method Parse(b: Byte, ghost rx: Receiver) returns (c: int, ghost rx': Receiver)
      requires Parsed(rx) && state != StateNoData
      modifies this`state, this`sbBuf, this`subs
      ensures Parsed(rx') && rx' == Seen(rx, rx')
      ensures c == -END_OF_RECORD ==> state == StateData && Step(rx, b) == rx'.EndRecord()
      ensures c != -END_OF_RECORD ==> c == b
      ensures c != -END_OF_RECORD && state == StateData ==> Step(rx, b) == rx'.Put(b)
      ensures state != StateData ==> Step(rx, b) == rx'
    {
      c := b;
      match state {
        case StateData =>
          if c == IAC {
            state := StateIac;
          }
        case StateIac =>
          if c == IAC {
            state := StateData;
          } else if IsVerb(c) {
            state := StateVerb;
          } else if c == SB {
            state := StateSb;
            sbBuf := [];
          } else if c == EOR {
            state := StateData;
            c := -END_OF_RECORD;
          } else {
            state := StateNoData;
          }
        case StateVerb =>
          state := StateNoData;
        case StateSb =>
          if c == IAC {
            state := StateSbIac;
          } else {
            sbBuf := sbBuf + [c];
          }
        case StateSbIac =>
          if c == IAC {
            sbBuf := sbBuf + [IAC];
          } else if c == SE {
            subs := subs + [sbBuf];
            sbBuf := [];
            state := StateNoData;
          } else {
            state := StateSb;
          }
      }
      rx' := rx.(phase := PhaseOf(state), sb := sbBuf, subs := subs);
    }

    /** The records of the stream now are records it had before, or new ones. */
    twostate predicate OwnRecords()
      reads this
    {
      && old(queue) <= queue
      && (forall i :: 0 <= i < |queue| ==>
            queue[i] in old(queue) || queue[i] == old(currentRecord) || fresh(queue[i]))
      && (currentRecord != null ==> currentRecord == old(currentRecord) || fresh(currentRecord))
    }

    /** telnet_stream_handle_receive: everything there is to read goes into records. */
    method HandleReceive() returns (r: bool)
      requires Valid()
      modifies this, queue, currentRecord
      ensures Valid() && incoming == [] && r == !closed && closed == old(closed) && streamType == old(streamType)
      ensures View() == Feed(old(View()), old(incoming))
      ensures OwnRecords()
    {
      hide Ring, Payloads, Feed, View;
      ghost var total: Bytes := [];
      FeedNone(View());
      var c := 0;
      while c != -1 && c != -2
        invariant Valid() && old(incoming) == total + incoming && View() == Feed(old(View()), total)
        invariant closed == old(closed) && streamType == old(streamType) && OwnRecords()
        invariant c == -1 || c == -2 ==> incoming == [] && c == if closed then -2 else -1
        decreases |incoming|, c != -1 && c != -2
      {
        ghost var used;
        c, used := ReceiveOne();
        ChunkIndependence(old(View()), total, used);
        assert total + (used + incoming) == total + used + incoming;
        total := total + used;
      }
      assert total + [] == total;
      r := c != -2;
    }

    /** One turn of its loop. */
    method ReceiveOne() returns (c: int, ghost used: Bytes)
      requires Valid()
      modifies this, queue, currentRecord
      ensures Valid() && closed == old(closed) && streamType == old(streamType) && OwnRecords()
      ensures old(incoming) == used + incoming && View() == Feed(old(View()), used)
      ensures c == -1 || c == -2 ==> incoming == [] && c == if closed then -2 else -1
      ensures c != -1 && c != -2 ==> |used| > 0
    {
      hide Ring, Payloads, Feed;
      ghost var rx;
      c, used, rx := GetByte(View());
      assert View() == rx;
      if c != -1 && c != -2 {
        Collect(c);
      }
    }

    /** What telnet_stream_handle_receive does with a byte or an end of record. */
    method Collect(c: int)
      requires Valid() && (c == -END_OF_RECORD || 0 <= c < 256)
      modifies this`currentRecord, this`records, this`recordCount, this`queue, queue, currentRecord
      ensures Valid() && old(queue) <= queue
      ensures forall i :: 0 <= i < |queue| ==> queue[i] in old(queue) || queue[i] == old(currentRecord)
      ensures currentRecord != null ==> currentRecord == old(currentRecord) || fresh(currentRecord)
      ensures var rx := if c == -END_OF_RECORD then old(View()).EndRecord() else old(View()).Put(c);
              View() == rx.(phase := old(View()).phase)
    {
      hide Ring, Payloads;
      if c == -END_OF_RECORD && currentRecord != null {
        Enqueue();
      } else {
        PutByte(if c < 0 then c + 256 else c);
      }
    }

    method Enqueue()
      requires Valid() && currentRecord != null
      modifies this`currentRecord, this`records, this`recordCount, this`queue, queue, currentRecord
      ensures Valid() && queue == old(queue) + [old(currentRecord)] && currentRecord == null
      ensures Payloads(queue) == old(Payloads(queue)) + [old(currentRecord.data)]
    {
      hide Ring;
      ghost var was := Payloads(queue);
      records := ListAdd(records, currentRecord, queue);
      queue := queue + [currentRecord];
      currentRecord := null;
      recordCount := recordCount + 1;
      assert Payloads(queue) == was + [old(currentRecord.data)];
    }

    method PutByte(b: Byte)
      requires Valid()
      modifies this`currentRecord, currentRecord
      ensures Valid() && Payloads(queue) == old(Payloads(queue))
      ensures currentRecord != null && (currentRecord == old(currentRecord) || fresh(currentRecord))
      ensures currentRecord.data == (if old(currentRecord) == null then [] else old(currentRecord.data)) + [b]
    {
      if currentRecord == null {
        currentRecord := new Record();
      }
      currentRecord.data := currentRecord.data + [b];
    }

    /** tnX_stream_get_record: the oldest record, positioned at its data. */
    method GetRecord() returns (record: Record)
      requires Valid() && recordCount >= 1
      requires streamType == Tn5250 ==> |queue[0].data| >= 10
      modifies this`records, this`recordCount, this`queue, queue
      ensures Valid() && record == old(queue[0]) && queue == old(queue)[1..]
      ensures record.data == old(queue[0].data)
      ensures View() == old(View()).(delivered := old(View()).delivered[1..])
      ensures record.curPos == if streamType == Tn5250 then 6 + record.data[6] as int else 0
    {
      hide Ring, Payloads;
      record := TakeFirst();
      record.curPos := if streamType == Tn5250 then 6 + record.data[6] as int else 0;
    }

    /** The head of the queue leaves it. */
    method TakeFirst() returns (record: Record)
      requires Valid() && recordCount >= 1
      modifies this`records, this`recordCount, this`queue, queue
      ensures Valid() && record == old(queue[0]) && queue == old(queue)[1..] && record !in queue
      ensures record.data == old(queue[0].data) && Payloads(queue) == old(Payloads(queue))[1..]
      ensures currentRecord != null ==> currentRecord.data == old(currentRecord.data)
    {
      hide Ring, Payloads;
      RingHead(records, queue);
      record := records;
      ghost var was := Payloads(queue);
      records := ListRemove(records, record, queue, 0);
      assert queue[..0] + queue[1..] == queue[1..];
      assert Payloads(queue[1..]) == was[1..];
      recordCount := recordCount - 1;
      queue := queue[1..];
    }
  }

  /**
   * A 3270 session from its first byte on: the input arrives in `chunks`, handle_receive is called for
   * each, and after the `i`-th call up to `takes[i]` records are taken; what is left is taken at the end.
   * The records come out in the order in which they came in, and neither chunks nor takes matter.
   */
  method ReceiveAll(chunks: seq<Bytes>, takes: seq<nat>) returns (received: seq<Bytes>)
    ensures received == Feed(START, Concat(chunks)).delivered
  {
    hide Feed, Ring, Payloads;
    var stream := new Stream(Tn3270);
    received := [];
    var i := 0;
    while i < |chunks|
      invariant i <= |chunks| && stream.Valid() && stream.streamType == Tn3270
      invariant fresh(stream) && fresh(stream.queue) && (stream.currentRecord != null ==> fresh(stream.currentRecord))
      invariant Prefixed(received, stream.View()) == FeedChunks(START, chunks[..i])
    {
      FeedPrefixed(received, stream.View(), chunks[i]);
      var taken := ReceiveChunk(stream, chunks[i], if i < |takes| then takes[i] else 0);
      assert chunks[..i + 1][..i] == chunks[..i];
      PrefixedTwice(received, taken, stream.View());
      received := received + taken;
      i := i + 1;
    }
    assert chunks[..i] == chunks;
    AnyChunks(START, chunks);
    var rest := Take(stream, stream.recordCount);
    PrefixedTwice(received, rest, stream.View());
    received := received + rest;
    assert received + [] == received;
  }

  /** One chunk, and up to `n` records. */
  method ReceiveChunk(stream: Stream, chunk: Bytes, n: nat) returns (taken: seq<Bytes>)
    requires stream.Valid() && stream.streamType == Tn3270
    modifies stream, stream.queue, stream.currentRecord
    ensures stream.Valid() && stream.streamType == Tn3270
    ensures Feed(old(stream.View()), chunk) == Prefixed(taken, stream.View())
    ensures forall i :: 0 <= i < |stream.queue| ==>
              var x := stream.queue[i];
              x in old(stream.queue) || x == old(stream.currentRecord) || fresh(x)
    ensures stream.currentRecord != null ==>
              stream.currentRecord == old(stream.currentRecord) || fresh(stream.currentRecord)
  {
    hide Feed, Ring, Payloads;
    stream.incoming := chunk;
    var _ := stream.HandleReceive();
    taken := Take(stream, n);
  }

  lemma PrefixedTwice(a: seq<Bytes>, b: seq<Bytes>, rx: Receiver)
    ensures Prefixed(a, Prefixed(b, rx)) == Prefixed(a + b, rx)
  {
    assert a + (b + rx.delivered) == a + b + rx.delivered;
  }

  /** Up to `n` records from the head of the queue. */
  method Take(stream: Stream, n: nat) returns (taken: seq<Bytes>)
    requires stream.Valid() && stream.streamType == Tn3270
    modifies stream, stream.queue
    ensures stream.Valid() && stream.streamType == Tn3270 && stream.currentRecord == old(stream.currentRecord)
    ensures forall i :: 0 <= i < |stream.queue| ==> stream.queue[i] in old(stream.queue)
    ensures old(stream.View()) == Prefixed(taken, stream.View())
    ensures n >= |old(stream.queue)| ==> stream.View().delivered == []
  {
    hide Ring, Payloads, Prefixed, Stream.View;
    taken := [];
    ghost var nodes := stream.queue;
    PrefixedNone(stream.View());
    while stream.recordCount > 0 && |taken| < n
      invariant stream.Valid() && stream.streamType == Tn3270 && stream.currentRecord == old(stream.currentRecord)
      invariant |taken| <= |nodes| && stream.queue == nodes[|taken|..]
      invariant old(stream.View()) == Prefixed(taken, stream.View())
      decreases |nodes| - |taken|
    {
      var bytes := TakeOne(stream);
      PrefixedTwice(taken, [bytes], stream.View());
      taken := taken + [bytes];
    }
    if n >= |nodes| {
      NoneLeft(stream);
    }
  }

  lemma PrefixedNone(rx: Receiver)
    ensures Prefixed([], rx) == rx
  {
    assert [] + rx.delivered == rx.delivered;
  }

  lemma NoneLeft(stream: Stream)
    requires stream.Valid() && stream.recordCount == 0
    ensures stream.View().delivered == []
  {
  }

  method TakeOne(stream: Stream) returns (bytes: Bytes)
    requires stream.Valid() && stream.streamType == Tn3270 && stream.recordCount > 0
    modifies stream, stream.queue
    ensures stream.Valid() && stream.streamType == Tn3270 && stream.currentRecord == old(stream.currentRecord)
    ensures stream.queue == old(stream.queue)[1..]
    ensures old(stream.View()) == Prefixed([bytes], stream.View())
  {
    hide Ring, Payloads;
    ghost var all := stream.View().delivered;
    var record := stream.GetRecord();
    bytes := record.data;
    assert all == [bytes] + all[1..];
  }

  // ----- sender and receiver

  /** One packet after the other, as bytes on the wire. */
  method SendAll(payloads: seq<Bytes>) returns (wire: Bytes)
    ensures wire == Wire(Sent(payloads))
  {
    hide Escaped;
    wire := [];
    var i := 0;
    while i < |payloads|
      invariant i <= |payloads| && wire == Wire(Sent(payloads[..i]))
    {
      var packet := SendPacket(payloads[i]);
      SentWire(payloads[..i], payloads[i]);
      assert payloads[..i + 1] == payloads[..i] + [payloads[i]];
      wire := wire + packet;
      i := i + 1;
    }
    assert payloads[..i] == payloads;
  }

  /**
   * From end to end: payloads are sent, `cut` says how the wire is cut into portions, and `takes` how
   * many records are taken when. All payloads arrive, in order, exactly when none of them is empty.
   */
  method SendAndReceive(payloads: seq<Bytes>, cut: Bytes -> seq<Bytes>, takes: seq<nat>) returns (received: seq<Bytes>)
    requires forall wire :: Concat(cut(wire)) == wire
    ensures received == payloads <==> [] !in payloads
  {
    hide Feed, Wire, Sent, Concat;
    var wire := SendAll(payloads);
    received := ReceiveAll(cut(wire), takes);
    SentDelivers(payloads);
  }
}
