// The loops of a file transfer: the client that sends a file, the server that stores it, and the client
// that receives one.

module AftpFile {
  import opened AftpTransfer
  import opened AsuiteRecord
  import opened Bytes

  /**
   * An open file. How much a read or a write moves is up to the system, and whether it fails; `given` is
   * all that writes were asked to write.
   */
  class OpenFile {
    var contents: Bytes
    var at: nat
    ghost var readErrors: nat
    ghost var writeErrors: nat
    ghost var given: Bytes

    ghost predicate Valid()
      reads this
    {
      at <= |contents|
    }

    constructor (contents: Bytes)
      ensures Valid() && this.contents == contents && at == 0
    {
      this.contents, at := contents, 0;
      readErrors, writeErrors, given := 0, 0, [];
    }

    /** read(2): -1, or a number of bytes that is 0 only at the end of the file. */
    method Read(buf: array<Byte>, from: nat, limit: nat) returns (n: int)
      requires Valid() && from + limit <= buf.Length && limit > 0
      modifies this`at, this`readErrors, buf
      ensures readErrors == old(readErrors) + (if n < 0 then 1 else 0)
      ensures Valid() && -1 <= n <= limit && at == old(at) + (if n < 0 then 0 else n)
      ensures n == 0 <==> n >= 0 && old(at) == |contents|
      ensures buf[..from] == old(buf[..from]) && (n >= 0 ==> buf[from..from + n] == contents[old(at)..at])
    {
      n :| -1 <= n <= limit && n <= |contents| - at && (n == 0 ==> at == |contents|) && (at == |contents| ==> n <= 0);
      if n > 0 {
        forall i | 0 <= i < n {
          buf[from + i] := contents[at + i];
        }
        at := at + n;
      }
      readErrors := readErrors + (if n < 0 then 1 else 0);
    }

    /** write(2): -1, or a number of bytes that is 0 only if there are none. */
    method Write(b: Bytes) returns (n: int)
      requires Valid()
      modifies this
      ensures writeErrors == old(writeErrors) + (if n < 0 then 1 else 0) && given == old(given) + b
      ensures readErrors == old(readErrors)
      ensures Valid() && -1 <= n <= |b| && (n == 0 ==> b == []) && at == old(at) + (if n < 0 then 0 else n)
      ensures contents == if n < 0 then old(contents) else Overwrite(old(contents), old(at), b[..n])
    {
      n :| -1 <= n <= |b| && (n == 0 ==> b == []);
      writeErrors := writeErrors + (if n < 0 then 1 else 0);
      given := given + b;
      if n >= 0 {
        contents := Overwrite(contents, at, b[..n]);
        at := at + n;
      }
    }
  }

  /** Two writes, one behind the other, are one. */
  lemma OverwriteTwice(file: Bytes, at: nat, a: Bytes, b: Bytes)
    requires at <= |file|
    ensures at + |a| <= |Overwrite(file, at, a)|
    ensures Overwrite(Overwrite(file, at, a), at + |a|, b) == Overwrite(file, at, a + b)
  {
    var once := Overwrite(file, at, a);
    assert once[..at + |a|] == file[..at] + a;
    assert Tail(once, at + |a| + |b|) == Tail(file, at + |a + b|);
  }

  /** Written so far: the first `i` bytes; and now `n` more. */
  lemma WriteMore(file: Bytes, at: nat, data: Bytes, i: nat, n: nat)
    requires at <= |file| && i + n <= |data|
    ensures at + i <= |Overwrite(file, at, data[..i])|
    ensures Overwrite(Overwrite(file, at, data[..i]), at + i, data[i..][..n]) == Overwrite(file, at, data[..i + n])
  {
    OverwriteTwice(file, at, data[..i], data[i..][..n]);
    assert data[..i] + data[i..][..n] == data[..i + n];
  }

  lemma OverwriteNothing(file: Bytes, at: nat)
    requires at <= |file|
    ensures Overwrite(file, at, []) == file
  {
  }

  // ----- the client sends

  /** What the records of a transfer look like between the one that starts it and the one that ends it. */
  predicate DataMessage(message: Bytes) {
    2 < |message| <= MAX_BUFFER_SIZE && message[..2] == [0, 14]
  }

  predicate DataMessages(wire: seq<Bytes>) {
    forall i :: 0 <= i < |wire| ==> DataMessage(wire[i])
  }

  lemma DataSnoc(wire: seq<Bytes>, message: Bytes, payload: Bytes)
    requires DataMessages(wire) && DataMessage(message) && message[2..] == payload
    ensures DataMessages(wire + [message]) && Carried(wire + [message]) == Carried(wire) + payload
  {
    assert message[1] == message[..2][1];
    CarriedSnoc(wire, message);
  }

  /** The next bytes of the file, behind the type of the record. The position takes the -1 of a failed read as it is. */
  method ReadChunk(source: OpenFile, record: Record) returns (bytesRead: int)
    requires source.Valid() && record.buffer.Length == MAX_BUFFER_SIZE && record.position == 2
    modifies source`at, source`readErrors, record`position, record.buffer
    ensures source.Valid() && -1 <= bytesRead <= MAX_BUFFER_SIZE - 2 && record.position == 2 + bytesRead
    ensures source.at == old(source.at) + (if bytesRead < 0 then 0 else bytesRead)
    ensures record.buffer[..2] == old(record.buffer[..2])
    ensures bytesRead > 0 ==> record.buffer[2..record.position] == source.contents[old(source.at)..source.at]
    ensures bytesRead == 0 ==> source.at == |source.contents|
    ensures source.readErrors == old(source.readErrors) + (if bytesRead < 0 then 1 else 0)
  {
    bytesRead := source.Read(record.buffer, record.position, MAX_BUFFER_SIZE - record.position);
    record.position := record.position + bytesRead;
  }

  /** One data record onto the channel, and the record cleared for the next one; its type stays. */
  method SendChunk(record: Record, ghost data: seq<Bytes>) returns (message: Bytes)
    requires record.buffer.Length == MAX_BUFFER_SIZE && 2 < record.position <= MAX_BUFFER_SIZE
    requires record.buffer[..2] == [0, AFTP_FILE_DATA] && DataMessages(data)
    modifies record
    ensures message == record.buffer[..old(record.position)] && record.position == 2
    ensures DataMessages(data + [message])
    ensures Carried(data + [message]) == Carried(data) + record.buffer[2..old(record.position)]
  {
    message := record.buffer[..record.position];
    DataSnoc(data, message, record.buffer[2..record.position]);
    record.Clear();
  }

  lemma Adjoin(s: Bytes, i: nat, j: nat, k: nat)
    requires i <= j <= k <= |s|
    ensures s[i..j] + s[j..k] == s[i..k]
  {
  }

  /** aftp_send_file: all the data records. What is carried is what was read. */
  method SendData(source: OpenFile, record: Record) returns (data: seq<Bytes>, failed: bool)
    requires source.Valid() && record.buffer.Length == MAX_BUFFER_SIZE
    modifies source`at, source`readErrors, record, record.buffer
    ensures source.Valid() && old(source.at) <= source.at
    ensures DataMessages(data) && Carried(data) == source.contents[old(source.at)..source.at]
    ensures !failed ==> source.at == |source.contents|
    ensures source.readErrors == old(source.readErrors) + (if failed then 1 else 0)
  {
    hide Carried, DataMessages;
    record.Clear();
    record.SetType(AFTP_FILE_DATA);
    data := [];
    NoData();
    ghost var start, done := source.at, source.at;
    var bytesRead := ReadChunk(source, record);
    while bytesRead > 0
      invariant source.Valid() && start <= done <= source.at
      invariant source.at == done + (if bytesRead < 0 then 0 else bytesRead)
      invariant -1 <= bytesRead <= MAX_BUFFER_SIZE - 2 && record.position == 2 + bytesRead
      invariant record.buffer[..2] == [0, AFTP_FILE_DATA] && DataMessages(data)
      invariant Carried(data) == source.contents[start..done]
      invariant bytesRead > 0 ==> record.buffer[2..record.position] == source.contents[done..source.at]
      invariant bytesRead == 0 ==> source.at == |source.contents|
      invariant source.readErrors == old(source.readErrors) + (if bytesRead < 0 then 1 else 0)
      decreases |source.contents| - source.at, bytesRead
    {
      var message := SendChunk(record, data);
      Adjoin(source.contents, start, done, source.at);
      data := data + [message];
      done := source.at;
      bytesRead := ReadChunk(source, record);
    }
    failed := bytesRead < 0;
  }

  lemma NoData()
    ensures DataMessages([]) && Carried([]) == []
  {
  }

  /** aftp_send_file: the record that starts the transfer, the data, and the record that ends it. */
  method SendFile(source: OpenFile, record: Record) returns (wire: seq<Bytes>, failed: bool)
    requires source.Valid() && record.Valid() && record.buffer[..2] == [0, 12]
    modifies source`at, source`readErrors, record, record.buffer
    ensures source.Valid() && old(source.at) <= source.at && |wire| >= 2
    ensures wire[0] == old(record.Sent()) && wire[|wire| - 1] == [0, 15]
    ensures DataMessages(wire[1..|wire| - 1])
    ensures Carried(wire[1..|wire| - 1]) == source.contents[old(source.at)..source.at]
    ensures !failed ==> source.at == |source.contents|
    ensures source.readErrors == old(source.readErrors) + (if failed then 1 else 0)
  {
    hide Carried, DataMessages;
    var request := record.buffer[..record.position];
    var data;
    data, failed := SendData(source, record);
    record.SetType(AFTP_FILE_COMPLETE);
    record.Clear();
    wire := [request] + data + [record.buffer[..record.position]];
    assert wire[1..|wire| - 1] == data;
  }

  // ----- the server stores

  /** a_file_data: all of the data is written, in as many writes as it takes, or up to the write that fails. */
  method FileData(record: Record, dest: OpenFile) returns (failed: bool)
    requires 2 <= record.position <= record.buffer.Length && dest.Valid()
    modifies dest
    ensures dest.Valid() && old(dest.at) <= dest.at <= old(dest.at) + record.position - 2
    ensures dest.contents == Overwrite(old(dest.contents), old(dest.at), record.buffer[2..2 + dest.at - old(dest.at)])
    ensures failed || dest.at == old(dest.at) + record.position - 2
    ensures dest.writeErrors == old(dest.writeErrors) + (if failed then 1 else 0)
  {
    hide Overwrite;
    ghost var data := record.buffer[2..record.position];
    var curpos := 2;
    failed := false;
    OverwriteNothing(dest.contents, dest.at);
    while true
      invariant !failed && 2 <= curpos <= record.position && dest.Valid() && dest.at == old(dest.at) + curpos - 2
      invariant curpos == 2 || curpos < record.position
      invariant dest.writeErrors == old(dest.writeErrors)
      invariant dest.contents == Overwrite(old(dest.contents), old(dest.at), data[..curpos - 2])
      decreases record.position - curpos
    {
      assert record.buffer[curpos..record.position] == data[curpos - 2..];
      var n := dest.Write(record.buffer[curpos..record.position]);
      if n < 0 {
        failed := true;
        break;
      }
      WriteMore(old(dest.contents), old(dest.at), data, curpos - 2, n);
      curpos := curpos + n;
      if curpos >= record.position {
        break;
      }
    }
    assert data[..curpos - 2] == record.buffer[2..curpos];
  }

  /** What a server sees of one transfer. */
  predicate TransferMessages(wire: seq<Bytes>) {
    && wire != [] && (forall i :: 0 <= i < |wire| ==> 2 <= |wire[i]| <= MAX_BUFFER_SIZE)
    && wire[0][1] == 12
    && forall i :: 0 < i < |wire| ==> wire[i][1] == 14 || wire[i][1] == 15
  }

  /** The data carried by one record more. */
  lemma CarriedMore(wire: seq<Bytes>, i: nat)
    requires i < |wire|
    ensures Carried(wire[..i + 1]) == Carried(wire[..i]) + Payload(wire[i])
    ensures Payload(wire[i]) == [] ==> Carried(wire[..i + 1]) == Carried(wire[..i])
  {
    assert wire[..i + 1] == wire[..i] + [wire[i]];
    CarriedSnoc(wire[..i], wire[i]);
  }

  /** What was written of each record, in how many of them it was not everything. */
  function Unfinished(parts: seq<Bytes>, wire: seq<Bytes>): nat
    requires |parts| <= |wire|
  {
    if parts == [] then 0
    else
      var n := |parts| - 1;
      Unfinished(parts[..n], wire) + if parts[n] == Payload(wire[n]) then 0 else 1
  }

  ghost predicate Parts(parts: seq<Bytes>, wire: seq<Bytes>) {
    |parts| <= |wire| && forall i :: 0 <= i < |parts| ==> parts[i] <= Payload(wire[i])
  }

  function Joined(parts: seq<Bytes>): Bytes {
    if parts == [] then [] else Joined(parts[..|parts| - 1]) + parts[|parts| - 1]
  }

  lemma PartsSnoc(parts: seq<Bytes>, wire: seq<Bytes>, part: Bytes)
    requires Parts(parts, wire) && |parts| < |wire| && part <= Payload(wire[|parts|])
    ensures Parts(parts + [part], wire) && Joined(parts + [part]) == Joined(parts) + part
    ensures Unfinished(parts + [part], wire) ==
            Unfinished(parts, wire) + if part == Payload(wire[|parts|]) then 0 else 1
  {
    hide Payload;
    LastPart(parts, part);
    forall i | 0 <= i < |parts| + 1
      ensures (parts + [part])[i] <= Payload(wire[i])
    {
    }
  }

  lemma LastPart(parts: seq<Bytes>, part: Bytes)
    ensures (parts + [part])[..|parts|] == parts && (parts + [part])[|parts|] == part
  {
  }

  lemma {:induction false} AllFinished(parts: seq<Bytes>, wire: seq<Bytes>)
    requires Parts(parts, wire) && Unfinished(parts, wire) == 0
    ensures Joined(parts) == Carried(wire[..|parts|])
  {
    if parts == [] {
      NoneCarried(wire);
    } else {
      AllFinished(parts[..|parts| - 1], wire);
      CarriedMore(wire, |parts| - 1);
    }
  }

  /**
   * The server's loop over the records it gets, up to FILE_COMPLETE. The destination holds, from its start
   * on, what was written of each record, and then what it held before. That is all the records carried,
   * but for the rest of a record in which a write failed; with the next one the server goes on.
   */
  method Serve(wire: seq<Bytes>, record: Record, dest: OpenFile)
    returns (handled: nat, complete: bool, failed: bool, ghost parts: seq<Bytes>)
    requires TransferMessages(wire) && record.buffer.Length == MAX_BUFFER_SIZE
    modifies record, record.buffer, dest
    ensures handled <= |wire| && (complete <==> 0 < handled && wire[handled - 1][1] == 15)
    ensures handled < |wire| ==> complete
    ensures |parts| == handled && Parts(parts, wire) && dest.contents == Overwrite(old(dest.contents), 0, Joined(parts))
    ensures Unfinished(parts, wire) <= dest.writeErrors - old(dest.writeErrors)
    ensures failed <==> dest.writeErrors > old(dest.writeErrors)
    ensures !failed ==> dest.contents == Overwrite(old(dest.contents), 0, Carried(wire[..handled]))
  {
    hide Carried, Overwrite, Payload, Joined, Unfinished, Parts;
    FirstPart(wire);
    handled, complete, failed, parts := 1, false, false, [];
    record.Load(wire[0]);
    dest.at := 0;
    parts := [[]];
    OverwriteNothing(dest.contents, 0);
    while handled < |wire| && !complete
      invariant 1 <= handled <= |wire| && |parts| == handled && Holds(dest, old(dest.contents), parts)
      invariant complete <==> wire[handled - 1][1] == 15
      invariant Parts(parts, wire) && Unfinished(parts, wire) <= dest.writeErrors - old(dest.writeErrors)
      invariant failed <==> dest.writeErrors > old(dest.writeErrors)
    {
      ghost var part;
      var f;
      f, part := HandleData(wire, handled, record, dest, old(dest.contents), parts);
      PartsSnoc(parts, wire, part);
      parts := parts + [part];
      failed := failed || f;
      var code := record.GetMajorCode();
      complete := code == AFTP_FILE_COMPLETE;
      handled := handled + 1;
    }
    if !failed {
      AllFinished(parts, wire);
    }
  }

  lemma FirstPart(wire: seq<Bytes>)
    requires TransferMessages(wire)
    ensures Parts([[]], wire) && Joined([[]]) == [] && Unfinished([[]], wire) == 0
  {
  }

  /** The file as it is when `parts` have been written over `init`, one behind the other. */
  ghost predicate Holds(dest: OpenFile, init: Bytes, parts: seq<Bytes>)
    reads dest
  {
    dest.at == |Joined(parts)| && dest.contents == Overwrite(init, 0, Joined(parts)) && dest.Valid()
  }

  /** One record behind the first. */
  method HandleData(wire: seq<Bytes>, i: nat, record: Record, dest: OpenFile,
                    ghost init: Bytes, ghost parts: seq<Bytes>)
    returns (failed: bool, ghost part: Bytes)
    requires TransferMessages(wire) && 0 < i < |wire| && record.buffer.Length == MAX_BUFFER_SIZE
    requires Holds(dest, init, parts)
    modifies record`position, record.buffer, dest
    ensures record.buffer[1] == wire[i][1] && Holds(dest, init, parts + [part])
    ensures part <= Payload(wire[i]) && (failed || part == Payload(wire[i]))
    ensures dest.writeErrors == old(dest.writeErrors) + (if failed then 1 else 0)
  {
    hide Carried, Overwrite, TransferMessages;
    MessageAt(wire, i);
    record.Load(wire[i]);
    assert record.buffer[1] == record.buffer[..record.position][1];
    var code := record.GetMajorCode();
    failed, part := false, [];
    if code == AFTP_FILE_DATA {
      assert record.buffer[2..record.position] == record.buffer[..record.position][2..] == Payload(wire[i]);
      failed := FileData(record, dest);
      part := record.buffer[2..2 + dest.at - old(dest.at)];
      assert part == Payload(wire[i])[..|part|];
    }
    OverwriteNothing(dest.contents, old(dest.at));
    OverwriteTwice(init, 0, Joined(parts), part);
    assert (parts + [part])[..|parts|] == parts;
  }

  lemma MessageAt(wire: seq<Bytes>, i: nat)
    requires TransferMessages(wire) && 0 < i < |wire|
    ensures 2 <= |wire[i]| <= MAX_BUFFER_SIZE
    ensures wire[i][1] == AFTP_FILE_DATA || wire[i][1] == AFTP_FILE_COMPLETE
  {
  }

  // ----- the client receives

  /**
   * The loop of aftp_receive_file. It writes every data record once and does not look at how much was
   * written: `lost` bytes are missing when it ends.
   */
  method ReceiveFile(wire: seq<Bytes>, record: Record, dest: OpenFile)
    returns (handled: nat, complete: bool, ghost lost: nat)
    requires record.buffer.Length == MAX_BUFFER_SIZE && dest.Valid()
    requires forall i :: 0 <= i < |wire| ==> 2 <= |wire[i]| <= MAX_BUFFER_SIZE
    modifies record, record.buffer, dest
    ensures handled <= |wire| && (complete <==> 0 < handled && wire[handled - 1][1] == 15)
    ensures handled < |wire| ==> complete
    ensures dest.at + lost == old(dest.at) + |Carried(wire[..handled])|
    ensures |dest.contents| == if dest.at <= |old(dest.contents)| then |old(dest.contents)| else dest.at
    ensures lost == 0 ==> dest.contents == Overwrite(old(dest.contents), old(dest.at), Carried(wire[..handled]))
    ensures dest.given == old(dest.given) + Carried(wire[..handled])
  {
    hide Carried, Overwrite;
    handled, complete, lost := 0, false, 0;
    NoneCarried(wire);
    OverwriteNothing(dest.contents, dest.at);
    while handled < |wire| && !complete
      invariant handled <= |wire| && dest.Valid()
      invariant complete <==> 0 < handled && wire[handled - 1][1] == AFTP_FILE_COMPLETE
      invariant dest.at + lost == old(dest.at) + |Carried(wire[..handled])|
      invariant |dest.contents| == if dest.at <= |old(dest.contents)| then |old(dest.contents)| else dest.at
      invariant lost == 0 ==> dest.contents == Overwrite(old(dest.contents), old(dest.at), Carried(wire[..handled]))
      invariant dest.given == old(dest.given) + Carried(wire[..handled])
    {
      CarriedMore(wire, handled);
      ghost var missing := TakeData(wire, handled, record, dest, old(dest.contents), old(dest.at), lost);
      lost := lost + missing;
      var code := record.GetMajorCode();
      complete := code == AFTP_FILE_COMPLETE;
      handled := handled + 1;
    }
  }

  lemma NoneCarried(wire: seq<Bytes>)
    ensures Carried(wire[..0]) == []
  {
  }

  /** One record, and how much of its data one write leaves out. */
  method TakeData(wire: seq<Bytes>, i: nat, record: Record, dest: OpenFile,
                  ghost init: Bytes, ghost from: nat, ghost lost: nat)
    returns (ghost missing: nat)
    requires i < |wire| && record.buffer.Length == MAX_BUFFER_SIZE && 2 <= |wire[i]| <= MAX_BUFFER_SIZE
    requires from <= |init| && dest.Valid() && dest.at + lost == from + |Carried(wire[..i])|
    requires lost == 0 ==> dest.contents == Overwrite(init, from, Carried(wire[..i]))
    modifies record`position, record.buffer, dest
    ensures dest.Valid() && record.buffer[1] == wire[i][1]
    ensures dest.at + lost + missing == from + |Carried(wire[..i + 1])|
    ensures old(dest.at) <= dest.at && dest.given == old(dest.given) + Payload(wire[i])
    ensures |dest.contents| == if dest.at <= |old(dest.contents)| then |old(dest.contents)| else dest.at
    ensures lost + missing == 0 ==> dest.contents == Overwrite(init, from, Carried(wire[..i + 1]))
  {
    hide Carried, Overwrite;
    record.Load(wire[i]);
    assert record.buffer[1] == record.buffer[..record.position][1];
    CarriedMore(wire, i);
    OverwriteTwice(init, from, Carried(wire[..i]), Payload(wire[i]));
    var code := record.GetMajorCode();
    missing := 0;
    if code == AFTP_FILE_DATA {
      ghost var data := Payload(wire[i]);
      assert record.buffer[2..record.position] == record.buffer[..record.position][2..] == data;
      var n := dest.Write(record.buffer[2..record.position]);
      if n >= 0 {
        OverwriteLength(old(dest.contents), old(dest.at), data[..n]);
      }
      missing := |data| - (if n < 0 then 0 else n);
      assert data[..|data|] == data;
    }
  }

  // ----- both sides, one after the other

  /** All the records of a transfer carry what its data records carry. */
  lemma WholeWire(wire: seq<Bytes>)
    requires |wire| >= 2 && |wire[0]| >= 2 && wire[0][1] == AFTP_SEND_FILE
    requires wire[|wire| - 1] == [0, AFTP_FILE_COMPLETE]
    ensures Carried(wire) == Carried(wire[1..|wire| - 1])
  {
    var data := wire[1..|wire| - 1];
    assert wire[1..] == data + [[0, AFTP_FILE_COMPLETE]];
    CarriedSnoc(data, [0, AFTP_FILE_COMPLETE]);
  }

  lemma SentMessages(wire: seq<Bytes>)
    requires |wire| >= 2 && 2 <= |wire[0]| <= MAX_BUFFER_SIZE && wire[0][1] == AFTP_SEND_FILE
    requires wire[|wire| - 1] == [0, AFTP_FILE_COMPLETE] && DataMessages(wire[1..|wire| - 1])
    ensures TransferMessages(wire)
    ensures forall i :: 0 <= i < |wire| && wire[i][1] == AFTP_FILE_COMPLETE ==> i == |wire| - 1
  {
    var data := wire[1..|wire| - 1];
    forall i | 0 < i < |wire| - 1
      ensures 2 <= |wire[i]| <= MAX_BUFFER_SIZE && wire[i][1] == AFTP_FILE_DATA
    {
      assert DataMessage(data[i - 1]);
      assert wire[i][1] == wire[i][..2][1];
    }
  }

  /** A whole put. What was in a longer destination stays behind the file. */
  method PutFile(source: OpenFile, client: Record, server: Record, dest: OpenFile)
    returns (readFailed: bool, writeFailed: bool)
    requires source != dest && client != server && client.buffer != server.buffer
    requires source.Valid() && source.at == 0
    requires client.Valid() && client.buffer[..2] == [0, 12] && server.buffer.Length == MAX_BUFFER_SIZE
    modifies source`at, source`readErrors, client, client.buffer, server, server.buffer, dest
    ensures readFailed <==> source.readErrors > old(source.readErrors)
    ensures writeFailed <==> dest.writeErrors > old(dest.writeErrors)
    ensures source.contents == old(source.contents)
    ensures !readFailed && !writeFailed ==>
              dest.contents == source.contents + Tail(old(dest.contents), |source.contents|)
  {
    hide Carried, DataMessages, TransferMessages;
    assert client.Sent()[1] == client.buffer[..2][1];
    var wire;
    wire, readFailed := SendFile(source, client);
    SentMessages(wire);
    WholeWire(wire);
    var handled, complete;
    ghost var parts;
    handled, complete, writeFailed, parts := Serve(wire, server, dest);
    assert wire[..|wire|] == wire;
  }

  /** A whole get: `lost` bytes are what its writes left out. */
  method GetFile(source: OpenFile, server: Record, client: Record, dest: OpenFile)
    returns (readFailed: bool, ghost lost: nat)
    requires source != dest && client != server && client.buffer != server.buffer
    requires source.Valid() && source.at == 0 && dest.at == 0
    requires server.Valid() && server.buffer[..2] == [0, 12] && client.buffer.Length == MAX_BUFFER_SIZE
    modifies source`at, source`readErrors, server, server.buffer, client, client.buffer, dest
    ensures readFailed <==> source.readErrors > old(source.readErrors)
    ensures !readFailed ==> dest.given == old(dest.given) + source.contents
    ensures source.contents == old(source.contents)
    ensures !readFailed ==> dest.at + lost == |source.contents|
    ensures !readFailed && lost == 0 ==>
              dest.contents == source.contents + Tail(old(dest.contents), |source.contents|)
    ensures !readFailed && (|old(dest.contents)| < |source.contents| || old(dest.contents) == []) ==>
              (dest.contents == source.contents <==> lost == 0)
  {
    hide Carried, DataMessages, TransferMessages;
    assert server.Sent()[1] == server.buffer[..2][1];
    var wire;
    wire, readFailed := SendFile(source, server);
    SentMessages(wire);
    MessageSizes(wire);
    WholeWire(wire);
    var handled, complete;
    handled, complete, lost := ReceiveFile(wire, client, dest);
    assert wire[..|wire|] == wire;
  }

  lemma MessageSizes(wire: seq<Bytes>)
    requires TransferMessages(wire)
    ensures forall i :: 0 <= i < |wire| ==> 2 <= |wire[i]| <= MAX_BUFFER_SIZE
  {
  }
}
