// An AFTP file transfer: the sending side, a channel that keeps records whole
// and in order, and the receiving side, in any interleaving.

module AftpTransfer {
  import opened AsuiteRecord
  import opened Bytes

  const AFTP_SEND_FILE: Byte := 12
  const AFTP_FILE_DATA: Byte := 14
  const AFTP_FILE_COMPLETE: Byte := 15

  /** On a put the server writes until all of a record is written; on a get the client writes once. */
  datatype Direction = Put | Get

  datatype Place = Opening | Reading | Sending | Closing | Finished

  /** Where the sending side is in its code, how far it has read, and what is in its record buffer. */
  datatype Sender = Sender(place: Place, off: nat, chunk: Bytes, failed: bool)

  /**
   * The destination file with its write position, whether the record that starts the transfer has been
   * handled, what is left to write of the record being handled, how many bytes writes have left out,
   * whether a write failed, and whether FILE_COMPLETE has been handled.
   */
  datatype Receiver = Receiver(begun: bool, file: Bytes, at: nat, pending: Bytes, lost: nat,
                               refused: bool, complete: bool)

  datatype State = State(sender: Sender, wire: seq<Bytes>, receiver: Receiver)

  function Message(code: Byte, payload: Bytes): Bytes {
    [0, code] + payload
  }

  /** A write at offset `at` of a file, which may reach beyond its end. */
  function Overwrite(file: Bytes, at: nat, b: Bytes): Bytes
    requires at <= |file|
  {
    file[..at] + b + Tail(file, at + |b|)
  }

  function Tail(file: Bytes, at: nat): Bytes {
    if at <= |file| then file[at..] else []
  }

  datatype Action =
    | Open(names: Bytes)     // send AFTP_SEND_FILE
    | Read(n: nat)           // read up to MAX_BUFFER_SIZE - 2 bytes, 0 only at the end of the file
    | ReadFails              // read returns -1, and the loop ends as at the end of the file
    | Send                   // send AFTP_FILE_DATA
    | Close                  // send AFTP_FILE_COMPLETE
    | Receive                // take the next record off the channel and dispatch on its major code
    | Write(n: nat)          // write some of the data of the record, fewer bytes than asked for or even none
    | WriteFails             // write returns -1

  predicate Enabled(src: Bytes, s: State, a: Action) {
    match a
    case Open(_) => s.sender.place == Opening
    case Read(n) =>
      && s.sender.place == Reading && s.sender.off + n <= |src| && n <= MAX_BUFFER_SIZE - 2
      && (n == 0 <==> s.sender.off == |src|)
    case ReadFails => s.sender.place == Reading
    case Send => s.sender.place == Sending
    case Close => s.sender.place == Closing
    case Receive => s.wire != [] && s.receiver.pending == [] && !s.receiver.complete
    case Write(n) => s.receiver.pending != [] && n <= |s.receiver.pending| && s.receiver.at <= |s.receiver.file|
    case WriteFails => s.receiver.pending != []
  }

  /** The server opens the destination, without emptying it, when the transfer starts; the client did before. */
  function Dispatch(dir: Direction, r: Receiver, message: Bytes): Receiver {
    if |message| < 2 then r
    else if message[1] == AFTP_SEND_FILE then r.(begun := true, at := if dir == Put then 0 else r.at)
    else if message[1] == AFTP_FILE_DATA then r.(pending := message[2..])
    else if message[1] == AFTP_FILE_COMPLETE then r.(complete := true)
    else r
  }

  function Next(dir: Direction, src: Bytes, s: State, a: Action): State
    requires Enabled(src, s, a)
  {
    var t, r := s.sender, s.receiver;
    match a
    case Open(names) => s.(sender := t.(place := Reading), wire := s.wire + [Message(AFTP_SEND_FILE, names)])
    case Read(n) =>
      s.(sender := t.(place := if n > 0 then Sending else Closing, off := t.off + n, chunk := src[t.off..t.off + n]))
    case ReadFails => s.(sender := t.(place := Closing, failed := true))
    case Send => s.(sender := t.(place := Reading, chunk := []), wire := s.wire + [Message(AFTP_FILE_DATA, t.chunk)])
    case Close => s.(sender := t.(place := Finished), wire := s.wire + [Message(AFTP_FILE_COMPLETE, [])])
    case Receive => s.(wire := s.wire[1..], receiver := Dispatch(dir, r, s.wire[0]))
    case Write(n) => s.(receiver := Written(dir, r, n))
    case WriteFails => s.(receiver := r.(pending := [], lost := r.lost + |r.pending|, refused := true))
  }

  /** The server tries again with the rest; the client takes no notice of how much was written. */
  function Written(dir: Direction, r: Receiver, n: nat): Receiver
    requires n <= |r.pending| && r.at <= |r.file|
  {
    var r' := r.(file := Overwrite(r.file, r.at, r.pending[..n]), at := r.at + n);
    if dir == Put then r'.(pending := r.pending[n..]) else r'.(pending := [], lost := r.lost + |r.pending| - n)
  }

  ghost predicate Steps(dir: Direction, src: Bytes, s: State, s': State) {
    exists a :: Enabled(src, s, a) && s' == Next(dir, src, s, a)
  }

  /** A transfer of `src` to a destination that held `init`. */
  function Initial(init: Bytes): State {
    State(Sender(Opening, 0, [], false), [], Receiver(false, init, 0, [], 0, false, false))
  }

  ghost predicate IsRun(dir: Direction, src: Bytes, init: Bytes, run: seq<State>) {
    && run != [] && run[0] == Initial(init)
    && forall k :: 0 < k < |run| ==> Steps(dir, src, run[k - 1], run[k])
  }

  // ----- what every step keeps

  function Payload(message: Bytes): Bytes {
    if |message| >= 2 && message[1] == AFTP_FILE_DATA then message[2..] else []
  }

  function Carried(wire: seq<Bytes>): Bytes {
    if wire == [] then [] else Payload(wire[0]) + Carried(wire[1..])
  }

  lemma {:induction false} CarriedSnoc(wire: seq<Bytes>, m: Bytes)
    ensures Carried(wire + [m]) == Carried(wire) + Payload(m)
  {
    if wire == [] {
      assert (wire + [m])[1..] == [];
    } else {
      assert (wire + [m])[1..] == wire[1..] + [m];
      CarriedSnoc(wire[1..], m);
    }
  }

  /** The order of the records on the channel, the places that go with it, and that a record fits its buffer. */
  ghost predicate Ordered(s: State) {
    && (forall i :: 0 <= i < |s.wire| ==> |s.wire[i]| >= 2)
    && (forall i :: 0 <= i < |s.wire| ==> (s.wire[i][1] == AFTP_SEND_FILE <==> i == 0 && !s.receiver.begun))
    && (forall i :: 0 <= i < |s.wire| ==>
          (s.wire[i][1] == AFTP_FILE_COMPLETE <==> i == |s.wire| - 1 && s.sender.place == Finished))
    && (forall i :: 0 <= i < |s.wire| && s.wire[i][1] == 14 ==> 2 < |s.wire[i]| <= 32763)
    && (s.sender.place == Opening ==> s.wire == [] && !s.receiver.begun)
    && (s.sender.place != Opening && !s.receiver.begun ==> s.wire != [])
    && (s.sender.place == Finished ==> (s.wire == [] <==> s.receiver.complete))
    && (s.receiver.complete ==> s.sender.place == Finished && s.receiver.pending == [])
    && (!s.receiver.begun ==> s.receiver.at == 0 && s.receiver.pending == [])
    && (s.sender.chunk != [] <==> s.sender.place == Sending) && |s.sender.chunk| <= 32761
  }

  /** What has been read and is not in the file yet. */
  function OnTheWay(s: State): Bytes {
    s.receiver.pending + Carried(s.wire) + s.sender.chunk
  }

  /** Every byte read so far is written, lost, or on its way. */
  ghost predicate Conserved(dir: Direction, src: Bytes, init: Bytes, s: State) {
    var t, r := s.sender, s.receiver;
    && t.off <= |src| && r.at + r.lost + |OnTheWay(s)| == t.off
    && (dir == Put && !r.refused ==> r.lost == 0)
    && |r.file| == (if r.at <= |init| then |init| else r.at)
    && (r.lost == 0 ==> r.file == src[..r.at] + Tail(init, r.at) && OnTheWay(s) == src[r.at..t.off])
    && ((t.place == Closing || t.place == Finished) && !t.failed ==> t.off == |src|)
  }

  lemma SendingOrdered(dir: Direction, src: Bytes, s: State, a: Action)
    requires Enabled(src, s, a) && Ordered(s) && !a.Receive?
    ensures Ordered(Next(dir, src, s, a))
  {
  }

  lemma ReceivingOrdered(dir: Direction, src: Bytes, s: State)
    requires Enabled(src, s, Receive) && Ordered(s)
    ensures Ordered(Next(dir, src, s, Receive))
  {
    var s' := Next(dir, src, s, Receive);
    assert forall i :: 0 <= i < |s'.wire| ==> s'.wire[i] == s.wire[i + 1];
  }

  lemma ReadConserves(dir: Direction, src: Bytes, init: Bytes, s: State, a: Action)
    requires Enabled(src, s, a) && Ordered(s) && Conserved(dir, src, init, s) && (a.Read? || a.ReadFails?)
    ensures Conserved(dir, src, init, Next(dir, src, s, a))
  {
    if a.Read? {
      var s' := Next(dir, src, s, a);
      assert OnTheWay(s') == OnTheWay(s) + src[s.sender.off..s'.sender.off];
    }
  }

  /** What is sent stays on its way. */
  lemma SendKeepsWay(dir: Direction, src: Bytes, s: State, a: Action)
    requires Enabled(src, s, a) && (s.sender.chunk != [] ==> a.Send?) && (a.Open? || a.Send? || a.Close?)
    ensures OnTheWay(Next(dir, src, s, a)) == OnTheWay(s)
  {
    var s' := Next(dir, src, s, a);
    var m := s'.wire[|s.wire|];
    assert s'.wire == s.wire + [m];
    CarriedSnoc(s.wire, m);
    assert Payload(m) == s.sender.chunk && s'.sender.chunk == [];
    hide Carried, Payload;
    Adjoined(s.receiver.pending, Carried(s.wire), s.sender.chunk);
  }

  lemma Adjoined(a: Bytes, b: Bytes, c: Bytes)
    ensures a + (b + c) + [] == a + b + c
  {
  }

  lemma SendConserves(dir: Direction, src: Bytes, init: Bytes, s: State, a: Action)
    requires Enabled(src, s, a) && Ordered(s) && Conserved(dir, src, init, s) && (a.Open? || a.Send? || a.Close?)
    ensures Conserved(dir, src, init, Next(dir, src, s, a))
  {
    hide OnTheWay;
    NoChunk(src, s, a);
    SendKeepsWay(dir, src, s, a);
  }

  lemma NoChunk(src: Bytes, s: State, a: Action)
    requires Enabled(src, s, a) && Ordered(s) && (a.Open? || a.Send? || a.Close?)
    ensures s.sender.chunk != [] ==> a.Send?
  {
  }

  lemma ReceiveConserves(dir: Direction, src: Bytes, init: Bytes, s: State)
    requires Enabled(src, s, Receive) && Ordered(s) && Conserved(dir, src, init, s)
    ensures Conserved(dir, src, init, Next(dir, src, s, Receive))
  {
    var s' := Next(dir, src, s, Receive);
    assert s'.receiver.pending == Payload(s.wire[0]);
    assert OnTheWay(s') == OnTheWay(s);
  }

  /** A write of `n` bytes moves them from what is on its way to the file. */
  lemma OverwriteExtends(src: Bytes, init: Bytes, file: Bytes, at: nat, b: Bytes)
    requires at + |b| <= |src| && b == src[at..at + |b|] && file == src[..at] + Tail(init, at)
    ensures Overwrite(file, at, b) == src[..at + |b|] + Tail(init, at + |b|)
  {
    assert src[..at + |b|] == src[..at] + b;
    assert file[..at] == src[..at];
    assert Tail(file, at + |b|) == Tail(init, at + |b|);
  }

  lemma Cut(src: Bytes, from: nat, to: nat, w: Bytes, rest: Bytes)
    requires from <= to <= |src| && src[from..to] == w + rest
    ensures src[from..from + |w|] == w && src[from + |w|..to] == rest
  {
    var t := w + rest;
    assert w == t[..|w|] && rest == t[|w|..];
  }

  lemma OverwriteLength(file: Bytes, at: nat, b: Bytes)
    requires at <= |file|
    ensures |Overwrite(file, at, b)| == if at + |b| <= |file| then |file| else at + |b|
  {
  }

  /** What a write moves, and what it loses, is no longer on its way. */
  lemma WriteWay(dir: Direction, src: Bytes, s: State, n: nat)
    requires Enabled(src, s, Write(n))
    ensures var s' := Next(dir, src, s, Write(n));
            && |OnTheWay(s)| == n + (s'.receiver.lost - s.receiver.lost) + |OnTheWay(s')|
            && (s'.receiver.lost == s.receiver.lost ==> OnTheWay(s) == s.receiver.pending[..n] + OnTheWay(s'))
  {
    hide Carried, Overwrite;
  }

  lemma WriteConserves(dir: Direction, src: Bytes, init: Bytes, s: State, n: nat)
    requires Enabled(src, s, Write(n)) && Ordered(s) && Conserved(dir, src, init, s)
    ensures Conserved(dir, src, init, Next(dir, src, s, Write(n)))
  {
    hide OnTheWay, Overwrite, Tail, Ordered;
    NotDone(s);
    WriteWay(dir, src, s, n);
    var s', r := Next(dir, src, s, Write(n)), s.receiver;
    OverwriteLength(r.file, r.at, r.pending[..n]);
    if s'.receiver.lost == 0 {
      Cut(src, r.at, s.sender.off, r.pending[..n], OnTheWay(s'));
      OverwriteExtends(src, init, r.file, r.at, r.pending[..n]);
    }
  }

  lemma NotDone(s: State)
    requires Ordered(s) && s.receiver.pending != []
    ensures !s.receiver.complete
  {
  }

  lemma FailConserves(dir: Direction, src: Bytes, init: Bytes, s: State)
    requires Enabled(src, s, WriteFails) && Conserved(dir, src, init, s)
    ensures Conserved(dir, src, init, Next(dir, src, s, WriteFails))
  {
    hide Carried;
  }

  lemma StepKeeps(dir: Direction, src: Bytes, init: Bytes, s: State, s': State)
    requires Steps(dir, src, s, s') && Ordered(s) && Conserved(dir, src, init, s)
    ensures Ordered(s') && Conserved(dir, src, init, s')
  {
    hide Ordered, Conserved, Next;
    var a :| Enabled(src, s, a) && s' == Next(dir, src, s, a);
    match a
    case Open(_) => SendingOrdered(dir, src, s, a); SendConserves(dir, src, init, s, a);
    case Read(_) => SendingOrdered(dir, src, s, a); ReadConserves(dir, src, init, s, a);
    case ReadFails => SendingOrdered(dir, src, s, a); ReadConserves(dir, src, init, s, a);
    case Send => SendingOrdered(dir, src, s, a); SendConserves(dir, src, init, s, a);
    case Close => SendingOrdered(dir, src, s, a); SendConserves(dir, src, init, s, a);
    case Receive => ReceivingOrdered(dir, src, s); ReceiveConserves(dir, src, init, s);
    case Write(n) => SendingOrdered(dir, src, s, a); WriteConserves(dir, src, init, s, n);
    case WriteFails => SendingOrdered(dir, src, s, a); FailConserves(dir, src, init, s);
  }

  lemma {:induction false} RunKeeps(dir: Direction, src: Bytes, init: Bytes, run: seq<State>, k: nat)
    requires IsRun(dir, src, init, run) && k < |run|
    ensures Ordered(run[k]) && Conserved(dir, src, init, run[k])
  {
    hide Steps;
    if k == 0 {
      assert src[..0] + Tail(init, 0) == init;
    } else {
      RunKeeps(dir, src, init, run, k - 1);
      StepKeeps(dir, src, init, run[k - 1], run[k]);
    }
  }

  // ----- the transfer as a whole

  /** At every moment of every run: what lies in the destination is a start of the source. */
  lemma AlwaysAPrefix(dir: Direction, src: Bytes, init: Bytes, run: seq<State>, k: nat)
    requires IsRun(dir, src, init, run) && k < |run| && run[k].receiver.lost == 0
    ensures var r := run[k].receiver; r.at <= |src| && r.file == src[..r.at] + Tail(init, r.at)
    ensures init == [] ==> run[k].receiver.file <= src
  {
    RunKeeps(dir, src, init, run, k);
  }

  /** The server loses nothing, however short its writes are, unless one fails. */
  lemma PutLosesNothing(src: Bytes, init: Bytes, run: seq<State>, k: nat)
    requires IsRun(Put, src, init, run) && k < |run| && !run[k].receiver.refused
    ensures run[k].receiver.lost == 0
  {
    RunKeeps(Put, src, init, run, k);
  }

  /** When FILE_COMPLETE has been handled, every byte that was read is in the file or lost. */
  lemma NothingOnTheWay(dir: Direction, src: Bytes, init: Bytes, run: seq<State>, k: nat)
    requires IsRun(dir, src, init, run) && k < |run| && run[k].receiver.complete
    ensures var t, r := run[k].sender, run[k].receiver; r.at + r.lost == t.off && (!t.failed ==> t.off == |src|)
  {
    RunKeeps(dir, src, init, run, k);
  }

  /**
   * A put without read or write errors leaves the source in the destination, and behind it what the
   * longer file had there before, for the server does not empty the file: so the two are equal exactly
   * when the destination was not longer.
   */
  lemma PutDelivers(src: Bytes, init: Bytes, run: seq<State>, k: nat)
    requires IsRun(Put, src, init, run) && k < |run| && run[k].receiver.complete
    requires !run[k].sender.failed && !run[k].receiver.refused
    ensures run[k].receiver.file == src + Tail(init, |src|)
    ensures run[k].receiver.file == src <==> |init| <= |src|
  {
    PutLosesNothing(src, init, run, k);
    NothingOnTheWay(Put, src, init, run, k);
    AlwaysAPrefix(Put, src, init, run, k);
    assert src[..|src|] == src;
  }

  /** A step in which a write moves fewer bytes than it was given, or fails. */
  ghost predicate WritesShort(src: Bytes, s: State, s': State) {
    exists a :: Enabled(src, s, a) && s' == Next(Get, src, s, a)
                && (a.WriteFails? || (a.Write? && a.n < |s.receiver.pending|))
  }

  ghost predicate AllWritesWhole(src: Bytes, run: seq<State>, k: nat)
    requires k < |run|
  {
    forall i :: 0 < i <= k ==> !WritesShort(src, run[i - 1], run[i])
  }

  lemma StepLoses(src: Bytes, s: State, s': State)
    requires Steps(Get, src, s, s')
    ensures s'.receiver.lost >= s.receiver.lost
    ensures s'.receiver.lost == s.receiver.lost <==> !WritesShort(src, s, s')
  {
    var a :| Enabled(src, s, a) && s' == Next(Get, src, s, a);
  }

  /** On a get nothing is lost exactly as long as every write was whole. */
  lemma {:induction false} LostByShortWrites(src: Bytes, init: Bytes, run: seq<State>, k: nat)
    requires IsRun(Get, src, init, run) && k < |run|
    ensures run[k].receiver.lost == 0 <==> AllWritesWhole(src, run, k)
  {
    hide Steps, WritesShort;
    if k == 0 {
    } else {
      LostByShortWrites(src, init, run, k - 1);
      StepLoses(src, run[k - 1], run[k]);
    }
  }

  /**
   * A get without read errors and with whole writes leaves the source in the destination, and behind it
   * what a longer file had there before, for the client does not empty it either. Into a shorter or an
   * empty file it delivers the source exactly when every write was whole.
   */
  lemma GetDelivers(src: Bytes, init: Bytes, run: seq<State>, k: nat)
    requires IsRun(Get, src, init, run) && k < |run| && run[k].receiver.complete && !run[k].sender.failed
    ensures var file := run[k].receiver.file;
            && (AllWritesWhole(src, run, k) ==> file == src + Tail(init, |src|) && (file == src <==> |init| <= |src|))
            && (|init| < |src| || init == [] ==> (file == src <==> AllWritesWhole(src, run, k)))
  {
    hide AllWritesWhole;
    RunKeeps(Get, src, init, run, k);
    NothingOnTheWay(Get, src, init, run, k);
    LostByShortWrites(src, init, run, k);
    if run[k].receiver.lost == 0 {
      AlwaysAPrefix(Get, src, init, run, k);
      assert src[..|src|] == src;
    }
  }

  /** No run gets stuck before FILE_COMPLETE has been handled. */
  lemma NeverStuck(dir: Direction, src: Bytes, init: Bytes, run: seq<State>, k: nat) returns (a: Action)
    requires IsRun(dir, src, init, run) && k < |run| && !run[k].receiver.complete
    ensures Enabled(src, run[k], a) && Next(dir, src, run[k], a) != run[k] && !a.ReadFails? && !a.WriteFails?
  {
    RunKeeps(dir, src, init, run, k);
    var t, r, left := run[k].sender, run[k].receiver, |src| - run[k].sender.off;
    a := if r.pending != [] then Write(|r.pending|)
         else if run[k].wire != [] then Receive
         else match t.place
              case Opening => Open([])
              case Reading => Read(if left <= MAX_BUFFER_SIZE - 2 then left else MAX_BUFFER_SIZE - 2)
              case Sending => Send
              case Closing => Close
              case Finished => Receive;
  }

  // ----- every transfer ends

  /** How much there is still to do: a byte counts the more the further it is from the file. */
  function Weight(src: Bytes, s: State): int {
    var rank := match s.sender.place
                case Opening => 5
                case Reading => 3
                case Sending => 3
                case Closing => 2
                case Finished => 0;
    6 * (|src| - s.sender.off) + 4 * |s.sender.chunk| + 2 * |Carried(s.wire)| + |s.receiver.pending| + |s.wire| + rank
  }

  lemma StepWorks(dir: Direction, src: Bytes, s: State, a: Action)
    requires Enabled(src, s, a) && Ordered(s) && s.receiver.at <= |s.receiver.file| && s.sender.off <= |src|
    ensures var s' := Next(dir, src, s, a); s' == s || Weight(src, s') < Weight(src, s)
  {
    if a.Open? || a.Send? || a.Close? {
      SendWorks(dir, src, s, a);
    } else if a.Write? {
      WriteWorks(dir, src, s, a.n);
    }
  }

  lemma SendWorks(dir: Direction, src: Bytes, s: State, a: Action)
    requires Enabled(src, s, a) && Ordered(s) && s.sender.off <= |src| && (a.Open? || a.Send? || a.Close?)
    ensures Weight(src, Next(dir, src, s, a)) < Weight(src, s)
  {
    var s' := Next(dir, src, s, a);
    CarriedSnoc(s.wire, s'.wire[|s.wire|]);
  }

  lemma WriteWorks(dir: Direction, src: Bytes, s: State, n: nat)
    requires Enabled(src, s, Write(n)) && s.sender.off <= |src|
    ensures var s' := Next(dir, src, s, Write(n)); s' == s || Weight(src, s') < Weight(src, s)
  {
    hide Carried;
    var s' := Next(dir, src, s, Write(n));
    if n == 0 && dir == Put {
      assert s'.receiver.file == s.receiver.file;
      assert s'.receiver.pending == s.receiver.pending;
    }
  }

  /** A run that never stands still is over after a number of steps that the size of the source bounds. */
  lemma {:induction false} RunsEnd(dir: Direction, src: Bytes, init: Bytes, run: seq<State>, k: nat)
    requires IsRun(dir, src, init, run) && k < |run|
    requires forall i :: 0 < i < |run| ==> run[i] != run[i - 1]
    ensures k + Weight(src, run[k]) <= 6 * |src| + 5 && k <= 6 * |src| + 5
  {
    hide Steps;
    RunKeeps(dir, src, init, run, k);
    if k == 0 {
    } else {
      RunsEnd(dir, src, init, run, k - 1);
      RunKeeps(dir, src, init, run, k - 1);
      MoveWorks(dir, src, init, run[k - 1], run[k]);
    }
  }

  lemma MoveWorks(dir: Direction, src: Bytes, init: Bytes, s: State, s': State)
    requires Steps(dir, src, s, s') && s' != s && Ordered(s) && Conserved(dir, src, init, s)
    ensures Weight(src, s') < Weight(src, s)
  {
    hide Ordered, Next, Weight;
    var a :| Enabled(src, s, a) && s' == Next(dir, src, s, a);
    StepWorks(dir, src, s, a);
  }
}
