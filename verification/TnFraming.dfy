// Telnet record framing as TN3270 uses it: what the receiver makes of the
// bytes on the wire, and that it undoes what the sender does.

module TnFraming {
  import opened Bytes
  import opened Options
  import opened TnBuffer

  // Command bytes of RFC 854 and RFC 885.
  const SE: Byte := 240
  const SB: Byte := 250
  const WILL: Byte := 251
  const DONT: Byte := 254
  const END_OF_RECORD := 25

  datatype Phase = InData | HaveIac | HaveVerb | HaveSb | HaveSbIac

  /**
   * The receiver: the record being put together, the records delivered, the subnegotiation being
   * collected, and the subnegotiation bodies that went to their handler.
   */
  datatype Receiver = Receiver(phase: Phase, current: Option<Bytes>, delivered: seq<Bytes>,
                               sb: Bytes, subs: seq<Bytes>) {
    /** A data byte for the current record, which it starts if there is none. */
    function Put(b: Byte): Receiver {
      this.(phase := InData, current := Some((if current.Some? then current.value else []) + [b]))
    }

    /** An end of record; without a record it is taken for a data byte, -END_OF_RECORD in eight bits. */
    function EndRecord(): Receiver {
      if current.Some? then this.(phase := InData, current := None, delivered := delivered + [current.value])
      else Put(256 - END_OF_RECORD)
    }
  }

  const START := Receiver(InData, None, [], [], [])

  predicate IsVerb(b: Byte) {
    WILL <= b <= DONT
  }

  function Step(rx: Receiver, b: Byte): Receiver {
    match rx.phase
    case InData =>
      if b == IAC then rx.(phase := HaveIac) else rx.Put(b)
    case HaveIac =>
      if b == IAC then rx.Put(IAC)
      else if IsVerb(b) then rx.(phase := HaveVerb)
      else if b == SB then rx.(phase := HaveSb, sb := [])
      else if b == EOR then rx.EndRecord()
      else rx.(phase := InData)
    case HaveVerb =>
      rx.(phase := InData)
    case HaveSb =>
      if b == IAC then rx.(phase := HaveSbIac) else rx.(sb := rx.sb + [b])
    case HaveSbIac =>
      if b == IAC then rx.(sb := rx.sb + [IAC])
      else if b == SE then rx.(phase := InData, sb := [], subs := rx.subs + [rx.sb])
      else rx.(phase := HaveSb)
  }

  function Feed(rx: Receiver, s: Bytes): Receiver {
    if s == [] then rx else Step(Feed(rx, s[..|s| - 1]), s[|s| - 1])
  }

  /** Bytes received in two portions leave the receiver where the same bytes in one portion do. */
  lemma {:induction false} ChunkIndependence(rx: Receiver, a: Bytes, b: Bytes)
    ensures Feed(rx, a + b) == Feed(Feed(rx, a), b)
  {
    if b == [] {
      assert a + b == a;
    } else {
      var n := |b| - 1;
      assert (a + b)[..|a| + n] == a + b[..n];
      ChunkIndependence(rx, a, b[..n]);
    }
  }

  function Concat(chunks: seq<Bytes>): Bytes {
    if chunks == [] then [] else Concat(chunks[..|chunks| - 1]) + chunks[|chunks| - 1]
  }

  function FeedChunks(rx: Receiver, chunks: seq<Bytes>): Receiver {
    if chunks == [] then rx else Feed(FeedChunks(rx, chunks[..|chunks| - 1]), chunks[|chunks| - 1])
  }

  /** However the input is cut into portions, only the bytes matter. */
  lemma {:induction false} AnyChunks(rx: Receiver, chunks: seq<Bytes>)
    ensures FeedChunks(rx, chunks) == Feed(rx, Concat(chunks))
  {
    if chunks == [] {
    } else {
      var n := |chunks| - 1;
      AnyChunks(rx, chunks[..n]);
      ChunkIndependence(rx, Concat(chunks[..n]), chunks[n]);
    }
  }

  /** The receiver with records that have been delivered before. */
  function Prefixed(earlier: seq<Bytes>, rx: Receiver): Receiver {
    rx.(delivered := earlier + rx.delivered)
  }

  /** What has been taken away does not matter for what is still to come. */
  lemma {:induction false} FeedPrefixed(earlier: seq<Bytes>, rx: Receiver, s: Bytes)
    ensures Feed(Prefixed(earlier, rx), s) == Prefixed(earlier, Feed(rx, s))
  {
    if s == [] {
    } else {
      FeedPrefixed(earlier, rx, s[..|s| - 1]);
      StepPrefixed(earlier, Feed(rx, s[..|s| - 1]), s[|s| - 1]);
    }
  }

  lemma StepPrefixed(earlier: seq<Bytes>, rx: Receiver, b: Byte)
    ensures Step(Prefixed(earlier, rx), b) == Prefixed(earlier, Step(rx, b))
  {
    assert rx.current.Some? ==>
        earlier + (rx.delivered + [rx.current.value]) == earlier + rx.delivered + [rx.current.value];
  }

  // ----- what is put on the wire

  /** Part of a subnegotiation: a byte of its body, or an escape in it that is not the end of it. */
  datatype Piece = Plain(b: Byte) | Broken(iacs: nat, b: Byte)

  datatype Item =
    | Data(b: Byte)
    | Command(c: Byte)
    | Verb(verb: Byte, option: Byte)
    | Sub(pieces: seq<Piece>, iacs: nat)
    | End

  predicate ProperPiece(p: Piece) {
    if p.Plain? then p.b != 255 else p.b != 255 && p.b != 240
  }

  predicate Proper(item: Item) {
    match item
    case Command(c) => c != 239 && !(250 <= c <= 255)
    case Verb(verb, option) => 251 <= verb <= 254
    case Sub(pieces, iacs) => forall i :: 0 <= i < |pieces| ==> ProperPiece(pieces[i])
    case _ => true
  }

  function Iacs(n: nat): Bytes {
    seq(n, _ => 255)
  }

  function PieceWire(p: Piece): Bytes {
    if p.Plain? then [p.b] else [255] + Iacs(p.iacs) + [p.b]
  }

  function PiecesWire(pieces: seq<Piece>): Bytes {
    if pieces == [] then [] else PiecesWire(pieces[..|pieces| - 1]) + PieceWire(pieces[|pieces| - 1])
  }

  function WireOf(item: Item): Bytes {
    match item
    case Data(b) => if b == 255 then [255, 255] else [b]
    case Command(c) => [255, c]
    case Verb(verb, option) => [255, verb, option]
    case Sub(pieces, iacs) => [255, 250] + PiecesWire(pieces) + [255] + Iacs(iacs) + [240]
    case End => [255, 239]
  }

  function Wire(items: seq<Item>): Bytes {
    if items == [] then [] else Wire(items[..|items| - 1]) + WireOf(items[|items| - 1])
  }

  /** What of a subnegotiation goes to its handler: the byte behind an escape does not. */
  function PieceBody(p: Piece): Bytes {
    if p.Plain? then [p.b] else Iacs(p.iacs)
  }

  function PiecesBody(pieces: seq<Piece>): Bytes {
    if pieces == [] then [] else PiecesBody(pieces[..|pieces| - 1]) + PieceBody(pieces[|pieces| - 1])
  }

  /** What an item means, read without its encoding. */
  function Apply(rx: Receiver, item: Item): Receiver {
    match item
    case Data(b) => rx.Put(b)
    case Command(_) => rx
    case Verb(_, _) => rx
    case Sub(pieces, iacs) => rx.(sb := [], subs := rx.subs + [PiecesBody(pieces) + Iacs(iacs)])
    case End => rx.EndRecord()
  }

  function ApplyAll(rx: Receiver, items: seq<Item>): Receiver {
    if items == [] then rx else Apply(ApplyAll(rx, items[..|items| - 1]), items[|items| - 1])
  }

  lemma Feed1(rx: Receiver, a: Byte)
    ensures Feed(rx, [a]) == Step(rx, a)
  {
    assert Feed(rx, [a][..0]) == rx;
  }

  lemma Feed2(rx: Receiver, a: Byte, b: Byte)
    ensures Feed(rx, [a, b]) == Step(Step(rx, a), b)
  {
    Feed1(rx, a);
    assert [a, b][..1] == [a];
  }

  lemma {:induction false} FeedBody(rx: Receiver, body: Bytes)
    requires rx.phase == HaveSb && IAC !in body
    ensures Feed(rx, body) == rx.(sb := rx.sb + body)
  {
    if body == [] {
      assert rx.sb + body == rx.sb;
    } else {
      var n := |body| - 1;
      FeedBody(rx, body[..n]);
      assert rx.sb + body == rx.sb + body[..n] + [body[n]];
      assert body[n] in body;
    }
  }

  lemma Associates(a: Bytes, b: Bytes, c: Bytes)
    ensures (a + b) + c == a + (b + c)
  {
  }

  lemma {:induction false} FeedIacs(rx: Receiver, n: nat)
    requires rx.phase == HaveSbIac
    ensures Feed(rx, Iacs(n)) == rx.(sb := rx.sb + Iacs(n))
  {
    if n == 0 {
      assert rx.sb + Iacs(n) == rx.sb;
    } else {
      FeedIacs(rx, n - 1);
      assert Iacs(n)[..n - 1] == Iacs(n - 1);
      assert rx.sb + Iacs(n) == rx.sb + Iacs(n - 1) + [IAC];
    }
  }

  lemma FeedEscape(rx: Receiver, n: nat, b: Byte)
    requires rx.phase == HaveSb
    ensures Feed(rx, [255] + Iacs(n) + [b]) == Step(rx.(phase := HaveSbIac, sb := rx.sb + Iacs(n)), b)
  {
    Feed1(rx, 255);
    FeedIacs(rx.(phase := HaveSbIac), n);
    ChunkIndependence(rx, [255], Iacs(n));
    assert ([255] + Iacs(n) + [b])[..n + 1] == [255] + Iacs(n);
  }

  lemma FeedPiece(rx: Receiver, p: Piece)
    requires rx.phase == HaveSb && ProperPiece(p)
    ensures Feed(rx, PieceWire(p)) == rx.(sb := rx.sb + PieceBody(p))
  {
    if p.Plain? {
      Feed1(rx, p.b);
    } else {
      FeedEscape(rx, p.iacs, p.b);
    }
  }

  lemma {:induction false} FeedPieces(rx: Receiver, pieces: seq<Piece>)
    requires rx.phase == HaveSb && forall i :: 0 <= i < |pieces| ==> ProperPiece(pieces[i])
    ensures Feed(rx, PiecesWire(pieces)) == rx.(sb := rx.sb + PiecesBody(pieces))
  {
    hide Step, PieceWire, PieceBody, ProperPiece;
    if pieces == [] {
      assert rx.sb + PiecesBody(pieces) == rx.sb;
    } else {
      var n := |pieces| - 1;
      FeedPieces(rx, pieces[..n]);
      FeedPiece(Feed(rx, PiecesWire(pieces[..n])), pieces[n]);
      ChunkIndependence(rx, PiecesWire(pieces[..n]), PieceWire(pieces[n]));
      Associates(rx.sb, PiecesBody(pieces[..n]), PieceBody(pieces[n]));
    }
  }

  // What each unit of the wire does between two others, and what it leaves as it is.

  lemma DataRead(rx: Receiver, b: Byte)
    requires rx.phase == InData
    ensures Feed(rx, if b == 255 then [255, 255] else [b]) ==
            rx.(current := Some((if rx.current.Some? then rx.current.value else []) + [b]))
  {
    Feed1(rx, b);
    Feed2(rx, 255, 255);
  }

  lemma CommandRead(rx: Receiver, c: Byte)
    requires rx.phase == InData && c != 239 && !(250 <= c <= 255)
    ensures Feed(rx, [255, c]) == rx
  {
    Feed2(rx, 255, c);
  }

  lemma VerbRead(rx: Receiver, verb: Byte, option: Byte)
    requires rx.phase == InData && 251 <= verb <= 254
    ensures Feed(rx, [255, verb, option]) == rx
  {
    Feed2(rx, 255, verb);
    assert [255, verb, option][..2] == [255, verb];
  }

  /** An end of record delivers the current record; without one it is taken for a byte of the next. */
  lemma EndRead(rx: Receiver)
    requires rx.phase == InData
    ensures Feed(rx, [255, 239]) ==
            if rx.current.Some? then rx.(current := None, delivered := rx.delivered + [rx.current.value])
            else rx.(current := Some([231]))
  {
    Feed2(rx, 255, 239);
    var stray: Bytes := [231];
    assert [] + stray == stray;
  }

  /**
   * A subnegotiation: its handler gets the bytes that are not escaped, and of each run of escapes all
   * but the first; the byte behind a run is lost unless it is the end.
   */
  lemma SubRead(rx: Receiver, pieces: seq<Piece>, iacs: nat)
    requires rx.phase == InData && forall i :: 0 <= i < |pieces| ==> ProperPiece(pieces[i])
    ensures Feed(rx, [255, 250] + PiecesWire(pieces) + [255] + Iacs(iacs) + [240]) ==
            rx.(sb := [], subs := rx.subs + [PiecesBody(pieces) + Iacs(iacs)])
  {
    hide Feed, Step, PiecesBody, PiecesWire, Iacs;
    var w, open := PiecesWire(pieces), rx.(phase := HaveSb, sb := []);
    assert Feed(rx, [255, 250]) == open by { SubOpens(rx); }
    FeedPieces(open, pieces);
    assert [] + PiecesBody(pieces) == PiecesBody(pieces);
    SubEnds(open.(sb := PiecesBody(pieces)), iacs);
    ChunkIndependence(rx, [255, 250], w);
    ChunkIndependence(rx, [255, 250] + w, [255] + Iacs(iacs) + [240]);
    assert [255, 250] + w + [255] + Iacs(iacs) + [240] == ([255, 250] + w) + ([255] + Iacs(iacs) + [240]);
  }

  lemma SubOpens(rx: Receiver)
    requires rx.phase == InData
    ensures Feed(rx, [255, 250]) == rx.(phase := HaveSb, sb := [])
  {
    Feed2(rx, 255, 250);
  }

  lemma SubEnds(rx: Receiver, n: nat)
    requires rx.phase == HaveSb
    ensures Feed(rx, [255] + Iacs(n) + [240]) == rx.(phase := InData, sb := [], subs := rx.subs + [rx.sb + Iacs(n)])
  {
    FeedEscape(rx, n, 240);
  }

  lemma ItemDecoded(rx: Receiver, item: Item)
    requires rx.phase == InData && Proper(item)
    ensures Feed(rx, WireOf(item)) == Apply(rx, item) && Apply(rx, item).phase == InData
  {
    hide Feed, Step;
    match item
    case Data(b) => DataRead(rx, b);
    case Command(c) => CommandRead(rx, c);
    case Verb(verb, option) => VerbRead(rx, verb, option);
    case Sub(pieces, iacs) => SubRead(rx, pieces, iacs);
    case End =>
      EndRead(rx);
      var stray: Bytes := [231];
      assert [] + stray == stray;
  }

  /** The receiver reads back, from its encoding, any sequence of data, negotiation and record ends. */
  lemma {:induction false} WireDecoded(rx: Receiver, items: seq<Item>)
    requires rx.phase == InData && forall i :: 0 <= i < |items| ==> Proper(items[i])
    ensures Feed(rx, Wire(items)) == ApplyAll(rx, items) && ApplyAll(rx, items).phase == InData
  {
    hide Step, Apply, WireOf, Proper;
    if items == [] {
    } else {
      var n := |items| - 1;
      WireDecoded(rx, items[..n]);
      ItemDecoded(ApplyAll(rx, items[..n]), items[n]);
      ChunkIndependence(rx, Wire(items[..n]), WireOf(items[n]));
    }
  }

  lemma WireSnoc(items: seq<Item>, item: Item)
    ensures Wire(items + [item]) == Wire(items) + WireOf(item)
  {
    assert (items + [item])[..|items|] == items;
  }

  /** What there may be at the end of the input that is not yet an item. */
  datatype Tail =
    | Whole
    | Escape
    | Asked(verb: Byte)
    | Inside(pieces: seq<Piece>)
    | InsideIac(pieces: seq<Piece>, iacs: nat)

  predicate ProperTail(t: Tail) {
    match t
    case Whole => true
    case Escape => true
    case Asked(verb) => 251 <= verb <= 254
    case Inside(pieces) => forall i :: 0 <= i < |pieces| ==> ProperPiece(pieces[i])
    case InsideIac(pieces, iacs) => forall i :: 0 <= i < |pieces| ==> ProperPiece(pieces[i])
  }

  function TailWire(t: Tail): Bytes {
    match t
    case Whole => []
    case Escape => [255]
    case Asked(verb) => [255, verb]
    case Inside(pieces) => [255, 250] + PiecesWire(pieces)
    case InsideIac(pieces, iacs) => [255, 250] + PiecesWire(pieces) + [255] + Iacs(iacs)
  }

  lemma OpenWire()
    ensures [255, 250] + PiecesWire([]) == [255, 250]
  {
  }

  lemma IacsGrow(n: nat)
    ensures Iacs(n + 1) == Iacs(n) + [255] && Iacs(0) == []
  {
  }

  lemma PiecesGrow(pieces: seq<Piece>, p: Piece)
    requires p.b != 255 && (p.Broken? ==> p.b != 240)
    ensures PiecesWire(pieces + [p]) == PiecesWire(pieces) + PieceWire(p) && ProperPiece(p)
  {
    assert (pieces + [p])[..|pieces|] == pieces;
  }

  /** What one more byte makes of the rest: an item, or more of it. */
  lemma OneMore(t: Tail, b: Byte) returns (items: seq<Item>, t': Tail)
    requires ProperTail(t)
    ensures ProperTail(t')
    ensures if items == [] then TailWire(t') == TailWire(t) + [b]
            else |items| == 1 && t' == Whole && Proper(items[0]) && WireOf(items[0]) == TailWire(t) + [b]
  {
    hide PiecesWire, Iacs, ProperPiece;
    items, t' := [], Whole;
    match t {
      case Whole =>
        if b == 255 {
          t' := Escape;
        } else {
          items := [Data(b)];
        }
      case Escape =>
        if b == 255 {
          items := [Data(255)];
        } else if 251 <= b <= 254 {
          t' := Asked(b);
        } else if b == 250 {
          t' := Inside([]);
          OpenWire();
        } else {
          items := [if b == 239 then End else Command(b)];
        }
      case Asked(verb) =>
        items := [Verb(verb, b)];
      case Inside(pieces) =>
        t' := OneMoreInside(pieces, b);
      case InsideIac(pieces, iacs) =>
        if b == 240 {
          items := [Sub(pieces, iacs)];
        } else {
          t' := OneMoreEscaped(pieces, iacs, b);
        }
    }
  }

  lemma OneMoreInside(pieces: seq<Piece>, b: Byte) returns (t: Tail)
    requires ProperTail(Inside(pieces))
    ensures ProperTail(t) && TailWire(t) == TailWire(Inside(pieces)) + [b]
  {
    hide PiecesWire, Iacs, ProperPiece;
    if b == 255 {
      t := InsideIac(pieces, 0);
      IacsGrow(0);
    } else {
      t := Inside(pieces + [Plain(b)]);
      PiecesGrow(pieces, Plain(b));
    }
  }

  lemma OneMoreEscaped(pieces: seq<Piece>, iacs: nat, b: Byte) returns (t: Tail)
    requires ProperTail(InsideIac(pieces, iacs)) && b != 240
    ensures ProperTail(t) && TailWire(t) == TailWire(InsideIac(pieces, iacs)) + [b]
  {
    hide PiecesWire, Iacs, ProperPiece;
    if b == 255 {
      t := InsideIac(pieces, iacs + 1);
      IacsGrow(iacs);
    } else {
      t := Inside(pieces + [Broken(iacs, b)]);
      PiecesGrow(pieces, Broken(iacs, b));
    }
  }

  lemma TakenUp(items: seq<Item>, t: Tail, b: Byte, more: seq<Item>, t': Tail)
    requires if more == [] then TailWire(t') == TailWire(t) + [b]
             else |more| == 1 && t' == Whole && WireOf(more[0]) == TailWire(t) + [b]
    ensures Wire(items + more) + TailWire(t') == Wire(items) + TailWire(t) + [b]
  {
    Associates(Wire(items), TailWire(t), [b]);
    if more == [] {
      assert items + more == items;
    } else {
      WireSnoc(items, more[0]);
      assert more == [more[0]];
    }
  }

  lemma NothingYet()
    ensures Wire([]) + TailWire(Whole) == [] && ProperTail(Whole)
  {
  }

  /** Every input is a sequence of items and a rest that is not yet one. */
  lemma {:induction false} EveryInput(s: Bytes) returns (items: seq<Item>, t: Tail)
    ensures ProperTail(t) && forall i :: 0 <= i < |items| ==> Proper(items[i])
    ensures s == Wire(items) + TailWire(t)
  {
    hide Wire, TailWire, WireOf, Proper, ProperTail;
    items, t := [], Whole;
    NothingYet();
    if s == [] {
    } else {
      var n := |s| - 1;
      var before, rest := EveryInput(s[..n]);
      var more;
      more, t := OneMore(rest, s[n]);
      items := before + more;
      TakenUp(before, rest, s[n], more, t);
      assert s == s[..n] + [s[n]];
    }
  }

  lemma TailRead(rx: Receiver, t: Tail)
    requires rx.phase == InData && ProperTail(t)
    ensures var r := Feed(rx, TailWire(t));
            r.current == rx.current && r.delivered == rx.delivered && r.subs == rx.subs
  {
    hide PiecesWire, PiecesBody;
    match t
    case Whole =>
    case Escape => Feed1(rx, 255);
    case Asked(verb) => Feed2(rx, 255, verb);
    case Inside(pieces) => InsideRead(rx, pieces);
    case InsideIac(pieces, iacs) =>
      InsideRead(rx, pieces);
      var mid := Feed(rx, [255, 250] + PiecesWire(pieces));
      ChunkIndependence(rx, [255, 250] + PiecesWire(pieces), [255]);
      ChunkIndependence(rx, [255, 250] + PiecesWire(pieces) + [255], Iacs(iacs));
      Feed1(mid, 255);
      FeedIacs(Step(mid, 255), iacs);
  }

  lemma InsideRead(rx: Receiver, pieces: seq<Piece>)
    requires rx.phase == InData && forall i :: 0 <= i < |pieces| ==> ProperPiece(pieces[i])
    ensures Feed(rx, [255, 250] + PiecesWire(pieces)) == rx.(phase := HaveSb, sb := [] + PiecesBody(pieces))
  {
    SubOpens(rx);
    FeedPieces(rx.(phase := HaveSb, sb := []), pieces);
    ChunkIndependence(rx, [255, 250], PiecesWire(pieces));
  }

  /** What any input does: the items in it, one after the other, and nothing else. */
  lemma AnyInputRead(rx: Receiver, s: Bytes) returns (items: seq<Item>, t: Tail)
    requires rx.phase == InData
    ensures ProperTail(t) && forall i :: 0 <= i < |items| ==> Proper(items[i])
    ensures s == Wire(items) + TailWire(t)
    ensures var r, a := Feed(rx, s), ApplyAll(rx, items);
            r.current == a.current && r.delivered == a.delivered && r.subs == a.subs
  {
    hide Feed, Wire, TailWire, ApplyAll, Proper, ProperTail;
    items, t := EveryInput(s);
    WireDecoded(rx, items);
    TailRead(ApplyAll(rx, items), t);
    ChunkIndependence(rx, Wire(items), TailWire(t));
  }

  // ----- the round trip

  function DataItems(s: Bytes): seq<Item> {
    if s == [] then [] else DataItems(s[..|s| - 1]) + [Data(s[|s| - 1])]
  }

  /** What sending the payloads one after the other puts on the wire, without negotiation. */
  function Sent(payloads: seq<Bytes>): seq<Item> {
    if payloads == [] then []
    else Sent(payloads[..|payloads| - 1]) + DataItems(payloads[|payloads| - 1]) + [End]
  }

  /** The items that carry records. */
  function Strip(items: seq<Item>): seq<Item> {
    if items == [] then []
    else Strip(items[..|items| - 1]) +
         (if items[|items| - 1].Data? || items[|items| - 1].End? then [items[|items| - 1]] else [])
  }

  lemma ApplySnoc(rx: Receiver, items: seq<Item>, item: Item)
    ensures ApplyAll(rx, items + [item]) == Apply(ApplyAll(rx, items), item)
  {
    assert (items + [item])[..|items|] == items;
  }

  lemma {:induction false} DataWire(items: seq<Item>, s: Bytes)
    ensures Wire(items + DataItems(s)) == Wire(items) + Escaped(s)
  {
    hide Wire, Escaped;
    if s == [] {
      assert items + DataItems(s) == items;
      EscapedNone(s);
    } else {
      var n := |s| - 1;
      DataWire(items, s[..n]);
      EscapedLast(s);
      WireSnoc(items + DataItems(s[..n]), Data(s[n]));
      Associates(Wire(items), Escaped(s[..n]), EscapedByte(s[n]));
      assert items + DataItems(s) == items + DataItems(s[..n]) + [Data(s[n])];
    }
  }

  /** The bytes of Sent are those of one SendPacket after the other. */
  lemma SentWire(payloads: seq<Bytes>, p: Bytes)
    ensures Wire(Sent(payloads + [p])) == Wire(Sent(payloads)) + (Escaped(p) + [IAC, EOR])
  {
    assert (payloads + [p])[..|payloads|] == payloads;
    DataWire(Sent(payloads), p);
    WireSnoc(Sent(payloads) + DataItems(p), End);
  }

  function PutAll(rx: Receiver, s: Bytes): Receiver {
    if s == [] then rx else PutAll(rx, s[..|s| - 1]).Put(s[|s| - 1])
  }

  lemma {:induction false} PutAllMeaning(rx: Receiver, s: Bytes)
    requires s != []
    ensures PutAll(rx, s).delivered == rx.delivered
    ensures PutAll(rx, s).current == Some((if rx.current.Some? then rx.current.value else []) + s)
  {
    var n := |s| - 1;
    var was := if rx.current.Some? then rx.current.value else [];
    assert was + s == was + s[..n] + [s[n]];
    if n == 0 {
      assert s[..n] == [] && was + [] == was;
      assert PutAll(rx, s[..n]) == rx;
    } else {
      PutAllMeaning(rx, s[..n]);
    }
  }

  lemma {:induction false} DataApplied(rx: Receiver, items: seq<Item>, s: Bytes)
    ensures ApplyAll(rx, items + DataItems(s)) == PutAll(ApplyAll(rx, items), s)
  {
    if s == [] {
      assert items + DataItems(s) == items;
    } else {
      var n := |s| - 1;
      DataApplied(rx, items, s[..n]);
      ApplySnoc(rx, items + DataItems(s[..n]), Data(s[n]));
      assert items + DataItems(s) == items + DataItems(s[..n]) + [Data(s[n])];
    }
  }

  lemma SentSnoc(rx: Receiver, qs: seq<Bytes>, p: Bytes)
    ensures ApplyAll(rx, Sent(qs + [p])) == PutAll(ApplyAll(rx, Sent(qs)), p).EndRecord()
  {
    assert (qs + [p])[..|qs|] == qs;
    DataApplied(rx, Sent(qs), p);
    ApplySnoc(rx, Sent(qs) + DataItems(p), End);
  }

  /** A record with no bytes is not delivered; the records are all delivered exactly when none is empty. */
  lemma {:induction false} SentApplied(payloads: seq<Bytes>)
    ensures var r := ApplyAll(START, Sent(payloads));
            if [] !in payloads then r.delivered == payloads && r.current == None
            else |r.delivered| < |payloads|
  {
    hide ApplyAll, Sent;
    if payloads == [] {
      assert ApplyAll(START, Sent(payloads)) == START by { NothingSent(); }
    } else {
      var n := |payloads| - 1;
      var qs, p := payloads[..n], payloads[n];
      SentApplied(qs);
      assert payloads == qs + [p];
      SentSnoc(START, qs, p);
      assert [] in payloads <==> [] in qs || p == [];
      assert [] + p == p;
      if p != [] {
        PutAllMeaning(ApplyAll(START, Sent(qs)), p);
      }
    }
  }

  lemma NothingSent()
    ensures ApplyAll(START, Sent([])) == START
  {
  }

  lemma {:induction false} StripApplied(rx: Receiver, items: seq<Item>)
    ensures ApplyAll(rx, items).current == ApplyAll(rx, Strip(items)).current
    ensures ApplyAll(rx, items).delivered == ApplyAll(rx, Strip(items)).delivered
  {
    if items == [] {
    } else {
      var n := |items| - 1;
      StripApplied(rx, items[..n]);
      if items[n].Data? || items[n].End? {
        ApplySnoc(rx, Strip(items[..n]), items[n]);
      } else {
        assert Strip(items) == Strip(items[..n]);
      }
    }
  }

  /**
   * Whatever option negotiation and subnegotiation comes in between, feeding the receiver what the
   * sender made of the payloads delivers the payloads in order - exactly when none of them is empty.
   */
  lemma FramingRoundTrip(payloads: seq<Bytes>, items: seq<Item>)
    requires forall i :: 0 <= i < |items| ==> Proper(items[i])
    requires Strip(items) == Sent(payloads)
    ensures Feed(START, Wire(items)).delivered == payloads <==> [] !in payloads
    ensures [] !in payloads ==> Feed(START, Wire(items)).current == None && Feed(START, Wire(items)).phase == InData
  {
    WireDecoded(START, items);
    StripApplied(START, items);
    SentApplied(payloads);
  }

  lemma {:induction false} StripData(items: seq<Item>, s: Bytes)
    ensures Strip(items + DataItems(s)) == Strip(items) + DataItems(s)
  {
    if s == [] {
      assert items + DataItems(s) == items;
    } else {
      var before, last := items + DataItems(s[..|s| - 1]), [Data(s[|s| - 1])];
      StripData(items, s[..|s| - 1]);
      assert items + DataItems(s) == before + last && (before + last)[..|before|] == before;
      assert Strip(items) + DataItems(s) == Strip(items) + DataItems(s[..|s| - 1]) + last;
    }
  }

  lemma {:induction false} StripSent(payloads: seq<Bytes>)
    ensures Strip(Sent(payloads)) == Sent(payloads)
  {
    if payloads == [] {
    } else {
      var before, p := Sent(payloads[..|payloads| - 1]), payloads[|payloads| - 1];
      StripSent(payloads[..|payloads| - 1]);
      StripData(before, p);
      assert (before + DataItems(p) + [End])[..|before + DataItems(p)|] == before + DataItems(p);
    }
  }

  lemma {:induction false} SentProper(payloads: seq<Bytes>)
    ensures forall i :: 0 <= i < |Sent(payloads)| ==> Proper(Sent(payloads)[i])
  {
    if payloads == [] {
    } else {
      SentProper(payloads[..|payloads| - 1]);
      DataProper(payloads[|payloads| - 1]);
    }
  }

  lemma {:induction false} DataProper(s: Bytes)
    ensures forall i :: 0 <= i < |DataItems(s)| ==> Proper(DataItems(s)[i])
  {
    if s == [] {
    } else {
      DataProper(s[..|s| - 1]);
    }
  }

  /** Without any negotiation: what the sender writes for the payloads delivers them, unless one is empty. */
  lemma SentDelivers(payloads: seq<Bytes>)
    ensures Feed(START, Wire(Sent(payloads))).delivered == payloads <==> [] !in payloads
  {
    StripSent(payloads);
    SentProper(payloads);
    FramingRoundTrip(payloads, Sent(payloads));
  }

  // ----- subnegotiation with IAC in its body

  /**
   * The subnegotiation handler has not been called since `base`, or was next called with a body that
   * begins with `y`.
   */
  ghost predicate Committed(rx: Receiver, base: seq<Bytes>, y: Bytes) {
    || (rx.subs == base && (rx.phase == HaveSb || rx.phase == HaveSbIac) && y <= rx.sb)
    || (|rx.subs| > |base| && y <= rx.subs[|base|])
  }

  lemma {:induction false} StaysCommitted(rx: Receiver, base: seq<Bytes>, y: Bytes, s: Bytes)
    requires Committed(rx, base, y)
    ensures Committed(Feed(rx, s), base, y)
  {
    if s == [] {
    } else {
      StaysCommitted(rx, base, y, s[..|s| - 1]);
    }
  }

  lemma {:induction false} FeedFirst(rx: Receiver, a: Byte, s: Bytes)
    ensures Feed(rx, [a] + s) == Feed(Step(rx, a), s)
  {
    Feed1(rx, a);
    ChunkIndependence(rx, [a], s);
  }

  lemma {:induction false} EscapedFirst(s: Bytes)
    requires s != []
    ensures Escaped(s) == EscapedByte(s[0]) + Escaped(s[1..])
  {
    hide EscapedByte;
    var n := |s| - 1;
    EscapedLast(s);
    if n == 0 {
      EscapedNone(s[..0]);
      EscapedNone(s[1..]);
    } else {
      EscapedFirst(s[..n]);
      EscapedLast(s[1..]);
      assert s[..n][1..] == s[1..][..n - 1];
      Associates(EscapedByte(s[0]), Escaped(s[..n][1..]), EscapedByte(s[n]));
    }
  }

  const SUB_END := [IAC, SE]

  lemma EndNow(rx: Receiver)
    requires rx.phase == HaveSb || rx.phase == HaveSbIac
    ensures |Feed(rx, SUB_END).subs| == |rx.subs| + 1
    ensures Feed(rx, SUB_END).subs[|rx.subs|] == if rx.phase == HaveSb then rx.sb else rx.sb + [IAC]
  {
    Feed2(rx, IAC, SE);
  }

  /** What is still to come of a subnegotiation whose body has been sent up to `k`. */
  function Rest(body: Bytes, k: nat): Bytes
    requires k <= |body|
  {
    Escaped(body[k..]) + SUB_END
  }

  lemma RestEmpty(rx: Receiver, body: Bytes)
    ensures Feed(rx, Rest(body, |body|)) == Feed(rx, SUB_END)
  {
    EscapedNone(body[|body|..]);
    assert Rest(body, |body|) == SUB_END;
  }

  lemma RestIac(rx: Receiver, body: Bytes, k: nat)
    requires k < |body| && body[k] == IAC
    ensures Feed(rx, Rest(body, k)) == Feed(Step(Step(rx, IAC), IAC), Rest(body, k + 1))
  {
    hide Feed, Escaped, Step;
    EscapedFirst(body[k..]);
    assert body[k..][1..] == body[k + 1..];
    var more := Rest(body, k + 1);
    assert Rest(body, k) == [IAC] + ([IAC] + more);
    FeedFirst(rx, IAC, [IAC] + more);
    FeedFirst(Step(rx, IAC), IAC, more);
  }

  lemma RestByte(rx: Receiver, body: Bytes, k: nat)
    requires k < |body| && body[k] != IAC
    ensures Feed(rx, Rest(body, k)) == Feed(Step(rx, body[k]), Rest(body, k + 1))
  {
    hide Feed, Escaped, Step;
    EscapedFirst(body[k..]);
    assert body[k..][1..] == body[k + 1..];
    assert Rest(body, k) == [body[k]] + Rest(body, k + 1);
    FeedFirst(rx, body[k], Rest(body, k + 1));
  }

  /** The collected body has run ahead of what was sent: the next byte that is not IAC will differ from it. */
  lemma {:induction false} RunsAhead(rx: Receiver, base: seq<Bytes>, body: Bytes, k: nat)
    requires rx.phase == HaveSbIac && rx.subs == base && k <= |body| && k < |rx.sb|
    requires rx.sb[..k] == body[..k] && forall j :: k <= j < |rx.sb| ==> rx.sb[j] == IAC
    ensures Feed(rx, Rest(body, k)).subs != base + [body]
    decreases |body| - k
  {
    hide Feed, Escaped, Rest;
    if k == |body| {
      RestEmpty(rx, body);
      EndNow(rx);
    } else if body[k] == IAC {
      RestIac(rx, body, k);
      assert body[..k + 1] == body[..k] + [IAC];
      RunsAhead(Step(Step(rx, IAC), IAC), base, body, k + 1);
    } else {
      var y := rx.sb[..k + 1];
      StaysCommitted(rx, base, y, Rest(body, k));
      assert y[k] == IAC && body[k] != IAC;
    }
  }

  /** The collected body has lost the byte behind an escaped IAC at `i`; what follows it cannot make up for that. */
  lemma {:induction false} LagsBehind(rx: Receiver, base: seq<Bytes>, body: Bytes, i: nat, k: nat)
    requires rx.phase == HaveSb && rx.subs == base && i + 1 < k <= |body|
    requires |rx.sb| == k - 1 && forall j :: i + 1 <= j < k ==> body[j] != IAC
    ensures Feed(rx, Rest(body, k)).subs != base + [body]
    decreases |body| - k
  {
    hide Feed, Escaped, Rest;
    if k == |body| {
      RestEmpty(rx, body);
      EndNow(rx);
    } else if body[k] == IAC {
      RestIac(rx, body, k);
      var rx' := Step(Step(rx, IAC), IAC);
      StaysCommitted(rx', base, rx'.sb, Rest(body, k + 1));
      assert rx'.sb[k - 1] == IAC && body[k - 1] != IAC;
    } else {
      RestByte(rx, body, k);
      LagsBehind(Step(rx, body[k]), base, body, i, k + 1);
    }
  }

  /**
   * RFC 854 lets the body of a subnegotiation hold IAC, doubled. This receiver does not go back to
   * collecting after a doubled IAC, so its handler gets the body that was sent exactly when there is
   * no IAC in it.
   */
  lemma SubnegotiationExact(rx: Receiver, body: Bytes)
    requires rx.phase == InData
    ensures Feed(rx, [IAC, SB] + Escaped(body) + SUB_END).subs == rx.subs + [body] <==> IAC !in body
  {
    if IAC !in body {
      EscapedPlain(body);
      Feed2(rx, IAC, SB);
      var open := rx.(phase := HaveSb, sb := []);
      FeedBody(open, body);
      assert [] + body == body;
      Feed2(open.(sb := body), IAC, SE);
      ChunkIndependence(rx, [IAC, SB], body);
      ChunkIndependence(rx, [IAC, SB] + body, [IAC, SE]);
    } else {
      SubnegotiationBroken(rx, body);
    }
  }

  lemma SubnegotiationBroken(rx: Receiver, body: Bytes)
    requires rx.phase == InData && IAC in body
    ensures Feed(rx, [IAC, SB] + Escaped(body) + SUB_END).subs != rx.subs + [body]
  {
    hide Feed, Escaped, Step;
    var i := FirstIac(body);
    var before, rest := body[..i], Escaped(body[i + 1..]);
    var more := rest + SUB_END;
    EscapedPlain(before);
    EscapedSplit(body, i);
    Regroup(before, rest);
    UpToIac(rx, before, more);
    assert before + [IAC] == body[..i + 1];
    AfterIac(Receiver(HaveSbIac, rx.current, rx.delivered, body[..i + 1], rx.subs), rx.subs, body, i);
  }

  lemma Regroup(a: Bytes, b: Bytes)
    ensures [IAC, SB] + (a + ([IAC, IAC] + b)) + SUB_END == ([IAC, SB] + a) + ([IAC] + ([IAC] + (b + SUB_END)))
  {
  }

  /** A subnegotiation as far as its first doubled IAC. */
  lemma UpToIac(rx: Receiver, before: Bytes, more: Bytes)
    requires rx.phase == InData && IAC !in before
    ensures Feed(rx, ([IAC, SB] + before) + ([IAC] + ([IAC] + more))) ==
            Feed(Receiver(HaveSbIac, rx.current, rx.delivered, before + [IAC], rx.subs), more)
  {
    Feed2(rx, IAC, SB);
    var open := Feed(rx, [IAC, SB]);
    FeedBody(open, before);
    assert [] + before == before;
    ChunkIndependence(rx, [IAC, SB], before);
    ChunkIndependence(rx, [IAC, SB] + before, [IAC] + ([IAC] + more));
    var r := open.(sb := before);
    FeedFirst(r, IAC, [IAC] + more);
    FeedFirst(Step(r, IAC), IAC, more);
  }

  /** What becomes of a body behind its first IAC, at `i`. */
  lemma AfterIac(rx: Receiver, base: seq<Bytes>, body: Bytes, i: nat)
    requires i < |body| && body[i] == IAC
    requires rx.phase == HaveSbIac && rx.subs == base && rx.sb == body[..i + 1]
    ensures Feed(rx, Rest(body, i + 1)).subs != base + [body]
  {
    hide Feed, Escaped, Rest;
    if i + 1 == |body| {
      RestEmpty(rx, body);
      EndNow(rx);
    } else if body[i + 1] == IAC {
      RestIac(rx, body, i + 1);
      assert body[..i + 2] == body[..i + 1] + [IAC];
      RunsAhead(Step(Step(rx, IAC), IAC), base, body, i + 2);
    } else {
      RestByte(rx, body, i + 1);
      var rx' := Step(rx, body[i + 1]);
      if body[i + 1] == SE {
        SubsGrow(rx', Rest(body, i + 2));
        assert rx'.subs[|base|] == rx.sb;
      } else {
        LagsBehind(rx', base, body, i, i + 2);
      }
    }
  }

  lemma {:induction false} SubsGrow(rx: Receiver, s: Bytes)
    ensures rx.subs <= Feed(rx, s).subs
  {
    if s == [] {
    } else {
      SubsGrow(rx, s[..|s| - 1]);
    }
  }

  lemma FirstIac(body: Bytes) returns (i: nat)
    requires IAC in body
    ensures i < |body| && body[i] == IAC && IAC !in body[..i]
  {
    i := 0;
    while body[i] != IAC
      invariant i < |body| && IAC !in body[..i]
      decreases |body| - i
    {
      assert body[..i + 1] == body[..i] + [body[i]];
      i := i + 1;
      if i == |body| {
        assert body[..i] == body;
      }
    }
  }

  lemma {:induction false} EscapedPlain(s: Bytes)
    requires IAC !in s
    ensures Escaped(s) == s
  {
    if s == [] {
    } else {
      EscapedPlain(s[..|s| - 1]);
      assert s[|s| - 1] in s;
    }
  }

  lemma {:induction false} EscapedConcat(a: Bytes, b: Bytes)
    ensures Escaped(a + b) == Escaped(a) + Escaped(b)
  {
    hide Escaped, EscapedByte;
    if b == [] {
      assert a + b == a;
      EscapedNone(b);
    } else {
      var n := |b| - 1;
      assert (a + b)[..|a| + n] == a + b[..n];
      EscapedConcat(a, b[..n]);
      EscapedLast(a + b);
      EscapedLast(b);
      Associates(Escaped(a), Escaped(b[..n]), EscapedByte(b[n]));
    }
  }

  lemma EscapedSplit(body: Bytes, i: nat)
    requires i < |body| && body[i] == IAC
    ensures Escaped(body) == Escaped(body[..i]) + ([IAC, IAC] + Escaped(body[i + 1..]))
  {
    assert body == body[..i] + body[i..];
    EscapedConcat(body[..i], body[i..]);
    EscapedFirst(body[i..]);
  }
}
